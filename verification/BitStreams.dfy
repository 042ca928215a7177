/** Bits, bytes and the unsigned operators the decoders use on them. A bit stream is a
    sequence of Booleans; a byte contributes its least significant bit first. */
module BitStreams {

  datatype Option<+T> = None | Some(value: T)

  type Byte = n: nat | n < 256

  type BitSeq = seq<bool>

  function BitValue(b: bool): nat { if b then 1 else 0 }

  function Pow2(n: nat): (p: nat)
    ensures p > 0
  {
    if n == 0 then 1 else 2 * Pow2(n - 1)
  }

  // ----- unsigned operators, defined bit by bit

  /** `v << n` where no bit is lost. */
  function Shl(v: nat, n: nat): nat { if n == 0 then v else 2 * Shl(v, n - 1) }

  /** `v >> n`. */
  function Shr(v: nat, n: nat): nat { if n == 0 then v else Shr(v / 2, n - 1) }

  /** `v & ((1 << n) - 1)`. */
  function Mask(v: nat, n: nat): nat { if n == 0 then 0 else v % 2 + 2 * Mask(v / 2, n - 1) }

  /** `a | b`. */
  function Or(a: nat, b: nat): nat
    decreases a + b
  {
    if a == 0 && b == 0 then 0 else BitValue(a % 2 == 1 || b % 2 == 1) + 2 * Or(a / 2, b / 2)
  }

  predicate Fits(v: nat, n: nat) { Shr(v, n) == 0 }

  // ----- numbers as bits

  /** The `n` low bits of `v`, least significant first. */
  function Low(v: nat, n: nat): (s: BitSeq)
    ensures |s| == n
  {
    if n == 0 then [] else [v % 2 == 1] + Low(v / 2, n - 1)
  }

  function LsbValue(s: BitSeq): nat { if s == [] then 0 else BitValue(s[0]) + 2 * LsbValue(s[1..]) }

  /** The value of a bit string whose first bit is the most significant. */
  function MsbValue(s: BitSeq): nat
  {
    if s == [] then 0 else 2 * MsbValue(s[..|s| - 1]) + BitValue(s[|s| - 1])
  }

  /** The `n` low bits of `v`, most significant first. */
  function High(v: nat, n: nat): (s: BitSeq)
    ensures |s| == n
  {
    if n == 0 then [] else High(v / 2, n - 1) + [v % 2 == 1]
  }

  function ByteBits(bytes: seq<Byte>): (s: BitSeq)
    ensures |s| == 8 * |bytes|
  {
    if bytes == [] then [] else Low(bytes[0], 8) + ByteBits(bytes[1..])
  }

  lemma MsbValueAppend(s: BitSeq, b: bool)
    ensures MsbValue(s + [b]) == 2 * MsbValue(s) + BitValue(b)
  {
    assert (s + [b])[..|s|] == s;
  }

  lemma {:induction false} MsbValueOfHigh(v: nat, n: nat)
    requires v < Pow2(n)
    ensures MsbValue(High(v, n)) == v
  {
    if n > 0 {
      MsbValueOfHigh(v / 2, n - 1);
      MsbValueAppend(High(v / 2, n - 1), v % 2 == 1);
    }
  }

  lemma {:induction false} HighAppend(s: BitSeq, v: nat, n: nat, b: bool)
    requires High(v, n) == s
    ensures High(2 * v + BitValue(b), n + 1) == s + [b]
  {
  }

  lemma {:induction false} HighOfMsbValue(s: BitSeq)
    ensures High(MsbValue(s), |s|) == s && MsbValue(s) < Pow2(|s|)
    decreases |s|
  {
    if s != [] {
      var front, b := s[..|s| - 1], s[|s| - 1];
      assert s == front + [b];
      HighOfMsbValue(front);
      MsbValueAppend(front, b);
      HighAppend(front, MsbValue(front), |front|, b);
    }
  }

  lemma {:induction false} LsbValueOfLow(v: nat, n: nat)
    ensures LsbValue(Low(v, n)) == Mask(v, n)
  {
    if n > 0 {
      LsbValueOfLow(v / 2, n - 1);
      assert Low(v, n)[1..] == Low(v / 2, n - 1);
    }
  }

  lemma {:induction false} MaskOfFitting(v: nat, n: nat)
    requires Fits(v, n)
    ensures Mask(v, n) == v
  {
    if n > 0 {
      MaskOfFitting(v / 2, n - 1);
    }
  }

  lemma {:induction false} FitsBelowPow2(v: nat, n: nat)
    ensures Fits(v, n) <==> v < Pow2(n)
  {
    if n > 0 {
      FitsBelowPow2(v / 2, n - 1);
    }
  }

  /** Writing a number and reading it back. */
  lemma LsbRoundTrip(v: nat, n: nat)
    requires v < Pow2(n)
    ensures LsbValue(Low(v, n)) == v
  {
    FitsBelowPow2(v, n);
    LsbValueOfLow(v, n);
    MaskOfFitting(v, n);
  }

  /** A number read off the front of what it was written before. */
  lemma NumberRoundTrip(v: nat, n: nat, tail: BitSeq)
    requires v < Pow2(n)
    ensures LsbValue((Low(v, n) + tail)[..n]) == v && (Low(v, n) + tail)[n..] == tail
  {
    LsbRoundTrip(v, n);
    assert (Low(v, n) + tail)[..n] == Low(v, n);
  }

  lemma {:induction false} LsbValueBound(s: BitSeq)
    ensures LsbValue(s) < Pow2(|s|) && Low(LsbValue(s), |s|) == s
  {
    if s != [] {
      LsbValueBound(s[1..]);
      assert s == [s[0]] + s[1..];
    }
  }

  lemma {:induction false} LowSplit(v: nat, m: nat, n: nat)
    requires m <= n
    ensures Low(v, n) == Low(v, m) + Low(Shr(v, m), n - m)
  {
    if m > 0 {
      LowSplit(v / 2, m - 1, n - 1);
    }
  }

  lemma {:induction false} ShrFits(v: nat, m: nat, n: nat)
    requires m <= n && Fits(v, n)
    ensures Fits(Shr(v, m), n - m)
  {
    if m > 0 {
      ShrFits(v / 2, m - 1, n - 1);
    }
  }

  lemma {:induction false} OrZero(b: nat)
    ensures Or(0, b) == b
  {
    if b > 0 {
      OrZero(b / 2);
    }
  }

  /** `a | b << n` puts the bits of `b` after the `n` bits of `a`. */
  lemma {:induction false} OrAppends(a: nat, n: nat, b: nat, k: nat)
    requires Fits(a, n) && Fits(b, k)
    ensures Low(Or(a, Shl(b, n)), n + k) == Low(a, n) + Low(b, k)
    ensures Fits(Or(a, Shl(b, n)), n + k)
  {
    if n == 0 {
      OrZero(b);
      assert Low(a, 0) + Low(b, k) == Low(b, k);
    } else {
      OrAppends(a / 2, n - 1, b, k);
      var sum := Or(a, Shl(b, n));
      assert Shl(b, n) == 2 * Shl(b, n - 1);
      if a == 0 && Shl(b, n) == 0 {
        assert a / 2 == 0 && Shl(b, n - 1) == 0;
      }
      assert sum / 2 == Or(a / 2, Shl(b, n - 1)) && sum % 2 == a % 2;
      assert Low(sum, n + k) == [sum % 2 == 1] + Low(sum / 2, n - 1 + k);
    }
  }

  lemma ByteFits(b: Byte)
    ensures Fits(b, 8)
  {
    FitsBelowPow2(b, 8);
  }

  lemma ByteBitsHead(data: seq<Byte>, at: nat)
    requires at < |data|
    ensures ByteBits(data[at..]) == Low(data[at], 8) + ByteBits(data[at + 1..])
  {
    assert data[at..][1..] == data[at + 1..];
  }

  lemma Associative<T>(x: seq<T>, y: seq<T>, z: seq<T>)
    ensures x + (y + z) == x + y + z
  {
  }

  lemma Parts<T>(x: seq<T>, y: seq<T>)
    ensures (x + y)[..|x|] == x && (x + y)[|x|..] == y
  {
  }

  lemma {:induction false} ByteBitsConcat(a: seq<Byte>, b: seq<Byte>)
    ensures ByteBits(a + b) == ByteBits(a) + ByteBits(b)
  {
    if a == [] {
      assert a + b == b;
    } else {
      ByteBitsConcat(a[1..], b);
      assert (a + b)[0] == a[0] && (a + b)[1..] == a[1..] + b;
      Associative(Low(a[0], 8), ByteBits(a[1..]), ByteBits(b));
    }
  }

  /** A byte sequence can be read back from its bits. */
  lemma {:induction false} ByteBitsInjective(a: seq<Byte>, b: seq<Byte>)
    requires ByteBits(a) == ByteBits(b)
    ensures a == b
  {
    assert |a| == |b|;
    if a != [] {
      var s := ByteBits(a);
      assert s[..8] == Low(a[0], 8) && s[8..] == ByteBits(a[1..]);
      assert s[..8] == Low(b[0], 8) && s[8..] == ByteBits(b[1..]);
      FitsBelowPow2(a[0], 8);
      FitsBelowPow2(b[0], 8);
      LsbRoundTrip(a[0], 8);
      LsbRoundTrip(b[0], 8);
      ByteBitsInjective(a[1..], b[1..]);
    }
  }

  // ----- bits as one number

  lemma LowStep(v: nat, n: nat)
    requires 0 < n
    ensures Low(v, n) == [v % 2 == 1] + Low(v / 2, n - 1)
  {
  }

  lemma {:induction false} LowJoin(a: nat, m: nat, b: nat, n: nat)
    requires a < Pow2(m)
    ensures Low(a, m) + Low(b, n) == Low(a + Pow2(m) * b, m + n)
  {
    if m == 0 {
      assert Low(a, 0) + Low(b, n) == Low(b, n);
    } else {
      var v, p := a + Pow2(m) * b, Pow2(m - 1);
      Halved(a, p, b);
      assert v == a + 2 * p * b;
      LowJoin(a / 2, m - 1, b, n);
      LowStep(v, m + n);
      LowStep(a, m);
      Associative([a % 2 == 1], Low(a / 2, m - 1), Low(b, n));
    }
  }

  lemma Halved(a: nat, p: nat, b: nat)
    ensures (a + 2 * p * b) % 2 == a % 2 && (a + 2 * p * b) / 2 == a / 2 + p * b
  {
    assert a + 2 * p * b == a + 2 * (p * b);
  }

  /** A number in front of a number in front of something else. */
  lemma LowsJoined(a: nat, m: nat, p: nat, b: nat, n: nat, rest: BitSeq)
    requires p == Pow2(m) && a < p
    ensures Low(a, m) + (Low(b, n) + rest) == Low(a + p * b, m + n) + rest
  {
    LowJoin(a, m, b, n);
    Associative(Low(a, m), Low(b, n), rest);
  }

  lemma FewPowers()
    ensures Pow2(0) == 1 && Pow2(1) == 2 && Pow2(2) == 4 && Pow2(3) == 8 && Pow2(4) == 16 && Pow2(5) == 32 && Pow2(7) == 128
    ensures Pow2(8) == 256
  {
    assert Pow2(4) == 16;
  }

  /** Any whole number of bytes' worth of bits is the bits of some bytes. */
  function BytesOf(s: BitSeq): (bytes: seq<Byte>)
    requires |s| % 8 == 0
    ensures ByteBits(bytes) == s
  {
    if s == [] then []
    else
      LsbValueBound(s[..8]);
      FitsBelowPow2(LsbValue(s[..8]), 8);
      assert s == s[..8] + s[8..];
      var rest := BytesOf(s[8..]);
      var v: Byte := LsbValue(s[..8]);
      assert ([v] + rest)[1..] == rest;
      [v] + rest
  }

  lemma WholeNumberOfBytes(k: nat)
    ensures 8 * k % 8 == 0
  {
  }

  lemma BytesOfByteBits(bytes: seq<Byte>)
    ensures |ByteBits(bytes)| % 8 == 0 && BytesOf(ByteBits(bytes)) == bytes
  {
    hide ByteBits, BytesOf, Low;
    WholeNumberOfBytes(|bytes|);
    ByteBitsInjective(BytesOf(ByteBits(bytes)), bytes);
  }

  lemma {:induction false} LsbValueConcat(s: BitSeq, t: BitSeq)
    ensures LsbValue(s + t) == LsbValue(s) + Pow2(|s|) * LsbValue(t)
  {
    if s == [] {
      assert s + t == t;
    } else {
      LsbValueConcat(s[1..], t);
      assert (s + t)[0] == s[0] && (s + t)[1..] == s[1..] + t;
      DoubledTimes(Pow2(|s| - 1), LsbValue(t));
    }
  }

  lemma DoubledTimes(p: nat, v: nat)
    ensures (2 * p) * v == 2 * (p * v)
  {
  }

  /** A little-endian 16-bit number in the bit stream. */
  lemma TwoBytes(data: seq<Byte>, at: nat)
    requires at + 2 <= |data|
    ensures LsbValue(ByteBits(data[at..])[..16]) == (data[at] as nat) + 256 * (data[at + 1] as nat)
    ensures ByteBits(data[at..])[16..] == ByteBits(data[at + 2..])
  {
    hide Low, LsbValue, ByteBits;
    var a, b := Low(data[at], 8), Low(data[at + 1], 8);
    ByteBitsHead(data, at);
    ByteBitsHead(data, at + 1);
    assert ByteBits(data[at..])[..16] == a + b;
    LsbValueConcat(a, b);
    FitsBelowPow2(data[at], 8);
    FitsBelowPow2(data[at + 1], 8);
    LsbRoundTrip(data[at], 8);
    LsbRoundTrip(data[at + 1], 8);
  }

  /** The bits of the next `n` bytes, and what follows them. */
  lemma SomeBytes(data: seq<Byte>, at: nat, n: nat)
    requires at + n <= |data|
    ensures 8 * n <= |ByteBits(data[at..])| && 8 * n % 8 == 0
    ensures BytesOf(ByteBits(data[at..])[..8 * n]) == data[at..at + n]
    ensures ByteBits(data[at..])[8 * n..] == ByteBits(data[at + n..])
  {
    hide Low, ByteBits, BytesOf;
    var a, b := data[at..at + n], data[at + n..];
    assert data[at..] == a + b;
    ByteBitsConcat(a, b);
    Parts(ByteBits(a), ByteBits(b));
    WholeNumberOfBytes(n);
    BytesOfByteBits(a);
  }

  // ----- pieces of a sequence

  /** The pieces one after another. */
  ghost function Flat<T>(pieces: seq<seq<T>>): seq<T> { if pieces == [] then [] else pieces[0] + Flat(pieces[1..]) }

  lemma {:induction false} FlatConcat<T>(p: seq<seq<T>>, q: seq<seq<T>>)
    ensures Flat(p + q) == Flat(p) + Flat(q)
  {
    if p == [] {
      assert p + q == q;
    } else {
      assert (p + q)[0] == p[0] && (p + q)[1..] == p[1..] + q;
      FlatConcat(p[1..], q);
    }
  }

  lemma OneFlat<T>(m: seq<T>)
    ensures Flat([m]) == m
  {
    assert [m][1..] == [];
    assert m + [] == m;
  }
}
