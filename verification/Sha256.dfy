/** Hashing a stream (server/sha256.c). The compression step is a parameter; what is proved is how
    the message reaches it: in whichever pieces it comes, in blocks of 64 bytes, padded with its
    length (sections 5.1.1 and 6.2 of FIPS 180-4). */
module Sha256Stream {
  import opened BitStreams
  import opened ByteTexts

  const TWO32: nat := 0x1_0000_0000
  const TWO61: nat := 0x2000_0000_0000_0000
  const TWO64: nat := 0x1_0000_0000_0000_0000
  const BLOCK: nat := 64

  /** The eight words of the state. */
  type Words = w: seq<nat> | |w| == 8 && forall i :: 0 <= i < 8 ==> w[i] < TWO32 witness [0, 0, 0, 0, 0, 0, 0, 0]

  // ----- the specification

  /** The compression step folded over a whole number of blocks. */
  ghost function Folded(step: (Words, seq<Byte>) -> Words, h: Words, m: seq<Byte>): Words
    decreases |m|
  {
    if |m| < BLOCK then h else Folded(step, step(h, m[..BLOCK]), m[BLOCK..])
  }

  ghost predicate Whole(m: seq<Byte>) { |m| % BLOCK == 0 }

  /** `n` as eight bytes, the most significant first. */
  ghost function BigEndian(n: nat, size: nat): (bytes: seq<Byte>)
    ensures |bytes| == size
  {
    if size == 0 then [] else BigEndian(n / 256, size - 1) + [n % 256]
  }

  /** How much padding a message of some length takes: up to the next block boundary with room for
      the mark and the length. */
  function PadSize(length: nat): (n: nat)
    ensures 9 <= n <= 72
  {
    var used := length % BLOCK;
    if used < 56 then BLOCK - used else 2 * BLOCK - used
  }

  /** The mark, zeros, and the length in bits. */
  ghost function Padding(length: nat, bits: nat): seq<Byte>
  {
    [0x80] + Zeros(PadSize(length) - 9) + BigEndian(bits, 8)
  }

  lemma PadSizeIs(length: nat)
    ensures (length + PadSize(length)) % BLOCK == 0
  {
    var q, r := length / BLOCK, length % BLOCK;
    assert length == BLOCK * q + r;
    if r < 56 {
      assert length + PadSize(length) == BLOCK * (q + 1);
    } else {
      assert length + PadSize(length) == BLOCK * (q + 2);
    }
  }

  /** What is hashed of a message. */
  ghost function Hashed(step: (Words, seq<Byte>) -> Words, h: Words, message: seq<Byte>, bits: nat): Words
  {
    Folded(step, h, message + Padding(|message|, bits))
  }

  lemma {:induction false} FoldedConcat(step: (Words, seq<Byte>) -> Words, h: Words, a: seq<Byte>, b: seq<Byte>)
    requires Whole(a)
    ensures Folded(step, h, a + b) == Folded(step, Folded(step, h, a), b)
    decreases |a|
  {
    if |a| < BLOCK {
      assert a == [] && a + b == b;
    } else {
      assert (a + b)[..BLOCK] == a[..BLOCK] && (a + b)[BLOCK..] == a[BLOCK..] + b;
      FoldedConcat(step, step(h, a[..BLOCK]), a[BLOCK..], b);
    }
  }

  lemma FoldedBlock(step: (Words, seq<Byte>) -> Words, h: Words, a: seq<Byte>, block: seq<Byte>)
    requires Whole(a) && |block| == BLOCK
    ensures Whole(a + block) && Folded(step, h, a + block) == step(Folded(step, h, a), block)
  {
    FoldedConcat(step, h, a, block);
    var f := Folded(step, h, a);
    assert block[..BLOCK] == block;
    assert Folded(step, f, block) == Folded(step, step(f, block[..BLOCK]), block[BLOCK..]);
  }

  lemma NothingFolded(step: (Words, seq<Byte>) -> Words, h: Words)
    ensures Folded(step, h, []) == h && Whole([])
  {
  }

  // ----- the stream

  class Sha256 {
    const step: (Words, seq<Byte>) -> Words
    const start: Words
    var h: Words
    const block: array<Byte>
    var used: nat
    var lo: nat
    var hi: nat

    /** All the bytes so far: those of the blocks already compressed, and the rest. */
    ghost var done: seq<Byte>
    ghost var message: seq<Byte>

    ghost predicate Valid()
      reads this, block
    {
      && block.Length == BLOCK && used < BLOCK && Whole(done) && message == done + block[..used]
      && h == Folded(step, start, done) && lo < TWO32
    }

    /** The two-word byte counter. */
    ghost function Counter(): nat
      reads this
    {
      TWO32 * hi + lo
    }

    constructor (compress: (Words, seq<Byte>) -> Words, initial: Words)
      ensures Valid() && message == [] && Counter() == 0 && step == compress && start == initial && fresh(block)
    {
      step, start, h := compress, initial, initial;
      block := new Byte[BLOCK](_ => 0);
      used, lo, hi := 0, 0, 0;
      done, message := [], [];
      new;
      NothingFolded(compress, initial);
    }

    /** `wena_sha256_update`: all the bytes are taken; the counter is right for pieces below 2^32
        bytes, and loses the multiples of 2^32 of longer ones. */
    method Update(p: seq<Byte>)
      requires Valid()
      modifies this`h, this`used, this`lo, this`hi, this`done, this`message, block
      ensures Valid() && message == old(message) + p
      ensures Counter() == old(Counter()) + |p| % TWO32
      ensures old(Counter() == |message|) && |p| < TWO32 ==> Counter() == |message|
    {
      hide Folded, Whole;
      var before := lo;
      lo := (lo + |p| % TWO32) % TWO32;
      if lo < before {
        hi := hi + 1;
      }
      Absorb(p);
    }

    /** The loop of the update. */
    method Absorb(p: seq<Byte>)
      requires Valid()
      modifies this`h, this`used, this`done, this`message, block
      ensures Valid() && message == old(message) + p
    {
      hide Folded, Whole;
      var at: nat, n: nat := 0, |p|;
      assert p[..0] == [] && old(message) + [] == old(message);
      while n > 0
        invariant at + n == |p| && Valid() && message == old(message) + p[..at]
      {
        var take := if BLOCK - used > n then n else BLOCK - used;
        var piece := p[at..at + take];
        Fill(piece);
        assert p[..at + take] == p[..at] + piece;
        Associative(old(message), p[..at], piece);
        at, n := at + take, n - take;
      }
      assert p[..at] == p;
    }

    /** One round of the loop: some bytes into the block, and the block compressed when it is full. */
    method Fill(piece: seq<Byte>)
      requires Valid() && 0 < |piece| && used + |piece| <= BLOCK
      modifies this`h, this`used, this`done, this`message, block
      ensures Valid() && message == old(message) + piece
    {
      hide Folded, Whole;
      ghost var held := block[..used];
      for i := 0 to |piece|
        invariant forall k :: 0 <= k < used + i ==> block[k] == if k < used then held[k] else piece[k - used]
        modifies block
      {
        block[used + i] := piece[i];
      }
      Associative(done, held, piece);
      assert block[..used + |piece|] == held + piece;
      used := used + |piece|;
      message := message + piece;
      if used == BLOCK {
        assert block[..used] == block[..];
        FoldedBlock(step, start, done, block[..]);
        h := step(h, block[..]);
        used := 0;
        done := message;
        assert done + block[..0] == done;
      }
    }

    /** `wena_sha256_final_hex`: the state is the fold over the padded message. */
    method FinalHex() returns (output: seq<Byte>)
      requires Valid()
      modifies this`h, this`used, this`lo, this`hi, this`done, this`message, block
      ensures h == Hashed(step, start, old(message), BitLength(old(Counter())))
      ensures output == HexText(h, 32)
    {
      hide Folded, Whole, BigEndian;
      ghost var was, bits := message, BitLength(Counter());
      var bitsHi, bitsLo := (hi * 8 + lo / 0x2000_0000) % TWO32, lo * 8 % TWO32;
      CounterBits(hi, lo);
      UsedIsRemainder();
      var pad := if used < 56 then 64 - used else 128 - used;
      var tail := [0x80] + Zeros(pad - 9) + (Bytes4(bitsHi) + Bytes4(bitsLo));
      TailIsPadding(bitsHi, bitsLo);
      assert pad == PadSize(|was|);
      assert tail == Padding(|was|, bits);
      Update(tail);
      assert used == 0 by { Filled(|was|); }
      assert done + [] == done;
      output := [];
      for i := 0 to 32
        invariant output == HexText(h, i)
        modifies {}
      {
        var v := h[i / 4] / Power256(3 - i % 4) % 256;
        output := output + [HexDigit(v / 16), HexDigit(v % 16)];
      }
    }

    lemma UsedIsRemainder()
      requires Valid()
      ensures used == |message| % BLOCK
    {
      var q := |done| / BLOCK;
      assert |message| == BLOCK * q + used;
    }

    /** A whole number of blocks leaves nothing in the block. */
    lemma Filled(length: nat)
      requires Valid() && |message| == length + PadSize(length)
      ensures used == 0
    {
      hide Folded;
      UsedIsRemainder();
      PadSizeIs(length);
    }
  }

  function Power256(n: nat): (p: nat)
    ensures 0 < p
  {
    if n == 0 then 1 else 256 * Power256(n - 1)
  }

  /** The first `n` bytes of the state, the most significant byte of a word first, in hexadecimal. */
  ghost function HexText(h: Words, n: nat): seq<Byte>
    requires n <= 32
  {
    if n == 0 then []
    else
      var v := h[(n - 1) / 4] / Power256(3 - (n - 1) % 4) % 256;
      HexText(h, n - 1) + [HexDigit(v / 16), HexDigit(v % 16)]
  }

  /** The four bytes of a word. */
  function Bytes4(w: nat): seq<Byte> { [w / 0x100_0000 % 256, w / 0x1_0000 % 256, w / 256 % 256, w % 256] }

  lemma CounterBits(hi: nat, lo: nat)
    requires lo < TWO32
    ensures TWO32 * ((hi * 8 + lo / 0x2000_0000) % TWO32) + lo * 8 % TWO32 == 8 * (TWO32 * hi + lo) % TWO64
  {
    var a := hi * 8 + lo / 0x2000_0000;
    assert 8 * (TWO32 * hi + lo) == TWO32 * a + lo * 8 % TWO32;
    var q, r := a / TWO32, a % TWO32;
    assert a == TWO32 * q + r;
    assert TWO32 * a + lo * 8 % TWO32 == TWO64 * q + (TWO32 * r + lo * 8 % TWO32);
  }

  lemma BigEndianStep(n: nat, size: nat)
    requires size > 0
    ensures BigEndian(n, size) == BigEndian(n / 256, size - 1) + [n % 256]
  {
  }

  lemma Digits256(p: nat, a: nat, b: nat)
    ensures 256 * p * a + b >= 0 && p * a + b / 256 >= 0
    ensures (256 * p * a + b) / 256 == p * a + b / 256 && (256 * p * a + b) % 256 == b % 256
  {
    var c, d := p * a, b / 256;
    assert 256 * p * a + b == 256 * (c + d) + b % 256;
  }

  lemma {:induction false} BigEndianSplit(a: nat, b: nat, size: nat)
    requires b < Power256(size)
    ensures BigEndian(Power256(size) * a + b, 4 + size) == BigEndian(a, 4) + BigEndian(b, size)
  {
    hide BigEndian;
    if size == 0 {
      assert BigEndian(b, 0) == [];
      assert BigEndian(a, 4) + [] == BigEndian(a, 4);
    } else if size > 0 {
      var p := Power256(size - 1);
      var n, c := Power256(size) * a + b, b / 256;
      Digits256(p, a, b);
      BigEndianSplit(a, c, size - 1);
      Associative(BigEndian(a, 4), BigEndian(c, size - 1), [b % 256]);
      BigEndianStep(n, 4 + size);
      BigEndianStep(b, size);
    }
  }

  lemma WordBytes(w: nat)
    requires w < TWO32
    ensures Bytes4(w) == BigEndian(w, 4)
  {
    var w1, w2, w3 := w / 256, w / 0x1_0000, w / 0x100_0000;
    assert w2 == w1 / 256 && w3 == w2 / 256 && w3 / 256 == 0;
    assert BigEndian(w3, 1) == BigEndian(0, 0) + [w3 % 256];
    assert BigEndian(w2, 2) == BigEndian(w3, 1) + [w2 % 256];
    assert BigEndian(w1, 3) == BigEndian(w2, 2) + [w1 % 256];
    assert BigEndian(w, 4) == BigEndian(w1, 3) + [w % 256];
  }

  lemma TailIsPadding(a: nat, b: nat)
    requires a < TWO32 && b < TWO32
    ensures Bytes4(a) + Bytes4(b) == BigEndian(TWO32 * a + b, 8)
  {
    hide BigEndian;
    WordBytes(a);
    WordBytes(b);
    assert Power256(4) == TWO32 by {
      assert Power256(2) == 0x1_0000;
    }
    BigEndianSplit(a, b, 4);
  }

  /** The number of bits of `n` bytes, as the padding holds it. */
  function BitLength(n: nat): nat { 8 * n % TWO64 }

  /** One update with all of a message gives it the length it should have exactly when what it holds
      beyond multiples of 2^61 bytes is below 2^32. */
  lemma OneShotLength(n: nat)
    ensures BitLength(n % TWO32) == BitLength(n) <==> n % TWO61 < TWO32
  {
    EightTimes(n);
    EightTimes(n % TWO32);
    var q, r := n / TWO61, n % TWO61;
    assert n == TWO32 * (0x2000_0000 * q) + r;
    SameRemainder(r, 0x2000_0000 * q);
  }

  /** The shortest message whose one update loses its length: 2^32 bytes are counted as none. */
  lemma LengthLost()
    ensures BitLength(TWO32 % TWO32) == 0 && BitLength(TWO32) == 8 * TWO32
    ensures forall n: nat :: n < TWO32 ==> BitLength(n % TWO32) == BitLength(n)
  {
    OneShotLength(TWO32);
    forall n: nat | n < TWO32
      ensures BitLength(n % TWO32) == BitLength(n)
    {
      OneShotLength(n);
    }
  }

  lemma EightTimes(n: nat)
    ensures BitLength(n) == 8 * (n % TWO61)
  {
    var q, r := n / TWO61, n % TWO61;
    assert 8 * n == TWO64 * q + 8 * r;
  }

  lemma SameRemainder(r: nat, k: nat)
    ensures (TWO32 * k + r) % TWO32 == r % TWO32
  {
  }

  /** The initial state (section 5.3.3 of FIPS 180-4). */
  function Initial(): Words
  {
    [0x6a09e667, 0xbb67ae85, 0x3c6ef372, 0xa54ff53a, 0x510e527f, 0x9b05688c, 0x1f83d9ab, 0x5be0cd19]
  }

  /** The digest of a message, in hexadecimal. */
  ghost function Digest(step: (Words, seq<Byte>) -> Words, message: seq<Byte>): seq<Byte>
  {
    HexText(Hashed(step, Initial(), message, BitLength(|message|)), 32)
  }

  /** `wena_sha256_hex`. */
  method Hex(step: (Words, seq<Byte>) -> Words, data: seq<Byte>) returns (output: seq<Byte>)
    ensures |data| < TWO32 ==> output == Digest(step, data)
    ensures output == HexText(Hashed(step, Initial(), data, BitLength(|data| % TWO32)), 32)
  {
    hide Folded, Hashed, HexText;
    var state := new Sha256(step, Initial());
    state.Update(data);
    assert [] + data == data;
    output := state.FinalHex();
  }

  /** The digest of a file, whatever each read of it brings: one up to 16384 bytes at a time. */
  method FileHash(step: (Words, seq<Byte>) -> Words, chunks: seq<seq<Byte>>) returns (output: seq<Byte>)
    requires forall i :: 0 <= i < |chunks| ==> 0 < |chunks[i]| <= 16384
    ensures output == Digest(step, Flat(chunks))
  {
    hide Folded, Hashed, HexText, Flat;
    var state := new Sha256(step, Initial());
    NoPieces();
    assert chunks[..0] == [];
    for i := 0 to |chunks|
      invariant state.Valid() && state.step == step && state.start == Initial() && fresh(state) && fresh(state.block)
      invariant state.message == Flat(chunks[..i]) && state.Counter() == |state.message|
    {
      state.Update(chunks[i]);
      assert chunks[..i + 1] == chunks[..i] + [chunks[i]];
      FlatConcat(chunks[..i], [chunks[i]]);
      OneFlat(chunks[i]);
    }
    assert chunks[..|chunks|] == chunks;
    output := state.FinalHex();
  }

  lemma NoPieces()
    ensures Flat<Byte>([]) == []
  {
  }

  // ----- the numbers of the standard

  /** The initial words are the first 32 bits of the fractions of the square roots of the first eight
      primes. */
  lemma InitialIsRoots(i: nat)
    requires i < 8
    ensures var prime, root := [2, 3, 5, 7, 11, 13, 17, 19][i], [1, 1, 2, 2, 3, 3, 4, 4][i];
      var scaled := 0x1_0000_0000 * root + Initial()[i];
      scaled * scaled <= prime * 0x1_0000_0000_0000_0000 < (scaled + 1) * (scaled + 1)
  {
  }

  lemma {:induction false} BigEndianByte(n: nat, size: nat, k: nat)
    requires k < size <= 8
    ensures BigEndian(n, size)[size - 1 - k] == n / Power256(k) % 256
  {
    if k > 0 {
      BigEndianByte(n / 256, size - 1, k - 1);
      Divided(n, k - 1);
    }
  }

  lemma Divided(n: nat, k: nat)
    requires k < 7
    ensures n / 256 / Power256(k) == n / Power256(k + 1)
  {
    hide Power256;
    EightPowers();
    match k {
      case 0 => assert n / 256 / 1 == n / 0x100;
      case 1 => assert n / 256 / 0x100 == n / 0x1_0000;
      case 2 => assert n / 256 / 0x1_0000 == n / 0x100_0000;
      case 3 => assert n / 256 / 0x100_0000 == n / 0x1_0000_0000;
      case 4 => assert n / 256 / 0x1_0000_0000 == n / 0x100_0000_0000;
      case 5 => assert n / 256 / 0x100_0000_0000 == n / 0x1_0000_0000_0000;
      case _ => assert n / 256 / 0x1_0000_0000_0000 == n / 0x100_0000_0000_0000;
    }
  }

  lemma EightPowers()
    ensures Power256(0) == 1 && Power256(1) == 0x100 && Power256(2) == 0x1_0000 && Power256(3) == 0x100_0000
    ensures Power256(4) == 0x1_0000_0000 && Power256(5) == 0x100_0000_0000 && Power256(6) == 0x1_0000_0000_0000
    ensures Power256(7) == 0x100_0000_0000_0000
  {
  }

  /** The padding, byte by byte: the mark, zeros, and the number of bits modulo 2^64 in eight bytes, up
      to the next whole block of 64 bytes and no further. */
  lemma PaddingExactly(length: nat, i: nat)
    requires i < |Padding(length, BitLength(length))|
    ensures var p := Padding(length, BitLength(length));
      && (length + |p|) % 64 == 0 && 9 <= |p| <= 72
      && p[0] == 0x80 && (0 < i < |p| - 8 ==> p[i] == 0)
      && (|p| - 8 <= i ==> p[i] == 8 * length % 18446744073709551616 / Power256(|p| - 1 - i) % 256)
  {
    hide BigEndian, Power256;
    PadSizeIs(length);
    var p := Padding(length, BitLength(length));
    if |p| - 8 <= i {
      BigEndianByte(BitLength(length), 8, |p| - 1 - i);
    }
  }

  /** The padding of three bytes: "abc" has 24 bits. */
  lemma PaddingExample()
    ensures Padding(3, BitLength(3)) == [0x80] + Zeros(52) + [0, 0, 0, 0, 0, 0, 0, 24]
  {
    assert BitLength(3) == 24 && PadSize(3) == 61;
    assert BigEndian(0, 7) == [0, 0, 0, 0, 0, 0, 0] by {
      assert BigEndian(0, 4) == [0, 0, 0, 0];
      assert BigEndian(0, 7) == BigEndian(0, 4) + [0] + [0] + [0];
    }
    BigEndianStep(24, 8);
    assert [0, 0, 0, 0, 0, 0, 0] + [24] == [0, 0, 0, 0, 0, 0, 0, 24];
  }

  /** The blocks are compressed one after the other, 64 bytes each. */
  lemma TwoBlocks(step: (Words, seq<Byte>) -> Words, h: Words, a: seq<Byte>, b: seq<Byte>)
    requires |a| == 64 && |b| == 64
    ensures Folded(step, h, a + b) == step(step(h, a), b)
  {
    hide Folded;
    NothingFolded(step, h);
    FoldedBlock(step, h, [], a);
    assert [] + a == a;
    FoldedBlock(step, h, a, b);
  }

  /** The digest in hexadecimal: byte `k` is that of word `k / 4`, the upper byte of a word first. */
  lemma {:induction false} HexOfWords(h: Words, n: nat, k: nat)
    requires k < n <= 32
    ensures |HexText(h, n)| == 2 * n
    ensures var b := h[k / 4] / [0x100_0000, 0x1_0000, 0x100, 1][k % 4] % 256;
      && HexText(h, n)[2 * k] == "0123456789abcdef"[b / 16] as nat
      && HexText(h, n)[2 * k + 1] == "0123456789abcdef"[b % 16] as nat
  {
    hide HexDigit, Power256;
    HexLength(h, n);
    HexLength(h, n - 1);
    if k < n - 1 {
      HexOfWords(h, n - 1, k);
    } else {
      var b := h[k / 4] / Power256(3 - k % 4) % 256;
      EightPowers();
      HexDigitIs(b / 16);
      HexDigitIs(b % 16);
    }
  }

  lemma {:induction false} HexLength(h: Words, n: nat)
    requires n <= 32
    ensures |HexText(h, n)| == 2 * n
  {
    if n > 0 {
      HexLength(h, n - 1);
    }
  }
}
