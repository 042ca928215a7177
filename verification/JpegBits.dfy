/** The entropy-coded data of a baseline JPEG as bits (section F.1.2.3 of ITU-T T.81): bytes with the
    most significant bit first, a zero byte stuffed after every 0xFF, and, past the last byte or
    a marker, zeros for ever (models/image_decode.c, `jpeg_bit` and `jpeg_receive`). */
module JpegBits {
  import opened BitStreams

  function MsbBits(bytes: seq<Byte>): (s: BitSeq)
    ensures |s| == 8 * |bytes|
  {
    if bytes == [] then [] else High(bytes[0], 8) + MsbBits(bytes[1..])
  }

  ghost function Stuffed(bytes: seq<Byte>): seq<Byte>
  {
    if bytes == [] then []
    else (if bytes[0] == 0xFF then [0xFF, 0] else [bytes[0]]) + Stuffed(bytes[1..])
  }

  /** The bytes up to the end of the data or to a marker, without what was stuffed. */
  ghost function Unstuffed(data: seq<Byte>): seq<Byte>
  {
    if data == [] then []
    else if data[0] != 0xFF then [data[0]] + Unstuffed(data[1..])
    else if |data| == 1 then [0xFF]
    else if data[1] == 0 then [0xFF] + Unstuffed(data[2..])
    else []
  }

  /** Stuffing is undone, whatever stands after it: nothing or a marker. */
  lemma {:induction false} UnstuffedOfStuffed(bytes: seq<Byte>, after: seq<Byte>)
    ensures Unstuffed(Stuffed(bytes) + after) == bytes + Unstuffed(after)
  {
    if bytes == [] {
      assert Stuffed(bytes) + after == after;
      assert bytes + Unstuffed(after) == Unstuffed(after);
    } else {
      var front := if bytes[0] == 0xFF then [0xFF, 0] else [bytes[0]];
      var more := Stuffed(bytes[1..]) + after;
      assert Stuffed(bytes) + after == front + more;
      assert (front + more)[|front|..] == more;
      UnstuffedOfStuffed(bytes[1..], after);
      assert bytes == [bytes[0]] + bytes[1..];
      Associative([bytes[0]], bytes[1..], Unstuffed(after));
    }
  }

  /** A stuffed byte, and a marker that ends the data. */
  lemma StuffedExample()
    ensures Unstuffed([0x12, 0xFF, 0x00, 0x34, 0xFF, 0xD9, 0x56]) == [0x12, 0xFF, 0x34]
    ensures Stuffed([0x12, 0xFF, 0x34]) == [0x12, 0xFF, 0x00, 0x34]
  {
    var data: seq<Byte> := [0x12, 0xFF, 0x00, 0x34, 0xFF, 0xD9, 0x56];
    assert data[1..] == [0xFF, 0x00, 0x34, 0xFF, 0xD9, 0x56] && data[1..][2..] == [0x34, 0xFF, 0xD9, 0x56];
    assert data[1..][2..][1..] == [0xFF, 0xD9, 0x56];
    assert Unstuffed(data[1..][2..][1..]) == [];
    assert Unstuffed(data[1..][2..]) == [0x34] + [];
    assert Unstuffed(data[1..]) == [0xFF] + Unstuffed(data[1..][2..]);
    var plain: seq<Byte> := [0x12, 0xFF, 0x34];
    assert plain[1..] == [0xFF, 0x34] && plain[1..][1..] == [0x34] && plain[1..][1..][1..] == [];
    assert Stuffed(plain[1..][1..]) == [0x34] + [];
    assert Stuffed(plain[1..]) == [0xFF, 0] + Stuffed(plain[1..][1..]);
  }

  // ----- reading

  /** The stream of bits: `all` and then zeros. */
  ghost function BitAt(all: BitSeq, i: nat): bool { i < |all| && all[i] }

  ghost function Window(all: BitSeq, pos: nat, n: nat): (s: BitSeq)
    ensures |s| == n
  {
    seq(n, i requires 0 <= i < n => BitAt(all, pos + i))
  }

  /** Before the end of the data stand its bits and behind it zeros. */
  lemma WindowExactly(all: BitSeq, pos: nat, n: nat)
    ensures pos + n <= |all| ==> Window(all, pos, n) == all[pos..pos + n]
    ensures forall i :: 0 <= i < n && |all| <= pos + i ==> !Window(all, pos, n)[i]
  {
    var w := Window(all, pos, n);
    assert forall i :: 0 <= i < n ==> w[i] == BitAt(all, pos + i);
    if pos + n <= |all| {
      forall i | 0 <= i < n ensures w[i] == all[pos..pos + n][i] {
      }
    }
  }

  /** `e` stands in `all` from `pos` on. */
  ghost predicate At(all: BitSeq, pos: nat, e: BitSeq) { pos + |e| <= |all| && all[pos..pos + |e|] == e }

  lemma AtParts(all: BitSeq, pos: nat, e: BitSeq, f: BitSeq)
    ensures At(all, pos, e + f) <==> At(all, pos, e) && At(all, pos + |e|, f)
  {
    if At(all, pos, e + f) {
      assert all[pos..pos + |e + f|][..|e|] == e && all[pos..pos + |e + f|][|e|..] == f;
    }
    if At(all, pos, e) && At(all, pos + |e|, f) {
      assert all[pos..pos + |e + f|] == all[pos..pos + |e|] + all[pos + |e|..pos + |e + f|];
    }
  }

  lemma WindowAt(all: BitSeq, pos: nat, e: BitSeq)
    requires At(all, pos, e)
    ensures Window(all, pos, |e|) == e
  {
    forall i | 0 <= i < |e| ensures Window(all, pos, |e|)[i] == e[i] {
      assert Window(all, pos, |e|)[i] == BitAt(all, pos + i) == all[pos..pos + |e|][i];
    }
  }

  /** What is held and what is to come, from place `pos` of the stream. */
  ghost predicate Ahead(all: BitSeq, pos: nat, held: BitSeq, coming: seq<Byte>)
  {
    if pos <= |all| && all[pos..] == held + MsbBits(coming) then true
    else |all| <= pos && coming == [] && forall i :: 0 <= i < |held| ==> !held[i]
  }

  lemma AheadBit(all: BitSeq, pos: nat, held: BitSeq, coming: seq<Byte>)
    requires Ahead(all, pos, held, coming) && held != []
    ensures held[0] == BitAt(all, pos) && Ahead(all, pos + 1, held[1..], coming)
  {
    if pos <= |all| && all[pos..] == held + MsbBits(coming) {
      assert all[pos] == all[pos..][0] && all[pos + 1..] == all[pos..][1..];
      assert (held + MsbBits(coming))[1..] == held[1..] + MsbBits(coming);
    }
  }

  lemma AheadByte(all: BitSeq, pos: nat, byte: Byte, coming: seq<Byte>)
    requires Ahead(all, pos, [], [byte] + coming)
    ensures Ahead(all, pos, High(byte, 8), coming)
  {
    hide High;
    assert ([byte] + coming)[1..] == coming;
    assert all[pos..] == High(byte, 8) + MsbBits(coming);
  }

  lemma AheadEnd(all: BitSeq, pos: nat)
    requires Ahead(all, pos, [], [])
    ensures Ahead(all, pos, High(0, 8), [])
  {
    HighOfZero(8);
    if pos <= |all| && all[pos..] == [] + MsbBits([]) {
      assert |all| <= pos;
    }
  }

  lemma {:induction false} HighOfZero(n: nat)
    ensures forall i :: 0 <= i < n ==> !High(0, n)[i]
  {
    if n > 0 {
      HighOfZero(n - 1);
    }
  }

  /** `(buffer >> n) & 1` is the first of the `n + 1` low bits. */
  lemma {:induction false} HighHead(v: nat, n: nat)
    ensures High(v, n + 1) == [Shr(v, n) % 2 == 1] + High(v, n)
  {
    if n > 0 {
      HighHead(v / 2, n - 1);
    }
  }

  /** `(value << 1) | bit`. */
  lemma WindowGrows(all: BitSeq, pos: nat, n: nat)
    ensures Window(all, pos, n + 1) == Window(all, pos, n) + [BitAt(all, pos + n)]
    ensures MsbValue(Window(all, pos, n + 1)) == 2 * MsbValue(Window(all, pos, n)) + BitValue(BitAt(all, pos + n))
  {
    MsbValueAppend(Window(all, pos, n), BitAt(all, pos + n));
  }

  lemma UnstuffedStep(data: seq<Byte>, at: nat)
    requires at < |data|
    ensures data[at] != 0xFF ==> Unstuffed(data[at..]) == [data[at]] + Unstuffed(data[at + 1..])
    ensures data[at] == 0xFF && at + 1 == |data| ==> Unstuffed(data[at..]) == [0xFF]
    ensures data[at] == 0xFF && at + 1 < |data| && data[at + 1] == 0 ==>
              Unstuffed(data[at..]) == [0xFF] + Unstuffed(data[at + 2..])
    ensures data[at] == 0xFF && at + 1 < |data| && data[at + 1] != 0 ==> Unstuffed(data[at..]) == []
  {
    assert data[at..][1..] == data[at + 1..];
    if at + 1 < |data| {
      assert data[at..][2..] == data[at + 2..];
    }
  }

  class EntropyReader {
    const data: seq<Byte>
    var at: nat
    var buffer: nat
    var count: nat
    var markerHit: bool

    /** The bits of the stream before its endless zeros, and how many were read. */
    ghost const all: BitSeq
    ghost var pos: nat

    /** The data bytes still to come. */
    ghost function Coming(): seq<Byte>
      reads this
    {
      if at <= |data| then Unstuffed(data[at..]) else []
    }

    ghost predicate Valid()
      reads this
    {
      count <= 8 && (markerHit ==> Coming() == []) && Ahead(all, pos, High(buffer, count), Coming())
    }

    constructor (bytes: seq<Byte>, start: nat)
      requires start <= |bytes|
      ensures Valid() && pos == 0 && data == bytes && all == MsbBits(Unstuffed(bytes[start..]))
    {
      data := bytes;
      at, buffer, count, markerHit := start, 0, 0, false;
      all := MsbBits(Unstuffed(bytes[start..]));
      pos := 0;
      new;
      assert all[0..] == [] + all;
    }

    /** A byte, or the zeros that stand for what is missing. */
    method Load()
      requires Valid() && count == 0
      modifies this`at, this`buffer, this`count, this`markerHit
      ensures Valid() && count == 8
    {
      hide High, Unstuffed, Ahead;
      if markerHit || at >= |data| {
        assert Coming() == [] by {
          if at == |data| { UnstuffedNone(data[at..]); }
        }
        AheadEnd(all, pos);
        buffer := 0;
      } else {
        UnstuffedStep(data, at);
        ghost var was := Coming();
        var byte := data[at];
        at := at + 1;
        if byte == 0xFF {
          var next := if at < |data| then data[at] else 0;
          if next == 0 {
            at := at + 1;
          } else {
            markerHit := true;
            at := at - 1;
            byte := 0;
          }
        }
        if at == |data| {
          UnstuffedNone(data[at..]);
        }
        if markerHit {
          AheadEnd(all, pos);
        } else {
          assert was == [byte] + Coming();
          AheadByte(all, pos, byte, Coming());
        }
        buffer := byte;
      }
      count := 8;
    }

    /** `jpeg_bit`. */
    method Bit() returns (bit: nat)
      requires Valid()
      modifies this
      ensures Valid() && pos == old(pos) + 1 && bit == BitValue(BitAt(all, old(pos)))
    {
      hide High, Shr, Unstuffed, Ahead;
      if count == 0 {
        HighNone(buffer);
        Load();
      }
      count := count - 1;
      HighHead(buffer, count);
      AheadBit(all, pos, High(buffer, count + 1), Coming());
      bit := Shr(buffer, count) % 2;
      pos := pos + 1;
    }

    /** `jpeg_receive`: the next `n` bits as a number. */
    method Receive(n: nat) returns (value: nat)
      requires Valid()
      modifies this
      ensures Valid() && pos == old(pos) + n && value == MsbValue(Window(all, old(pos), n))
    {
      hide Window, MsbValue, Ahead, EntropyReader.Valid;
      value := 0;
      ghost var k := 0;
      var left := n;
      WindowNone(all, pos);
      while left > 0
        invariant Valid() && k + left == n && pos == old(pos) + k && value == MsbValue(Window(all, old(pos), k))
      {
        WindowGrows(all, old(pos), k);
        var bit := Bit();
        value := 2 * value + bit;
        left, k := left - 1, k + 1;
      }
    }
  }

  lemma UnstuffedNone(data: seq<Byte>)
    requires data == []
    ensures Unstuffed(data) == []
  {
  }

  lemma HighNone(v: nat)
    ensures High(v, 0) == []
  {
  }

  lemma WindowNone(all: BitSeq, pos: nat)
    ensures MsbValue(Window(all, pos, 0)) == 0
  {
  }
}
