/** A GIF code stream worked through by hand. */
module LzwExample {
  import opened BitStreams
  import opened LzwSpec

  /** A clear code, four strings and the end code, of images with four colours. */
  function Codes(): seq<nat> { [4, 1, 6, 2, 8, 5] }

  lemma Widths()
    ensures Clear(2) == 4 && End(2) == 5
    ensures Width(2, 0) == 3 && Width(2, 1) == 3 && Width(2, 2) == 3 && Width(2, 3) == 4 && Width(2, 4) == 4
  {
    assert Pow2(2) == 4 && Pow2(3) == 8 && Pow2(4) == 16;
  }

  /** The bits of the codes from one on, `k` strings after the clear code, as a number. */
  ghost predicate CodeNumber(i: nat, k: nat, v: nat, n: nat, rest: BitSeq)
  {
    i <= |Codes()| && CodesBits(2, Codes()[i..], k, rest) == Low(v, n) + rest
  }

  lemma NextCode(i: nat, k: nat, c: nat, w: nat, p: nat, v: nat, n: nat, u: nat, rest: BitSeq)
    requires i < |Codes()| && Codes()[i] == c && Width(2, k) == w && CodeNumber(i + 1, if c == 4 then 0 else k + 1, v, n, rest)
    requires Clear(2) == 4 && p == Pow2(w) && c < p && u == c + p * v
    ensures CodeNumber(i, k, u, w + n, rest)
  {
    hide Width, Low, Pow2, Clear;
    assert Codes()[i..][1..] == Codes()[i + 1..];
    LowsJoined(c, w, p, v, n, rest);
  }

  lemma CodesNumber(rest: BitSeq)
    ensures CodesBits(2, Codes(), 0, rest) == Low(361868, 20) + rest
  {
    hide Width, Low, Clear, CodeNumber;
    Widths();
    FewPowers();
    NoCode(rest);
    NextCode(5, 4, 5, 4, 16, 0, 0, 5, rest);
    NextCode(4, 3, 8, 4, 16, 5, 4, 88, rest);
    NextCode(3, 2, 2, 3, 8, 88, 8, 706, rest);
    NextCode(2, 1, 6, 3, 8, 706, 11, 5654, rest);
    NextCode(1, 0, 1, 3, 8, 5654, 14, 45233, rest);
    NextCode(0, 0, 4, 3, 8, 45233, 17, 361868, rest);
    AllCodes(rest);
  }

  lemma NoCode(rest: BitSeq)
    ensures CodeNumber(6, 5, 0, 0, rest)
  {
    assert Codes()[6..] == [] && Low(0, 0) + rest == rest;
  }

  lemma AllCodes(rest: BitSeq)
    requires CodeNumber(0, 0, 361868, 20, rest)
    ensures CodesBits(2, Codes(), 0, rest) == Low(361868, 20) + rest
  {
    assert Codes()[0..] == Codes();
  }

  lemma Bits()
    ensures ByteBits([0x8C, 0x85, 0x05]) == Low(361868, 20) + Low(0, 4)
  {
    hide Low;
    var bytes: seq<Byte> := [0x8C, 0x85, 0x05];
    assert bytes[1..] == [0x85, 0x05] && bytes[1..][1..] == [0x05] && bytes[1..][1..][1..] == [];
    FewPowers();
    assert ByteBits(bytes[1..][1..]) == Low(0x05, 8) + [] == Low(0x05, 8);
    LowJoin(0x05, 4, 0, 4);
    LowsJoined(0x85, 8, 256, 0x05, 4, Low(0, 4));
    LowsJoined(0x8C, 8, 256, 1413, 12, Low(0, 4));
  }

  /** Each code names the string that comes next: 6 is the first one learnt, and 8 the one that the
      code itself completes. */
  lemma Dictionary()
    ensures |Roots(2)| == 6 && Roots(2)[1] == [1] && Roots(2)[2] == [2]
  {
    assert Pow2(2) == 4;
  }

  lemma ExampleEncodes()
    ensures Encodes(2, Codes(), Roots(2), [1, 1, 1, 2, 2, 2])
  {
    var s: Text := [1, 1, 1, 2, 2, 2];
    Widths();
    Dictionary();
    hide Pow2, Roots;
    var d0 := Roots(2);
    LaterCodes(d0);
    assert [1] + [1] == [1, 1];
    EncodesNamed(1, d0, [1], [1, 1, 2, 2, 2], d0 + [[1, 1]]);
    assert [1] + [1, 1, 2, 2, 2] == s;
    assert Encodes(2, Codes()[1..], d0, s);
  }

  lemma LaterCodes(d0: seq<Text>)
    requires |d0| == 6 && d0[2] == [2]
    ensures Encodes(2, Codes()[2..], d0 + [[1, 1]], [1, 1, 2, 2, 2])
  {
    Widths();
    hide Pow2, Roots;
    var d1, d2, d3 := d0 + [[1, 1]], d0 + [[1, 1], [1, 1, 2]], d0 + [[1, 1], [1, 1, 2], [2, 2]];
    assert d1 + [[1, 1, 2]] == d2 && d2 + [[2, 2]] == d3;
    assert [1, 1] + [2] == [1, 1, 2] && [2] + [2] == [2, 2];
    assert Codes()[5..][1..] == [] && Encodes(2, Codes()[5..], d3, []);
    EncodesNamed(4, d3, [2, 2], [], d3);
    assert [2, 2] + [] == [2, 2];
    EncodesNamed(3, d2, [2], [2, 2], d3);
    assert [2] + [2, 2] == [2, 2, 2];
    EncodesNamed(2, d1, [1, 1], [2, 2, 2], d2);
    assert [1, 1] + [2, 2, 2] == [1, 1, 2, 2, 2];
  }

  lemma EncodesNamed(i: nat, dict: seq<Text>, text: Text, left: Text, next: seq<Text>)
    requires 1 <= i <= 4 && Codes()[i] < |dict| && dict[Codes()[i]] == text && Clear(2) == 4
    requires |dict| < 4096 && if left == [] then next == dict else next == dict + [text + [left[0]]]
    requires Encodes(2, Codes()[i + 1..], next, left)
    ensures Encodes(2, Codes()[i..], dict, text + left)
  {
    hide Clear;
    assert Codes()[i..][1..] == Codes()[i + 1..] && (text + left)[|text|..] == left;
    assert End(2) == 5;
  }

  /** Three bytes of a GIF with four colours, in one data sub-block, and the six pixels they stand for. */
  lemma GifExample()
    ensures Payload([3, 0x8C, 0x85, 0x05, 0], 0, 0) == [0x8C, 0x85, 0x05]
    ensures Proper(2, Start(2))
    ensures DecodeFrom(2, ByteBits([0x8C, 0x85, 0x05]), Start(2), 6) == [1, 1, 1, 2, 2, 2]
  {
    hide Low, DecodeFrom, CodesBits, Encodes, Proper, Start, Bytes;
    OneBlock([0x8C, 0x85, 0x05]);
    Bits();
    CodesNumber(Low(0, 4));
    ExampleEncodes();
    DecodingInvertsEncoding(2, Codes(), [1, 1, 1, 2, 2, 2], 6, Low(0, 4));
    SmallBytes();
  }

  lemma SmallBytes()
    ensures Bytes([1, 1, 1, 2, 2, 2])[..6] == [1, 1, 1, 2, 2, 2]
  {
  }

  lemma OneBlock(block: seq<Byte>)
    requires |block| == 3
    ensures Payload([3] + block + [0], 0, 0) == block
    ensures block == [0x8C, 0x85, 0x05] ==> [3] + block + [0] == [3, 0x8C, 0x85, 0x05, 0]
  {
    var data := [3] + block + [0];
    assert Payload(data, 4, 0) == [];
    assert Payload(data, 3, 1) == [data[3]] + Payload(data, 4, 0);
    assert Payload(data, 2, 2) == [data[2]] + Payload(data, 3, 1);
    assert Payload(data, 1, 3) == [data[1]] + Payload(data, 2, 2);
  }
}
