/** What the text and wire formats share: bytes that are told apart, zeros, and texts cut at a
    byte. */
module ByteTexts {
  import opened BitStreams

  /** A hexadecimal digit, letters in lower case. */
  function HexDigit(h: nat): Byte
    requires h < 16
  {
    if h < 10 then 48 + h else 87 + h
  }

  lemma HexDigitIs(h: nat)
    requires h < 16
    ensures HexDigit(h) == "0123456789abcdef"[h] as nat
  {
  }

  /** A byte of an identifier. */
  predicate IdentifierByte(b: Byte) { 48 <= b <= 57 || 65 <= b <= 90 || 97 <= b <= 122 || b == 45 || b == 95 }

  function Zeros(n: nat): (z: seq<Byte>)
    ensures |z| == n
  {
    seq(n, _ => 0)
  }

  /** What stands before and after the first `c`. */
  function SplitAt(s: seq<Byte>, c: Byte): (r: Option<(seq<Byte>, seq<Byte>)>)
    ensures r.Some? ==> s == r.value.0 + ([c] + r.value.1) && c !in r.value.0
    ensures r.None? ==> c !in s
  {
    if s == [] then None
    else if s[0] == c then Some(([], s[1..]))
    else
      match SplitAt(s[1..], c)
      case None => None
      case Some((before, after)) =>
        assert s == [s[0]] + s[1..];
        Some(([s[0]] + before, after))
  }

  /** There is only one first place. */
  lemma {:induction false} SplitIs(before: seq<Byte>, c: Byte, after: seq<Byte>)
    requires c !in before
    ensures SplitAt(before + ([c] + after), c) == Some((before, after))
  {
    var s := before + ([c] + after);
    if before == [] {
      assert s == [c] + after;
    } else {
      assert s[0] == before[0] && s[1..] == before[1..] + ([c] + after);
      SplitIs(before[1..], c, after);
      assert before == [before[0]] + before[1..];
    }
  }

  lemma SplitExactly(s: seq<Byte>, c: Byte, before: seq<Byte>, after: seq<Byte>)
    ensures SplitAt(s, c) == Some((before, after)) <==> s == before + ([c] + after) && c !in before
  {
    hide SplitAt;
    if s == before + ([c] + after) && c !in before {
      SplitIs(before, c, after);
    }
  }
}
