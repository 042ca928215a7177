/** The DEFLATE format (sections 3.2.3 to 3.2.7 of RFC 1951) as an encoder would write it:
    blocks of literals and back-references, their bits and the bytes they stand for. */
module DeflateFormat {
  import opened BitStreams
  import opened CanonicalCodes
  import opened HuffmanTables

  // The tables of section 3.2.5, as the rule behind them: the extra bits grow by one every four
  // length classes and every two distance classes.

  function LengthExtra(l: nat): nat { if l < 8 || l == 28 then 0 else l / 4 - 1 }

  function LengthBase(l: nat): nat
  {
    if l < 8 then 3 + l else if l == 28 then 258 else 3 + (4 + l % 4) * Pow2(l / 4 - 1)
  }

  function DistanceExtra(d: nat): nat { if d < 4 then 0 else d / 2 - 1 }

  function DistanceBase(d: nat): (r: nat)
    ensures r > 0
  {
    if d < 4 then 1 + d else 1 + (2 + d % 2) * Pow2(d / 2 - 1)
  }

  /** Section 3.2.7: the repeat symbols and 0 first, then outwards from 8. */
  function CodeLengthOrder(i: nat): (r: nat)
    requires i < 19
    ensures r < 19
  {
    if i < 3 then 16 + i else if i == 3 then 0 else if i % 2 == 0 then 6 + i / 2 else 9 - i / 2
  }

  /** Section 3.2.5, number by number. */
  lemma LengthsOfRfc(l: nat)
    requires l < 29
    ensures LengthBase(l) == [
      3, 4, 5, 6, 7, 8, 9, 10, 11, 13, 15, 17, 19, 23, 27, 31, 35, 43, 51, 59, 67, 83, 99, 115, 131, 163, 195, 227, 258][l]
    ensures LengthExtra(l) == [0, 0, 0, 0, 0, 0, 0, 0, 1, 1, 1, 1, 2, 2, 2, 2, 3, 3, 3, 3, 4, 4, 4, 4, 5, 5, 5, 5, 0][l]
  {
    hide Pow2;
    assert Pow2(1) == 2 && Pow2(2) == 4 && Pow2(3) == 8 && Pow2(4) == 16 && Pow2(5) == 32 by {
      PowersTo5();
    }
  }

  lemma PowersTo5()
    ensures Pow2(1) == 2 && Pow2(2) == 4 && Pow2(3) == 8 && Pow2(4) == 16 && Pow2(5) == 32
  {
  }

  lemma DistanceExtrasOfRfc(d: nat)
    requires d < 30
    ensures DistanceExtra(d) ==
      [0, 0, 0, 0, 1, 1, 2, 2, 3, 3, 4, 4, 5, 5, 6, 6, 7, 7, 8, 8, 9, 9, 10, 10, 11, 11, 12, 12, 13, 13][d]
  {
  }

  /** Each distance class begins where the one before ends; the first is the distance 1, and the last
      ends at 32768. */
  lemma DistancesOfRfc(d: nat)
    requires d < 30
    ensures DistanceBase(0) == 1 && DistanceBase(d + 1) == DistanceBase(d) + Pow2(DistanceExtra(d))
    ensures DistanceBase(30) == 32769
  {
    hide Pow2;
    assert Pow2(0) == 1 && Pow2(1) == 2 && Pow2(14) == 16384 by {
      PowersTo14();
    }
    if d >= 4 {
      var e := d / 2 - 1;
      assert Pow2(e + 1) == 2 * Pow2(e) by {
        NextPower(e);
      }
      if d % 2 == 0 {
        assert DistanceExtra(d) == e && DistanceBase(d) == 1 + 2 * Pow2(e) && DistanceBase(d + 1) == 1 + 3 * Pow2(e);
      } else {
        assert DistanceExtra(d) == e && DistanceBase(d) == 1 + 3 * Pow2(e) && DistanceBase(d + 1) == 1 + 2 * Pow2(e + 1);
      }
    }
  }

  lemma NextPower(e: nat)
    ensures Pow2(e + 1) == 2 * Pow2(e)
  {
  }

  lemma PowersTo14()
    ensures Pow2(0) == 1 && Pow2(1) == 2 && Pow2(14) == 16384
  {
    assert Pow2(5) == 32;
    assert Pow2(10) == 1024;
  }

  const END_OF_BLOCK: nat := 256

  // ----- what the tokens stand for

  /** A back-reference names a length class with its extra bits and a distance class with its own. */
  datatype Token = Literal(byte: Byte) | Match(length: nat, lengthBits: nat, distance: nat, distanceBits: nat)
  {
    ghost predicate Valid()
    {
      Match? ==>
        && length < 29 && lengthBits < Pow2(LengthExtra(length))
        && distance < 30 && distanceBits < Pow2(DistanceExtra(distance))
    }

    ghost function LengthTail(): BitSeq
      requires Match? && Valid()
    {
      Low(lengthBits, LengthExtra(length))
    }

    ghost function DistanceTail(): BitSeq
      requires Match? && Valid()
    {
      Low(distanceBits, DistanceExtra(distance))
    }

    function CopyLength(): nat
      requires Match? && length < 29
    {
      LengthBase(length) + lengthBits
    }

    function CopyDistance(): (d: nat)
      requires Match? && distance < 30
      ensures d > 0
    {
      DistanceBase(distance) + distanceBits
    }
  }

  /** Copying byte by byte from `distance` back, so the copy may read what it just wrote. */
  ghost function Copy(out: seq<Byte>, distance: nat, length: nat): (r: seq<Byte>)
    requires 0 < distance <= |out|
    ensures |r| == |out| + length && r[..|out|] == out
    decreases length
  {
    if length == 0 then out else Copy(out + [out[|out| - distance]], distance, length - 1)
  }

  /** A copy repeats the last `distance` bytes for as long as it needs, overlap or not. */
  lemma {:induction false} CopyIsPeriodic(out: seq<Byte>, distance: nat, length: nat, i: nat)
    requires 0 < distance <= |out| && |out| <= i < |out| + length
    ensures Copy(out, distance, length)[i] == Copy(out, distance, length)[i - distance]
    decreases length
  {
    var next := out + [out[|out| - distance]];
    if i == |out| {
      assert Copy(next, distance, length - 1)[..|next|] == next;
    } else {
      CopyIsPeriodic(next, distance, length - 1, i);
    }
  }

  ghost predicate AllValid(tokens: seq<Token>) { forall i :: 0 <= i < |tokens| ==> tokens[i].Valid() }

  /** The bytes after a list of tokens; a distance reaching before the start has no meaning. */
  ghost function Expand(tokens: seq<Token>, out: seq<Byte>): (r: Option<seq<Byte>>)
    requires AllValid(tokens)
    ensures r.Some? ==> out <= r.value
  {
    if tokens == [] then Some(out)
    else match tokens[0]
      case Literal(b) => Expand(tokens[1..], out + [b])
      case Match(_, _, _, _) =>
        if |out| < tokens[0].CopyDistance() then None
        else Expand(tokens[1..], Copy(out, tokens[0].CopyDistance(), tokens[0].CopyLength()))
  }

  // ----- every back-reference the format allows has a token

  /** How often `v` must be halved to fall below `2 * low`. */
  lemma {:induction false} Halvings(v: nat, low: nat, e: nat, top: nat) returns (r: nat)
    requires 0 < low && e <= top && low * Pow2(e) <= v < 2 * (low * Pow2(top))
    ensures e <= r <= top && low * Pow2(r) <= v < 2 * (low * Pow2(r))
    decreases top - e
  {
    if v < 2 * (low * Pow2(e)) || e == top {
      r := e;
    } else {
      assert low * Pow2(e + 1) == 2 * (low * Pow2(e));
      r := Halvings(v, low, e + 1, top);
    }
  }

  lemma TimesMonotone(a: nat, b: nat, p: nat)
    ensures a <= b ==> a * p <= b * p
  {
  }

  lemma QuotientBetween(v: nat, low: nat, p: nat)
    requires 0 < p && low * p <= v < 2 * (low * p)
    ensures low <= v / p < 2 * low && v == v / p * p + v % p && v % p < p
  {
    var q := v / p;
    assert v == q * p + v % p && (q + 1) * p == q * p + p;
    TimesMonotone(q + 1, low, p);
    TimesMonotone(2 * low, q, p);
    assert 2 * low * p == 2 * (low * p);
  }

  lemma LengthClass(length: nat) returns (l: nat, bits: nat)
    requires 3 <= length <= 258
    ensures l < 29 && bits < Pow2(LengthExtra(l)) && LengthBase(l) + bits == length
  {
    var v := length - 3;
    if length == 258 {
      l, bits := 28, 0;
    } else if v < 8 {
      l, bits := v, 0;
    } else {
      assert Pow2(1) == 2 && Pow2(5) == 32;
      var e := Halvings(v, 4, 1, 5);
      QuotientBetween(v, 4, Pow2(e));
      l, bits := 4 * e + v / Pow2(e), v % Pow2(e);
      assert l / 4 - 1 == e && 4 + l % 4 == v / Pow2(e);
    }
  }

  lemma DistanceClass(distance: nat) returns (d: nat, bits: nat)
    requires 1 <= distance <= 32768
    ensures d < 30 && bits < Pow2(DistanceExtra(d)) && DistanceBase(d) + bits == distance
  {
    var v := distance - 1;
    if v < 4 {
      d, bits := v, 0;
    } else {
      assert Pow2(1) == 2 && Pow2(4) == 16 && Pow2(8) == 256 && Pow2(12) == 4096 && Pow2(13) == 8192;
      var e := Halvings(v, 2, 1, 13);
      QuotientBetween(v, 2, Pow2(e));
      d, bits := 2 * e + v / Pow2(e), v % Pow2(e);
      assert d / 2 - 1 == e && 2 + d % 2 == v / Pow2(e);
    }
  }

  /** Sections 3.2.3 and 3.2.5: any length from 3 to 258 at any distance from 1 to 32768. */
  lemma EveryMatchHasAToken(length: nat, distance: nat) returns (t: Token)
    requires 3 <= length <= 258 && 1 <= distance <= 32768
    ensures t.Match? && t.Valid() && t.CopyLength() == length && t.CopyDistance() == distance
  {
    var l, lengthBits := LengthClass(length);
    var d, distanceBits := DistanceClass(distance);
    t := Match(l, lengthBits, d, distanceBits);
  }

  // ----- compressed data

  datatype CodePair = CodePair(literals: seq<nat>, distances: seq<nat>)
  {
    ghost predicate Valid()
    {
      && LengthsValid(literals) && LengthsValid(distances)
      && Kraft(Counts(literals)) && Kraft(Counts(distances))
    }

    ghost predicate Covers(t: Token)
      requires t.Valid()
    {
      match t
      case Literal(b) => Used(literals, b)
      case Match(l, _, d, _) => Used(literals, END_OF_BLOCK + 1 + l) && Used(distances, d)
    }

    ghost predicate CoversAll(tokens: seq<Token>)
    {
      && Used(literals, END_OF_BLOCK)
      && AllValid(tokens)
      && forall i :: 0 <= i < |tokens| ==> Covers(tokens[i])
    }
  }

  // Bits are assembled in front of whatever follows them, `tail`.

  /** Codes go most significant bit first, extra bits least significant first. */
  ghost function TokenBits(codes: CodePair, t: Token, tail: BitSeq): BitSeq
    requires t.Valid() && codes.Covers(t)
  {
    match t
    case Literal(b) => Code(codes.literals, b) + tail
    case Match(l, _, _, _) => Code(codes.literals, END_OF_BLOCK + 1 + l) + MatchBits(codes, t, tail)
  }

  /** What follows the length symbol of a back-reference. */
  ghost function MatchBits(codes: CodePair, t: Token, tail: BitSeq): BitSeq
    requires t.Match? && t.Valid() && codes.Covers(t)
  {
    t.LengthTail() + (Code(codes.distances, t.distance) + (t.DistanceTail() + tail))
  }

  ghost function TokensBits(codes: CodePair, tokens: seq<Token>, tail: BitSeq): BitSeq
    requires codes.CoversAll(tokens)
  {
    if tokens == [] then Code(codes.literals, END_OF_BLOCK) + tail
    else TokenBits(codes, tokens[0], TokensBits(codes, tokens[1..], tail))
  }

  // ----- the code lengths of a dynamic block

  datatype LengthOp = Lengths(value: nat) | Repeat(times: nat) | Zeros(times: nat) | ManyZeros(times: nat)
  {
    ghost predicate Valid()
    {
      match this
      case Lengths(v) => v <= MAX_BITS
      case Repeat(n) => 3 <= n <= 6
      case Zeros(n) => 3 <= n <= 10
      case ManyZeros(n) => 11 <= n <= 138
    }

    function Symbol(): (s: nat)
    {
      match this
      case Lengths(v) => v
      case Repeat(_) => 16
      case Zeros(_) => 17
      case ManyZeros(_) => 18
    }

    ghost function Extra(): BitSeq
      requires Valid()
    {
      match this
      case Lengths(_) => []
      case Repeat(n) => Low(n - 3, 2)
      case Zeros(n) => Low(n - 3, 3)
      case ManyZeros(n) => Low(n - 11, 7)
    }
  }

  function Fill(value: nat, n: nat): (s: seq<nat>)
    ensures |s| == n
  {
    seq(n, _ => value)
  }

  ghost predicate OpsValid(ops: seq<LengthOp>) { forall i :: 0 <= i < |ops| ==> ops[i].Valid() }

  ghost predicate AllAtMost(s: seq<nat>, bound: nat) { forall i :: 0 <= i < |s| ==> s[i] <= bound }

  /** What one run-length operation appends; a repeat needs something before it. */
  ghost function ApplyOp(op: LengthOp, lengths: seq<nat>): (r: Option<seq<nat>>)
    ensures r.Some? ==> lengths <= r.value
  {
    match op
    case Lengths(v) => Some(lengths + [v])
    case Repeat(n) => if lengths == [] then None else Some(lengths + Fill(lengths[|lengths| - 1], n))
    case Zeros(n) => Some(lengths + Fill(0, n))
    case ManyZeros(n) => Some(lengths + Fill(0, n))
  }

  ghost function ExpandOps(ops: seq<LengthOp>, lengths: seq<nat>): (r: Option<seq<nat>>)
    ensures r.Some? ==> lengths <= r.value
  {
    if ops == [] then Some(lengths)
    else match ApplyOp(ops[0], lengths)
      case None => None
      case Some(next) => ExpandOps(ops[1..], next)
  }

  /** Every operation makes progress. */
  lemma {:induction false} ExpandOpsGrows(ops: seq<LengthOp>, lengths: seq<nat>)
    requires OpsValid(ops) && ExpandOps(ops, lengths).Some?
    ensures |lengths| + |ops| <= |ExpandOps(ops, lengths).value|
  {
    if ops != [] {
      ExpandOpsGrows(ops[1..], ApplyOp(ops[0], lengths).value);
    }
  }

  lemma ApplyOpBounded(op: LengthOp, lengths: seq<nat>)
    requires op.Valid() && ApplyOp(op, lengths).Some? && AllAtMost(lengths, MAX_BITS)
    ensures AllAtMost(ApplyOp(op, lengths).value, MAX_BITS)
  {
  }

  ghost predicate OpsCovered(code: seq<nat>, ops: seq<LengthOp>)
  {
    forall i :: 0 <= i < |ops| ==> ops[i].Valid() && Used(code, ops[i].Symbol())
  }

  ghost function OpsBits(code: seq<nat>, ops: seq<LengthOp>, tail: BitSeq): BitSeq
    requires OpsCovered(code, ops)
  {
    if ops == [] then tail
    else Code(code, ops[0].Symbol()) + (ops[0].Extra() + OpsBits(code, ops[1..], tail))
  }

  /** `code` gives the lengths of the code-length code, of which the first `sent` in the format's
      own order are written. */
  datatype Header = Header(literalCount: nat, distanceCount: nat, sent: nat, code: seq<nat>, ops: seq<LengthOp>)
  {
    ghost predicate Valid()
    {
      && 257 <= literalCount <= 286 && 1 <= distanceCount <= 30 && 4 <= sent <= 19
      && |code| == 19 && (forall i :: 0 <= i < 19 ==> code[i] < 8)
      && (forall i :: sent <= i < 19 ==> code[CodeLengthOrder(i)] == 0)
      && Kraft(Counts(code))
      && OpsCovered(code, ops)
      && ExpandOps(ops, []).Some? && |ExpandOps(ops, []).value| == literalCount + distanceCount
    }

    ghost function BlockCodes(): CodePair
      requires Valid()
    {
      var lengths := ExpandOps(ops, []).value;
      CodePair(lengths[..literalCount], lengths[literalCount..])
    }

    ghost function Bits(tail: BitSeq): BitSeq
      requires Valid()
    {
      Low(literalCount - 257, 5) + (Low(distanceCount - 1, 5) + (Low(sent - 4, 4)
      + SentBits(code, 0, sent, OpsBits(code, ops, tail))))
    }
  }

  ghost function SentBits(code: seq<nat>, from: nat, sent: nat, tail: BitSeq): BitSeq
    requires |code| == 19 && from <= sent <= 19
    decreases sent - from
  {
    if from == sent then tail else Low(code[CodeLengthOrder(from)], 3) + SentBits(code, from + 1, sent, tail)
  }

  // ----- blocks and streams

  function FixedLiterals(): (s: seq<nat>)
    ensures |s| == 288
  {
    Fill(8, 144) + Fill(9, 112) + Fill(7, 24) + Fill(8, 8)
  }

  function FixedDistances(): (s: seq<nat>)
    ensures |s| == 30
  {
    Fill(5, 30)
  }

  ghost function FixedCodes(): CodePair { CodePair(FixedLiterals(), FixedDistances()) }

  /** A stored block's padding may hold any bits. */
  datatype Block =
    | Stored(padding: BitSeq, bytes: seq<Byte>)
    | Fixed(tokens: seq<Token>)
    | Dynamic(header: Header, tokens: seq<Token>)
  {
    ghost predicate Valid()
    {
      match this
      case Stored(padding, bytes) => |bytes| < 0x1_0000 && |padding| < 8
      case Fixed(tokens) => FixedCodes().CoversAll(tokens)
      case Dynamic(header, tokens) => header.Valid() && header.BlockCodes().Valid() && header.BlockCodes().CoversAll(tokens)
    }

    ghost function Type(): nat
    {
      match this
      case Stored(_, _) => 0
      case Fixed(_) => 1
      case Dynamic(_, _) => 2
    }

    ghost function Body(tail: BitSeq): BitSeq
      requires Valid()
    {
      match this
      case Stored(padding, bytes) =>
        padding + (Low(|bytes|, 16) + (Low(0xFFFF - |bytes|, 16) + (ByteBits(bytes) + tail)))
      case Fixed(tokens) => TokensBits(FixedCodes(), tokens, tail)
      case Dynamic(header, tokens) => header.Bits(TokensBits(header.BlockCodes(), tokens, tail))
    }

    ghost function Bits(last: bool, tail: BitSeq): BitSeq
      requires Valid()
    {
      [last] + (Low(Type(), 2) + Body(tail))
    }

    ghost function Expansion(out: seq<Byte>): (r: Option<seq<Byte>>)
      requires Valid()
      ensures r.Some? ==> out <= r.value
    {
      match this
      case Stored(_, bytes) => Some(out + bytes)
      case Fixed(tokens) => Expand(tokens, out)
      case Dynamic(_, tokens) => Expand(tokens, out)
    }
  }

  /** How a block begins: whether it is the last, and its type, the lower bit first. */
  lemma BlockTypes(block: Block, last: bool, tail: BitSeq)
    requires block.Valid()
    ensures block.Stored? ==> block.Bits(last, tail) == [last, false, false] + block.Body(tail)
    ensures block.Fixed? ==> block.Bits(last, tail) == [last, true, false] + block.Body(tail)
    ensures block.Dynamic? ==> block.Bits(last, tail) == [last, false, true] + block.Body(tail)
  {
    hide Block.Body;
    TypeBits();
    Associative([last], Low(block.Type(), 2), block.Body(tail));
  }

  lemma TypeBits()
    ensures Low(0, 2) == [false, false] && Low(1, 2) == [true, false] && Low(2, 2) == [false, true]
  {
  }

  /** The code lengths of section 3.2.6. */
  lemma FixedLengthsOfRfc(s: nat)
    ensures s < 288 ==> FixedLiterals()[s] == if s < 144 then 8 else if s < 256 then 9 else if s < 280 then 7 else 8
    ensures s < 30 ==> FixedDistances()[s] == 5
  {
  }

  ghost predicate ValidStream(blocks: seq<Block>)
  {
    blocks != [] && forall i :: 0 <= i < |blocks| ==> blocks[i].Valid()
  }

  /** Only the last block says it is last. */
  ghost function StreamBits(blocks: seq<Block>, tail: BitSeq): BitSeq
    requires ValidStream(blocks)
  {
    if |blocks| == 1 then blocks[0].Bits(true, tail) else blocks[0].Bits(false, StreamBits(blocks[1..], tail))
  }

  /** A stored block ends at a byte boundary: whole bytes follow it. */
  ghost predicate Aligned(blocks: seq<Block>, tail: BitSeq)
    requires ValidStream(blocks)
  {
    if |blocks| == 1 then blocks[0].Stored? ==> |tail| % 8 == 0
    else
      && Aligned(blocks[1..], tail)
      && (blocks[0].Stored? ==> |StreamBits(blocks[1..], tail)| % 8 == 0)
  }

  ghost function StreamExpansion(blocks: seq<Block>, out: seq<Byte>): (r: Option<seq<Byte>>)
    requires ValidStream(blocks)
    ensures r.Some? ==> out <= r.value
  {
    match blocks[0].Expansion(out)
    case None => None
    case Some(next) => if |blocks| == 1 then Some(next) else StreamExpansion(blocks[1..], next)
  }
}
