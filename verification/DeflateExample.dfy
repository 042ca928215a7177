/** One dynamic block worked through by hand: what its bits are, and that they inflate to its text. */
module DeflateExample {
  import opened BitStreams
  import opened CanonicalCodes
  import opened HuffmanTables
  import opened DeflateFormat
  import opened InflateSpec

  // ----- the code lengths

  lemma {:induction false} HavingConcat(a: seq<nat>, b: seq<nat>, len: nat)
    ensures Having(a + b, len) == Having(a, len) + Having(b, len)
  {
    if b == [] {
      assert a + b == a;
    } else {
      var n := |b| - 1;
      assert (a + b)[..|a + b| - 1] == a + b[..n];
      HavingConcat(a, b[..n], len);
    }
  }

  lemma {:induction false} HavingFill(v: nat, n: nat, len: nat)
    ensures Having(Fill(v, n), len) == if v == len then n else 0
  {
    if n > 0 {
      assert Fill(v, n)[..n - 1] == Fill(v, n - 1);
      HavingFill(v, n - 1, len);
    }
  }

  /** A run of equal lengths behind others. */
  lemma HavingRun(front: seq<nat>, v: nat, n: nat, len: nat)
    ensures Having(front + Fill(v, n), len) == Having(front, len) + if v == len then n else 0
  {
    HavingConcat(front, Fill(v, n), len);
    HavingFill(v, n, len);
  }

  /** In a run of symbols of one length, the codes follow one another from the first of that length. */
  lemma CodeInRun(front: seq<nat>, len: nat, n: nat, back: seq<nat>, lengths: seq<nat>, i: nat)
    requires 0 < len <= MAX_BITS && i < n && lengths == front + Fill(len, n) + back
    ensures Used(lengths, |front| + i)
    ensures Code(lengths, |front| + i) == High(First(Counts(lengths), len) + Having(front, len) + i, len)
  {
    hide Having, First, Counts, High;
    var before := front + Fill(len, i);
    assert lengths[..|front| + i] == before && lengths[|front| + i] == len;
    HavingRun(front, len, i, len);
  }

  /** The codes of the example: "abcd", the end of the block and lengths of 11 and 12 for the literals. */
  function Literals(): (s: seq<nat>)
    ensures |s| == 266
  {
    Fill(0, 97) + Fill(3, 4) + Fill(0, 155) + Fill(2, 1) + Fill(0, 8) + Fill(2, 1)
  }

  /** Distances of 5 and 6. */
  function Distances(): (s: seq<nat>)
    ensures |s| == 5
  {
    Fill(0, 4) + Fill(1, 1)
  }

  /** The code in which those lengths are written. */
  function LengthCode(): (s: seq<nat>)
    ensures |s| == 19
  {
    Fill(0, 1) + Fill(3, 1) + Fill(2, 1) + Fill(4, 1) + Fill(0, 12) + Fill(4, 1) + Fill(2, 2)
  }

  function Ops(): (ops: seq<LengthOp>)
    ensures |ops| == 10
  {
    [ManyZeros(97), Lengths(3), Repeat(3), ManyZeros(138), ManyZeros(17), Lengths(2), Zeros(8), Lengths(2), Zeros(4), Lengths(1)]
  }

  lemma LiteralCounts(len: nat)
    ensures Having(Literals(), len) == (if len == 0 then 260 else if len == 2 then 2 else if len == 3 then 4 else 0)
    ensures Having(Fill(0, 97), len) == if len == 0 then 97 else 0
    ensures Having(Fill(0, 97) + Fill(3, 4) + Fill(0, 155), len) == (if len == 0 then 252 else if len == 3 then 4 else 0)
    ensures Having(Fill(0, 97) + Fill(3, 4) + Fill(0, 155) + Fill(2, 1) + Fill(0, 8), len) ==
            (if len == 0 then 260 else if len == 2 then 1 else if len == 3 then 4 else 0)
  {
    hide Having;
    var a := Fill(0, 97) + Fill(3, 4);
    HavingFill(0, 97, len);
    HavingRun(Fill(0, 97), 3, 4, len);
    HavingRun(a, 0, 155, len);
    HavingRun(a + Fill(0, 155), 2, 1, len);
    HavingRun(a + Fill(0, 155) + Fill(2, 1), 0, 8, len);
    HavingRun(a + Fill(0, 155) + Fill(2, 1) + Fill(0, 8), 2, 1, len);
  }

  lemma DistanceCounts(len: nat)
    ensures Having(Distances(), len) == (if len == 0 then 4 else if len == 1 then 1 else 0)
    ensures Having(Fill(0, 4), len) == if len == 0 then 4 else 0
  {
    hide Having;
    HavingFill(0, 4, len);
    HavingRun(Fill(0, 4), 1, 1, len);
  }

  lemma LengthCodeCounts(len: nat)
    ensures Having(LengthCode(), len) ==
      (if len == 0 then 13 else if len == 2 then 3 else if len == 3 then 1 else if len == 4 then 2 else 0)
  {
    hide Having;
    var a := Fill(0, 1) + Fill(3, 1) + Fill(2, 1);
    var b := a + Fill(4, 1) + Fill(0, 12);
    HavingFill(0, 1, len);
    HavingRun(Fill(0, 1), 3, 1, len);
    HavingRun(Fill(0, 1) + Fill(3, 1), 2, 1, len);
    HavingRun(a, 4, 1, len);
    HavingRun(a + Fill(4, 1), 0, 12, len);
    HavingRun(b, 4, 1, len);
    HavingRun(b + Fill(4, 1), 2, 2, len);
  }

  /** What is left of a complete code stays nothing. */
  lemma {:induction false} LeftOver(counts: seq<nat>, from: nat, len: nat)
    requires |counts| == 16 && 0 < from <= len < 16 && Left(counts, from) >= 0
    requires forall i :: from < i < 16 ==> counts[i] == 0
    ensures Left(counts, len) >= 0
  {
    hide Left;
    if from < len {
      LeftOver(counts, from, len - 1);
      LeftStep(counts, len);
    }
  }

  lemma LiteralsFit()
    ensures Kraft(Counts(Literals()))
    ensures First(Counts(Literals()), 2) == 0 && First(Counts(Literals()), 3) == 4
  {
    hide Literals, Having;
    var counts := Counts(Literals());
    forall len | 1 <= len < 16 ensures counts[len] == if len == 2 then 2 else if len == 3 then 4 else 0 {
      LiteralCounts(len);
    }
    FewPowers();
    assert First(counts, 1) == 0 && First(counts, 2) == 0 && First(counts, 3) == 4;
    forall len | 1 <= len < 16 ensures Left(counts, len) >= 0 {
      if 3 < len {
        LeftOver(counts, 3, len);
      }
    }
  }

  lemma DistancesFit()
    ensures Kraft(Counts(Distances())) && First(Counts(Distances()), 1) == 0
  {
    hide Distances, Having;
    var counts := Counts(Distances());
    forall len | 1 <= len < 16 ensures counts[len] == if len == 1 then 1 else 0 {
      DistanceCounts(len);
    }
    FewPowers();
    assert First(counts, 1) == 0;
    forall len | 1 <= len < 16 ensures Left(counts, len) >= 0 {
      LeftOver(counts, 1, len);
    }
  }

  lemma LengthCodeFits()
    ensures Kraft(Counts(LengthCode()))
    ensures First(Counts(LengthCode()), 2) == 0 && First(Counts(LengthCode()), 3) == 6 && First(Counts(LengthCode()), 4) == 14
  {
    hide LengthCode, Having;
    var counts := Counts(LengthCode());
    forall len | 1 <= len < 16 ensures counts[len] == if len == 2 then 3 else if len == 3 then 1 else if len == 4 then 2 else 0 {
      LengthCodeCounts(len);
    }
    FewPowers();
    assert First(counts, 1) == 0 && First(counts, 2) == 0 && First(counts, 3) == 6 && First(counts, 4) == 14;
    forall len | 1 <= len < 16 ensures Left(counts, len) >= 0 {
      if 4 < len {
        LeftOver(counts, 4, len);
      }
    }
  }

  // ----- the codes

  lemma LiteralCodes()
    ensures Used(Literals(), 97) && Code(Literals(), 97) == Low(1, 3)
    ensures Used(Literals(), 98) && Code(Literals(), 98) == Low(5, 3)
    ensures Used(Literals(), 99) && Code(Literals(), 99) == Low(3, 3)
    ensures Used(Literals(), 100) && Code(Literals(), 100) == Low(7, 3)
    ensures Used(Literals(), 256) && Code(Literals(), 256) == Low(0, 2)
    ensures Used(Literals(), 265) && Code(Literals(), 265) == Low(2, 2)
  {
    hide Having, Counts, First, Code, Literals, Fill, High, Low;
    LiteralsFit();
    LiteralCounts(2);
    LiteralCounts(3);
    LiteralsShape();
    LettersBackwards();
    var a := Fill(0, 97) + Fill(3, 4) + Fill(0, 155);
    var back := Fill(0, 155) + Fill(2, 1) + Fill(0, 8) + Fill(2, 1);
    CodeInRun(Fill(0, 97), 3, 4, back, Literals(), 0);
    CodeInRun(Fill(0, 97), 3, 4, back, Literals(), 1);
    CodeInRun(Fill(0, 97), 3, 4, back, Literals(), 2);
    CodeInRun(Fill(0, 97), 3, 4, back, Literals(), 3);
    CodeInRun(a, 2, 1, Fill(0, 8) + Fill(2, 1), Literals(), 0);
    CodeInRun(a + Fill(2, 1) + Fill(0, 8), 2, 1, [], Literals(), 0);
  }

  lemma LiteralsShape()
    ensures var a, back := Fill(0, 97) + Fill(3, 4) + Fill(0, 155), Fill(0, 155) + Fill(2, 1) + Fill(0, 8) + Fill(2, 1);
      && Literals() == Fill(0, 97) + Fill(3, 4) + back
      && Literals() == a + Fill(2, 1) + (Fill(0, 8) + Fill(2, 1))
      && Literals() == a + Fill(2, 1) + Fill(0, 8) + Fill(2, 1) + []
  {
    hide Fill;
  }

  lemma LettersBackwards()
    ensures High(4, 3) == Low(1, 3) && High(5, 3) == Low(5, 3) && High(6, 3) == Low(3, 3) && High(7, 3) == Low(7, 3)
    ensures High(0, 2) == Low(0, 2) && High(1, 2) == Low(2, 2)
  {
    TwoBits();
    hide High, Low;
    ThreeBits(1);
    ThreeBits(3);
    ThreeBits(4);
    ThreeBits(5);
    ThreeBits(6);
    ThreeBits(7);
  }

  lemma TwoBits()
    ensures High(0, 2) == Low(0, 2) && High(1, 2) == Low(2, 2)
  {
  }

  /** Three bits from either end. */
  lemma ThreeBits(v: nat)
    ensures High(v, 3) == [v / 2 / 2 % 2 == 1, v / 2 % 2 == 1, v % 2 == 1]
    ensures Low(v, 3) == [v % 2 == 1, v / 2 % 2 == 1, v / 2 / 2 % 2 == 1]
  {
    hide High, Low;
    HighNext(v, 2);
    HighNext(v / 2, 1);
    HighNext(v / 2 / 2, 0);
    HighNext(v / 2 / 2 / 2, 0);
    LowStep(v, 3);
    LowStep(v / 2, 2);
    LowStep(v / 2 / 2, 1);
  }

  lemma LengthCodeShape()
    ensures var a, b := Fill(0, 1) + Fill(3, 1), Fill(0, 1) + Fill(3, 1) + Fill(2, 1);
      var c := b + Fill(4, 1) + Fill(0, 12);
      var d := c + Fill(4, 1);
      && LengthCode() == Fill(0, 1) + Fill(3, 1) + (Fill(2, 1) + Fill(4, 1) + Fill(0, 12) + Fill(4, 1) + Fill(2, 2))
      && LengthCode() == a + Fill(2, 1) + (Fill(4, 1) + Fill(0, 12) + Fill(4, 1) + Fill(2, 2))
      && LengthCode() == b + Fill(4, 1) + (Fill(0, 12) + Fill(4, 1) + Fill(2, 2))
      && LengthCode() == c + Fill(4, 1) + Fill(2, 2) && LengthCode() == d + Fill(2, 2) + []
  {
    hide Fill;
  }

  lemma LengthCodeFronts(len: nat)
    requires 2 <= len <= 4
    ensures var a, b := Fill(0, 1) + Fill(3, 1), Fill(0, 1) + Fill(3, 1) + Fill(2, 1);
      var c := b + Fill(4, 1) + Fill(0, 12);
      && Having(Fill(0, 1), len) == 0 && Having(a, len) == (if len == 3 then 1 else 0)
      && Having(b, len) == (if len <= 3 then 1 else 0) && Having(c, len) == 1
      && Having(c + Fill(4, 1), len) == (if len == 4 then 2 else 1)
  {
    hide Having;
    var a, b := Fill(0, 1) + Fill(3, 1), Fill(0, 1) + Fill(3, 1) + Fill(2, 1);
    var c := b + Fill(4, 1) + Fill(0, 12);
    HavingFill(0, 1, len);
    HavingRun(Fill(0, 1), 3, 1, len);
    HavingRun(a, 2, 1, len);
    HavingRun(b, 4, 1, len);
    HavingRun(b + Fill(4, 1), 0, 12, len);
    HavingRun(c, 4, 1, len);
  }

  lemma DistanceCode()
    ensures Used(Distances(), 4) && Code(Distances(), 4) == Low(0, 1)
  {
    hide Having, Counts, First, Code;
    DistancesFit();
    DistanceCounts(1);
    assert Distances() == Fill(0, 4) + Fill(1, 1) + [];
    CodeInRun(Fill(0, 4), 1, 1, [], Distances(), 0);
    assert High(0, 1) == Low(0, 1);
  }

  lemma LengthCodes()
    ensures Used(LengthCode(), 1) && Code(LengthCode(), 1) == Low(3, 3)
    ensures Used(LengthCode(), 2) && Code(LengthCode(), 2) == Low(0, 2)
    ensures Used(LengthCode(), 3) && Code(LengthCode(), 3) == Low(7, 4)
    ensures Used(LengthCode(), 16) && Code(LengthCode(), 16) == Low(15, 4)
    ensures Used(LengthCode(), 17) && Code(LengthCode(), 17) == Low(2, 2)
    ensures Used(LengthCode(), 18) && Code(LengthCode(), 18) == Low(1, 2)
  {
    hide Having, Counts, First, Code, LengthCode, Fill, High, Low;
    LengthCodeFits();
    var a, b := Fill(0, 1) + Fill(3, 1), Fill(0, 1) + Fill(3, 1) + Fill(2, 1);
    var c := b + Fill(4, 1) + Fill(0, 12);
    var d := c + Fill(4, 1);
    LengthCodeFronts(2);
    LengthCodeFronts(3);
    LengthCodeFronts(4);
    LengthCodeShape();
    CodeInRun(Fill(0, 1), 3, 1, Fill(2, 1) + Fill(4, 1) + Fill(0, 12) + Fill(4, 1) + Fill(2, 2), LengthCode(), 0);
    CodeInRun(a, 2, 1, Fill(4, 1) + Fill(0, 12) + Fill(4, 1) + Fill(2, 2), LengthCode(), 0);
    CodeInRun(b, 4, 1, Fill(0, 12) + Fill(4, 1) + Fill(2, 2), LengthCode(), 0);
    CodeInRun(c, 4, 1, Fill(2, 2), LengthCode(), 0);
    CodeInRun(d, 2, 2, [], LengthCode(), 0);
    CodeInRun(d, 2, 2, [], LengthCode(), 1);
    WrittenBackwards();
  }

  lemma WrittenBackwards()
    ensures High(6, 3) == Low(3, 3) && High(0, 2) == Low(0, 2) && High(14, 4) == Low(7, 4) && High(15, 4) == Low(15, 4)
    ensures High(1, 2) == Low(2, 2) && High(2, 2) == Low(1, 2)
  {
  }

  // ----- the block

  function TheHeader(): Header { Header(266, 5, 18, LengthCode(), Ops()) }

  lemma OpsExpand()
    ensures ExpandOps(Ops(), []) == Some(Literals() + Distances())
  {
    hide Fill, ExpandOps, Literals, Distances;
    var ops := Ops();
    var s1 := [] + Fill(0, 97);
    var s2 := s1 + [3];
    var s3 := s2 + Fill(3, 3);
    var s5 := s3 + Fill(0, 138) + Fill(0, 17);
    var s7 := s5 + [2] + Fill(0, 8);
    var s9 := s7 + [2] + Fill(0, 4);
    ExpandFrom(ops, 0, [], s1);
    ExpandFrom(ops, 1, s1, s2);
    ExpandFrom(ops, 2, s2, s3);
    ExpandFrom(ops, 3, s3, s3 + Fill(0, 138));
    ExpandFrom(ops, 4, s3 + Fill(0, 138), s5);
    ExpandFrom(ops, 5, s5, s5 + [2]);
    ExpandFrom(ops, 6, s5 + [2], s7);
    ExpandFrom(ops, 7, s7, s7 + [2]);
    ExpandFrom(ops, 8, s7 + [2], s9);
    ExpandFrom(ops, 9, s9, s9 + [1]);
    ExpandFrom(ops, 10, s9 + [1], []);
    assert ops[0..] == ops;
    Runs();
  }

  lemma Runs()
    ensures var s3: seq<nat> := [] + Fill(0, 97) + [3] + Fill(3, 3);
      s3 + Fill(0, 138) + Fill(0, 17) + [2] + Fill(0, 8) + [2] + Fill(0, 4) + [1] == Literals() + Distances()
  {
    assert [] + Fill(0, 97) == Fill(0, 97) && [3] == Fill(3, 1) && [2] == Fill(2, 1) && [1] == Fill(1, 1);
    hide Fill;
    var s1 := Fill(0, 97);
    MoreFill(s1, 3, 1, 3);
    MoreFill(s1 + Fill(3, 4), 0, 138, 17);
    Associative(Literals(), Fill(0, 4), Fill(1, 1));
  }

  lemma MoreFill(front: seq<nat>, v: nat, m: nat, n: nat)
    ensures front + Fill(v, m) + Fill(v, n) == front + Fill(v, m + n)
  {
  }

  lemma ExpandFrom(ops: seq<LengthOp>, k: nat, lengths: seq<nat>, next: seq<nat>)
    requires k <= |ops| && (k < |ops| ==> ApplyOp(ops[k], lengths) == Some(next))
    ensures k < |ops| ==> ExpandOps(ops[k..], lengths) == ExpandOps(ops[k + 1..], next)
    ensures k == |ops| ==> ExpandOps(ops[k..], lengths) == Some(lengths)
  {
    assert k < |ops| ==> ops[k..][1..] == ops[k + 1..];
  }

  function Tokens(): seq<Token>
  {
    [Literal(97), Literal(98), Literal(99), Literal(100), Literal(97), Literal(98), Match(8, 1, 4, 1)]
  }

  ghost function Codes(): CodePair { CodePair(Literals(), Distances()) }

  lemma TokensCovered()
    ensures Codes().CoversAll(Tokens()) && Codes().Valid()
  {
    hide Code, Having, Counts;
    LiteralCodes();
    DistanceCode();
    LiteralsFit();
    DistancesFit();
    FewPowers();
    assert LengthExtra(8) == 1 && DistanceExtra(4) == 1;
  }

  /** The bits of the tokens from one on, as a number. */
  ghost predicate TokenNumber(k: nat, v: nat, n: nat, rest: BitSeq)
  {
    k <= |Tokens()| && Codes().CoversAll(Tokens()[k..]) && TokensBits(Codes(), Tokens()[k..], rest) == Low(v, n) + rest
  }

  lemma NextToken(k: nat, c: nat, len: nat, p: nat, v: nat, n: nat, w: nat, rest: BitSeq)
    requires k < 6 && TokenNumber(k + 1, v, n, rest) && Code(Literals(), Tokens()[k].byte) == Low(c, len)
    requires p == Pow2(len) && c < p && w == c + p * v
    ensures TokenNumber(k, w, len + n, rest)
  {
    hide Code, Low, Literals, Distances, Pow2;
    TokensCovered();
    assert Tokens()[k..][1..] == Tokens()[k + 1..];
    LowsJoined(c, len, p, v, n, rest);
  }

  lemma LastToken(rest: BitSeq)
    ensures TokenNumber(7, 0, 2, rest) && TokenNumber(6, 22, 7, rest)
  {
    hide Code, Low, Literals, Distances;
    TokensCovered();
    LiteralCodes();
    DistanceCode();
    FewPowers();
    assert LengthExtra(8) == 1 && DistanceExtra(4) == 1;
    assert Tokens()[7..] == [] && Tokens()[6..][1..] == [] && Tokens()[6..] == [Match(8, 1, 4, 1)];
    LowsJoined(1, 1, 2, 0, 2, rest);
    LowsJoined(0, 1, 2, 1, 3, rest);
    LowsJoined(1, 1, 2, 2, 4, rest);
    LowsJoined(2, 2, 4, 5, 5, rest);
  }

  lemma TokenBitsAre(rest: BitSeq)
    ensures TokenNumber(0, 5938921, 25, rest)
  {
    hide Code, Low, Literals, Distances, TokenNumber;
    LiteralCodes();
    FewPowers();
    LastToken(rest);
    NextToken(5, 5, 3, 8, 22, 7, 181, rest);
    NextToken(4, 1, 3, 8, 181, 10, 1449, rest);
    NextToken(3, 7, 3, 8, 1449, 13, 11599, rest);
    NextToken(2, 3, 3, 8, 11599, 16, 92795, rest);
    NextToken(1, 5, 3, 8, 92795, 19, 742365, rest);
    NextToken(0, 1, 3, 8, 742365, 22, 5938921, rest);
  }

  ghost predicate OpNumber(k: nat, v: nat, n: nat, m: nat, u: nat, rest: BitSeq)
  {
    && k <= |Ops()| && OpsCovered(LengthCode(), Ops()[k..])
    && OpsBits(LengthCode(), Ops()[k..], Low(u, m) + rest) == Low(v, n) + rest
  }

  lemma OpsAreCovered(k: nat)
    requires k <= |Ops()|
    ensures OpsCovered(LengthCode(), Ops()[k..])
  {
    hide Code, LengthCode;
    LengthCodes();
  }

  lemma NextOp(k: nat, c: nat, len: nat, p: nat, x: nat, xlen: nat, q: nat, v: nat, n: nat, w: nat, m: nat, u: nat, rest: BitSeq)
    requires k < |Ops()| && OpNumber(k + 1, v, n, m, u, rest)
    requires Used(LengthCode(), Ops()[k].Symbol()) && Code(LengthCode(), Ops()[k].Symbol()) == Low(c, len)
    requires Ops()[k].Valid() && Ops()[k].Extra() == Low(x, xlen)
    requires p == Pow2(len) && c < p && q == Pow2(xlen) && x < q && w == c + p * (x + q * v)
    ensures OpNumber(k, w, len + xlen + n, m, u, rest)
  {
    hide Code, Low, LengthCode, Pow2, LengthOp.Extra;
    OpsAreCovered(k);
    assert Ops()[k..][1..] == Ops()[k + 1..];
    LowsJoined(x, xlen, q, v, n, rest);
    LowsJoined(c, len, p, x + q * v, xlen + n, rest);
  }

  lemma OpBitsAre(rest: BitSeq)
    ensures OpNumber(0, 106986096800044765802329, 79, 25, 5938921, rest)
  {
    hide Code, Low, LengthCode, OpNumber;
    LengthCodes();
    FewPowers();
    NoExtra();
    LastOp(25, 5938921, rest);
    NextOp(9, 3, 3, 8, 0, 0, 1, 5938921, 25, 47511371, 25, 5938921, rest);
    NextOp(8, 2, 2, 4, 1, 3, 8, 47511371, 28, 1520363878, 25, 5938921, rest);
    NextOp(7, 0, 2, 4, 0, 0, 1, 1520363878, 33, 6081455512, 25, 5938921, rest);
    NextOp(6, 2, 2, 4, 5, 3, 8, 6081455512, 35, 194606576406, 25, 5938921, rest);
    NextOp(5, 0, 2, 4, 0, 0, 1, 194606576406, 40, 778426305624, 25, 5938921, rest);
    NextOp(4, 1, 2, 4, 6, 7, 128, 778426305624, 42, 398554268479513, 25, 5938921, rest);
    NextOp(3, 1, 2, 4, 127, 7, 128, 398554268479513, 51, 204059785461511165, 25, 5938921, rest);
    NextOp(2, 15, 4, 16, 0, 2, 4, 204059785461511165, 60, 13059826269536714575, 25, 5938921, rest);
    NextOp(1, 7, 4, 16, 0, 0, 1, 13059826269536714575, 66, 208957220312587433207, 25, 5938921, rest);
    NextOp(0, 1, 2, 4, 86, 7, 128, 208957220312587433207, 70, 106986096800044765802329, 25, 5938921, rest);
  }

  lemma NoExtra()
    ensures Low(0, 0) == []
  {
  }

  lemma LastOp(m: nat, u: nat, rest: BitSeq)
    ensures OpNumber(10, u, m, m, u, rest)
  {
    assert Ops()[10..] == [];
  }

  lemma NextSent(k: nat, p: nat, v: nat, n: nat, w: nat, tail: BitSeq, rest: BitSeq)
    requires k < 18 && p == LengthCode()[CodeLengthOrder(k)] < 8 && SentBits(LengthCode(), k + 1, 18, tail) == Low(v, n) + rest
    requires w == p + 8 * v
    ensures SentBits(LengthCode(), k, 18, tail) == Low(w, 3 + n) + rest
  {
    hide LengthCode, Low;
    FewPowers();
    LowsJoined(p, 3, 8, v, n, rest);
  }

  lemma SentBitsAre(rest: BitSeq)
    ensures SentBits(LengthCode(), 0, 18, Low(106986096800044765802329, 79) + rest) ==
            Low(1927290182730021687082809330695139229844, 133) + rest
  {
    hide Low, LengthCode;
    var tail := Low(106986096800044765802329, 79) + rest;
    LengthCodeValues();
    NextSent(17, 3, 106986096800044765802329, 79, 855888774400358126418635, tail, rest);
    NextSent(16, 0, 855888774400358126418635, 82, 6847110195202865011349080, tail, rest);
    NextSent(15, 2, 6847110195202865011349080, 85, 54776881561622920090792642, tail, rest);
    NextSent(14, 0, 54776881561622920090792642, 88, 438215052492983360726341136, tail, rest);
    NextSent(13, 4, 438215052492983360726341136, 91, 3505720419943866885810729092, tail, rest);
    NextSent(12, 0, 3505720419943866885810729092, 94, 28045763359550935086485832736, tail, rest);
    NextSent(11, 0, 28045763359550935086485832736, 97, 224366106876407480691886661888, tail, rest);
    NextSent(10, 0, 224366106876407480691886661888, 100, 1794928855011259845535093295104, tail, rest);
    NextSent(9, 0, 1794928855011259845535093295104, 103, 14359430840090078764280746360832, tail, rest);
    NextSent(8, 0, 14359430840090078764280746360832, 106, 114875446720720630114245970886656, tail, rest);
    NextSent(7, 0, 114875446720720630114245970886656, 109, 919003573765765040913967767093248, tail, rest);
    NextSent(6, 0, 919003573765765040913967767093248, 112, 7352028590126120327311742136745984, tail, rest);
    NextSent(5, 0, 7352028590126120327311742136745984, 115, 58816228721008962618493937093967872, tail, rest);
    NextSent(4, 0, 58816228721008962618493937093967872, 118, 470529829768071700947951496751742976, tail, rest);
    NextSent(3, 0, 470529829768071700947951496751742976, 121, 3764238638144573607583611974013943808, tail, rest);
    NextSent(2, 2, 3764238638144573607583611974013943808, 124, 30113909105156588860668895792111550466, tail, rest);
    NextSent(1, 2, 30113909105156588860668895792111550466, 127, 240911272841252710885351166336892403730, tail, rest);
    NextSent(0, 4, 240911272841252710885351166336892403730, 130, 1927290182730021687082809330695139229844, tail, rest);
  }

  lemma LengthCodeValues()
    ensures forall i :: 0 <= i < 19 ==>
      LengthCode()[i] == if i == 2 || i == 17 || i == 18 then 2 else if i == 1 then 3 else if i == 3 || i == 16 then 4 else 0
  {
  }

  lemma HeaderValid()
    ensures TheHeader().Valid() && TheHeader().BlockCodes() == Codes()
  {
    hide Code, Literals, Distances, LengthCode, ExpandOps, Counts;
    OpsExpand();
    OpsAreCovered(0);
    assert Ops()[0..] == Ops();
    LengthCodeFits();
    LengthCodeValues();
    assert (Literals() + Distances())[..266] == Literals() && (Literals() + Distances())[266..] == Distances();
  }

  lemma HeaderBits(rest: BitSeq)
    requires TheHeader().Valid()
    ensures TheHeader().Bits(Low(5938921, 25) + rest) == Low(31576722353848675321164748074109161141778569, 147) + rest
  {
    hide Low, OpsBits, SentBits, LengthCode, ExpandOps, Counts;
    OpBitsAre(rest);
    OpNumberIs(106986096800044765802329, 79, 25, 5938921, rest);
    SentBitsAre(rest);
    FewPowers();
    LowsJoined(14, 4, 16, 1927290182730021687082809330695139229844, 133, rest);
    LowsJoined(4, 5, 32, 30836642923680346993324949291122227677518, 137, rest);
    LowsJoined(9, 5, 32, 986772573557771103786398377315911285680580, 142, rest);
  }

  lemma OpNumberIs(v: nat, n: nat, m: nat, u: nat, rest: BitSeq)
    requires OpNumber(0, v, n, m, u, rest)
    ensures OpsCovered(LengthCode(), Ops()) && OpsBits(LengthCode(), Ops(), Low(u, m) + rest) == Low(v, n) + rest
  {
    assert Ops()[0..] == Ops();
  }

  ghost function TheBlock(): Block { Dynamic(TheHeader(), Tokens()) }

  lemma BlockBits(rest: BitSeq)
    ensures TheBlock().Valid() && StreamBits([TheBlock()], rest) == Low(252613778830789402569317984592873289134228557, 150) + rest
  {
    hide Low, TokensBits, Header.Valid, Header.Bits, Literals, Distances, LengthCode;
    HeaderValid();
    TokensCovered();
    TokenBitsAre(rest);
    TokenNumberIs(5938921, 25, rest);
    HeaderBits(rest);
    FewPowers();
    assert TheBlock().Body(rest) == Low(31576722353848675321164748074109161141778569, 147) + rest;
    LowsJoined(2, 2, 4, 31576722353848675321164748074109161141778569, 147, rest);
    LastBit();
    LowsJoined(1, 1, 2, 126306889415394701284658992296436644567114278, 149, rest);
  }

  lemma LastBit()
    ensures [true] == Low(1, 1)
  {
  }

  lemma TokenNumberIs(v: nat, n: nat, rest: BitSeq)
    requires TokenNumber(0, v, n, rest)
    ensures Codes().CoversAll(Tokens()) && TokensBits(Codes(), Tokens(), rest) == Low(v, n) + rest
  {
    assert Tokens()[0..] == Tokens();
  }

  // ----- the bytes

  function Stream(): (data: seq<Byte>)
    ensures |data| == 25
  {
    [0x78, 0x01, 0x4D, 0xC4, 0x29, 0x01, 0x00, 0x00, 0x00, 0x84, 0xB0, 0xAC, 0xF7, 0xF4, 0xCF, 0x80,
     0xC5, 0x2C, 0xDD, 0x53, 0x0B, 0x41, 0xA0, 0x06, 0xE8]
  }

  lemma ByteStep(at: nat, b: Byte, v: nat, n: nat, w: nat, rest: BitSeq)
    requires at < 25 && Stream()[at] == b && ByteBits(Stream()[at + 1..]) == Low(v, n) + rest && w == b + 256 * v
    ensures ByteBits(Stream()[at..]) == Low(w, 8 + n) + rest
  {
    hide Low, ByteBits, Stream;
    ByteBitsHead(Stream(), at);
    FewPowers();
    LowsJoined(b, 8, 256, v, n, rest);
  }

  lemma FirstBytes()
    ensures Stream()[2] == 0x4D
    ensures Stream()[3] == 0xC4
    ensures Stream()[4] == 0x29
    ensures Stream()[5] == 0x01
    ensures Stream()[6] == 0x00
    ensures Stream()[7] == 0x00
    ensures Stream()[8] == 0x00
    ensures Stream()[9] == 0x84
    ensures Stream()[10] == 0xB0
  {{
  }}

  lemma LaterBytes()
    ensures Stream()[11] == 0xAC
    ensures Stream()[12] == 0xF7
    ensures Stream()[13] == 0xF4
    ensures Stream()[14] == 0xCF
    ensures Stream()[15] == 0x80
    ensures Stream()[16] == 0xC5
    ensures Stream()[17] == 0x2C
    ensures Stream()[18] == 0xDD
    ensures Stream()[19] == 0x53
    ensures Stream()[20] == 0x0B
  {{
  }}

  lemma StreamNumber()
    ensures ByteBits(Stream()[2..]) == Low(252613778830789402569317984592873289134228557, 150) + ([false, false] + ByteBits(Stream()[21..]))
  {
    hide Low, ByteBits, Stream;
    FirstBytes();
    LaterBytes();
    var check := ByteBits(Stream()[21..]);
    var rest := [false, false] + check;
    ByteBitsHead(Stream(), 20);
    LastByte();
    Associative(Low(11, 6), [false, false], check);
    ByteStep(19, 0x53, 11, 6, 2899, rest);
    ByteStep(18, 0xDD, 2899, 14, 742365, rest);
    ByteStep(17, 0x2C, 742365, 22, 190045484, rest);
    ByteStep(16, 0xC5, 190045484, 30, 48651644101, rest);
    ByteStep(15, 0x80, 48651644101, 38, 12454820889984, rest);
    ByteStep(14, 0xCF, 12454820889984, 46, 3188434147836111, rest);
    ByteStep(13, 0xF4, 3188434147836111, 54, 816239141846044660, rest);
    ByteStep(12, 0xF7, 816239141846044660, 62, 208957220312587433207, rest);
    ByteStep(11, 0xAC, 208957220312587433207, 70, 53493048400022382901164, rest);
    ByteStep(10, 0xB0, 53493048400022382901164, 78, 13694220390405730022698160, rest);
    ByteStep(9, 0x84, 13694220390405730022698160, 86, 3505720419943866885810729092, rest);
    ByteStep(8, 0x00, 3505720419943866885810729092, 94, 897464427505629922767546647552, rest);
    ByteStep(7, 0x00, 897464427505629922767546647552, 102, 229750893441441260228491941773312, rest);
    ByteStep(6, 0x00, 229750893441441260228491941773312, 110, 58816228721008962618493937093967872, rest);
    ByteStep(5, 0x01, 58816228721008962618493937093967872, 118, 15056954552578294430334447896055775233, rest);
    ByteStep(4, 0x29, 15056954552578294430334447896055775233, 126, 3854580365460043374165618661390278459689, rest);
    ByteStep(3, 0xC4, 3854580365460043374165618661390278459689, 134, 986772573557771103786398377315911285680580, rest);
    ByteStep(2, 0x4D, 986772573557771103786398377315911285680580, 142, 252613778830789402569317984592873289134228557, rest);
  }

  lemma LastByte()
    ensures Low(11, 8) == Low(11, 6) + [false, false]
  {
    hide Low;
    assert Pow2(6) == 64;
    Zeros2();
    LowJoin(11, 6, 0, 2);
  }

  lemma ExpandLiteral(k: nat, out: seq<Byte>, next: seq<Byte>)
    requires k < 6 && next == out + [Tokens()[k].byte]
    ensures AllValid(Tokens()[k..]) && AllValid(Tokens()[k + 1..]) && Expand(Tokens()[k..], out) == Expand(Tokens()[k + 1..], next)
  {
    TokensCovered();
    assert Tokens()[k..][1..] == Tokens()[k + 1..];
  }

  /** A copy of twelve bytes from six back. */
  lemma TokensExpand()
    ensures AllValid(Tokens())
    ensures Expand(Tokens(), []) == Some([97, 98, 99, 100, 97, 98, 97, 98, 99, 100, 97, 98, 97, 98, 99, 100, 97, 98])
  {
    hide Expand, Copy;
    var six: seq<Byte> := [97, 98, 99, 100, 97, 98];
    ExpandLiteral(0, [], [97]);
    ExpandLiteral(1, [97], [97, 98]);
    ExpandLiteral(2, [97, 98], [97, 98, 99]);
    ExpandLiteral(3, [97, 98, 99], [97, 98, 99, 100]);
    ExpandLiteral(4, [97, 98, 99, 100], [97, 98, 99, 100, 97]);
    ExpandLiteral(5, [97, 98, 99, 100, 97], six);
    assert Tokens()[0..] == Tokens();
    ExpandCopy(six);
    CopyTwice(six);
    assert six + six + six == [97, 98, 99, 100, 97, 98, 97, 98, 99, 100, 97, 98, 97, 98, 99, 100, 97, 98];
  }

  lemma CopyTwice(six: seq<Byte>)
    requires |six| == 6
    ensures Copy(six, 6, 12) == six + six + six
  {
    hide Copy;
    var copied := Copy(six, 6, 12);
    assert copied[..6] == six;
    forall i | 0 <= i < 18 ensures copied[i] == (six + six + six)[i] {
      if i < 6 {
        assert copied[i] == copied[..6][i];
      } else {
        CopyIsPeriodic(six, 6, 12, i);
        assert copied[i - 6] == if i < 12 then copied[..6][i - 6] else copied[i - 6];
        if 12 <= i {
          CopyIsPeriodic(six, 6, 12, i - 6);
          assert copied[i - 12] == copied[..6][i - 12];
        }
      }
    }
  }

  lemma ExpandCopy(six: seq<Byte>)
    requires |six| == 6
    ensures AllValid(Tokens()[6..]) && Expand(Tokens()[6..], six) == Some(Copy(six, 6, 12))
  {
    hide Copy;
    TokensCovered();
    FewPowers();
    assert LengthBase(8) == 11 && DistanceBase(4) == 5;
    assert Tokens()[6..] == [Match(8, 1, 4, 1)] && Tokens()[6..][1..] == [];
  }

  /** A zlib stream of 25 bytes, "abcdab" three times over, inflates to its text; two bits are left in
      front of its check sum. */
  lemma DynamicExample()
    ensures ZlibFrom([0x78, 0x01, 0x4D, 0xC4, 0x29, 0x01, 0x00, 0x00, 0x00, 0x84, 0xB0, 0xAC, 0xF7, 0xF4, 0xCF, 0x80,
                      0xC5, 0x2C, 0xDD, 0x53, 0x0B, 0x41, 0xA0, 0x06, 0xE8], 18)
         == Done([97, 98, 99, 100, 97, 98, 97, 98, 99, 100, 97, 98, 97, 98, 99, 100, 97, 98],
                 [false, false] + ByteBits([0x41, 0xA0, 0x06, 0xE8]))
  {
    hide Low, ByteBits, StreamBits, StreamFrom, Expand, Header.Valid, TokensBits;
    var check := ByteBits(Stream()[21..]);
    assert Stream()[21..] == [0x41, 0xA0, 0x06, 0xE8];
    StreamNumber();
    BlockBits([false, false] + check);
    TokensExpand();
    StreamRoundTrip([TheBlock()], [false, false] + check, [], 18);
  }

  // ----- a block in the fixed codes, and a stored one

  function FixedTokens(): seq<Token> { [Literal(97), Match(6, 0, 0, 0)] }

  lemma FixedTokenCodes()
    ensures Used(FixedLiterals(), 97) && Code(FixedLiterals(), 97) == Low(137, 8)
    ensures Used(FixedLiterals(), 256) && Code(FixedLiterals(), 256) == Low(0, 7)
    ensures Used(FixedLiterals(), 263) && Code(FixedLiterals(), 263) == Low(112, 7)
    ensures Used(FixedDistances(), 0) && Code(FixedDistances(), 0) == Low(0, 5)
  {
    hide Code, FixedLiterals, FixedDistances, High, Low;
    FixedCodesOfRfc(97);
    FixedCodesOfRfc(256);
    FixedCodesOfRfc(263);
    FixedCodesOfRfc(0);
    FixedBackwards();
  }

  lemma FixedBackwards()
    ensures High(0x30 + 97, 8) == Low(137, 8) && High(0, 7) == Low(0, 7) && High(7, 7) == Low(112, 7) && High(0, 5) == Low(0, 5)
  {
    hide High, Low;
    EightBackwards();
    SevenBackwards();
    ZerosBackwards();
  }

  lemma ZerosBackwards()
    ensures High(0, 7) == Low(0, 7) && High(0, 5) == Low(0, 5)
  {
    assert High(0, 5) == [false, false, false, false, false];
    assert High(0, 7) == High(0, 5) + [false] + [false];
  }

  lemma HighNext(v: nat, n: nat)
    ensures High(v, n + 1) == High(v / 2, n) + [v % 2 == 1] && High(v, 0) == [] && Low(v, 0) == []
  {
  }

  lemma EightBackwards()
    ensures High(145, 8) == Low(137, 8)
  {
    hide High, Low;
    HighNext(145, 7);
    HighNext(72, 6);
    HighNext(36, 5);
    HighNext(18, 4);
    HighNext(9, 3);
    HighNext(4, 2);
    HighNext(2, 1);
    HighNext(1, 0);
    LowStep(137, 8);
    LowStep(68, 7);
    LowStep(34, 6);
    LowStep(17, 5);
    LowStep(8, 4);
    LowStep(4, 3);
    LowStep(2, 2);
    LowStep(1, 1);
    assert Low(137, 8) == [true, false, false, true, false, false, false, true];
    assert High(145, 8) == [true, false, false, true, false, false, false, true];
  }

  lemma SevenBackwards()
    ensures High(7, 7) == Low(112, 7)
  {
    hide High, Low;
    HighNext(7, 6);
    HighNext(3, 5);
    HighNext(1, 4);
    HighNext(0, 3);
    HighNext(0, 2);
    HighNext(0, 1);
    HighNext(0, 0);
    LowStep(112, 7);
    LowStep(56, 6);
    LowStep(28, 5);
    LowStep(14, 4);
    LowStep(7, 3);
    LowStep(3, 2);
    LowStep(1, 1);
    assert Low(112, 7) == [false, false, false, false, true, true, true];
    assert High(7, 7) == [false, false, false, false, true, true, true];
  }

  lemma FixedTokenBits(rest: BitSeq)
    ensures FixedCodes().CoversAll(FixedTokens()) && TokensBits(FixedCodes(), FixedTokens(), rest) == Low(28809, 27) + rest
  {
    hide Code, FixedLiterals, FixedDistances, Low;
    FixedTokenCodes();
    FewPowers();
    SevenPowers();
    NoExtra();
    var t := FixedTokens();
    assert t[1..] == [Match(6, 0, 0, 0)] && t[1..][1..] == [];
    assert FixedCodes().CoversAll(t) && FixedCodes().CoversAll(t[1..]) && FixedCodes().CoversAll(t[1..][1..]);
    var m, end := t[1], Low(0, 7) + rest;
    assert TokensBits(FixedCodes(), t[1..][1..], rest) == end;
    assert m.LengthTail() == [] && m.DistanceTail() == [];
    Nothing(end);
    LowsJoined(0, 5, 32, 0, 7, rest);
    assert MatchBits(FixedCodes(), m, end) == [] + (Low(0, 5) + ([] + end));
    Nothing(Low(0, 12) + rest);
    LowsJoined(112, 7, 128, 0, 12, rest);
    assert TokensBits(FixedCodes(), t[1..], rest) == Low(112, 19) + rest;
    LowsJoined(137, 8, 256, 112, 19, rest);
  }

  lemma SevenPowers()
    ensures LengthExtra(6) == 0 && DistanceExtra(0) == 0
  {
  }

  lemma Nothing(s: BitSeq)
    ensures [] + s == s
  {
  }

  /** One letter and a copy of nine bytes from one back, in the fixed codes; two bits are left over. */
  lemma FixedExample()
    ensures ZlibFrom([0x78, 0x01, 0x4B, 0x84, 0x03, 0x00], 10) == Done([97, 97, 97, 97, 97, 97, 97, 97, 97, 97], [false, false])
  {
    hide Low, ByteBits, StreamBits, StreamFrom, Expand, TokensBits, FixedLiterals, FixedDistances;
    var data: seq<Byte> := [0x78, 0x01, 0x4B, 0x84, 0x03, 0x00];
    FixedBytes(data);
    FixedBlock([false, false]);
    TenLetters();
    StreamRoundTrip([Fixed(FixedTokens())], [false, false], [], 10);
  }

  lemma FixedBlock(rest: BitSeq)
    ensures Fixed(FixedTokens()).Valid() && StreamBits([Fixed(FixedTokens())], rest) == Low(230475, 30) + rest
  {
    hide Low, TokensBits, FixedLiterals, FixedDistances;
    FixedTokenBits(rest);
    FewPowers();
    LowsJoined(1, 2, 4, 28809, 27, rest);
    LastBit();
    LowsJoined(1, 1, 2, 115237, 29, rest);
  }

  lemma FixedBytes(data: seq<Byte>)
    requires data == [0x78, 0x01, 0x4B, 0x84, 0x03, 0x00]
    ensures ByteBits(data[2..]) == Low(230475, 30) + [false, false]
  {
    hide Low, ByteBits;
    assert data[2..] == [75, 132, 3, 0];
    FourBytes(75, 132, 3, 0);
    LastFixedByte();
    LowsJoined(3, 8, 256, 0, 6, [false, false]);
    LowsJoined(132, 8, 256, 3, 14, [false, false]);
    LowsJoined(75, 8, 256, 900, 22, [false, false]);
    FewPowers();
  }

  lemma FourBytes(a: Byte, b: Byte, c: Byte, d: Byte)
    ensures ByteBits([a, b, c, d]) == Low(a, 8) + (Low(b, 8) + (Low(c, 8) + Low(d, 8)))
  {
    hide Low;
    assert [a, b, c, d][1..] == [b, c, d] && [b, c, d][1..] == [c, d] && [c, d][1..] == [d] && [d][1..] == [];
    assert ByteBits([d]) == Low(d, 8) + [] == Low(d, 8);
    assert ByteBits([c, d]) == Low(c, 8) + ByteBits([d]);
    assert ByteBits([b, c, d]) == Low(b, 8) + ByteBits([c, d]);
  }

  lemma LastFixedByte()
    ensures Low(0, 8) == Low(0, 6) + [false, false]
  {
    hide Low;
    assert Pow2(6) == 64;
    Zeros2();
    LowJoin(0, 6, 0, 2);
  }

  lemma TenLetters()
    ensures AllValid(FixedTokens()) && Expand(FixedTokens(), []) == Some([97, 97, 97, 97, 97, 97, 97, 97, 97, 97])
  {
    hide Copy;
    var t := FixedTokens();
    FewPowers();
    assert LengthExtra(6) == 0 && DistanceExtra(0) == 0 && LengthBase(6) == 9 && DistanceBase(0) == 1;
    assert t[1..] == [Match(6, 0, 0, 0)] && t[1..][1..] == [];
    assert Expand(t, []) == Expand(t[1..], [] + [97]) && [] + [97] == [97];
    var copied := Copy([97], 1, 9);
    assert copied[..1] == [97];
    LettersCopied(9);
    assert copied == [97, 97, 97, 97, 97, 97, 97, 97, 97, 97];
  }

  lemma {:induction false} LettersCopied(n: nat)
    requires n <= 9
    ensures forall i :: 0 <= i <= n ==> Copy([97], 1, 9)[i] == 97
  {
    hide Copy;
    if n == 0 {
      assert Copy([97], 1, 9)[..1] == [97];
      assert Copy([97], 1, 9)[0] == Copy([97], 1, 9)[..1][0];
    } else {
      LettersCopied(n - 1);
      CopyIsPeriodic([97], 1, 9, n);
    }
  }

  /** A stored block of two bytes. */
  lemma StoredExample()
    ensures ZlibFrom([0x78, 0x01, 0x01, 0x02, 0x00, 0xFD, 0xFF, 104, 105], 2) == Done([104, 105], [])
  {
    hide Low, ByteBits, StreamFrom, LsbValue;
    var data: seq<Byte> := [0x78, 0x01, 0x01, 0x02, 0x00, 0xFD, 0xFF, 104, 105];
    var body: seq<Byte> := [104, 105];
    var padding := [false, false, false, false, false];
    var block := Stored(padding, body);
    assert data[2..] == [0x01] + ([0x02, 0x00] + ([0xFD, 0xFF] + body));
    ByteBitsConcat([0x01], [0x02, 0x00] + ([0xFD, 0xFF] + body));
    ByteBitsConcat([0x02, 0x00], [0xFD, 0xFF] + body);
    ByteBitsConcat([0xFD, 0xFF], body);
    StoredBytes();
    assert block.Bits(true, []) == [true] + ([false, false] + (padding + (Low(2, 16) + (Low(0xFFFD, 16) + (ByteBits(body) + [])))));
    assert ByteBits(body) + [] == ByteBits(body);
    assert data[2..] == [0x01, 0x02, 0x00, 0xFD, 0xFF, 104, 105];
    assert StreamBits([block], []) == block.Bits(true, []);
    StoredRegrouped(padding, Low(2, 16) + (Low(0xFFFD, 16) + ByteBits(body)));
    assert ByteBits(data[2..]) == StreamBits([block], []);
    assert [] + body == body && block.Expansion([]) == Some(body);
    StreamRoundTrip([block], [], [], 2);
  }

  lemma StoredBytes()
    ensures ByteBits([0x01]) == [true, false, false, false, false, false, false, false] && Low(0, 2) == [false, false]
    ensures ByteBits([0x02, 0x00]) == Low(2, 16) && ByteBits([0xFD, 0xFF]) == Low(0xFFFD, 16)
  {
    hide Low, ByteBits;
    FirstByte();
    Zeros2();
    TwoByteBits(0x02, 0x00);
    TwoByteBits(0xFD, 0xFF);
  }

  lemma FirstByte()
    ensures ByteBits([0x01]) == [true, false, false, false, false, false, false, false]
  {
    var b := Low(1, 8);
    assert b == [true, false, false, false, false, false, false, false];
    hide Low;
    assert [0x01][1..] == [] && ByteBits([0x01]) == Low(1, 8) + ByteBits([]);
  }

  lemma Zeros2()
    ensures Low(0, 2) == [false, false]
  {
  }

  lemma TwoByteBits(a: Byte, b: Byte)
    ensures ByteBits([a, b]) == Low(a + 256 * b, 16)
  {
    hide Low;
    assert [a, b][1..] == [b] && [b][1..] == [];
    assert ByteBits([b]) == Low(b, 8) + [] == Low(b, 8);
    FewPowers();
    LowJoin(a, 8, b, 8);
  }

  lemma StoredRegrouped(padding: BitSeq, rest: BitSeq)
    requires padding == [false, false, false, false, false]
    ensures [true, false, false, false, false, false, false, false] + rest == [true] + ([false, false] + (padding + rest))
  {
  }
}
