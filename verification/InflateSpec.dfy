/** What inflating a bit stream yields, read off the bits, and that it inverts DEFLATE. */
module InflateSpec {
  import opened BitStreams
  import opened CanonicalCodes
  import opened HuffmanTables
  import opened DeflateFormat

  /** `Undefined` is a dynamic block whose literal or distance lengths are over-subscribed: its
      tables are then read before they are filled in. */
  datatype Outcome<+T> = Corrupt | Undefined | Done(value: T, rest: BitSeq)

  // ----- tokens

  /** The rest of a back-reference whose length class is known. */
  ghost function MatchFrom(codes: CodePair, l: nat, bits: BitSeq): (r: Option<(Token, BitSeq)>)
    requires l < 29
    ensures r.Some? ==> r.value.0.Match? && r.value.0.Valid() && |r.value.1| <= |bits|
  {
    if |bits| < LengthExtra(l) then None
    else
      var lx := bits[..LengthExtra(l)];
      LsbValueBound(lx);
      match NextSymbol(codes.distances, bits[LengthExtra(l)..])
      case None => None
      case Some((d, after)) =>
        if 30 <= d || |after| < DistanceExtra(d) then None
        else
          var dx := after[..DistanceExtra(d)];
          LsbValueBound(dx);
          Some((Match(l, LsbValue(lx), d, LsbValue(dx)), after[DistanceExtra(d)..]))
  }

  /** A token only fits when its distance reaches no further than the output and its bytes do
      not pass the capacity. */
  ghost function Extend(t: Token, out: seq<Byte>, capacity: nat): (r: Option<seq<Byte>>)
    requires t.Valid()
    ensures r.Some? ==> out <= r.value && |r.value| <= capacity
  {
    match t
    case Literal(b) => if capacity <= |out| then None else Some(out + [b])
    case Match(_, _, _, _) =>
      if |out| < t.CopyDistance() || capacity < |out| + t.CopyLength() then None
      else Some(Copy(out, t.CopyDistance(), t.CopyLength()))
  }

  datatype Read = Nothing | BlockEnd(rest: BitSeq) | Got(token: Token, rest: BitSeq)

  /** One step through a compressed block. */
  ghost function TokenFrom(codes: CodePair, bits: BitSeq): (r: Read)
    ensures !r.Nothing? ==> |r.rest| < |bits|
    ensures r.Got? ==> r.token.Valid()
  {
    match NextSymbol(codes.literals, bits)
    case None => Nothing
    case Some((s, after)) =>
      if s < END_OF_BLOCK then Got(Literal(s), after)
      else if s == END_OF_BLOCK then BlockEnd(after)
      else if 29 <= s - END_OF_BLOCK - 1 then Nothing
      else
        match MatchFrom(codes, s - END_OF_BLOCK - 1, after)
        case None => Nothing
        case Some((t, later)) => Got(t, later)
  }

  ghost function BlockFrom(codes: CodePair, bits: BitSeq, out: seq<Byte>, capacity: nat): (r: Outcome<seq<Byte>>)
    ensures r.Done? ==> |r.rest| < |bits| && (|out| <= capacity ==> |r.value| <= capacity)
    ensures !r.Undefined?
    decreases |bits|
  {
    match TokenFrom(codes, bits)
    case Nothing => Corrupt
    case BlockEnd(rest) => Done(out, rest)
    case Got(t, rest) =>
      match Extend(t, out, capacity)
      case None => Corrupt
      case Some(next) => BlockFrom(codes, rest, next, capacity)
  }

  lemma MatchRoundTrip(codes: CodePair, t: Token, tail: BitSeq)
    requires codes.Valid() && t.Match? && t.Valid() && codes.Covers(t)
    ensures MatchFrom(codes, t.length, MatchBits(codes, t, tail)) == Some((t, tail))
  {
    var after := t.DistanceTail() + tail;
    LsbRoundTrip(t.lengthBits, LengthExtra(t.length));
    LsbRoundTrip(t.distanceBits, DistanceExtra(t.distance));
    Parts(t.LengthTail(), Code(codes.distances, t.distance) + after);
    NextSymbolOfCode(codes.distances, t.distance, after);
    Parts(t.DistanceTail(), tail);
  }

  lemma TokenRoundTrip(codes: CodePair, t: Token, tail: BitSeq)
    requires codes.Valid() && t.Valid() && codes.Covers(t)
    ensures TokenFrom(codes, TokenBits(codes, t, tail)) == Got(t, tail)
  {
    match t {
      case Literal(b) => NextSymbolOfCode(codes.literals, b, tail);
      case Match(l, _, _, _) =>
        NextSymbolOfCode(codes.literals, END_OF_BLOCK + 1 + l, MatchBits(codes, t, tail));
        MatchRoundTrip(codes, t, tail);
    }
  }

  /** Inflating a compressed block gives its LZ77 expansion, if that fits. */
  lemma {:induction false} BlockRoundTrip(codes: CodePair, tokens: seq<Token>, tail: BitSeq, out: seq<Byte>, capacity: nat)
    requires codes.Valid() && codes.CoversAll(tokens)
    requires Expand(tokens, out).Some? && |Expand(tokens, out).value| <= capacity
    ensures BlockFrom(codes, TokensBits(codes, tokens, tail), out, capacity) == Done(Expand(tokens, out).value, tail)
    decreases |tokens|
  {
    if tokens == [] {
      NextSymbolOfCode(codes.literals, END_OF_BLOCK, tail);
    } else {
      var t, rest := tokens[0], tokens[1..];
      ExpandStep(tokens, out, capacity);
      var next := Extend(t, out, capacity).value;
      BlockRoundTrip(codes, rest, tail, next, capacity);
      TokenRoundTrip(codes, t, TokensBits(codes, rest, tail));
      assert BlockFrom(codes, TokensBits(codes, tokens, tail), out, capacity)
          == BlockFrom(codes, TokensBits(codes, rest, tail), next, capacity);
    }
  }

  lemma ExpandStep(tokens: seq<Token>, out: seq<Byte>, capacity: nat)
    requires AllValid(tokens) && tokens != []
    requires Expand(tokens, out).Some? && |Expand(tokens, out).value| <= capacity
    ensures Extend(tokens[0], out, capacity).Some?
    ensures Expand(tokens, out) == Expand(tokens[1..], Extend(tokens[0], out, capacity).value)
  {
  }

  // ----- the code lengths of a dynamic block

  /** How many extra bits follow a code-length symbol, and what they mean. */
  function OpExtraBits(s: nat): nat { if s < 16 then 0 else if s == 16 then 2 else if s == 17 then 3 else 7 }

  function OpOf(s: nat, extra: nat): LengthOp
  {
    if s < 16 then Lengths(s)
    else if s == 16 then Repeat(3 + extra)
    else if s == 17 then Zeros(3 + extra)
    else ManyZeros(11 + extra)
  }

  ghost function OpFrom(code: seq<nat>, bits: BitSeq): (r: Option<(LengthOp, BitSeq)>)
    requires |code| == 19
    ensures r.Some? ==> r.value.0.Valid() && |r.value.1| < |bits|
  {
    match NextSymbol(code, bits)
    case None => None
    case Some((s, after)) =>
      var extra := OpExtraBits(s);
      if |after| < extra then None
      else
        LsbValueBound(after[..extra]);
        PowersOfTwo();
        Some((OpOf(s, LsbValue(after[..extra])), after[extra..]))
  }

  lemma PowersOfTwo()
    ensures Pow2(0) == 1 && Pow2(2) == 4 && Pow2(3) == 8 && Pow2(4) == 16 && Pow2(5) == 32 && Pow2(7) == 128
    ensures Pow2(16) == 0x1_0000
  {
    assert Pow2(4) == 16;
    assert Pow2(8) == 256;
    assert Pow2(12) == 4096;
    assert Pow2(16) == 0x1_0000;
  }

  ghost function LengthsFrom(code: seq<nat>, bits: BitSeq, total: nat, lengths: seq<nat>): (r: Option<(seq<nat>, BitSeq)>)
    requires |code| == 19 && |lengths| <= total
    ensures r.Some? ==> |r.value.0| == total && |r.value.1| <= |bits|
    ensures r.Some? && AllAtMost(lengths, MAX_BITS) ==> AllAtMost(r.value.0, MAX_BITS)
    decreases |bits|
  {
    if |lengths| == total then Some((lengths, bits))
    else
      match OpFrom(code, bits)
      case None => None
      case Some((op, after)) =>
        var next := ApplyOp(op, lengths);
        if next.None? || total < |next.value| then None
        else
          assert AllAtMost(lengths, MAX_BITS) ==> AllAtMost(next.value, MAX_BITS) by {
            if AllAtMost(lengths, MAX_BITS) { ApplyOpBounded(op, lengths); }
          }
          LengthsFrom(code, after, total, next.value)
  }

  /** The code-length code as received: three bits a length, in the format's own order. */
  ghost function Received(bits: BitSeq, from: nat, sent: nat, code: seq<nat>): (r: seq<nat>)
    requires from <= sent <= 19 && |code| == 19 && 3 * (sent - from) <= |bits|
    ensures |r| == 19
    decreases sent - from
  {
    if from == sent then code
    else Received(bits[3..], from + 1, sent, code[CodeLengthOrder(from) := LsbValue(bits[..3])])
  }

  ghost function HeaderFrom(bits: BitSeq): (r: Outcome<CodePair>)
    ensures r.Done? ==> r.value.Valid() && |r.rest| <= |bits|
  {
    if |bits| < 14 then Corrupt
    else
      var bits1 := bits[5..];
      var bits2 := bits1[5..];
      var literals, distances, sent := LsbValue(bits[..5]) + 257, LsbValue(bits1[..5]) + 1, LsbValue(bits2[..4]) + 4;
      LsbValueBound(bits2[..4]);
      PowersOfTwo();
      if 286 < literals || 30 < distances then Corrupt else CodesFrom(literals, distances, sent, bits2[4..])
  }

  /** The code-length code and, in it, all the code lengths of the block. */
  ghost function AllLengthsFrom(total: nat, sent: nat, bits: BitSeq): (r: Option<(seq<nat>, BitSeq)>)
    requires sent <= 19
    ensures r.Some? ==> |r.value.0| == total && |r.value.1| <= |bits| && AllAtMost(r.value.0, MAX_BITS)
  {
    if |bits| < 3 * sent then None
    else
      var code := Received(bits, 0, sent, Fill(0, 19));
      if Kraft(Counts(code)) then LengthsFrom(code, bits[3 * sent..], total, []) else None
  }

  ghost function CodesFrom(literals: nat, distances: nat, sent: nat, bits: BitSeq): (r: Outcome<CodePair>)
    requires literals <= 286 && distances <= 30 && sent <= 19
    ensures r.Done? ==> r.value.Valid() && |r.rest| <= |bits|
  {
    match AllLengthsFrom(literals + distances, sent, bits)
    case None => Corrupt
    case Some((lengths, rest)) =>
      var codes := CodePair(lengths[..literals], lengths[literals..]);
      if Kraft(Counts(codes.literals)) && Kraft(Counts(codes.distances)) then Done(codes, rest) else Undefined
  }

  lemma {:induction false} LengthsRoundTrip(code: seq<nat>, ops: seq<LengthOp>, tail: BitSeq, lengths: seq<nat>)
    requires |code| == 19 && Kraft(Counts(code)) && OpsCovered(code, ops) && ExpandOps(ops, lengths).Some?
    ensures var all := ExpandOps(ops, lengths).value;
      && |lengths| <= |all|
      && LengthsFrom(code, OpsBits(code, ops, tail), |all|, lengths) == Some((all, tail))
    decreases |ops|
  {
    if ops != [] {
      OpRoundTrip(code, ops[0], OpsBits(code, ops[1..], tail));
      ExpandOpsGrows(ops, lengths);
      LengthsRoundTrip(code, ops[1..], tail, ApplyOp(ops[0], lengths).value);
    }
  }

  lemma OpRoundTrip(code: seq<nat>, op: LengthOp, tail: BitSeq)
    requires |code| == 19 && Kraft(Counts(code)) && op.Valid() && Used(code, op.Symbol())
    ensures OpFrom(code, Code(code, op.Symbol()) + (op.Extra() + tail)) == Some((op, tail))
  {
    NextSymbolOfCode(code, op.Symbol(), op.Extra() + tail);
    Parts(op.Extra(), tail);
    OpExtraRoundTrip(op);
  }

  lemma OpExtraRoundTrip(op: LengthOp)
    requires op.Valid()
    ensures |op.Extra()| == OpExtraBits(op.Symbol()) && OpOf(op.Symbol(), LsbValue(op.Extra())) == op
  {
    PowersOfTwo();
    match op {
      case Lengths(_) =>
      case Repeat(n) => LsbRoundTrip(n - 3, 2);
      case Zeros(n) => LsbRoundTrip(n - 3, 3);
      case ManyZeros(n) => LsbRoundTrip(n - 11, 7);
    }
  }

  /** The order sends every length of the code-length code once: it has an inverse. */
  function OrderIndex(k: nat): (i: nat)
    requires k < 19
    ensures i < 19 && CodeLengthOrder(i) == k
  {
    if 16 <= k then k - 16 else if k == 0 then 3 else if k <= 7 then 19 - 2 * k else 2 * k - 12
  }

  lemma OrderInjective(i: nat, j: nat)
    requires i < 19 && j < 19 && CodeLengthOrder(i) == CodeLengthOrder(j)
    ensures i == j
  {
  }

  lemma {:induction false} ReceivedPlaces(bits: BitSeq, from: nat, sent: nat, code: seq<nat>, i: nat)
    requires from <= sent <= 19 && |code| == 19 && 3 * (sent - from) <= |bits| && i < 19
    ensures Received(bits, from, sent, code)[CodeLengthOrder(i)] ==
      if from <= i < sent then LsbValue(bits[3 * (i - from)..3 * (i - from) + 3]) else code[CodeLengthOrder(i)]
    decreases sent - from
  {
    hide LsbValue, CodeLengthOrder;
    if from < sent {
      ReceivedPlaces(bits[3..], from + 1, sent, code[CodeLengthOrder(from) := LsbValue(bits[..3])], i);
      if CodeLengthOrder(i) == CodeLengthOrder(from) {
        OrderInjective(i, from);
      }
      assert i == from ==> bits[0..3] == bits[..3];
      assert from < i < sent ==> bits[3..][3 * (i - from - 1)..3 * (i - from - 1) + 3] == bits[3 * (i - from)..3 * (i - from) + 3];
    }
  }

  /** The lengths of the code-length code stand in the order of section 3.2.7, three bits each; those
      that are not sent are zero. */
  lemma LengthsInOrder(bits: BitSeq, sent: nat, i: nat)
    requires sent <= 19 && 3 * sent <= |bits| && i < 19
    ensures Received(bits, 0, sent, Fill(0, 19))[[16, 17, 18, 0, 8, 7, 9, 6, 10, 5, 11, 4, 12, 3, 13, 2, 14, 1, 15][i]] ==
      if i < sent then LsbValue(bits[3 * i..3 * i + 3]) else 0
  {
    hide Received, LsbValue;
    ReceivedPlaces(bits, 0, sent, Fill(0, 19), i);
    assert CodeLengthOrder(i) == [16, 17, 18, 0, 8, 7, 9, 6, 10, 5, 11, 4, 12, 3, 13, 2, 14, 1, 15][i];
  }

  /** The lengths not yet received are still zero; those received are in place. */
  ghost predicate PartlyReceived(code: seq<nat>, partial: seq<nat>, from: nat)
  {
    && |code| == |partial| == 19
    && forall i: nat :: i < 19 ==> partial[CodeLengthOrder(i)] == if i < from then code[CodeLengthOrder(i)] else 0
  }

  lemma {:induction false} ReceivedRoundTrip(code: seq<nat>, partial: seq<nat>, from: nat, sent: nat, tail: BitSeq)
    requires from <= sent <= 19 && PartlyReceived(code, partial, from)
    requires forall i :: 0 <= i < 19 ==> code[i] < 8
    requires forall i: nat :: sent <= i < 19 ==> code[CodeLengthOrder(i)] == 0
    ensures var bits := SentBits(code, from, sent, tail);
      && |bits| == 3 * (sent - from) + |tail|
      && bits[3 * (sent - from)..] == tail
      && Received(bits, from, sent, partial) == code
    decreases sent - from
  {
    var bits := SentBits(code, from, sent, tail);
    if from == sent {
      forall k | 0 <= k < 19 ensures partial[k] == code[k] {
        assert CodeLengthOrder(OrderIndex(k)) == k;
      }
    } else {
      var here := CodeLengthOrder(from);
      var value := Low(code[here], 3);
      var more := SentBits(code, from + 1, sent, tail);
      PowersOfTwo();
      LsbRoundTrip(code[here], 3);
      Parts(value, more);
      var next := partial[here := code[here]];
      forall i: nat | i < 19 ensures next[CodeLengthOrder(i)] == if i < from + 1 then code[CodeLengthOrder(i)] else 0 {
        if CodeLengthOrder(i) == here {
          OrderInjective(i, from);
        }
      }
      ReceivedRoundTrip(code, next, from + 1, sent, tail);
      assert bits[3 * (sent - from)..] == more[3 * (sent - from - 1)..];
    }
  }

  /** Neither code of a header is over-subscribed. */
  ghost predicate CodesFit(h: Header)
    requires h.Valid()
  {
    Kraft(Counts(h.BlockCodes().literals)) && Kraft(Counts(h.BlockCodes().distances))
  }

  /** The header of a dynamic block gives back its two codes, unless one is over-subscribed. */
  lemma HeaderRoundTrip(h: Header, tail: BitSeq)
    requires h.Valid()
    ensures HeaderFrom(h.Bits(tail)) == if CodesFit(h) then Done(h.BlockCodes(), tail) else Undefined
  {
    hide SentBits, OpsBits, CodesFrom, LsbValue, Low;
    var bits3 := SentBits(h.code, 0, h.sent, OpsBits(h.code, h.ops, tail));
    var bits2 := Low(h.sent - 4, 4) + bits3;
    var bits1 := Low(h.distanceCount - 1, 5) + bits2;
    PowersOfTwo();
    NumberRoundTrip(h.literalCount - 257, 5, bits1);
    NumberRoundTrip(h.distanceCount - 1, 5, bits2);
    NumberRoundTrip(h.sent - 4, 4, bits3);
    CodesRoundTrip(h, tail);
  }

  lemma CodesRoundTrip(h: Header, tail: BitSeq)
    requires h.Valid()
    ensures var bits := SentBits(h.code, 0, h.sent, OpsBits(h.code, h.ops, tail));
      CodesFrom(h.literalCount, h.distanceCount, h.sent, bits) == if CodesFit(h) then Done(h.BlockCodes(), tail) else Undefined
  {
    hide Received, SentBits, LengthsFrom, OpsBits;
    ReceivedRoundTrip(h.code, Fill(0, 19), 0, h.sent, OpsBits(h.code, h.ops, tail));
    LengthsRoundTrip(h.code, h.ops, tail, []);
  }

  // ----- blocks and streams

  /** A stored block: skip to a byte boundary, a length and its complement, then that many bytes. */
  ghost function StoredFrom(bits: BitSeq, out: seq<Byte>, capacity: nat): (r: Outcome<seq<Byte>>)
    ensures r.Done? ==> |r.rest| <= |bits| && |r.value| <= capacity
    ensures !r.Undefined?
  {
    AlignedFrom(bits[|bits| % 8..], out, capacity)
  }

  ghost function AlignedFrom(bits1: BitSeq, out: seq<Byte>, capacity: nat): (r: Outcome<seq<Byte>>)
    ensures r.Done? ==> |r.rest| <= |bits1| && |r.value| <= capacity
    ensures !r.Undefined?
  {
    if |bits1| < 32 then Corrupt
    else
      var bits2 := bits1[16..];
      var size, check, data := LsbValue(bits1[..16]), LsbValue(bits2[..16]), bits2[16..];
      if check != 0xFFFF - size || |data| < 8 * size || capacity < |out| + size then Corrupt
      else
        WholeNumberOfBytes(size);
        Done(out + BytesOf(data[..8 * size]), data[8 * size..])
  }

  ghost function BodyFrom(kind: nat, bits: BitSeq, out: seq<Byte>, capacity: nat): (r: Outcome<seq<Byte>>)
    ensures r.Done? ==> |r.rest| <= |bits| && (|out| <= capacity ==> |r.value| <= capacity)
  {
    match kind
    case 0 => StoredFrom(bits, out, capacity)
    case 1 => BlockFrom(FixedCodes(), bits, out, capacity)
    case 2 =>
      (match HeaderFrom(bits)
       case Done(codes, rest) => BlockFrom(codes, rest, out, capacity)
       case Corrupt => Corrupt
       case Undefined => Undefined)
    case _ => Corrupt
  }

  /** Blocks up to and including the one that says it is last. */
  ghost function StreamFrom(bits: BitSeq, out: seq<Byte>, capacity: nat): (r: Outcome<seq<Byte>>)
    ensures r.Done? && |out| <= capacity ==> |r.value| <= capacity
    decreases |bits|
  {
    if |bits| < 3 then Corrupt
    else
      match BodyFrom(LsbValue(bits[1..][..2]), bits[3..], out, capacity)
      case Done(next, rest) => if bits[0] then Done(next, rest) else StreamFrom(rest, next, capacity)
      case Corrupt => Corrupt
      case Undefined => Undefined
  }

  /** The zlib wrapper (RFC 1950): two header bytes, no dictionary; what follows the stream is
      not looked at. */
  ghost predicate ZlibHeader(data: seq<Byte>)
  {
    && 2 <= |data| && data[0] % 16 == 8 && (256 * (data[0] as nat) + data[1] as nat) % 31 == 0
    && data[1] / 32 % 2 == 0
  }

  ghost function ZlibFrom(data: seq<Byte>, capacity: nat): (r: Outcome<seq<Byte>>)
    ensures r.Done? ==> |r.value| <= capacity
  {
    if ZlibHeader(data) then StreamFrom(ByteBits(data[2..]), [], capacity) else Corrupt
  }

  lemma StoredRoundTrip(padding: BitSeq, bytes: seq<Byte>, tail: BitSeq, out: seq<Byte>, capacity: nat)
    requires |bytes| < 0x1_0000 && |padding| < 8 && |tail| % 8 == 0 && |out| + |bytes| <= capacity
    ensures StoredFrom(Stored(padding, bytes).Body(tail), out, capacity) == Done(out + bytes, tail)
  {
    hide LsbValue, Low, ByteBits, BytesOf;
    var data := ByteBits(bytes) + tail;
    var bits2 := Low(0xFFFF - |bytes|, 16) + data;
    var bits1 := Low(|bytes|, 16) + bits2;
    PowersOfTwo();
    NumberRoundTrip(|bytes|, 16, bits2);
    NumberRoundTrip(0xFFFF - |bytes|, 16, data);
    Parts(ByteBits(bytes), tail);
    BytesOfByteBits(bytes);
    PaddingIsOddBits(padding, bits1, 4 + |bytes|, |tail|);
  }

  lemma PaddingIsOddBits(padding: BitSeq, aligned: BitSeq, whole: nat, tail: nat)
    requires |padding| < 8 && tail % 8 == 0 && |aligned| == 8 * whole + tail
    ensures |padding + aligned| % 8 == |padding| && (padding + aligned)[|padding|..] == aligned
  {
  }

  // ----- the whole stream

  /** The fixed codes of section 3.2.6 are proper codes: the literal code is complete, the
      distance code leaves two codes of five bits unused. */
  lemma FixedCodesValid()
    ensures FixedCodes().Valid()
  {
    FixedCounts(288);
    FixedDistanceCounts(30);
    assert FixedLiterals()[..288] == FixedLiterals() && FixedDistances()[..30] == FixedDistances();
    forall len | 1 <= len < 16
      ensures Left(Counts(FixedLiterals()), len) >= 0 && Left(Counts(FixedDistances()), len) >= 0
    {
      FixedLeft(Counts(FixedLiterals()), Counts(FixedDistances()), len);
    }
  }

  lemma {:induction false} FixedLeft(l: seq<nat>, d: seq<nat>, len: nat)
    requires |l| == |d| == 16 && len < 16
    requires forall i :: 0 <= i < 16 ==> l[i] == if i == 7 then 24 else if i == 8 then 152 else if i == 9 then 112 else 0
    requires forall i :: 0 <= i < 16 ==> d[i] == if i == 5 then 30 else 0
    ensures Left(l, len) == if len < 7 then Pow2(len) else if len == 7 then 104 else if len == 8 then 56 else 0
    ensures Left(d, len) == if len < 5 then Pow2(len) else 2 * Pow2(len - 5)
  {
    if len > 0 {
      FixedLeft(l, d, len - 1);
      LeftStep(l, len);
      LeftStep(d, len);
      PowersOfTwo();
    }
  }

  lemma {:induction false} FixedCounts(n: nat)
    requires n <= 288
    ensures Having(FixedLiterals()[..n], 7) == if n <= 256 then 0 else if n <= 280 then n - 256 else 24
    ensures Having(FixedLiterals()[..n], 8) == if n <= 144 then n else if n <= 280 then 144 else n - 136
    ensures Having(FixedLiterals()[..n], 9) == if n <= 144 then 0 else if n <= 256 then n - 144 else 112
    ensures forall len: nat :: len < 7 || 9 < len ==> Having(FixedLiterals()[..n], len) == 0
  {
    if n > 0 {
      assert FixedLiterals()[..n][..n - 1] == FixedLiterals()[..n - 1];
      FixedCounts(n - 1);
    }
  }

  lemma {:induction false} FixedDistanceCounts(n: nat)
    requires n <= 30
    ensures Having(FixedDistances()[..n], 5) == n
    ensures forall len: nat :: len != 5 ==> Having(FixedDistances()[..n], len) == 0
  {
    if n > 0 {
      assert FixedDistances()[..n][..n - 1] == FixedDistances()[..n - 1];
      FixedDistanceCounts(n - 1);
    }
  }

  /** The fixed literal codes of section 3.2.6: 00110000 and on for 0 to 143, 110010000 and on for 144
      to 255, 0000000 and on for 256 to 279, and 11000000 and on for 280 to 287. */
  lemma FixedCodesOfRfc(s: nat)
    requires s < 288
    ensures Used(FixedLiterals(), s)
    ensures Code(FixedLiterals(), s) ==
      if s < 144 then High(0x30 + s, 8) else if s < 256 then High(0x190 + (s - 144), 9)
      else if s < 280 then High(s - 256, 7) else High(0xC0 + (s - 280), 8)
    ensures s < 30 ==> Used(FixedDistances(), s) && Code(FixedDistances(), s) == High(s, 5)
  {
    hide High, Having;
    FixedFirsts();
    FixedLengthsOfRfc(s);
    FixedCounts(s);
    if s < 30 {
      FixedDistanceCounts(s);
    }
  }

  lemma FixedFirsts()
    ensures First(Counts(FixedLiterals()), 7) == 0 && First(Counts(FixedLiterals()), 8) == 48 && First(Counts(FixedLiterals()), 9) == 400
    ensures First(Counts(FixedDistances()), 5) == 0
  {
    hide Having, Counts;
    FixedCounts(288);
    FixedDistanceCounts(30);
    assert FixedLiterals()[..288] == FixedLiterals() && FixedDistances()[..30] == FixedDistances();
    var l, d := Counts(FixedLiterals()), Counts(FixedDistances());
    FixedCountsAre();
    NoneBelow(l, 7);
    NoneBelow(d, 5);
  }

  lemma FixedCountsAre()
    ensures forall i :: 0 <= i < 16 ==>
      Counts(FixedLiterals())[i] == if i == 7 then 24 else if i == 8 then 152 else if i == 9 then 112 else 0
    ensures forall i :: 0 <= i < 16 ==> Counts(FixedDistances())[i] == if i == 5 then 30 else 0
  {
    hide Having;
    FixedCounts(288);
    FixedDistanceCounts(30);
    assert FixedLiterals()[..288] == FixedLiterals() && FixedDistances()[..30] == FixedDistances();
  }

  lemma {:induction false} NoneBelow(counts: seq<nat>, len: nat)
    requires len < |counts| && forall i :: 0 <= i < len ==> counts[i] == 0
    ensures First(counts, len) == 0
  {
    if len > 0 {
      NoneBelow(counts, len - 1);
    }
  }

  /** A block's body gives what the block stands for and leaves what follows it. */
  lemma BodyRoundTrip(block: Block, tail: BitSeq, out: seq<Byte>, capacity: nat)
    requires block.Valid() && (block.Stored? ==> |tail| % 8 == 0)
    requires block.Expansion(out).Some? && |block.Expansion(out).value| <= capacity
    ensures BodyFrom(block.Type(), block.Body(tail), out, capacity) == Done(block.Expansion(out).value, tail)
  {
    hide BlockFrom, StoredFrom, HeaderFrom, TokensBits, Expand;
    match block {
      case Stored(padding, bytes) => StoredRoundTrip(padding, bytes, tail, out, capacity);
      case Fixed(tokens) =>
        FixedCodesValid();
        BlockRoundTrip(FixedCodes(), tokens, tail, out, capacity);
      case Dynamic(header, tokens) =>
        HeaderRoundTrip(header, TokensBits(header.BlockCodes(), tokens, tail));
        BlockRoundTrip(header.BlockCodes(), tokens, tail, out, capacity);
    }
  }

  lemma {:induction false} ExpansionGrows(blocks: seq<Block>, out: seq<Byte>)
    requires ValidStream(blocks) && StreamExpansion(blocks, out).Some?
    ensures blocks[0].Expansion(out).Some?
    ensures |blocks[0].Expansion(out).value| <= |StreamExpansion(blocks, out).value|
  {
  }

  /** Inflating a DEFLATE stream gives what it stands for, whatever mix of stored, fixed and
      dynamic blocks was written, and leaves what follows the stream. */
  lemma {:induction false} StreamRoundTrip(blocks: seq<Block>, tail: BitSeq, out: seq<Byte>, capacity: nat)
    requires ValidStream(blocks) && Aligned(blocks, tail)
    requires StreamExpansion(blocks, out).Some? && |StreamExpansion(blocks, out).value| <= capacity
    ensures StreamFrom(StreamBits(blocks, tail), out, capacity) == Done(StreamExpansion(blocks, out).value, tail)
    decreases |blocks|
  {
    hide BodyFrom, LsbValue, Low, TokensBits, Expand, ByteBits, Block.Body, Block.Bits, Block.Valid;
    var last := |blocks| == 1;
    var more := if last then tail else StreamBits(blocks[1..], tail);
    ExpansionGrows(blocks, out);
    BodyRoundTrip(blocks[0], more, out, capacity);
    BlockStart(blocks[0], last, more);
    if !last {
      StreamRoundTrip(blocks[1..], tail, blocks[0].Expansion(out).value, capacity);
    }
  }

  lemma BlockStart(block: Block, last: bool, tail: BitSeq)
    requires block.Valid()
    ensures var bits := block.Bits(last, tail);
      |bits| >= 3 && bits[0] == last && LsbValue(bits[1..][..2]) == block.Type() && bits[3..] == block.Body(tail)
  {
    hide LsbValue, Low;
    var bits1 := Low(block.Type(), 2) + block.Body(tail);
    PowersOfTwo();
    NumberRoundTrip(block.Type(), 2, block.Body(tail));
    assert block.Bits(last, tail)[1..] == bits1;
    assert block.Bits(last, tail)[3..] == bits1[2..];
  }

  // ----- and back: whatever inflates was a DEFLATE stream

  lemma NumberOfBits(bits: BitSeq, n: nat)
    requires n <= |bits|
    ensures LsbValue(bits[..n]) < Pow2(n) && bits == Low(LsbValue(bits[..n]), n) + bits[n..]
  {
    hide LsbValue, Low;
    LsbValueBound(bits[..n]);
    assert bits == bits[..n] + bits[n..];
  }

  lemma MatchOfBits(codes: CodePair, l: nat, bits: BitSeq)
    requires l < 29 && MatchFrom(codes, l, bits).Some?
    requires Used(codes.literals, END_OF_BLOCK + 1 + l)
    ensures var (t, rest) := MatchFrom(codes, l, bits).value;
      t.Match? && t.length == l && codes.Covers(t) && bits == MatchBits(codes, t, rest)
  {
    hide LsbValue, Low, Begins;
    var bits1 := bits[LengthExtra(l)..];
    var (d, bits2) := NextSymbol(codes.distances, bits1).value;
    NumberOfBits(bits, LengthExtra(l));
    CodeOfNextSymbol(codes.distances, bits1);
    NumberOfBits(bits2, DistanceExtra(d));
  }

  lemma TokenOfBits(codes: CodePair, bits: BitSeq)
    requires TokenFrom(codes, bits).Got?
    ensures var Got(t, rest) := TokenFrom(codes, bits);
      codes.Covers(t) && bits == TokenBits(codes, t, rest)
  {
    hide LsbValue, Low, Begins, MatchBits, MatchFrom, Code;
    CodeOfNextSymbol(codes.literals, bits);
    var (s, after) := NextSymbol(codes.literals, bits).value;
    if END_OF_BLOCK < s {
      MatchOfBits(codes, s - END_OF_BLOCK - 1, after);
    }
  }

  lemma {:induction false} BlockOfBits(codes: CodePair, bits: BitSeq, out: seq<Byte>, capacity: nat) returns (tokens: seq<Token>)
    requires BlockFrom(codes, bits, out, capacity).Done?
    ensures codes.CoversAll(tokens)
    ensures bits == TokensBits(codes, tokens, BlockFrom(codes, bits, out, capacity).rest)
    ensures Expand(tokens, out) == Some(BlockFrom(codes, bits, out, capacity).value)
    decreases |bits|
  {
    hide TokenBits, Code, LsbValue, Copy;
    match TokenFrom(codes, bits) {
      case BlockEnd(rest) =>
        tokens := [];
        assert Used(codes.literals, END_OF_BLOCK) && bits == Code(codes.literals, END_OF_BLOCK) + rest by {
          CodeOfNextSymbol(codes.literals, bits);
        }
      case Got(t, rest) =>
        TokenOfBits(codes, bits);
        var more := BlockOfBits(codes, rest, Extend(t, out, capacity).value, capacity);
        tokens := [t] + more;
        assert tokens[1..] == more;
    }
  }

  lemma OpOfBits(code: seq<nat>, bits: BitSeq)
    requires |code| == 19 && OpFrom(code, bits).Some?
    ensures var (op, rest) := OpFrom(code, bits).value;
      Used(code, op.Symbol()) && bits == Code(code, op.Symbol()) + (op.Extra() + rest)
  {
    hide LsbValue, Low, Code, Begins;
    var (s, after) := NextSymbol(code, bits).value;
    CodeOfNextSymbol(code, bits);
    NumberOfBits(after, OpExtraBits(s));
    PowersOfTwo();
    assert Low(0, 0) == [] by { LowOfNothing(); }
  }

  lemma LowOfNothing()
    ensures Low(0, 0) == []
  {
  }

  lemma {:induction false} LengthsOfBits(code: seq<nat>, bits: BitSeq, total: nat, lengths: seq<nat>) returns (ops: seq<LengthOp>)
    requires |code| == 19 && |lengths| <= total && LengthsFrom(code, bits, total, lengths).Some?
    ensures OpsCovered(code, ops)
    ensures bits == OpsBits(code, ops, LengthsFrom(code, bits, total, lengths).value.1)
    ensures ExpandOps(ops, lengths) == Some(LengthsFrom(code, bits, total, lengths).value.0)
    decreases |bits|
  {
    hide OpFrom, Code, LengthOp.Extra;
    if |lengths| == total {
      ops := [];
    } else {
      var (op, after) := OpFrom(code, bits).value;
      OpOfBits(code, bits);
      var more := LengthsOfBits(code, after, total, ApplyOp(op, lengths).value);
      ops := [op] + more;
      assert ops[1..] == more;
    }
  }

  lemma {:induction false} SentOfBits(bits: BitSeq, from: nat, sent: nat, partial: seq<nat>, code: seq<nat>)
    requires from <= sent <= 19 && 3 * (sent - from) <= |bits| && |partial| == 19
    requires code == Received(bits, from, sent, partial)
    requires forall k :: 0 <= k < 19 ==> partial[k] < 8
    ensures bits == SentBits(code, from, sent, bits[3 * (sent - from)..])
    ensures forall k :: 0 <= k < 19 ==> code[k] < 8
    ensures forall i: nat :: i < from || sent <= i < 19 ==> code[CodeLengthOrder(i)] == partial[CodeLengthOrder(i)]
    decreases sent - from
  {
    hide LsbValue, Low;
    if from < sent {
      var value := LsbValue(bits[..3]);
      var next := partial[CodeLengthOrder(from) := value];
      NumberOfBits(bits, 3);
      PowersOfTwo();
      SentOfBits(bits[3..], from + 1, sent, next, code);
      assert bits[3..][3 * (sent - from - 1)..] == bits[3 * (sent - from)..];
      forall i: nat | i < from || sent <= i < 19 ensures CodeLengthOrder(i) != CodeLengthOrder(from) {
        if CodeLengthOrder(i) == CodeLengthOrder(from) {
          OrderInjective(i, from);
        }
      }
    }
  }

  lemma CodesOfBits(literals: nat, distances: nat, sent: nat, bits: BitSeq) returns (h: Header, tail: BitSeq)
    requires 257 <= literals <= 286 && 1 <= distances <= 30 && 4 <= sent <= 19
    requires !CodesFrom(literals, distances, sent, bits).Corrupt?
    ensures h.Valid() && h.literalCount == literals && h.distanceCount == distances && h.sent == sent
    ensures CodesFrom(literals, distances, sent, bits) == if CodesFit(h) then Done(h.BlockCodes(), tail) else Undefined
    ensures bits == SentBits(h.code, 0, sent, OpsBits(h.code, h.ops, tail))
  {
    hide Received, SentBits, LengthsFrom, OpsBits, ExpandOps;
    tail := AllLengthsFrom(literals + distances, sent, bits).value.1;
    var code := Received(bits, 0, sent, Fill(0, 19));
    SentOfBits(bits, 0, sent, Fill(0, 19), code);
    var ops := LengthsOfBits(code, bits[3 * sent..], literals + distances, []);
    h := Header(literals, distances, sent, code, ops);
  }

  /** What is read as a header was one, whether or not its codes fit. */
  lemma HeaderOfBits(bits: BitSeq) returns (h: Header, tail: BitSeq)
    requires !HeaderFrom(bits).Corrupt?
    ensures h.Valid() && bits == h.Bits(tail)
    ensures HeaderFrom(bits) == if CodesFit(h) then Done(h.BlockCodes(), tail) else Undefined
  {
    hide CodesFrom, LsbValue, Low, SentBits, OpsBits;
    var bits1 := bits[5..];
    var bits2 := bits1[5..];
    NumberOfBits(bits, 5);
    NumberOfBits(bits1, 5);
    NumberOfBits(bits2, 4);
    PowersOfTwo();
    h, tail := CodesOfBits(LsbValue(bits[..5]) + 257, LsbValue(bits1[..5]) + 1, LsbValue(bits2[..4]) + 4, bits2[4..]);
  }

  lemma StoredOfBits(bits: BitSeq, out: seq<Byte>, capacity: nat) returns (padding: BitSeq, bytes: seq<Byte>)
    requires StoredFrom(bits, out, capacity).Done?
    ensures |bytes| < 0x1_0000 && |padding| < 8 && |StoredFrom(bits, out, capacity).rest| % 8 == 0
    ensures StoredFrom(bits, out, capacity).value == out + bytes
    ensures bits == Stored(padding, bytes).Body(StoredFrom(bits, out, capacity).rest)
  {
    hide LsbValue, Low, ByteBits, BytesOf, AlignedFrom;
    var odd := |bits| % 8;
    padding := bits[..odd];
    var bits1 := bits[odd..];
    assert bits == padding + bits1;
    bytes := AlignedOfBits(bits1, out, capacity);
    var rest := StoredFrom(bits, out, capacity).rest;
    assert |rest| % 8 == 0 by {
      assert |bits| == odd + 32 + 8 * |bytes| + |rest|;
      RestIsWholeBytes(|bits|, |bytes|, |rest|);
    }
  }

  lemma AlignedOfBits(bits1: BitSeq, out: seq<Byte>, capacity: nat) returns (bytes: seq<Byte>)
    requires AlignedFrom(bits1, out, capacity).Done?
    ensures |bytes| < 0x1_0000 && AlignedFrom(bits1, out, capacity).value == out + bytes
    ensures bits1 == Low(|bytes|, 16) + (Low(0xFFFF - |bytes|, 16)
                     + (ByteBits(bytes) + AlignedFrom(bits1, out, capacity).rest))
    ensures |bits1| == 32 + 8 * |bytes| + |AlignedFrom(bits1, out, capacity).rest|
  {
    hide LsbValue, Low, ByteBits, BytesOf;
    var bits2 := bits1[16..];
    var data := bits2[16..];
    NumberOfBits(bits1, 16);
    NumberOfBits(bits2, 16);
    PowersOfTwo();
    var size := LsbValue(bits1[..16]);
    WholeNumberOfBytes(size);
    bytes := BytesOf(data[..8 * size]);
    assert data == ByteBits(bytes) + data[8 * size..];
  }

  lemma RestIsWholeBytes(bits: nat, size: nat, rest: nat)
    requires bits == bits % 8 + 32 + 8 * size + rest
    ensures rest % 8 == 0
  {
    assert bits - bits % 8 == 8 * (bits / 8);
    assert rest == 8 * (bits / 8 - 4 - size);
  }

  lemma BodyOfBits(kind: nat, bits: BitSeq, out: seq<Byte>, capacity: nat) returns (block: Block)
    requires BodyFrom(kind, bits, out, capacity).Done?
    ensures block.Valid() && block.Type() == kind
    ensures bits == block.Body(BodyFrom(kind, bits, out, capacity).rest)
    ensures block.Stored? ==> |BodyFrom(kind, bits, out, capacity).rest| % 8 == 0
    ensures block.Expansion(out) == Some(BodyFrom(kind, bits, out, capacity).value)
  {
    hide BlockFrom, StoredFrom, HeaderFrom, TokensBits, Expand, ByteBits, Low, Header.Bits;
    if kind == 0 {
      var padding, bytes := StoredOfBits(bits, out, capacity);
      block := Stored(padding, bytes);
    } else if kind == 1 {
      var tokens := BlockOfBits(FixedCodes(), bits, out, capacity);
      block := Fixed(tokens);
    } else {
      var h, _ := HeaderOfBits(bits);
      var tokens := BlockOfBits(h.BlockCodes(), HeaderFrom(bits).rest, out, capacity);
      block := Dynamic(h, tokens);
    }
  }

  lemma {:induction false} StreamOfBits(bits: BitSeq, out: seq<Byte>, capacity: nat) returns (blocks: seq<Block>)
    requires StreamFrom(bits, out, capacity).Done?
    ensures ValidStream(blocks)
    ensures bits == StreamBits(blocks, StreamFrom(bits, out, capacity).rest)
    ensures Aligned(blocks, StreamFrom(bits, out, capacity).rest)
    ensures StreamExpansion(blocks, out) == Some(StreamFrom(bits, out, capacity).value)
    decreases |bits|
  {
    hide BodyFrom, LsbValue, Low, Block.Body, Block.Valid, Block.Expansion;
    var kind := LsbValue(bits[1..][..2]);
    var block := BodyOfBits(kind, bits[3..], out, capacity);
    var Done(next, rest) := BodyFrom(kind, bits[3..], out, capacity);
    assert bits == block.Bits(bits[0], rest) by {
      NumberOfBits(bits[1..], 2);
      assert bits[1..][2..] == bits[3..];
    }
    if bits[0] {
      blocks := [block];
    } else {
      var more := StreamOfBits(rest, next, capacity);
      blocks := [block] + more;
      assert blocks[1..] == more;
    }
  }

  /** The bits inflate to `value` exactly when they begin with a DEFLATE stream that stands for it. */
  ghost predicate IsStreamFor(bits: BitSeq, blocks: seq<Block>, tail: BitSeq, value: seq<Byte>)
  {
    && ValidStream(blocks) && bits == StreamBits(blocks, tail) && Aligned(blocks, tail)
    && StreamExpansion(blocks, []) == Some(value)
  }

  lemma InflateExactly(bits: BitSeq, capacity: nat, value: seq<Byte>, tail: BitSeq)
    ensures StreamFrom(bits, [], capacity) == Done(value, tail)
       <==> |value| <= capacity && exists blocks :: IsStreamFor(bits, blocks, tail, value)
  {
    hide BodyFrom, StreamBits, Aligned, StreamExpansion, LsbValue;
    if StreamFrom(bits, [], capacity) == Done(value, tail) {
      var blocks := StreamOfBits(bits, [], capacity);
      assert IsStreamFor(bits, blocks, tail, value);
    }
    if |value| <= capacity && exists blocks :: IsStreamFor(bits, blocks, tail, value) {
      var blocks :| IsStreamFor(bits, blocks, tail, value);
      StreamRoundTrip(blocks, tail, [], capacity);
    }
  }

  /** The same behind the two bytes of a zlib header (RFC 1950). */
  lemma ZlibExactly(data: seq<Byte>, capacity: nat, value: seq<Byte>, tail: BitSeq)
    ensures ZlibFrom(data, capacity) == Done(value, tail)
       <==> && 2 <= |data| && data[0] % 16 == 8 && (256 * (data[0] as nat) + data[1] as nat) % 31 == 0 && data[1] / 32 % 2 == 0
            && |value| <= capacity
            && exists blocks :: IsStreamFor(ByteBits(data[2..]), blocks, tail, value)
  {
    hide StreamFrom, IsStreamFor, ByteBits;
    if ZlibHeader(data) {
      ZlibIsStream(data, capacity);
      InflateExactly(ByteBits(data[2..]), capacity, value, tail);
    }
  }

  lemma ZlibIsStream(data: seq<Byte>, capacity: nat)
    requires ZlibHeader(data)
    ensures ZlibFrom(data, capacity) == StreamFrom(ByteBits(data[2..]), [], capacity)
  {
  }

  /** The counts at the front of a dynamic block: five bits for 257 to 286 literals, five for 1 to 30
      distances and four for 4 to 19 lengths of the code-length code. */
  lemma HeaderCounts(bits: BitSeq)
    ensures |bits| < 14 || LsbValue(bits[..5]) > 29 || LsbValue(bits[5..10]) > 29 ==> HeaderFrom(bits) == Corrupt
    ensures 14 <= |bits| && LsbValue(bits[..5]) <= 29 && LsbValue(bits[5..10]) <= 29 ==>
      && LsbValue(bits[10..14]) <= 15
      && HeaderFrom(bits) == CodesFrom(257 + LsbValue(bits[..5]), 1 + LsbValue(bits[5..10]), 4 + LsbValue(bits[10..14]), bits[14..])
  {
    hide CodesFrom, LsbValue;
    if 14 <= |bits| {
      assert bits[5..][..5] == bits[5..10] && bits[5..][5..][..4] == bits[10..14] && bits[5..][5..][4..] == bits[14..];
      LsbValueBound(bits[10..14]);
      PowersOfTwo();
    }
  }

  // ----- over-subscribed codes

  /** A header is undefined exactly when it is well formed and one of its codes is over-subscribed. */
  lemma UndefinedExactly(bits: BitSeq)
    ensures HeaderFrom(bits).Undefined? <==>
            exists h: Header, tail: BitSeq :: h.Valid() && bits == h.Bits(tail) && !CodesFit(h)
  {
    hide HeaderFrom, Header.Valid, Header.Bits, CodesFit;
    if HeaderFrom(bits).Undefined? {
      var h, tail := HeaderOfBits(bits);
      assert h.Valid() && bits == h.Bits(tail) && !CodesFit(h);
    }
    if exists h: Header, tail: BitSeq :: h.Valid() && bits == h.Bits(tail) && !CodesFit(h) {
      var h: Header, tail: BitSeq :| h.Valid() && bits == h.Bits(tail) && !CodesFit(h);
      HeaderRoundTrip(h, tail);
    }
  }

  function Ones(n: nat): (ops: seq<LengthOp>)
    ensures |ops| == n
  {
    seq(n, _ => Lengths(1))
  }

  /** A code-length code of one symbol, for length 1. */
  function OneCode(): (code: seq<nat>)
    ensures |code| == 19
  {
    Fill(0, 19)[1 := 1]
  }

  /** 257 literals and a distance, all with codes of one bit. */
  function BadHeader(): Header { Header(257, 1, 19, OneCode(), Ones(258)) }

  lemma {:induction false} OnesExpand(n: nat, lengths: seq<nat>)
    ensures ExpandOps(Ones(n), lengths) == Some(lengths + Fill(1, n))
  {
    if n == 0 {
      assert Ones(0) == [] && lengths + Fill(1, 0) == lengths;
    } else {
      assert Ones(n)[1..] == Ones(n - 1);
      OnesExpand(n - 1, lengths + [1]);
      assert lengths + [1] + Fill(1, n - 1) == lengths + Fill(1, n);
    }
  }

  lemma {:induction false} OnesHaving(n: nat)
    ensures Having(Fill(1, n), 1) == n
  {
    if n > 0 {
      assert Fill(1, n)[..n - 1] == Fill(1, n - 1);
      OnesHaving(n - 1);
    }
  }

  lemma {:induction false} OneCodeHaving(n: nat, len: nat)
    requires n <= 19 && 0 < len
    ensures Having(OneCode()[..n], len) == if 2 <= n && len == 1 then 1 else 0
  {
    if n > 0 {
      assert OneCode()[..n][..n - 1] == OneCode()[..n - 1];
      OneCodeHaving(n - 1, len);
    }
  }

  lemma {:induction false} OneCodeLeft(len: nat)
    requires len < 16
    ensures Left(Counts(OneCode()), len) >= 1
  {
    hide Left, OneCode, Having;
    if len == 0 {
      LeftStart(Counts(OneCode()));
    } else {
      OneCodeLeft(len - 1);
      LeftStep(Counts(OneCode()), len);
      OneCodeHaving(19, len);
      assert OneCode()[..19] == OneCode();
    }
  }

  lemma {:induction false} OnesBits(n: nat, tail: BitSeq)
    ensures OpsCovered(OneCode(), Ones(n)) && |OpsBits(OneCode(), Ones(n), tail)| == n + |tail|
  {
    if n > 0 {
      assert Ones(n)[1..] == Ones(n - 1);
      OnesBits(n - 1, tail);
    }
  }

  lemma BadHeaderIs(tail: BitSeq)
    ensures BadHeader().Valid() && !CodesFit(BadHeader()) && |BadHeader().Bits(tail)| == 329 + |tail|
  {
    hide OpsBits, SentBits, ExpandOps, Counts;
    forall len | 1 <= len < 16
      ensures Left(Counts(OneCode()), len) >= 0
    {
      OneCodeLeft(len);
    }
    OnesExpand(258, []);
    OnesBits(258, tail);
    assert [] + Fill(1, 258) == Fill(1, 258);
    var literals := BadHeader().BlockCodes().literals;
    assert literals == Fill(1, 257);
    TooManyOnes();
    ReceivedRoundTrip(OneCode(), Fill(0, 19), 0, 19, OpsBits(OneCode(), Ones(258), tail));
  }

  lemma TooManyOnes()
    ensures !Kraft(Counts(Fill(1, 257)))
  {
    var counts := Counts(Fill(1, 257));
    OnesHaving(257);
    LeftStart(counts);
    LeftStep(counts, 1);
    assert Left(counts, 1) < 0;
  }

  /** A zlib stream of one dynamic block with over-subscribed codes. */
  lemma UndefinedStream(capacity: nat) returns (data: seq<Byte>)
    ensures ZlibHeader(data) && ZlibFrom(data, capacity) == Undefined
  {
    hide HeaderFrom, Header.Bits, Low, LsbValue, ByteBits, BytesOf;
    var tail := [false, false, false, false];
    BadHeaderIs(tail);
    var body := BadHeader().Bits(tail);
    var bits := [true] + (Low(2, 2) + body);
    assert |bits| == 8 * 42;
    data := [0x78, 0x01] + BytesOf(bits);
    assert data[2..] == BytesOf(bits);
    HeaderRoundTrip(BadHeader(), tail);
    PowersOfTwo();
    NumberRoundTrip(2, 2, body);
    assert bits[1..] == Low(2, 2) + body && bits[3..] == bits[1..][2..];
  }
}
