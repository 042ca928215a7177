/** Huffman tables built from code lengths, as DEFLATE sends them
    (models/image_decode.c, `huffman_build` and `huffman_decode`). */
module HuffmanTables {
  import opened BitStreams
  import opened BitReaders
  import opened CanonicalCodes

  const MAX_BITS: nat := 15
  const MAX_SYMBOLS: nat := 320

  /** How many symbols have codes of `len` bits. */
  ghost function Having(lengths: seq<nat>, len: nat): (n: nat)
    ensures n <= |lengths|
  {
    if lengths == [] then 0
    else Having(lengths[..|lengths| - 1], len) + if lengths[|lengths| - 1] == len then 1 else 0
  }

  /** Length 0 marks an unused symbol, so it is not counted. */
  ghost function Counts(lengths: seq<nat>): (counts: seq<nat>)
    ensures |counts| == MAX_BITS + 1 && IsCounts(counts)
  {
    seq(MAX_BITS + 1, len requires 0 <= len => if len == 0 then 0 else Having(lengths, len))
  }

  /** The place of a symbol among the symbols of its length. */
  ghost function Rank(lengths: seq<nat>, symbol: nat): nat
    requires symbol < |lengths|
  {
    Having(lengths[..symbol], lengths[symbol])
  }

  ghost predicate LengthsValid(lengths: seq<nat>)
  {
    |lengths| <= MAX_SYMBOLS && forall i :: 0 <= i < |lengths| ==> lengths[i] <= MAX_BITS
  }

  ghost predicate Used(lengths: seq<nat>, symbol: nat)
  {
    symbol < |lengths| && 0 < lengths[symbol] <= MAX_BITS
  }

  /** The code of a symbol that has one. */
  ghost function Code(lengths: seq<nat>, symbol: nat): (s: BitSeq)
    requires Used(lengths, symbol)
    ensures |s| == lengths[symbol]
  {
    CodeBits(Counts(lengths), lengths[symbol], Rank(lengths, symbol))
  }

  /** The code of `symbol` begins `bits`. */
  ghost predicate Begins(lengths: seq<nat>, symbol: nat, bits: BitSeq)
  {
    Used(lengths, symbol) && Code(lengths, symbol) <= bits
  }

  lemma {:induction false} HavingMonotone(lengths: seq<nat>, len: nat, a: nat, b: nat)
    requires a <= b <= |lengths|
    ensures Having(lengths[..a], len) <= Having(lengths[..b], len)
    ensures a < b && lengths[a] == len ==> Having(lengths[..a], len) < Having(lengths[..b], len)
  {
    if a < b {
      assert lengths[..b][..b - 1] == lengths[..b - 1];
      HavingMonotone(lengths, len, a, b - 1);
    }
  }

  lemma RankBelowCount(lengths: seq<nat>, symbol: nat)
    requires Used(lengths, symbol)
    ensures Rank(lengths, symbol) < Counts(lengths)[lengths[symbol]]
  {
    HavingMonotone(lengths, lengths[symbol], symbol, |lengths|);
    assert lengths[..|lengths|] == lengths;
  }

  /** Two symbols of one length have different places. */
  lemma RankInjective(lengths: seq<nat>, s: nat, t: nat)
    requires s < |lengths| && t < |lengths|
    requires lengths[s] == lengths[t] && Rank(lengths, s) == Rank(lengths, t)
    ensures s == t
  {
    if s < t {
      HavingMonotone(lengths, lengths[s], s, t);
    } else if t < s {
      HavingMonotone(lengths, lengths[s], t, s);
    }
  }

  /** Every place below the count belongs to some symbol. */
  lemma {:induction false} SymbolAt(lengths: seq<nat>, len: nat, j: nat) returns (symbol: nat)
    requires j < Having(lengths, len)
    ensures symbol < |lengths| && lengths[symbol] == len && Rank(lengths, symbol) == j
  {
    var last := |lengths| - 1;
    if j < Having(lengths[..last], len) {
      symbol := SymbolAt(lengths[..last], len, j);
      assert lengths[..last][..symbol] == lengths[..symbol];
    } else {
      symbol := last;
    }
  }

  /** On a code that is not over-subscribed, comparing bits is comparing numbers. */
  lemma BeginsIsMatch(lengths: seq<nat>, symbol: nat, bits: BitSeq)
    requires Used(lengths, symbol) && Kraft(Counts(lengths))
    ensures Begins(lengths, symbol, bits)
       <==> Matches(Counts(lengths), lengths[symbol], Rank(lengths, symbol), bits)
  {
    var counts, len, j := Counts(lengths), lengths[symbol], Rank(lengths, symbol);
    RankBelowCount(lengths, symbol);
    if Matches(counts, len, j, bits) {
      MatchesOnlyCode(counts, len, j, bits);
    }
    if Code(lengths, symbol) <= bits {
      CodeMatches(counts, len, j, bits[len..]);
      assert bits == CodeBits(counts, len, j) + bits[len..];
    }
  }

  /** No bit string begins with the codes of two symbols. */
  lemma SymbolPrefixFree(lengths: seq<nat>, s: nat, t: nat, bits: BitSeq)
    requires Kraft(Counts(lengths)) && Begins(lengths, s, bits) && Begins(lengths, t, bits)
    ensures s == t
  {
    BeginsIsMatch(lengths, s, bits);
    BeginsIsMatch(lengths, t, bits);
    PrefixFree(Counts(lengths), lengths[s], Rank(lengths, s), lengths[t], Rank(lengths, t), bits);
    RankInjective(lengths, s, t);
  }

  /** What decoding one symbol is for: the symbol whose code begins the bits, and the rest. */
  ghost function NextSymbol(lengths: seq<nat>, bits: BitSeq): (r: Option<(nat, BitSeq)>)
    ensures r.Some? ==> r.value.0 < |lengths| && |r.value.1| < |bits|
  {
    if s: nat :| Begins(lengths, s, bits) then Some((s, bits[lengths[s]..])) else None
  }

  /** Encoding and then decoding finds the symbol again, after exactly its length. */
  lemma NextSymbolOfCode(lengths: seq<nat>, symbol: nat, tail: BitSeq)
    requires Used(lengths, symbol) && Kraft(Counts(lengths))
    ensures NextSymbol(lengths, Code(lengths, symbol) + tail) == Some((symbol, tail))
  {
    var bits := Code(lengths, symbol) + tail;
    assert Begins(lengths, symbol, bits);
    SymbolPrefixFree(lengths, symbol, NextSymbol(lengths, bits).value.0, bits);
  }

  /** What is decoded was encoded. */
  lemma CodeOfNextSymbol(lengths: seq<nat>, bits: BitSeq)
    requires NextSymbol(lengths, bits).Some?
    ensures var (s, rest) := NextSymbol(lengths, bits).value;
      Used(lengths, s) && bits == Code(lengths, s) + rest
  {
  }

  /** What the decoder reports: the next symbol, or -1 when there is none. */
  ghost predicate Decoded(lengths: seq<nat>, bits: BitSeq, r: int, rest: BitSeq)
  {
    match NextSymbol(lengths, bits)
    case Some((s, after)) => r == s && rest == after
    case None => r == -1
  }

  // ----- places in the table

  /** Symbols are sorted by length and then by number. */
  ghost function Place(lengths: seq<nat>, s: nat): nat
    requires Used(lengths, s)
  {
    Offset(Counts(lengths), lengths[s]) + Rank(lengths, s)
  }

  lemma {:induction false} OffsetGrows(lengths: seq<nat>, k: nat)
    requires lengths != [] && k <= MAX_BITS + 1
    ensures Offset(Counts(lengths), k)
         == Offset(Counts(lengths[..|lengths| - 1]), k) + if 1 <= lengths[|lengths| - 1] < k then 1 else 0
  {
    if k > 0 {
      OffsetGrows(lengths, k - 1);
    }
  }

  lemma {:induction false} OffsetOfNone(k: nat)
    requires k <= MAX_BITS + 1
    ensures Offset(Counts([]), k) == 0
  {
    if k > 0 {
      OffsetOfNone(k - 1);
    }
  }

  lemma {:induction false} OffsetBound(lengths: seq<nat>, k: nat)
    requires k <= MAX_BITS + 1
    ensures Offset(Counts(lengths), k) <= |lengths|
  {
    if lengths == [] {
      OffsetOfNone(k);
    } else {
      OffsetGrows(lengths, k);
      OffsetBound(lengths[..|lengths| - 1], k);
    }
  }

  lemma PlaceBound(lengths: seq<nat>, s: nat)
    requires Used(lengths, s)
    ensures Place(lengths, s) < |lengths|
  {
    RankBelowCount(lengths, s);
    OffsetMonotone(Counts(lengths), lengths[s], MAX_BITS + 1);
    OffsetBound(lengths, MAX_BITS + 1);
  }

  lemma PlaceInjective(lengths: seq<nat>, s: nat, t: nat)
    requires Used(lengths, s) && Used(lengths, t) && Place(lengths, s) == Place(lengths, t)
    ensures s == t
  {
    RankBelowCount(lengths, s);
    RankBelowCount(lengths, t);
    if lengths[s] < lengths[t] {
      OffsetMonotone(Counts(lengths), lengths[s], lengths[t]);
    } else if lengths[t] < lengths[s] {
      OffsetMonotone(Counts(lengths), lengths[t], lengths[s]);
    } else {
      RankInjective(lengths, s, t);
    }
  }

  /** The first `n` symbols that have codes stand in their places. */
  ghost predicate PlacedBefore(lengths: seq<nat>, table: seq<nat>, n: nat)
  {
    forall s: nat :: s < n && Used(lengths, s) ==> Place(lengths, s) < |table| && table[Place(lengths, s)] == s
  }

  /** The next free place of every length once the first `n` symbols are placed. */
  ghost predicate OffsetsAfter(lengths: seq<nat>, offsets: seq<nat>, n: nat)
  {
    && n <= |lengths| && |offsets| == MAX_BITS + 1
    && forall len: nat :: 1 <= len <= MAX_BITS ==>
         offsets[len] == Offset(Counts(lengths), len) + Having(lengths[..n], len)
  }

  lemma HavingStep(lengths: seq<nat>, i: nat, len: nat)
    requires i < |lengths|
    ensures Having(lengths[..i + 1], len) == Having(lengths[..i], len) + if lengths[i] == len then 1 else 0
  {
    assert lengths[..i + 1][..i] == lengths[..i];
  }

  lemma PlacingStart(lengths: seq<nat>, offsets: seq<nat>, table: seq<nat>)
    requires |offsets| == MAX_BITS + 1
    requires forall len :: 1 <= len <= MAX_BITS ==> offsets[len] == Offset(Counts(lengths), len)
    ensures OffsetsAfter(lengths, offsets, 0) && PlacedBefore(lengths, table, 0)
  {
    assert lengths[..0] == [];
  }

  lemma PlacingStep(lengths: seq<nat>, offsets: seq<nat>, table: seq<nat>, i: nat)
    requires LengthsValid(lengths) && i < |lengths| && |table| == MAX_SYMBOLS
    requires OffsetsAfter(lengths, offsets, i) && PlacedBefore(lengths, table, i)
    ensures lengths[i] == 0 ==> OffsetsAfter(lengths, offsets, i + 1) && PlacedBefore(lengths, table, i + 1)
    ensures lengths[i] != 0 ==>
      var len := lengths[i];
      && offsets[len] < |table|
      && OffsetsAfter(lengths, offsets[len := offsets[len] + 1], i + 1)
      && PlacedBefore(lengths, table[offsets[len] := i], i + 1)
  {
    forall len: nat | 1 <= len <= MAX_BITS
      ensures Having(lengths[..i + 1], len) == Having(lengths[..i], len) + if lengths[i] == len then 1 else 0
    {
      HavingStep(lengths, i, len);
    }
    if lengths[i] != 0 {
      PlaceBound(lengths, i);
      forall s: nat | s < i && Used(lengths, s) ensures Place(lengths, s) != Place(lengths, i) {
        if Place(lengths, s) == Place(lengths, i) {
          PlaceInjective(lengths, s, i);
        }
      }
    }
  }

  // ----- what the decoder's scan finds

  lemma FoundSymbol(lengths: seq<nat>, len: nat, j: nat, bits: BitSeq)
    requires Matches(Counts(lengths), len, j, bits)
    ensures Offset(Counts(lengths), len) + j < |lengths|
    ensures Kraft(Counts(lengths)) ==> NextSymbol(lengths, bits).Some?
    ensures Kraft(Counts(lengths)) ==>
      var (s, rest) := NextSymbol(lengths, bits).value;
      && rest == bits[len..] && Used(lengths, s)
      && Place(lengths, s) == Offset(Counts(lengths), len) + j
  {
    var s := SymbolAt(lengths, len, j);
    PlaceBound(lengths, s);
    if Kraft(Counts(lengths)) {
      BeginsIsMatch(lengths, s, bits);
      SymbolPrefixFree(lengths, s, NextSymbol(lengths, bits).value.0, bits);
    }
  }

  lemma NoSymbol(lengths: seq<nat>, len: nat, bits: BitSeq)
    requires PastLength(Counts(lengths), len, bits) && (len == |bits| || len == MAX_BITS)
    requires Kraft(Counts(lengths))
    ensures NextSymbol(lengths, bits).None?
  {
    NothingLonger(Counts(lengths), len, bits);
    if s: nat :| Begins(lengths, s, bits) {
      BeginsIsMatch(lengths, s, bits);
    }
  }

  lemma OneBit(bits: BitSeq)
    requires bits != []
    ensures LsbValue(bits[..1]) == BitValue(bits[0])
  {
    assert bits[..1][1..] == [];
  }

  /** The decoder's running values after `len` bits that completed no code. */
  ghost predicate Scanned(lengths: seq<nat>, len: nat, bits: BitSeq, code: int, first: int, index: int)
  {
    var counts := Counts(lengths);
    && PastLength(counts, len, bits)
    && code == 2 * MsbValue(bits[..len])
    && first == 2 * (First(counts, len) + counts[len])
    && index == Offset(counts, len + 1)
  }

  lemma ScanStart(lengths: seq<nat>, bits: BitSeq)
    ensures Scanned(lengths, 0, bits, 0, 0, 0)
  {
    PastNothing(Counts(lengths), bits);
  }

  /** The next symbol stands at `place` in the table and its code takes `len` bits. */
  ghost predicate Found(lengths: seq<nat>, bits: BitSeq, len: nat, place: nat)
  {
    && len <= |bits| && NextSymbol(lengths, bits).Some?
    && var (s, rest) := NextSymbol(lengths, bits).value;
       rest == bits[len..] && Used(lengths, s) && Place(lengths, s) == place
  }

  /** One more bit either completes a code or carries the scan on. */
  lemma ScanBit(lengths: seq<nat>, len: nat, bits: BitSeq, code: int, first: int, index: int, bit: nat)
    requires Scanned(lengths, len, bits, code, first, index) && len < MAX_BITS && len < |bits|
    requires bit == LsbValue(bits[len..][..1])
    ensures first <= code + bit
    ensures var n := Counts(lengths)[len + 1];
      if code + bit - n < first
      then var place := index + (code + bit - first);
           place < |lengths| && (Kraft(Counts(lengths)) ==> Found(lengths, bits, len + 1, place))
      else Scanned(lengths, len + 1, bits, 2 * (code + bit), 2 * (first + n), index + n)
  {
    OneBit(bits[len..]);
    MsbValueGrows(bits, len);
    ScanStep(Counts(lengths), len, bits);
    if code + bit - Counts(lengths)[len + 1] < first {
      FoundSymbol(lengths, len + 1, code + bit - first, bits);
    }
  }

  // ----- the table

  class Huffman {
    const count: array<nat>
    const symbol: array<nat>

    ghost predicate Shaped()
    {
      count.Length == MAX_BITS + 1 && symbol.Length == MAX_SYMBOLS
    }

    /** The counts are those of `lengths`, whether or not the symbols were filled in. */
    ghost predicate Counted(lengths: seq<nat>)
      reads count
    {
      Shaped() && LengthsValid(lengths) && count[..] == Counts(lengths)
    }

    /** A complete table: each used symbol stands in its place. */
    ghost predicate Represents(lengths: seq<nat>)
      reads count, symbol
    {
      Counted(lengths) && Kraft(Counts(lengths)) && PlacedBefore(lengths, symbol[..], |lengths|)
    }

    constructor ()
      ensures Shaped() && fresh(count) && fresh(symbol)
    {
      count := new nat[MAX_BITS + 1];
      symbol := new nat[MAX_SYMBOLS];
    }

    /** `huffman_build`: succeeds exactly when the lengths are not over-subscribed, and then
        the table stands for their canonical code. */
    method Build(lengths: seq<nat>) returns (ok: bool)
      requires Shaped() && LengthsValid(lengths)
      modifies count, symbol
      ensures Counted(lengths)
      ensures ok <==> Kraft(Counts(lengths))
      ensures ok ==> Represents(lengths)
    {
      hide Having, Left;
      CountLengths(lengths);
      LeftStart(Counts(lengths));
      var left: int := 1;
      for i := 1 to MAX_BITS + 1
        invariant count[..] == Counts(lengths)
        invariant left == Left(Counts(lengths), i - 1) >= 0
        invariant KraftBelow(Counts(lengths), i)
      {
        assert count[i] == Counts(lengths)[i];
        LeftStep(Counts(lengths), i);
        left := 2 * left - count[i];
        if left < 0 {
          assert Left(Counts(lengths), i) < 0;
          return false;
        }
      }
      PlaceSymbols(lengths);
      ok := true;
    }

    method CountLengths(lengths: seq<nat>)
      requires Shaped() && LengthsValid(lengths)
      modifies count
      ensures count[..] == Counts(lengths)
    {
      for i := 0 to MAX_BITS + 1
        invariant forall len :: 0 <= len < i ==> count[len] == 0
      {
        count[i] := 0;
      }
      for i := 0 to |lengths|
        invariant forall len :: 0 <= len <= MAX_BITS ==> count[len] == Having(lengths[..i], len)
      {
        assert lengths[..i + 1][..i] == lengths[..i];
        count[lengths[i]] := count[lengths[i]] + 1;
      }
      assert lengths[..|lengths|] == lengths;
      count[0] := 0;
    }

    method PlaceSymbols(lengths: seq<nat>)
      requires Counted(lengths) && Kraft(Counts(lengths))
      modifies symbol
      ensures Represents(lengths)
    {
      hide Having, Counts, OffsetsAfter, PlacedBefore, Kraft;
      var offsets := new nat[MAX_BITS + 1];
      offsets[1] := 0;
      assert Offset(Counts(lengths), 1) == 0;
      for i := 1 to MAX_BITS
        invariant forall len :: 1 <= len <= i ==> offsets[len] == Offset(Counts(lengths), len)
      {
        assert count[i] == count[..][i];
        offsets[i + 1] := offsets[i] + count[i];
      }
      PlacingStart(lengths, offsets[..], symbol[..]);
      for i := 0 to |lengths|
        invariant OffsetsAfter(lengths, offsets[..], i)
        invariant PlacedBefore(lengths, symbol[..], i)
      {
        PlacingStep(lengths, offsets[..], symbol[..], i);
        if lengths[i] != 0 {
          symbol[offsets[lengths[i]]] := i;
          offsets[lengths[i]] := offsets[lengths[i]] + 1;
        }
      }
    }

    /** `huffman_decode`: the symbol whose code begins the remaining bits, consuming exactly
        that code, or -1 when no code does or an earlier read already failed. */
    method Decode(b: BitReader, ghost lengths: seq<nat>) returns (r: int)
      requires Counted(lengths) && b.Valid()
      modifies b
      ensures b.Valid() && -1 <= r
      ensures old(b.error) ==> r == -1
      ensures r >= 0 ==> !b.error && |b.rest| < |old(b.rest)|
      ensures Represents(lengths) && !old(b.error) ==> Decoded(lengths, old(b.rest), r, b.rest)
    {
      hide Having, High, Low, LsbValue, ByteBits, Counts, Kraft, First, Offset, MsbValue;
      var code: int, first: int, index: int := 0, 0, 0;
      ghost var bits := b.rest;
      ScanStart(lengths, bits);
      for len := 1 to MAX_BITS + 1
        invariant b.Valid() && b.error == old(b.error) && (1 < len ==> !b.error)
        invariant Scanned(lengths, len - 1, bits, code, first, index) && b.rest == bits[len - 1..]
      {
        if len - 1 == |bits| && Kraft(Counts(lengths)) {
          NoSymbol(lengths, len - 1, bits);
        }
        var bit := b.Take(1);
        if b.error {
          return -1;
        }
        ScanBit(lengths, len - 1, bits, code, first, index, bit);
        code := code + bit;
        var n: int := count[len];
        assert n == count[..][len];
        if code - n < first {
          return symbol[index + (code - first)];
        }
        index := index + n;
        first := first + n;
        first := 2 * first;
        code := 2 * code;
      }
      if Kraft(Counts(lengths)) {
        NoSymbol(lengths, MAX_BITS, bits);
      }
      r := -1;
    }
  }
}
