/** JPEG's Huffman tables: the codes of each length and the values in the order of their codes
    (Annex C and section F.2.2.3 of ITU-T T.81; models/image_decode.c, `jpeg_huffman` and
    `jpeg_decode`). The code is the canonical code of DEFLATE, found by other arithmetic. */
module JpegHuffman {
  import opened BitStreams
  import opened CanonicalCodes
  import opened JpegBits
  import H = HuffmanTables

  const LONGEST: nat := 16

  /** What a DHT segment carries. The decoder keeps room for 256 values. */
  datatype Table = Table(counts: seq<nat>, values: seq<Byte>)
  {
    ghost predicate Shaped() { |counts| == LONGEST + 1 && IsCounts(counts) && |values| == 256 }

    /** The `j`-th code of `len` bits stands for `value`. */
    ghost predicate Means(len: nat, j: nat, value: Byte)
      requires Shaped()
    {
      1 <= len <= LONGEST && j < counts[len] && Offset(counts, len) + j < 256 && values[Offset(counts, len) + j] == value
    }

    ghost predicate HasCode(value: Byte)
      requires Shaped()
    {
      exists len: nat, j: nat :: Means(len, j, value)
    }

    /** The code an encoder writes for a value. */
    ghost function Code(value: Byte): (s: BitSeq)
      requires Shaped() && HasCode(value)
      ensures 1 <= |s| <= LONGEST
    {
      var len: nat, j: nat :| Means(len, j, value);
      CodeBits(counts, len, j)
    }
  }

  /** The first code, looking from `len + 1` bits on, that begins the bits. */
  ghost function Scan(counts: seq<nat>, len: nat, bits: BitSeq): (r: Option<(nat, nat)>)
    requires len < |counts| && |counts| <= |bits| + 1
    ensures r.Some? ==> Matches(counts, r.value.0, r.value.1, bits)
    decreases |counts| - len
  {
    if len + 1 == |counts| then None
    else
      var v := MsbValue(bits[..len + 1]);
      if First(counts, len + 1) <= v < First(counts, len + 1) + counts[len + 1]
      then Some((len + 1, v - First(counts, len + 1)))
      else Scan(counts, len + 1, bits)
  }

  /** The scan finds whatever code begins the bits, over-subscribed or not. */
  lemma {:induction false} ScanFinds(counts: seq<nat>, len: nat, bits: BitSeq, l: nat, j: nat)
    requires len < |counts| && |counts| <= |bits| + 1 && len < l && Matches(counts, l, j, bits)
    ensures Scan(counts, len, bits) == Some((l, j))
    decreases |counts| - len
  {
    var v := MsbValue(bits[..len + 1]);
    if First(counts, len + 1) <= v < First(counts, len + 1) + counts[len + 1] {
      PrefixFree(counts, len + 1, v - First(counts, len + 1), l, j, bits);
    } else {
      assert l != len + 1;
      ScanFinds(counts, len + 1, bits, l, j);
    }
  }

  /** What reading one value gives: the value or -1, and how many bits it took. */
  ghost function ValueFrom(t: Table, all: BitSeq, pos: nat): (r: (int, nat))
    requires t.Shaped()
    ensures -1 <= r.0 < 256 && r.1 <= pos + LONGEST && pos < r.1
  {
    match Scan(t.counts, 0, Window(all, pos, LONGEST))
    case None => (-1, pos + LONGEST)
    case Some((len, j)) =>
      (if Offset(t.counts, len) + j < 256 then t.values[Offset(t.counts, len) + j] else -1, pos + len)
  }

  /** Reading the code of a value gives the value after exactly its bits. */
  lemma ValueRoundTrip(t: Table, value: Byte, all: BitSeq, pos: nat)
    requires t.Shaped() && Kraft(t.counts) && t.HasCode(value) && At(all, pos, t.Code(value))
    ensures ValueFrom(t, all, pos) == (value, pos + |t.Code(value)|)
  {
    hide First, Kraft, High, Offset;
    var code := t.Code(value);
    var len: nat, j: nat :| t.Means(len, j, value) && code == CodeBits(t.counts, len, j);
    var bits := Window(all, pos, LONGEST);
    WindowAt(all, pos, code);
    WindowPrefix(all, pos, len, LONGEST);
    assert |CodeBits(t.counts, len, j)| == len;
    assert bits == bits[..len] + bits[len..];
    CodeMatches(t.counts, len, j, bits[len..]);
    ScanFinds(t.counts, 0, bits, len, j);
  }

  /** The same code described as DEFLATE and as JPEG describe it: the lengths of the symbols, and
      the symbols sorted by length and then by number. */
  ghost predicate SameCode(lengths: seq<nat>, t: Table)
    requires t.Shaped()
  {
    && |lengths| <= 256 && H.LengthsValid(lengths) && t.counts == H.Counts(lengths) + [0]
    && forall s: nat :: H.Used(lengths, s) ==> H.Place(lengths, s) < 256 && t.values[H.Place(lengths, s)] == s
  }

  lemma {:induction false} LongerCounts(counts: seq<nat>, len: nat)
    requires len < |counts|
    ensures First(counts + [0], len) == First(counts, len) && Offset(counts + [0], len) == Offset(counts, len)
  {
    if len > 0 {
      LongerCounts(counts, len - 1);
    }
  }

  /** Both decoders compute the same function: on the same code and the same bits, the
      count/first/index scan of DEFLATE and the max_code/val_offset scan of JPEG find the same
      symbol after the same number of bits, or neither finds one. */
  lemma SameSymbol(lengths: seq<nat>, t: Table, all: BitSeq, pos: nat)
    requires t.Shaped() && SameCode(lengths, t) && Kraft(H.Counts(lengths))
    ensures var bits := Window(all, pos, LONGEST);
      match H.NextSymbol(lengths, bits)
      case Some((s, rest)) => ValueFrom(t, all, pos) == (s, pos + LONGEST - |rest|)
      case None => ValueFrom(t, all, pos).0 == -1
  {
    hide First, Kraft, High, Offset, H.Counts, H.Having, MsbValue, H.Rank;
    var bits, counts := Window(all, pos, LONGEST), H.Counts(lengths);
    match H.NextSymbol(lengths, bits)
    case Some((s, rest)) => {
      H.BeginsIsMatch(lengths, s, bits);
      LongerCounts(counts, lengths[s]);
      assert Matches(t.counts, lengths[s], H.Rank(lengths, s), bits);
      ScanFinds(t.counts, 0, bits, lengths[s], H.Rank(lengths, s));
    }
    case None => {
      var found := Scan(t.counts, 0, bits);
      if found.Some? {
        var (len, j) := found.value;
        assert len < |counts|;
        LongerCounts(counts, len);
        HavingIsCount(lengths, len);
        var s := H.SymbolAt(lengths, len, j);
        H.BeginsIsMatch(lengths, s, bits);
      }
    }
  }

  lemma HavingIsCount(lengths: seq<nat>, len: nat)
    requires 1 <= len <= H.MAX_BITS
    ensures H.Counts(lengths)[len] == H.Having(lengths, len)
  {
  }

  // ----- the decoder

  class JpegTable {
    var table: Table
    var present: bool
    const maxCode: array<int>
    const valOffset: array<int>

    ghost predicate Valid()
      reads this, maxCode, valOffset
    {
      Sized() && (present ==> BuiltTo(LONGEST + 1))
    }

    ghost predicate Sized()
      reads this
    {
      table.Shaped() && maxCode.Length == LONGEST + 2 && valOffset.Length == LONGEST + 1
    }

    /** The numbers `jpeg_huffman` derives. */
    ghost predicate BuiltTo(n: nat)
      requires Sized() && n <= LONGEST + 1
      reads this, maxCode, valOffset
    {
      forall len :: 1 <= len < n ==>
        && valOffset[len] == Offset(table.counts, len) - First(table.counts, len)
        && maxCode[len] == if table.counts[len] > 0 then First(table.counts, len) + table.counts[len] - 1 else -1
    }

    /** No DHT segment was seen yet. */
    constructor ()
      ensures Valid() && !present && fresh(maxCode) && fresh(valOffset)
    {
      table := Table(seq(LONGEST + 1, _ => 0), seq(256, _ => 0));
      present := false;
      maxCode := new int[LONGEST + 2];
      valOffset := new int[LONGEST + 1];
    }

    /** A DHT segment: `jpeg_huffman` on what it carries. */
    method Define(t: Table)
      requires Valid() && t.Shaped()
      modifies this`table, this`present, maxCode, valOffset
      ensures Valid() && present && table == t
    {
      hide First, Offset;
      table := t;
      present := false;
      var code: int, k: int := 0, 0;
      StartOfCodes(t.counts);
      for len := 1 to LONGEST + 1
        invariant Sized() && table == t && BuiltTo(len)
        invariant k == Offset(t.counts, len) && (len <= LONGEST ==> code == First(t.counts, len))
      {
        StepOfCodes(t.counts, len);
        valOffset[len] := k - code;
        if t.counts[len] != 0 {
          code := code + t.counts[len];
          k := k + t.counts[len];
          maxCode[len] := code - 1;
        } else {
          maxCode[len] := -1;
        }
        code := 2 * code;
      }
      maxCode[17] := 0x7fffffff;
      present := true;
    }

    /** `jpeg_decode`. */
    method Decode(r: EntropyReader) returns (value: int)
      requires Valid() && present && r.Valid()
      modifies r
      ensures r.Valid() && (value, r.pos) == ValueFrom(table, r.all, old(r.pos))
    {
      hide First, Offset, Window, MsbValue, EntropyReader.Valid, PastLength, Scan;
      var code := 0;
      ghost var bits := Window(r.all, r.pos, LONGEST);
      WindowNone(r.all, r.pos);
      PastNothing(table.counts, bits);
      for len := 1 to LONGEST + 1
        invariant r.Valid() && r.pos == old(r.pos) + len - 1
        invariant PastLength(table.counts, len - 1, bits) && code == MsbValue(Window(r.all, old(r.pos), len - 1))
        invariant Scan(table.counts, len - 1, bits) == Scan(table.counts, 0, bits)
      {
        WindowGrows(r.all, old(r.pos), len - 1);
        WindowPrefix(r.all, old(r.pos), len, LONGEST);
        ScanStep(table.counts, len - 1, bits);
        ScanUnfolds(table.counts, len - 1, bits);
        var bit := r.Bit();
        code := 2 * code + bit;
        if code <= maxCode[len] {
          var index := valOffset[len] + code;
          return if index >= 0 && index < 256 then table.values[index] else -1;
        }
      }
      ScanUnfolds(table.counts, LONGEST, bits);
      value := -1;
    }
  }

  lemma StartOfCodes(counts: seq<nat>)
    requires 1 < |counts| && IsCounts(counts)
    ensures First(counts, 1) == 0 && Offset(counts, 1) == 0
  {
  }

  lemma StepOfCodes(counts: seq<nat>, len: nat)
    requires len < |counts|
    ensures Offset(counts, len + 1) == Offset(counts, len) + counts[len]
    ensures len + 1 < |counts| ==> First(counts, len + 1) == 2 * (First(counts, len) + counts[len])
  {
  }

  lemma WindowPrefix(all: BitSeq, pos: nat, n: nat, m: nat)
    requires n <= m
    ensures Window(all, pos, m)[..n] == Window(all, pos, n)
  {
  }

  lemma ScanUnfolds(counts: seq<nat>, len: nat, bits: BitSeq)
    requires len < |counts| && |counts| <= |bits| + 1
    ensures Scan(counts, len, bits) ==
      if len + 1 == |counts| then None
      else
        var v := MsbValue(bits[..len + 1]);
        if First(counts, len + 1) <= v < First(counts, len + 1) + counts[len + 1]
        then Some((len + 1, v - First(counts, len + 1)))
        else Scan(counts, len + 1, bits)
  {
  }
}
