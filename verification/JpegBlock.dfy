/** One block of a baseline JPEG scan (sections F.1.2 and F.2.2 of ITU-T T.81): the difference of
    its first coefficient and the run lengths of the others (models/image_decode.c,
    `jpeg_extend` and `jpeg_block`). */
module JpegBlocks {
  import opened BitStreams
  import opened CanonicalCodes
  import opened JpegBits
  import opened JpegHuffman
  import opened Zigzag

  // ----- signed numbers

  function Abs(v: int): nat { if v < 0 then -v else v }

  function Digits(v: nat): nat { if v == 0 then 0 else 1 + Digits(v / 2) }

  /** How many bits the size of a coefficient takes. */
  function Category(v: int): nat { Digits(Abs(v)) }

  /** The bits after the category, as a number (section F.1.2.1.1): a negative number is written
      one less, in two's complement. */
  function Magnitude(v: int): int { if v < 0 then v + Pow2(Category(v)) - 1 else v }

  /** `jpeg_extend`. */
  function Extend(value: nat, n: nat): int
  {
    if n == 0 then 0 else if value < Pow2(n - 1) then value - Pow2(n) + 1 else value
  }

  lemma {:induction false} DigitsBound(v: nat)
    ensures v < Pow2(Digits(v)) && (0 < v ==> 0 < Digits(v) && Pow2(Digits(v) - 1) <= v)
  {
    if v > 0 {
      DigitsBound(v / 2);
    }
  }

  lemma {:induction false} DigitsAre(v: nat, n: nat)
    requires v < Pow2(n) && (0 < n ==> Pow2(n - 1) <= v)
    ensures Digits(v) == n
  {
    if n > 0 {
      if n > 1 {
        assert Pow2(n - 1) == 2 * Pow2(n - 2);
      }
      DigitsAre(v / 2, n - 1);
    }
  }

  lemma PowerHalves(n: nat)
    requires 0 < n
    ensures Pow2(n) == 2 * Pow2(n - 1)
  {
  }

  /** Extending undoes the coding of a coefficient. */
  lemma ExtendOfMagnitude(v: int)
    ensures 0 <= Magnitude(v) < Pow2(Category(v)) && Extend(Magnitude(v), Category(v)) == v
  {
    hide Pow2, Digits;
    DigitsBound(Abs(v));
    if v != 0 {
      PowerHalves(Category(v));
    } else {
      DigitsAre(0, 0) by { PowerOfNone(); }
    }
  }

  lemma PowerOfNone()
    ensures Pow2(0) == 1
  {
  }

  /** Every bit pattern is the coding of one coefficient of that category. */
  lemma MagnitudeOfExtend(m: nat, n: nat)
    requires m < Pow2(n)
    ensures Category(Extend(m, n)) == n && Magnitude(Extend(m, n)) == m
  {
    hide Pow2, Digits;
    PowerOfNone();
    if n > 0 {
      PowerHalves(n);
    }
    DigitsAre(Abs(Extend(m, n)), n);
  }

  /** Numbers of up to three bits (table F.1 of ITU-T T.81): those that begin with a one are
      positive, the others negative, in the order of their bits. */
  lemma SmallNumbers()
    ensures Extend(0, 1) == -1 && Extend(1, 1) == 1
    ensures Extend(0, 2) == -3 && Extend(1, 2) == -2 && Extend(2, 2) == 2 && Extend(3, 2) == 3
    ensures Extend(0, 3) == -7 && Extend(3, 3) == -4 && Extend(4, 3) == 4 && Extend(7, 3) == 7
    ensures Extend(0, 0) == 0
  {
    assert Pow2(1) == 2 && Pow2(2) == 4 && Pow2(3) == 8;
  }

  // ----- one block, as bits

  /** How many zeros stand from place `k` on. */
  ghost function Run(coefs: seq<int>, k: nat): (r: nat)
    requires k <= |coefs|
    ensures k + r <= |coefs| && (forall i :: k <= i < k + r ==> coefs[i] == 0)
    ensures k + r < |coefs| ==> coefs[k + r] != 0
    decreases |coefs| - k
  {
    if k == |coefs| || coefs[k] != 0 then 0 else 1 + Run(coefs, k + 1)
  }

  /** A symbol's code and then the bits of a number. */
  ghost function Coded(t: Table, symbol: Byte, v: int): (s: Option<BitSeq>)
    requires t.Shaped()
  {
    if !t.HasCode(symbol) then None else ExtendOfMagnitude(v); Some(t.Code(symbol) + High(Magnitude(v), Category(v)))
  }

  ghost function Joined(a: Option<BitSeq>, b: Option<BitSeq>): Option<BitSeq>
  {
    if a.None? || b.None? then None else Some(a.value + b.value)
  }

  /** The coefficients from place `k` on (section F.1.2.2): runs of zeros and the coefficients
      that end them, or nothing when the table has no code for what is needed. */
  ghost function AcBits(t: Table, coefs: seq<int>, k: nat): Option<BitSeq>
    requires t.Shaped() && k <= |coefs|
    decreases |coefs| - k
  {
    var r := Run(coefs, k);
    if k == |coefs| then Some([])
    else if k + r == |coefs| then Coded(t, 0, 0)
    else if 16 <= r then Joined(Coded(t, 0xF0, 0), AcBits(t, coefs, k + 16))
    else if 15 < Category(coefs[k + r]) then None
    else Joined(Coded(t, 16 * r + Category(coefs[k + r]), coefs[k + r]), AcBits(t, coefs, k + r + 1))
  }

  /** A block after one whose first coefficient was `pred`. */
  ghost function BlockBits(dc: Table, ac: Table, pred: int, coefs: seq<int>): Option<BitSeq>
    requires dc.Shaped() && ac.Shaped() && |coefs| == 64
  {
    if 11 < Category(coefs[0] - pred) then None
    else Joined(Coded(dc, Category(coefs[0] - pred), coefs[0] - pred), AcBits(ac, coefs, 1))
  }

  // ----- and back

  /** A number of `n` bits from place `pos`. */
  ghost function NumberFrom(all: BitSeq, pos: nat, n: nat): int { Extend(MsbValue(Window(all, pos, n)), n) }

  /** The coefficients from place `k` on, put into `coefs`. */
  ghost function AcFrom(t: Table, all: BitSeq, pos: nat, k: nat, coefs: seq<int>): (r: Option<(seq<int>, nat)>)
    requires t.Shaped() && |coefs| == 64
    ensures r.Some? ==> |r.value.0| == 64
    decreases 64 - k
  {
    if 64 <= k then Some((coefs, pos))
    else
      var (rs, next) := ValueFrom(t, all, pos);
      if rs < 0 then None
      else if rs % 16 == 0 then if rs / 16 != 15 then Some((coefs, next)) else AcFrom(t, all, next, k + 16, coefs)
      else if 63 < k + rs / 16 then None
      else AcFrom(t, all, next + rs % 16, k + rs / 16 + 1, coefs[k + rs / 16 := NumberFrom(all, next, rs % 16)])
  }

  function Zeros(): (coefs: seq<int>)
    ensures |coefs| == 64
  {
    seq(64, _ => 0)
  }

  /** A block: its coefficients in the order of the stream, and where it ends. */
  ghost function BlockFrom(dc: Table, ac: Table, pred: int, all: BitSeq, pos: nat): (r: Option<(seq<int>, nat)>)
    requires dc.Shaped() && ac.Shaped()
    ensures r.Some? ==> |r.value.0| == 64
  {
    var (t, next) := ValueFrom(dc, all, pos);
    if t < 0 || 11 < t then None
    else AcFrom(ac, all, next + t, 1, Zeros()[0 := pred + NumberFrom(all, next, t)])
  }

  /** Reading a code and a number gives both. */
  lemma CodedRoundTrip(t: Table, symbol: Byte, v: int, all: BitSeq, pos: nat)
    requires t.Shaped() && Kraft(t.counts) && Coded(t, symbol, v).Some? && At(all, pos, Coded(t, symbol, v).value)
    ensures var next := pos + |t.Code(symbol)|;
      && ValueFrom(t, all, pos) == (symbol, next)
      && NumberFrom(all, next, Category(v)) == v
      && next + Category(v) == pos + |Coded(t, symbol, v).value|
  {
    hide Kraft, High, MsbValue, Magnitude, Category, Extend, ValueFrom, Window, At;
    ExtendOfMagnitude(v);
    var number := High(Magnitude(v), Category(v));
    AtParts(all, pos, t.Code(symbol), number);
    ValueRoundTrip(t, symbol, all, pos);
    WindowAt(all, pos + |t.Code(symbol)|, number);
    MsbValueOfHigh(Magnitude(v), Category(v));
  }

  /** `coefs` up to place `k`, and zeros. */
  ghost function Upto(coefs: seq<int>, k: nat): (s: seq<int>)
    requires |coefs| == 64
    ensures |s| == 64
  {
    seq(64, i requires 0 <= i < 64 => if i < k then coefs[i] else 0)
  }

  lemma UptoGrows(coefs: seq<int>, k: nat, m: nat)
    requires |coefs| == 64 && k <= m && forall i :: k <= i < m && i < 64 ==> coefs[i] == 0
    ensures Upto(coefs, k) == Upto(coefs, m) && (64 <= m ==> Upto(coefs, m) == coefs)
  {
    assert 64 <= m ==> Upto(coefs, m) == coefs;
  }

  lemma UptoNext(coefs: seq<int>, k: nat)
    requires |coefs| == 64 && k < 64
    ensures Upto(coefs, k)[k := coefs[k]] == Upto(coefs, k + 1)
  {
  }

  lemma RunAndCategory(r: nat, c: nat)
    requires c < 16
    ensures (16 * r + c) / 16 == r && (16 * r + c) % 16 == c
  {
  }

  lemma AcUnfolds(t: Table, all: BitSeq, pos: nat, k: nat, coefs: seq<int>)
    requires t.Shaped() && |coefs| == 64
    ensures 64 <= k ==> AcFrom(t, all, pos, k, coefs) == Some((coefs, pos))
    ensures k < 64 ==>
      var (rs, next) := ValueFrom(t, all, pos);
      AcFrom(t, all, pos, k, coefs) ==
      if rs < 0 then None
      else if rs % 16 == 0 then if rs / 16 != 15 then Some((coefs, next)) else AcFrom(t, all, next, k + 16, coefs)
      else if 63 < k + rs / 16 then None
      else AcFrom(t, all, next + rs % 16, k + rs / 16 + 1, coefs[k + rs / 16 := NumberFrom(all, next, rs % 16)])
  {
    hide ValueFrom, NumberFrom;
  }

  /** What a symbol read at place `k` says: its upper half is a run of zeros and its lower half the
      size of the coefficient behind it; 0xF0 are sixteen zeros, and the other symbols of size 0 end
      the block. */
  lemma AcSymbols(t: Table, all: BitSeq, pos: nat, k: nat, coefs: seq<int>, run: nat, size: nat, next: nat)
    requires t.Shaped() && |coefs| == 64 && k < 64 && run < 16 && size < 16 && ValueFrom(t, all, pos) == (16 * run + size, next)
    ensures size == 0 && run < 15 ==> AcFrom(t, all, pos, k, coefs) == Some((coefs, next))
    ensures size == 0 && run == 15 ==> AcFrom(t, all, pos, k, coefs) == AcFrom(t, all, next, k + 16, coefs)
    ensures size > 0 && k + run > 63 ==> AcFrom(t, all, pos, k, coefs) == None
    ensures size > 0 && k + run <= 63 ==>
      AcFrom(t, all, pos, k, coefs) ==
      AcFrom(t, all, next + size, k + run + 1, coefs[k + run := Extend(MsbValue(Window(all, next, size)), size)])
  {
    hide ValueFrom, Extend, MsbValue, Window;
    RunAndCategory(run, size);
    AcUnfolds(t, all, pos, k, coefs);
  }

  /** The first symbol of a block is the size of a difference, of up to eleven bits, to the last first
      coefficient. */
  lemma DcSymbol(dc: Table, ac: Table, pred: int, all: BitSeq, pos: nat, size: int, next: nat)
    requires dc.Shaped() && ac.Shaped() && ValueFrom(dc, all, pos) == (size, next)
    ensures size < 0 || size > 11 ==> BlockFrom(dc, ac, pred, all, pos) == None
    ensures 0 <= size <= 11 ==>
      var first := pred + Extend(MsbValue(Window(all, next, size)), size);
      BlockFrom(dc, ac, pred, all, pos) == AcFrom(ac, all, next + size, 1, [first] + seq(63, _ => 0))
  {
    hide ValueFrom, Extend, MsbValue, Window, AcFrom;
    if 0 <= size <= 11 {
      var first := pred + Extend(MsbValue(Window(all, next, size)), size);
      assert Zeros()[0 := first] == [first] + seq(63, _ => 0);
    }
  }

  lemma AcBitsUnfold(t: Table, coefs: seq<int>, k: nat)
    requires t.Shaped() && k <= |coefs|
    ensures var r := Run(coefs, k);
      AcBits(t, coefs, k) ==
      if k == |coefs| then Some([])
      else if k + r == |coefs| then Coded(t, 0, 0)
      else if 16 <= r then Joined(Coded(t, 0xF0, 0), AcBits(t, coefs, k + 16))
      else if 15 < Category(coefs[k + r]) then None
      else Joined(Coded(t, 16 * r + Category(coefs[k + r]), coefs[k + r]), AcBits(t, coefs, k + r + 1))
  {
    hide Coded, Category, Table.Shaped;
  }

  lemma {:induction false} AcRoundTrip(t: Table, coefs: seq<int>, k: nat, all: BitSeq, pos: nat)
    requires t.Shaped() && Kraft(t.counts) && |coefs| == 64 && k <= 64
    requires AcBits(t, coefs, k).Some? && At(all, pos, AcBits(t, coefs, k).value)
    ensures AcFrom(t, all, pos, k, Upto(coefs, k)) == Some((coefs, pos + |AcBits(t, coefs, k).value|))
    decreases 64 - k
  {
    hide Kraft, NumberFrom, Category, Run, ValueFrom, At, Coded, Upto, Table.Shaped, AcFrom, AcBits;
    AcBitsUnfold(t, coefs, k);
    AcUnfolds(t, all, pos, k, Upto(coefs, k));
    var r := Run(coefs, k);
    if k == 64 {
      UptoGrows(coefs, k, 64);
    } else if k + r == 64 {
      CodedRoundTrip(t, 0, 0, all, pos);
      CategoryOfZero();
      UptoGrows(coefs, k, 64);
    } else if 16 <= r {
      var code, more := Coded(t, 0xF0, 0), AcBits(t, coefs, k + 16);
      AtParts(all, pos, code.value, more.value);
      CodedRoundTrip(t, 0xF0, 0, all, pos);
      CategoryOfZero();
      UptoGrows(coefs, k, k + 16);
      AcRoundTrip(t, coefs, k + 16, all, pos + |code.value|);
    } else {
      var v := coefs[k + r];
      var code, more := Coded(t, 16 * r + Category(v), v), AcBits(t, coefs, k + r + 1);
      AtParts(all, pos, code.value, more.value);
      CodedRoundTrip(t, 16 * r + Category(v), v, all, pos);
      RunAndCategory(r, Category(v));
      CategoryOfZero();
      UptoGrows(coefs, k, k + r);
      UptoNext(coefs, k + r);
      AcRoundTrip(t, coefs, k + r + 1, all, pos + |code.value|);
    }
  }

  lemma CategoryOfZero()
    ensures Category(0) == 0 && forall v: int :: v != 0 ==> 0 < Category(v)
  {
  }

  /** Every block an encoder can write is read back, after exactly its bits. */
  lemma BlockRoundTrip(dc: Table, ac: Table, pred: int, coefs: seq<int>, all: BitSeq, pos: nat)
    requires dc.Shaped() && ac.Shaped() && Kraft(dc.counts) && Kraft(ac.counts) && |coefs| == 64
    requires BlockBits(dc, ac, pred, coefs).Some? && At(all, pos, BlockBits(dc, ac, pred, coefs).value)
    ensures BlockFrom(dc, ac, pred, all, pos) == Some((coefs, pos + |BlockBits(dc, ac, pred, coefs).value|))
  {
    hide Kraft, NumberFrom, Category, ValueFrom, At, Coded, AcFrom, AcBits;
    var d := coefs[0] - pred;
    var code, more := Coded(dc, Category(d), d), AcBits(ac, coefs, 1);
    AtParts(all, pos, code.value, more.value);
    CodedRoundTrip(dc, Category(d), d, all, pos);
    assert Zeros()[0 := pred + d] == Upto(coefs, 1);
    AcRoundTrip(ac, coefs, 1, all, pos + |code.value|);
  }

  // ----- the blocks of a scan, whose components take turns

  datatype Component = Component(dc: Table, ac: Table)
  {
    ghost predicate Valid() { dc.Shaped() && ac.Shaped() && Kraft(dc.counts) && Kraft(ac.counts) }
  }

  /** `turns[i]` is the component of the `i`-th block. */
  ghost predicate Turns(components: seq<Component>, preds: seq<int>, turns: seq<nat>)
  {
    && |preds| == |components|
    && (forall c :: 0 <= c < |components| ==> components[c].Valid())
    && forall i :: 0 <= i < |turns| ==> turns[i] < |components|
  }

  ghost predicate Blocks(turns: seq<nat>, blocks: seq<seq<int>>)
  {
    |turns| == |blocks| && forall i :: 0 <= i < |blocks| ==> |blocks[i]| == 64
  }

  ghost function ScanBits(components: seq<Component>, preds: seq<int>, turns: seq<nat>, blocks: seq<seq<int>>): Option<BitSeq>
    requires Turns(components, preds, turns) && Blocks(turns, blocks)
    decreases |turns|
  {
    if turns == [] then Some([])
    else
      var c, coefs := turns[0], blocks[0];
      Joined(BlockBits(components[c].dc, components[c].ac, preds[c], coefs),
             ScanBits(components, preds[c := coefs[0]], turns[1..], blocks[1..]))
  }

  /** Each block is read with its component's running prediction. */
  ghost function ScanFrom(components: seq<Component>, preds: seq<int>, turns: seq<nat>, all: BitSeq, pos: nat)
    : (r: Option<(seq<seq<int>>, nat)>)
    requires Turns(components, preds, turns)
    decreases |turns|
  {
    if turns == [] then Some(([], pos))
    else
      var c := turns[0];
      match BlockFrom(components[c].dc, components[c].ac, preds[c], all, pos)
      case None => None
      case Some((coefs, next)) =>
        match ScanFrom(components, preds[c := coefs[0]], turns[1..], all, next)
        case None => None
        case Some((more, end)) => Some(([coefs] + more, end))
  }

  lemma {:induction false} BlocksRoundTrip(
    components: seq<Component>, preds: seq<int>, turns: seq<nat>, blocks: seq<seq<int>>, all: BitSeq, pos: nat)
    requires Turns(components, preds, turns) && Blocks(turns, blocks)
    requires ScanBits(components, preds, turns, blocks).Some? && At(all, pos, ScanBits(components, preds, turns, blocks).value)
    ensures ScanFrom(components, preds, turns, all, pos)
         == Some((blocks, pos + |ScanBits(components, preds, turns, blocks).value|))
    decreases |turns|
  {
    hide Kraft, BlockBits, BlockFrom, Table.Shaped, At;
    if turns != [] {
      var c, coefs := turns[0], blocks[0];
      var bits := BlockBits(components[c].dc, components[c].ac, preds[c], coefs);
      var more := ScanBits(components, preds[c := coefs[0]], turns[1..], blocks[1..]);
      AtParts(all, pos, bits.value, more.value);
      BlockRoundTrip(components[c].dc, components[c].ac, preds[c], coefs, all, pos);
      BlocksRoundTrip(components, preds[c := coefs[0]], turns[1..], blocks[1..], all, pos + |bits.value|);
      assert blocks == [coefs] + blocks[1..];
    }
  }

  /** A whole scan: the bits padded to bytes, the bytes stuffed, and then a marker or nothing.
      What the reader makes of it gives all the blocks back. */
  lemma ScanRoundTrip(
    components: seq<Component>, preds: seq<int>, turns: seq<nat>, blocks: seq<seq<int>>, pad: BitSeq, bytes: seq<Byte>, after: seq<Byte>)
    requires Turns(components, preds, turns) && Blocks(turns, blocks) && ScanBits(components, preds, turns, blocks).Some?
    requires MsbBits(bytes) == ScanBits(components, preds, turns, blocks).value + pad
    requires after == [] || (1 < |after| && after[0] == 0xFF && after[1] != 0)
    ensures var all := MsbBits(Unstuffed(Stuffed(bytes) + after));
      ScanFrom(components, preds, turns, all, 0) == Some((blocks, |ScanBits(components, preds, turns, blocks).value|))
  {
    hide ScanFrom, ScanBits, MsbBits;
    UnstuffedOfStuffed(bytes, after);
    assert bytes + [] == bytes;
    BlocksRoundTrip(components, preds, turns, blocks, MsbBits(bytes), 0);
  }

  // ----- the decoder

  /** The coefficients times their quantisers, out of zigzag order. */
  ghost predicate Stored(coefs: seq<int>, quant: seq<nat>, block: seq<int>)
    requires |coefs| == |quant| == |block| == 64
  {
    forall k: nat :: k < 64 ==> Cell(k) < 64 && block[Cell(k)] == coefs[k] * quant[k]
  }

  lemma StoredFirst(v: int, quant: seq<nat>, block: seq<int>)
    requires |quant| == |block| == 64 && block[0] == v * quant[0] && forall i :: 0 < i < 64 ==> block[i] == 0
    ensures Stored(Zeros()[0 := v], quant, block)
  {
    hide Turn, Cell;
    FirstCell();
    forall k: nat | k < 64 ensures Cell(k) < 64 && block[Cell(k)] == Zeros()[0 := v][k] * quant[k] {
      ZigzagIsTheWalk(k);
    }
  }

  lemma FirstCell()
    ensures Cell(0) == 0 && Turn(0) == 0
  {
  }

  /** No two coefficients share a cell. */
  lemma StoredNext(coefs: seq<int>, quant: seq<nat>, block: seq<int>, k: nat, v: int)
    requires |coefs| == |quant| == |block| == 64 && k < 64 && Stored(coefs, quant, block)
    ensures Stored(coefs[k := v], quant, block[Cell(k) := v * quant[k]])
  {
    hide Turn, Cell;
    forall i: nat | i < 64
      ensures Cell(i) < 64 && block[Cell(k) := v * quant[k]][Cell(i)] == coefs[k := v][i] * quant[i]
    {
      ZigzagIsTheWalk(i);
      ZigzagIsTheWalk(k);
    }
  }

  /** One block; `pred` is the component's running first coefficient. */
  method Block(r: EntropyReader, dc: JpegTable, ac: JpegTable, quant: seq<nat>, pred: int, block: array<int>)
    returns (ok: bool, newPred: int)
    requires r.Valid() && dc.Valid() && ac.Valid() && |quant| == 64 && block.Length == 64
    requires {dc.maxCode, dc.valOffset, ac.maxCode, ac.valOffset} !! {block}
    modifies r, block
    ensures r.Valid()
    ensures ok <==> dc.present && ac.present && BlockFrom(dc.table, ac.table, pred, r.all, old(r.pos)).Some?
    ensures ok ==>
      var (coefs, next) := BlockFrom(dc.table, ac.table, pred, r.all, old(r.pos)).value;
      r.pos == next && newPred == coefs[0] && Stored(coefs, quant, block[..])
  {
    hide Cell, ValueFrom, AcFrom, Extend, EntropyReader.Valid, JpegTable.BuiltTo, Table.Shaped, Stored, Zeros;
    newPred := pred;
    for i := 0 to 64
      invariant forall k :: 0 <= k < i ==> block[k] == 0
      modifies block
    {
      block[i] := 0;
    }
    if !dc.present || !ac.present {
      return false, pred;
    }
    var t := dc.Decode(r);
    if t < 0 || t > 11 {
      return false, pred;
    }
    var value := r.Receive(t);
    newPred := pred + Extend(value, t);
    block[0] := newPred * quant[0];
    ghost var coefs := Zeros()[0 := newPred];
    ghost var whole := AcFrom(ac.table, r.all, r.pos, 1, coefs);
    StoredFirst(newPred, quant, block[..]);
    FirstCell();
    var k := 1;
    while k < 64
      invariant r.Valid() && 1 <= k && |coefs| == 64 && coefs[0] == newPred && Stored(coefs, quant, block[..])
      invariant AcFrom(ac.table, r.all, r.pos, k, coefs) == whole
      decreases 64 - k
    {
      AcUnfolds(ac.table, r.all, r.pos, k, coefs);
      var rs := ac.Decode(r);
      if rs < 0 {
        return false, newPred;
      }
      var run, s := rs / 16, rs % 16;
      if s == 0 {
        if run != 15 {
          return true, newPred;
        }
        k := k + 16;
      } else {
        k := k + run;
        if k > 63 {
          return false, newPred;
        }
        value := r.Receive(s);
        ZigzagIsTheWalk(k);
        StoredNext(coefs, quant, block[..], k, Extend(value, s));
        coefs := coefs[k := Extend(value, s)];
        block[Cell(k)] := Extend(value, s) * quant[k];
        k := k + 1;
      }
    }
    AcUnfolds(ac.table, r.all, r.pos, k, coefs);
    ok := true;
  }
}
