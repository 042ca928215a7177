/** PNG filtering (section 6 of RFC 2083) and its undoing, in the C decoder
    (models/image_decode.c, `paeth` and `unfilter`) and in the Python one
    (scripts/png_to_svg.py, `decode`). */
module PngFilters {
  import opened BitStreams
  import opened ByteTexts

  // ----- the filters

  function Abs(v: int): nat { if v < 0 then -v else v }

  /** Section 6.6: the neighbour nearest to the estimate, ties in the order left, above, above left. */
  function Paeth(a: Byte, b: Byte, c: Byte): (r: Byte)
    ensures r == a || r == b || r == c
    ensures var p := (a as int) + b - c;
      && Abs(p - r) <= Abs(p - a) && Abs(p - r) <= Abs(p - b) && Abs(p - r) <= Abs(p - c)
      && (Abs(p - a) == Abs(p - r) ==> r == a)
      && (Abs(p - b) == Abs(p - r) ==> r == a || r == b)
  {
    var p: int := (a as int) + b - c;
    var pa, pb, pc := Abs(p - a), Abs(p - b), Abs(p - c);
    if pa <= pb && pa <= pc then a else if pb <= pc then b else c
  }

  function Predictor(filter: nat, a: Byte, b: Byte, c: Byte): Byte
  {
    match filter
    case 1 => a
    case 2 => b
    case 3 => ((a as nat) + b) / 2
    case 4 => Paeth(a, b, c)
    case _ => 0
  }

  /** The byte one pixel to the left of place `x`, or 0 at the left edge. */
  function Left(row: seq<Byte>, x: nat, bpp: nat): Byte
    requires 0 < bpp && x <= |row|
  {
    if bpp <= x then row[x - bpp] else 0
  }

  function Plus(a: Byte, b: Byte): Byte { ((a as nat) + b) % 256 }

  function Minus(a: Byte, b: Byte): Byte { ((a as int) - b) % 256 }

  /** A scanline as the encoder writes it: each byte less its prediction from the original bytes. */
  ghost function FilterRow(filter: nat, prior: seq<Byte>, row: seq<Byte>, bpp: nat): (coded: seq<Byte>)
    requires 0 < bpp && |prior| == |row|
    ensures |coded| == |row|
  {
    seq(|row|, x requires 0 <= x < |row| =>
      Minus(row[x], Predictor(filter, Left(row, x, bpp), prior[x], Left(prior, x, bpp))))
  }

  /** The first `x` bytes of a scanline, restored from left to right. */
  ghost function Restored(filter: nat, prior: seq<Byte>, coded: seq<Byte>, bpp: nat, x: nat): (row: seq<Byte>)
    requires 0 < bpp && |prior| == |coded| && x <= |coded|
    ensures |row| == x
  {
    if x == 0 then []
    else
      var row := Restored(filter, prior, coded, bpp, x - 1);
      row + [Plus(coded[x - 1], Predictor(filter, Left(row, x - 1, bpp), prior[x - 1], Left(prior, x - 1, bpp)))]
  }

  lemma PlusUndoesMinus(v: Byte, p: Byte)
    ensures Plus(Minus(v, p), p) == v
  {
  }

  /** Restoring a filtered scanline gives the scanline, for every filter and pixel size. */
  lemma {:induction false} RowRoundTrip(filter: nat, prior: seq<Byte>, row: seq<Byte>, bpp: nat, x: nat)
    requires 0 < bpp && |prior| == |row| && x <= |row|
    ensures Restored(filter, prior, FilterRow(filter, prior, row, bpp), bpp, x) == row[..x]
  {
    if x > 0 {
      RowRoundTrip(filter, prior, row, bpp, x - 1);
      assert Left(row[..x - 1], x - 1, bpp) == Left(row, x - 1, bpp);
      PlusUndoesMinus(row[x - 1], Predictor(filter, Left(row, x - 1, bpp), prior[x - 1], Left(prior, x - 1, bpp)));
    }
  }

  /** Each byte of a filtered scanline, and what gives the byte itself again: section 6 of RFC 2083,
      by filter. Beyond the left edge stand zeros. */
  lemma FilteredByte(filter: nat, prior: seq<Byte>, row: seq<Byte>, bpp: nat, x: nat)
    requires 0 < bpp && |prior| == |row| && x < |row|
    ensures var v := FilterRow(filter, prior, row, bpp)[x] as nat;
      var left, above, corner := if bpp <= x then row[x - bpp] else 0, prior[x], if bpp <= x then prior[x - bpp] else 0;
      && (filter == 0 ==> v == row[x])
      && (filter == 1 ==> (v + left) % 256 == row[x])
      && (filter == 2 ==> (v + above) % 256 == row[x])
      && (filter == 3 ==> (v + ((left as nat) + above) / 2) % 256 == row[x])
      && (filter == 4 ==> (v + Paeth(left, above, corner)) % 256 == row[x])
  {
    hide Paeth, Minus;
    var left, above, corner := Left(row, x, bpp), prior[x], Left(prior, x, bpp);
    var predicted := Predictor(filter, left, above, corner);
    PlusUndoesMinus(row[x], predicted);
    assert FilterRow(filter, prior, row, bpp)[x] == Minus(row[x], predicted);
    assert filter == 3 ==> predicted == ((left as nat) + above) / 2;
  }

  // ----- a matrix of scanlines

  ghost predicate Rows(rows: seq<seq<Byte>>, stride: nat) { forall y :: 0 <= y < |rows| ==> |rows[y]| == stride }

  /** The bytes of `n` lines. */
  function Total(n: nat, line: nat): nat { if n == 0 then 0 else line + Total(n - 1, line) }

  lemma {:induction false} TotalIsProduct(n: nat, line: nat)
    ensures Total(n, line) == n * line
  {
    if n > 0 {
      TotalIsProduct(n - 1, line);
      assert n * line == line + (n - 1) * line;
    }
  }

  /** Filtered scanlines one after another, each after its filter byte; before the first row
      stands a row of zeros. */
  ghost function Filtered(filters: seq<Byte>, prior: seq<Byte>, rows: seq<seq<Byte>>, bpp: nat): (raw: seq<Byte>)
    requires 0 < bpp && |filters| == |rows| && Rows(rows, |prior|)
    ensures |raw| == Total(|rows|, |prior| + 1)
  {
    if rows == [] then []
    else
      [filters[0]] + FilterRow(filters[0], prior, rows[0], bpp) + Filtered(filters[1..], rows[0], rows[1..], bpp)
  }

  /** The scanlines restored from raw data, or nothing when a filter byte is unknown. */
  ghost function Unfiltered(raw: seq<Byte>, prior: seq<Byte>, height: nat, bpp: nat): (r: Option<seq<seq<Byte>>>)
    requires 0 < bpp && Total(height, |prior| + 1) <= |raw|
    ensures r.Some? ==> |r.value| == height && Rows(r.value, |prior|)
    decreases height
  {
    if height == 0 then Some([])
    else
      if 4 < raw[0] then None
      else
        var row := Restored(raw[0], prior, raw[1..][..|prior|], bpp, |prior|);
        match Unfiltered(raw[|prior| + 1..], row, height - 1, bpp)
        case None => None
        case Some(rows) => Some([row] + rows)
  }

  lemma LineParts(filter: Byte, coded: seq<Byte>, rest: seq<Byte>, after: seq<Byte>)
    ensures var raw := [filter] + coded + rest + after;
      raw[0] == filter && raw[1..][..|coded|] == coded && raw[|coded| + 1..] == rest + after
  {
  }

  /** Unfiltering undoes filtering, whichever filter each row chose. */
  lemma {:induction false} UnfilterRoundTrip(
    filters: seq<Byte>, prior: seq<Byte>, rows: seq<seq<Byte>>, bpp: nat, after: seq<Byte>)
    requires 0 < bpp && |filters| == |rows| && Rows(rows, |prior|) && forall y :: 0 <= y < |filters| ==> filters[y] <= 4
    ensures Unfiltered(Filtered(filters, prior, rows, bpp) + after, prior, |rows|, bpp) == Some(rows)
    decreases |rows|
  {
    hide Restored, FilterRow, Zeros;
    if rows != [] {
      var coded := FilterRow(filters[0], prior, rows[0], bpp);
      var more := Filtered(filters[1..], rows[0], rows[1..], bpp) + after;
      var raw := Filtered(filters, prior, rows, bpp) + after;
      LineParts(filters[0], coded, Filtered(filters[1..], rows[0], rows[1..], bpp), after);
      RowRoundTrip(filters[0], prior, rows[0], bpp, |prior|);
      assert rows[0][..|prior|] == rows[0];
      UnfilterRoundTrip(filters[1..], rows[0], rows[1..], bpp, after);
      assert rows == [rows[0]] + rows[1..];
    }
  }

  // ----- the C decoder, in place

  /** The scanline before the one at `line`, or zeros when there is none (`prior == NULL`). */
  ghost function PriorRow(raw: seq<Byte>, prior: int, stride: nat): seq<Byte>
    requires 0 <= prior ==> prior + stride <= |raw|
  {
    if prior < 0 then Zeros(stride) else raw[prior..prior + stride]
  }

  /** The inner loop: the bytes after the filter byte at `line` become the restored scanline. */
  method RestoreLine(raw: array<Byte>, line: nat, prior: int, stride: nat, bpp: nat)
    requires 0 < bpp && line + 1 + stride <= raw.Length && raw[line] <= 4
    requires 0 <= prior ==> prior + stride <= line
    modifies raw
    ensures raw[..line + 1] == old(raw[..line + 1])
    ensures raw[line + 1 + stride..] == old(raw[line + 1 + stride..])
    ensures raw[line + 1..line + 1 + stride] ==
            Restored(old(raw[line]), PriorRow(old(raw[..]), prior, stride), old(raw[line + 1..line + 1 + stride]), bpp, stride)
  {
    hide Restored, Predictor, Plus;
    var filter, cur := raw[line], line + 1;
    ghost var above := PriorRow(raw[..], prior, stride);
    ghost var coded := raw[cur..cur + stride];
    ghost var row := [];
    RestoredNone(filter, above, coded, bpp);
    for x := 0 to stride
      invariant forall i :: 0 <= i < cur || cur + x <= i < raw.Length ==> raw[i] == old(raw[i])
      invariant |row| == x && row == Restored(filter, above, coded, bpp, x)
      invariant forall i :: cur <= i < cur + x ==> raw[i] == row[i - cur]
    {
      var a := if x >= bpp then raw[cur + x - bpp] else 0;
      var b := if prior >= 0 then raw[prior + x] else 0;
      var c := if prior >= 0 && x >= bpp then raw[prior + x - bpp] else 0;
      RestoredStep(filter, above, coded, bpp, x);
      raw[cur + x] := Plus(raw[cur + x], Predictor(filter, a, b, c));
      row := row + [raw[cur + x]];
    }
  }

  lemma RestoredNone(filter: nat, prior: seq<Byte>, coded: seq<Byte>, bpp: nat)
    requires 0 < bpp && |prior| == |coded|
    ensures Restored(filter, prior, coded, bpp, 0) == []
  {
  }

  lemma RestoredStep(filter: nat, prior: seq<Byte>, coded: seq<Byte>, bpp: nat, x: nat)
    requires 0 < bpp && |prior| == |coded| && x < |coded|
    ensures var row := Restored(filter, prior, coded, bpp, x);
      Restored(filter, prior, coded, bpp, x + 1)
      == row + [Plus(coded[x], Predictor(filter, Left(row, x, bpp), prior[x], Left(prior, x, bpp)))]
  {
  }

  /** The rows stand in `raw` from `at`, each after its filter byte. */
  ghost predicate Standing(raw: seq<Byte>, at: nat, rows: seq<seq<Byte>>, stride: nat)
  {
    forall y :: 0 <= y < |rows| ==> RowAt(raw, at + Total(y, stride + 1), rows[y])
  }

  ghost predicate RowAt(raw: seq<Byte>, line: nat, row: seq<Byte>)
  {
    line + 1 + |row| <= |raw| && raw[line + 1..line + 1 + |row|] == row
  }

  /** Rows restored so far, then the rest. */
  ghost function Onto(done: seq<seq<Byte>>, rest: Option<seq<seq<Byte>>>): Option<seq<seq<Byte>>>
  {
    match rest
    case None => None
    case Some(rows) => Some(done + rows)
  }

  lemma OntoNothing(rest: Option<seq<seq<Byte>>>)
    ensures Onto([], rest) == rest
  {
    if rest.Some? {
      assert [] + rest.value == rest.value;
    }
  }

  lemma {:induction false} TotalStep(n: nat, line: nat)
    ensures Total(n + 1, line) == Total(n, line) + line
  {
  }

  lemma {:induction false} TotalMonotone(m: nat, n: nat, line: nat)
    requires m <= n
    ensures Total(m, line) + Total(n - m, line) == Total(n, line)
    decreases n - m
  {
    if m < n {
      TotalMonotone(m, n - 1, line);
    }
  }

  /** `unfilter`: the scanlines of one pass, restored in place; failure at an unknown filter. */
  method Unfilter(raw: array<Byte>, at: nat, height: nat, stride: nat, bpp: nat) returns (ok: bool)
    requires 0 < bpp && at + Total(height, stride + 1) <= raw.Length
    modifies raw
    ensures forall i :: 0 <= i < at || at + Total(height, stride + 1) <= i < raw.Length ==> raw[i] == old(raw[i])
    ensures UnfilterReport(Unfiltered(old(raw[at..]), Zeros(stride), height, bpp), ok, raw[..], at, stride)
  {
    hide Restored, Unfiltered, Zeros, RowAt, Total, Standing, Onto;
    ghost var was := raw[..];
    ghost var all := Unfiltered(was[at..], Zeros(stride), height, bpp);
    assert raw[at..] == was[at..];
    ghost var done: seq<seq<Byte>> := [];
    ghost var above := Zeros(stride);
    var line, prior := at, -1;
    TotalNone(stride + 1);
    StandingNone(raw[..], at, stride);
    OntoNothing(all);
    for y := 0 to height
      invariant |done| == y && Standing(raw[..], at, done, stride) && Rows(done, stride)
      invariant line <= raw.Length && (0 <= prior ==> prior + stride <= line)
      invariant |above| == stride && above == PriorRow(raw[..], prior, stride)
      invariant line == at + Total(y, stride + 1) && line + Total(height - y, stride + 1) == at + Total(height, stride + 1)
      invariant forall i :: 0 <= i < at || line <= i < raw.Length ==> raw[i] == was[i]
      invariant all == Onto(done, Unfiltered(was[line..], above, height - y, bpp))
    {
      ghost var before := raw[..];
      TotalStep(y, stride + 1);
      TotalStep(height - y - 1, stride + 1);
      UnfilteredStep(was[line..], above, height - y, bpp);
      if raw[line] > 4 {
        OntoSome(done, None);
        return false;
      }
      OntoStep(was, line, above, height - y, bpp, done);
      RestoreLine(raw, line, prior, stride, bpp);
      prior := line + 1;
      above := raw[prior..prior + stride];
      done := done + [above];
      SameRow(before, was, line, stride);
      RowDone(before, raw[..], at, done, y, line, stride);
      line := line + stride + 1;
    }
    UnfilteredNone(was[line..], above, bpp);
    OntoSome(done, Some([]));
    ok := true;
  }

  ghost predicate UnfilterReport(outcome: Option<seq<seq<Byte>>>, ok: bool, raw: seq<Byte>, at: nat, stride: nat)
  {
    match outcome
    case Some(rows) => ok && Standing(raw, at, rows, stride)
    case None => !ok
  }

  lemma StandingNone(raw: seq<Byte>, at: nat, stride: nat)
    ensures Standing(raw, at, [], stride)
  {
  }

  lemma OntoSome(done: seq<seq<Byte>>, rest: Option<seq<seq<Byte>>>)
    ensures rest.None? ==> Onto(done, rest).None?
    ensures rest == Some([]) ==> Onto(done, rest) == Some(done)
  {
    assert done + [] == done;
  }

  lemma TotalNone(line: nat)
    ensures Total(0, line) == 0
  {
  }

  lemma RowStands(raw: seq<Byte>, line: nat, stride: nat)
    requires line + 1 + stride <= |raw|
    ensures RowAt(raw, line, raw[line + 1..line + 1 + stride])
  {
  }

  lemma UnfilteredNone(raw: seq<Byte>, prior: seq<Byte>, bpp: nat)
    requires 0 < bpp
    ensures Total(0, |prior| + 1) == 0 && Unfiltered(raw, prior, 0, bpp) == Some([])
  {
  }

  lemma OntoStep(raw: seq<Byte>, line: nat, prior: seq<Byte>, height: nat, bpp: nat, done: seq<seq<Byte>>)
    requires line <= |raw| && 0 < bpp && 0 < height && Total(height, |prior| + 1) <= |raw| - line && raw[line] <= 4
    ensures line + 1 + |prior| <= |raw| && Total(height - 1, |prior| + 1) <= |raw| - line - 1 - |prior|
    ensures var row := Restored(raw[line], prior, raw[line..][1..][..|prior|], bpp, |prior|);
      Onto(done, Unfiltered(raw[line..], prior, height, bpp))
      == Onto(done + [row], Unfiltered(raw[line + |prior| + 1..], row, height - 1, bpp))
  {
    hide Restored;
    var row := Restored(raw[line], prior, raw[line..][1..][..|prior|], bpp, |prior|);
    UnfilteredStep(raw[line..], prior, height, bpp);
    assert raw[line..][|prior| + 1..] == raw[line + |prior| + 1..];
    var rest := Unfiltered(raw[line + |prior| + 1..], row, height - 1, bpp);
    if rest.Some? {
      assert done + ([row] + rest.value) == done + [row] + rest.value;
    }
  }

  lemma UnfilteredStep(raw: seq<Byte>, prior: seq<Byte>, height: nat, bpp: nat)
    requires 0 < bpp && 0 < height && Total(height, |prior| + 1) <= |raw|
    ensures 4 < raw[0] ==> Unfiltered(raw, prior, height, bpp).None?
    ensures raw[0] <= 4 ==>
      var row := Restored(raw[0], prior, raw[1..][..|prior|], bpp, |prior|);
      Unfiltered(raw, prior, height, bpp) == Onto([row], Unfiltered(raw[|prior| + 1..], row, height - 1, bpp))
  {
  }

  lemma SameRow(before: seq<Byte>, was: seq<Byte>, line: nat, stride: nat)
    requires line + 1 + stride <= |before| == |was| && forall i :: line <= i < |was| ==> before[i] == was[i]
    ensures before[line + 1..line + 1 + stride] == was[line..][1..][..stride]
  {
  }

  /** A restored row stands under the ones above it. */
  lemma RowDone(before: seq<Byte>, after: seq<Byte>, at: nat, rows: seq<seq<Byte>>, y: nat, line: nat, stride: nat)
    requires |rows| == y + 1 && Rows(rows, stride) && Standing(before, at, rows[..y], stride)
    requires line == at + Total(y, stride + 1) && line + 1 + stride <= |before| == |after|
    requires (forall i :: 0 <= i <= line ==> after[i] == before[i]) && rows[y] == after[line + 1..line + 1 + stride]
    ensures Standing(after, at, rows, stride)
  {
    hide Total, RowAt, Standing;
    RowStands(after, line, stride);
    StandingKept(before, after, at, rows, y, stride);
  }

  /** Writing row `y` leaves the rows above it standing. */
  lemma StandingKept(before: seq<Byte>, after: seq<Byte>, at: nat, rows: seq<seq<Byte>>, y: nat, stride: nat)
    requires |rows| == y + 1 && Rows(rows, stride) && Standing(before, at, rows[..y], stride)
    requires var line := at + Total(y, stride + 1);
      line + 1 <= |before| == |after| && after[..line + 1] == before[..line + 1] && RowAt(after, line, rows[y])
    ensures Standing(after, at, rows, stride)
  {
    hide Total, RowAt;
    forall i | 0 <= i < y ensures RowAt(after, at + Total(i, stride + 1), rows[i]) {
      TotalMonotone(i + 1, y, stride + 1);
      TotalStep(i, stride + 1);
      assert rows[..y][i] == rows[i];
      RowKept(before, after, at + Total(i, stride + 1), rows[i], at + Total(y, stride + 1) + 1);
    }
  }

  lemma RowKept(before: seq<Byte>, after: seq<Byte>, line: nat, row: seq<Byte>, top: nat)
    requires RowAt(before, line, row) && line + 1 + |row| <= top <= |before|
    requires top <= |after| && after[..top] == before[..top]
    ensures RowAt(after, line, row)
  {
    forall i | 0 <= i < |row| ensures after[line + 1 + i] == row[i] {
      assert after[line + 1 + i] == after[..top][line + 1 + i];
      assert before[line + 1 + i] == before[..top][line + 1 + i];
      assert before[line + 1..line + 1 + |row|][i] == before[line + 1 + i];
    }
  }

  // ----- the Python decoder

  function Min(a: nat, b: nat): nat { if a <= b then a else b }

  /** The place of the first least distance. */
  function IndexOfMin(d: seq<nat>): (i: nat)
    requires |d| == 3
    ensures i < 3 && (forall k :: 0 <= k < 3 ==> d[i] <= d[k]) && (forall k :: 0 <= k < i ==> d[i] < d[k])
  {
    var least := Min(d[0], Min(d[1], d[2]));
    if d[0] == least then 0 else if d[1] == least then 1 else 2
  }

  /** The table lookup of the Python decoder picks what the C decoder's comparisons pick. */
  lemma SamePaeth(left: Byte, up: Byte, upperLeft: Byte)
    ensures var p := (left as int) + up - upperLeft;
      [left, up, upperLeft][IndexOfMin([Abs(p - left), Abs(p - up), Abs(p - upperLeft)])] == Paeth(left, up, upperLeft)
  {
  }

  /** The inner loop over a bytearray, which is restored in place. */
  method PythonRow(mode: nat, coded: seq<Byte>, previous: seq<Byte>, channels: nat) returns (restored: seq<Byte>)
    requires 0 < channels && |previous| == |coded| && mode <= 4
    ensures restored == Restored(mode, previous, coded, channels, |coded|)
  {
    hide Restored, Paeth, Plus;
    var row := new Byte[|coded|](i requires 0 <= i < |coded| => coded[i]);
    RestoredNone(mode, previous, coded, channels);
    ghost var done: seq<Byte> := [];
    for i := 0 to |coded|
      invariant done == row[..i] == Restored(mode, previous, coded, channels, i)
      invariant forall k :: i <= k < |coded| ==> row[k] == coded[k]
    {
      var left := if i >= channels then row[i - channels] else 0;
      var up := previous[i];
      var upperLeft := if i >= channels then previous[i - channels] else 0;
      var predictor: Byte := 0;
      if mode == 1 {
        predictor := left;
      } else if mode == 2 {
        predictor := up;
      } else if mode == 3 {
        predictor := ((left as nat) + up) / 2;
      } else if mode == 4 {
        var p := (left as int) + up - upperLeft;
        SamePaeth(left, up, upperLeft);
        predictor := [left, up, upperLeft][IndexOfMin([Abs(p - left), Abs(p - up), Abs(p - upperLeft)])];
      }
      RestoredStep(mode, previous, coded, channels, i);
      row[i] := Plus(row[i], predictor);
      done := done + [row[i]];
    }
    restored := row[..];
  }

  /** The rows of `decode`, or nothing where it raises "invalid PNG filter": the same rows as the
      C decoder restores. */
  method PythonRows(raw: seq<Byte>, height: nat, stride: nat, channels: nat) returns (rows: Option<seq<seq<Byte>>>)
    requires 0 < channels && Total(height, stride + 1) <= |raw|
    ensures rows == Unfiltered(raw, Zeros(stride), height, channels)
  {
    hide Restored, Unfiltered, Zeros, Total, Onto;
    var all: seq<seq<Byte>> := [];
    var previous := Zeros(stride);
    var start := 0;
    ghost var outcome := Unfiltered(raw, Zeros(stride), height, channels);
    TotalNone(stride + 1);
    OntoNothing(outcome);
    assert raw[0..] == raw;
    for y := 0 to height
      invariant |previous| == stride && start + Total(height - y, stride + 1) == Total(height, stride + 1)
      invariant outcome == Onto(all, Unfiltered(raw[start..], previous, height - y, channels))
    {
      TotalStep(height - y - 1, stride + 1);
      UnfilteredStep(raw[start..], previous, height - y, channels);
      if raw[start] > 4 {
        OntoSome(all, None);
        return None;
      }
      OntoStep(raw, start, previous, height - y, channels, all);
      assert raw[start + 1..start + 1 + stride] == raw[start..][1..][..stride];
      var row := PythonRow(raw[start], raw[start + 1..start + 1 + stride], previous, channels);
      all := all + [row];
      previous := row;
      start := start + stride + 1;
    }
    UnfilteredNone(raw[start..], previous, channels);
    OntoSome(all, Some([]));
    rows := Some(all);
  }
}
