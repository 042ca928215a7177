/** The rectangles of `vectorize` (scripts/png_to_svg.py): runs of one colour in a row are merged
    with the same runs in the rows below. */
module Rectangles {
  import opened BitStreams

  datatype Color = Color(red: Byte, green: Byte, blue: Byte, alpha: Byte)

  /** A run of one colour in a row. */
  datatype Run = Run(x: nat, width: nat, color: Color)

  datatype Rect = Rect(x: nat, top: nat, width: nat, height: nat)
  {
    predicate Covers(px: nat, py: nat) { x <= px < x + width && top <= py < top + height }
  }

  ghost predicate Image(rows: seq<seq<Color>>, width: nat) { forall y :: 0 <= y < |rows| ==> |rows[y]| == width }

  /** A run that cannot be made longer. */
  ghost predicate InRow(row: seq<Color>, run: Run)
  {
    && 0 < run.width && run.x + run.width <= |row|
    && (forall i :: run.x <= i < run.x + run.width ==> row[i] == run.color)
    && (run.x == 0 || row[run.x - 1] != run.color)
    && (run.x + run.width == |row| || row[run.x + run.width] != run.color)
  }

  /** The run stands in row `y`. */
  ghost predicate Stands(rows: seq<seq<Color>>, run: Run, y: int) { 0 <= y < |rows| && InRow(rows[y], run) }

  /** The run stands in the rows from `top` to `bottom`, and not in the row above. */
  ghost predicate StandsFrom(rows: seq<seq<Color>>, run: Run, top: nat, bottom: nat)
  {
    top < bottom && !Stands(rows, run, top - 1) && forall y :: top <= y < bottom ==> Stands(rows, run, y)
  }

  /** A rectangle of the picture: a run in as many adjacent rows as it stands in. */
  ghost predicate Whole(rows: seq<seq<Color>>, color: Color, r: Rect)
  {
    var run := Run(r.x, r.width, color);
    StandsFrom(rows, run, r.top, r.top + r.height) && !Stands(rows, run, r.top + r.height)
  }

  // ----- the rectangles tile the picture

  lemma InRowUnique(row: seq<Color>, a: Run, b: Run, i: nat)
    requires InRow(row, a) && InRow(row, b) && a.x <= i < a.x + a.width && b.x <= i < b.x + b.width
    ensures a == b
  {
    assert a.color == row[i] == b.color;
  }

  /** Two stretches of one run that share a row are one stretch. */
  lemma StretchUnique(rows: seq<seq<Color>>, run: Run, top: nat, bottom: nat, top1: nat, bottom1: nat, y: nat)
    requires StandsFrom(rows, run, top, bottom) && !Stands(rows, run, bottom) && top <= y < bottom
    requires StandsFrom(rows, run, top1, bottom1) && !Stands(rows, run, bottom1) && top1 <= y < bottom1
    ensures top == top1 && bottom == bottom1
  {
  }

  /** No pixel lies in two rectangles, and the one it lies in has its colour. */
  lemma CoveredOnce(rows: seq<seq<Color>>, width: nat, c: Color, r: Rect, d: Color, s: Rect, px: nat, py: nat)
    requires Image(rows, width) && Whole(rows, c, r) && Whole(rows, d, s) && r.Covers(px, py) && s.Covers(px, py)
    ensures py < |rows| && px < width && c == rows[py][px] && d == c && s == r
  {
    var a, b := Run(r.x, r.width, c), Run(s.x, s.width, d);
    assert Stands(rows, a, py) && Stands(rows, b, py);
    InRowUnique(rows[py], a, b, px);
    StretchUnique(rows, a, r.top, r.top + r.height, s.top, s.top + s.height, py);
  }

  /** The run through a place, found from where its colour begins. */
  lemma {:induction false} RunFrom(row: seq<Color>, x: nat, i: nat) returns (run: Run)
    requires x <= i < |row| && forall k :: x <= k <= i ==> row[k] == row[i]
    ensures InRow(row, run) && run.x <= i < run.x + run.width
    decreases x + (|row| - i)
  {
    if 0 < x && row[x - 1] == row[i] {
      run := RunFrom(row, x - 1, i);
    } else if i + 1 < |row| && row[i + 1] == row[i] {
      run := RunFrom(row, x, i + 1);
    } else {
      run := Run(x, i + 1 - x, row[i]);
    }
  }

  lemma {:induction false} StretchFrom(rows: seq<seq<Color>>, run: Run, top: nat, bottom: nat) returns (t: nat, b: nat)
    requires top < bottom <= |rows| && forall y :: top <= y < bottom ==> Stands(rows, run, y)
    ensures t <= top && bottom <= b && StandsFrom(rows, run, t, b) && !Stands(rows, run, b)
    decreases top + (|rows| - bottom)
  {
    if Stands(rows, run, top - 1) {
      t, b := StretchFrom(rows, run, top - 1, bottom);
    } else if Stands(rows, run, bottom) {
      t, b := StretchFrom(rows, run, top, bottom + 1);
    } else {
      t, b := top, bottom;
    }
  }

  /** Every pixel lies in a rectangle. */
  lemma Covered(rows: seq<seq<Color>>, width: nat, px: nat, py: nat) returns (r: Rect)
    requires Image(rows, width) && py < |rows| && px < width
    ensures Whole(rows, rows[py][px], r) && r.Covers(px, py)
  {
    var run := RunFrom(rows[py], px, px);
    var t, b := StretchFrom(rows, run, py, py + 1);
    r := Rect(run.x, t, run.width, b - t);
    assert Run(r.x, r.width, rows[py][px]) == run;
  }

  // ----- the two dictionaries

  /** `active` after `y` rows: the runs of the last row, with the row each began at. */
  ghost predicate Active(rows: seq<seq<Color>>, y: nat, active: map<Run, nat>)
    requires y <= |rows|
  {
    && (forall run :: run in active <==> Stands(rows, run, y - 1))
    && forall run :: run in active ==> StandsFrom(rows, run, active[run], y)
  }

  /** The rectangles that ended above row `y`, each listed once under its colour. */
  ghost predicate Listed(rows: seq<seq<Color>>, y: nat, groups: map<Color, seq<Rect>>)
  {
    && (forall color, r :: Holds(groups, color, r) <==> Whole(rows, color, r) && r.top + r.height < y)
    && AllDistinct(groups)
  }

  ghost predicate Holds(groups: map<Color, seq<Rect>>, color: Color, r: Rect) { color in groups && r in groups[color] }

  ghost predicate AllDistinct(groups: map<Color, seq<Rect>>)
  {
    forall color, i, j :: color in groups && 0 <= i < j < |groups[color]| ==> groups[color][i] != groups[color][j]
  }

  /** A run that begins at `x`, up to the first other colour. */
  method RunAt(row: seq<Color>, x: nat) returns (run: Run)
    requires x < |row| && (x == 0 || row[x - 1] != row[x])
    ensures InRow(row, run) && run.x == x
  {
    var end := x + 1;
    while end < |row| && row[end] == row[x]
      invariant x < end <= |row| && forall i :: x <= i < end ==> row[i] == row[x]
    {
      end := end + 1;
    }
    run := Run(x, end - x, row[x]);
  }

  /** One row: its runs go into `current`, with their old tops when they were active. */
  method RowRuns(rows: seq<seq<Color>>, y: nat, active: map<Run, nat>)
    returns (current: map<Run, nat>, remaining: map<Run, nat>)
    requires y < |rows|
    ensures forall run :: run in current <==> InRow(rows[y], run)
    ensures forall run :: run in current ==> current[run] == if run in active then active[run] else y
    ensures remaining == active - current.Keys
  {
    var row, x := rows[y], 0;
    current, remaining := map[], active;
    while x < |row|
      invariant x <= |row| && (x == 0 || x == |row| || row[x - 1] != row[x])
      invariant forall run :: run in current <==> InRow(row, run) && run.x < x
      invariant forall run :: run in current ==> current[run] == if run in active then active[run] else y
      invariant remaining == active - current.Keys
      decreases |row| - x
    {
      var run := RunAt(row, x);
      forall other | InRow(row, other) && x <= other.x < x + run.width ensures other == run {
        InRowUnique(row, other, run, other.x);
      }
      var top := y;
      if run in remaining {
        top := remaining[run];
        remaining := remaining - {run};
      }
      current := current[run := top];
      x := x + run.width;
    }
  }

  /** `r` is the rectangle of a run that was active and ends above row `y`. */
  ghost predicate Ended(run: Run, r: Rect, ended: map<Run, nat>, y: nat)
  {
    run in ended && r.top == ended[run] && r.top + r.height == y
  }

  /** The runs that stood in the last row and do not stand in row `y`. */
  ghost predicate JustEnded(rows: seq<seq<Color>>, y: nat, ended: map<Run, nat>)
  {
    && (forall run :: run in ended <==> Stands(rows, run, y - 1) && !Stands(rows, run, y))
    && forall run :: run in ended ==> StandsFrom(rows, run, ended[run], y)
  }

  /** A rectangle is listed under its colour. */
  function Append(groups: map<Color, seq<Rect>>, color: Color, r: Rect): map<Color, seq<Rect>>
  {
    groups[color := (if color in groups then groups[color] else []) + [r]]
  }

  lemma AppendHolds(groups: map<Color, seq<Rect>>, color: Color, r: Rect)
    ensures forall c, s :: Holds(Append(groups, color, r), c, s) <==> Holds(groups, c, s) || (c == color && s == r)
    ensures AllDistinct(groups) && !Holds(groups, color, r) ==> AllDistinct(Append(groups, color, r))
  {
    var list := if color in groups then groups[color] else [];
    assert (list + [r])[|list|] == r;
    forall c, s ensures Holds(Append(groups, color, r), c, s) <==> Holds(groups, c, s) || (c == color && s == r) {
      if c == color {
        assert s in list + [r] <==> s in list || s == r;
      }
    }
  }

  /** The runs that are active no more become rectangles that end above row `y`. */
  method Close(rows: seq<seq<Color>>, y: nat, ended: map<Run, nat>, groups: map<Color, seq<Rect>>) returns (more: map<Color, seq<Rect>>)
    requires Listed(rows, y, groups) && JustEnded(rows, y, ended)
    ensures forall color, r :: Holds(more, color, r) <==> Holds(groups, color, r) || Ended(Run(r.x, r.width, color), r, ended, y)
    ensures AllDistinct(more)
  {
    hide InRow, StandsFrom, AllDistinct, Holds, Append;
    var left, gone := ended.Keys, map[];
    more := groups;
    while left != {}
      invariant left !! gone.Keys && left + gone.Keys == ended.Keys && forall run :: run in gone ==> gone[run] == ended[run]
      invariant forall color, r :: Holds(more, color, r) <==> Holds(groups, color, r) || Ended(Run(r.x, r.width, color), r, gone, y)
      invariant AllDistinct(more)
      decreases left
    {
      var run :| run in left;
      StandsLonger(rows, run, ended[run], y);
      var r := Rect(run.x, ended[run], run.width, y - ended[run]);
      AppendHolds(more, run.color, r);
      more := Append(more, run.color, r);
      left, gone := left - {run}, gone[run := ended[run]];
    }
    assert gone == ended;
  }

  lemma StandsLonger(rows: seq<seq<Color>>, run: Run, top: nat, bottom: nat)
    requires StandsFrom(rows, run, top, bottom)
    ensures top < bottom
  {
  }

  lemma ActiveNext(rows: seq<seq<Color>>, y: nat, active: map<Run, nat>, current: map<Run, nat>)
    requires y < |rows| && Active(rows, y, active)
    requires forall run :: run in current <==> InRow(rows[y], run)
    requires forall run :: run in current ==> current[run] == if run in active then active[run] else y
    ensures Active(rows, y + 1, current) && JustEnded(rows, y, active - current.Keys)
  {
    hide InRow;
    forall run | run in current ensures StandsFrom(rows, run, current[run], y + 1) {
      assert run in active <==> Stands(rows, run, y - 1);
    }
  }

  lemma ListedNext(rows: seq<seq<Color>>, y: nat, ended: map<Run, nat>, groups: map<Color, seq<Rect>>, more: map<Color, seq<Rect>>)
    requires y <= |rows| && Listed(rows, y, groups) && JustEnded(rows, y, ended)
    requires forall color, r :: Holds(more, color, r) <==>
      Holds(groups, color, r) || Ended(Run(r.x, r.width, color), r, ended, y)
    requires AllDistinct(more)
    ensures Listed(rows, y + 1, more)
  {
    hide InRow, AllDistinct;
    forall color, r: Rect
      ensures Whole(rows, color, r) && r.top + r.height == y <==> Ended(Run(r.x, r.width, color), r, ended, y)
    {
      var run := Run(r.x, r.width, color);
      if Whole(rows, color, r) && r.top + r.height == y {
        assert Stands(rows, run, y - 1);
        StretchTop(rows, run, r.top, ended[run], y);
      }
    }
  }

  lemma StretchTop(rows: seq<seq<Color>>, run: Run, top: nat, top1: nat, bottom: nat)
    requires StandsFrom(rows, run, top, bottom) && StandsFrom(rows, run, top1, bottom)
    ensures top == top1
  {
  }

  /** The loop over the rows: exactly the whole rectangles are listed, each once. */
  method Vectorize(rows: seq<seq<Color>>, width: nat) returns (groups: map<Color, seq<Rect>>)
    requires Image(rows, width)
    ensures forall color, r :: Holds(groups, color, r) <==> Whole(rows, color, r)
    ensures AllDistinct(groups)
  {
    hide InRow, AllDistinct, StandsFrom;
    groups := map[];
    var active: map<Run, nat> := map[];
    NothingYet(rows);
    for y := 0 to |rows|
      invariant Active(rows, y, active) && Listed(rows, y, groups)
    {
      var current, ended := RowRuns(rows, y, active);
      ActiveNext(rows, y, active, current);
      var more := Close(rows, y, ended, groups);
      ListedNext(rows, y, ended, groups, more);
      groups, active := more, current;
    }
    var more := Close(rows, |rows|, active, groups);
    ListedNext(rows, |rows|, active, groups, more);
    groups := more;
    forall color, r: Rect | Whole(rows, color, r) ensures r.top + r.height < |rows| + 1 {
      WholeInside(rows, color, r);
    }
  }

  lemma NothingYet(rows: seq<seq<Color>>)
    ensures Active(rows, 0, map[]) && Listed(rows, 0, map[])
  {
  }

  lemma WholeInside(rows: seq<seq<Color>>, color: Color, r: Rect)
    requires Whole(rows, color, r)
    ensures 0 < r.height && r.top + r.height <= |rows|
  {
    assert Stands(rows, Run(r.x, r.width, color), r.top + r.height - 1);
  }

  /** The picture drawn from the rectangles is the picture: each pixel lies in exactly one of
      them, listed under that pixel's colour. */
  lemma Lossless(rows: seq<seq<Color>>, width: nat, groups: map<Color, seq<Rect>>, px: nat, py: nat) returns (i: nat)
    requires Image(rows, width) && py < |rows| && px < width
    requires forall color, r :: Holds(groups, color, r) <==> Whole(rows, color, r)
    requires AllDistinct(groups)
    ensures rows[py][px] in groups && i < |groups[rows[py][px]]|
    ensures var r := groups[rows[py][px]][i]; r.x <= px < r.x + r.width && r.top <= py < r.top + r.height
    ensures forall color, j: nat :: color in groups && j < |groups[color]| ==>
      var r := groups[color][j];
      r.x <= px < r.x + r.width && r.top <= py < r.top + r.height ==> color == rows[py][px] && j == i
  {
    hide Whole;
    var c := rows[py][px];
    var r := Covered(rows, width, px, py);
    assert Holds(groups, c, r);
    i :| 0 <= i < |groups[c]| && groups[c][i] == r;
    forall color, j: nat | color in groups && j < |groups[color]| && groups[color][j].Covers(px, py)
      ensures color == c && j == i
    {
      assert Holds(groups, color, groups[color][j]);
      CoveredOnce(rows, width, c, r, color, groups[color][j], px, py);
    }
  }
}
