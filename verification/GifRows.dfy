/** The row order of an interlaced GIF (Appendix E of GIF89a) and the copying of the colour
    indices into the canvas, as models/image_decode.c does both at the end of `gif`. */
module GifRows {
  import opened BitStreams
  import opened Interlacing

  function FirstRow(pass: nat): nat { if pass == 0 then 0 else if pass == 1 then 4 else if pass == 2 then 2 else 1 }

  function RowStep(pass: nat): nat { if pass < 2 then 8 else if pass == 2 then 4 else 2 }

  /** The rows a pass has in an image of `h` rows. */
  function RowsIn(h: nat, pass: nat): nat { (h + RowStep(pass) - FirstRow(pass) - 1) / RowStep(pass) }

  /** The rows of the passes before `pass`. */
  function RowsBefore(h: nat, pass: nat): nat { if pass == 0 then 0 else RowsBefore(h, pass - 1) + RowsIn(h, pass - 1) }

  function PassOfRow(row: nat): nat { if row % 8 == 0 then 0 else if row % 8 == 4 then 1 else if row % 4 == 2 then 2 else 3 }

  /** When an image row comes in the stream. */
  function Turn(h: nat, interlaced: bool, row: nat): nat
  {
    if !interlaced then row else var pass := PassOfRow(row); RowsBefore(h, pass) + row / RowStep(pass)
  }

  /** The image row that the `y`-th row of the stream is. */
  function RowAt(h: nat, interlaced: bool, y: nat): nat
  {
    if !interlaced then y
    else
      var pass := if y < RowsBefore(h, 1) then 0 else if y < RowsBefore(h, 2) then 1 else if y < RowsBefore(h, 3) then 2 else 3;
      if y < RowsBefore(h, pass) then 0 else FirstRow(pass) + (y - RowsBefore(h, pass)) * RowStep(pass)
  }

  lemma PassAxis(pass: nat)
    requires pass < 4
    ensures Axis(FirstRow(pass), RowStep(pass))
  {
  }

  lemma OnRowAxis(pass: nat, row: nat)
    requires pass < 4
    ensures PassOfRow(row) == pass <==> row % RowStep(pass) == FirstRow(pass)
  {
    Remainders(row);
  }

  /** The four passes have all the rows between them. */
  lemma AllRows(h: nat)
    ensures RowsBefore(h, 4) == h
    ensures RowsBefore(h, 1) <= RowsBefore(h, 2) <= RowsBefore(h, 3) <= h
  {
    hide RowsBefore, RowsIn;
    RowsBeforeIs(h);
    var q, r := h / 8, h % 8;
    RowsInIs(q, r);
    Parts(r);
  }

  lemma RowsBeforeIs(h: nat)
    ensures RowsBefore(h, 0) == 0 && RowsBefore(h, 1) == RowsIn(h, 0)
    ensures RowsBefore(h, 2) == RowsIn(h, 0) + RowsIn(h, 1)
    ensures RowsBefore(h, 3) == RowsIn(h, 0) + RowsIn(h, 1) + RowsIn(h, 2)
    ensures RowsBefore(h, 4) == RowsIn(h, 0) + RowsIn(h, 1) + RowsIn(h, 2) + RowsIn(h, 3)
  {
    hide RowsIn;
    assert RowsBefore(h, 2) == RowsBefore(h, 1) + RowsIn(h, 1);
    assert RowsBefore(h, 3) == RowsBefore(h, 2) + RowsIn(h, 2);
  }

  lemma RowsInIs(q: nat, r: nat)
    ensures var h := 8 * q + r;
      && RowsIn(h, 0) == q + (r + 7) / 8 && RowsIn(h, 1) == q + (r + 3) / 8
      && RowsIn(h, 2) == 2 * q + (r + 1) / 4 && RowsIn(h, 3) == 4 * q + r / 2
  {
    Quotients(q, r + 7);
    Quotients(q, r + 3);
    Quotients(q, r + 1);
    Quotients(q, r);
  }

  lemma Parts(r: nat)
    requires r < 8
    ensures (r + 7) / 8 + (r + 3) / 8 + (r + 1) / 4 + r / 2 == r
  {
  }

  lemma Quotients(q: nat, r: nat)
    ensures (8 * q + r) / 8 == q + r / 8 && (8 * q + r) / 4 == 2 * q + r / 4 && (8 * q + r) / 2 == 4 * q + r / 2
  {
  }

  lemma PassBound(h: nat, pass: nat, k: nat)
    requires pass < 4
    ensures k < RowsIn(h, pass) <==> FirstRow(pass) + k * RowStep(pass) < h
  {
    PassAxis(pass);
    AxisBound(FirstRow(pass), RowStep(pass), h, k);
  }

  lemma PassesInTurn(h: nat, pass: nat, k: nat)
    requires pass < 4 && k < RowsIn(h, pass)
    ensures RowAt(h, true, RowsBefore(h, pass) + k) == FirstRow(pass) + k * RowStep(pass)
  {
    hide RowsBefore, RowsIn, FirstRow, RowStep;
    RowsBeforeIs(h);
    var y := RowsBefore(h, pass) + k;
    assert pass == if y < RowsBefore(h, 1) then 0 else if y < RowsBefore(h, 2) then 1 else if y < RowsBefore(h, 3) then 2 else 3;
  }

  /** The `k`-th row of a pass. */
  lemma TurnInPass(h: nat, pass: nat, k: nat)
    requires pass < 4 && k < RowsIn(h, pass)
    ensures var row := FirstRow(pass) + k * RowStep(pass);
      row < h && Turn(h, true, row) == RowsBefore(h, pass) + k && RowAt(h, true, RowsBefore(h, pass) + k) == row
  {
    hide PassOfRow, RowsBefore, RowsIn, RowAt, FirstRow, RowStep;
    PassAxis(pass);
    PassBound(h, pass, k);
    AxisPlace(FirstRow(pass), RowStep(pass), k);
    OnRowAxis(pass, FirstRow(pass) + k * RowStep(pass));
    PassesInTurn(h, pass, k);
  }

  lemma RowHasTurn(h: nat, row: nat)
    requires row < h
    ensures Turn(h, true, row) < h && RowAt(h, true, Turn(h, true, row)) == row
  {
    hide RowsIn, RowStep, FirstRow, RowAt, PassOfRow, RowsBefore;
    var pass := PassOfRow(row);
    PassKnown(row);
    PassAxis(pass);
    OnRowAxis(pass, row);
    AxisOf(FirstRow(pass), RowStep(pass), row);
    PassBound(h, pass, row / RowStep(pass));
    TurnInPass(h, pass, row / RowStep(pass));
    AllRows(h);
    RowsBeforeIs(h);
  }

  lemma TurnHasRow(h: nat, y: nat)
    requires y < h
    ensures RowAt(h, true, y) < h && Turn(h, true, RowAt(h, true, y)) == y
  {
    hide RowsIn, RowStep, FirstRow, RowAt, Turn, RowsBefore;
    AllRows(h);
    RowsBeforeIs(h);
    var pass := if y < RowsBefore(h, 1) then 0 else if y < RowsBefore(h, 2) then 1 else if y < RowsBefore(h, 3) then 2 else 3;
    TurnInPass(h, pass, y - RowsBefore(h, pass));
  }

  /** Every row of the image has its turn, and every turn its row: the order is a permutation. */
  lemma RowOrderIsPermutation(h: nat, interlaced: bool, i: nat)
    requires i < h
    ensures Turn(h, interlaced, i) < h && RowAt(h, interlaced, Turn(h, interlaced, i)) == i
    ensures RowAt(h, interlaced, i) < h && Turn(h, interlaced, RowAt(h, interlaced, i)) == i
  {
    if interlaced {
      RowHasTurn(h, i);
      TurnHasRow(h, i);
    } else {
      NotInterlaced(h, i);
    }
  }

  lemma PassKnown(row: nat)
    ensures PassOfRow(row) < 4
  {
  }

  lemma NotInterlaced(h: nat, y: nat)
    ensures RowAt(h, false, y) == y
  {
  }

  /** The order in which the rows of an interlaced image come: every eighth from 0, every eighth from
      4, every fourth from 2 and every second from 1, each group from the top. */
  lemma RowsInterlaced(h: nat, a: nat, b: nat)
    requires a < h && b < h
    ensures a % 8 == 0 && b % 8 != 0 ==> Turn(h, true, a) < Turn(h, true, b)
    ensures a % 8 == 4 && b % 8 != 0 && b % 8 != 4 ==> Turn(h, true, a) < Turn(h, true, b)
    ensures a % 4 == 2 && b % 2 == 1 ==> Turn(h, true, a) < Turn(h, true, b)
    ensures a < b && (a % 8 == b % 8 || (a % 4 == b % 4 == 2) || (a % 2 == b % 2 == 1)) ==> Turn(h, true, a) < Turn(h, true, b)
    ensures Turn(h, false, a) == a
  {
    hide RowsBefore, RowsIn;
    AllRows(h);
    RowsBeforeIs(h);
    Remainders(a);
    Remainders(b);
    TurnBounds(h, a);
    TurnBounds(h, b);
    Quotients8(a, b);
  }

  lemma TurnBounds(h: nat, row: nat)
    requires row < h
    ensures row / RowStep(PassOfRow(row)) < RowsIn(h, PassOfRow(row))
  {
    hide RowsIn, RowStep, FirstRow, PassOfRow;
    var pass := PassOfRow(row);
    PassKnown(row);
    PassAxis(pass);
    OnRowAxis(pass, row);
    AxisOf(FirstRow(pass), RowStep(pass), row);
    PassBound(h, pass, row / RowStep(pass));
  }

  lemma Quotients8(a: nat, b: nat)
    ensures a < b && a % 8 == b % 8 ==> a / 8 < b / 8 && a / 4 < b / 4 && a / 2 < b / 2
    ensures a < b && a % 4 == b % 4 ==> a / 4 < b / 4
    ensures a < b && a % 2 == b % 2 ==> a / 2 < b / 2
  {
  }

  // ----- copying into the canvas

  function Cell(row: nat, width: nat, column: nat): nat { row * width + column }

  /** A frame: where it stands, its size and its row order. */
  datatype Frame = Frame(left: nat, top: nat, width: nat, height: nat, interlaced: bool)
  {
    ghost predicate Covers(cx: nat, cy: nat) { left <= cx < left + width && top <= cy < top + height }

    /** The place in the stream of the index for a canvas pixel. */
    ghost function Source(cx: nat, cy: nat): nat
      requires Covers(cx, cy)
    {
      Cell(Turn(height, interlaced, cy - top), width, cx - left)
    }
  }

  /** Past the end of the stream stands index 0. */
  function IndexAt(indices: seq<Byte>, i: nat): Byte { if i < |indices| then indices[i] else 0 }

  /** The colour index of a canvas pixel: that of its row's turn and its column, and 0 past the end. */
  lemma IndexOfPixel(f: Frame, indices: seq<Byte>, cx: nat, cy: nat)
    requires f.left <= cx < f.left + f.width && f.top <= cy < f.top + f.height
    ensures f.Covers(cx, cy)
    ensures var i := Turn(f.height, f.interlaced, cy - f.top) * f.width + (cx - f.left);
      IndexAt(indices, f.Source(cx, cy)) == if i < |indices| then indices[i] else 0
  {
    hide Turn;
  }

  /** The canvas pixels that the first `y` rows of the stream reach. */
  ghost predicate Copied(f: Frame, y: nat, cx: nat, cy: nat)
  {
    f.Covers(cx, cy) && Turn(f.height, f.interlaced, cy - f.top) < y
  }

  /** One row of the stream, at row `target` of the frame. */
  method CopyRow<T>(f: Frame, y: nat, target: nat, indices: seq<Byte>, colours: seq<T>, canvas: array2<T>)
    requires |colours| == 256 && y < f.height && target == RowAt(f.height, f.interlaced, y)
    modifies canvas
    ensures forall cx: nat, cy: nat :: cx < canvas.Length1 && cy < canvas.Length0 ==>
      canvas[cy, cx] == if f.Covers(cx, cy) && Turn(f.height, f.interlaced, cy - f.top) == y
                        then colours[IndexAt(indices, f.Source(cx, cy))] else old(canvas[cy, cx])
  {
    hide Turn, RowAt, IndexAt, Cell;
    for x := 0 to f.width
      invariant forall cx: nat, cy: nat :: cx < canvas.Length1 && cy < canvas.Length0 ==>
        canvas[cy, cx] == if f.left <= cx < f.left + x && cy == f.top + target
                          then colours[IndexAt(indices, Cell(y, f.width, cx - f.left))] else old(canvas[cy, cx])
    {
      var cx, cy := f.left + x, f.top + target;
      if cx < canvas.Length1 && cy < canvas.Length0 {
        canvas[cy, cx] := colours[IndexAt(indices, Cell(y, f.width, x))];
      }
    }
    RowOrderIsPermutation(f.height, f.interlaced, y);
    forall cx: nat, cy: nat | f.Covers(cx, cy)
      ensures Turn(f.height, f.interlaced, cy - f.top) == y <==> cy == f.top + target
    {
      RowOrderIsPermutation(f.height, f.interlaced, cy - f.top);
    }
  }

  lemma BeforeNone(h: nat)
    ensures RowsBefore(h, 0) == 0
  {
  }

  lemma BeforeStep(h: nat, pass: nat)
    ensures RowsBefore(h, pass + 1) == RowsBefore(h, pass) + RowsIn(h, pass)
  {
  }

  /** The frame is copied row by row in the order of the stream, cut off at the canvas's edges;
      the row to fall back on when the passes run out is never needed. */
  method CopyFrame<T>(f: Frame, indices: seq<Byte>, colours: seq<T>, canvas: array2<T>)
    requires |colours| == 256
    modifies canvas
    ensures forall cx: nat, cy: nat :: cx < canvas.Length1 && cy < canvas.Length0 ==>
      canvas[cy, cx] == if f.Covers(cx, cy) then colours[IndexAt(indices, f.Source(cx, cy))] else old(canvas[cy, cx])
  {
    hide Turn, RowAt, RowsIn, RowsBefore, FirstRow, RowStep, IndexAt, Frame.Source;
    var h, pass, row := f.height, 0, 0;
    AllRows(h);
    BeforeNone(h);
    for y := 0 to h
      invariant f.interlaced ==> pass < 4 && row <= RowsIn(h, pass) && y == RowsBefore(h, pass) + row
      invariant forall cx: nat, cy: nat :: cx < canvas.Length1 && cy < canvas.Length0 ==>
        canvas[cy, cx] == if Copied(f, y, cx, cy) then colours[IndexAt(indices, f.Source(cx, cy))] else old(canvas[cy, cx])
    {
      var target := y;
      if f.interlaced {
        while pass < 4 && FirstRow(pass) + row * RowStep(pass) >= h
          invariant pass <= 4 && y == RowsBefore(h, pass) + row
          invariant pass < 4 ==> row <= RowsIn(h, pass)
          modifies {}
          decreases 4 - pass
        {
          PassBound(h, pass, row);
          BeforeStep(h, pass);
          pass, row := pass + 1, 0;
        }
        assert pass < 4;
        PassBound(h, pass, row);
        TurnInPass(h, pass, row);
        target := if pass < 4 then FirstRow(pass) + row * RowStep(pass) else y;
        row := row + 1;
      } else {
        NotInterlaced(h, y);
      }
      CopyRow(f, y, target, indices, colours, canvas);
    }
    forall cx: nat, cy: nat | f.Covers(cx, cy) ensures Copied(f, h, cx, cy) {
      RowOrderIsPermutation(h, f.interlaced, cy - f.top);
    }
  }
}
