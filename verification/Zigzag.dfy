/** The order in which a JPEG lists the 64 coefficients of a block (Figure A.6 of ITU-T T.81):
    along the diagonals from the top left, turning at each edge. */
module Zigzag {

  /** The decoder's table, eight entries at a time. */
  function Row(n: nat): (row: seq<nat>)
    ensures |row| == 8
  {
    if n == 0 then [0, 1, 8, 16, 9, 2, 3, 10]
    else if n == 1 then [17, 24, 32, 25, 18, 11, 4, 5]
    else if n == 2 then [12, 19, 26, 33, 40, 48, 41, 34]
    else if n == 3 then [27, 20, 13, 6, 7, 14, 21, 28]
    else if n == 4 then [35, 42, 49, 56, 57, 50, 43, 36]
    else if n == 5 then [29, 22, 15, 23, 30, 37, 44, 51]
    else if n == 6 then [58, 59, 52, 45, 38, 31, 39, 46]
    else [53, 60, 61, 54, 47, 55, 62, 63]
  }

  function Cell(k: nat): nat { Row(k / 8)[k % 8] }

  /** The cells on the diagonals before the `d`-th. */
  function Before(d: nat): nat { if d == 0 then 0 else Before(d - 1) + d }

  /** The place on the walk of a cell above or on the long diagonal: all shorter diagonals come
      first, and every other one is walked upwards. */
  function Upper(row: nat, column: nat): nat
  {
    var d := row + column;
    Before(d) + if d % 2 == 1 then row else column
  }

  /** The place on the walk of cell `i`; the lower half mirrors the upper. */
  function Turn(i: nat): int
    requires i < 64
  {
    var row, column := i / 8, i % 8;
    if row + column < 8 then Upper(row, column) else 63 - Upper(7 - row, 7 - column)
  }

  /** The table lists the cells in the order of the walk, so it lists each cell once. */
  lemma ZigzagIsTheWalk(k: nat)
    requires k < 64
    ensures Cell(k) < 64 && Turn(Cell(k)) == k
  {
    hide Turn, Before;
    var n, i := k / 8, k % 8;
    match n {
      case 0 => Row0(i);
      case 1 => Row1(i);
      case 2 => Row2(i);
      case 3 => Row3(i);
      case 4 => Row4(i);
      case 5 => Row5(i);
      case 6 => Row6(i);
      case 7 => Row7(i);
    }
  }

  lemma Diagonals()
    ensures Before(0) == 0 && Before(1) == 1 && Before(2) == 3 && Before(3) == 6
    ensures Before(4) == 10 && Before(5) == 15 && Before(6) == 21 && Before(7) == 28
  {
  }

  lemma Row0(i: nat)
    requires i < 8
    ensures Row(0)[i] < 64 && Turn(Row(0)[i]) == i
  {
    hide Before;
    Diagonals();
  }

  lemma Row1(i: nat)
    requires i < 8
    ensures Row(1)[i] < 64 && Turn(Row(1)[i]) == 8 + i
  {
    hide Before;
    Diagonals();
  }

  lemma Row2(i: nat)
    requires i < 8
    ensures Row(2)[i] < 64 && Turn(Row(2)[i]) == 16 + i
  {
    hide Before;
    Diagonals();
  }

  lemma Row3(i: nat)
    requires i < 8
    ensures Row(3)[i] < 64 && Turn(Row(3)[i]) == 24 + i
  {
    hide Before;
    Diagonals();
  }

  lemma Row4(i: nat)
    requires i < 8
    ensures Row(4)[i] < 64 && Turn(Row(4)[i]) == 32 + i
  {
    hide Before;
    Diagonals();
  }

  lemma Row5(i: nat)
    requires i < 8
    ensures Row(5)[i] < 64 && Turn(Row(5)[i]) == 40 + i
  {
    hide Before;
    Diagonals();
  }

  lemma Row6(i: nat)
    requires i < 8
    ensures Row(6)[i] < 64 && Turn(Row(6)[i]) == 48 + i
  {
    hide Before;
    Diagonals();
  }

  lemma Row7(i: nat)
    requires i < 8
    ensures Row(7)[i] < 64 && Turn(Row(7)[i]) == 56 + i
  {
    hide Before;
    Diagonals();
  }

  /** The walk from cell to cell: along the diagonals, upwards on the even ones and downwards on the odd
      ones, and at the edges to the right at the top and the bottom and down at the sides. */
  function After(cell: nat): nat
  {
    var row, column := cell / 8, cell % 8;
    if (row + column) % 2 == 0 then
      if column == 7 then cell + 8 else if row == 0 then cell + 1 else cell - 7
    else if row == 7 then cell + 1 else if column == 0 then cell + 8 else cell + 7
  }

  /** The table begins at the top left and takes each step of the walk. */
  lemma WalkStep(k: nat)
    requires k < 63
    ensures Cell(0) == 0 && Cell(k + 1) == After(Cell(k))
  {
    hide Row, After;
    var n, i := k / 8, k % 8;
    FirstOfRow0();
    if i < 7 {
      match n {
        case 0 => Steps0(i);
        case 1 => Steps1(i);
        case 2 => Steps2(i);
        case 3 => Steps3(i);
        case 4 => Steps4(i);
        case 5 => Steps5(i);
        case 6 => Steps6(i);
        case 7 => Steps7(i);
      }
    } else {
      BetweenRows(n);
    }
  }

  lemma FirstOfRow0()
    ensures Row(0)[0] == 0
  {
  }

  lemma Steps0(i: nat)
    requires i < 7
    ensures Row(0)[i + 1] == After(Row(0)[i])
  {
  }

  lemma Steps1(i: nat)
    requires i < 7
    ensures Row(1)[i + 1] == After(Row(1)[i])
  {
  }

  lemma Steps2(i: nat)
    requires i < 7
    ensures Row(2)[i + 1] == After(Row(2)[i])
  {
  }

  lemma Steps3(i: nat)
    requires i < 7
    ensures Row(3)[i + 1] == After(Row(3)[i])
  {
  }

  lemma Steps4(i: nat)
    requires i < 7
    ensures Row(4)[i + 1] == After(Row(4)[i])
  {
  }

  lemma Steps5(i: nat)
    requires i < 7
    ensures Row(5)[i + 1] == After(Row(5)[i])
  {
  }

  lemma Steps6(i: nat)
    requires i < 7
    ensures Row(6)[i + 1] == After(Row(6)[i])
  {
  }

  lemma Steps7(i: nat)
    requires i < 7
    ensures Row(7)[i + 1] == After(Row(7)[i])
  {
  }

  lemma BetweenRows(n: nat)
    requires n < 7
    ensures Row(n + 1)[0] == After(Row(n)[7])
  {
  }
}
