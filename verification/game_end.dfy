/** The end-of-game test `isGameEnded`: a side has three moves in one row, one column or one
    diagonal. It is checked against the plain rule of the game: one side holds all three cells of
    one of the eight lines. */
module GameEnd {
  import opened Board

  /** `moveX`: the row of every move. */
  function Xs(mr: Record): (xs: seq<int>)
    ensures |xs| == |mr|
    ensures forall i :: 0 <= i < |mr| ==> xs[i] == Decode(mr[i]).x
  {
    seq(|mr|, i requires 0 <= i < |mr| => Decode(mr[i]).x)
  }

  /** `moveY`: the column of every move. */
  function Ys(mr: Record): (ys: seq<int>)
    ensures |ys| == |mr|
    ensures forall i :: 0 <= i < |mr| ==> ys[i] == Decode(mr[i]).y
  {
    seq(|mr|, i requires 0 <= i < |mr| => Decode(mr[i]).y)
  }

  /** The row and column `isGameEnded` works out for each move are the position of the move's
      cell. */
  lemma CoordsEncode(mr: Record)
    requires AllCells(mr)
    ensures forall i :: 0 <= i < |mr| ==>
              OnBoard(Pos(Xs(mr)[i], Ys(mr)[i])) && Encode(Pos(Xs(mr)[i], Ys(mr)[i])) == mr[i]
  {
    forall i | 0 <= i < |mr|
      ensures OnBoard(Pos(Xs(mr)[i], Ys(mr)[i])) && Encode(Pos(Xs(mr)[i], Ys(mr)[i])) == mr[i]
    {
      assert Pos(Xs(mr)[i], Ys(mr)[i]) == Decode(mr[i]);
    }
  }

  /** One counting loop of `hasSameX`: how many of the positions `ii`, `ii+2`, ... hold `a`. */
  function CountFrom(xs: seq<int>, a: int, ii: nat): nat
    decreases |xs| - ii
  {
    if ii >= |xs| then 0
    else (if xs[ii] == a then 1 else 0) + CountFrom(xs, a, ii + 2)
  }

  /** `hasSameX(moveX, moveY, a)`: exactly three of the computer's entries (even positions) are
      `a`, or else exactly three of the person's (odd positions). The second array is unused;
      called with the arrays swapped it tests a column. */
  predicate HasSameX(xs: seq<int>, a: int) {
    CountFrom(xs, a, 0) == 3 || CountFrom(xs, a, 1) == 3
  }

  /** One flag of `hasDiagonal`: a move at position `ii`, `ii+2`, ... is at `(x, y)`. */
  predicate HasAt(xs: seq<int>, ys: seq<int>, x: int, y: int, ii: nat)
    requires |xs| == |ys|
    decreases |xs| - ii
  {
    ii < |xs| && ((xs[ii] == x && ys[ii] == y) || HasAt(xs, ys, x, y, ii + 2))
  }

  /** One pass of `hasDiagonal` for the side whose moves start at `side`: it holds (1,1), (2,2),
      (3,3), or else (1,3), (2,2), (3,1). */
  predicate HasDiagonalFor(xs: seq<int>, ys: seq<int>, side: nat)
    requires |xs| == |ys|
  {
    || (HasAt(xs, ys, 1, 1, side) && HasAt(xs, ys, 2, 2, side) && HasAt(xs, ys, 3, 3, side))
    || (HasAt(xs, ys, 1, 3, side) && HasAt(xs, ys, 2, 2, side) && HasAt(xs, ys, 3, 1, side))
  }

  /** `hasDiagonal`: the computer's pass, then the person's while nothing is found. */
  predicate HasDiagonal(xs: seq<int>, ys: seq<int>)
    requires |xs| == |ys|
  {
    HasDiagonalFor(xs, ys, 0) || HasDiagonalFor(xs, ys, 1)
  }

  /** `isGameEnded`: rows and columns 1 to 3 through `hasSameX`, then the diagonals. */
  predicate IsGameEnded(mr: Record) {
    var xs := Xs(mr);
    var ys := Ys(mr);
    || HasSameX(xs, 1) || HasSameX(ys, 1)
    || HasSameX(xs, 2) || HasSameX(ys, 2)
    || HasSameX(xs, 3) || HasSameX(ys, 3)
    || HasDiagonal(xs, ys)
  }

  // ----- The rule of the game -----

  /** The moves of one side: positions `ii`, `ii+2`, ... of the record. Side 0 is the computer,
      side 1 the person. */
  function MovesFrom(mr: Record, ii: nat): (ms: seq<int>)
    ensures |ms| == if ii >= |mr| then 0 else (|mr| - ii + 1) / 2
    ensures forall k :: 0 <= k < |ms| ==> ii + 2 * k < |mr| && ms[k] == mr[ii + 2 * k]
    decreases |mr| - ii
  {
    if ii >= |mr| then [] else [mr[ii]] + MovesFrom(mr, ii + 2)
  }

  /** A side holds every cell of a line. */
  predicate Taken(ms: seq<int>, line: seq<int>) {
    forall c :: c in line ==> c in ms
  }

  lemma TakenThree(ms: seq<int>, a: int, b: int, c: int)
    ensures Taken(ms, [a, b, c]) <==> a in ms && b in ms && c in ms
  {
    assert forall x :: x in [a, b, c] <==> x == a || x == b || x == c;
  }

  function Row(a: int): seq<int> {
    [(a - 1) * 3 + 1, (a - 1) * 3 + 2, (a - 1) * 3 + 3]
  }

  function Col(a: int): seq<int> {
    [a, a + 3, a + 6]
  }

  /** Moves that include a whole row, column or diagonal. */
  predicate HoldsLine(ms: seq<int>) {
    || Taken(ms, [1, 2, 3]) || Taken(ms, [4, 5, 6]) || Taken(ms, [7, 8, 9])
    || Taken(ms, [1, 4, 7]) || Taken(ms, [2, 5, 8]) || Taken(ms, [3, 6, 9])
    || Taken(ms, [1, 5, 9]) || Taken(ms, [3, 5, 7])
  }

  /** The lines spelled out cell by cell. */
  lemma HoldsLineCells(ms: seq<int>)
    ensures HoldsLine(ms) <==>
            || (1 in ms && 2 in ms && 3 in ms) || (4 in ms && 5 in ms && 6 in ms)
            || (7 in ms && 8 in ms && 9 in ms) || (1 in ms && 4 in ms && 7 in ms)
            || (2 in ms && 5 in ms && 8 in ms) || (3 in ms && 6 in ms && 9 in ms)
            || (1 in ms && 5 in ms && 9 in ms) || (3 in ms && 5 in ms && 7 in ms)
  {
    TakenThree(ms, 1, 2, 3);
    TakenThree(ms, 4, 5, 6);
    TakenThree(ms, 7, 8, 9);
    TakenThree(ms, 1, 4, 7);
    TakenThree(ms, 2, 5, 8);
    TakenThree(ms, 3, 6, 9);
    TakenThree(ms, 1, 5, 9);
    TakenThree(ms, 3, 5, 7);
  }

  /** A side has won: its moves hold a line. */
  predicate Wins(mr: Record, side: nat) {
    HoldsLine(MovesFrom(mr, side))
  }

  // ----- isGameEnded against the rule -----

  /** The number of moves in `ms` that lie on `line`. */
  function CountIn(ms: seq<int>, line: seq<int>): nat {
    if |ms| == 0 then 0 else (if ms[0] in line then 1 else 0) + CountIn(ms[1..], line)
  }

  function Ind(b: bool): nat {
    if b then 1 else 0
  }

  /** With no cell twice, the moves on a line of three cells count each cell at most once. */
  lemma {:induction false} CountInLine(ms: seq<int>, line: seq<int>)
    requires |line| == 3 && Distinct(line) && Distinct(ms)
    ensures CountIn(ms, line) == Ind(line[0] in ms) + Ind(line[1] in ms) + Ind(line[2] in ms)
  {
    if |ms| > 0 {
      var rest := ms[1..];
      assert ms == [ms[0]] + rest;
      CountInLine(rest, line);
      assert ms[0] !in rest;
    }
  }

  /** So a side has exactly three moves on a line just when it holds the whole line. */
  lemma CountThree(ms: seq<int>, line: seq<int>)
    requires |line| == 3 && Distinct(line) && Distinct(ms)
    ensures CountIn(ms, line) == 3 <==> Taken(ms, line)
  {
    CountInLine(ms, line);
    assert forall c :: c in line <==> c == line[0] || c == line[1] || c == line[2];
  }

  /** Counting the entries equal to `a` is counting the moves on the cells whose entry is `a`. */
  lemma {:induction false} CountFromLine(mr: Record, xs: seq<int>, a: int, line: seq<int>, ii: nat)
    requires |xs| == |mr|
    requires forall i {:trigger xs[i]} :: 0 <= i < |mr| ==> (xs[i] == a <==> mr[i] in line)
    ensures CountFrom(xs, a, ii) == CountIn(MovesFrom(mr, ii), line)
    decreases |mr| - ii
  {
    if ii < |mr| {
      CountFromLine(mr, xs, a, line, ii + 2);
      CountMovesStep(mr, line, ii);
      CountFromStep(xs, a, ii);
    } else {
      assert MovesFrom(mr, ii) == [];
    }
  }

  lemma CountFromStep(xs: seq<int>, a: int, ii: nat)
    requires ii < |xs|
    ensures CountFrom(xs, a, ii) == Ind(xs[ii] == a) + CountFrom(xs, a, ii + 2)
  {
  }

  /** The count of a side's moves on a line, one move at a time. */
  lemma CountMovesStep(mr: Record, line: seq<int>, ii: nat)
    requires ii < |mr|
    ensures CountIn(MovesFrom(mr, ii), line) == Ind(mr[ii] in line) + CountIn(MovesFrom(mr, ii + 2), line)
  {
    var ms := MovesFrom(mr, ii);
    assert ms[0] == mr[ii] && ms[1..] == MovesFrom(mr, ii + 2);
  }

  /** A position on the board is in row `a` exactly when its code is in `Row(a)`, and in
      column `a` exactly when its code is in `Col(a)`. */
  lemma RowColPos(p: Pos, a: int)
    requires OnBoard(p) && 1 <= a <= 3
    ensures p.x == a <==> Encode(p) in Row(a)
    ensures p.y == a <==> Encode(p) in Col(a)
  {
    assert p.x == 1 || p.x == 2 || p.x == 3;
    assert p.y == 1 || p.y == 2 || p.y == 3;
  }

  /** A cell is in row `a` exactly when it decodes to row `a`, and in column `a` exactly when it
      decodes to column `a`. */
  lemma RowCol(m: int, a: int)
    requires IsCell(m) && 1 <= a <= 3
    ensures Decode(m).x == a <==> m in Row(a)
    ensures Decode(m).y == a <==> m in Col(a)
  {
    RowColPos(Decode(m), a);
  }

  /** A diagonal flag is set exactly when the side's moves include the cell `(x, y)`. */
  lemma {:induction false} HasAtMoves(mr: Record, x: int, y: int, ii: nat)
    requires AllCells(mr) && OnBoard(Pos(x, y))
    ensures HasAt(Xs(mr), Ys(mr), x, y, ii) <==> Encode(Pos(x, y)) in MovesFrom(mr, ii)
    decreases |mr| - ii
  {
    if ii < |mr| {
      HasAtMoves(mr, x, y, ii + 2);
      var ms := MovesFrom(mr, ii);
      assert ms == [mr[ii]] + MovesFrom(mr, ii + 2);
      DecodeEncode(Pos(x, y));
      assert Decode(mr[ii]) == Pos(x, y) <==> mr[ii] == Encode(Pos(x, y));
    }
  }

  /** One side's moves never repeat a cell. */
  lemma MovesDistinct(mr: Record, ii: nat)
    requires Distinct(mr)
    ensures Distinct(MovesFrom(mr, ii))
  {
    var ms := MovesFrom(mr, ii);
    forall i, j | 0 <= i < j < |ms|
      ensures ms[i] != ms[j]
    {
      assert mr[ii + 2 * i] != mr[ii + 2 * j];
    }
  }

  /** Which entries of `moveX` and `moveY` equal `a`: the moves in row `a`, and in column `a`. */
  lemma CoordsOnLine(mr: Record, a: int)
    requires AllCells(mr) && 1 <= a <= 3
    ensures forall i :: 0 <= i < |mr| ==> (Xs(mr)[i] == a <==> mr[i] in Row(a))
    ensures forall i :: 0 <= i < |mr| ==> (Ys(mr)[i] == a <==> mr[i] in Col(a))
  {
    forall i | 0 <= i < |mr|
      ensures (Xs(mr)[i] == a <==> mr[i] in Row(a)) && (Ys(mr)[i] == a <==> mr[i] in Col(a))
    {
      RowCol(mr[i], a);
    }
  }

  /** Three cells in increasing order are three different cells. */
  lemma IncreasingThree(line: seq<int>)
    requires |line| == 3 && line[0] < line[1] < line[2]
    ensures Distinct(line)
  {
    forall i, j | 0 <= i < j < 3
      ensures line[i] != line[j]
    {
      assert line[i] < line[j];
    }
  }

  /** The row test of `hasSameX` for one side is the row line. */
  lemma SameRowTaken(mr: Record, side: nat, a: int)
    requires ValidRecord(mr) && 1 <= a <= 3
    ensures CountFrom(Xs(mr), a, side) == 3 <==> Taken(MovesFrom(mr, side), Row(a))
  {
    CoordsOnLine(mr, a);
    CountFromLine(mr, Xs(mr), a, Row(a), side);
    MovesDistinct(mr, side);
    IncreasingThree(Row(a));
    CountThree(MovesFrom(mr, side), Row(a));
  }

  /** The same test on `moveY` for one side is the column line. */
  lemma SameColTaken(mr: Record, side: nat, a: int)
    requires ValidRecord(mr) && 1 <= a <= 3
    ensures CountFrom(Ys(mr), a, side) == 3 <==> Taken(MovesFrom(mr, side), Col(a))
  {
    CoordsOnLine(mr, a);
    CountFromLine(mr, Ys(mr), a, Col(a), side);
    MovesDistinct(mr, side);
    IncreasingThree(Col(a));
    CountThree(MovesFrom(mr, side), Col(a));
  }

  /** The diagonal pass of `hasDiagonal` for one side is the two diagonal lines. */
  lemma DiagonalTaken(mr: Record, side: nat)
    requires ValidRecord(mr)
    ensures HasDiagonalFor(Xs(mr), Ys(mr), side) <==>
            Taken(MovesFrom(mr, side), [1, 5, 9]) || Taken(MovesFrom(mr, side), [3, 5, 7])
  {
    var ms := MovesFrom(mr, side);
    HasAtMoves(mr, 1, 1, side);
    HasAtMoves(mr, 2, 2, side);
    HasAtMoves(mr, 3, 3, side);
    HasAtMoves(mr, 1, 3, side);
    HasAtMoves(mr, 3, 1, side);
    assert Encode(Pos(1, 1)) == 1 && Encode(Pos(2, 2)) == 5 && Encode(Pos(3, 3)) == 9;
    assert Encode(Pos(1, 3)) == 3 && Encode(Pos(3, 1)) == 7;
    TakenThree(ms, 1, 5, 9);
    TakenThree(ms, 3, 5, 7);
  }

  /** All the tests `isGameEnded` makes for one side amount to that side holding a line. */
  lemma SideEnded(mr: Record, side: nat)
    requires ValidRecord(mr)
    ensures Wins(mr, side) <==>
            || CountFrom(Xs(mr), 1, side) == 3 || CountFrom(Ys(mr), 1, side) == 3
            || CountFrom(Xs(mr), 2, side) == 3 || CountFrom(Ys(mr), 2, side) == 3
            || CountFrom(Xs(mr), 3, side) == 3 || CountFrom(Ys(mr), 3, side) == 3
            || HasDiagonalFor(Xs(mr), Ys(mr), side)
  {
    SameRowTaken(mr, side, 1);
    SameRowTaken(mr, side, 2);
    SameRowTaken(mr, side, 3);
    SameColTaken(mr, side, 1);
    SameColTaken(mr, side, 2);
    SameColTaken(mr, side, 3);
    DiagonalTaken(mr, side);
    assert Row(1) == [1, 2, 3] && Row(2) == [4, 5, 6] && Row(3) == [7, 8, 9];
    assert Col(1) == [1, 4, 7] && Col(2) == [2, 5, 8] && Col(3) == [3, 6, 9];
  }

  /** `isGameEnded` holds exactly when the computer or the person holds a whole line. */
  lemma GameEndedIffWin(mr: Record)
    requires ValidRecord(mr)
    ensures IsGameEnded(mr) <==> Wins(mr, 0) || Wins(mr, 1)
  {
    SideEnded(mr, 0);
    SideEnded(mr, 1);
  }

  /** A move joins the moves of its own side: the side whose turn it is after `mr`. */
  lemma {:induction false} MovesAppendOwn(mr: Record, m: int, ii: nat)
    requires ii <= |mr| && (|mr| - ii) % 2 == 0
    ensures MovesFrom(mr + [m], ii) == MovesFrom(mr, ii) + [m]
    decreases |mr| - ii
  {
    if ii < |mr| {
      MovesAppendOwn(mr, m, ii + 2);
      AppendStep(mr, m, ii);
    }
  }

  /** The induction step of `MovesAppendOwn`. */
  lemma AppendStep(mr: Record, m: int, ii: nat)
    requires ii < |mr|
    requires MovesFrom(mr + [m], ii + 2) == MovesFrom(mr, ii + 2) + [m]
    ensures MovesFrom(mr + [m], ii) == MovesFrom(mr, ii) + [m]
  {
    MovesCons(mr + [m], ii);
    MovesCons(mr, ii);
    assert (mr + [m])[ii] == mr[ii];
  }

  /** A move leaves the moves of the other side alone. */
  lemma {:induction false} MovesAppendOther(mr: Record, m: int, ii: nat)
    requires (|mr| + ii) % 2 == 1
    ensures MovesFrom(mr + [m], ii) == MovesFrom(mr, ii)
    decreases |mr| - ii
  {
    if ii < |mr| {
      MovesAppendOther(mr, m, ii + 2);
      MovesCons(mr + [m], ii);
      MovesCons(mr, ii);
      assert (mr + [m])[ii] == mr[ii];
    }
  }

  /** The moves of a side from `ii` on: the move at `ii`, then those from two moves later. */
  lemma MovesCons(mr: Record, ii: nat)
    requires ii < |mr|
    ensures MovesFrom(mr, ii) == [mr[ii]] + MovesFrom(mr, ii + 2)
  {
  }

  /** A move leaves the other side's moves as they were: after an even number of moves the
      computer moves and the person's moves stay, after an odd number the reverse. */
  lemma OtherSideUnchanged(mr: Record, m: int)
    ensures |mr| % 2 == 0 ==> MovesFrom(mr + [m], 1) == MovesFrom(mr, 1)
    ensures |mr| % 2 == 1 ==> MovesFrom(mr + [m], 0) == MovesFrom(mr, 0)
  {
    if |mr| % 2 == 0 {
      PersonMovesKept(mr, m);
    } else {
      ComputerMovesKept(mr, m);
    }
  }

  lemma PersonMovesKept(mr: Record, m: int)
    requires |mr| % 2 == 0
    ensures MovesFrom(mr + [m], 1) == MovesFrom(mr, 1)
  {
    MovesAppendOther(mr, m, 1);
  }

  lemma ComputerMovesKept(mr: Record, m: int)
    requires |mr| % 2 == 1
    ensures MovesFrom(mr + [m], 0) == MovesFrom(mr, 0)
  {
    MovesAppendOther(mr, m, 0);
  }

  /** Checked after every move, the game first ends on a line completed by the side that just
      moved (the computer after an even number of earlier moves, the person after an odd
      number), and the other side holds no line. */
  lemma WinnerMovedLast(mr: Record, m: int)
    requires ValidRecord(mr + [m])
    requires !IsGameEnded(mr) && IsGameEnded(mr + [m])
    ensures |mr| % 2 == 0 ==> Wins(mr + [m], 0) && !Wins(mr + [m], 1)
    ensures |mr| % 2 == 1 ==> Wins(mr + [m], 1) && !Wins(mr + [m], 0)
  {
    PrefixValid(mr, m);
    GameEndedIffWin(mr);
    GameEndedIffWin(mr + [m]);
    FirstWinIsOwn(mr, m);
  }

  /** When neither side held a line before a move and one does after it, it is the side that
      moved, and the other still holds none. */
  lemma FirstWinIsOwn(mr: Record, m: int)
    requires !Wins(mr, 0) && !Wins(mr, 1)
    requires Wins(mr + [m], 0) || Wins(mr + [m], 1)
    ensures |mr| % 2 == 0 ==> Wins(mr + [m], 0) && !Wins(mr + [m], 1)
    ensures |mr| % 2 == 1 ==> Wins(mr + [m], 1) && !Wins(mr + [m], 0)
  {
    OtherSideUnchanged(mr, m);
  }

  /** The computer's diagonal 1, 5, 9 ends the game. */
  lemma DiagonalWinEnds(mr: Record)
    requires mr == [1, 2, 5, 3, 9]
    ensures IsGameEnded(mr) && Wins(mr, 0)
  {
    assert MovesFrom(mr, 0) == [1, 5, 9];
    TakenThree([1, 5, 9], 1, 5, 9);
    DiagonalGameValid(mr);
    GameEndedIffWin(mr);
  }

  lemma DiagonalGameValid(mr: Record)
    requires mr == [1, 2, 5, 3, 9]
    ensures ValidRecord(mr)
  {
    var r2 := [1, 2];
    AppendValid(r2, 5);
    AppendValid(r2 + [5], 3);
    AppendValid(r2 + [5] + [3], 9);
    assert mr == r2 + [5] + [3] + [9];
  }

  /** A full board where no side holds a line is not an ended game: `isGameEnded` has no notion
      of a draw, which the nine-move limit of `play` supplies. */
  lemma FullBoardNotEnded(mr: Record)
    requires ValidRecord(mr) && |mr| == MAX_MOVE_NUMBER
    requires !Wins(mr, 0) && !Wins(mr, 1)
    ensures !IsGameEnded(mr)
  {
    GameEndedIffWin(mr);
  }

  /** Such a board exists: the computer holds 1, 3, 4, 8, 9 and the person 2, 5, 6, 7. */
  lemma DrawnBoard(mr: Record)
    requires mr == [1, 2, 3, 5, 4, 6, 8, 7, 9]
    ensures ValidRecord(mr) && |mr| == MAX_MOVE_NUMBER && !IsGameEnded(mr)
  {
    FullBoardValid(mr);
    FullBoardNoLine(mr);
    FullBoardNotEnded(mr);
  }

  lemma FullBoardValid(mr: Record)
    requires mr == [1, 2, 3, 5, 4, 6, 8, 7, 9]
    ensures ValidRecord(mr)
  {
    var r3 := [1] + [2, 3];
    AppendTwoValid([1], 2, 3);
    var r5 := r3 + [5, 4];
    AppendTwoValid(r3, 5, 4);
    var r7 := r5 + [6, 8];
    AppendTwoValid(r5, 6, 8);
    AppendTwoValid(r7, 7, 9);
    assert mr == r7 + [7, 9];
  }

  /** Two more unplayed cells keep a record valid. */
  lemma AppendTwoValid(mr: Record, a: int, b: int)
    requires ValidRecord(mr) && |mr| + 2 <= MAX_MOVE_NUMBER
    requires IsCell(a) && IsCell(b) && a != b && a !in mr && b !in mr
    ensures ValidRecord(mr + [a, b])
  {
    AppendValid(mr, a);
    AppendValid(mr + [a], b);
    assert mr + [a] + [b] == mr + [a, b];
  }

  /** In that game the computer holds 1, 3, 4, 8, 9 and the person 2, 5, 6, 7: neither holds a
      line. */
  lemma FullBoardNoLine(mr: Record)
    requires mr == [1, 2, 3, 5, 4, 6, 8, 7, 9]
    ensures !Wins(mr, 0) && !Wins(mr, 1)
  {
    assert MovesFrom(mr, 0) == [1, 3, 4, 8, 9];
    assert MovesFrom(mr, 1) == [2, 5, 6, 7];
    NoLine([1, 3, 4, 8, 9]);
    NoLine([2, 5, 6, 7]);
  }

  lemma NoLine(ms: seq<int>)
    requires ms == [1, 3, 4, 8, 9] || ms == [2, 5, 6, 7]
    ensures !HoldsLine(ms)
  {
    HoldsLineCells(ms);
    assert 2 !in [1, 3, 4, 8, 9] && 5 !in [1, 3, 4, 8, 9] && 7 !in [1, 3, 4, 8, 9];
    assert 1 !in [2, 5, 6, 7] && 3 !in [2, 5, 6, 7] && 8 !in [2, 5, 6, 7] && 9 !in [2, 5, 6, 7];
  }
}
