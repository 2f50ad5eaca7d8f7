/** Choosing a move: the lose moves the patterns forbid next (`getLoseHistoricalMoves`), and
    the draw that picks the k-th cell that is neither played nor forbidden (`computerMove`,
    and `personMoveSimulated` without the forbidden set). */
module MoveSelection {
  import opened Results
  import opened JavaText
  import opened Board

  /** What a pattern forbids next: when it is one move longer than the game so far and starts
      with it, its last move, unless that cell is already played. */
  function LoseMoveOf(pattern: Option<string>, t: string): string {
    if pattern.Some? && |pattern.value| == |t| + 1 && pattern.value[..|t|] == t
       && pattern.value[|t|] !in t
    then [pattern.value[|t|]]
    else ""
  }

  /** The lose moves of the given pattern entries, in array order. */
  function LoseMovesIn(patterns: seq<Option<string>>, t: string): string {
    if |patterns| == 0 then ""
    else LoseMovesIn(patterns[..|patterns| - 1], t) + LoseMoveOf(patterns[|patterns| - 1], t)
  }

  /** No lose move is a cell the game has already taken. */
  lemma {:induction false} LoseMovesFree(patterns: seq<Option<string>>, t: string)
    ensures forall c :: c in LoseMovesIn(patterns, t) ==> c !in t
  {
    if |patterns| > 0 {
      LoseMovesFree(patterns[..|patterns| - 1], t);
    }
  }

  /** `getLoseHistoricalMoves`: the scan starts at index 1, so the first entry of the pattern
      array is never consulted; `null` entries are skipped. Repeats are kept. */
  function HistoricalLoseMoves(patterns: seq<Option<string>>, mr: Record): (hist: string)
    requires AllCells(mr)
    ensures forall c :: c in hist ==> c !in Text(mr)
  {
    if |patterns| == 0 then ""
    else
      LoseMovesFree(patterns[1..], Text(mr));
      LoseMovesIn(patterns[1..], Text(mr))
  }

  /** A character is a lose move exactly when some pattern entry after the first is one move
      longer than the game, starts with it, ends with that character, and that cell is free. */
  lemma {:induction false} LoseMovesExact(patterns: seq<Option<string>>, t: string, c: char)
    ensures c in LoseMovesIn(patterns, t) <==>
            exists i :: 0 <= i < |patterns| && patterns[i].Some? &&
                        |patterns[i].value| == |t| + 1 && patterns[i].value[..|t|] == t &&
                        patterns[i].value[|t|] == c && c !in t
  {
    if |patterns| > 0 {
      var front := patterns[..|patterns| - 1];
      LoseMovesExact(front, t, c);
      if exists i :: 0 <= i < |front| && front[i].Some? &&
                     |front[i].value| == |t| + 1 && front[i].value[..|t|] == t &&
                     front[i].value[|t|] == c && c !in t {
        var i :| 0 <= i < |front| && front[i].Some? &&
                 |front[i].value| == |t| + 1 && front[i].value[..|t|] == t &&
                 front[i].value[|t|] == c && c !in t;
        assert patterns[i] == front[i];
      }
    }
  }

  lemma HistoricalLoseMovesExact(patterns: seq<Option<string>>, mr: Record, c: char)
    requires AllCells(mr)
    ensures c in HistoricalLoseMoves(patterns, mr) <==>
            exists i :: 1 <= i < |patterns| && patterns[i].Some? &&
                        |patterns[i].value| == |mr| + 1 && patterns[i].value[..|mr|] == Text(mr) &&
                        patterns[i].value[|mr|] == c && c !in Text(mr)
  {
    var t := Text(mr);
    if |patterns| > 0 {
      var rest := patterns[1..];
      LoseMovesExact(rest, t, c);
      if exists i :: 0 <= i < |rest| && rest[i].Some? &&
                     |rest[i].value| == |t| + 1 && rest[i].value[..|t|] == t &&
                     rest[i].value[|t|] == c && c !in t {
        var i :| 0 <= i < |rest| && rest[i].Some? &&
                 |rest[i].value| == |t| + 1 && rest[i].value[..|t|] == t &&
                 rest[i].value[|t|] == c && c !in t;
        assert patterns[i + 1] == rest[i];
      }
      if exists i :: 1 <= i < |patterns| && patterns[i].Some? &&
                     |patterns[i].value| == |t| + 1 && patterns[i].value[..|t|] == t &&
                     patterns[i].value[|t|] == c && c !in t {
        var i :| 1 <= i < |patterns| && patterns[i].Some? &&
                 |patterns[i].value| == |t| + 1 && patterns[i].value[..|t|] == t &&
                 patterns[i].value[|t|] == c && c !in t;
        assert rest[i - 1] == patterns[i];
      }
    }
  }

  /** Whatever the first entry of the pattern array holds, the lose moves are the same. */
  lemma FirstPatternIgnored(patterns: seq<Option<string>>, mr: Record, p: Option<string>)
    requires AllCells(mr) && |patterns| > 0
    ensures HistoricalLoseMoves(patterns[0 := p], mr) == HistoricalLoseMoves(patterns, mr)
  {
    assert patterns[0 := p][1..] == patterns[1..];
  }

  /** A pattern entry forbids `c` after the game `t`: it is one move longer than `t`, starts
      with it, ends with `c`, and that cell is free. */
  predicate Forbids(pattern: Option<string>, t: string, c: char) {
    && pattern.Some? && |pattern.value| == |t| + 1 && pattern.value[..|t|] == t
    && pattern.value[|t|] == c && c !in t
  }

  /** The indices from `lo` up to `n` of the entries that forbid `c` after `t`. */
  function Forbidding(patterns: seq<Option<string>>, t: string, c: char, lo: int, n: int): set<int> {
    set i | lo <= i < n && 0 <= i < |patterns| && Forbids(patterns[i], t, c)
  }

  /** The lose moves of the entries from `lo` up to `n` name `c` once for every one of those
      entries that forbids it. */
  lemma {:induction false} LoseMovesCount(patterns: seq<Option<string>>, t: string, c: char, lo: nat, n: nat)
    requires lo <= n <= |patterns|
    ensures multiset(LoseMovesIn(patterns[lo..n], t))[c] == |Forbidding(patterns, t, c, lo, n)|
    decreases n - lo
  {
    if n > lo {
      LoseMovesCount(patterns, t, c, lo, n - 1);
      LoseMovesCountSnoc(patterns, t, c, lo, n);
      ForbiddingSnoc(patterns, t, c, lo, n);
    } else {
      assert Forbidding(patterns, t, c, lo, n) == {};
    }
  }

  /** One more entry adds one to the count of `c` when it forbids `c`. */
  lemma LoseMovesCountSnoc(patterns: seq<Option<string>>, t: string, c: char, lo: nat, n: nat)
    requires lo < n <= |patterns|
    ensures multiset(LoseMovesIn(patterns[lo..n], t))[c] ==
            multiset(LoseMovesIn(patterns[lo..n - 1], t))[c] + (if Forbids(patterns[n - 1], t, c) then 1 else 0)
  {
    LoseMovesSnoc(patterns, t, lo, n);
    LoseMoveOfCount(patterns[n - 1], t, c);
  }

  /** The lose moves of one more entry: those before it, then its own. */
  lemma LoseMovesSnoc(patterns: seq<Option<string>>, t: string, lo: nat, n: nat)
    requires lo < n <= |patterns|
    ensures LoseMovesIn(patterns[lo..n], t) == LoseMovesIn(patterns[lo..n - 1], t) + LoseMoveOf(patterns[n - 1], t)
  {
    var ps := patterns[lo..n];
    assert ps[..|ps| - 1] == patterns[lo..n - 1];
    assert ps[|ps| - 1] == patterns[n - 1];
  }

  /** One entry names `c` once when it forbids it, and otherwise not at all. */
  lemma LoseMoveOfCount(pattern: Option<string>, t: string, c: char)
    ensures multiset(LoseMoveOf(pattern, t))[c] == if Forbids(pattern, t, c) then 1 else 0
  {
  }

  /** Widening the range by one entry adds its index exactly when it forbids `c`. */
  lemma ForbiddingSnoc(patterns: seq<Option<string>>, t: string, c: char, lo: nat, n: nat)
    requires lo < n <= |patterns|
    ensures |Forbidding(patterns, t, c, lo, n)| ==
            |Forbidding(patterns, t, c, lo, n - 1)| + (if Forbids(patterns[n - 1], t, c) then 1 else 0)
  {
    var before := Forbidding(patterns, t, c, lo, n - 1);
    assert n - 1 !in before;
    if Forbids(patterns[n - 1], t, c) {
      assert Forbidding(patterns, t, c, lo, n) == before + {n - 1};
    } else {
      assert Forbidding(patterns, t, c, lo, n) == before;
    }
  }

  /** `getLoseHistoricalMoves` names a character once for every pattern entry from index 1 on
      that forbids it, so a cell forbidden by several patterns is named several times. */
  lemma HistoricalLoseMovesCount(patterns: seq<Option<string>>, mr: Record, c: char)
    requires AllCells(mr)
    ensures multiset(HistoricalLoseMoves(patterns, mr))[c] == |Forbidding(patterns, Text(mr), c, 1, |patterns|)|
  {
    if |patterns| == 0 {
      assert Forbidding(patterns, Text(mr), c, 1, |patterns|) == {};
    } else {
      assert patterns[1..] == patterns[1..|patterns|];
      LoseMovesCount(patterns, Text(mr), c, 1, |patterns|);
    }
  }

  /** Two patterns that forbid the same cell put it in the lose moves twice. */
  lemma RepeatedLoseMove()
    ensures HistoricalLoseMoves([None, Some("15"), Some("15")], [1]) == "55"
  {
    var patterns := [None, Some("15"), Some("15")];
    var t := Text([1]);
    assert t == "1";
    assert "15"[..1] == "1";
    var rest := patterns[1..];
    assert rest[..1][..0] == [];
    assert rest[..1] == [Some("15")];
    assert LoseMovesIn(rest[..1], t) == "5";
  }

  /** A cell the computer may take: not played and not a lose move. */
  predicate Eligible(mr: Record, hist: string, m: int) {
    IsCell(m) && m !in mr && DigitChar(m) !in hist
  }

  /** The eligible cells from `lo` to 9, ascending. */
  function EligibleFrom(mr: Record, hist: string, lo: nat): (es: seq<int>)
    requires lo >= 1
    ensures forall i :: 0 <= i < |es| ==> lo <= es[i] <= 9 && Eligible(mr, hist, es[i])
    ensures forall i, j :: 0 <= i < j < |es| ==> es[i] < es[j]
    decreases 10 - lo
  {
    if lo > 9 then []
    else if Eligible(mr, hist, lo) then [lo] + EligibleFrom(mr, hist, lo + 1)
    else EligibleFrom(mr, hist, lo + 1)
  }

  /** No eligible cell from `lo` to 9 is missing from the list. */
  lemma {:induction false} EligibleFromComplete(mr: Record, hist: string, lo: nat, m: int)
    requires 1 <= lo <= m <= 9 && Eligible(mr, hist, m)
    ensures m in EligibleFrom(mr, hist, lo)
    decreases 10 - lo
  {
    if lo < m {
      EligibleFromComplete(mr, hist, lo + 1, m);
    }
  }

  /** The eligible cells in ascending order: the k-th of them is the k-th draw. */
  function EligibleCells(mr: Record, hist: string): seq<int> {
    EligibleFrom(mr, hist, 1)
  }

  /** The set of cells whose digit occurs in `s`. */
  function DigitCells(s: string): set<int> {
    set m | 1 <= m <= 9 && DigitChar(m) in s
  }

  lemma {:induction false} DigitCellsBound(s: string)
    ensures |DigitCells(s)| <= |s|
  {
    if |s| > 0 {
      var front := s[..|s| - 1];
      DigitCellsBound(front);
      var c := s[|s| - 1];
      assert s == front + [c];
      if IsDigit(c) && DigitValue(c) >= 1 {
        assert DigitCells(s) <= DigitCells(front) + {DigitValue(c)};
        SubsetCard(DigitCells(s), DigitCells(front) + {DigitValue(c)});
      } else {
        assert DigitCells(s) <= DigitCells(front);
        SubsetCard(DigitCells(s), DigitCells(front));
      }
    } else {
      assert DigitCells(s) == {};
    }
  }

  lemma SubsetCard<T>(a: set<T>, b: set<T>)
    requires a <= b
    ensures |a| <= |b|
  {
    assert b == a + (b - a);
  }

  lemma {:induction false} DistinctSetCard(s: seq<int>)
    requires Distinct(s)
    ensures |set x | x in s| == |s|
  {
    if |s| > 0 {
      var front := s[..|s| - 1];
      DistinctSetCard(front);
      assert (set x | x in s) == (set x | x in front) + {s[|s| - 1]};
    }
  }

  /** The cells 1..9 as a set. */
  function AllCellSet(): (cs: set<int>)
    ensures |cs| == 9
    ensures forall m :: m in cs <==> IsCell(m)
  {
    {1, 2, 3, 4, 5, 6, 7, 8, 9}
  }

  /** Every cell that is neither played nor named by a lose move is eligible, so at least
      `9 - |mr| - |DigitCells(hist)|` cells are: the played cells are `|mr|` distinct cells. */
  lemma EligibleCellCount(mr: Record, hist: string)
    requires ValidRecord(mr)
    ensures |EligibleCells(mr, hist)| >= 9 - |mr| - |DigitCells(hist)|
  {
    var es := EligibleCells(mr, hist);
    var played := set x | x in mr;
    var forbidden := DigitCells(hist);
    var free := AllCellSet() - played - forbidden;
    DistinctSetCard(mr);
    forall m | m in free
      ensures m in es
    {
      EligibleFromComplete(mr, hist, 1, m);
    }
    assert free == set x | x in es;
    assert AllCellSet() <= free + played + forbidden;
    SubsetCard(AllCellSet(), free + played + forbidden);
    DistinctSetCard(es);
  }

  /** At least `9 - |mr| - |hist|` cells stay eligible: the lose moves name at most `|hist|`
      cells. */
  lemma EligibleCount(mr: Record, hist: string)
    requires ValidRecord(mr)
    ensures |EligibleCells(mr, hist)| >= 9 - |mr| - |hist|
  {
    EligibleCellCount(mr, hist);
    DigitCellsBound(hist);
  }

  /** The draw loop of `computerMove`: `tempMove` times, step to the next cell and on past every
      cell that is played or a lose move. When there are at least `tempMove` eligible cells the
      loop stops on the `tempMove`-th of them. */
  method PickMove(mr: Record, hist: string, tempMove: int) returns (move: int)
    requires AllCells(mr)
    requires 1 <= tempMove <= |EligibleCells(mr, hist)|
    ensures Eligible(mr, hist, move)
    ensures move == EligibleCells(mr, hist)[tempMove - 1]
  {
    var es := EligibleCells(mr, hist);
    move := 0;
    var ii := 0;
    while ii < tempMove
      invariant 0 <= ii <= tempMove <= |es|
      invariant ii == 0 ==> move == 0
      invariant ii > 0 ==> move == es[ii - 1]
    {
      NextStart(mr, hist, ii, move);
      move := SkipTaken(mr, hist, move + 1, ii);
      ii := ii + 1;
    }
  }

  /** One past the last cell drawn is where the search for the next eligible cell starts:
      above the cells already drawn and not past the next one. */
  lemma NextStart(mr: Record, hist: string, ii: nat, move: int)
    requires ii < |EligibleCells(mr, hist)|
    requires ii == 0 ==> move == 0
    requires ii > 0 ==> move == EligibleCells(mr, hist)[ii - 1]
    ensures ii > 0 ==> EligibleCells(mr, hist)[ii - 1] < move + 1
    ensures 1 <= move + 1 <= EligibleCells(mr, hist)[ii]
  {
    var es := EligibleCells(mr, hist);
    assert ii > 0 ==> es[ii - 1] < es[ii];
  }

  /** The inner loop of the draw: from `start`, step past every cell that is played or a lose
      move. Started just above the `(ii-1)`-th eligible cell, it stops on the `ii`-th. */
  method SkipTaken(mr: Record, hist: string, start: int, ii: nat) returns (move: int)
    requires AllCells(mr)
    requires ii < |EligibleCells(mr, hist)|
    requires ii > 0 ==> EligibleCells(mr, hist)[ii - 1] < start
    requires 1 <= start <= EligibleCells(mr, hist)[ii]
    ensures move == EligibleCells(mr, hist)[ii]
  {
    var es := EligibleCells(mr, hist);
    var t := Text(mr);
    move := start;
    while IndexOf(t, DigitChar(move)) >= 0 || IndexOf(hist, DigitChar(move)) >= 0
      invariant 1 <= move <= es[ii]
      invariant ii > 0 ==> es[ii - 1] < move
      decreases es[ii] - move
    {
      TextHas(mr, move);
      assert Eligible(mr, hist, es[ii]);
      assert move < es[ii];
      move := move + 1;
    }
    TextHas(mr, move);
    NextEligible(mr, hist, ii, move);
  }

  /** An eligible cell above the `(ii-1)`-th eligible cell and not above the `ii`-th is the
      `ii`-th. */
  lemma NextEligible(mr: Record, hist: string, ii: nat, move: int)
    requires ii < |EligibleCells(mr, hist)|
    requires ii > 0 ==> EligibleCells(mr, hist)[ii - 1] < move
    requires 1 <= move <= EligibleCells(mr, hist)[ii]
    requires Eligible(mr, hist, move)
    ensures move == EligibleCells(mr, hist)[ii]
  {
    var es := EligibleCells(mr, hist);
    EligibleFromComplete(mr, hist, 1, move);
    assert move in es;
    assert forall k :: 0 <= k < ii ==> es[k] < move by {
      forall k | 0 <= k < ii
        ensures es[k] < move
      {
        assert k == ii - 1 || es[k] < es[ii - 1];
      }
    }
    assert forall k :: ii < k < |es| ==> move < es[k];
  }

  /** `nextInt` with a bound of 0 or less throws. */
  datatype MoveError = EmptyDrawRange

  /** The bound `computerMove` passes to `nextInt`. */
  function DrawBound(mr: Record, hist: string): int {
    MAX_MOVE_NUMBER - |mr| - |hist|
  }

  /** `computerMove` with the random draw `draw` in `[0, bound)`: the move is the
      `(draw+1)`-th cell that is neither played nor a lose move, appended to the record, which
      stays a valid record. When the lose moves leave no room the draw throws. */
  method ComputerMove(patterns: seq<Option<string>>, mr: Record, draw: int)
    returns (r: Result<Record, MoveError>)
    requires ValidRecord(mr)
    requires 0 <= draw
    requires DrawBound(mr, HistoricalLoseMoves(patterns, mr)) > 0 ==>
             draw < DrawBound(mr, HistoricalLoseMoves(patterns, mr))
    ensures r.Failure? <==> DrawBound(mr, HistoricalLoseMoves(patterns, mr)) <= 0
    ensures r.Success? ==>
              var hist := HistoricalLoseMoves(patterns, mr);
              && |r.value| == |mr| + 1 && r.value[..|mr|] == mr
              && Eligible(mr, hist, r.value[|mr|])
              && draw < |EligibleCells(mr, hist)| && r.value[|mr|] == EligibleCells(mr, hist)[draw]
              && ValidRecord(r.value)
  {
    var hist := HistoricalLoseMoves(patterns, mr);
    var bound := MAX_MOVE_NUMBER - |mr| - |hist|;
    if bound <= 0 {
      return Failure(EmptyDrawRange);
    }
    EligibleCount(mr, hist);
    var move := PickMove(mr, hist, draw + 1);
    r := Success(mr + [move]);
    AppendValid(mr, move);
  }

  /** `personMoveSimulated`: the same draw over the unplayed cells only. */
  method PersonMoveSimulated(mr: Record, draw: int) returns (r: Result<Record, MoveError>)
    requires ValidRecord(mr)
    requires 0 <= draw
    requires MAX_MOVE_NUMBER - |mr| > 0 ==> draw < MAX_MOVE_NUMBER - |mr|
    ensures r.Failure? <==> |mr| == MAX_MOVE_NUMBER
    ensures r.Success? ==>
              && |r.value| == |mr| + 1 && r.value[..|mr|] == mr
              && r.value[|mr|] !in mr
              && draw < |EligibleCells(mr, "")| && r.value[|mr|] == EligibleCells(mr, "")[draw]
              && ValidRecord(r.value)
  {
    var bound := MAX_MOVE_NUMBER - |mr|;
    if bound <= 0 {
      return Failure(EmptyDrawRange);
    }
    EligibleCount(mr, "");
    var move := PickMove(mr, "", draw + 1);
    r := Success(mr + [move]);
    AppendValid(mr, move);
  }

  /** A lose move found twice still counts twice in the draw bound, so the bound falls below
      the number of eligible cells and the last eligible cell can never be drawn. */
  lemma RepeatNarrowsDraw(mr: Record, hist: string)
    requires ValidRecord(mr)
    requires |hist| >= 1 && hist[|hist| - 1] in hist[..|hist| - 1]
    ensures DrawBound(mr, hist) < |EligibleCells(mr, hist)|
  {
    var front := hist[..|hist| - 1];
    assert hist == front + [hist[|hist| - 1]];
    assert DigitCells(hist) == DigitCells(front);
    DigitCellsBound(front);
    EligibleCellCount(mr, hist);
  }
}
