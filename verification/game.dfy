/** One run of the program: start-up (load the lose records, derive the lose patterns), the
    play loop that alternates the computer's and the person's moves until a line is made or nine
    moves are played, and the verdict, which saves the game when the person won. */
module Game {
  import opened Results
  import opened JavaText
  import opened Board
  import opened LoseRecordStore
  import opened LosePatterns
  import opened MoveSelection
  import opened GameEnd
  import opened InputValidation

  // ----- Start-up -----

  /** Every lose record is present and has at least one move, so `getLosePatterns` can drop its
      last move. */
  predicate Usable(records: seq<Option<string>>) {
    forall i :: 0 <= i < |records| ==> records[i].Some? && |records[i].value| >= 1
  }

  /** Why start-up stops: `getLosePatterns` meets a `null` record (a line the loader could not
      read, or any line after it) or an empty one (a blank line). */
  datatype StartupError = NullRecord(index: nat) | EmptyRecord(index: nat)

  /** The first record from `i` on that `getLosePatterns` cannot cut, if any. */
  function FirstBadRecord(records: seq<Option<string>>, i: nat): (e: Option<StartupError>)
    ensures e.None? <==> forall k :: i <= k < |records| ==> records[k].Some? && |records[k].value| >= 1
    ensures e.Some? ==> var k := e.value.index;
              && i <= k < |records|
              && (e.value.NullRecord? <==> records[k].None?)
              && (forall j :: i <= j < k ==> records[j].Some? && |records[j].value| >= 1)
    decreases |records| - i
  {
    if i >= |records| then None
    else if records[i].None? then Some(NullRecord(i))
    else if |records[i].value| == 0 then Some(EmptyRecord(i))
    else FirstBadRecord(records, i + 1)
  }

  function Values(records: seq<Option<string>>): (vs: seq<string>)
    requires Usable(records)
    ensures |vs| == |records|
    ensures forall i :: 0 <= i < |records| ==> Some(vs[i]) == records[i] && |vs[i]| >= 1
  {
    seq(|records|, i requires 0 <= i < |records| && records[i].Some? => records[i].value)
  }

  /** The patterns `getLosePatterns` derives from usable lose records. */
  function Patterns(records: seq<Option<string>>): (ps: seq<string>)
    requires Usable(records)
    ensures |ps| <= 2 * |records|
  {
    var seeds := Seeds(Values(records));
    DeriveBound(seeds);
    Derive(seeds)
  }

  /** The `losePatterns` array: room for twice as many patterns as there are lose records,
      filled from the front with the derived patterns, `null` (here `None`) after them. */
  function PatternArray(records: seq<Option<string>>): (arr: seq<Option<string>>)
    requires Usable(records)
    ensures |arr| == 2 * |records|
    ensures forall i :: 0 <= i < |Patterns(records)| ==> arr[i] == Some(Patterns(records)[i])
    ensures forall i :: |Patterns(records)| <= i < |arr| ==> arr[i].None?
  {
    var ps := Patterns(records);
    seq(2 * |records|, i requires 0 <= i < 2 * |records| => if i < |ps| then Some(ps[i]) else None)
  }

  /** The constructor's `init`: load the lose records from the file (`None` when it does not
      exist), then derive the patterns. A record `getLosePatterns` cannot cut stops the
      program. */
  function Startup(file: Option<seq<string>>): (r: Result<seq<Option<string>>, StartupError>)
    ensures r.Success? <==> Usable(LoadLoseRecords(file))
    ensures r.Success? ==> r.value == PatternArray(LoadLoseRecords(file))
    ensures r.Failure? ==> var records := LoadLoseRecords(file); var k := r.error.index;
              && k < |records|
              && (r.error.NullRecord? <==> records[k].None?)
              && Usable(records[..k])
  {
    var records := LoadLoseRecords(file);
    match FirstBadRecord(records, 0)
    case Some(e) =>
      UsableBefore(records, e.index);
      Failure(e)
    case None => Success(PatternArray(records))
  }

  /** The records before a first unusable one are usable. */
  lemma UsableBefore(records: seq<Option<string>>, k: nat)
    requires k <= |records|
    requires forall j :: 0 <= j < k ==> records[j].Some? && |records[j].value| >= 1
    ensures Usable(records[..k])
  {
  }

  /** Without a lose-record file the program starts with an empty pattern array. */
  lemma StartupWithoutFile()
    ensures Startup(None) == Success([])
  {
    assert Usable([]);
  }

  /** A file holding only the lines of saved games starts up: every line reads back as the
      text of a lost game turned, which is never empty. */
  lemma StartupAfterSaves(lines: seq<string>, mr: Record)
    requires AllCells(mr) && |mr| >= 1
    requires Startup(Some(lines)).Success?
    ensures Startup(Some(lines + SaveLoseRecord(mr).lines)).Success?
  {
    var saved := SaveLoseRecord(mr).lines;
    UsableLinesParse(lines);
    LoadAppend(lines, saved);
    SavedUsable(mr);
    UsableAppend(LoadLines(lines), LoadLines(saved));
  }

  /** Lines that load into usable records all parse. */
  lemma UsableLinesParse(lines: seq<string>)
    requires Usable(LoadLines(lines))
    ensures forall i :: 0 <= i < |lines| ==> ParseLine(lines[i]).Success?
  {
    var records := LoadLines(lines);
    forall i | 0 <= i < |lines|
      ensures ParseLine(lines[i]).Success?
    {
      assert records[i].Some?;
      assert ParseAll(lines)[i] == ParseLine(lines[i]);
    }
  }

  /** The lines saved for a lost game load into usable records. */
  lemma SavedUsable(mr: Record)
    requires AllCells(mr) && |mr| >= 1
    ensures Usable(LoadLines(SaveLoseRecord(mr).lines))
  {
    var lines := SaveLoseRecord(mr).lines;
    var more := LoadLines(lines);
    LoadSaved(mr);
    assert |more| == |lines|;
    forall i | 0 <= i < |more|
      ensures more[i].Some? && |more[i].value| >= 1
    {
      assert i < |lines|;
      TurnedTextUsable(mr, more[i]);
    }
  }

  /** The text of a non-empty game, turned any number of times, is a usable record. */
  lemma TurnedTextUsable(mr: Record, rec: Option<string>)
    requires AllCells(mr) && |mr| >= 1
    requires exists j :: 0 <= j < 4 && rec == Some(Text(RotateRecord(mr, j)))
    ensures rec.Some? && |rec.value| >= 1
  {
    var j :| 0 <= j < 4 && rec == Some(Text(RotateRecord(mr, j)));
    assert |Text(RotateRecord(mr, j))| == |mr|;
  }

  lemma UsableAppend(a: seq<Option<string>>, b: seq<Option<string>>)
    requires Usable(a) && Usable(b)
    ensures Usable(a + b)
  {
    forall i | 0 <= i < |a + b|
      ensures (a + b)[i].Some? && |(a + b)[i].value| >= 1
    {
      if i < |a| {
        assert (a + b)[i] == a[i];
      } else {
        assert (a + b)[i] == b[i - |a|];
      }
    }
  }

  // ----- The play loop -----

  /** `isPersonWin`: someone won and the record has an even length, so the person moved
      last. */
  predicate IsPersonWin(someoneWin: bool, mr: Record) {
    someoneWin && |mr| % 2 == 0
  }

  /** `isComputerWin`: someone won and the computer moved last. */
  predicate IsComputerWin(someoneWin: bool, mr: Record) {
    someoneWin && |mr| % 2 != 0
  }

  datatype Verdict = PersonWins | ComputerWins | Tie

  /** A finished game: its moves, the verdict `play` prints, and the lines `saveLoseRecord`
      appends to the lose-record file (none unless the person won). */
  datatype Outcome = Outcome(moveRecord: Record, verdict: Verdict, saved: seq<string>)

  /** Why a game stops before its end: `nextInt` is asked for a draw from an empty range, or
      the input ends while the person is asked for a move (with the message then pending). */
  datatype PlayError = EmptyDraw | InputEnded(pending: string)

  /** The draw `computerMove` makes on its `turn`-th call: the generator's value brought into
      `[0, bound)`. */
  function Draw(random: nat -> nat, turn: nat, bound: int): (d: int)
    ensures 0 <= d && (bound > 0 ==> d < bound)
  {
    if bound > 0 then random(turn) % bound else 0
  }

  /** The verdict of `play` once the loop is over: `someoneWin` is what the last `isGameEnded`
      found. */
  function Judge(mr: Record): (v: Verdict)
    requires AllCells(mr)
  {
    var someoneWin := IsGameEnded(mr);
    if IsPersonWin(someoneWin, mr) then PersonWins
    else if IsComputerWin(someoneWin, mr) then ComputerWins
    else Tie
  }

  /** `play`: until `isGameEnded` or nine moves, the computer moves on an even-length record
      and the person on an odd one (`nextMove`). The computer's `k`-th draw comes from
      `random(k)`; the person's lines come from `inputs`, in order. The verdict names the side
      that completed a line, or a tie when none did; only a person's win is saved. */
  method Play(patterns: seq<Option<string>>, random: nat -> nat, inputs: seq<string>)
    returns (r: Result<Outcome, PlayError>)
    ensures r.Success? ==> var mr := r.value.moveRecord;
              && ValidRecord(mr)
              && (IsGameEnded(mr) || |mr| == MAX_MOVE_NUMBER)
              && NeverEndedBefore(mr)
              && (r.value.verdict == PersonWins <==> Wins(mr, 1))
              && (r.value.verdict == ComputerWins <==> Wins(mr, 0))
              && (r.value.verdict == Tie <==> !Wins(mr, 0) && !Wins(mr, 1))
              && r.value.saved == (if Wins(mr, 1) then SaveLoseRecord(mr).lines else [])
              && ComputerMovesDrawn(patterns, random, mr)
              && PersonMovesTyped(inputs, mr)
  {
    var moves := PlayMoves(patterns, random, inputs);
    if moves.Failure? {
      return Failure(moves.error);
    }
    return Success(Conclude(moves.value));
  }

  /** The loop of `play`: moves alternate, the computer's on an even-length record and the
      person's on an odd one, until `isGameEnded` or nine moves. */
  method PlayMoves(patterns: seq<Option<string>>, random: nat -> nat, inputs: seq<string>)
    returns (r: Result<Record, PlayError>)
    ensures r.Success? ==> var mr := r.value;
              && ValidRecord(mr)
              && (IsGameEnded(mr) || |mr| == MAX_MOVE_NUMBER)
              && NeverEndedBefore(mr)
              && ComputerMovesDrawn(patterns, random, mr)
              && PersonMovesTyped(inputs, mr)
  {
    var mr: Record := [];
    var ii := 0;
    var rest := inputs;
    while !IsGameEnded(mr)
      invariant Playing(patterns, random, inputs, mr, rest) && ii == |mr|
      decreases MAX_MOVE_NUMBER - ii
    {
      if ii >= MAX_MOVE_NUMBER {
        break;
      }
      if |mr| % 2 == 0 {
        var c := ComputerTurn(patterns, random, mr);
        if c.Failure? {
          return Failure(c.error);
        }
        ComputerAdvance(patterns, random, inputs, mr, rest, c.value);
        mr := c.value;
      } else {
        var p := PersonTurn(inputs, rest, mr);
        if p.Failure? {
          return Failure(p.error);
        }
        PersonAdvance(patterns, random, inputs, mr, rest, p.value.0, p.value.1);
        mr, rest := p.value.0, p.value.1;
      }
      ii := ii + 1;
    }
    return Success(mr);
  }

  /** The computer's side of `nextMove`: `computerMove` with the draw of the computer's
      `|mr|/2`-th turn, which is `random(|mr|/2)` reduced to the draw range. */
  method ComputerTurn(patterns: seq<Option<string>>, random: nat -> nat, mr: Record)
    returns (r: Result<Record, PlayError>)
    requires ValidRecord(mr)
    ensures r.Failure? <==> DrawBound(mr, HistoricalLoseMoves(patterns, mr)) <= 0
    ensures r.Failure? ==> r.error == EmptyDraw
    ensures r.Success? ==>
              && |r.value| == |mr| + 1 && r.value[..|mr|] == mr && ValidRecord(r.value)
              && DrawnFrom(patterns, random, mr, r.value[|mr|])
  {
    var bound := DrawBound(mr, HistoricalLoseMoves(patterns, mr));
    var c := ComputerMove(patterns, mr, Draw(random, |mr| / 2, bound));
    if c.Failure? {
      return Failure(EmptyDraw);
    }
    return Success(c.value);
  }

  /** The person's side of `nextMove`: `personMove` on the lines still unread; the move is the
      cell of an accepted line, and the lines up to that one are used up. */
  method PersonTurn(inputs: seq<string>, rest: seq<string>, mr: Record)
    returns (r: Result<(Record, seq<string>), PlayError>)
    requires ValidRecord(mr) && |mr| < MAX_MOVE_NUMBER
    requires |rest| <= |inputs| && rest == inputs[|inputs| - |rest|..]
    ensures r.Failure? <==> NoneAccepted(rest, mr, |rest|)
    ensures r.Failure? ==> r.error.InputEnded?
    ensures r.Success? ==> TurnTaken(inputs, rest, mr, r.value.0, r.value.1)
  {
    var p := PersonMove(rest, mr);
    PersonMoveTyped(inputs, rest, mr);
    if p.Failure? {
      return Failure(InputEnded(p.error));
    }
    return Success((p.value, rest[LinesUsed(rest, mr, PROMPT)..]));
  }

  /** The person's turn took `mr` to `next` and left the lines `left` unread: one new valid
      move, typed on an accepted line of the input, and a shorter suffix of the input. */
  predicate TurnTaken(inputs: seq<string>, rest: seq<string>, mr: Record, next: Record, left: seq<string>) {
    && |next| == |mr| + 1 && next[..|mr|] == mr && ValidRecord(next)
    && TypedFrom(inputs, mr, next[|mr|])
    && |left| < |rest| <= |inputs| && left == inputs[|inputs| - |left|..]
  }

  /** `personMove` fails exactly when no unread line is accepted; otherwise its move is a
      person's turn as `TurnTaken` describes it. */
  lemma PersonMoveTyped(inputs: seq<string>, rest: seq<string>, mr: Record)
    requires ValidRecord(mr) && |mr| < MAX_MOVE_NUMBER
    requires |rest| <= |inputs| && rest == inputs[|inputs| - |rest|..]
    ensures PersonMove(rest, mr).Failure? <==> NoneAccepted(rest, mr, |rest|)
    ensures PersonMove(rest, mr).Success? ==>
              TurnTaken(inputs, rest, mr, PersonMove(rest, mr).value, rest[LinesUsed(rest, mr, PROMPT)..])
  {
    assert !IsOneDigit(PROMPT);
    PersonMoveFails(rest, mr, PROMPT);
    if PersonMove(rest, mr).Success? {
      PersonMoveFacts(inputs, rest, mr);
    }
  }

  /** The facts of `PersonMoveTyped` about a move that was made. */
  lemma PersonMoveFacts(inputs: seq<string>, rest: seq<string>, mr: Record)
    requires ValidRecord(mr) && |mr| < MAX_MOVE_NUMBER
    requires |rest| <= |inputs| && rest == inputs[|inputs| - |rest|..]
    requires PersonMove(rest, mr).Success?
    ensures var next := PersonMove(rest, mr).value;
            && |next| == |mr| + 1 && next[..|mr|] == mr && ValidRecord(next)
            && TypedFrom(inputs, mr, next[|mr|])
    ensures var left := rest[LinesUsed(rest, mr, PROMPT)..];
            |left| < |rest| && left == inputs[|inputs| - |left|..]
  {
    PersonMoveFromValid(rest, mr, PROMPT);
    var n := PersonMoveLine(rest, mr);
    PersonMoveFits(inputs, rest, mr, n);
  }

  /** What holds of the game after every move of `play`: the record is valid, no earlier
      position was an ended game, the unread lines are the end of the input, and every move
      is the one its side's rule gives. */
  predicate Playing(patterns: seq<Option<string>>, random: nat -> nat, inputs: seq<string>,
                    mr: Record, rest: seq<string>) {
    && ValidRecord(mr)
    && NeverEndedBefore(mr)
    && |rest| <= |inputs| && rest == inputs[|inputs| - |rest|..]
    && ComputerMovesDrawn(patterns, random, mr)
    && PersonMovesTyped(inputs, mr)
  }

  /** A computer move from an unended position keeps `Playing`. */
  lemma ComputerAdvance(patterns: seq<Option<string>>, random: nat -> nat, inputs: seq<string>,
                        mr: Record, rest: seq<string>, next: Record)
    requires Playing(patterns, random, inputs, mr, rest) && !IsGameEnded(mr) && |mr| % 2 == 0
    requires |next| == |mr| + 1 && next[..|mr|] == mr && ValidRecord(next)
    requires DrawnFrom(patterns, random, mr, next[|mr|])
    ensures Playing(patterns, random, inputs, next, rest)
  {
    PrefixesNotEnded(mr, next);
    MovesExtend(patterns, random, inputs, mr, next);
  }

  /** A person move from an unended position keeps `Playing`, with the lines it read used up. */
  lemma PersonAdvance(patterns: seq<Option<string>>, random: nat -> nat, inputs: seq<string>,
                      mr: Record, rest: seq<string>, next: Record, left: seq<string>)
    requires Playing(patterns, random, inputs, mr, rest) && !IsGameEnded(mr) && |mr| % 2 == 1
    requires TurnTaken(inputs, rest, mr, next, left)
    ensures Playing(patterns, random, inputs, next, left)
  {
    PrefixesNotEnded(mr, next);
    MovesExtend(patterns, random, inputs, mr, next);
  }

  /** Every computer move (the even positions) is the cell `computerMove` picks with the draw
      `random(k)` for its `k`-th turn: an eligible cell, neither played nor a lose move of the
      position it was made from. */
  predicate ComputerMovesDrawn(patterns: seq<Option<string>>, random: nat -> nat, mr: Record) {
    forall i :: 0 <= i < |mr| && i % 2 == 0 ==> DrawnFrom(patterns, random, mr[..i], mr[i])
  }

  /** `m` is the cell `computerMove` picks in the position `before`, with the draw of the
      computer's turn at that position. */
  predicate DrawnFrom(patterns: seq<Option<string>>, random: nat -> nat, before: Record, m: int) {
    && AllCells(before)
    && var hist := HistoricalLoseMoves(patterns, before);
       var d := Draw(random, |before| / 2, DrawBound(before, hist));
       && Eligible(before, hist, m)
       && d < |EligibleCells(before, hist)| && m == EligibleCells(before, hist)[d]
  }

  /** Every person move (the odd positions) is the cell named by an input line that the
      prompt loop accepts in the position the move was made from. */
  predicate PersonMovesTyped(inputs: seq<string>, mr: Record) {
    forall i :: 0 <= i < |mr| && i % 2 == 1 ==> TypedFrom(inputs, mr[..i], mr[i])
  }

  /** `m` is the cell of some input line that the prompt loop accepts in the position
      `before`. */
  predicate TypedFrom(inputs: seq<string>, before: Record, m: int) {
    exists n :: 0 <= n < |inputs| && Accepted(inputs[n], before) && m == Encode(Typed(inputs[n]))
  }

  /** The person's move, made from line `n` of the remaining input, is the cell of a line of
      the whole input. */
  lemma PersonMoveFits(inputs: seq<string>, rest: seq<string>, mr: Record, n: nat)
    requires |rest| <= |inputs| && rest == inputs[|inputs| - |rest|..]
    requires n < |rest| && Accepted(rest[n], mr)
    ensures TypedFrom(inputs, mr, Encode(Typed(rest[n])))
  {
    var k := |inputs| - |rest| + n;
    assert inputs[k] == rest[n];
  }

  /** A move keeps what `ComputerMovesDrawn` and `PersonMovesTyped` say about the earlier
      moves, and adds the move itself on its own side. */
  lemma MovesExtend(patterns: seq<Option<string>>, random: nat -> nat, inputs: seq<string>,
                    mr: Record, next: Record)
    requires ComputerMovesDrawn(patterns, random, mr) && PersonMovesTyped(inputs, mr)
    requires |next| == |mr| + 1 && next[..|mr|] == mr
    requires |mr| % 2 == 0 ==> DrawnFrom(patterns, random, mr, next[|mr|])
    requires |mr| % 2 == 1 ==> TypedFrom(inputs, mr, next[|mr|])
    ensures ComputerMovesDrawn(patterns, random, next) && PersonMovesTyped(inputs, next)
  {
    forall i | 0 <= i < |next|
      ensures next[..i] == (if i < |mr| then mr[..i] else mr)
      ensures i < |mr| ==> next[i] == mr[i]
    {
      if i < |mr| {
        SamePrefix(mr, next, i);
      }
    }
  }

  /** Appending a move leaves every earlier position and move as it was. */
  lemma SamePrefix(mr: Record, next: Record, i: nat)
    requires |next| == |mr| + 1 && next[..|mr|] == mr && i < |mr|
    ensures next[..i] == mr[..i] && next[i] == mr[i]
  {
    assert next[..i] == next[..|mr|][..i];
  }

  /** No position before the last one of the game was an ended game. */
  predicate NeverEndedBefore(mr: Record) {
    forall n :: 0 <= n < |mr| ==> !IsGameEnded(mr[..n])
  }

  /** The end of `play` once the loop is over: the verdict, and the lose record saved when the
      person won. */
  function Conclude(mr: Record): (o: Outcome)
    requires ValidRecord(mr)
    requires |mr| >= 1 ==> !IsGameEnded(mr[..|mr| - 1])
    ensures o.moveRecord == mr
    ensures o.verdict == PersonWins <==> Wins(mr, 1)
    ensures o.verdict == ComputerWins <==> Wins(mr, 0)
    ensures o.verdict == Tie <==> !Wins(mr, 0) && !Wins(mr, 1)
    ensures o.saved == if Wins(mr, 1) then SaveLoseRecord(mr).lines else []
  {
    var verdict := Judge(mr);
    JudgeExact(mr);
    Outcome(mr, verdict, if verdict == PersonWins then SaveLoseRecord(mr).lines else [])
  }

  /** A move keeps every earlier position of the game unended when the position it was made
      from was unended. */
  lemma PrefixesNotEnded(mr: Record, next: Record)
    requires |next| == |mr| + 1 && next[..|mr|] == mr
    requires !IsGameEnded(mr)
    requires NeverEndedBefore(mr)
    ensures NeverEndedBefore(next)
    ensures !IsGameEnded(next[..|next| - 1])
  {
    forall n | 0 <= n < |next|
      ensures !IsGameEnded(next[..n])
    {
      if n < |mr| {
        assert next[..n] == mr[..n];
      }
    }
  }

  /** The empty board is not an ended game. */
  lemma EmptyNotEnded()
    ensures !IsGameEnded([])
  {
    GameEndedIffWin([]);
    assert MovesFrom([], 0) == [] && MovesFrom([], 1) == [];
  }

  /** A game that ended on its last move, and not before, was won by the side that made that
      move, and only by it. */
  lemma EndedByLast(mr: Record)
    requires ValidRecord(mr) && IsGameEnded(mr)
    requires |mr| >= 1 && !IsGameEnded(mr[..|mr| - 1])
    ensures |mr| % 2 == 0 ==> Wins(mr, 1) && !Wins(mr, 0)
    ensures |mr| % 2 == 1 ==> Wins(mr, 0) && !Wins(mr, 1)
  {
    var n := |mr| - 1;
    var last := mr[..n];
    assert mr == last + [mr[n]];
    WinnerMovedLast(last, mr[n]);
    WinsBySide(mr, n);
  }

  /** Move number `k` (counting from 0) is the computer's for an even `k` and the person's for
      an odd one, so a record of `k+1` moves was last extended by the computer exactly when its
      length is odd. */
  lemma WinsBySide(mr: Record, k: nat)
    requires |mr| == k + 1
    requires k % 2 == 0 ==> Wins(mr, 0) && !Wins(mr, 1)
    requires k % 2 == 1 ==> Wins(mr, 1) && !Wins(mr, 0)
    ensures |mr| % 2 == 0 ==> Wins(mr, 1) && !Wins(mr, 0)
    ensures |mr| % 2 == 1 ==> Wins(mr, 0) && !Wins(mr, 1)
  {
    NextParity(k, |mr|);
  }

  lemma NextParity(k: nat, n: nat)
    requires n == k + 1
    ensures n % 2 == 0 <==> k % 2 == 1
    ensures n % 2 == 1 <==> k % 2 == 0
  {
  }

  /** At the end of the loop the verdict names the side holding a line: the game ended on the
      move that completed it, made by the side of the record's parity. */
  lemma JudgeExact(mr: Record)
    requires ValidRecord(mr)
    requires |mr| >= 1 ==> !IsGameEnded(mr[..|mr| - 1])
    ensures Judge(mr) == PersonWins <==> Wins(mr, 1)
    ensures Judge(mr) == ComputerWins <==> Wins(mr, 0)
    ensures Judge(mr) == Tie <==> !Wins(mr, 0) && !Wins(mr, 1)
  {
    if IsGameEnded(mr) {
      EmptyNotEnded();
      assert mr != [];
      EndedByLast(mr);
    } else {
      GameEndedIffWin(mr);
    }
  }
}
