/** The person's move as typed: the format check `\s*\d\s*,\s*\d\s*`, the message
    `getInputMessage` answers with, and the prompt loop of `personMove`. */
module InputValidation {
  import opened Results
  import opened JavaText
  import opened Board

  /** A character of the regular-expression class `\s`: space, tab, line feed, vertical tab,
      form feed, carriage return. */
  predicate IsSpace(c: char) {
    c == ' ' || c == '\t' || c == '\n' || c == '\U{000B}' || c == '\U{000C}' || c == '\r'
  }

  /** The first position from `i` on that is not a `\s` character (or the end). */
  function SkipSpaces(s: string, i: nat): (j: nat)
    requires i <= |s|
    ensures i <= j <= |s|
    ensures forall k :: i <= k < j ==> IsSpace(s[k])
    ensures j == |s| || !IsSpace(s[j])
    decreases |s| - i
  {
    if i < |s| && IsSpace(s[i]) then SkipSpaces(s, i + 1) else i
  }

  /** `inputLine.matches("^\\s*\\d\\s*,\\s*\\d\\s*$")`. The classes `\s`, `\d` and `,` are
      disjoint, so skipping spaces greedily decides the match, one piece at a time. */
  predicate MatchesMoveFormat(s: string) {
    var a := SkipSpaces(s, 0);
    a < |s| && IsDigit(s[a]) && CommaFrom(s, a + 1)
  }

  /** `\s*,\s*\d\s*` matches `s` from `i` on. */
  predicate CommaFrom(s: string, i: nat)
    requires i <= |s|
  {
    var b := SkipSpaces(s, i);
    b < |s| && s[b] == ',' && DigitFrom(s, b + 1)
  }

  /** `\s*\d\s*` matches `s` from `i` on. */
  predicate DigitFrom(s: string, i: nat)
    requires i <= |s|
  {
    var c := SkipSpaces(s, i);
    c < |s| && IsDigit(s[c]) && SkipSpaces(s, c + 1) == |s|
  }

  /** The characters of `s` from `i` on that are not `\s` characters. */
  function NonSpaceFrom(s: string, i: nat): string
    requires i <= |s|
    decreases |s| - i
  {
    if i == |s| then []
    else if IsSpace(s[i]) then NonSpaceFrom(s, i + 1)
    else [s[i]] + NonSpaceFrom(s, i + 1)
  }

  function NonSpace(s: string): string {
    NonSpaceFrom(s, 0)
  }

  /** Skipping spaces drops nothing but spaces. */
  lemma {:induction false} SkipKeepsNonSpace(s: string, i: nat)
    requires i <= |s|
    ensures NonSpaceFrom(s, i) == NonSpaceFrom(s, SkipSpaces(s, i))
    decreases |s| - i
  {
    if i < |s| && IsSpace(s[i]) {
      SkipKeepsNonSpace(s, i + 1);
    }
  }

  /** The non-space characters from `i` on: the first one after the spaces, then the rest. */
  lemma NonSpaceNext(s: string, i: nat)
    requires i <= |s|
    ensures var j := SkipSpaces(s, i);
            NonSpaceFrom(s, i) == if j == |s| then [] else [s[j]] + NonSpaceFrom(s, j + 1)
  {
    SkipKeepsNonSpace(s, i);
  }

  /** A line has the move format exactly when, spaces aside, it is a digit, a comma and a
      digit. */
  lemma MatchesIffNonSpace(s: string)
    ensures MatchesMoveFormat(s) <==>
            var t := NonSpace(s); |t| == 3 && IsDigit(t[0]) && t[1] == ',' && IsDigit(t[2])
  {
    var a := SkipSpaces(s, 0);
    NonSpaceNext(s, 0);
    if a < |s| {
      CommaFromIff(s, a + 1);
    }
  }

  /** The comma piece matches exactly when the non-space rest is a comma and a digit. */
  lemma CommaFromIff(s: string, i: nat)
    requires i <= |s|
    ensures CommaFrom(s, i) <==>
            var t := NonSpaceFrom(s, i); |t| == 2 && t[0] == ',' && IsDigit(t[1])
  {
    var b := SkipSpaces(s, i);
    NonSpaceNext(s, i);
    if b < |s| {
      DigitFromIff(s, b + 1);
    }
  }

  /** The last piece matches exactly when the non-space rest is one digit. */
  lemma DigitFromIff(s: string, i: nat)
    requires i <= |s|
    ensures DigitFrom(s, i) <==> var t := NonSpaceFrom(s, i); |t| == 1 && IsDigit(t[0])
  {
    var c := SkipSpaces(s, i);
    NonSpaceNext(s, i);
    if c < |s| {
      NonSpaceNext(s, c + 1);
    }
  }

  /** A text whose characters are all trimmed but the one at `a` trims to that character. */
  lemma TrimSingle(t: string, a: nat)
    requires a < |t| && !Trimmed(t[a])
    requires forall k :: 0 <= k < |t| && k != a ==> Trimmed(t[k])
    ensures Trim(t) == [t[a]]
  {
    assert TrimStart(t) == t[a..];
  }

  /** Every `\s` character is one `String.trim` removes. */
  lemma SpaceTrimmed(c: char)
    requires IsSpace(c)
    ensures Trimmed(c)
  {
  }

  /** The positions of the first digit, the comma and the second digit of a matching line. */
  function Marks(s: string): (m: (nat, nat, nat))
    requires MatchesMoveFormat(s)
    ensures m.0 < m.1 < m.2 < |s| && IsDigit(s[m.0]) && s[m.1] == ',' && IsDigit(s[m.2])
    ensures forall k :: 0 <= k < |s| && k != m.0 && k != m.1 && k != m.2 ==> IsSpace(s[k])
  {
    var a := SkipSpaces(s, 0);
    var b := SkipSpaces(s, a + 1);
    var c := SkipSpaces(s, b + 1);
    assert SkipSpaces(s, c + 1) == |s|;
    (a, b, c)
  }

  /** On a matching line the comma is the first comma. */
  lemma FirstComma(s: string)
    requires MatchesMoveFormat(s)
    ensures IndexOf(s, ',') == Marks(s).1
  {
    var (a, b, c) := Marks(s);
    assert ',' !in s[..b] by {
      forall k | 0 <= k < b
        ensures s[k] != ','
      {
        if k != a {
          assert IsSpace(s[k]);
        }
      }
    }
  }

  /** A window of `s` holding one non-space character among `\s` characters trims to that
      character. */
  lemma TrimWindow(s: string, lo: nat, hi: nat, at: nat)
    requires lo <= at < hi <= |s| && !IsSpace(s[at]) && s[at] > ' '
    requires forall k :: lo <= k < hi && k != at ==> IsSpace(s[k])
    ensures Trim(s[lo..hi]) == [s[at]]
  {
    var w := s[lo..hi];
    forall k | 0 <= k < |w| && k != at - lo
      ensures Trimmed(w[k])
    {
      assert w[k] == s[lo + k];
      SpaceTrimmed(s[lo + k]);
    }
    TrimSingle(w, at - lo);
  }

  /** On a matching line the text before the comma trims to the first digit. */
  lemma TrimBefore(s: string, b: nat)
    requires MatchesMoveFormat(s) && b == Marks(s).1
    ensures Trim(s[..b]) == [s[Marks(s).0]]
  {
    TrimWindow(s, 0, b, Marks(s).0);
    assert s[0..b] == s[..b];
  }

  /** On a matching line the text after the comma trims to the second digit. */
  lemma TrimAfter(s: string, b: nat)
    requires MatchesMoveFormat(s) && b == Marks(s).1
    ensures Trim(s[b + 1..]) == [s[Marks(s).2]]
  {
    var c := Marks(s).2;
    var w := s[b + 1..];
    forall k | 0 <= k < |w| && k != c - (b + 1)
      ensures Trimmed(w[k])
    {
      assert w[k] == s[b + 1 + k];
      SpaceTrimmed(s[b + 1 + k]);
    }
    TrimSingle(w, c - (b + 1));
  }

  /** The row and column a matching line names: its first and its second digit. */
  function Typed(line: string): (p: Pos)
    requires MatchesMoveFormat(line)
  {
    Pos(DigitValue(line[Marks(line).0]), DigitValue(line[Marks(line).2]))
  }

  /** The two `Integer.parseInt` calls of `getInputMessage` read the two digits of a matching
      line. */
  lemma ParsedHalves(line: string)
    requires MatchesMoveFormat(line)
    ensures 0 <= IndexOf(line, ',')
    ensures ParseInt32(Trim(line[..IndexOf(line, ',')])) == Some(Typed(line).x)
    ensures ParseInt32(Trim(line[IndexOf(line, ',') + 1..])) == Some(Typed(line).y)
  {
    ParsedX(line);
    ParsedY(line);
  }

  lemma ParsedX(line: string)
    requires MatchesMoveFormat(line)
    ensures 0 <= IndexOf(line, ',')
    ensures ParseInt32(Trim(line[..IndexOf(line, ',')])) == Some(Typed(line).x)
  {
    FirstComma(line);
    TrimBefore(line, IndexOf(line, ','));
    ParseDigit([line[Marks(line).0]]);
  }

  lemma ParsedY(line: string)
    requires MatchesMoveFormat(line)
    ensures ParseInt32(Trim(line[IndexOf(line, ',') + 1..])) == Some(Typed(line).y)
  {
    FirstComma(line);
    TrimAfter(line, IndexOf(line, ','));
    ParseDigit([line[Marks(line).2]]);
  }

  /** `Integer.parseInt` of one digit is its value. */
  lemma ParseDigit(t: string)
    requires |t| == 1 && IsDigit(t[0])
    ensures ParseInt32(t) == Some(DigitValue(t[0]))
  {
  }

  /** `msg.matches("^\\d$")`: one decimal digit. */
  predicate IsOneDigit(msg: string) {
    |msg| == 1 && IsDigit(msg[0])
  }

  const BAD_FORMAT: string := "Bad move format, please re-enter:"

  /** The message for the parsed move `(moveX, moveY)`: off the board, already played, or the
      cell code. The record is searched with `indexOf` for the code's one character. */
  function MoveMessage(moveX: int, moveY: int, mr: Record): (msg: string)
    requires AllCells(mr)
    ensures IsOneDigit(msg) <==> OnBoard(Pos(moveX, moveY)) && Encode(Pos(moveX, moveY)) !in mr
    ensures IsOneDigit(msg) ==> msg == [DigitChar(Encode(Pos(moveX, moveY)))]
    ensures msg != BAD_FORMAT
  {
    var pair := "(" + IntText(moveX) + "," + IntText(moveY) + ")";
    if 1 <= moveX <= 3 && 1 <= moveY <= 3 then
      var code := (moveX - 1) * 3 + moveY;
      TextHas(mr, code);
      if IndexOf(Text(mr), DigitChar(code)) >= 0 then
        "Move " + pair + " already used, please re-enter:"
      else IntText(code)
    else "Move " + pair + " out of range, please re-enter:"
  }

  /** `getInputMessage`: a malformed line gets the format message; otherwise the message for
      the two digits it names. */
  function GetInputMessage(line: string, mr: Record): (msg: string)
    requires AllCells(mr)
    ensures msg == BAD_FORMAT <==> !MatchesMoveFormat(line)
  {
    if !MatchesMoveFormat(line) then BAD_FORMAT
    else
      ParsedHalves(line);
      var k := IndexOf(line, ',');
      var moveX := ParseInt32(Trim(line[..k])).value;
      var moveY := ParseInt32(Trim(line[k + 1..])).value;
      MoveMessage(moveX, moveY, mr)
  }

  /** A line is accepted when it has the move format and names an unplayed cell. */
  predicate Accepted(line: string, mr: Record) {
    MatchesMoveFormat(line) && OnBoard(Typed(line)) && Encode(Typed(line)) !in mr
  }

  /** The message is one digit exactly when the line is accepted, and then it is the code of
      the cell the line names. */
  lemma InputMessageExact(line: string, mr: Record)
    requires AllCells(mr)
    ensures IsOneDigit(GetInputMessage(line, mr)) <==> Accepted(line, mr)
    ensures Accepted(line, mr) ==> GetInputMessage(line, mr) == [DigitChar(Encode(Typed(line)))]
  {
    if MatchesMoveFormat(line) {
      ParsedHalves(line);
    }
  }

  /** The prompt loop of `personMove` from the message `msg`: read lines until one gets a
      one-digit message and append that cell. When the input ends first, `readLine` gives `null`
      and the loop stops with the last message still pending. */
  function PersonMoveFrom(inputs: seq<string>, mr: Record, msg: string): (r: Result<Record, string>)
    requires AllCells(mr)
    ensures r.Success? ==> |r.value| == |mr| + 1 && r.value[..|mr|] == mr
    ensures r.Failure? ==> !IsOneDigit(r.error)
    decreases |inputs|
  {
    if IsOneDigit(msg) then Success(mr + [DigitValue(msg[0])])
    else if |inputs| == 0 then Failure(msg)
    else PersonMoveFrom(inputs[1..], mr, GetInputMessage(inputs[0], mr))
  }

  const PROMPT: string := "Please enter your move:"

  /** `personMove`: the loop starts from the prompt. */
  function PersonMove(inputs: seq<string>, mr: Record): (r: Result<Record, string>)
    requires AllCells(mr)
  {
    PersonMoveFrom(inputs, mr, PROMPT)
  }

  /** No line before position `n` is accepted. */
  predicate NoneAccepted(inputs: seq<string>, mr: Record, n: int) {
    forall i :: 0 <= i < n && i < |inputs| ==> !Accepted(inputs[i], mr)
  }

  /** The person's move is the cell named by the first accepted line; it extends a valid record
      to a valid record. Without an accepted line the input runs out and the move fails. */
  lemma {:induction false} PersonMoveExact(inputs: seq<string>, mr: Record)
    requires ValidRecord(mr)
    ensures PersonMove(inputs, mr).Failure? <==> NoneAccepted(inputs, mr, |inputs|)
    ensures forall n :: 0 <= n < |inputs| && NoneAccepted(inputs, mr, n) && Accepted(inputs[n], mr) ==>
              PersonMove(inputs, mr) == Success(mr + [Encode(Typed(inputs[n]))])
  {
    assert !IsOneDigit(PROMPT);
    PersonMoveFails(inputs, mr, PROMPT);
    forall n | 0 <= n < |inputs| && NoneAccepted(inputs, mr, n) && Accepted(inputs[n], mr)
      ensures PersonMove(inputs, mr) == Success(mr + [Encode(Typed(inputs[n]))])
    {
      PersonMoveFirst(inputs, mr, PROMPT, n);
    }
  }

  /** From a pending non-digit message, the loop fails exactly when no line is accepted. */
  lemma {:induction false} PersonMoveFails(inputs: seq<string>, mr: Record, msg: string)
    requires AllCells(mr) && !IsOneDigit(msg)
    ensures PersonMoveFrom(inputs, mr, msg).Failure? <==> NoneAccepted(inputs, mr, |inputs|)
    decreases |inputs|
  {
    if |inputs| > 0 {
      var next := GetInputMessage(inputs[0], mr);
      InputMessageExact(inputs[0], mr);
      if !IsOneDigit(next) {
        PersonMoveFails(inputs[1..], mr, next);
        NoneAcceptedShift(inputs, mr, |inputs|);
      }
    }
  }

  /** From a pending non-digit message, the loop returns the cell of the first accepted line. */
  lemma {:induction false} PersonMoveFirst(inputs: seq<string>, mr: Record, msg: string, n: nat)
    requires AllCells(mr) && !IsOneDigit(msg)
    requires n < |inputs| && NoneAccepted(inputs, mr, n) && Accepted(inputs[n], mr)
    ensures PersonMoveFrom(inputs, mr, msg) == Success(mr + [Encode(Typed(inputs[n]))])
    decreases n
  {
    if n == 0 {
      FirstLineAccepted(inputs, mr, msg);
    } else {
      var next := GetInputMessage(inputs[0], mr);
      assert PersonMoveFrom(inputs, mr, msg) == PersonMoveFrom(inputs[1..], mr, next);
      InputMessageExact(inputs[0], mr);
      assert !Accepted(inputs[0], mr);
      assert inputs[1..][n - 1] == inputs[n];
      NoneAcceptedShift(inputs, mr, n);
      PersonMoveFirst(inputs[1..], mr, next, n - 1);
    }
  }

  /** An accepted first line ends the loop with its cell. */
  lemma FirstLineAccepted(inputs: seq<string>, mr: Record, msg: string)
    requires AllCells(mr) && !IsOneDigit(msg)
    requires 0 < |inputs| && Accepted(inputs[0], mr)
    ensures PersonMoveFrom(inputs, mr, msg) == Success(mr + [Encode(Typed(inputs[0]))])
  {
    var next := GetInputMessage(inputs[0], mr);
    assert PersonMoveFrom(inputs, mr, msg) == PersonMoveFrom(inputs[1..], mr, next);
    InputMessageExact(inputs[0], mr);
    var m := Encode(Typed(inputs[0]));
    assert next == [DigitChar(m)] && DigitValue(next[0]) == m;
  }

  /** Past a rejected first line, the lines before `n` are the remaining lines before `n-1`. */
  lemma NoneAcceptedShift(inputs: seq<string>, mr: Record, n: int)
    requires 1 <= n <= |inputs| && !Accepted(inputs[0], mr)
    ensures NoneAccepted(inputs, mr, n) <==> NoneAccepted(inputs[1..], mr, n - 1)
  {
    if NoneAccepted(inputs[1..], mr, n - 1) {
      forall i | 0 <= i < n && i < |inputs|
        ensures !Accepted(inputs[i], mr)
      {
        if i > 0 {
          assert inputs[i] == inputs[1..][i - 1];
        }
      }
    }
  }

  /** How many lines the prompt loop reads before it stops. */
  function LinesUsed(inputs: seq<string>, mr: Record, msg: string): (n: nat)
    requires AllCells(mr)
    ensures n <= |inputs|
    decreases |inputs|
  {
    if IsOneDigit(msg) || |inputs| == 0 then 0
    else 1 + LinesUsed(inputs[1..], mr, GetInputMessage(inputs[0], mr))
  }

  /** The loop reads up to and including the first accepted line. */
  lemma {:induction false} LinesUsedFirst(inputs: seq<string>, mr: Record, msg: string, n: nat)
    requires AllCells(mr) && !IsOneDigit(msg)
    requires n < |inputs| && NoneAccepted(inputs, mr, n) && Accepted(inputs[n], mr)
    ensures LinesUsed(inputs, mr, msg) == n + 1
    decreases n, 1
  {
    InputMessageExact(inputs[0], mr);
    var next := GetInputMessage(inputs[0], mr);
    if n > 0 {
      assert !Accepted(inputs[0], mr);
      assert LinesUsed(inputs, mr, msg) == 1 + LinesUsed(inputs[1..], mr, next);
      LinesUsedRest(inputs, mr, next, n);
    } else {
      assert IsOneDigit(next);
    }
  }

  lemma LinesUsedRest(inputs: seq<string>, mr: Record, next: string, n: nat)
    requires AllCells(mr) && 0 < n < |inputs| && !Accepted(inputs[0], mr)
    requires next == GetInputMessage(inputs[0], mr) && !IsOneDigit(next)
    requires NoneAccepted(inputs, mr, n) && Accepted(inputs[n], mr)
    ensures LinesUsed(inputs[1..], mr, next) == n
    decreases n, 0
  {
    assert inputs[1..][n - 1] == inputs[n];
    NoneAcceptedShift(inputs, mr, n);
    LinesUsedFirst(inputs[1..], mr, next, n - 1);
  }

  /** A move `personMove` returns names the line it came from: the first accepted line, which
      is the last line the loop reads. */
  lemma PersonMoveLine(inputs: seq<string>, mr: Record) returns (n: nat)
    requires ValidRecord(mr) && PersonMove(inputs, mr).Success?
    ensures n < |inputs| && NoneAccepted(inputs, mr, n) && Accepted(inputs[n], mr)
    ensures PersonMove(inputs, mr).value == mr + [Encode(Typed(inputs[n]))]
    ensures LinesUsed(inputs, mr, PROMPT) == n + 1
  {
    PersonMoveExact(inputs, mr);
    n := FirstAccepted(inputs, mr, 0);
    assert !IsOneDigit(PROMPT);
    LinesUsedFirst(inputs, mr, PROMPT, n);
  }

  /** Some line from `lo` on is accepted and none before `lo` is: the first accepted line is
      at or after `lo`. */
  lemma FirstAccepted(inputs: seq<string>, mr: Record, lo: nat) returns (n: nat)
    requires lo <= |inputs| && NoneAccepted(inputs, mr, lo) && !NoneAccepted(inputs, mr, |inputs|)
    ensures lo <= n < |inputs| && NoneAccepted(inputs, mr, n) && Accepted(inputs[n], mr)
    decreases |inputs| - lo
  {
    if lo < |inputs| && Accepted(inputs[lo], mr) {
      n := lo;
    } else {
      n := FirstAccepted(inputs, mr, lo + 1);
    }
  }

  /** A move the loop returns is a new cell, so a valid record with room stays valid. */
  lemma {:induction false} PersonMoveFromValid(inputs: seq<string>, mr: Record, msg: string)
    requires ValidRecord(mr) && |mr| < MAX_MOVE_NUMBER
    requires IsOneDigit(msg) ==> IsCell(DigitValue(msg[0])) && DigitValue(msg[0]) !in mr
    ensures PersonMoveFrom(inputs, mr, msg).Success? ==> ValidRecord(PersonMoveFrom(inputs, mr, msg).value)
    decreases |inputs|
  {
    if IsOneDigit(msg) {
      AppendValid(mr, DigitValue(msg[0]));
    } else if |inputs| > 0 {
      InputMessageExact(inputs[0], mr);
      PersonMoveFromValid(inputs[1..], mr, GetInputMessage(inputs[0], mr));
    }
  }

  /** Spaces around the digits and the comma do not matter. */
  lemma SpacedMoveAccepted(line: string)
    requires line == " 2 ,\t3 "
    ensures MatchesMoveFormat(line) && Typed(line) == Pos(2, 3)
    ensures GetInputMessage(line, []) == "6"
  {
    assert SkipSpaces(line, 0) == 1;
    assert SkipSpaces(line, 2) == 3;
    assert SkipSpaces(line, 4) == 5;
    assert SkipSpaces(line, 6) == 7;
    InputMessageExact(line, []);
  }
}
