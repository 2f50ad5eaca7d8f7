/** The lose-record file: one lost game per line, written as `(x,y)-(x,y)-...`.
    Saving a lost game writes it in all four quarter-turn orientations, skipping a line
    already written by the same save; loading parses every line back to cell codes. */
module LoseRecordStore {
  import opened Results
  import opened JavaText
  import opened Board

  /** `"(" + x + "," + y + ")"` for a position on the board. */
  function Render(p: Pos): (s: string)
    requires OnBoard(p)
    ensures |s| == 5 && '*' !in s
  {
    ['(', DigitChar(p.x), ',', DigitChar(p.y), ')']
  }

  /** The save line of a record's positions: the rendered moves joined by `-`. */
  function Serialise(ps: seq<Pos>): (s: string)
    requires AllOnBoard(ps)
    ensures |s| == if |ps| == 0 then 0 else 6 * |ps| - 1
    ensures '*' !in s
  {
    if |ps| == 0 then "" else Render(ps[0]) + SerialiseRest(ps[1..])
  }

  /** The moves after the first, each preceded by `-`. */
  function SerialiseRest(ps: seq<Pos>): (s: string)
    requires AllOnBoard(ps)
    ensures |s| == 6 * |ps|
    ensures '*' !in s
  {
    if |ps| == 0 then "" else "-" + Render(ps[0]) + SerialiseRest(ps[1..])
  }

  datatype LineError = MissingBracket | MissingComma | BadNumber

  /** One pass of the loader's inner loop over the rest of a line. */
  datatype Step = Blank | Pair(code: int, rest: string) | Broken(error: LineError)

  /** The text between one pair of brackets: split at its first `,`, parse both halves as
      Java `int`s and form the code `(x-1)*3+y` in 32-bit arithmetic. */
  function ParseMove(move: string): Result<int, LineError> {
    var comma := IndexOf(move, ',');
    if comma < 0 then Failure(MissingComma)
    else PairCode(ParseInt32(Trim(move[..comma])), ParseInt32(Trim(move[comma + 1..])))
  }

  /** The cell code of a parsed `x,y` pair, computed in 32-bit arithmetic. */
  function PairCode(x: Option<int>, y: Option<int>): Result<int, LineError> {
    if x.None? || y.None? then Failure(BadNumber)
    else Success(Wrap32((x.value - 1) * 3 + y.value))
  }

  /** Unless the rest of the line is blank: parse the text between the first `(` and the
      first `)`; the line continues after the `)`. A malformed pair is the exception Java
      would throw. */
  function NextPair(line: string): (s: Step)
    ensures s.Pair? ==> |s.rest| < |line|
  {
    if Trim(line) == "" then Blank
    else
      var bra := IndexOf(line, '(');
      var ket := IndexOf(line, ')');
      if ket < bra + 1 then Broken(MissingBracket)
      else
        match ParseMove(line[bra + 1..ket])
        case Success(code) => Pair(code, line[ket + 1..])
        case Failure(e) => Broken(e)
  }

  /** The loader's line parser: the text of the codes of the pairs of a line, in order,
      each written by `String.valueOf`. */
  function ParseLine(line: string): Result<string, LineError>
    decreases |line|
  {
    match NextPair(line)
    case Blank => Success("")
    case Broken(e) => Failure(e)
    case Pair(code, rest) =>
      match ParseLine(rest)
      case Success(codes) => Success(IntText(code) + codes)
      case Failure(e) => Failure(e)
  }

  lemma IndexOfAt(s: string, c: char, k: nat)
    requires k < |s| && s[k] == c
    requires forall i :: 0 <= i < k ==> s[i] != c
    ensures IndexOf(s, c) == k
  {
  }

  lemma TrimNotBlank(s: string, k: nat)
    requires k < |s| && !Trimmed(s[k])
    ensures Trim(s) != ""
  {
    var t := TrimStart(s);
    assert k >= |s| - |t|;
    assert t[k - (|s| - |t|)] == s[k];
  }

  lemma TrimDigit(t: string)
    requires |t| == 1 && IsDigit(t[0])
    ensures Trim(t) == t
  {
  }

  /** Where the loader finds the brackets of a rendered pair. */
  lemma BracketsAt(line: string, k: nat, p: Pos)
    requires OnBoard(p)
    requires k + 5 <= |line| && line[k..k + 5] == Render(p)
    requires NoBracketBefore(line, k)
    ensures line[k] == '('
    ensures IndexOf(line, '(') == k && IndexOf(line, ')') == k + 4
    ensures line[k + 1..k + 4] == [DigitChar(p.x), ',', DigitChar(p.y)]
  {
    var dx, dy := DigitChar(p.x), DigitChar(p.y);
    RenderedChars(line, k, p);
    ThreeChars(line[k + 1..k + 4], dx, ',', dy);
    OpenAt(line, k);
    CloseAt(line, k, dx, dy);
  }

  /** No bracket of either kind among the first `k` characters. */
  predicate NoBracketBefore(line: string, k: nat)
    requires k <= |line|
  {
    forall i :: 0 <= i < k ==> line[i] != '(' && line[i] != ')'
  }

  /** The opening bracket the loader looks for. */
  lemma OpenAt(line: string, k: nat)
    requires k < |line| && line[k] == '('
    requires NoBracketBefore(line, k)
    ensures IndexOf(line, '(') == k
  {
    IndexOfAt(line, '(', k);
  }

  /** The five characters of a rendered pair. */
  lemma RenderedChars(line: string, k: nat, p: Pos)
    requires OnBoard(p)
    requires k + 5 <= |line| && line[k..k + 5] == Render(p)
    ensures line[k] == '(' && line[k + 1] == DigitChar(p.x) && line[k + 2] == ','
    ensures line[k + 3] == DigitChar(p.y) && line[k + 4] == ')'
  {
    var w := line[k..k + 5];
    assert w == ['(', DigitChar(p.x), ',', DigitChar(p.y), ')'];
    assert line[k] == w[0] && line[k + 1] == w[1] && line[k + 2] == w[2];
    assert line[k + 3] == w[3] && line[k + 4] == w[4];
  }

  /** The closing bracket of a pair whose two coordinates are digits. */
  lemma CloseAt(line: string, k: nat, dx: char, dy: char)
    requires IsDigit(dx) && IsDigit(dy)
    requires k + 5 <= |line| && line[k] == '(' && line[k + 1] == dx && line[k + 2] == ','
    requires line[k + 3] == dy && line[k + 4] == ')'
    requires NoBracketBefore(line, k)
    ensures IndexOf(line, ')') == k + 4
  {
    forall i | 0 <= i < k + 4
      ensures line[i] != ')'
    {
      if i == k + 1 {
        assert line[i] == dx;
      } else if i == k + 3 {
        assert line[i] == dy;
      }
    }
    IndexOfAt(line, ')', k + 4);
  }

  lemma ThreeChars(s: string, a: char, b: char, c: char)
    requires |s| == 3 && s[0] == a && s[1] == b && s[2] == c
    ensures s == [a, b, c]
  {
  }

  /** The text between the brackets of a rendered pair parses to its coordinates. */
  lemma MoveText(p: Pos)
    requires OnBoard(p)
    ensures ParseMove([DigitChar(p.x), ',', DigitChar(p.y)]) == Success(Encode(p))
  {
    var dx, dy := DigitChar(p.x), DigitChar(p.y);
    var move := [dx, ',', dy];
    IndexOfAt(move, ',', 1);
    var before, after := move[..1], move[2..];
    assert before == [dx] && after == [dy];
    DigitText(before);
    DigitText(after);
    ParseMoveSplit(move, 1);
    PairCodeOf(p);
  }

  /** The code of the coordinates of a position on the board. */
  lemma PairCodeOf(p: Pos)
    requires OnBoard(p)
    ensures PairCode(Some(p.x), Some(p.y)) == Success(Encode(p))
  {
    CodeFits(p);
  }

  /** The parser splits the text at its first comma. */
  lemma ParseMoveSplit(move: string, comma: nat)
    requires IndexOf(move, ',') == comma
    ensures ParseMove(move) == PairCode(ParseInt32(Trim(move[..comma])), ParseInt32(Trim(move[comma + 1..])))
  {
  }

  /** One digit, as the loader trims and parses it. */
  lemma DigitText(t: string)
    requires |t| == 1 && IsDigit(t[0])
    ensures ParseInt32(Trim(t)) == Some(DigitValue(t[0]))
  {
    TrimDigit(t);
  }

  /** A rendered pair after a prefix free of brackets is read as its code. */
  lemma NextPairAt(line: string, k: nat, p: Pos)
    requires OnBoard(p)
    requires k + 5 <= |line| && line[k..k + 5] == Render(p)
    requires NoBracketBefore(line, k)
    ensures NextPair(line) == Pair(Encode(p), line[k + 5..])
  {
    BracketsAt(line, k, p);
    TrimNotBlank(line, k);
    MoveText(p);
    assert ParseMove(line[k + 1..k + 4]) == Success(Encode(p));
  }

  /** The code of a position on the board needs no 32-bit wrap. */
  lemma CodeFits(p: Pos)
    requires OnBoard(p)
    ensures Wrap32((p.x - 1) * 3 + p.y) == Encode(p)
  {
  }

  /** A rendered pair, optionally preceded by the `-` separator, is read as its code. */
  lemma NextPairRendered(sep: string, p: Pos, tail: string)
    requires sep == "" || sep == "-"
    requires OnBoard(p)
    ensures NextPair(sep + Render(p) + tail) == Pair(Encode(p), tail)
  {
    var line := sep + Render(p) + tail;
    assert line[|sep|..|sep| + 5] == Render(p);
    assert line[|sep| + 5..] == tail;
    NextPairAt(line, |sep|, p);
  }

  /** One pair, optionally preceded by the `-` separator, is read back as its code in front
      of the codes of the rest of the line. */
  lemma ParsePair(sep: string, p: Pos, tail: string, codes: string)
    requires sep == "" || sep == "-"
    requires OnBoard(p)
    requires ParseLine(tail) == Success(codes)
    ensures ParseLine(sep + Render(p) + tail) == Success([DigitChar(Encode(p))] + codes)
  {
    NextPairRendered(sep, p, tail);
  }

  lemma TextCons(ps: seq<Pos>)
    requires AllOnBoard(ps) && |ps| > 0
    ensures Text(EncodeRecord(ps)) == [DigitChar(Encode(ps[0]))] + Text(EncodeRecord(ps[1..]))
  {
  }

  lemma SerialiseRestCons(ps: seq<Pos>)
    requires AllOnBoard(ps) && |ps| > 0
    ensures SerialiseRest(ps) == "-" + Render(ps[0]) + SerialiseRest(ps[1..])
  {
  }

  lemma SerialiseCons(ps: seq<Pos>)
    requires AllOnBoard(ps) && |ps| > 0
    ensures Serialise(ps) == "" + Render(ps[0]) + SerialiseRest(ps[1..])
  {
    assert "" + Render(ps[0]) == Render(ps[0]);
  }

  /** Parsing the separated moves gives their codes. */
  lemma {:induction false} ParseSerialiseRest(ps: seq<Pos>)
    requires AllOnBoard(ps)
    ensures ParseLine(SerialiseRest(ps)) == Success(Text(EncodeRecord(ps)))
  {
    if |ps| == 0 {
      assert Trim("") == "";
    } else {
      var tail := SerialiseRest(ps[1..]);
      ParseSerialiseRest(ps[1..]);
      ParsePair("-", ps[0], tail, Text(EncodeRecord(ps[1..])));
      SerialiseRestCons(ps);
      TextCons(ps);
    }
  }

  /** The loader reads every saved line back as the record it was written from. */
  lemma ParseSerialise(ps: seq<Pos>)
    requires AllOnBoard(ps)
    ensures ParseLine(Serialise(ps)) == Success(Text(EncodeRecord(ps)))
  {
    if |ps| == 0 {
      assert Trim("") == "";
    } else {
      var tail := SerialiseRest(ps[1..]);
      ParseSerialiseRest(ps[1..]);
      ParsePair("", ps[0], tail, Text(EncodeRecord(ps[1..])));
      SerialiseCons(ps);
      TextCons(ps);
    }
  }

  /** `saveLineCombined` after the given lines were written: each preceded by `**`. */
  function Joined(lines: seq<string>): string {
    if |lines| == 0 then "" else "**" + lines[0] + Joined(lines[1..])
  }

  lemma {:induction false} JoinedSnoc(lines: seq<string>, line: string)
    ensures Joined(lines + [line]) == Joined(lines) + "**" + line
  {
    if |lines| == 0 {
      assert Joined([line][1..]) == "";
    } else {
      assert (lines + [line])[1..] == lines[1..] + [line];
      JoinedSnoc(lines[1..], line);
    }
  }

  /** A star-free text in front of the haystack cannot hold the start of a `*`-led needle. */
  lemma {:induction false} ContainsSkip(s: string, rest: string, needle: string)
    requires '*' !in s
    requires |needle| > 0 && needle[0] == '*'
    ensures Contains(s + rest, needle) == Contains(rest, needle)
  {
    if |s| > 0 {
      assert (s + rest)[1..] == s[1..] + rest;
      ContainsSkip(s[1..], rest, needle);
      if |needle| <= |s + rest| {
        assert (s + rest)[..|needle|][0] == s[0];
      }
    } else {
      assert s + rest == rest;
    }
  }

  /** Every line of one save has the same length and no `*`, so the `indexOf("**"+line)`
      test on the joined text is exactly "this line was already written". */
  lemma {:induction false} AlreadyWrittenExact(written: seq<string>, line: string)
    requires forall l :: l in written ==> |l| == |line| && '*' !in l
    requires '*' !in line
    ensures Contains(Joined(written), "**" + line) <==> line in written
  {
    if |written| > 0 {
      var l0 := written[0];
      var rest := Joined(written[1..]);
      assert Joined(written) == "**" + l0 + rest;
      assert written == [l0] + written[1..];
      AlreadyWrittenExact(written[1..], line);
      if l0 == line {
        HeadWritten(l0, rest);
      } else {
        HeadNotWritten(l0, rest, line);
      }
    }
  }

  /** A line is found at the head of the text that starts with it. */
  lemma HeadWritten(l0: string, rest: string)
    ensures Contains("**" + l0 + rest, "**" + l0)
  {
    var hay := "**" + l0 + rest;
    assert hay[..|"**" + l0|] == "**" + l0;
  }

  /** A different line of the same length and without `*` at the head of the text does not
      hold the needle: the search goes on in the rest. */
  lemma HeadNotWritten(l0: string, rest: string, line: string)
    requires |l0| == |line| && '*' !in l0 && l0 != line
    ensures Contains("**" + l0 + rest, "**" + line) == Contains(rest, "**" + line)
  {
    var needle := "**" + line;
    var hay := "**" + l0 + rest;
    assert hay[..|needle|] != needle by {
      assert hay[..|needle|][2..] == l0;
      assert needle[2..] == line;
    }
    assert hay[1..] == "*" + l0 + rest;
    StarThenLine(l0, rest, line);
    ContainsSkip(l0, rest, needle);
  }

  /** After one `*`, the needle `**line` can only start past `l0`. */
  lemma StarThenLine(l0: string, rest: string, line: string)
    requires |l0| == |line| && '*' !in l0 && l0 != line
    ensures Contains("*" + l0 + rest, "**" + line) == Contains(l0 + rest, "**" + line)
  {
    var needle := "**" + line;
    var hay1 := "*" + l0 + rest;
    assert hay1[1..] == l0 + rest;
    assert |l0| > 0;
    if |needle| <= |hay1| {
      assert hay1[..|needle|][1] == l0[0];
      assert needle[1] == '*';
    }
  }

  /** The lines a save writes, in order: a candidate is written unless `"**"+line` already
      occurs in the text of the lines written before it. */
  function WriteLines(candidates: seq<string>, combined: string): seq<string> {
    if |candidates| == 0 then []
    else if Contains(combined, "**" + candidates[0]) then WriteLines(candidates[1..], combined)
    else [candidates[0]] + WriteLines(candidates[1..], combined + "**" + candidates[0])
  }

  /** Keep each candidate that is neither in `seen` nor an earlier candidate. */
  function FirstOccurrences(candidates: seq<string>, seen: seq<string>): (r: seq<string>)
    ensures forall l :: l in r <==> l in candidates && l !in seen
    ensures forall i, j :: 0 <= i < j < |r| ==> r[i] != r[j]
    ensures |r| <= |candidates|
  {
    if |candidates| == 0 then []
    else if candidates[0] in seen then FirstOccurrences(candidates[1..], seen)
    else
      var rest := FirstOccurrences(candidates[1..], seen + [candidates[0]]);
      assert forall j :: 0 <= j < |rest| ==> rest[j] in rest;
      [candidates[0]] + rest
  }

  /** The save's substring test keeps exactly the first occurrence of each line. */
  lemma {:induction false} WriteLinesKeepsFirst(candidates: seq<string>, written: seq<string>, n: nat)
    requires forall l :: l in candidates ==> |l| == n && '*' !in l
    requires forall l :: l in written ==> |l| == n && '*' !in l
    ensures WriteLines(candidates, Joined(written)) == FirstOccurrences(candidates, written)
  {
    if |candidates| > 0 {
      var c := candidates[0];
      AlreadyWrittenExact(written, c);
      if c !in written {
        JoinedSnoc(written, c);
        WriteLinesKeepsFirst(candidates[1..], written + [c], n);
      } else {
        WriteLinesKeepsFirst(candidates[1..], written, n);
      }
    }
  }

  /** The save line of a record after `j` quarter turns. */
  function Orientation(mr: Record, j: nat): (line: string)
    requires AllCells(mr)
    ensures |line| == (if |mr| == 0 then 0 else 6 * |mr| - 1) && '*' !in line
  {
    var ps := DecodeRecord(mr);
    EncodeDecodeRecord(mr);
    TurnShape(ps, j);
    Serialise(Turn(ps, j))
  }

  /** The serialised 0, 90, 180 and 270 degree orientations of a record, in that order. */
  function Orientations(mr: Record): (lines: seq<string>)
    requires AllCells(mr)
    ensures |lines| == 4
    ensures forall j :: 0 <= j < 4 ==> lines[j] == Orientation(mr, j)
  {
    [Orientation(mr, 0), Orientation(mr, 1), Orientation(mr, 2), Orientation(mr, 3)]
  }

  /** What `saveLoseRecord` produces: the lines appended to the file, and the move record it
      leaves behind (each turn rewrites `moveRecord` through `updateMoveRecord`). */
  datatype Saved = Saved(lines: seq<string>, moveRecord: Record)

  /** `saveLoseRecord`: the lines written are the four orientations with repeats dropped, the
      identity line first; the move record is left three quarter turns round, one turn short
      of the game as played. */
  function SaveLoseRecord(mr: Record): (s: Saved)
    requires AllCells(mr)
    ensures s.lines == FirstOccurrences(Orientations(mr), [])
    ensures |s.lines| >= 1 && s.lines[0] == Orientations(mr)[0]
    ensures AllCells(s.moveRecord) && RotateRecord(s.moveRecord, 1) == mr
  {
    var lines := Orientations(mr);
    WriteLinesKeepsFirst(lines, [], |Orientation(mr, 0)|);
    assert Joined([]) == "";
    var last := RotateRecord(mr, 3);
    FourTurnsBack(mr);
    Saved(WriteLines(lines, ""), last)
  }

  /** Turning the three-turn record once more restores the record. */
  lemma FourTurnsBack(mr: Record)
    requires AllCells(mr)
    ensures RotateRecord(RotateRecord(mr, 3), 1) == mr
  {
    var ps := DecodeRecord(mr);
    EncodeDecodeRecord(mr);
    TurnShape(ps, 3);
    var qs := Turn(ps, 3);
    var r3 := EncodeRecord(qs);
    forall i | 0 <= i < |qs|
      ensures DecodeRecord(r3)[i] == qs[i]
    {
      DecodeEncode(qs[i]);
    }
    assert DecodeRecord(r3) == qs;
    assert Turn(qs, 1) == RotateAll(qs);
    assert Turn(ps, 4) == RotateAll(qs);
    FullTurn(ps);
  }

  /** Every orientation line reads back as the text of the record turned that many times. */
  lemma OrientationParses(mr: Record, j: nat)
    requires AllCells(mr)
    requires j < 4
    ensures ParseLine(Orientation(mr, j)) == Success(Text(RotateRecord(mr, j)))
  {
    var ps := DecodeRecord(mr);
    EncodeDecodeRecord(mr);
    TurnShape(ps, j);
    var qs := Turn(ps, j);
    ParseSerialise(qs);
    assert Orientation(mr, j) == Serialise(qs);
    assert RotateRecord(mr, j) == EncodeRecord(qs);
  }

  /** Every line a save writes reads back, through the loader's parser, as the text of one of
      the four orientations of the lost game. */
  lemma SavedLinesParse(mr: Record)
    requires AllCells(mr)
    ensures forall line :: line in SaveLoseRecord(mr).lines ==>
              exists j :: 0 <= j < 4 && ParseLine(line) == Success(Text(RotateRecord(mr, j)))
  {
    var lines := Orientations(mr);
    forall line | line in SaveLoseRecord(mr).lines
      ensures exists j :: 0 <= j < 4 && ParseLine(line) == Success(Text(RotateRecord(mr, j)))
    {
      var j :| 0 <= j < 4 && lines[j] == line;
      OrientationParses(mr, j);
    }
  }

  /** When some move is off the centre, the four orientation lines are pairwise different:
      a turn keeps the order of the moves and moves every cell but the centre. */
  lemma OrientationsDistinct(mr: Record, i: nat)
    requires AllCells(mr)
    requires i < |mr| && mr[i] != 5
    ensures forall j, k :: 0 <= j < k < 4 ==> Orientation(mr, j) != Orientation(mr, k)
  {
    forall j, k | 0 <= j < k < 4
      ensures Orientation(mr, j) != Orientation(mr, k)
    {
      OrientationPairDistinct(mr, i, j, k);
    }
  }

  lemma OrientationPairDistinct(mr: Record, i: nat, j: nat, k: nat)
    requires AllCells(mr)
    requires i < |mr| && mr[i] != 5
    requires j < k < 4
    ensures Orientation(mr, j) != Orientation(mr, k)
  {
    TurnsDiffer(mr, i, j, k);
    assert Text(RotateRecord(mr, j))[i] != Text(RotateRecord(mr, k))[i];
    OrientationParses(mr, j);
    OrientationParses(mr, k);
  }

  /** Every move of the record is the centre cell `5`. */
  predicate AllCentre(mr: Record) {
    forall i :: 0 <= i < |mr| ==> mr[i] == 5
  }

  /** When every move is the centre (or there is none), all four orientations are one line. */
  lemma OrientationsAllCentre(mr: Record, j: nat)
    requires AllCentre(mr)
    ensures Orientation(mr, j) == Orientation(mr, 0)
  {
    var ps := DecodeRecord(mr);
    DecodeCentre();
    forall i | 0 <= i < |ps|
      ensures ps[i] == Pos(2, 2)
    {
      assert mr[i] == 5;
    }
    TurnKeepsCentre(ps, j);
  }

  /** Candidates that are pairwise different and none of them seen are all kept, in order. */
  lemma {:induction false} FirstOccurrencesAllNew(candidates: seq<string>, seen: seq<string>)
    requires forall j, k :: 0 <= j < k < |candidates| ==> candidates[j] != candidates[k]
    requires forall j :: 0 <= j < |candidates| ==> candidates[j] !in seen
    ensures FirstOccurrences(candidates, seen) == candidates
  {
    if |candidates| > 0 {
      var c := candidates[0];
      FirstOccurrencesAllNew(candidates[1..], seen + [c]);
    }
  }

  /** Four copies of one line are kept once. */
  lemma FirstOccurrencesRepeated(a: string)
    ensures FirstOccurrences([a, a, a, a], []) == [a]
  {
    assert [a, a, a, a][1..] == [a, a, a];
    assert [a, a, a][1..] == [a, a];
    assert [a, a][1..] == [a];
    assert [a][1..] == [];
    assert FirstOccurrences([a], [a]) == [];
    assert FirstOccurrences([a, a], [a]) == [];
    assert FirstOccurrences([a, a, a], [a]) == [];
    var none: seq<string> := [];
    assert none + [a] == [a];
    assert FirstOccurrences([a, a, a, a], none) == [a] + FirstOccurrences([a, a, a], [a]);
  }

  /** A save writes four lines, except for a game whose moves are all the centre (only the
      empty game and the one-move game `5`), which writes one. */
  lemma SaveLineCount(mr: Record)
    requires AllCells(mr)
    ensures |SaveLoseRecord(mr).lines| == (if AllCentre(mr) then 1 else 4)
  {
    if AllCentre(mr) {
      SaveCentreOnce(mr);
    } else {
      var i :| 0 <= i < |mr| && mr[i] != 5;
      SaveOffCentreFour(mr, i);
    }
  }

  lemma SaveCentreOnce(mr: Record)
    requires AllCells(mr) && AllCentre(mr)
    ensures SaveLoseRecord(mr).lines == [Orientation(mr, 0)]
  {
    var lines := Orientations(mr);
    OrientationsAllCentre(mr, 1);
    OrientationsAllCentre(mr, 2);
    OrientationsAllCentre(mr, 3);
    assert lines == [lines[0], lines[0], lines[0], lines[0]];
    FirstOccurrencesRepeated(lines[0]);
  }

  lemma SaveOffCentreFour(mr: Record, i: nat)
    requires AllCells(mr) && i < |mr| && mr[i] != 5
    ensures SaveLoseRecord(mr).lines == Orientations(mr)
  {
    OrientationsDistinct(mr, i);
    FirstOccurrencesAllNew(Orientations(mr), []);
  }

  /** The lose records the loader leaves, given the outcome of parsing each line of the file:
      the parsed text of each line up to the first line that fails; from that line on the
      exception has ended the loop and the entries stay `null`, here `None`. */
  function LoadParsed(parsed: seq<Result<string, LineError>>): (records: seq<Option<string>>)
    ensures |records| == |parsed|
    ensures forall i :: 0 <= i < |parsed| ==>
              (records[i].Some? <==> forall j :: 0 <= j <= i ==> parsed[j].Success?)
    ensures forall i :: 0 <= i < |parsed| && records[i].Some? ==>
              parsed[i] == Success(records[i].value)
  {
    if |parsed| == 0 then []
    else
      match parsed[0]
      case Success(t) =>
        var rest := LoadParsed(parsed[1..]);
        assert forall i :: 1 <= i < |parsed| ==> parsed[1..][i - 1] == parsed[i];
        [Some(t)] + rest
      case Failure(_) => seq(|parsed|, _ => None)
  }

  /** Every line of the file run through the line parser. */
  function ParseAll(lines: seq<string>): (parsed: seq<Result<string, LineError>>)
    ensures |parsed| == |lines|
    ensures forall i :: 0 <= i < |lines| ==> parsed[i] == ParseLine(lines[i])
  {
    seq(|lines|, i requires 0 <= i < |lines| => ParseLine(lines[i]))
  }

  /** The lose records read from the lines of a file. */
  function LoadLines(lines: seq<string>): seq<Option<string>> {
    LoadParsed(ParseAll(lines))
  }

  /** `loadLoseRecords`: a missing file leaves no lose records; otherwise one entry per line. */
  function LoadLoseRecords(file: Option<seq<string>>): (records: seq<Option<string>>)
    ensures file.None? ==> records == []
    ensures file.Some? ==> |records| == |file.value|
    ensures file.Some? ==> forall i :: 0 <= i < |records| ==>
              (records[i].Some? <==> forall j :: 0 <= j <= i ==> ParseLine(file.value[j]).Success?)
    ensures file.Some? ==> forall i :: 0 <= i < |records| && records[i].Some? ==>
              ParseLine(file.value[i]) == Success(records[i].value)
  {
    match file
    case None => []
    case Some(lines) => LoadLines(lines)
  }

  /** When every line parses, every line loads as its parsed text. */
  lemma LoadWellFormed(lines: seq<string>)
    requires forall i :: 0 <= i < |lines| ==> ParseLine(lines[i]).Success?
    ensures |LoadLines(lines)| == |lines|
    ensures forall i :: 0 <= i < |lines| ==> LoadLines(lines)[i] == Some(ParseLine(lines[i]).value)
  {
    var parsed := ParseAll(lines);
    assert forall i :: 0 <= i < |lines| ==> parsed[i].Success?;
  }

  /** Loading the lines of one save gives, for every line, the text of an orientation of the
      lost game. */
  lemma LoadSaved(mr: Record)
    requires AllCells(mr)
    ensures |LoadLines(SaveLoseRecord(mr).lines)| == |SaveLoseRecord(mr).lines|
    ensures forall i :: 0 <= i < |SaveLoseRecord(mr).lines| ==>
              exists j :: 0 <= j < 4 && LoadLines(SaveLoseRecord(mr).lines)[i] == Some(Text(RotateRecord(mr, j)))
  {
    var lines := SaveLoseRecord(mr).lines;
    SavedLinesParse(mr);
    forall i | 0 <= i < |lines|
      ensures ParseLine(lines[i]).Success?
    {
      assert lines[i] in lines;
    }
    LoadWellFormed(lines);
    forall i | 0 <= i < |lines|
      ensures exists j :: 0 <= j < 4 && LoadLines(lines)[i] == Some(Text(RotateRecord(mr, j)))
    {
      assert lines[i] in lines;
      var j :| 0 <= j < 4 && ParseLine(lines[i]) == Success(Text(RotateRecord(mr, j)));
      assert LoadLines(lines)[i] == Some(Text(RotateRecord(mr, j)));
    }
  }

  /** Lines that all parse load independently of what follows them, so appending saves to a
      well-formed file keeps the records already there. */
  lemma LoadAppend(front: seq<string>, back: seq<string>)
    requires forall i :: 0 <= i < |front| ==> ParseLine(front[i]).Success?
    ensures LoadLines(front + back) == LoadLines(front) + LoadLines(back)
  {
    assert ParseAll(front + back) == ParseAll(front) + ParseAll(back);
    LoadParsedAppend(ParseAll(front), ParseAll(back));
  }

  /** Concatenation regroups. */
  lemma ConcatAssoc<T>(a: seq<T>, b: seq<T>, c: seq<T>)
    ensures a + (b + c) == (a + b) + c
  {
  }

  /** One step of the loader over a line that parses. */
  lemma LoadParsedCons(parsed: seq<Result<string, LineError>>)
    requires |parsed| > 0 && parsed[0].Success?
    ensures LoadParsed(parsed) == [Some(parsed[0].value)] + LoadParsed(parsed[1..])
  {
  }

  lemma {:induction false} LoadParsedAppend(front: seq<Result<string, LineError>>, back: seq<Result<string, LineError>>)
    requires forall i :: 0 <= i < |front| ==> front[i].Success?
    ensures LoadParsed(front + back) == LoadParsed(front) + LoadParsed(back)
  {
    if |front| > 0 {
      var whole := front + back;
      assert whole[0] == front[0] && whole[1..] == front[1..] + back;
      var head := [Some(front[0].value)];
      LoadParsedCons(whole);
      LoadParsedCons(front);
      LoadParsedAppend(front[1..], back);
      ConcatAssoc(head, LoadParsed(front[1..]), LoadParsed(back));
    } else {
      assert front + back == back;
    }
  }
}
