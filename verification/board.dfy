/** The 3x3 board: cells, the one-digit cell code `(x-1)*3+y`, its inverse, and the
    quarter turn about the centre used to expand a lost game into its symmetric copies. */
module Board {
  import opened JavaText

  /** `MAX_MOVE_NUMBER`: the number of cells, and the cap on moves in one game. */
  const MAX_MOVE_NUMBER: int := 9

  /** A move record: the cell codes played so far, in order. Even positions hold the
      computer's moves, odd positions the person's. */
  type Record = seq<int>

  /** A cell as (row, column). */
  datatype Pos = Pos(x: int, y: int)

  predicate OnBoard(p: Pos) {
    1 <= p.x <= 3 && 1 <= p.y <= 3
  }

  predicate IsCell(m: int) {
    1 <= m <= MAX_MOVE_NUMBER
  }

  /** Every code of the record is a cell. */
  predicate AllCells(r: Record) {
    forall i :: 0 <= i < |r| ==> IsCell(r[i])
  }

  predicate Distinct(s: seq<int>) {
    forall i, j :: 0 <= i < j < |s| ==> s[i] != s[j]
  }

  /** What every move record the game builds satisfies: at most nine codes, each a
      cell, no cell twice. */
  predicate ValidRecord(r: Record) {
    && |r| <= MAX_MOVE_NUMBER
    && AllCells(r)
    && Distinct(r)
  }

  /** The cell code of a position: `(x-1)*3+y`. */
  function Encode(p: Pos): (m: int)
    ensures OnBoard(p) ==> IsCell(m)
  {
    (p.x - 1) * 3 + p.y
  }

  /** The position of a cell code, with Java's truncating `/` and `%`:
      `x = (m - (m-1)%3)/3 + 1`, `y = (m-1)%3 + 1`. Every cell decodes to a position
      on the board that encodes back to the same cell. */
  function Decode(m: int): (p: Pos)
    ensures IsCell(m) ==> OnBoard(p) && Encode(p) == m
  {
    var r := JavaRem(m - 1, 3);
    Pos(JavaDiv(m - r, 3) + 1, r + 1)
  }

  /** Decoding inverts encoding on the board. */
  lemma DecodeEncode(p: Pos)
    requires OnBoard(p)
    ensures Decode(Encode(p)) == p
  {
    var m := Encode(p);
    RemOfThree(p.x - 1, p.y - 1);
    assert m - 1 == 3 * (p.x - 1) + (p.y - 1);
  }

  /** Java's `%` and `/` by 3 on `3a+b` with `0 <= b < 3`. */
  lemma RemOfThree(a: nat, b: nat)
    requires b < 3
    ensures JavaRem(3 * a + b, 3) == b
    ensures JavaDiv(3 * a, 3) == a
  {
    var n := 3 * a + b;
    assert n / 3 == a && n % 3 == b by {
      assert n == 3 * a + b && 0 <= b < 3;
    }
    assert (3 * a) / 3 == a;
  }

  /** The centre cell `5` is (2,2). */
  lemma DecodeCentre()
    ensures Decode(5) == Pos(2, 2)
  {
    DecodeEncode(Pos(2, 2));
    assert Encode(Pos(2, 2)) == 5;
  }

  /** Distinct positions on the board have distinct codes. */
  lemma EncodeInjective(p: Pos, q: Pos)
    requires OnBoard(p) && OnBoard(q) && Encode(p) == Encode(q)
    ensures p == q
  {
    DecodeEncode(p);
    DecodeEncode(q);
  }

  /** One quarter turn about the centre (2,2): `(x,y) ==> (-(y-2)+2, (x-2)+2)`. */
  function Rotate(p: Pos): (q: Pos)
    ensures OnBoard(p) ==> OnBoard(q)
  {
    Pos(-(p.y - 2) + 2, (p.x - 2) + 2)
  }

  /** `p` turned `n` times. */
  function RotateN(p: Pos, n: nat): (q: Pos)
    ensures OnBoard(p) ==> OnBoard(q)
  {
    if n == 0 then p else Rotate(RotateN(p, n - 1))
  }

  /** Away from the centre, the four orientations of a cell are four different cells. */
  lemma RotateNDistinct(p: Pos, j: nat, k: nat)
    requires OnBoard(p) && p != Pos(2, 2)
    requires j < k <= 3
    ensures RotateN(p, j) != RotateN(p, k)
  {
  }

  /** The centre is the one cell every turn keeps. */
  lemma {:induction false} RotateNCentre(n: nat)
    ensures RotateN(Pos(2, 2), n) == Pos(2, 2)
  {
    if n > 0 {
      RotateNCentre(n - 1);
    }
  }

  /** Appending an unplayed cell to a record with room keeps it a valid record. */
  lemma AppendValid(mr: Record, m: int)
    requires ValidRecord(mr) && |mr| < MAX_MOVE_NUMBER && IsCell(m) && m !in mr
    ensures ValidRecord(mr + [m])
  {
    var r := mr + [m];
    forall i, j | 0 <= i < j < |r|
      ensures r[i] != r[j]
    {
      if j == |mr| {
        assert r[i] == mr[i];
      }
    }
  }

  /** A valid record with its last move dropped is a valid record. */
  lemma PrefixValid(mr: Record, m: int)
    requires ValidRecord(mr + [m])
    ensures ValidRecord(mr)
  {
    forall i | 0 <= i < |mr|
      ensures mr[i] == (mr + [m])[i]
    {
    }
  }

  /** The text of a record as Java holds it: one digit per move. */
  function Text(r: Record): (t: string)
    requires AllCells(r)
    ensures |t| == |r| && AllDigits(t)
    ensures forall i :: 0 <= i < |r| ==> DigitValue(t[i]) == r[i]
  {
    seq(|r|, i requires 0 <= i < |r| && IsCell(r[i]) => DigitChar(r[i]))
  }

  /** A cell's digit occurs in the text of a record exactly when the cell was played:
      `moveRecord.indexOf(String.valueOf(m)) >= 0`. */
  lemma TextHas(r: Record, m: int)
    requires AllCells(r) && IsCell(m)
    ensures DigitChar(m) in Text(r) <==> m in r
  {
    if DigitChar(m) in Text(r) {
      var i :| 0 <= i < |r| && Text(r)[i] == DigitChar(m);
      assert DigitValue(Text(r)[i]) == r[i];
    }
    if m in r {
      var i :| 0 <= i < |r| && r[i] == m;
      assert Text(r)[i] == DigitChar(m);
    }
  }

  /** The positions of a record, move by move. */
  function DecodeRecord(r: Record): (ps: seq<Pos>)
    ensures |ps| == |r|
    ensures forall i :: 0 <= i < |r| ==> ps[i] == Decode(r[i])
  {
    seq(|r|, i requires 0 <= i < |r| => Decode(r[i]))
  }

  /** `updateMoveRecord`: the record whose i-th code is the code of the i-th position. */
  function EncodeRecord(ps: seq<Pos>): (r: Record)
    ensures |r| == |ps|
    ensures forall i :: 0 <= i < |ps| ==> r[i] == Encode(ps[i])
  {
    seq(|ps|, i requires 0 <= i < |ps| => Encode(ps[i]))
  }

  /** Every position turned once. */
  function RotateAll(ps: seq<Pos>): (qs: seq<Pos>)
    ensures |qs| == |ps|
    ensures forall i :: 0 <= i < |ps| ==> qs[i] == Rotate(ps[i])
  {
    seq(|ps|, i requires 0 <= i < |ps| => Rotate(ps[i]))
  }

  /** The positions after `n` quarter turns. */
  function Turn(ps: seq<Pos>, n: nat): seq<Pos> {
    if n == 0 then ps else RotateAll(Turn(ps, n - 1))
  }

  /** The record of a game seen after `n` quarter turns of the board. */
  function RotateRecord(r: Record, n: nat): (t: Record)
    requires AllCells(r)
    ensures |t| == |r| && AllCells(t)
  {
    var ps := DecodeRecord(r);
    EncodeDecodeRecord(r);
    TurnShape(ps, n);
    EncodeRecord(Turn(ps, n))
  }

  predicate AllOnBoard(ps: seq<Pos>) {
    forall i :: 0 <= i < |ps| ==> OnBoard(ps[i])
  }

  predicate DistinctPositions(ps: seq<Pos>) {
    forall i, j :: 0 <= i < j < |ps| ==> ps[i] != ps[j]
  }

  /** Each turn moves every position to `(4-y, x)`, keeps it on the board, keeps the number
      of moves, and keeps distinct positions distinct. */
  lemma {:induction false} TurnShape(ps: seq<Pos>, n: nat)
    requires AllOnBoard(ps)
    ensures |Turn(ps, n)| == |ps|
    ensures AllOnBoard(Turn(ps, n))
    ensures DistinctPositions(ps) ==> DistinctPositions(Turn(ps, n))
    ensures n > 0 ==> forall i :: 0 <= i < |ps| ==>
              Turn(ps, n)[i] == Pos(4 - Turn(ps, n - 1)[i].y, Turn(ps, n - 1)[i].x)
  {
    if n > 0 {
      TurnShape(ps, n - 1);
    }
  }

  /** The `i`-th position after `n` turns is the `i`-th position turned `n` times. */
  lemma {:induction false} TurnAt(ps: seq<Pos>, n: nat, i: nat)
    requires i < |ps|
    ensures |Turn(ps, n)| == |ps|
    ensures Turn(ps, n)[i] == RotateN(ps[i], n)
  {
    if n > 0 {
      TurnAt(ps, n - 1, i);
    }
  }

  /** Four quarter turns bring every position back. */
  lemma {:induction false} FullTurn(ps: seq<Pos>)
    ensures Turn(ps, 4) == ps
  {
    var t1 := Turn(ps, 1);
    var t2 := Turn(ps, 2);
    var t3 := Turn(ps, 3);
    var t4 := Turn(ps, 4);
    assert t1 == RotateAll(Turn(ps, 0)) && Turn(ps, 0) == ps;
    assert t2 == RotateAll(t1);
    assert t3 == RotateAll(t2);
    assert t4 == RotateAll(t3);
    forall i | 0 <= i < |ps|
      ensures t4[i] == ps[i]
    {
      assert t4[i] == Rotate(Rotate(Rotate(Rotate(ps[i]))));
    }
  }

  /** Decoding a valid record and encoding it again (`updateMoveRecord`) gives it back. */
  lemma {:induction false} EncodeDecodeRecord(r: Record)
    requires AllCells(r)
    ensures EncodeRecord(DecodeRecord(r)) == r
    ensures AllOnBoard(DecodeRecord(r))
  {
  }

  /** A turned valid record is a valid record of the same length: the turn permutes cells. */
  lemma {:induction false} RotateRecordValid(r: Record, n: nat)
    requires ValidRecord(r)
    ensures |RotateRecord(r, n)| == |r|
    ensures ValidRecord(RotateRecord(r, n))
  {
    var ps := DecodeRecord(r);
    EncodeDecodeRecord(r);
    forall i, j | 0 <= i < j < |ps|
      ensures ps[i] != ps[j]
    {
      assert Encode(ps[i]) == r[i] && Encode(ps[j]) == r[j];
    }
    TurnShape(ps, n);
    var qs := Turn(ps, n);
    var rr := EncodeRecord(qs);
    forall i, j | 0 <= i < j < |rr|
      ensures rr[i] != rr[j]
    {
      if rr[i] == rr[j] {
        EncodeInjective(qs[i], qs[j]);
      }
    }
  }

  /** Turned a different number of times (under four), a record changes at every move that is
      not the centre. */
  lemma TurnsDiffer(r: Record, i: nat, j: nat, k: nat)
    requires AllCells(r) && i < |r| && r[i] != 5
    requires j < k <= 3
    ensures RotateRecord(r, j)[i] != RotateRecord(r, k)[i]
  {
    var p := Decode(r[i]);
    RotateRecordAt(r, j, i);
    RotateRecordAt(r, k, i);
    assert Encode(Pos(2, 2)) == 5;
    RotateNDistinct(p, j, k);
    if RotateRecord(r, j)[i] == RotateRecord(r, k)[i] {
      EncodeInjective(RotateN(p, j), RotateN(p, k));
    }
  }

  /** The `i`-th move of a record turned `n` times is its position turned `n` times. */
  lemma RotateRecordAt(r: Record, n: nat, i: nat)
    requires AllCells(r) && i < |r|
    ensures OnBoard(Decode(r[i])) && Encode(Decode(r[i])) == r[i]
    ensures RotateRecord(r, n)[i] == Encode(RotateN(Decode(r[i]), n))
  {
    var ps := DecodeRecord(r);
    EncodeDecodeRecord(r);
    assert EncodeRecord(ps)[i] == r[i];
    TurnShape(ps, n);
    TurnAt(ps, n, i);
  }

  /** Positions all at the centre are the same after any number of turns. */
  lemma TurnKeepsCentre(ps: seq<Pos>, n: nat)
    requires forall i :: 0 <= i < |ps| ==> ps[i] == Pos(2, 2)
    ensures Turn(ps, n) == ps
  {
    forall i | 0 <= i < |ps|
      ensures Turn(ps, n)[i] == ps[i]
    {
      TurnAt(ps, n, i);
      RotateNCentre(n);
    }
    TurnShape(ps, n);
  }
}
