/** Lose-pattern derivation (`getLosePatterns`), stated functionally over the list of patterns
    the array holds. A lose record with its last move dropped is a pattern the computer must not
    repeat. Then, for the lengths 7, 5 and 3 in turn: when the `10-L` length-`L` patterns that
    share an `(L-1)`-move prefix cover every move left at that point, the prefix without its
    last move is added as a new pattern. */
module LosePatterns {

  /** How many length-`L` patterns one prefix needs before it is promoted: `9-L+1`. */
  function Needed(L: nat): int {
    9 - L + 1
  }

  /** The seeds: each record with its last move dropped. */
  function Seeds(records: seq<string>): (ps: seq<string>)
    requires forall i :: 0 <= i < |records| ==> |records[i]| >= 1
    ensures |ps| == |records|
    ensures forall i :: 0 <= i < |records| ==>
              |ps[i]| + 1 == |records[i]| && ps[i] + [records[i][|records[i]| - 1]] == records[i]
  {
    var ps := seq(|records|, i requires 0 <= i < |records| && |records[i]| >= 1 =>
      records[i][..|records[i]| - 1]);
    assert forall i :: 0 <= i < |records| ==>
      ps[i] + [records[i][|records[i]| - 1]] == records[i];
    ps
  }

  /** The number of patterns of length `L`. */
  function CountLength(ps: seq<string>, L: nat): (c: nat)
    ensures c <= |ps|
  {
    if |ps| == 0 then 0
    else CountLength(ps[..|ps| - 1], L) + (if |ps[|ps| - 1]| == L then 1 else 0)
  }

  /** The number of length-`L` patterns whose first `L-1` moves are `key`, counted with
      multiplicity. */
  function Occurrences(ps: seq<string>, L: nat, key: string): (c: nat)
    requires L >= 1
    ensures c <= CountLength(ps, L)
  {
    if |ps| == 0 then 0
    else
      var last := ps[|ps| - 1];
      Occurrences(ps[..|ps| - 1], L, key) + (if |last| == L && last[..L - 1] == key then 1 else 0)
  }

  /** One entry of `newPattern` with its `newPatternCount`. */
  datatype Group = Group(key: string, count: nat)

  function Keys(groups: seq<Group>): (ks: seq<string>)
    ensures |ks| == |groups|
    ensures forall i :: 0 <= i < |groups| ==> ks[i] == groups[i].key
  {
    seq(|groups|, i requires 0 <= i < |groups| => groups[i].key)
  }

  /** The count recorded for `key`, or 0 when no group has it. */
  function CountOf(groups: seq<Group>, key: string): nat {
    if |groups| == 0 then 0
    else if groups[0].key == key then groups[0].count
    else CountOf(groups[1..], key)
  }

  /** The sum of the recorded counts. */
  function Total(groups: seq<Group>): nat {
    if |groups| == 0 then 0 else groups[0].count + Total(groups[1..])
  }

  predicate DistinctKeys(groups: seq<Group>) {
    forall i, j :: 0 <= i < j < |groups| ==> groups[i].key != groups[j].key
  }

  predicate CountsPositive(groups: seq<Group>) {
    forall i :: 0 <= i < |groups| ==> groups[i].count >= 1
  }

  predicate KeysOfLength(groups: seq<Group>, n: nat) {
    forall i :: 0 <= i < |groups| ==> |groups[i].key| == n
  }

  /** Count one more pattern with prefix `key`: the group with that key is bumped, and a key
      not seen before opens a new group at the end with count 1. */
  function Bump(groups: seq<Group>, key: string): (r: seq<Group>)
    ensures |r| == |groups| || |r| == |groups| + 1
  {
    if |groups| == 0 then [Group(key, 1)]
    else if groups[0].key == key then [Group(key, groups[0].count + 1)] + groups[1..]
    else [groups[0]] + Bump(groups[1..], key)
  }

  /** Bumping adds one to the total. */
  lemma {:induction false} BumpTotal(groups: seq<Group>, key: string)
    ensures Total(Bump(groups, key)) == Total(groups) + 1
  {
    if |groups| > 0 && groups[0].key != key {
      BumpTotal(groups[1..], key);
      assert Bump(groups, key)[1..] == Bump(groups[1..], key);
    } else if |groups| > 0 {
      assert Bump(groups, key)[1..] == groups[1..];
    }
  }

  /** Bumping keeps the keys, and appends `key` when it had no group. */
  lemma {:induction false} BumpKeys(groups: seq<Group>, key: string)
    ensures key in Keys(groups) ==> Keys(Bump(groups, key)) == Keys(groups)
    ensures key !in Keys(groups) ==> Keys(Bump(groups, key)) == Keys(groups) + [key]
  {
    if |groups| > 0 {
      var g := groups[0];
      var tail := groups[1..];
      assert groups == [g] + tail;
      KeysCons(g, tail);
      if g.key == key {
        assert Bump(groups, key) == [Group(key, g.count + 1)] + tail;
        KeysCons(Group(key, g.count + 1), tail);
      } else {
        assert Bump(groups, key) == [g] + Bump(tail, key);
        BumpKeys(tail, key);
        KeysCons(g, Bump(tail, key));
        if key in Keys(groups) {
          assert key in Keys(tail);
        } else {
          assert key !in Keys(tail);
          assert Keys(groups) + [key] == [g.key] + (Keys(tail) + [key]);
        }
      }
    } else {
      assert Keys(Bump(groups, key)) == [key];
    }
  }

  lemma KeysCons(g: Group, rest: seq<Group>)
    ensures Keys([g] + rest) == [g.key] + Keys(rest)
  {
    var ks := Keys([g] + rest);
    forall i | 0 <= i < |ks|
      ensures ks[i] == ([g.key] + Keys(rest))[i]
    {
      if i > 0 {
        assert ([g] + rest)[i] == rest[i - 1];
      }
    }
  }

  /** Bumping keeps every count at least 1. */
  lemma {:induction false} BumpPositive(groups: seq<Group>, key: string)
    requires CountsPositive(groups)
    ensures CountsPositive(Bump(groups, key))
  {
    if |groups| > 0 && groups[0].key != key {
      BumpPositive(groups[1..], key);
      ConsPositive(groups[0], Bump(groups[1..], key));
    } else if |groups| > 0 {
      ConsPositive(Group(key, groups[0].count + 1), groups[1..]);
    }
  }

  lemma ConsPositive(g: Group, rest: seq<Group>)
    requires g.count >= 1 && CountsPositive(rest)
    ensures CountsPositive([g] + rest)
  {
    forall i | 0 <= i < |[g] + rest|
      ensures ([g] + rest)[i].count >= 1
    {
      if i > 0 {
        assert ([g] + rest)[i] == rest[i - 1];
      }
    }
  }

  /** Bumping `key` adds one to its count and leaves every other count as it was. */
  lemma {:induction false} BumpCountOf(groups: seq<Group>, key: string, k: string)
    ensures CountOf(Bump(groups, key), k) == CountOf(groups, k) + (if k == key then 1 else 0)
  {
    if |groups| > 0 && groups[0].key != key {
      BumpCountOf(groups[1..], key, k);
    }
  }

  /** Groups whose key sequence has no repeats have distinct keys. */
  lemma DistinctKeysOf(groups: seq<Group>)
    requires forall i, j :: 0 <= i < j < |Keys(groups)| ==> Keys(groups)[i] != Keys(groups)[j]
    ensures DistinctKeys(groups)
  {
    forall i, j | 0 <= i < j < |groups|
      ensures groups[i].key != groups[j].key
    {
      assert Keys(groups)[i] == groups[i].key && Keys(groups)[j] == groups[j].key;
    }
  }

  /** The groups the tally loop builds over the length-`L` patterns, in order of first
      occurrence: no key twice, every key of length `L-1`, every count at least 1, the count
      of each prefix equal to the number of patterns with that prefix, and the counts adding
      up to the number of length-`L` patterns. */
  function Tally(ps: seq<string>, L: nat): (groups: seq<Group>)
    requires L >= 1
    ensures DistinctKeys(groups)
    ensures KeysOfLength(groups, L - 1)
    ensures CountsPositive(groups)
    ensures forall k :: CountOf(groups, k) == Occurrences(ps, L, k)
    ensures Total(groups) == CountLength(ps, L)
  {
    if |ps| == 0 then []
    else
      var front := Tally(ps[..|ps| - 1], L);
      var last := ps[|ps| - 1];
      if |last| == L then
        var key := last[..L - 1];
        var r := Bump(front, key);
        BumpTotal(front, key);
        BumpKeys(front, key);
        BumpPositive(front, key);
        KeysDistinctAfterBump(front, key, r);
        assert forall k :: CountOf(r, k) == Occurrences(ps, L, k) by {
          forall k
            ensures CountOf(r, k) == Occurrences(ps, L, k)
          {
            BumpCountOf(front, key, k);
          }
        }
        forall i | 0 <= i < |r|
          ensures |r[i].key| == L - 1
        {
          assert r[i].key == Keys(r)[i];
          if i < |front| {
            assert Keys(r)[i] == Keys(front)[i];
          }
        }
        r
      else front
  }

  lemma KeysDistinctAfterBump(groups: seq<Group>, key: string, r: seq<Group>)
    requires DistinctKeys(groups)
    requires key in Keys(groups) ==> Keys(r) == Keys(groups)
    requires key !in Keys(groups) ==> Keys(r) == Keys(groups) + [key]
    ensures DistinctKeys(r)
  {
    var ks := Keys(groups);
    forall i, j | 0 <= i < j < |ks|
      ensures ks[i] != ks[j]
    {
      assert ks[i] == groups[i].key && ks[j] == groups[j].key;
    }
    DistinctKeysOf(r);
  }

  /** A group's count is the count recorded for its key. */
  lemma {:induction false} CountOfAt(groups: seq<Group>, i: nat)
    requires DistinctKeys(groups) && i < |groups|
    ensures CountOf(groups, groups[i].key) == groups[i].count
  {
    if i > 0 {
      CountOfAt(groups[1..], i - 1);
    }
  }

  /** A key without a group has count 0. */
  lemma {:induction false} CountOfAbsent(groups: seq<Group>, key: string)
    requires key !in Keys(groups)
    ensures CountOf(groups, key) == 0
  {
    if |groups| > 0 {
      assert Keys(groups)[0] == groups[0].key;
      assert Keys(groups[1..]) == Keys(groups)[1..];
      CountOfAbsent(groups[1..], key);
    }
  }

  /** With every count at least 1, there are no more groups than counted patterns. */
  lemma {:induction false} GroupsBound(groups: seq<Group>)
    requires CountsPositive(groups)
    ensures |groups| <= Total(groups)
  {
    if |groups| > 0 {
      GroupsBound(groups[1..]);
    }
  }

  /** The tally has a group for exactly the prefixes that occur, with their multiplicity, and
      never more groups than the `newPattern` array holds. */
  lemma TallyExact(ps: seq<string>, L: nat, key: string)
    requires L >= 1
    ensures key in Keys(Tally(ps, L)) <==> Occurrences(ps, L, key) > 0
    ensures forall i :: 0 <= i < |Tally(ps, L)| ==>
              Tally(ps, L)[i].count == Occurrences(ps, L, Tally(ps, L)[i].key)
    ensures |Tally(ps, L)| <= CountLength(ps, L)
  {
    var groups := Tally(ps, L);
    if key in Keys(groups) {
      var i :| 0 <= i < |groups| && Keys(groups)[i] == key;
      CountOfAt(groups, i);
    } else {
      CountOfAbsent(groups, key);
    }
    forall i | 0 <= i < |groups|
      ensures groups[i].count == Occurrences(ps, L, groups[i].key)
    {
      CountOfAt(groups, i);
    }
    GroupsBound(groups);
  }

  /** The new patterns of one level: for each group, in order, whose count is `9-L+1`, its key
      without the last move. */
  function Promote(groups: seq<Group>, L: nat): (added: seq<string>)
    requires L >= 2 && KeysOfLength(groups, L - 1)
    ensures forall i :: 0 <= i < |added| ==> |added[i]| == L - 2
  {
    if |groups| == 0 then []
    else
      var rest := Promote(groups[1..], L);
      if groups[0].count == Needed(L) then [groups[0].key[..L - 2]] + rest else rest
  }

  /** A pattern is promoted exactly when it is the shortened key of a group whose count is
      `9-L+1`. */
  lemma {:induction false} PromoteExact(groups: seq<Group>, L: nat, q: string)
    requires L >= 2 && KeysOfLength(groups, L - 1)
    ensures q in Promote(groups, L) <==>
            exists i :: 0 <= i < |groups| && groups[i].count == Needed(L) && groups[i].key[..L - 2] == q
  {
    if |groups| > 0 {
      PromoteExact(groups[1..], L, q);
      if q in Promote(groups[1..], L) {
        var i :| 1 <= i + 1 < |groups| && groups[1..][i].count == Needed(L) && groups[1..][i].key[..L - 2] == q;
        assert groups[i + 1] == groups[1..][i];
      }
      if exists i :: 1 <= i < |groups| && groups[i].count == Needed(L) && groups[i].key[..L - 2] == q {
        var i :| 1 <= i < |groups| && groups[i].count == Needed(L) && groups[i].key[..L - 2] == q;
        assert groups[1..][i - 1] == groups[i];
      }
    }
  }

  /** Each promoted pattern uses up `9-L+1` of the counted patterns. */
  lemma {:induction false} PromoteBound(groups: seq<Group>, L: nat)
    requires 2 <= L <= 9 && KeysOfLength(groups, L - 1)
    ensures |Promote(groups, L)| * Needed(L) <= Total(groups)
  {
    if |groups| > 0 {
      PromoteBound(groups[1..], L);
    }
  }

  /** One pass of the `ii` loop: skipped when fewer than 3 patterns have length `L`; otherwise
      the promoted patterns are appended, the existing ones left as they are. */
  function Level(ps: seq<string>, L: nat): (r: seq<string>)
    requires L >= 2
    ensures |r| >= |ps| && r[..|ps|] == ps
    ensures forall i :: |ps| <= i < |r| ==> |r[i]| == L - 2
  {
    if CountLength(ps, L) < 3 then ps else ps + Promote(Tally(ps, L), L)
  }

  /** The patterns `getLosePatterns` leaves in the array, in array order, from the seeds. */
  function Derive(seeds: seq<string>): seq<string> {
    Level(Level(Level(seeds, 7), 5), 3)
  }

  /** A level with fewer than 3 patterns of its length adds nothing. */
  lemma LevelSkipped(ps: seq<string>, L: nat)
    requires L >= 2 && CountLength(ps, L) < 3
    ensures Level(ps, L) == ps
  {
  }

  /** A level that is not skipped adds a pattern `q` exactly when some `(L-1)`-move prefix
      starts `9-L+1` of the length-`L` patterns (counted with multiplicity) and `q` is that
      prefix without its last move. */
  lemma LevelAdds(ps: seq<string>, L: nat, q: string)
    requires 2 <= L <= 9 && CountLength(ps, L) >= 3
    ensures q in Level(ps, L)[|ps|..] <==>
            exists key :: |key| == L - 1 && Occurrences(ps, L, key) == Needed(L) && key[..L - 2] == q
  {
    var groups := Tally(ps, L);
    assert Level(ps, L)[|ps|..] == Promote(groups, L);
    PromoteExact(groups, L, q);
    if q in Promote(groups, L) {
      PromotedHasKey(ps, L, q);
    }
    if exists key :: |key| == L - 1 && Occurrences(ps, L, key) == Needed(L) && key[..L - 2] == q {
      var key :| |key| == L - 1 && Occurrences(ps, L, key) == Needed(L) && key[..L - 2] == q;
      KeyIsPromoted(ps, L, key);
    }
  }

  lemma PromotedHasKey(ps: seq<string>, L: nat, q: string)
    requires L >= 2
    requires exists i :: 0 <= i < |Tally(ps, L)| && Tally(ps, L)[i].count == Needed(L) &&
                         Tally(ps, L)[i].key[..L - 2] == q
    ensures exists key :: |key| == L - 1 && Occurrences(ps, L, key) == Needed(L) && key[..L - 2] == q
  {
    var groups := Tally(ps, L);
    var i :| 0 <= i < |groups| && groups[i].count == Needed(L) && groups[i].key[..L - 2] == q;
    TallyExact(ps, L, groups[i].key);
    var key := groups[i].key;
    assert |key| == L - 1 && Occurrences(ps, L, key) == Needed(L) && key[..L - 2] == q;
  }

  lemma KeyIsPromoted(ps: seq<string>, L: nat, key: string)
    requires 2 <= L <= 9 && |key| == L - 1 && Occurrences(ps, L, key) == Needed(L)
    ensures exists i :: 0 <= i < |Tally(ps, L)| && Tally(ps, L)[i].count == Needed(L) &&
                        Tally(ps, L)[i].key[..L - 2] == key[..L - 2]
  {
    var groups := Tally(ps, L);
    TallyExact(ps, L, key);
    var i :| 0 <= i < |groups| && Keys(groups)[i] == key;
    assert groups[i].count == Needed(L);
  }

  /** The distinct `(L-1)`-move prefixes of the patterns of length `L`. */
  function Prefixes(ps: seq<string>, L: nat): set<string>
    requires L >= 1
  {
    set j | 0 <= j < |ps| && |ps[j]| == L :: ps[j][..L - 1]
  }

  /** The prefixes that start exactly `9-L+1` patterns of length `L` and shorten to `q`. */
  function Completed(ps: seq<string>, L: nat, q: string): set<string>
    requires L >= 2
  {
    set k | k in Prefixes(ps, L) && |k| >= L - 2 && Occurrences(ps, L, k) == Needed(L) && k[..L - 2] == q
  }

  /** A prefix is one of the patterns' prefixes exactly when it occurs. */
  lemma {:induction false} PrefixesOccur(ps: seq<string>, L: nat, k: string)
    requires L >= 1
    ensures k in Prefixes(ps, L) <==> Occurrences(ps, L, k) > 0
  {
    if |ps| > 0 {
      var n := |ps| - 1;
      var front := ps[..n];
      PrefixesOccur(front, L, k);
      if k in Prefixes(ps, L) {
        var j :| 0 <= j < |ps| && |ps[j]| == L && ps[j][..L - 1] == k;
        if j < n {
          assert front[j] == ps[j];
          assert k in Prefixes(front, L);
        }
      }
      if k in Prefixes(front, L) {
        var j :| 0 <= j < |front| && |front[j]| == L && front[j][..L - 1] == k;
        assert ps[j] == front[j];
      }
      if |ps[n]| == L && ps[n][..L - 1] == k {
        assert ps[n][..L - 1] in Prefixes(ps, L);
      }
    }
  }

  /** The shortened keys with count `9-L+1` of groups with distinct keys. */
  function PromotedKeys(groups: seq<Group>, L: nat, q: string): set<string>
    requires L >= 2
  {
    set k | k in Keys(groups) && |k| >= L - 2 && CountOf(groups, k) == Needed(L) && k[..L - 2] == q
  }

  /** Promotion appends `q` once for every group whose count is `9-L+1` and whose key shortens
      to `q`. */
  lemma {:induction false} PromoteCount(groups: seq<Group>, L: nat, q: string)
    requires L >= 2 && KeysOfLength(groups, L - 1) && DistinctKeys(groups)
    ensures multiset(Promote(groups, L))[q] == |PromotedKeys(groups, L, q)|
  {
    if |groups| == 0 {
      assert PromotedKeys(groups, L, q) == {};
    } else {
      var g := groups[0];
      var rest := groups[1..];
      assert forall i :: 0 <= i < |rest| ==> rest[i] == groups[i + 1];
      PromoteCount(rest, L, q);
      PromotedKeysCons(groups, L, q);
    }
  }

  /** The promoted keys of a list of groups: those of its tail, and its head's key when that
      group qualifies. */
  lemma PromotedKeysCons(groups: seq<Group>, L: nat, q: string)
    requires L >= 2 && |groups| > 0 && KeysOfLength(groups, L - 1) && DistinctKeys(groups)
    ensures |PromotedKeys(groups, L, q)| ==
            |PromotedKeys(groups[1..], L, q)| +
            (if groups[0].count == Needed(L) && groups[0].key[..L - 2] == q then 1 else 0)
  {
    var g := groups[0];
    HeadKeyFresh(groups);
    PromotedKeysSplit(groups, L, q);
    AddOneCard(PromotedKeys(groups, L, q), PromotedKeys(groups[1..], L, q), g.key,
               g.count == Needed(L) && g.key[..L - 2] == q);
  }

  /** A set that is `t` plus, when `b` holds, one element `x` outside `t`. */
  lemma AddOneCard(s: set<string>, t: set<string>, x: string, b: bool)
    requires forall k :: k in s <==> k in t || (b && k == x)
    requires x !in t
    ensures |s| == |t| + (if b then 1 else 0)
  {
    if b {
      assert s == t + {x};
    } else {
      assert s == t;
    }
  }

  /** With distinct keys, the head's key is not among the tail's keys. */
  lemma HeadKeyFresh(groups: seq<Group>)
    requires |groups| > 0 && DistinctKeys(groups)
    ensures groups[0].key !in Keys(groups[1..])
  {
    var rest := groups[1..];
    forall i | 0 <= i < |rest|
      ensures Keys(rest)[i] != groups[0].key
    {
      assert rest[i] == groups[i + 1];
    }
  }

  /** Membership in the promoted keys of a list of groups, split at its head. */
  lemma PromotedKeysSplit(groups: seq<Group>, L: nat, q: string)
    requires L >= 2 && |groups| > 0 && KeysOfLength(groups, L - 1)
    requires groups[0].key !in Keys(groups[1..])
    ensures groups[0].key !in PromotedKeys(groups[1..], L, q)
    ensures forall k :: k in PromotedKeys(groups, L, q) <==>
              (k in PromotedKeys(groups[1..], L, q) ||
               (groups[0].count == Needed(L) && groups[0].key[..L - 2] == q && k == groups[0].key))
  {
    var g := groups[0];
    var rest := groups[1..];
    assert groups == [g] + rest;
    KeysCons(g, rest);
    forall k
      ensures k in PromotedKeys(groups, L, q) <==>
                (k in PromotedKeys(rest, L, q) || (g.count == Needed(L) && g.key[..L - 2] == q && k == g.key))
    {
      assert k in Keys(groups) <==> k == g.key || k in Keys(rest);
      if k != g.key {
        assert CountOf(groups, k) == CountOf(rest, k);
      }
    }
  }

  /** A level that is not skipped appends `q` once for every `(L-1)`-move prefix that starts
      exactly `9-L+1` patterns of length `L` and shortens to `q`: two such prefixes that share
      their first `L-2` moves add the same pattern twice. */
  lemma LevelCount(ps: seq<string>, L: nat, q: string)
    requires 2 <= L <= 9 && CountLength(ps, L) >= 3
    ensures multiset(Level(ps, L)[|ps|..])[q] == |Completed(ps, L, q)|
  {
    var groups := Tally(ps, L);
    assert Level(ps, L)[|ps|..] == Promote(groups, L);
    PromoteCount(groups, L, q);
    forall k
      ensures k in PromotedKeys(groups, L, q) <==> k in Completed(ps, L, q)
    {
      TallyExact(ps, L, k);
      PrefixesOccur(ps, L, k);
    }
    assert PromotedKeys(groups, L, q) == Completed(ps, L, q);
  }

  /** A level adds at most one pattern per `9-L+1` patterns of length `L`. */
  lemma LevelBound(ps: seq<string>, L: nat)
    requires 2 <= L <= 9
    ensures (|Level(ps, L)| - |ps|) * Needed(L) <= CountLength(ps, L)
  {
    if CountLength(ps, L) >= 3 {
      PromoteBound(Tally(ps, L), L);
    }
  }

  lemma {:induction false} CountLengthAppend(a: seq<string>, b: seq<string>, L: nat)
    ensures CountLength(a + b, L) == CountLength(a, L) + CountLength(b, L)
  {
    if |b| == 0 {
      assert a + b == a;
    } else {
      assert (a + b)[..|a + b| - 1] == a + b[..|b| - 1];
      CountLengthAppend(a, b[..|b| - 1], L);
    }
  }

  lemma {:induction false} CountLengthUniform(ps: seq<string>, n: nat, L: nat)
    requires forall i :: 0 <= i < |ps| ==> |ps[i]| == n
    ensures CountLength(ps, L) == if n == L then |ps| else 0
  {
    if |ps| > 0 {
      CountLengthUniform(ps[..|ps| - 1], n, L);
    }
  }

  lemma {:induction false} CountLengthsDisjoint(ps: seq<string>)
    ensures CountLength(ps, 7) + CountLength(ps, 5) + CountLength(ps, 3) <= |ps|
  {
    if |ps| > 0 {
      CountLengthsDisjoint(ps[..|ps| - 1]);
    }
  }

  /** How the count of length-`L'` patterns grows across a level. */
  lemma LevelCounts(ps: seq<string>, L: nat, L': nat)
    requires L >= 2
    ensures CountLength(Level(ps, L), L') ==
            CountLength(ps, L') + (if L' == L - 2 then |Level(ps, L)| - |ps| else 0)
  {
    var r := Level(ps, L);
    var added := r[|ps|..];
    assert r == ps + added;
    CountLengthAppend(ps, added, L');
    CountLengthUniform(added, L - 2, L');
  }

  /** The derivation never needs more than twice as many entries as there are lose records,
      the size of the `losePatterns` array. */
  lemma DeriveBound(seeds: seq<string>)
    ensures |Derive(seeds)| <= 2 * |seeds|
  {
    var s1 := Level(seeds, 7);
    var s2 := Level(s1, 5);
    var s3 := Level(s2, 3);
    CountLengthsDisjoint(seeds);
    FirstLevelBound(seeds);
    LaterLevelsBound(s1);
    AddedBound(CountLength(seeds, 7), CountLength(seeds, 5), CountLength(seeds, 3),
               |s1| - |seeds|, |s2| - |s1|, |s3| - |s2|);
  }

  /** The length-7 level adds at most one pattern per three length-7 patterns, all of length
      5, and leaves the length-3 count alone. */
  lemma FirstLevelBound(seeds: seq<string>)
    ensures var a1 := |Level(seeds, 7)| - |seeds|;
            && a1 * 3 <= CountLength(seeds, 7)
            && CountLength(Level(seeds, 7), 5) == CountLength(seeds, 5) + a1
            && CountLength(Level(seeds, 7), 3) == CountLength(seeds, 3)
  {
    LevelBound(seeds, 7);
    LevelCounts(seeds, 7, 5);
    LevelCounts(seeds, 7, 3);
  }

  /** The length-5 level adds at most one pattern per five length-5 patterns, all of length
      3; the length-3 level at most one per seven. */
  lemma LaterLevelsBound(s1: seq<string>)
    ensures var s2 := Level(s1, 5); var a2 := |s2| - |s1|;
            && a2 * 5 <= CountLength(s1, 5)
            && (|Level(s2, 3)| - |s2|) * 7 <= CountLength(s1, 3) + a2
  {
    var s2 := Level(s1, 5);
    LevelBound(s1, 5);
    LevelBound(s2, 3);
    LevelCounts(s1, 5, 3);
  }

  /** The three levels together add no more patterns than the seeds they count. */
  lemma AddedBound(c7: nat, c5: nat, c3: nat, a1: nat, a2: nat, a3: nat)
    requires a1 * 3 <= c7 && a2 * 5 <= c5 + a1 && a3 * 7 <= c3 + a2
    ensures a1 + a2 + a3 <= c7 + c5 + c3
  {
  }

  /** The derivation keeps every seed where it is and only appends patterns of length 5, 3
      or 1. */
  lemma DeriveKeepsSeeds(seeds: seq<string>)
    ensures |Derive(seeds)| >= |seeds| && Derive(seeds)[..|seeds|] == seeds
    ensures forall i :: |seeds| <= i < |Derive(seeds)| ==> |Derive(seeds)[i]| in {5, 3, 1}
  {
    var s1 := Level(seeds, 7);
    var s2 := Level(s1, 5);
    var s3 := Level(s2, 3);
    assert s3[..|s1|] == s2[..|s1|] == s1;
    assert s3[..|seeds|] == s1[..|seeds|];
    forall i | |seeds| <= i < |s3|
      ensures |s3[i]| in {5, 3, 1}
    {
      if i < |s1| {
        assert s3[i] == s1[i];
      } else if i < |s2| {
        assert s3[i] == s2[i];
      }
    }
  }

  /** Three lose records of length 7 leave seeds of length 6, so no level is examined and
      nothing is promoted. */
  lemma ShortRecordsPromoteNothing()
    ensures Derive(Seeds(["1234567", "1234568", "1234569"])) == ["123456", "123456", "123456"]
  {
    var records := ["1234567", "1234568", "1234569"];
    var seeds := Seeds(records);
    assert records[0][..6] == "123456" && records[1][..6] == "123456" && records[2][..6] == "123456";
    assert seeds == ["123456", "123456", "123456"];
    CountLengthUniform(seeds, 6, 7);
    CountLengthUniform(seeds, 6, 5);
    CountLengthUniform(seeds, 6, 3);
  }

  /** Three lose records of length 8 whose seeds share the prefix `123456` and end in the
      three cells left after it promote `12345`. */
  lemma FullRecordsPromote(records: seq<string>)
    requires records == ["12345678", "12345687", "12345697"]
    ensures Derive(Seeds(records)) == ["1234567", "1234568", "1234569", "12345"]
  {
    var seeds := Seeds(records);
    assert records[0][..7] == "1234567" && records[1][..7] == "1234568" && records[2][..7] == "1234569";
    assert seeds == ["1234567", "1234568", "1234569"];
    var s1 := seeds + ["12345"];
    FullLevelPromotes(seeds);
    FullLaterLevels(seeds, s1);
  }

  /** The length-7 level over those seeds promotes their common prefix `12345`. */
  lemma FullLevelPromotes(seeds: seq<string>)
    requires seeds == ["1234567", "1234568", "1234569"]
    ensures Level(seeds, 7) == seeds + ["12345"]
  {
    CountLengthUniform(seeds, 7, 7);
    FullTally(seeds);
    assert "123456"[..5] == "12345";
    assert Promote([Group("123456", 3)], 7) == ["12345"];
  }

  /** The three seeds fall into one group of three. */
  lemma FullTally(seeds: seq<string>)
    requires seeds == ["1234567", "1234568", "1234569"]
    ensures Tally(seeds, 7) == [Group("123456", 3)]
  {
    assert seeds[0][..6] == "123456" && seeds[1][..6] == "123456" && seeds[2][..6] == "123456";
    assert seeds[..0] == [] && seeds[..1][..0] == [];
    assert seeds[..2][..1] == seeds[..1] && seeds[..3] == seeds;
    assert Tally(seeds[..1], 7) == [Group("123456", 1)];
    assert Tally(seeds[..2], 7) == [Group("123456", 2)];
  }

  /** One length-5 pattern and no length-3 pattern: the later levels add nothing. */
  lemma FullLaterLevels(seeds: seq<string>, s1: seq<string>)
    requires seeds == ["1234567", "1234568", "1234569"] && s1 == seeds + ["12345"]
    ensures Level(Level(s1, 5), 3) == s1
  {
    CountLengthAppend(seeds, ["12345"], 5);
    CountLengthAppend(seeds, ["12345"], 3);
    CountLengthUniform(seeds, 7, 5);
    CountLengthUniform(seeds, 7, 3);
    CountLengthUniform(["12345"], 5, 5);
    CountLengthUniform(["12345"], 5, 3);
    LevelSkipped(s1, 5);
    LevelSkipped(s1, 3);
  }
}
