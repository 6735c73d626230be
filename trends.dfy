/** The leaderboard: trend labels computed against the tallies seen at the
    previous evaluation, the stable top-ten projection and the numbered rows
    handed to the export and share actions. */
module Trends {
  import opened BotNames

  /** How a name's tally moved since the previous evaluation. */
  datatype Trend = Hot | Rising | Falling | Stale | New

  /** A name together with its trend label. The synthetic last-vote time the
      component also attaches is not part of this model. */
  datatype Enhanced = Enhanced(id: string, text: string, votes: nat, trend: Trend)

  /** One row of the exported or shared leaderboard. */
  datatype Row = Row(rank: nat, name: string, votes: nat, trend: Trend)

  /** The number of entries the leaderboard shows. */
  const BoardSize: nat := 10

  /** Idle time (ms) beyond which the component re-labels a name `stale`. */
  const StaleAfterMs: int := 30000

  function Min(a: nat, b: nat): nat { if a <= b then a else b }

  /** The name an enhanced entry was built from. */
  function Base(e: Enhanced): Name
  {
    Name(e.id, e.text, e.votes)
  }

  /** The label of one name. A missing entry and an entry of 0 both count as
      "no previous tally", so such a name is `New`. `age` is the time since
      the name's last vote, which the component draws at random; the last
      test on it assigns the label the chain already defaults to. */
  function Classify(previous: map<string, nat>, n: Name, age: int): (t: Trend)
    ensures t == New <==> n.id !in previous || previous[n.id] == 0
    ensures (t == Hot || t == Rising) ==> n.id in previous && n.votes > previous[n.id]
    ensures t == Falling ==> n.id in previous && n.votes < previous[n.id]
    ensures t == Stale ==> n.id in previous && n.votes == previous[n.id]
  {
    var prev := if n.id in previous then previous[n.id] else 0;
    var voteDiff := n.votes - prev;
    var isNew := n.id !in previous || previous[n.id] == 0;
    if isNew then New
    else if voteDiff > 2 then Hot
    else if voteDiff > 0 then Rising
    else if voteDiff < 0 then Falling
    else if age > StaleAfterMs then Stale
    else Stale
  }

  /** The enhanced list of one evaluation: one entry per name, in order,
      labelled against the tallies of the previous evaluation. `ages` holds
      one time-since-last-vote per name. */
  function Enhance(previous: map<string, nat>, names: seq<Name>, ages: seq<int>): (r: seq<Enhanced>)
    requires |ages| == |names|
    ensures |r| == |names|
    ensures forall i :: 0 <= i < |names| ==> Base(r[i]) == names[i]
    ensures forall i :: 0 <= i < |names| ==> r[i].trend == Classify(previous, names[i], ages[i])
  {
    seq(|names|, i requires 0 <= i < |names| =>
      Enhanced(names[i].id, names[i].text, names[i].votes, Classify(previous, names[i], ages[i])))
  }

  /** The tallies an evaluation records for the next one: a fold over the
      list in which a later record with the same id overrides an earlier one. */
  function Snapshot(names: seq<Name>): (m: map<string, nat>)
    ensures m.Keys == Ids(names)
  {
    if names == [] then map[]
    else
      var init := names[..|names| - 1];
      var last := names[|names| - 1];
      assert Ids(names) == Ids(init) + {last.id} by {
        assert names == init + [last];
        forall x | x in Ids(names) ensures x in Ids(init) + {last.id} {
          var i :| 0 <= i < |names| && names[i].id == x;
          if i < |init| { assert init[i].id == x; }
        }
        forall x | x in Ids(init) ensures x in Ids(names) {
          var i :| 0 <= i < |init| && init[i].id == x;
          assert names[i].id == x;
        }
      }
      Snapshot(init)[last.id := last.votes]
  }

  /** The snapshot records, for each id, the tally of the last record that
      carries it. */
  lemma {:induction false} SnapshotLastWins(names: seq<Name>, i: nat)
    requires i < |names|
    requires forall j :: i < j < |names| ==> names[j].id != names[i].id
    ensures Snapshot(names)[names[i].id] == names[i].votes
  {
    if i < |names| - 1 {
      var init := names[..|names| - 1];
      SnapshotLastWins(init, i);
    }
  }

  /** With distinct ids, the snapshot maps exactly the current ids to their
      current tallies; ids that are gone are dropped. */
  lemma SnapshotExact(names: seq<Name>)
    requires IdsDistinct(names)
    ensures Snapshot(names).Keys == Ids(names)
    ensures forall i :: 0 <= i < |names| ==> Snapshot(names)[names[i].id] == names[i].votes
  {
    forall i | 0 <= i < |names| ensures Snapshot(names)[names[i].id] == names[i].votes {
      SnapshotLastWins(names, i);
    }
  }

  /** The priority chain: the first matching rule wins and exactly one label
      applies. */
  lemma TrendPriority(previous: map<string, nat>, n: Name, age: int)
    ensures var t := Classify(previous, n, age);
      var known := n.id in previous && previous[n.id] != 0;
      (t == New <==> !known) &&
      (t == Hot <==> known && n.votes - previous[n.id] > 2) &&
      (t == Rising <==> known && 0 < n.votes - previous[n.id] <= 2) &&
      (t == Falling <==> known && n.votes < previous[n.id]) &&
      (t == Stale <==> known && n.votes == previous[n.id])
  {
  }

  /** The time test in the chain never changes the label. */
  lemma TrendIgnoresAge(previous: map<string, nat>, n: Name, age1: int, age2: int)
    ensures Classify(previous, n, age1) == Classify(previous, n, age2)
  {
  }

  /** Every entry of an evaluated list carries the label the priority chain
      gives its name against the previous tallies, whatever its age. */
  lemma EnhanceLabels(previous: map<string, nat>, names: seq<Name>, ages: seq<int>)
    requires |ages| == |names|
    ensures forall i :: 0 <= i < |names| ==>
      var t := Enhance(previous, names, ages)[i].trend;
      var n := names[i];
      var known := n.id in previous && previous[n.id] != 0;
      (t == New <==> !known) &&
      (t == Hot <==> known && n.votes - previous[n.id] > 2) &&
      (t == Rising <==> known && 0 < n.votes - previous[n.id] <= 2) &&
      (t == Falling <==> known && n.votes < previous[n.id]) &&
      (t == Stale <==> known && n.votes == previous[n.id])
    ensures forall other: seq<int> :: |other| == |names| ==>
      Enhance(previous, names, other) == Enhance(previous, names, ages)
  {
    forall i | 0 <= i < |names| {
      TrendPriority(previous, names[i], ages[i]);
    }
    forall other: seq<int> | |other| == |names|
      ensures Enhance(previous, names, other) == Enhance(previous, names, ages)
    {
      forall i | 0 <= i < |names| {
        TrendIgnoresAge(previous, names[i], other[i], ages[i]);
      }
    }
  }

  /** Evaluating the same list twice in a row: on the second pass every name
      is `Stale`, except a name with no votes, which stays `New`. */
  lemma SecondPassStale(names: seq<Name>, ages: seq<int>)
    requires IdsDistinct(names) && |ages| == |names|
    ensures forall i :: 0 <= i < |names| ==>
      Enhance(Snapshot(names), names, ages)[i].trend == if names[i].votes == 0 then New else Stale
  {
    SnapshotExact(names);
  }

  /** Entries ordered by non-increasing votes. */
  predicate Descending(s: seq<Enhanced>)
  {
    forall i, j :: 0 <= i < j < |s| ==> s[i].votes >= s[j].votes
  }

  /** The entries of `s` that have exactly `v` votes, in order. */
  function WithVotes(s: seq<Enhanced>, v: nat): seq<Enhanced>
  {
    if s == [] then [] else (if s[0].votes == v then [s[0]] else []) + WithVotes(s[1..], v)
  }

  /** Places `x` before the first entry that does not have more votes than it. */
  function Insert(x: Enhanced, t: seq<Enhanced>): (r: seq<Enhanced>)
    ensures |r| == |t| + 1
  {
    if t == [] then [x]
    else if t[0].votes <= x.votes then [x] + t
    else [t[0]] + Insert(x, t[1..])
  }

  /** Inserting adds `x` and loses nothing. */
  lemma {:induction false} InsertPermutes(x: Enhanced, t: seq<Enhanced>)
    ensures multiset(Insert(x, t)) == multiset(t) + multiset{x}
  {
    if t != [] && t[0].votes > x.votes {
      InsertPermutes(x, t[1..]);
      assert t == [t[0]] + t[1..];
    }
  }

  /** Inserting into a descending list keeps it descending. */
  lemma {:induction false} InsertDescending(x: Enhanced, t: seq<Enhanced>)
    requires Descending(t)
    ensures Descending(Insert(x, t))
  {
    if t != [] && t[0].votes > x.votes {
      var r' := Insert(x, t[1..]);
      InsertDescending(x, t[1..]);
      InsertPermutes(x, t[1..]);
      forall k | 0 <= k < |r'| ensures r'[k].votes <= t[0].votes {
        assert r'[k] in multiset(t[1..]) + multiset{x};
        if r'[k] != x {
          assert r'[k] in t[1..];
          var j :| 0 <= j < |t[1..]| && t[1..][j] == r'[k];
          assert t[j + 1] == r'[k];
        }
      }
      assert Insert(x, t) == [t[0]] + r';
    }
  }

  /** `[...s].sort((a, b) => b.votes - a.votes)`: a stable sort by
      descending votes, a permutation of its input. */
  function SortByVotes(s: seq<Enhanced>): (r: seq<Enhanced>)
    ensures |r| == |s|
    ensures multiset(r) == multiset(s)
    ensures Descending(r)
  {
    if s == [] then []
    else
      assert s == [s[0]] + s[1..];
      InsertDescending(s[0], SortByVotes(s[1..]));
      InsertPermutes(s[0], SortByVotes(s[1..]));
      Insert(s[0], SortByVotes(s[1..]))
  }

  /** `WithVotes` of a list given by its first entry and the rest. */
  lemma WithVotesCons(e: Enhanced, s: seq<Enhanced>, v: nat)
    ensures WithVotes([e] + s, v) == (if e.votes == v then [e] else []) + WithVotes(s, v)
  {
    assert ([e] + s)[1..] == s;
  }

  /** Inserting `x` adds `x` in front of the entries that tie with it at `v`
      votes: among entries with equal votes, `x` comes first. */
  lemma {:induction false} InsertKeepsTies(x: Enhanced, t: seq<Enhanced>, v: nat)
    ensures WithVotes(Insert(x, t), v) == (if x.votes == v then [x] else []) + WithVotes(t, v)
  {
    if t == [] {
      WithVotesCons(x, [], v);
    } else if t[0].votes <= x.votes {
      WithVotesCons(x, t, v);
    } else {
      var r' := Insert(x, t[1..]);
      assert Insert(x, t) == [t[0]] + r';
      WithVotesCons(t[0], r', v);
      InsertKeepsTies(x, t[1..], v);
      assert t == [t[0]] + t[1..];
      WithVotesCons(t[0], t[1..], v);
      if x.votes == v {
        assert t[0].votes != v;
        assert WithVotes(Insert(x, t), v) == WithVotes(r', v);
        assert WithVotes(t, v) == WithVotes(t[1..], v);
      } else if t[0].votes == v {
        assert WithVotes(Insert(x, t), v) == [t[0]] + WithVotes(t[1..], v);
      } else {
        assert WithVotes(Insert(x, t), v) == WithVotes(t[1..], v);
      }
    }
  }

  /** The sort is stable: the entries with any given number of votes appear
      in the sorted list in the order they had in the input. */
  lemma {:induction false} SortStable(s: seq<Enhanced>, v: nat)
    ensures WithVotes(SortByVotes(s), v) == WithVotes(s, v)
  {
    if s != [] {
      SortStable(s[1..], v);
      InsertKeepsTies(s[0], SortByVotes(s[1..]), v);
    }
  }

  /** `sortedNames`: the first ten entries of the stable sort. */
  function Leaderboard(es: seq<Enhanced>): (r: seq<Enhanced>)
    ensures |r| <= BoardSize && |r| <= |es|
    ensures Descending(r)
  {
    SortByVotes(es)[..Min(BoardSize, |es|)]
  }

  lemma MultisetSplit(s: seq<Enhanced>, k: nat)
    requires k <= |s|
    ensures multiset(s) == multiset(s[..k]) + multiset(s[k..])
  {
    assert s == s[..k] + s[k..];
  }

  /** The leaderboard shows min(10, n) entries, in non-increasing order of
      votes, all taken from the input. */
  lemma LeaderboardShape(es: seq<Enhanced>)
    ensures |Leaderboard(es)| == Min(BoardSize, |es|)
    ensures Descending(Leaderboard(es))
    ensures multiset(Leaderboard(es)) <= multiset(es)
  {
    MultisetSplit(SortByVotes(es), Min(BoardSize, |es|));
  }

  /** Every entry the leaderboard leaves out has no more votes than the last
      entry it shows. */
  lemma LeaderboardCutoff(es: seq<Enhanced>)
    requires es != []
    ensures forall e :: e in multiset(es) - multiset(Leaderboard(es)) ==>
      e.votes <= Leaderboard(es)[|Leaderboard(es)| - 1].votes
  {
    var sorted := SortByVotes(es);
    PrefixCutoff(sorted, Min(BoardSize, |es|));
  }

  /** In a descending list, whatever lies beyond a non-empty prefix has no
      more votes than the prefix's last entry. */
  lemma PrefixCutoff(s: seq<Enhanced>, k: nat)
    requires Descending(s) && 0 < k <= |s|
    ensures forall e :: e in multiset(s) - multiset(s[..k]) ==> e.votes <= s[k - 1].votes
  {
    var rest := s[k..];
    MultisetSplit(s, k);
    forall e: Enhanced | e in rest ensures e.votes <= s[k - 1].votes {
      var j :| 0 <= j < |rest| && rest[j] == e;
      assert s[k + j] == e;
    }
    forall e: Enhanced | e in multiset(s) - multiset(s[..k]) ensures e.votes <= s[k - 1].votes {
      assert e in multiset(rest);
    }
  }

  /** The rows built by the download and share actions: entry `i` of the
      leaderboard gets rank `i + 1`. */
  function RankRows(board: seq<Enhanced>): (rows: seq<Row>)
    ensures |rows| == |board|
    ensures forall i :: 0 <= i < |rows| ==> 1 <= rows[i].rank <= |board| && rows[i].name == board[i].text
    ensures forall i, j :: 0 <= i < j < |rows| ==> rows[i].rank < rows[j].rank
  {
    seq(|board|, i requires 0 <= i < |board| =>
      Row(i + 1, board[i].text, board[i].votes, board[i].trend))
  }

  /** The exported rows are numbered 1, 2, ... in leaderboard order, at most
      ten of them, each carrying its entry's text, votes and trend, and their
      votes never increase down the list. */
  lemma RankRowsNumbered(es: seq<Enhanced>)
    ensures var board := Leaderboard(es); var rows := RankRows(board);
      |rows| == |board| <= BoardSize &&
      (forall i :: 0 <= i < |rows| ==>
        rows[i].rank == i + 1 && rows[i].name == board[i].text &&
        rows[i].votes == board[i].votes && rows[i].trend == board[i].trend) &&
      (forall i, j :: 0 <= i < j < |rows| ==> rows[i].rank < rows[j].rank && rows[i].votes >= rows[j].votes)
  {
    LeaderboardShape(es);
    var board := Leaderboard(es);
    assert Descending(board);
  }

  /** The leaderboard component's own state: the last enhanced list and the
      tallies recorded at the last evaluation. */
  class RankingList {
    var enhancedNames: seq<Enhanced>
    var previousVotes: map<string, nat>

    constructor ()
      ensures enhancedNames == [] && previousVotes == map[]
    {
      enhancedNames := [];
      previousVotes := map[];
    }

    /** One run of the effect that fires whenever the list changes: label
        every name against the recorded tallies, then replace the record
        wholesale with the current tallies. */
    method Evaluate(names: seq<Name>, ages: seq<int>)
      requires |ages| == |names|
      modifies this
      ensures enhancedNames == Enhance(old(previousVotes), names, ages)
      ensures previousVotes == Snapshot(names)
      ensures IdsDistinct(names) ==>
        forall i :: 0 <= i < |names| ==> previousVotes[names[i].id] == names[i].votes
    {
      enhancedNames := Enhance(previousVotes, names, ages);
      previousVotes := Snapshot(names);
      if IdsDistinct(names) {
        SnapshotExact(names);
      }
    }
  }
}
