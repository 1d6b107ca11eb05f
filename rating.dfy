/** The `get_rating` query: winners grouped by user, joined with `users`,
    ordered by the number of prizes (largest first) and cut to ten rows.
    SQLite leaves the order among equal counts open, so only the count order,
    the cut and which groups can be cut are stated. */
module Rating {
  import opened Wrappers
  import opened Tables

  /** One group of the query: a registered user and the number of their winners rows. */
  datatype Standing = Standing(userId: int, userName: Option<string>, prizes: nat)

  /** A row as the query returns it: (user_name, count_prizes). */
  datatype RatingRow = RatingRow(userName: Option<string>, prizes: nat)

  const Limit: nat := 10

  /** COUNT(winners.prize_id) within the group of one user. */
  function WinsOf(ws: seq<Winner>, userId: int): nat {
    multiset(UserColumn(ws))[userId]
  }

  /** The standing of the i-th users row. */
  function StandingOf(us: seq<User>, ws: seq<Winner>, i: nat): Standing
    requires i < |us|
  {
    Standing(us[i].userId, us[i].userName, WinsOf(ws, us[i].userId))
  }

  ghost predicate DistinctUsers(s: seq<Standing>) {
    forall i, j :: 0 <= i < j < |s| ==> s[i].userId != s[j].userId
  }

  ghost predicate Descending(s: seq<Standing>) {
    forall i, j :: 0 <= i < j < |s| ==> s[i].prizes >= s[j].prizes
  }

  /** The groups of the INNER JOIN for the users rows from index k on: one per
      registered user with at least one winners row. */
  function StandingsFrom(us: seq<User>, ws: seq<Winner>, k: nat): seq<Standing>
    requires k <= |us|
    decreases |us| - k
  {
    if k == |us| then []
    else
      var head := StandingOf(us, ws, k);
      (if head.prizes > 0 then [head] else []) + StandingsFrom(us, ws, k + 1)
  }

  function Standings(us: seq<User>, ws: seq<Winner>): seq<Standing> {
    StandingsFrom(us, ws, 0)
  }

  /** Every group is the standing of a users row from k on with a prize, and
      every such standing is a group. */
  lemma {:induction false} StandingsFromMembers(us: seq<User>, ws: seq<Winner>, k: nat, s: Standing)
    requires k <= |us|
    ensures s in StandingsFrom(us, ws, k) <==>
      exists i :: k <= i < |us| && s == StandingOf(us, ws, i) && s.prizes > 0
    decreases |us| - k
  {
    if k < |us| {
      StandingsFromMembers(us, ws, k + 1, s);
      var head := StandingOf(us, ws, k);
      var rest := StandingsFrom(us, ws, k + 1);
      assert StandingsFrom(us, ws, k) == (if head.prizes > 0 then [head] else []) + rest;
      if s in StandingsFrom(us, ws, k) && s !in rest {
        assert s == head && s.prizes > 0;
      }
      if exists i :: k <= i < |us| && s == StandingOf(us, ws, i) && s.prizes > 0 {
        var i :| k <= i < |us| && s == StandingOf(us, ws, i) && s.prizes > 0;
        if i == k {
          assert s in StandingsFrom(us, ws, k);
        } else {
          assert s in rest;
        }
      }
    }
  }

  /** Users rows with distinct ids give groups with distinct users. */
  lemma {:induction false} StandingsFromDistinct(us: seq<User>, ws: seq<Winner>, k: nat)
    requires k <= |us| && UniqueUserIds(us)
    ensures DistinctUsers(StandingsFrom(us, ws, k))
    ensures forall s :: s in StandingsFrom(us, ws, k) ==>
      forall i :: 0 <= i < k ==> s.userId != us[i].userId
    decreases |us| - k
  {
    if k < |us| {
      StandingsFromDistinct(us, ws, k + 1);
      var rest := StandingsFrom(us, ws, k + 1);
      forall s | s in StandingsFrom(us, ws, k)
        ensures forall i :: 0 <= i < k ==> s.userId != us[i].userId
      {
        StandingsFromMembers(us, ws, k, s);
      }
    }
  }

  /** Places a standing into a list ordered by decreasing count, after the
      standings with at least its count. */
  function Insert(x: Standing, s: seq<Standing>): (r: seq<Standing>)
    ensures multiset(r) == multiset(s) + multiset{x}
  {
    if s == [] then [x]
    else if x.prizes >= s[0].prizes then [x] + s
    else
      assert s == [s[0]] + s[1..];
      [s[0]] + Insert(x, s[1..])
  }

  /** Inserting keeps every count under a common bound. */
  lemma InsertBounded(x: Standing, s: seq<Standing>, bound: int)
    requires x.prizes <= bound
    requires forall i :: 0 <= i < |s| ==> s[i].prizes <= bound
    ensures forall i :: 0 <= i < |Insert(x, s)| ==> Insert(x, s)[i].prizes <= bound
  {
    var r := Insert(x, s);
    forall i | 0 <= i < |r| ensures r[i].prizes <= bound {
      assert r[i] in multiset(r);
      assert r[i] in multiset(s) + multiset{x};
      if r[i] != x {
        var k :| 0 <= k < |s| && s[k] == r[i];
      }
    }
  }

  lemma {:induction false} InsertDescending(x: Standing, s: seq<Standing>)
    requires Descending(s)
    ensures Descending(Insert(x, s))
  {
    if s != [] && x.prizes < s[0].prizes {
      var tail := s[1..];
      assert Descending(tail) by {
        forall i, j | 0 <= i < j < |tail| ensures tail[i].prizes >= tail[j].prizes {
          assert tail[i] == s[i + 1] && tail[j] == s[j + 1];
        }
      }
      forall i | 0 <= i < |tail| ensures tail[i].prizes <= s[0].prizes {
        assert tail[i] == s[i + 1];
      }
      var rest := Insert(x, tail);
      InsertDescending(x, tail);
      InsertBounded(x, tail, s[0].prizes);
      var r := [s[0]] + rest;
      assert r == Insert(x, s);
      forall i, j | 0 <= i < j < |r| ensures r[i].prizes >= r[j].prizes {
        assert r[j] == rest[j - 1];
        if i > 0 {
          assert r[i] == rest[i - 1];
        }
      }
    }
  }

  lemma {:induction false} InsertDistinct(x: Standing, s: seq<Standing>)
    requires DistinctUsers(s) && forall y :: y in s ==> y.userId != x.userId
    ensures DistinctUsers(Insert(x, s))
  {
    if s != [] && x.prizes < s[0].prizes {
      TailUsers(s);
      InsertDistinct(x, s[1..]);
      InsertMembers(x, s[1..]);
      assert s[0] in s;
      DistinctCons(s[0], Insert(x, s[1..]));
    } else {
      DistinctCons(x, s);
    }
  }

  /** Inserting adds the one standing and keeps the others. */
  lemma InsertMembers(x: Standing, s: seq<Standing>)
    ensures forall y :: y in Insert(x, s) <==> y == x || y in s
  {
    forall y ensures y in Insert(x, s) <==> y == x || y in s {
      assert y in Insert(x, s) <==> y in multiset(Insert(x, s));
      assert y in s <==> y in multiset(s);
    }
  }

  /** What the tail of a list keeps of its users. */
  lemma TailUsers(s: seq<Standing>)
    requires s != []
    ensures forall y :: y in s[1..] ==> y in s
    ensures DistinctUsers(s) ==> DistinctUsers(s[1..])
    ensures DistinctUsers(s) ==> forall y :: y in s[1..] ==> y.userId != s[0].userId
  {
    var tail := s[1..];
    assert s == [s[0]] + tail;
    if DistinctUsers(s) {
      forall i, j | 0 <= i < j < |tail| ensures tail[i].userId != tail[j].userId {
        assert tail[i] == s[i + 1] && tail[j] == s[j + 1];
      }
      forall y | y in tail ensures y.userId != s[0].userId {
        var k :| 0 <= k < |tail| && tail[k] == y;
        assert s[k + 1] == y;
      }
    }
  }

  /** A standing whose user is not among distinct others can go in front. */
  lemma DistinctCons(h: Standing, t: seq<Standing>)
    requires DistinctUsers(t) && forall y :: y in t ==> y.userId != h.userId
    ensures DistinctUsers([h] + t)
  {
    var r := [h] + t;
    forall i, j | 0 <= i < j < |r| ensures r[i].userId != r[j].userId {
      assert r[j] == t[j - 1];
      if i > 0 {
        assert r[i] == t[i - 1];
      } else {
        assert t[j - 1] in t;
      }
    }
  }

  /** ORDER BY count_prizes DESC, as an insertion sort. */
  function SortDesc(s: seq<Standing>): (r: seq<Standing>)
    ensures multiset(r) == multiset(s)
  {
    if s == [] then []
    else
      assert s == [s[0]] + s[1..];
      Insert(s[0], SortDesc(s[1..]))
  }

  lemma {:induction false} SortDescSorted(s: seq<Standing>)
    ensures Descending(SortDesc(s))
    ensures DistinctUsers(s) ==> DistinctUsers(SortDesc(s))
  {
    if s != [] {
      var rest := SortDesc(s[1..]);
      SortDescSorted(s[1..]);
      InsertDescending(s[0], rest);
      if DistinctUsers(s) {
        TailUsers(s);
        SortDescMembers(s[1..]);
        InsertDistinct(s[0], rest);
      }
    }
  }

  /** The groups `get_rating` returns: sorted, then LIMIT 10. */
  function TopStandings(us: seq<User>, ws: seq<Winner>): (top: seq<Standing>)
    ensures |top| <= Limit && |top| <= |SortDesc(Standings(us, ws))|
    ensures top == SortDesc(Standings(us, ws))[..|top|]
    ensures |top| < Limit ==> top == SortDesc(Standings(us, ws))
  {
    var sorted := SortDesc(Standings(us, ws));
    if |sorted| <= Limit then sorted else sorted[..Limit]
  }

  /** The top is the sorted groups cut to at most ten: in decreasing order of
      count, and with distinct users when user ids are unique. */
  lemma TopStandingsSorted(us: seq<User>, ws: seq<Winner>)
    ensures var top := TopStandings(us, ws);
      && |top| <= Limit
      && Descending(top)
      && (UniqueUserIds(us) ==> DistinctUsers(top))
  {
    var all := Standings(us, ws);
    SortDescSorted(all);
    if UniqueUserIds(us) {
      StandingsFromDistinct(us, ws, 0);
    }
    PrefixKeepsOrder(SortDesc(all), TopStandings(us, ws));
  }

  /** A prefix keeps the order and the distinctness of what it cuts. */
  lemma PrefixKeepsOrder(sorted: seq<Standing>, top: seq<Standing>)
    requires |top| <= |sorted| && top == sorted[..|top|]
    ensures Descending(sorted) ==> Descending(top)
    ensures DistinctUsers(sorted) ==> DistinctUsers(top)
  {
    forall i | 0 <= i < |top| ensures top[i] == sorted[i] {
    }
  }

  /** Every top row is a group; a group left out has no more prizes than any
      group shown, and none is left out when there are fewer than ten. */
  lemma TopStandingsAreTheTop(us: seq<User>, ws: seq<Winner>)
    ensures var top := TopStandings(us, ws);
      && (forall s :: s in top ==> s in Standings(us, ws))
      && (forall s :: s in Standings(us, ws) && s !in top ==>
            |top| == Limit && forall t :: t in top ==> s.prizes <= t.prizes)
  {
    var all := Standings(us, ws);
    var sorted := SortDesc(all);
    var top := TopStandings(us, ws);
    SortDescSorted(all);
    SortDescMembers(all);
    forall s | s in top ensures s in sorted {
      var i :| 0 <= i < |top| && top[i] == s;
      PrefixMember(sorted, top, i);
    }
    forall s | s in all && s !in top
      ensures |top| == Limit && forall t :: t in top ==> s.prizes <= t.prizes
    {
      var k :| 0 <= k < |sorted| && sorted[k] == s;
      TopCut(sorted, top, k);
    }
  }

  /** Sorting neither adds nor drops a group. */
  lemma SortDescMembers(s: seq<Standing>)
    ensures forall x :: x in SortDesc(s) <==> x in s
  {
    forall x ensures x in SortDesc(s) <==> x in s {
      assert x in SortDesc(s) <==> x in multiset(SortDesc(s));
      assert x in s <==> x in multiset(s);
    }
  }

  lemma TopCut(sorted: seq<Standing>, top: seq<Standing>, k: nat)
    requires Descending(sorted) && k < |sorted|
    requires top == if |sorted| <= Limit then sorted else sorted[..Limit]
    requires sorted[k] !in top
    ensures |top| == Limit && forall t :: t in top ==> sorted[k].prizes <= t.prizes
  {
    PrefixMember(sorted, top, k);
    forall t | t in top ensures sorted[k].prizes <= t.prizes {
      var i :| 0 <= i < |top| && top[i] == t;
      assert sorted[i] == t;
    }
  }

  lemma PrefixMember(sorted: seq<Standing>, top: seq<Standing>, k: nat)
    requires k < |sorted|
    requires top == if |sorted| <= Limit then sorted else sorted[..Limit]
    ensures k < |top| ==> sorted[k] in top
    ensures k < |top| ==> top[k] == sorted[k]
    ensures |top| < Limit ==> top == sorted
  {
    if k < |top| {
      assert top[k] == sorted[k];
    }
  }

  /** The rows of `get_rating`: (user_name, count) of each top group. */
  function RatingRows(us: seq<User>, ws: seq<Winner>): (r: seq<RatingRow>)
    ensures |r| == |TopStandings(us, ws)|
    ensures forall i :: 0 <= i < |r| ==>
      r[i] == RatingRow(TopStandings(us, ws)[i].userName, TopStandings(us, ws)[i].prizes)
  {
    var top := TopStandings(us, ws);
    seq(|top|, i requires 0 <= i < |top| => RatingRow(top[i].userName, top[i].prizes))
  }
}
