/** The three tables of the prize store (users, prizes, winners) as sequences of
    rows, and the pure filters, counts and updates that the store's SQL performs
    on them. Row order is the table's storage order. */
module Tables {
  import opened Wrappers

  /** A row of `users`; the user name is NULL when the chat has no handle. */
  datatype User = User(userId: int, userName: Option<string>)

  /** A row of `prizes`; `used` is the 0/1 column, as a boolean. */
  datatype Prize = Prize(prizeId: int, image: string, used: bool)

  /** A row of `winners`; the time stamp is opaque text. */
  datatype Winner = Winner(userId: int, prizeId: int, winTime: string)

  // ----- primary keys and the one-claim-per-pair rule -----

  ghost predicate UniqueUserIds(us: seq<User>) {
    forall i, j :: 0 <= i < j < |us| ==> us[i].userId != us[j].userId
  }

  ghost predicate UniquePrizeIds(ps: seq<Prize>) {
    forall i, j :: 0 <= i < j < |ps| ==> ps[i].prizeId != ps[j].prizeId
  }

  /** At most one winners row per (user_id, prize_id) pair. */
  ghost predicate UniqueClaims(ws: seq<Winner>) {
    forall i, j :: 0 <= i < j < |ws| ==>
      ws[i].userId != ws[j].userId || ws[i].prizeId != ws[j].prizeId
  }

  // ----- users -----

  predicate Registered(us: seq<User>, userId: int) {
    exists i :: 0 <= i < |us| && us[i].userId == userId
  }

  /** The user_id column of `users`, row by row. */
  function UserIds(us: seq<User>): (ids: seq<int>)
    ensures |ids| == |us|
    ensures forall i :: 0 <= i < |us| ==> ids[i] == us[i].userId
  {
    if us == [] then [] else [us[0].userId] + UserIds(us[1..])
  }

  lemma RegisteredIffListed(us: seq<User>, userId: int)
    ensures Registered(us, userId) <==> userId in UserIds(us)
  {
    var ids := UserIds(us);
    if userId in ids {
      var i :| 0 <= i < |ids| && ids[i] == userId;
      assert us[i].userId == userId;
    }
  }

  // ----- prizes -----

  /** The rowid SQLite gives the next inserted prize: one more than the largest
      prize_id, or 1 for an empty table. */
  function NextPrizeId(ps: seq<Prize>): (id: int)
    ensures forall i :: 0 <= i < |ps| ==> ps[i].prizeId < id
    ensures ps == [] ==> id == 1
    ensures ps != [] ==> exists i :: 0 <= i < |ps| && ps[i].prizeId == id - 1
  {
    if ps == [] then 1
    else
      var rest := NextPrizeId(ps[1..]);
      if ps[1..] == [] || ps[0].prizeId + 1 >= rest then ps[0].prizeId + 1 else rest
  }

  /** A row whose id is above every id keeps the ids unique and leaves the
      earlier rows in place. */
  lemma AppendFreshPrize(ps: seq<Prize>, row: Prize)
    requires UniquePrizeIds(ps)
    requires forall i :: 0 <= i < |ps| ==> ps[i].prizeId < row.prizeId
    ensures UniquePrizeIds(ps + [row])
    ensures (ps + [row])[..|ps|] == ps && (ps + [row])[|ps|] == row
    ensures forall i :: 0 <= i < |ps| ==> (ps + [row])[i] == ps[i]
  {
  }

  /** `SELECT image FROM prizes WHERE prize_id = ?`, first row or nothing. */
  function PrizeImage(ps: seq<Prize>, prizeId: int): (r: Option<string>)
    ensures r.None? <==> forall i :: 0 <= i < |ps| ==> ps[i].prizeId != prizeId
    ensures r.Some? ==> exists i :: 0 <= i < |ps| && ps[i].prizeId == prizeId && ps[i].image == r.value
  {
    if ps == [] then None
    else if ps[0].prizeId == prizeId then Some(ps[0].image)
    else PrizeImage(ps[1..], prizeId)
  }

  /** `SELECT * FROM prizes WHERE used = 0`, first row in storage order. */
  function FirstUnused(ps: seq<Prize>): (r: Option<Prize>)
    ensures r.Some? ==> r.value in ps && !r.value.used
    ensures r.None? <==> forall i :: 0 <= i < |ps| ==> ps[i].used
  {
    if ps == [] then None
    else if !ps[0].used then Some(ps[0])
    else FirstUnused(ps[1..])
  }

  /** Prizes appended after a table whose prizes are all used are the next picks. */
  lemma {:induction false} FirstUnusedAppend(ps: seq<Prize>, qs: seq<Prize>)
    ensures FirstUnused(ps + qs) == if FirstUnused(ps).Some? then FirstUnused(ps) else FirstUnused(qs)
  {
    if ps != [] {
      assert (ps + qs)[0] == ps[0];
      assert (ps + qs)[1..] == ps[1..] + qs;
      FirstUnusedAppend(ps[1..], qs);
    } else {
      assert ps + qs == qs;
    }
  }

  /** `UPDATE prizes SET used = 1 WHERE prize_id = ?`. */
  function MarkUsed(ps: seq<Prize>, prizeId: int): (r: seq<Prize>)
    ensures |r| == |ps|
    ensures forall i :: 0 <= i < |ps| ==>
      r[i] == if ps[i].prizeId == prizeId then ps[i].(used := true) else ps[i]
  {
    if ps == [] then []
    else [if ps[0].prizeId == prizeId then ps[0].(used := true) else ps[0]] + MarkUsed(ps[1..], prizeId)
  }

  /** Marking is idempotent, never clears a flag, keeps ids and images, and
      removes the prize from the candidates for the next pick. */
  lemma MarkUsedProperties(ps: seq<Prize>, prizeId: int)
    ensures MarkUsed(MarkUsed(ps, prizeId), prizeId) == MarkUsed(ps, prizeId)
    ensures forall i :: 0 <= i < |ps| ==>
      MarkUsed(ps, prizeId)[i].prizeId == ps[i].prizeId &&
      MarkUsed(ps, prizeId)[i].image == ps[i].image &&
      (ps[i].used ==> MarkUsed(ps, prizeId)[i].used)
    ensures FirstUnused(MarkUsed(ps, prizeId)).Some? ==>
      FirstUnused(MarkUsed(ps, prizeId)).value.prizeId != prizeId
  {
    var m := MarkUsed(ps, prizeId);
    var mm := MarkUsed(m, prizeId);
    assert |mm| == |m|;
    forall i | 0 <= i < |m| ensures mm[i] == m[i] { }
  }

  // ----- winners -----

  /** The (user_id, prize_id) columns of `winners`. */
  function PairColumn(ws: seq<Winner>): (c: seq<(int, int)>)
    ensures |c| == |ws|
    ensures forall i :: 0 <= i < |ws| ==> c[i] == (ws[i].userId, ws[i].prizeId)
  {
    if ws == [] then [] else PairColumn(ws[..|ws| - 1]) + [(ws[|ws| - 1].userId, ws[|ws| - 1].prizeId)]
  }

  /** Whether `SELECT * FROM winners WHERE user_id = ? AND prize_id = ?` finds a row. */
  predicate HasClaim(ws: seq<Winner>, userId: int, prizeId: int) {
    (userId, prizeId) in PairColumn(ws)
  }

  /** The query finds a row exactly when some winners row has the pair. */
  lemma HasClaimIffRow(ws: seq<Winner>, userId: int, prizeId: int)
    ensures HasClaim(ws, userId, prizeId) <==>
      exists i :: 0 <= i < |ws| && ws[i].userId == userId && ws[i].prizeId == prizeId
  {
    if HasClaim(ws, userId, prizeId) {
      var i :| 0 <= i < |ws| && PairColumn(ws)[i] == (userId, prizeId);
    }
    if exists i :: 0 <= i < |ws| && ws[i].userId == userId && ws[i].prizeId == prizeId {
      var i :| 0 <= i < |ws| && ws[i].userId == userId && ws[i].prizeId == prizeId;
      assert PairColumn(ws)[i] == (userId, prizeId);
    }
  }

  /** The user_id column of `winners`. */
  function UserColumn(ws: seq<Winner>): (c: seq<int>)
    ensures |c| == |ws|
    ensures forall i :: 0 <= i < |ws| ==> c[i] == ws[i].userId
  {
    if ws == [] then [] else UserColumn(ws[..|ws| - 1]) + [ws[|ws| - 1].userId]
  }

  /** The prize_id column of `winners`. */
  function PrizeColumn(ws: seq<Winner>): (c: seq<int>)
    ensures |c| == |ws|
    ensures forall i :: 0 <= i < |ws| ==> c[i] == ws[i].prizeId
  {
    if ws == [] then [] else PrizeColumn(ws[..|ws| - 1]) + [ws[|ws| - 1].prizeId]
  }

  /** `SELECT COUNT(*) FROM winners WHERE prize_id = ?`: the multiplicity of the
      prize id in the prize_id column. */
  function WinnersCount(ws: seq<Winner>, prizeId: int): (n: nat)
    ensures n <= |ws|
  {
    var column := PrizeColumn(ws);
    assert multiset(column)[prizeId] <= |multiset(column)|;
    multiset(column)[prizeId]
  }

  /** `SELECT * FROM winners WHERE prize_id = ?`, in storage order. */
  function RowsFor(ws: seq<Winner>, prizeId: int): (r: seq<Winner>)
    ensures forall w :: w in r <==> w in ws && w.prizeId == prizeId
  {
    if ws == [] then []
    else
      var front := ws[..|ws| - 1];
      var w := ws[|ws| - 1];
      assert ws == front + [w];
      RowsFor(front, prizeId) + (if w.prizeId == prizeId then [w] else [])
  }

  /** The count is the number of rows the WHERE clause selects. */
  lemma {:induction false} WinnersCountIsRowCount(ws: seq<Winner>, prizeId: int)
    ensures WinnersCount(ws, prizeId) == |RowsFor(ws, prizeId)|
  {
    if ws != [] {
      var front := ws[..|ws| - 1];
      WinnersCountIsRowCount(front, prizeId);
      assert PrizeColumn(ws) == PrizeColumn(front) + [ws[|ws| - 1].prizeId];
    }
  }

  /** Appending one winners row adds one to its prize's count and nothing to the others. */
  lemma WinnersCountAppend(ws: seq<Winner>, w: Winner, prizeId: int)
    ensures WinnersCount(ws + [w], prizeId) ==
      WinnersCount(ws, prizeId) + (if w.prizeId == prizeId then 1 else 0)
  {
    assert (ws + [w])[..|ws|] == ws;
  }

  /** The effect of `add_winner` on `winners`: a row is inserted unless the pair exists. */
  function AddWinnerRows(ws: seq<Winner>, userId: int, prizeId: int, winTime: string): (r: seq<Winner>)
    ensures HasClaim(r, userId, prizeId)
    ensures |ws| <= |r| <= |ws| + 1 && r[..|ws|] == ws
  {
    if HasClaim(ws, userId, prizeId) then ws
    else
      ClaimAppend(ws, Winner(userId, prizeId, winTime), userId, prizeId);
      ws + [Winner(userId, prizeId, winTime)]
  }

  lemma AddWinnerKeepsUniqueClaims(ws: seq<Winner>, userId: int, prizeId: int, winTime: string)
    requires UniqueClaims(ws)
    ensures UniqueClaims(AddWinnerRows(ws, userId, prizeId, winTime))
    ensures HasClaim(AddWinnerRows(ws, userId, prizeId, winTime), userId, prizeId)
  {
    var w := Winner(userId, prizeId, winTime);
    ClaimAppend(ws, w, userId, prizeId);
    if !HasClaim(ws, userId, prizeId) {
      var r := ws + [w];
      forall i, j | 0 <= i < j < |r|
        ensures r[i].userId != r[j].userId || r[i].prizeId != r[j].prizeId
      {
        assert r[i] == ws[i];
        if j == |ws| {
          assert PairColumn(ws)[i] == (ws[i].userId, ws[i].prizeId);
        } else {
          assert r[j] == ws[j];
        }
      }
    }
  }

  /** Twice the same `add_winner` leaves exactly one row for the pair. */
  lemma AddWinnerTwice(ws: seq<Winner>, userId: int, prizeId: int, t1: string, t2: string)
    ensures var once := AddWinnerRows(ws, userId, prizeId, t1);
            AddWinnerRows(once, userId, prizeId, t2) == once && HasClaim(once, userId, prizeId)
  {
    ClaimAppend(ws, Winner(userId, prizeId, t1), userId, prizeId);
  }

  /** `SELECT image FROM winners INNER JOIN prizes ... WHERE user_id = ?`. */
  function WonImages(ws: seq<Winner>, ps: seq<Prize>, userId: int): (r: seq<string>)
    ensures forall img :: img in r <==> Won(ws, ps, userId, img)
  {
    if ws == [] then []
    else
      var front := ws[..|ws| - 1];
      var w := ws[|ws| - 1];
      var joined := if w.userId == userId then PrizeImages(ps, w.prizeId) else [];
      assert forall img :: Won(ws, ps, userId, img) <==> Won(front, ps, userId, img) || img in joined by {
        forall img | Won(ws, ps, userId, img)
          ensures Won(front, ps, userId, img) || img in joined
        {
          var i, k :| 0 <= i < |ws| && 0 <= k < |ps| && ws[i].userId == userId
                      && ws[i].prizeId == ps[k].prizeId && ps[k].image == img;
          if i < |ws| - 1 {
            assert front[i] == ws[i];
          }
        }
        forall img | Won(front, ps, userId, img) ensures Won(ws, ps, userId, img) {
          var i, k :| 0 <= i < |front| && 0 <= k < |ps| && front[i].userId == userId
                      && front[i].prizeId == ps[k].prizeId && ps[k].image == img;
          assert ws[i] == front[i];
        }
        forall img | img in joined ensures Won(ws, ps, userId, img) {
          var k :| 0 <= k < |ps| && ps[k].prizeId == w.prizeId && ps[k].image == img;
          assert ws[|ws| - 1] == w;
        }
      }
      WonImages(front, ps, userId) + joined
  }

  /** The user has a winners row that joins a prize row with this image. */
  ghost predicate Won(ws: seq<Winner>, ps: seq<Prize>, userId: int, img: string) {
    exists i, k :: 0 <= i < |ws| && 0 <= k < |ps| && ws[i].userId == userId
      && ws[i].prizeId == ps[k].prizeId && ps[k].image == img
  }

  /** The images of the prize rows with this id (the join partner of one winners row). */
  function PrizeImages(ps: seq<Prize>, prizeId: int): (r: seq<string>)
    ensures forall img :: img in r <==>
      exists k :: 0 <= k < |ps| && ps[k].prizeId == prizeId && ps[k].image == img
  {
    if ps == [] then []
    else
      (if ps[0].prizeId == prizeId then [ps[0].image] else []) + PrizeImages(ps[1..], prizeId)
  }

  // ----- the sequential claim rule -----

  /** The three-winner cap, for every prize. */
  ghost predicate AtMostThreePerPrize(ws: seq<Winner>) {
    forall p :: WinnersCount(ws, p) <= 3
  }

  /** What one claim callback does to `winners`: below three winners the pair
      is added unless it exists; from three on nothing changes. */
  function Claim(ws: seq<Winner>, userId: int, prizeId: int, winTime: string): (r: seq<Winner>)
    ensures WinnersCount(ws, prizeId) >= 3 ==> r == ws
    ensures WinnersCount(r, prizeId) <= if WinnersCount(ws, prizeId) >= 3 then WinnersCount(ws, prizeId) else 3
    ensures forall q :: q != prizeId ==> WinnersCount(r, q) == WinnersCount(ws, q)
  {
    if WinnersCount(ws, prizeId) < 3 then
      var r := AddWinnerRows(ws, userId, prizeId, winTime);
      if r == ws then r
      else
        var w := Winner(userId, prizeId, winTime);
        assert r == ws + [w];
        forall q ensures WinnersCount(r, q) == WinnersCount(ws, q) + (if q == prizeId then 1 else 0) {
          WinnersCountAppend(ws, w, q);
        }
        r
    else ws
  }

  /** One claim keeps the cap and the one-row-per-pair rule. */
  lemma {:induction false} ClaimKeepsInvariants(ws: seq<Winner>, userId: int, prizeId: int, winTime: string)
    requires AtMostThreePerPrize(ws) && UniqueClaims(ws)
    ensures AtMostThreePerPrize(Claim(ws, userId, prizeId, winTime))
    ensures UniqueClaims(Claim(ws, userId, prizeId, winTime))
  {
    var r := Claim(ws, userId, prizeId, winTime);
    if WinnersCount(ws, prizeId) < 3 {
      AddWinnerKeepsUniqueClaims(ws, userId, prizeId, winTime);
      if !HasClaim(ws, userId, prizeId) {
        forall p ensures WinnersCount(r, p) <= 3 {
          WinnersCountAppend(ws, Winner(userId, prizeId, winTime), p);
        }
      }
    }
  }

  datatype ClaimEvent = ClaimEvent(userId: int, prizeId: int, winTime: string)

  /** The winners table after a sequence of claim callbacks handled one at a time. */
  function ClaimAll(ws: seq<Winner>, cs: seq<ClaimEvent>): seq<Winner>
    decreases |cs|
  {
    if cs == [] then ws
    else ClaimAll(Claim(ws, cs[0].userId, cs[0].prizeId, cs[0].winTime), cs[1..])
  }

  /** No sequence of claims lifts a prize above three winners or duplicates a pair. */
  lemma {:induction false} ClaimsNeverExceedThree(ws: seq<Winner>, cs: seq<ClaimEvent>)
    requires AtMostThreePerPrize(ws) && UniqueClaims(ws)
    ensures AtMostThreePerPrize(ClaimAll(ws, cs)) && UniqueClaims(ClaimAll(ws, cs))
    decreases |cs|
  {
    if cs != [] {
      ClaimKeepsInvariants(ws, cs[0].userId, cs[0].prizeId, cs[0].winTime);
      ClaimsNeverExceedThree(Claim(ws, cs[0].userId, cs[0].prizeId, cs[0].winTime), cs[1..]);
    }
  }

  /** Three distinct users claim a fresh prize and all win; a fourth is too late
      and leaves the table as it was. */
  lemma FourthClaimantIsTooLate(ws: seq<Winner>, p: int, u1: int, u2: int, u3: int, u4: int, t: string)
    requires WinnersCount(ws, p) == 0
    requires u1 != u2 && u1 != u3 && u2 != u3
    ensures var w1 := Claim(ws, u1, p, t);
            var w2 := Claim(w1, u2, p, t);
            var w3 := Claim(w2, u3, p, t);
            w3 == ws + [Winner(u1, p, t)] + [Winner(u2, p, t)] + [Winner(u3, p, t)] &&
            WinnersCount(w3, p) == 3 && Claim(w3, u4, p, t) == w3
  {
    ClaimIsCounted(ws, u1, p);
    ClaimIsCounted(ws, u2, p);
    ClaimIsCounted(ws, u3, p);
    var a, b := Winner(u1, p, t), Winner(u2, p, t);
    var w1 := FreshClaim(ws, u1, p, t);
    ClaimAppend(ws, a, u2, p);
    var w2 := FreshClaim(w1, u2, p, t);
    ClaimAppend(ws, a, u3, p);
    ClaimAppend(w1, b, u3, p);
    var w3 := FreshClaim(w2, u3, p, t);
    assert Claim(w3, u4, p, t) == w3;
  }

  /** A claim below the cap by a user without a row for the prize appends that row. */
  lemma FreshClaim(ws: seq<Winner>, userId: int, prizeId: int, t: string) returns (r: seq<Winner>)
    requires WinnersCount(ws, prizeId) < 3 && !HasClaim(ws, userId, prizeId)
    ensures r == Claim(ws, userId, prizeId, t) == ws + [Winner(userId, prizeId, t)]
    ensures WinnersCount(r, prizeId) == WinnersCount(ws, prizeId) + 1
  {
    r := ws + [Winner(userId, prizeId, t)];
    WinnersCountAppend(ws, Winner(userId, prizeId, t), prizeId);
  }

  /** A claimed pair is counted for its prize. */
  lemma ClaimIsCounted(ws: seq<Winner>, userId: int, prizeId: int)
    ensures HasClaim(ws, userId, prizeId) ==> WinnersCount(ws, prizeId) >= 1
  {
    if HasClaim(ws, userId, prizeId) {
      var i :| 0 <= i < |ws| && PairColumn(ws)[i] == (userId, prizeId);
      assert PrizeColumn(ws)[i] == prizeId;
      assert prizeId in multiset(PrizeColumn(ws));
    }
  }

  /** The pair column grows by the appended row's pair. */
  lemma ClaimAppend(ws: seq<Winner>, w: Winner, userId: int, prizeId: int)
    ensures PairColumn(ws + [w]) == PairColumn(ws) + [(w.userId, w.prizeId)]
    ensures HasClaim(ws + [w], userId, prizeId) <==>
      HasClaim(ws, userId, prizeId) || (w.userId == userId && w.prizeId == prizeId)
  {
    assert (ws + [w])[..|ws|] == ws;
  }
}
