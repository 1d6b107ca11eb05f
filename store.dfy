/** `DatabaseManager`: the prize store. The three tables are fields that the
    mutators reassign; the queries read them through the functions of Tables
    and Rating. */
module Store {
  import opened Wrappers
  import opened Tables
  import Rating

  class DatabaseManager {
    /** The location of the database file. */
    const database: string
    var users: seq<User>
    var prizes: seq<Prize>
    var winners: seq<Winner>

    /** Primary keys of `users` and `prizes`, and one winners row per pair. */
    ghost predicate Valid()
      reads this
    {
      UniqueUserIds(users) && UniquePrizeIds(prizes) && UniqueClaims(winners)
    }

    /** Opening a new database and running `create_tables`: three empty tables. */
    constructor (database: string)
      ensures Valid()
      ensures this.database == database
      ensures users == [] && prizes == [] && winners == []
    {
      this.database := database;
      users, prizes, winners := [], [], [];
    }

    /** `INSERT OR IGNORE INTO users`: a user_id already present keeps its row. */
    method AddUser(userId: int, userName: Option<string>)
      requires Valid()
      modifies this
      ensures Valid()
      ensures users == if Registered(old(users), userId) then old(users)
                       else old(users) + [User(userId, userName)]
      ensures prizes == old(prizes) && winners == old(winners)
    {
      if !Registered(users, userId) {
        users := users + [User(userId, userName)];
      }
    }

    /** `executemany('INSERT INTO prizes (image) VALUES (?)')`: one new row per
        image, in order, with a fresh rowid and `used = 0`; the rows are
        committed together when the transaction ends. */
    method AddPrize(images: seq<string>)
      requires Valid()
      modifies this
      ensures Valid()
      ensures |prizes| == |old(prizes)| + |images|
      ensures prizes[..|old(prizes)|] == old(prizes)
      ensures forall k :: 0 <= k < |images| ==>
        prizes[|old(prizes)| + k].image == images[k] && !prizes[|old(prizes)| + k].used
      ensures forall i, j :: 0 <= i < |old(prizes)| <= j < |prizes| ==>
        old(prizes)[i].prizeId != prizes[j].prizeId
      ensures users == old(users) && winners == old(winners)
    {
      var start := prizes;
      var table := start;
      var n := |table|;
      for k := 0 to |images|
        modifies {}
        invariant UniquePrizeIds(table)
        invariant |table| == n + k
        invariant forall i :: 0 <= i < n ==> table[i] == start[i]
        invariant forall j :: 0 <= j < k ==> table[n + j].image == images[j] && !table[n + j].used
      {
        var row := Prize(NextPrizeId(table), images[k], false);
        AppendFreshPrize(table, row);
        var next := table + [row];
        forall j | 0 <= j < k + 1 ensures next[n + j].image == images[j] && !next[n + j].used {
          if j < k {
            assert next[n + j] == table[n + j];
          } else {
            assert next[n + j] == row;
          }
        }
        table := next;
      }
      assert table[..n] == start;
      forall i, j | 0 <= i < n <= j < |table| ensures start[i].prizeId != table[j].prizeId {
        assert table[i] == start[i];
      }
      prizes := table;
    }

    /** `add_winner`: 0 and no change when the (user, prize) row exists,
        otherwise one row appended and 1. */
    method AddWinner(userId: int, prizeId: int, winTime: string) returns (r: int)
      requires Valid()
      modifies this
      ensures Valid()
      ensures r == if HasClaim(old(winners), userId, prizeId) then 0 else 1
      ensures winners == AddWinnerRows(old(winners), userId, prizeId, winTime)
      ensures winners == if r == 0 then old(winners)
                         else old(winners) + [Winner(userId, prizeId, winTime)]
      ensures users == old(users) && prizes == old(prizes)
    {
      AddWinnerKeepsUniqueClaims(winners, userId, prizeId, winTime);
      if HasClaim(winners, userId, prizeId) {
        return 0;
      }
      winners := winners + [Winner(userId, prizeId, winTime)];
      return 1;
    }

    /** `UPDATE prizes SET used = 1 WHERE prize_id = ?`. */
    method MarkPrizeUsed(prizeId: int)
      requires Valid()
      modifies this
      ensures Valid()
      ensures prizes == MarkUsed(old(prizes), prizeId)
      ensures |prizes| == |old(prizes)|
      ensures forall i :: 0 <= i < |prizes| ==>
        prizes[i] == if old(prizes)[i].prizeId == prizeId then old(prizes)[i].(used := true)
                     else old(prizes)[i]
      ensures users == old(users) && winners == old(winners)
    {
      prizes := MarkUsed(prizes, prizeId);
    }

    /** `get_users`: the ids of the users rows; an id is listed exactly when it
        is registered. */
    function GetUsers(): (ids: seq<int>)
      reads this
      ensures forall id :: id in ids <==> Registered(users, id)
    {
      forall id ensures Registered(users, id) <==> id in UserIds(users) {
        RegisteredIffListed(users, id);
      }
      UserIds(users)
    }

    /** `get_prize_img`; None stands for the TypeError of indexing a missing row. */
    function GetPrizeImg(prizeId: int): (img: Option<string>)
      reads this
      ensures img.None? <==> forall i :: 0 <= i < |prizes| ==> prizes[i].prizeId != prizeId
      ensures img.Some? ==>
        exists i :: 0 <= i < |prizes| && prizes[i].prizeId == prizeId && prizes[i].image == img.value
    {
      PrizeImage(prizes, prizeId)
    }

    /** `get_random_prize`: the first unused prize in storage order, and
        nothing exactly when every prize is used. */
    function GetRandomPrize(): (prize: Option<Prize>)
      reads this
      ensures prize.Some? ==> prize.value in prizes && !prize.value.used
      ensures prize.None? <==> forall i :: 0 <= i < |prizes| ==> prizes[i].used
    {
      FirstUnused(prizes)
    }

    /** `get_winners_count`: the number of winners rows for the prize. */
    function GetWinnersCount(prizeId: int): (n: nat)
      reads this
      ensures n == |RowsFor(winners, prizeId)|
    {
      WinnersCountIsRowCount(winners, prizeId);
      WinnersCount(winners, prizeId)
    }

    /** `get_winners_img`: an image is listed exactly when one of the user's
        winners rows joins a prize row with that image. */
    function GetWinnersImg(userId: int): (images: seq<string>)
      reads this
      ensures forall img :: img in images <==> Won(winners, prizes, userId, img)
    {
      WonImages(winners, prizes, userId)
    }

    /** `get_rating`: at most ten rows, by decreasing number of prizes. */
    function GetRating(): (rows: seq<Rating.RatingRow>)
      reads this
      ensures |rows| <= Rating.Limit
      ensures forall i, j :: 0 <= i < j < |rows| ==> rows[i].prizes >= rows[j].prizes
    {
      Rating.TopStandingsSorted(users, winners);
      Rating.RatingRows(users, winners)
    }
  }
}
