/**
 * The three tables the controllers read and write (`game`, `plays`,
 * `gambling`), held in memory as sequences of rows in insertion order.
 * A SQL `SELECT ... WHERE` becomes `Where`, a filter that keeps table order;
 * `AUTO_INCREMENT` becomes a counter field of `Database`.
 */
module Store {
  import opened Outcomes
  import opened GameCodes

  /** Account ids come from an AUTO_INCREMENT key that starts at 1, so they are never falsy. */
  type UserId = n: nat | 0 < n witness 1

  /** A row of `game`: `guest_user`, `winner` and `ended_at` are NULL until set. */
  datatype Game = Game(
    id: nat,
    code: string,
    host: UserId,
    guest: Option<UserId>,
    winner: Option<UserId>,
    startedAt: nat,
    endedAt: Option<nat>)

  /** A row of `plays`: `move` is the account that played, `col` the stored column. */
  datatype Play = Play(id: nat, matchId: nat, mover: UserId, dice: int, col: int, createdAt: nat)

  /** A row of `gambling`: the six die weights `dice_1` .. `dice_6` of one account. */
  datatype GamblingRow = GamblingRow(userId: UserId, weights: seq<real>)

  /** The SQL membership test `host_user = u OR guest_user = u`; a NULL guest matches nobody. */
  predicate IsParticipant(g: Game, u: UserId) {
    g.host == u || g.guest == Some(u)
  }

  /** `SELECT * FROM rows WHERE p`, in table order. */
  function Where<T(==,!new)>(rows: seq<T>, p: T -> bool): (r: seq<T>)
    ensures |r| <= |rows|
    ensures forall x :: x in r <==> x in rows && p(x)
    ensures r == [] <==> forall x :: x in rows ==> !p(x)
  {
    if rows == [] then []
    else if p(rows[0]) then [rows[0]] + Where(rows[1..], p)
    else Where(rows[1..], p)
  }

  /** Appending a row to a table appends it to every selection it satisfies, and to no other. */
  lemma {:induction false} WhereAppend<T(!new)>(rows: seq<T>, x: T, p: T -> bool)
    ensures Where(rows + [x], p) == Where(rows, p) + (if p(x) then [x] else [])
  {
    if rows == [] {
      assert rows + [x] == [x];
    } else {
      assert (rows + [x])[1..] == rows[1..] + [x];
      WhereAppend(rows[1..], x, p);
    }
  }

  ghost predicate AscendingPlayIds(plays: seq<Play>) {
    forall i, j :: 0 <= i < j < |plays| ==> plays[i].id < plays[j].id
  }

  /** Every row a selection keeps from the rest of an ascending table has an id above the first row's. */
  lemma SelectedAfterFirst(plays: seq<Play>, p: Play -> bool)
    requires AscendingPlayIds(plays) && plays != []
    ensures forall k :: 0 <= k < |Where(plays[1..], p)| ==> plays[0].id < Where(plays[1..], p)[k].id
  {
    var rest, tail := plays[1..], Where(plays[1..], p);
    forall k | 0 <= k < |tail|
      ensures plays[0].id < tail[k].id
    {
      assert tail[k] in rest;
      var m :| 0 <= m < |rest| && rest[m] == tail[k];
      assert plays[m + 1] == tail[k];
    }
  }

  /** Selecting from a table whose ids ascend gives rows whose ids ascend: an `ORDER BY id ASC`. */
  lemma {:induction false} WhereKeepsPlayOrder(plays: seq<Play>, p: Play -> bool)
    requires AscendingPlayIds(plays)
    ensures AscendingPlayIds(Where(plays, p))
  {
    if plays != [] && p(plays[0]) {
      var tail := Where(plays[1..], p);
      WhereKeepsPlayOrder(plays[1..], p);
      SelectedAfterFirst(plays, p);
      var r := [plays[0]] + tail;
      forall i, j | 0 <= i < j < |r|
        ensures r[i].id < r[j].id
      {
        assert r[j] == tail[j - 1];
        if i > 0 {
          assert r[i] == tail[i - 1];
        }
      }
    } else if plays != [] {
      WhereKeepsPlayOrder(plays[1..], p);
    }
  }

  /** `SELECT * FROM game WHERE id = ?` */
  function WithId(games: seq<Game>, id: nat): seq<Game> {
    Where(games, (g: Game) => g.id == id)
  }

  /** `SELECT * FROM game WHERE code = ?` */
  function WithCode(games: seq<Game>, code: string): seq<Game> {
    Where(games, (g: Game) => g.code == code)
  }

  /** `SELECT * FROM game WHERE id = ? AND (host_user = ? OR guest_user = ?)` */
  function WithIdAndMember(games: seq<Game>, id: nat, u: UserId): seq<Game> {
    Where(games, (g: Game) => g.id == id && IsParticipant(g, u))
  }

  ghost predicate AscendingGameIds(games: seq<Game>) {
    forall i, j :: 0 <= i < j < |games| ==> games[i].id < games[j].id
  }

  ghost predicate UniqueCodes(games: seq<Game>) {
    forall i, j :: 0 <= i < j < |games| ==> games[i].code != games[j].code
  }

  /**
   * The `game` table: ids ascend and stay below the counter, codes are
   * well-formed and unique, and each row keeps the lifecycle facts the
   * handlers establish.
   */
  ghost predicate GamesValid(games: seq<Game>, nextGameId: nat) {
    && AscendingGameIds(games)
    && UniqueCodes(games)
    && (forall i :: 0 <= i < |games| ==> games[i].id < nextGameId)
    && (forall i :: 0 <= i < |games| ==> IsGameCode(games[i].code))
    && (forall i :: 0 <= i < |games| ==> games[i].guest != Some(games[i].host))
    && (forall i :: 0 <= i < |games| && games[i].winner.Some? ==>
          IsParticipant(games[i], games[i].winner.value) && games[i].endedAt.Some?)
  }

  /** The match `id` exists and `u` plays in it. */
  ghost predicate PlaysIn(games: seq<Game>, id: nat, u: UserId) {
    exists k :: 0 <= k < |games| && games[k].id == id && IsParticipant(games[k], u)
  }

  /** The `plays` table: ids ascend, dice and columns are in range, and every mover took part in the match. */
  ghost predicate PlaysValid(plays: seq<Play>, nextPlayId: nat, games: seq<Game>) {
    && AscendingPlayIds(plays)
    && (forall i :: 0 <= i < |plays| ==> plays[i].id < nextPlayId)
    && (forall i :: 0 <= i < |plays| ==> 1 <= plays[i].dice <= 6 && 0 <= plays[i].col <= 2)
    && (forall i :: 0 <= i < |plays| ==> PlaysIn(games, plays[i].matchId, plays[i].mover))
  }

  /** The `gambling` table: at most one row per account, six weights each. */
  ghost predicate GamblingValid(gambling: seq<GamblingRow>) {
    && (forall i, j :: 0 <= i < j < |gambling| ==> gambling[i].userId != gambling[j].userId)
    && (forall i :: 0 <= i < |gambling| ==> |gambling[i].weights| == 6)
  }

  /** Two rows of a valid `game` table with the same id are the same row. */
  lemma SameIdSameGame(games: seq<Game>, g1: Game, g2: Game)
    requires AscendingGameIds(games)
    requires g1 in games && g2 in games && g1.id == g2.id
    ensures g1 == g2
  {
    var i :| 0 <= i < |games| && games[i] == g1;
    var j :| 0 <= j < |games| && games[j] == g2;
  }

  /** On a table whose ids ascend, a selection by a row's id reads back that row. */
  lemma WithIdReadsBack(games: seq<Game>, k: nat)
    requires AscendingGameIds(games) && k < |games|
    ensures WithId(games, games[k].id) != [] && WithId(games, games[k].id)[0] == games[k]
  {
    var r := WithId(games, games[k].id);
    assert games[k] in r;
    assert r[0] in r;
    SameIdSameGame(games, r[0], games[k]);
  }

  /** Two rows of a valid `game` table with the same code are the same row. */
  lemma SameCodeSameGame(games: seq<Game>, g1: Game, g2: Game)
    requires UniqueCodes(games)
    requires g1 in games && g2 in games && g1.code == g2.code
    ensures g1 == g2
  {
    var i :| 0 <= i < |games| && games[i] == g1;
    var j :| 0 <= j < |games| && games[j] == g2;
  }

  /**
   * A rewrite of the `game` table that keeps every row's id and host, never
   * clears a guest and deletes no row keeps every participant a participant.
   */
  lemma ParticipantsSurvive(games: seq<Game>, games': seq<Game>, id: nat, u: UserId)
    requires |games| <= |games'|
    requires forall i :: 0 <= i < |games| ==>
      games'[i].id == games[i].id && games'[i].host == games[i].host &&
      (games[i].guest.Some? ==> games'[i].guest == games[i].guest)
    requires PlaysIn(games, id, u)
    ensures PlaysIn(games', id, u)
  {
    var k :| 0 <= k < |games| && games[k].id == id && IsParticipant(games[k], u);
    assert games'[k].id == id && IsParticipant(games'[k], u);
  }

  /** The tables and their AUTO_INCREMENT counters. */
  class Database {
    var games: seq<Game>
    var plays: seq<Play>
    var gambling: seq<GamblingRow>
    var nextGameId: nat
    var nextPlayId: nat

    ghost predicate Valid()
      reads this
    {
      && GamesValid(games, nextGameId)
      && PlaysValid(plays, nextPlayId, games)
      && GamblingValid(gambling)
    }

    /** Empty tables; both counters start at 1. */
    constructor ()
      ensures Valid()
      ensures games == [] && plays == [] && gambling == []
      ensures nextGameId == 1 && nextPlayId == 1
    {
      games, plays, gambling := [], [], [];
      nextGameId, nextPlayId := 1, 1;
    }
  }
}
