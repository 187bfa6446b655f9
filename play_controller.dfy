/**
 * The play handlers: record a move (validate the column, check the caller
 * plays in the match, roll the caller's weighted die, remap the column,
 * append the play) and read back a match's plays. The die's random sample
 * and the insertion time are parameters.
 */
module PlayController {
  import opened Outcomes
  import opened Store
  import opened Dice

  /** The column names the frontend sends: the three columns of each player's board. */
  const ValidColumns: seq<string> := ["1", "2", "3", "4", "5", "6"]

  /** The names of the first board's columns. */
  const FirstBoardColumns: seq<string> := ["1", "2", "3"]

  /** The payload of a recorded play (the mover's username is not modelled). */
  datatype Registered = Registered(playId: nat, gameId: nat, userId: UserId, dice: int, column: string, dbColumn: int)

  // ------------------------------------------------------------- column remap

  /** The name the frontend gives column `c`, counting 1 to 6 over both boards. */
  function ColumnName(c: int): (s: string)
    requires 1 <= c <= 6
    ensures |s| == 1
  {
    [('0' as int + c) as char]
  }

  /** `Number.parseInt` of a one-digit column name. */
  function ParseDigit(s: string): int
    requires |s| == 1
  {
    s[0] as int - '0' as int
  }

  /** The stored column of a valid name: "1".."3" count from 1, "4".."6" from 4. */
  function DbColumn(s: string): (col: int)
    requires s in ValidColumns
    ensures 0 <= col <= 2
  {
    if s in FirstBoardColumns then ParseDigit(s) - 1 else ParseDigit(s) - 4
  }

  /** The valid column names are exactly the names of columns 1 to 6. */
  lemma ValidColumnsAreNames(s: string)
    ensures s in ValidColumns <==> exists c :: 1 <= c <= 6 && s == ColumnName(c)
  {
    if s in ValidColumns {
      var c := ParseDigit(s);
      assert s == ColumnName(c);
    }
  }

  /** Column `c` is stored as `(c - 1) % 3`: both boards' columns land in 0..2. */
  lemma ColumnRemap(c: int)
    requires 1 <= c <= 6
    ensures ColumnName(c) in ValidColumns && DbColumn(ColumnName(c)) == (c - 1) % 3
  {
    assert ColumnName(c) == ValidColumns[c - 1];
  }

  /** Each stored column has exactly two names, `k + 1` and `k + 4`, one per board. */
  lemma ColumnsOnBoard(s: string, k: int)
    requires s in ValidColumns && 0 <= k <= 2
    ensures DbColumn(s) == k <==> s == ColumnName(k + 1) || s == ColumnName(k + 4)
  {
    ValidColumnsAreNames(s);
    var c :| 1 <= c <= 6 && s == ColumnName(c);
    ColumnRemap(c);
    ColumnRemap(k + 1);
    ColumnRemap(k + 4);
  }

  // ------------------------------------------------------------------ checks

  /**
   * What `registerPlay` decides before it writes: the stored column, or the
   * first rejection, in the source's order: no column (400), a `null` column
   * (its `toString` throws), a name outside "1".."6" (400), no match with
   * that id in which the caller plays (404).
   */
  function PlayCheck(games: seq<Game>, userId: UserId, gameId: nat, column: Field<string>): (r: Result<int>)
    ensures r.Ok? ==> column.Given? && column.value in ValidColumns && r.value == DbColumn(column.value)
  {
    match column
    case Absent => Err(ApiError(BadRequest))
    case Null => Err(TypeError)
    case Given(s) =>
      if s !in ValidColumns then Err(ApiError(BadRequest))
      else if |WithIdAndMember(games, gameId, userId)| == 0 then Err(ApiError(NotFound))
      else Ok(DbColumn(s))
  }

  /**
   * The outcomes of `PlayCheck`, each stated by the request and the table:
   * 400 exactly for a missing or invalid column, a TypeError exactly for a
   * `null` one, 404 exactly for a valid column in a match the caller does
   * not play in, success otherwise.
   */
  lemma PlayOutcomes(games: seq<Game>, userId: UserId, gameId: nat, column: Field<string>)
    ensures var r := PlayCheck(games, userId, gameId, column);
      && (r == Err(ApiError(BadRequest)) <==> column.Absent? || (column.Given? && column.value !in ValidColumns))
      && (r == Err(TypeError) <==> column.Null?)
      && (r == Err(ApiError(NotFound)) <==>
            column.Given? && column.value in ValidColumns && !PlaysIn(games, gameId, userId))
      && (r.Ok? <==> column.Given? && column.value in ValidColumns && PlaysIn(games, gameId, userId))
  {
    var ms := WithIdAndMember(games, gameId, userId);
    if ms != [] {
      assert ms[0] in ms;
      var k :| 0 <= k < |games| && games[k] == ms[0];
    } else {
      forall k | 0 <= k < |games|
        ensures !(games[k].id == gameId && IsParticipant(games[k], userId))
      {
        assert games[k] in games;
      }
    }
  }

  /** A match the membership query returns is one the caller plays in. */
  lemma MemberPlaysIn(games: seq<Game>, gameId: nat, u: UserId)
    requires WithIdAndMember(games, gameId, u) != []
    ensures PlaysIn(games, gameId, u)
  {
    var ms := WithIdAndMember(games, gameId, u);
    assert ms[0] in ms;
    var k :| 0 <= k < |games| && games[k] == ms[0];
  }

  // ---------------------------------------------------------------- gambling

  /** `SELECT dice_1, ..., dice_6 FROM gambling WHERE user_id = ?` */
  function GamblingOf(gambling: seq<GamblingRow>, u: UserId): seq<GamblingRow> {
    Where(gambling, (row: GamblingRow) => row.userId == u)
  }

  /** The weights the die is rolled with: the caller's row, or six equal weights when there is none. */
  function WeightsFor(gambling: seq<GamblingRow>, u: UserId): (ws: seq<real>)
    ensures GamblingValid(gambling) ==> |ws| == Faces
  {
    var rows := GamblingOf(gambling, u);
    if rows == [] then DefaultWeights
    else assert rows[0] in rows; rows[0].weights
  }

  /** The `gambling` table after a play: a default row added for a caller who has none. */
  function WithGamblingRow(gambling: seq<GamblingRow>, u: UserId): seq<GamblingRow> {
    if GamblingOf(gambling, u) == [] then gambling + [GamblingRow(u, DefaultWeights)] else gambling
  }

  /** With one row per account, a selection by account finds at most that one row. */
  lemma {:induction false} OneRowPerUser(gambling: seq<GamblingRow>, u: UserId)
    requires GamblingValid(gambling) && GamblingOf(gambling, u) != []
    ensures GamblingOf(gambling, u) == [GamblingOf(gambling, u)[0]]
  {
    var rest := gambling[1..];
    assert GamblingValid(rest) by {
      forall i, j | 0 <= i < j < |rest|
        ensures rest[i].userId != rest[j].userId
      {
        assert rest[i] == gambling[i + 1] && rest[j] == gambling[j + 1];
      }
    }
    if gambling[0].userId == u {
      forall x | x in rest
        ensures x.userId != u
      {
        var m :| 0 <= m < |rest| && rest[m] == x;
        assert gambling[m + 1] == x;
      }
      assert GamblingOf(rest, u) == [];
    } else {
      OneRowPerUser(rest, u);
    }
  }

  /** A default row for an account that has none keeps one row per account and is then its only row. */
  lemma DefaultRowInserted(gambling: seq<GamblingRow>, u: UserId)
    requires GamblingValid(gambling) && GamblingOf(gambling, u) == []
    ensures GamblingValid(gambling + [GamblingRow(u, DefaultWeights)])
    ensures GamblingOf(gambling + [GamblingRow(u, DefaultWeights)], u) == [GamblingRow(u, DefaultWeights)]
  {
    var row := GamblingRow(u, DefaultWeights);
    WhereAppend(gambling, row, (r: GamblingRow) => r.userId == u);
    var gambling' := gambling + [row];
    forall i, j | 0 <= i < j < |gambling'|
      ensures gambling'[i].userId != gambling'[j].userId
    {
      assert gambling'[i] == gambling[i] && gambling[i] in gambling;
    }
  }

  /**
   * A play leaves the caller exactly one `gambling` row: the row it had,
   * untouched, or a new row of six weights 1/6; no other row changes and a
   * second play adds nothing.
   */
  lemma GamblingRowAfterPlay(gambling: seq<GamblingRow>, u: UserId)
    requires GamblingValid(gambling)
    ensures var gambling' := WithGamblingRow(gambling, u);
      && GamblingValid(gambling')
      && gambling'[..|gambling|] == gambling
      && GamblingOf(gambling', u) ==
           (if GamblingOf(gambling, u) == [] then [GamblingRow(u, DefaultWeights)] else [GamblingOf(gambling, u)[0]])
      && WithGamblingRow(gambling', u) == gambling'
  {
    if GamblingOf(gambling, u) == [] {
      DefaultRowInserted(gambling, u);
      assert (gambling + [GamblingRow(u, DefaultWeights)])[..|gambling|] == gambling;
    } else {
      OneRowPerUser(gambling, u);
    }
  }

  /**
   * Lines 55-85 of `registerPlay`: read the caller's weights, inserting a
   * default row when there is none, and roll the die with them.
   */
  method RollDie(db: Database, userId: UserId, random: real) returns (dice: int)
    requires GamblingValid(db.gambling) && 0.0 <= random < 1.0
    modifies db
    ensures 1 <= dice <= Faces
    ensures PicksFace(WeightsFor(old(db.gambling), userId), random, dice)
    ensures db.gambling == WithGamblingRow(old(db.gambling), userId) && GamblingValid(db.gambling)
    ensures db.games == old(db.games) && db.plays == old(db.plays)
    ensures db.nextGameId == old(db.nextGameId) && db.nextPlayId == old(db.nextPlayId)
  {
    GamblingRowAfterPlay(db.gambling, userId);
    var gamblingData := GamblingOf(db.gambling, userId);
    if |gamblingData| == 0 {
      var probabilities := DefaultWeights;
      dice := GetWeightedRandomDice(probabilities, random);
      db.gambling := db.gambling + [GamblingRow(userId, DefaultWeights)];
    } else {
      var probabilities := gamblingData[0].weights;
      dice := GetWeightedRandomDice(probabilities, random);
    }
  }

  // ---------------------------------------------------------------- recording

  /** Appending a play of a caller who plays in the match, with a die face and a stored column, keeps the table valid. */
  lemma AppendKeepsPlaysValid(plays: seq<Play>, nextPlayId: nat, games: seq<Game>, p: Play)
    requires PlaysValid(plays, nextPlayId, games)
    requires p.id == nextPlayId && 1 <= p.dice <= 6 && 0 <= p.col <= 2 && PlaysIn(games, p.matchId, p.mover)
    ensures PlaysValid(plays + [p], nextPlayId + 1, games)
  {
    var plays' := plays + [p];
    forall i, j | 0 <= i < j < |plays'|
      ensures plays'[i].id < plays'[j].id
    {
      if j < |plays| {
        assert plays'[i] == plays[i] && plays'[j] == plays[j];
      }
    }
  }

  /**
   * `registerPlay`: check the request in the order `PlayCheck` states; then
   * roll the die with the caller's weights, creating a default row for a
   * caller who has none, and append the play under the next id. A rejected
   * request writes nothing.
   */
  method RegisterPlay(db: Database, userId: UserId, gameId: nat, column: Field<string>, random: real, now: nat)
    returns (res: Result<Registered>)
    requires db.Valid()
    requires 0.0 <= random < 1.0
    modifies db
    ensures db.Valid()
    ensures var check := PlayCheck(old(db.games), userId, gameId, column);
      && (check.Err? ==> res == Err(check.failure))
      && (check.Err? ==> db.plays == old(db.plays) && db.gambling == old(db.gambling))
      && (check.Err? ==> db.nextPlayId == old(db.nextPlayId))
      && (check.Ok? ==> res.Ok?)
    ensures res.Ok? ==>
      && res.value == Registered(old(db.nextPlayId), gameId, userId, res.value.dice, column.value, res.value.dbColumn)
      && res.value.dbColumn == PlayCheck(old(db.games), userId, gameId, column).value
      && PicksFace(WeightsFor(old(db.gambling), userId), random, res.value.dice)
    ensures res.Ok? ==>
      && db.plays == old(db.plays) + [Play(old(db.nextPlayId), gameId, userId, res.value.dice, res.value.dbColumn, now)]
      && db.nextPlayId == old(db.nextPlayId) + 1
      && db.gambling == WithGamblingRow(old(db.gambling), userId)
    ensures db.games == old(db.games) && db.nextGameId == old(db.nextGameId)
  {
    if column.Absent? {
      return Err(ApiError(BadRequest));
    }
    if column.Null? {
      // `column.toString()` on `null`
      return Err(TypeError);
    }
    var s := column.value;
    if s !in ValidColumns {
      return Err(ApiError(BadRequest));
    }
    var games := WithIdAndMember(db.games, gameId, userId);
    if |games| == 0 {
      return Err(ApiError(NotFound));
    }
    assert PlayCheck(db.games, userId, gameId, column) == Ok(DbColumn(s));
    MemberPlaysIn(db.games, gameId, userId);

    var dice := RollDie(db, userId, random);
    var dbColumn := DbColumn(s);

    var play := Play(db.nextPlayId, gameId, userId, dice, dbColumn, now);
    AppendKeepsPlaysValid(db.plays, db.nextPlayId, db.games, play);
    db.plays := db.plays + [play];
    db.nextPlayId := db.nextPlayId + 1;
    res := Ok(Registered(play.id, gameId, userId, dice, s, dbColumn));
  }

  // -------------------------------------------------------------- read-back

  /** `SELECT p.* FROM plays p WHERE p.match_id = ?`, in table order. */
  function PlaysOf(plays: seq<Play>, gameId: nat): seq<Play> {
    Where(plays, (p: Play) => p.matchId == gameId)
  }

  /** `getGamePlays`: 404 exactly when no match has that id; otherwise exactly that match's plays. */
  function GetGamePlays(games: seq<Game>, plays: seq<Play>, gameId: nat): (r: Result<seq<Play>>)
    ensures r.Err? <==> forall g :: g in games ==> g.id != gameId
    ensures r.Err? ==> r == Err(ApiError(NotFound))
    ensures r.Ok? ==> forall p :: p in r.value <==> p in plays && p.matchId == gameId
  {
    if |WithId(games, gameId)| == 0 then Err(ApiError(NotFound))
    else Ok(PlaysOf(plays, gameId))
  }

  /** On a valid `plays` table the read-back is in ascending id order, as `ORDER BY p.id ASC` asks. */
  lemma GamePlaysInIdOrder(games: seq<Game>, plays: seq<Play>, nextPlayId: nat, gameId: nat)
    requires PlaysValid(plays, nextPlayId, games)
    requires GetGamePlays(games, plays, gameId).Ok?
    ensures AscendingPlayIds(GetGamePlays(games, plays, gameId).value)
  {
    WhereKeepsPlayOrder(plays, (p: Play) => p.matchId == gameId);
  }

  /**
   * A recorded play shows up last in its match's read-back and in no other:
   * every match's plays are what they were, plus the new play for its match.
   */
  lemma ReadBackAfterAppend(games: seq<Game>, plays: seq<Play>, p: Play, gameId: nat)
    requires GetGamePlays(games, plays, gameId).Ok?
    ensures GetGamePlays(games, plays + [p], gameId).Ok?
    ensures GetGamePlays(games, plays + [p], gameId).value ==
      GetGamePlays(games, plays, gameId).value + (if p.matchId == gameId then [p] else [])
  {
    WhereAppend(plays, p, (q: Play) => q.matchId == gameId);
  }
}
