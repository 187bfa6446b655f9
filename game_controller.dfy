/**
 * The match lifecycle handlers: create a match under a fresh code, join it
 * by code, end it with a winner, and look it up by id or by code. Each
 * mutating handler is a method over the `Database`; the order in which it
 * rejects a request is stated by a pure function (`JoinTarget`,
 * `EndTarget`) that the method is proved to follow.
 */
module GameController {
  import opened Outcomes
  import opened Store
  import opened GameCodes

  /** The payload of a created match. */
  datatype Created = Created(gameId: nat, gameCode: string, hostUserId: UserId)

  /** The payload of an ended match (the winner's username is not modelled). */
  datatype Ended = Ended(gameId: nat, winnerId: UserId)

  // ---------------------------------------------------------------- createGame

  /** Some match already has this code. */
  predicate CodeInUse(games: seq<Game>, code: string) {
    WithCode(games, code) != []
  }

  /**
   * The retry loop of `createGame`: generate a code from each candidate in
   * turn until one is not in use. The candidates stand for what the random
   * source yields; the source retries without bound, so the list stands for
   * a run that ends: its last candidate spells an unused code. The answer is
   * the code of the first candidate that is unused, and `tries` is that
   * candidate's index.
   */
  method FindUnusedCode(games: seq<Game>, candidates: seq<seq<nat>>) returns (gameCode: string, ghost tries: nat)
    requires forall k :: 0 <= k < |candidates| ==> ValidDraws(candidates[k])
    requires candidates != [] && !CodeInUse(games, CodeOf(candidates[|candidates| - 1]))
    ensures tries < |candidates| && gameCode == CodeOf(candidates[tries])
    ensures !CodeInUse(games, gameCode)
    ensures forall k :: 0 <= k < tries ==> CodeInUse(games, CodeOf(candidates[k]))
  {
    gameCode := "";
    var isUnique := false;
    var k := 0;
    while !isUnique
      invariant k <= |candidates|
      invariant !isUnique ==> k < |candidates|
      invariant isUnique ==> 0 < k && gameCode == CodeOf(candidates[k - 1]) && !CodeInUse(games, gameCode)
      invariant forall j :: 0 <= j < k && (j < k - 1 || !isUnique) ==> CodeInUse(games, CodeOf(candidates[j]))
      decreases |candidates| - k
    {
      gameCode := GenerateGameCode(candidates[k]);
      k := k + 1;
      var existingGame := WithCode(games, gameCode);
      if |existingGame| == 0 {
        isUnique := true;
      }
    }
    tries := k - 1;
  }

  /**
   * `createGame`: find an unused code, then insert a match with that code,
   * the caller as host, no guest, winner or end time, and the next id.
   */
  method CreateGame(db: Database, hostUserId: UserId, candidates: seq<seq<nat>>, now: nat)
    returns (created: Created, ghost tries: nat)
    requires db.Valid()
    requires forall k :: 0 <= k < |candidates| ==> ValidDraws(candidates[k])
    requires candidates != [] && !CodeInUse(db.games, CodeOf(candidates[|candidates| - 1]))
    modifies db
    ensures db.Valid()
    ensures tries < |candidates| && created.gameCode == CodeOf(candidates[tries])
    ensures forall k :: 0 <= k < tries ==> CodeInUse(old(db.games), CodeOf(candidates[k]))
    ensures forall g :: g in old(db.games) ==> g.code != created.gameCode
    ensures created == Created(old(db.nextGameId), created.gameCode, hostUserId)
    ensures db.games == old(db.games) + [Game(created.gameId, created.gameCode, hostUserId, None, None, now, None)]
    ensures db.nextGameId == old(db.nextGameId) + 1
    ensures db.plays == old(db.plays) && db.gambling == old(db.gambling) && db.nextPlayId == old(db.nextPlayId)
  {
    var gameCode;
    gameCode, tries := FindUnusedCode(db.games, candidates);
    var gameId := db.nextGameId;
    var game := Game(gameId, gameCode, hostUserId, None, None, now, None);
    InsertKeepsValid(db.games, db.nextGameId, db.plays, db.nextPlayId, game);
    db.games := db.games + [game];
    db.nextGameId := db.nextGameId + 1;
    created := Created(gameId, gameCode, hostUserId);
  }

  /** Inserting a fresh match with a new id and an unused code keeps the `game` table valid. */
  lemma InsertKeepsGamesValid(games: seq<Game>, nextGameId: nat, g: Game)
    requires GamesValid(games, nextGameId)
    requires g.id == nextGameId && IsGameCode(g.code) && !CodeInUse(games, g.code)
    requires g.guest == None && g.winner == None
    ensures GamesValid(games + [g], nextGameId + 1)
  {
    var games' := games + [g];
    forall i | 0 <= i < |games|
      ensures games[i].code != g.code
    {
      assert games[i] in games;
    }
    forall i, j | 0 <= i < j < |games'|
      ensures games'[i].code != games'[j].code && games'[i].id < games'[j].id
    {
      if j < |games| {
        assert games'[i] == games[i] && games'[j] == games[j];
      }
    }
  }

  /** Inserting a fresh match keeps the tables valid. */
  lemma InsertKeepsValid(games: seq<Game>, nextGameId: nat, plays: seq<Play>, nextPlayId: nat, g: Game)
    requires GamesValid(games, nextGameId) && PlaysValid(plays, nextPlayId, games)
    requires g.id == nextGameId && IsGameCode(g.code) && !CodeInUse(games, g.code)
    requires g.guest == None && g.winner == None
    ensures GamesValid(games + [g], nextGameId + 1) && PlaysValid(plays, nextPlayId, games + [g])
  {
    InsertKeepsGamesValid(games, nextGameId, g);
    forall i | 0 <= i < |plays|
      ensures PlaysIn(games + [g], plays[i].matchId, plays[i].mover)
    {
      ParticipantsSurvive(games, games + [g], plays[i].matchId, plays[i].mover);
    }
  }

  // ------------------------------------------------------------ joinGameByCode

  /** JavaScript `!code`: a missing or null field, or the empty string. */
  predicate Falsy(code: Field<string>) {
    !code.Given? || code.value == ""
  }

  /**
   * What `joinGameByCode` decides on a table: the match it will fill, or the
   * first rejection, in the source's order: no code (400), no match with the
   * upper-cased code (404), match already has a guest (409), caller is the
   * host (400).
   */
  function JoinTarget(games: seq<Game>, guestUserId: UserId, code: Field<string>): (r: Result<Game>)
    ensures r.Ok? ==> !Falsy(code) && r.value in games && r.value.code == ToUpper(code.value)
                      && r.value.guest == None && r.value.host != guestUserId
  {
    if Falsy(code) then Err(ApiError(BadRequest))
    else
      var games' := WithCode(games, ToUpper(code.value));
      if |games'| == 0 then Err(ApiError(NotFound))
      else
        var game := games'[0];
        assert game in games';
        if game.guest.Some? then Err(ApiError(Conflict))
        else if game.host == guestUserId then Err(ApiError(BadRequest))
        else Ok(game)
  }

  /**
   * The rejections of `JoinTarget`, each stated by what the table holds
   * rather than by the order of the checks: a missing code is 400; no match
   * with the upper-cased code is 404; a match that already has a guest is
   * 409, even for its host; the caller hosting the open match is 400; and
   * the join goes through exactly when the open match belongs to someone else.
   */
  lemma JoinOutcomes(games: seq<Game>, guestUserId: UserId, code: Field<string>)
    requires UniqueCodes(games)
    ensures var r := JoinTarget(games, guestUserId, code);
      && (Falsy(code) ==> r == Err(ApiError(BadRequest)))
      && (r.Ok? <==> !Falsy(code) && exists g :: g in games && g.code == ToUpper(code.value)
                                                 && g.guest == None && g.host != guestUserId)
      && (r == Err(ApiError(NotFound)) <==>
            !Falsy(code) && forall g :: g in games ==> g.code != ToUpper(code.value))
      && (r == Err(ApiError(Conflict)) <==>
            !Falsy(code) && exists g :: g in games && g.code == ToUpper(code.value) && g.guest.Some?)
      && (r == Err(ApiError(BadRequest)) <==>
            Falsy(code) || exists g :: g in games && g.code == ToUpper(code.value)
                                       && g.guest == None && g.host == guestUserId)
  {
    if !Falsy(code) {
      var games' := WithCode(games, ToUpper(code.value));
      if |games'| != 0 {
        var game := games'[0];
        assert game in games';
        forall g | g in games && g.code == ToUpper(code.value)
          ensures g == game
        {
          SameCodeSameGame(games, g, game);
        }
      }
    }
  }

  /** `UPDATE game SET guest_user = u WHERE id = ?` */
  function SetGuest(games: seq<Game>, id: nat, u: UserId): (games': seq<Game>)
    ensures |games'| == |games|
    ensures forall i :: 0 <= i < |games| && games[i].id != id ==> games'[i] == games[i]
    ensures forall i :: 0 <= i < |games| && games[i].id == id ==> games'[i] == games[i].(guest := Some(u))
  {
    seq(|games|, i requires 0 <= i < |games| => if games[i].id == id then games[i].(guest := Some(u)) else games[i])
  }

  /** Filling the guest seat keeps the table valid: the guest is not the host, a winner stays a participant. */
  lemma SetGuestKeepsValid(games: seq<Game>, nextGameId: nat, g: Game, u: UserId)
    requires GamesValid(games, nextGameId)
    requires g in games && g.guest == None && g.host != u
    ensures GamesValid(SetGuest(games, g.id, u), nextGameId)
  {
    var games' := SetGuest(games, g.id, u);
    forall i | 0 <= i < |games|
      ensures games'[i].id == games[i].id && games'[i].code == games[i].code
      ensures games'[i].winner.Some? ==> IsParticipant(games'[i], games'[i].winner.value) && games'[i].endedAt.Some?
      ensures games'[i].guest != Some(games'[i].host)
    {
      if games[i].id == g.id {
        SameIdSameGame(games, games[i], g);
      }
    }
  }

  /**
   * `joinGameByCode`: check the request in the order `JoinTarget` states;
   * on success set the guest of the matched row to the caller and answer
   * with that row read back. A rejected request writes nothing.
   */
  method JoinGameByCode(db: Database, guestUserId: UserId, code: Field<string>) returns (res: Result<Game>)
    requires db.Valid()
    modifies db
    ensures db.Valid()
    ensures var target := JoinTarget(old(db.games), guestUserId, code);
      && (target.Err? ==> res == target && db.games == old(db.games))
      && (target.Ok? ==> res == Ok(target.value.(guest := Some(guestUserId)))
                         && db.games == SetGuest(old(db.games), target.value.id, guestUserId))
    ensures db.plays == old(db.plays) && db.gambling == old(db.gambling)
    ensures db.nextGameId == old(db.nextGameId) && db.nextPlayId == old(db.nextPlayId)
  {
    if Falsy(code) {
      return Err(ApiError(BadRequest));
    }
    var games := WithCode(db.games, ToUpper(code.value));
    if |games| == 0 {
      return Err(ApiError(NotFound));
    }
    var game := games[0];
    if game.guest.Some? {
      return Err(ApiError(Conflict));
    }
    if game.host == guestUserId {
      return Err(ApiError(BadRequest));
    }

    ghost var before := db.games;
    assert JoinTarget(before, guestUserId, code) == Ok(game);
    JoinKeepsValid(before, db.nextGameId, db.plays, db.nextPlayId, game, guestUserId);
    db.games := SetGuest(db.games, game.id, guestUserId);
    var updatedGame := WithId(db.games, game.id);
    res := Ok(updatedGame[0]);
  }

  /**
   * Filling the guest seat of an open match, for someone other than its
   * host, keeps the tables valid, and reading the row back by id gives the
   * updated row.
   */
  lemma JoinKeepsValid(games: seq<Game>, nextGameId: nat, plays: seq<Play>, nextPlayId: nat, g: Game, u: UserId)
    requires GamesValid(games, nextGameId) && PlaysValid(plays, nextPlayId, games)
    requires g in games && g.guest == None && g.host != u
    ensures var games' := SetGuest(games, g.id, u);
      && GamesValid(games', nextGameId) && PlaysValid(plays, nextPlayId, games')
      && WithId(games', g.id) != [] && WithId(games', g.id)[0] == g.(guest := Some(u))
  {
    var games' := SetGuest(games, g.id, u);
    SetGuestKeepsValid(games, nextGameId, g, u);
    forall i | 0 <= i < |plays|
      ensures PlaysIn(games', plays[i].matchId, plays[i].mover)
    {
      ParticipantsSurvive(games, games', plays[i].matchId, plays[i].mover);
    }
    var k :| 0 <= k < |games| && games[k] == g;
    WithIdReadsBack(games', k);
  }

  /**
   * A successful join changes one row and one column: every other match is
   * untouched, and the filled match keeps its id, code, host, winner and
   * times.
   */
  lemma JoinChangesOnlyGuest(games: seq<Game>, nextGameId: nat, u: UserId, code: Field<string>)
    requires GamesValid(games, nextGameId)
    requires JoinTarget(games, u, code).Ok?
    ensures var g := JoinTarget(games, u, code).value;
            var games' := SetGuest(games, g.id, u);
      && |games'| == |games|
      && (forall i :: 0 <= i < |games| && games[i] != g ==> games'[i] == games[i])
      && (forall i :: 0 <= i < |games| && games[i] == g ==>
            games'[i] == Game(g.id, g.code, g.host, Some(u), g.winner, g.startedAt, g.endedAt))
  {
    var g := JoinTarget(games, u, code).value;
    forall i | 0 <= i < |games| && games[i].id == g.id
      ensures games[i] == g
    {
      SameIdSameGame(games, games[i], g);
    }
  }

  /** Once a join has succeeded, every later join with that code is refused as full (409), the host's included. */
  lemma SecondJoinConflicts(games: seq<Game>, nextGameId: nat, u: UserId, code: Field<string>, other: UserId)
    requires GamesValid(games, nextGameId)
    requires JoinTarget(games, u, code).Ok?
    ensures var games' := SetGuest(games, JoinTarget(games, u, code).value.id, u);
      UniqueCodes(games') && JoinTarget(games', other, code) == Err(ApiError(Conflict))
  {
    var g := JoinTarget(games, u, code).value;
    SetGuestKeepsValid(games, nextGameId, g, u);
    var games' := SetGuest(games, g.id, u);
    var k :| 0 <= k < |games| && games[k] == g;
    assert games'[k] in games' && games'[k].code == g.code && games'[k].guest.Some?;
    JoinOutcomes(games', other, code);
  }

  /** A client finds an open match by its code whatever letter case it types, as long as it is not the host. */
  lemma JoinIgnoresLetterCase(games: seq<Game>, nextGameId: nat, g: Game, u: UserId, s: string)
    requires GamesValid(games, nextGameId)
    requires g in games && g.guest == None && g.host != u
    requires CaseVariant(s, g.code) && s != ""
    ensures JoinTarget(games, u, Given(s)) == Ok(g)
  {
    var k :| 0 <= k < |games| && games[k] == g;
    UpperFindsCaseVariants(s, g.code);
    JoinOutcomes(games, u, Given(s));
    var r := JoinTarget(games, u, Given(s));
    SameCodeSameGame(games, r.value, g);
  }

  // ------------------------------------------------------------------- endGame

  /** JavaScript `w === v` between a body field and a nullable id column: `undefined` equals nothing, `null` equals NULL. */
  predicate StrictEquals(w: Field<int>, v: Option<UserId>) {
    match w
    case Absent => false
    case Null => v == None
    case Given(n) => v.Some? && n == v.value
  }

  /** `winnerId` names the host or the guest, in the sense of `!==`. */
  predicate NamesPlayer(g: Game, w: Field<int>) {
    StrictEquals(w, Some(g.host)) || StrictEquals(w, g.guest)
  }

  /**
   * What `endGame` decides on a table: the match it will close, or the first
   * rejection: no such match among the caller's (404), winner neither host
   * nor guest (400). Nothing looks at an earlier winner or end time.
   */
  function EndTarget(games: seq<Game>, userId: UserId, gameId: nat, winnerId: Field<int>): (r: Result<Game>)
    ensures r.Ok? ==> r.value in games && r.value.id == gameId && IsParticipant(r.value, userId)
                      && NamesPlayer(r.value, winnerId)
  {
    var games' := WithIdAndMember(games, gameId, userId);
    if |games'| == 0 then Err(ApiError(NotFound))
    else
      var game := games'[0];
      assert game in games';
      if !NamesPlayer(game, winnerId) then Err(ApiError(BadRequest))
      else Ok(game)
  }

  /**
   * The rejections of `EndTarget`, stated by what the table holds: 404
   * exactly when the caller plays in no match with that id, 400 exactly when
   * the caller's match does not name the winner, success otherwise.
   */
  lemma EndOutcomes(games: seq<Game>, userId: UserId, gameId: nat, winnerId: Field<int>)
    requires AscendingGameIds(games)
    ensures var r := EndTarget(games, userId, gameId, winnerId);
      && (r.Err? ==> r == Err(ApiError(NotFound)) || r == Err(ApiError(BadRequest)))
      && (r == Err(ApiError(NotFound)) <==> !PlaysIn(games, gameId, userId))
      && (r == Err(ApiError(BadRequest)) <==>
            exists g :: g in games && g.id == gameId && IsParticipant(g, userId) && !NamesPlayer(g, winnerId))
      && (r.Ok? <==>
            exists g :: g in games && g.id == gameId && IsParticipant(g, userId) && NamesPlayer(g, winnerId))
  {
    var games' := WithIdAndMember(games, gameId, userId);
    if |games'| == 0 {
      forall k | 0 <= k < |games|
        ensures !(games[k].id == gameId && IsParticipant(games[k], userId))
      {
        assert games[k] in games;
      }
    } else {
      var game := games'[0];
      assert game in games';
      var k :| 0 <= k < |games| && games[k] == game;
      forall g | g in games && g.id == gameId
        ensures g == game
      {
        SameIdSameGame(games, g, game);
      }
    }
  }

  /** The value `endGame` writes to `winner`: the named player, or NULL for a `null` winner. */
  function StoredWinner(g: Game, w: Field<int>): (v: Option<UserId>)
    requires NamesPlayer(g, w)
    ensures v.Some? ==> IsParticipant(g, v.value)
    ensures v == None <==> w.Null?
  {
    if w.Given? then Some(w.value as UserId) else None
  }

  /** `UPDATE game SET winner = w, ended_at = now WHERE id = ?` */
  function SetWinner(games: seq<Game>, id: nat, w: Option<UserId>, now: nat): (games': seq<Game>)
    ensures |games'| == |games|
    ensures forall i :: 0 <= i < |games| && games[i].id != id ==> games'[i] == games[i]
    ensures forall i :: 0 <= i < |games| && games[i].id == id ==>
              games'[i] == games[i].(winner := w, endedAt := Some(now))
  {
    seq(|games|, i requires 0 <= i < |games| =>
      if games[i].id == id then games[i].(winner := w, endedAt := Some(now)) else games[i])
  }

  /** Closing a match keeps the table valid: a winner written is a participant and comes with an end time. */
  lemma SetWinnerKeepsValid(games: seq<Game>, nextGameId: nat, g: Game, w: Field<int>, now: nat)
    requires GamesValid(games, nextGameId)
    requires g in games && NamesPlayer(g, w)
    ensures GamesValid(SetWinner(games, g.id, StoredWinner(g, w), now), nextGameId)
  {
    var games' := SetWinner(games, g.id, StoredWinner(g, w), now);
    forall i | 0 <= i < |games|
      ensures games'[i].id == games[i].id && games'[i].code == games[i].code
      ensures games'[i].winner.Some? ==> IsParticipant(games'[i], games'[i].winner.value) && games'[i].endedAt.Some?
      ensures games'[i].guest == games[i].guest && games'[i].host == games[i].host
    {
      if games[i].id == g.id {
        SameIdSameGame(games, games[i], g);
      }
    }
  }

  /** Closing a match keeps the tables valid. */
  lemma EndKeepsValid(games: seq<Game>, nextGameId: nat, plays: seq<Play>, nextPlayId: nat,
                      g: Game, w: Field<int>, now: nat)
    requires GamesValid(games, nextGameId) && PlaysValid(plays, nextPlayId, games)
    requires g in games && NamesPlayer(g, w)
    ensures var games' := SetWinner(games, g.id, StoredWinner(g, w), now);
      GamesValid(games', nextGameId) && PlaysValid(plays, nextPlayId, games')
  {
    var games' := SetWinner(games, g.id, StoredWinner(g, w), now);
    SetWinnerKeepsValid(games, nextGameId, g, w, now);
    forall i | 0 <= i < |plays|
      ensures PlaysIn(games', plays[i].matchId, plays[i].mover)
    {
      ParticipantsSurvive(games, games', plays[i].matchId, plays[i].mover);
    }
  }

  /**
   * `endGame`: check the request in the order `EndTarget` states; on success
   * write the winner and the end time of that match. The answer then needs
   * the winner's username: for a `null` winner no user row exists, so the
   * handler fails with a TypeError after the write.
   */
  method EndGame(db: Database, userId: UserId, gameId: nat, winnerId: Field<int>, now: nat) returns (res: Result<Ended>)
    requires db.Valid()
    modifies db
    ensures db.Valid()
    ensures var target := EndTarget(old(db.games), userId, gameId, winnerId);
      && (target.Err? ==> res == Err(target.failure) && db.games == old(db.games))
      && (target.Ok? ==> db.games == SetWinner(old(db.games), gameId, StoredWinner(target.value, winnerId), now))
      && (target.Ok? && winnerId.Null? ==> res == Err(TypeError))
      && (target.Ok? && winnerId.Given? ==> res.Ok? && res.value == Ended(gameId, res.value.winnerId)
                                             && res.value.winnerId == winnerId.value)
    ensures db.plays == old(db.plays) && db.gambling == old(db.gambling)
    ensures db.nextGameId == old(db.nextGameId) && db.nextPlayId == old(db.nextPlayId)
  {
    var games := WithIdAndMember(db.games, gameId, userId);
    if |games| == 0 {
      return Err(ApiError(NotFound));
    }
    var game := games[0];
    if !StrictEquals(winnerId, Some(game.host)) && !StrictEquals(winnerId, game.guest) {
      return Err(ApiError(BadRequest));
    }

    ghost var before := db.games;
    assert EndTarget(before, userId, gameId, winnerId) == Ok(game);
    EndKeepsValid(before, db.nextGameId, db.plays, db.nextPlayId, game, winnerId, now);
    db.games := SetWinner(db.games, gameId, StoredWinner(game, winnerId), now);

    if winnerId.Null? {
      // `SELECT username FROM users WHERE id = NULL` returns no row; `winner[0].username` throws.
      return Err(TypeError);
    }
    res := Ok(Ended(gameId, winnerId.value as UserId));
  }

  /** A successful end writes only `winner` and `ended_at` of that match; every other match is untouched. */
  lemma EndChangesOnlyWinner(games: seq<Game>, nextGameId: nat, u: UserId, gameId: nat, w: Field<int>, now: nat)
    requires GamesValid(games, nextGameId)
    requires EndTarget(games, u, gameId, w).Ok?
    ensures var g := EndTarget(games, u, gameId, w).value;
            var games' := SetWinner(games, gameId, StoredWinner(g, w), now);
      && |games'| == |games|
      && (forall i :: 0 <= i < |games| && games[i] != g ==> games'[i] == games[i])
      && (forall i :: 0 <= i < |games| && games[i] == g ==>
            games'[i] == Game(g.id, g.code, g.host, g.guest, StoredWinner(g, w), g.startedAt, Some(now)))
  {
    var g := EndTarget(games, u, gameId, w).value;
    forall i | 0 <= i < |games| && games[i].id == gameId
      ensures games[i] == g
    {
      SameIdSameGame(games, games[i], g);
    }
  }

  /**
   * There is no already-ended check: a request that could end a match can
   * still end it after the match has been ended by another request.
   */
  lemma EndingAgainSucceeds(games: seq<Game>, nextGameId: nat, u: UserId, gameId: nat,
                            w1: Field<int>, w2: Field<int>, now: nat)
    requires GamesValid(games, nextGameId)
    requires EndTarget(games, u, gameId, w1).Ok? && EndTarget(games, u, gameId, w2).Ok?
    ensures var games' := SetWinner(games, gameId, StoredWinner(EndTarget(games, u, gameId, w1).value, w1), now);
      AscendingGameIds(games') && EndTarget(games', u, gameId, w2).Ok?
  {
    var g := EndTarget(games, u, gameId, w1).value;
    var h := EndTarget(games, u, gameId, w2).value;
    SameIdSameGame(games, g, h);
    SetWinnerKeepsValid(games, nextGameId, g, w1, now);
    var games' := SetWinner(games, gameId, StoredWinner(g, w1), now);
    var k :| 0 <= k < |games| && games[k] == g;
    assert games'[k] in games' && games'[k].id == gameId && IsParticipant(games'[k], u) && NamesPlayer(games'[k], w2);
    EndOutcomes(games', u, gameId, w2);
  }

  /** Ending a match twice leaves what ending it once with the second winner and time leaves: the first winner is overwritten. */
  lemma {:induction false} SecondEndOverwrites(games: seq<Game>, id: nat, w1: Option<UserId>, w2: Option<UserId>, now1: nat, now2: nat)
    ensures SetWinner(SetWinner(games, id, w1, now1), id, w2, now2) == SetWinner(games, id, w2, now2)
  {
    var lhs := SetWinner(SetWinner(games, id, w1, now1), id, w2, now2);
    var rhs := SetWinner(games, id, w2, now2);
    forall i | 0 <= i < |games|
      ensures lhs[i] == rhs[i]
    {
    }
  }

  /**
   * A `null` winner passes the winner check of a match that has no guest
   * (`null !== null` is false): the host can close such a match and the row
   * gets an end time but no winner.
   */
  lemma NullWinnerClosesOpenMatch(games: seq<Game>, nextGameId: nat, g: Game, now: nat)
    requires GamesValid(games, nextGameId)
    requires g in games && g.guest == None
    ensures EndTarget(games, g.host, g.id, Null).Ok?
    ensures var games' := SetWinner(games, g.id, StoredWinner(g, Null), now);
      forall i :: 0 <= i < |games| && games[i] == g ==> games'[i].winner == None && games'[i].endedAt == Some(now)
  {
    var k :| 0 <= k < |games| && games[k] == g;
    assert NamesPlayer(g, Null);
    EndOutcomes(games, g.host, g.id, Null);
  }

  // ------------------------------------------------------- getGame, getGameByCode

  /** `getGame`: the match with that id, or 404 exactly when there is none. */
  function GetGame(games: seq<Game>, gameId: nat): (r: Result<Game>)
    ensures r.Err? <==> forall g :: g in games ==> g.id != gameId
    ensures r.Err? ==> r == Err(ApiError(NotFound))
    ensures r.Ok? ==> r.value in games && r.value.id == gameId
  {
    var games' := WithId(games, gameId);
    if |games'| == 0 then Err(ApiError(NotFound))
    else assert games'[0] in games'; Ok(games'[0])
  }

  /** `getGameByCode`: the match whose code is the upper-cased argument, or 404 exactly when there is none. */
  function GetGameByCode(games: seq<Game>, code: string): (r: Result<Game>)
    ensures r.Err? <==> forall g :: g in games ==> g.code != ToUpper(code)
    ensures r.Err? ==> r == Err(ApiError(NotFound))
    ensures r.Ok? ==> r.value in games && r.value.code == ToUpper(code)
  {
    var games' := WithCode(games, ToUpper(code));
    if |games'| == 0 then Err(ApiError(NotFound))
    else assert games'[0] in games'; Ok(games'[0])
  }

  /** On a valid table a lookup by id finds the one match with that id. */
  lemma GetGameFindsTheMatch(games: seq<Game>, nextGameId: nat, g: Game)
    requires GamesValid(games, nextGameId)
    requires g in games
    ensures GetGame(games, g.id) == Ok(g)
  {
    SameIdSameGame(games, GetGame(games, g.id).value, g);
  }

  /** On a valid table a lookup by code finds the match whatever letter case the code is written in. */
  lemma GetGameByCodeIgnoresLetterCase(games: seq<Game>, nextGameId: nat, g: Game, s: string)
    requires GamesValid(games, nextGameId)
    requires g in games && CaseVariant(s, g.code)
    ensures GetGameByCode(games, s) == Ok(g)
  {
    var k :| 0 <= k < |games| && games[k] == g;
    UpperFindsCaseVariants(s, g.code);
    SameCodeSameGame(games, GetGameByCode(games, s).value, g);
  }
}
