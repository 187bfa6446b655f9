# Matatena backend: match and play handlers

This project models the two request-handler files at the core of the Matatena
backend, a server for two-player dice matches. `controllers/gameController.js`
creates a match under a fresh five-character code. It lets a second player join
by that code, ends the match with a winner, and looks matches up by id or by code.
`controllers/playController.js` records a move. To do so it validates the column,
checks that the caller plays in the match, and rolls the caller's weighted die,
creating a default weight row on first use. It then remaps the frontend column
to a stored one and appends the play. It also reads back a match's plays.

The three MySQL tables the handlers touch (`game`, `plays`, `gambling`) are the
`seq` fields of the class `Store.Database`, in insertion order. Each
`AUTO_INCREMENT` key is a counter field. A `SELECT ... WHERE` is `Store.Where`,
a filter that keeps table order. `Database.Valid` is the table invariant the
handlers keep:
- match ids ascend and codes are unique and well-formed;
- the guest is never the host;
- a stored winner is a participant and comes with an end time;
- every play is by a participant of its match, with a die in 1..6 and a column in 0..2;
- there is at most one `gambling` row per account, each with six weights.

Each handler that writes is a method with `modifies db`. The order in which it
rejects a request is a pure function that the method is proved to follow:
`JoinTarget`, `EndTarget` or `PlayCheck`. An outcome lemma restates each of these
rejection chains as conditions on the request and the table, each an
if-and-only-if. Request-body fields are `Outcomes.Field`: the key is missing, it
is `null`, or it holds a value. This lets the model reproduce the handlers'
JavaScript edge cases:
- `null !== null` lets a `null` winner close a match that has no guest;
- `null.toString()` throws a `TypeError` for a `null` column.

Randomness is a parameter. A code is generated from five draws in [0, 36). The
retry loop of `createGame` takes the list of candidate draws it will see. The die
takes the one sample in [0, 1) that `Math.random()` gives. Clocks are a `now`
parameter.

The handlers do less checking than a reader of a match lifecycle might expect,
and the model follows the code:
- One would expect a second end of an ended match to be refused. It is accepted
  and overwrites the winner and end time (`EndingAgainSucceeds`,
  `SecondEndOverwrites`).
- One would expect a match to have a winner exactly when it has an end time. A
  `null` winner ends a guest-less match with an end time and no winner
  (`NullWinnerClosesOpenMatch`).
- One would expect a play to be refused for a match that has no guest or has
  ended, or when it is not the caller's turn. None of this is checked.
  `PlayOutcomes` shows that acceptance depends only on the column and on
  membership.
- Columns arrive as "1".."6" and are remapped to the stored 0..2 (`ColumnRemap`).
- Joining your own match is 400 and joining a full match is 409. The full check
  comes first, so a host joining their own full match gets 409 (`JoinOutcomes`).

## Model

| member | source | states |
|---|---|---|
| GameCodes.AlphabetChar | controllers/gameController.js:6 | the character at each alphabet position is an upper-case letter or a digit |
| GameCodes.AlphabetLayout | controllers/gameController.js:6 | the 36-character alphabet is the 26 letters followed by the 10 digits |
| GameCodes.CodeOf | controllers/gameController.js:5-12 | the code spelled by five draws is five letters or digits |
| GameCodes.IndexOf | controllers/gameController.js:6 | each code character has a position in the alphabet that maps back to it |
| GameCodes.DrawsOf | controllers/gameController.js:5-12 | every code has five valid draws behind it |
| GameCodes.EveryCodeReachable | controllers/gameController.js:5-12 | every five-character code over the alphabet can be generated |
| GameCodes.DrawsRecoverable | controllers/gameController.js:5-12 | different draws give different codes, so generation loses nothing |
| GameCodes.GenerateGameCode | controllers/gameController.js:5-12 | the appending loop builds exactly the code the draws spell, and it is well-formed |
| GameCodes.ToUpper | controllers/gameController.js:65 | upper-casing keeps the length and upper-cases each ASCII letter |
| GameCodes.UpperKeepsCode | controllers/gameController.js:65 | upper-casing a generated code leaves it unchanged |
| GameCodes.UpperFindsCaseVariants | controllers/gameController.js:65 | under ASCII upper-casing, a string upper-cases to a code exactly when it is that code with some letters in lower case |
| Store.Where | controllers/gameController.js:65 | a selection keeps exactly the rows meeting the condition, and is empty exactly when none does |
| Store.WhereAppend | controllers/playController.js:96-99 | inserting a row adds it at the end of every selection it satisfies, and to no other |
| Store.SelectedAfterFirst | controllers/playController.js:144 | in an ascending table, rows selected after the first one have larger ids |
| Store.WhereKeepsPlayOrder | controllers/playController.js:138-147 | a selection from a table whose ids ascend is itself in ascending id order |
| Store.SameIdSameGame | controllers/gameController.js:119-128 | in a valid table, a match id selects at most one row |
| Store.WithIdReadsBack | controllers/gameController.js:89-103 | selecting by a row's id gives back that row first |
| Store.SameCodeSameGame | controllers/gameController.js:65-70 | in a valid table, a code selects at most one row |
| Store.ParticipantsSurvive | controllers/gameController.js:83-86 | an update that keeps ids and hosts and never clears a guest keeps every participant a participant |
| GameController.FindUnusedCode | controllers/gameController.js:19-30 | the retry loop stops at the first candidate whose code is unused; every earlier candidate was in use |
| GameController.CreateGame | controllers/gameController.js:15-48 | inserts one row (the next id, an unused code, the caller as host, nothing else set) and answers with its id and code; tables stay valid |
| GameController.InsertKeepsGamesValid | controllers/gameController.js:33-36 | inserting a fresh match with the next id and an unused code keeps the game table valid |
| GameController.InsertKeepsValid | controllers/gameController.js:33-36 | inserting a fresh match keeps the game and plays tables valid |
| GameController.JoinTarget | controllers/gameController.js:57-80 | a join that passes the checks targets an open match with the upper-cased code that the caller does not host |
| GameController.JoinOutcomes | controllers/gameController.js:60-80 | each outcome as an if-and-only-if on the table: 400 for no code or self-join, 404 for an unknown code, 409 for a full match, success for someone else's open match |
| GameController.SetGuest | controllers/gameController.js:83-86 | the update sets the guest of the rows with that id and leaves every other row as it was |
| GameController.SetGuestKeepsValid | controllers/gameController.js:73-86 | filling the guest seat of an open match, by someone other than its host, keeps the game table valid |
| GameController.JoinGameByCode | controllers/gameController.js:55-105 | follows JoinTarget; on success it writes the guest and answers with the updated row; a refused request writes nothing; tables stay valid |
| GameController.JoinKeepsValid | controllers/gameController.js:82-103 | a join keeps both tables valid, and the read-back by id is the updated row |
| GameController.JoinChangesOnlyGuest | controllers/gameController.js:83-86 | a join changes only the guest column of the joined match |
| GameController.SecondJoinConflicts | controllers/gameController.js:72-75 | once joined, every later join with that code gets 409, the host's included |
| GameController.JoinIgnoresLetterCase | controllers/gameController.js:65 | an open match is joinable with its code typed in any letter case |
| GameController.EndTarget | controllers/gameController.js:118-133 | an end that passes the checks targets the caller's match with that id, and the winner is one of its players |
| GameController.EndOutcomes | controllers/gameController.js:118-133 | 404 exactly when the caller plays in no match with that id; 400 exactly when the winner is not a player; success otherwise |
| GameController.StoredWinner | controllers/gameController.js:136-139 | the stored winner is a participant, or NULL exactly for a `null` winner |
| GameController.SetWinner | controllers/gameController.js:136-139 | the update sets winner and end time on the rows with that id and leaves every other row as it was |
| GameController.SetWinnerKeepsValid | controllers/gameController.js:130-139 | writing a checked winner keeps the game table valid |
| GameController.EndKeepsValid | controllers/gameController.js:136-139 | ending a match keeps both tables valid |
| GameController.EndGame | controllers/gameController.js:112-152 | follows EndTarget; on success it writes winner and end time, then answers with the winner, or fails with a TypeError for a `null` winner after the write |
| GameController.EndChangesOnlyWinner | controllers/gameController.js:136-139 | an end changes only the winner and end time of that match |
| GameController.EndingAgainSucceeds | controllers/gameController.js:118-139 | nothing checks for an earlier end: a request that could end a match can still end it after another end |
| GameController.SecondEndOverwrites | controllers/gameController.js:136-139 | ending twice leaves what ending once with the second winner and time leaves |
| GameController.NullWinnerClosesOpenMatch | controllers/gameController.js:131-142 | the host can end a guest-less match with a `null` winner, giving it an end time and no winner |
| GameController.GetGame | controllers/gameController.js:159-178 | the match with that id, or 404 exactly when there is none |
| GameController.GetGameByCode | controllers/gameController.js:192-211 | the match with the upper-cased code, or 404 exactly when there is none |
| GameController.GetGameFindsTheMatch | controllers/gameController.js:164-183 | in a valid table, looking up a match's id returns that match |
| GameController.GetGameByCodeIgnoresLetterCase | controllers/gameController.js:197-216 | in a valid table, looking up a match's code in any letter case returns that match |
| Dice.Normalize | controllers/playController.js:12 | each weight is divided by the total, and the length is kept |
| Dice.UniformFace | controllers/playController.js:9 | the zero-total fallback gives a face in 1..6, namely the sixth of [0, 1) the sample falls in |
| Dice.GetWeightedRandomDice | controllers/playController.js:5-24 | the face returned is in 1..6: the first face whose cumulative normalised weight reaches the sample, or the uniform face for a zero total |
| Dice.PicksFaceUnique | controllers/playController.js:5-24 | for given weights and sample, at most one face is the answer |
| Dice.CumNormalize | controllers/playController.js:12-17 | the cumulative sum of normalised weights is the cumulative sum of the weights over the total |
| Dice.NormalizedTotal | controllers/playController.js:12 | normalised weights sum to one |
| Dice.FallbackUnreachable | controllers/playController.js:22-23 | for a non-zero total, the face returned always has a cumulative weight that reaches the sample; the trailing `return 6` never decides the answer |
| Dice.CumMonotone | controllers/playController.js:15-17 | with non-negative weights, the running sum never decreases |
| Dice.FaceInterval | controllers/playController.js:12-21 | for non-negative weights with a positive total, face f is returned exactly when the sample lies in f's interval of cumulative weights |
| Dice.FaceWidth | controllers/playController.js:12-21 | face f's interval has width equal to its weight over the total, which is its chance |
| Dice.ZeroTotalUniform | controllers/playController.js:8-10 | with a zero total, face f is returned exactly for samples in [(f-1)/6, f/6) |
| Dice.EqualWeightsAreFair | controllers/playController.js:5-24 | equal positive weights make a fair die: face f exactly for samples in ((f-1)/6, f/6] |
| Dice.EqualShare | controllers/playController.js:6 | with equal weights w, the total is 6w and the first k faces carry k/6 of it |
| Dice.EqualCum | controllers/playController.js:6 | the first k of equal weights w sum to k times w |
| Dice.DefaultIsFair | controllers/playController.js:64-66 | the default weights of 1/6 make a fair die |
| PlayController.ColumnName | controllers/playController.js:39 | each column name is one character |
| PlayController.DbColumn | controllers/playController.js:88-93 | a valid column name is stored as a column in 0..2 |
| PlayController.ValidColumnsAreNames | controllers/playController.js:39 | the accepted names are exactly the names of columns 1 to 6 |
| PlayController.ColumnRemap | controllers/playController.js:88-93 | column c is stored as (c - 1) mod 3 |
| PlayController.ColumnsOnBoard | controllers/playController.js:88-93 | each stored column k has exactly the two names k + 1 and k + 4, one per board |
| PlayController.PlayCheck | controllers/playController.js:33-52 | a play that passes the checks has a valid column name and stores it remapped |
| PlayController.PlayOutcomes | controllers/playController.js:33-52 | each outcome as an if-and-only-if: 400 for a missing or invalid column, TypeError for `null`, 404 when the caller is not in the match, success otherwise |
| PlayController.MemberPlaysIn | controllers/playController.js:44-52 | a match returned by the membership query is one the caller plays in |
| PlayController.WeightsFor | controllers/playController.js:55-85 | in a valid gambling table the die is rolled with six weights |
| PlayController.OneRowPerUser | controllers/playController.js:55-58 | with one row per account, selecting by account finds that one row |
| PlayController.DefaultRowInserted | controllers/playController.js:69-72 | the default row keeps one row per account and is then the caller's only row |
| PlayController.GamblingRowAfterPlay | controllers/playController.js:55-85 | after a play the caller has exactly one row (the old one, or a new row of six 1/6 weights); no other row changes and a second play adds nothing |
| PlayController.RollDie | controllers/playController.js:55-85 | the die face is in 1..6 and is what the picker answers for the caller's stored or default weights; the gambling table is updated as WithGamblingRow states and stays valid |
| PlayController.AppendKeepsPlaysValid | controllers/playController.js:96-99 | appending a participant's play under the next id, with a face in 1..6 and a column in 0..2, keeps the plays table valid |
| PlayController.RegisterPlay | controllers/playController.js:27-120 | follows PlayCheck, and a refused request writes nothing; on success it appends the play under the next id, with the picked face and the remapped column, and creates a default gambling row if needed; tables stay valid |
| PlayController.GetGamePlays | controllers/playController.js:127-153 | 404 exactly when no match has that id; otherwise exactly the plays of that match |
| PlayController.GamePlaysInIdOrder | controllers/playController.js:138-147 | on a valid plays table the read-back is in ascending id order |
| PlayController.ReadBackAfterAppend | controllers/playController.js:138-147 | a recorded play appears last in its own match's read-back, and every other match's read-back is unchanged |

## Left out

- SQL joins with the `users` table are not modelled. Usernames in answers (`host_username`, `winnerUsername`, `username`) are left out. The one effect modelled is the `TypeError` for a `null` winner in `endGame`.
- Express plumbing is not modelled: `req`/`res`/`next`, response envelopes, status codes for success, and the mapping of failures to responses by the error middleware. Authentication is not modelled either: the caller's account id is a parameter.
- `websockets/gameSocket.js`, `routes/gameRoutes.js` and `config/swagger.js` are not part of this model.
- Concurrency and transaction isolation are not modelled. Each handler runs as one atomic step on the tables.
- Floating point is not modelled: weights and samples are exact reals. As a result, six weights of 1/6 total exactly 1. `Number.parseFloat` of stored weights, and NaN weights, are not modelled.
- `console.log` and the clock are left out. Insertion and end times are a `now` parameter.
- Path parameters (`gameId`, `code`) are taken as already converted to a number and a string. MySQL's string-to-number comparison is not modelled.
- GameController.FindUnusedCode: the source retries without bound. The model takes the finite list of candidate draws the random source yields, and requires that the last one spells an unused code, i.e. that the run ends.
- GameController.CreateGame: requires the same finite, ending candidate list as FindUnusedCode.
- GameController.JoinTarget: a `code` that is a JSON value other than a string is not modelled. In the source the falsy ones (`0`, `false`) get 400 from the `!code` check, before any upper-casing. Truthy ones (non-zero numbers, `true`, arrays, objects) reach `code.toUpperCase`, which throws a TypeError.
- GameController.EndTarget: a `winnerId` that is a JSON value other than a number or `null` is not modelled. In the source, such a value never strictly equals an id and gets 400.
- GameCodes.ToUpper: upper-cases ASCII letters only. Unicode case mapping is not modelled.
- GameCodes.UpperFindsCaseVariants: its only-if half holds for ASCII upper-casing only. JavaScript's `toUpperCase` also maps some non-ASCII characters onto code letters: 'ſ' becomes 'S', 'ı' becomes 'I', and 'ﬁ' becomes "FI". So "ſ1234" finds match S1234 in the source, but not in the model.
- PlayController.PlayCheck: a `column` that is any JSON value other than a string is not modelled. In the source, such a value's `toString()` is checked against "1".."6". So a number such as `3`, or a one-element array such as `["3"]`, is accepted and stored like "3", while `true`, `{}` and `[]` get 400.
- Dice.GetWeightedRandomDice: requires exactly six weights, which is what every caller passes. Its fairness lemmas assume non-negative weights.
- PlayController.GetGamePlays: `ORDER BY p.id ASC` is modelled as table order, which `GamePlaysInIdOrder` proves ascending on a valid table.
