# Cinerate game server — a verified model of its game logic

Cinerate is a multiplayer guessing game. One player, the dealer, picks a movie. The players, the
dealer included, guess its IMDb rating, and the round ends once there are as many guesses as
players. The guesses closest to the rating without going over it win the round.
The server (`index.js`) keeps two in-memory stores: a registry of connected participants and a
table of rooms. Socket events change those stores. This project models the stores and every game
handler using Dafny.

- `types.dfy` (module `Types`): participants, movies, guesses, chat entries and rooms.
- `scoring.dfy` (module `Scoring`): the winner rule `calculateWinner`.
  - The one-pass loop is a method.
  - It is proved equal to a specification function, `ClosestGuesses`.
  - Lemmas say what that function means: the minimal non-negative differences, ties kept, none when
    every guess goes over, independent of arrival order.
- `turns.dfy` (module `Turns`): the dealer-rotation scan `next_round` and the deferred half of
  `assign_dealer` use. It picks the first player, in seat order, with the fewest turns.
- `roomops.dfy` (module `RoomOps`): work on one room.
  - The departure scan of `leave_room`.
  - The ten-entry chat log.
  - The nested scoring loop of `cast_vote`.
- `server.dfy` (module `Handlers`):
  - Class `Server` holds `participants` (the live participant records, by id), `online` (the
    connected ids) and `rooms` (the room table).
  - One method per socket event.
  - `Valid()` is the store invariant every handler keeps.
- `scenarios.dfy` (module `Scenarios`): event sequences chained through one `Server`: each handler's
  contract gives the next one what it requires.

Rooms refer to participants by id. Every score or turn change goes through the single
`participants` map. This is how the model keeps the source's aliasing. In the source, a room's
`players`, `host` and `dealer` are the same objects as the registry's entries, so an increment made
through a room shows up in the registry and in every other room. `disconnect` deletes the registry
entry, but rooms still seating the participant keep the object alive. So the model takes the id
out of `online` and keeps the record in `participants`.

Four things the code does not do, which the model therefore does not do either:
- It keeps no per-participant play history; `cast_vote` records nothing beyond the guess.
- It does not keep a room's `dealer` among its players: `leave_room` can leave the dealer pointing at
  someone no longer seated, so "the dealer is one of the players" is not part of `Valid()`.
- It does not stop more guesses than players arriving; only the round-ending comparison uses equality.
- It does not keep every chat log at ten entries or fewer: `leave_room` stores the client's room with
  whatever `chat` it carries. So the bound is stated per `SendMessage` call, not in `Valid()`.

## Model

| member | source | states |
|---|---|---|
| Scoring.CalculateWinner | index.js:22-47 | The one-pass scan returns exactly `ClosestGuesses`: the guesses with the minimal non-negative difference, in input order (its loop invariants track the scan's running minimum and winners on each prefix) |
| Scoring.MinDiff | index.js:25-36 | The running minimum difference, when there is one, is never negative: only guesses not over the target update it |
| Scoring.MinDiffIsMinimum | index.js:25-43 | There is no minimum exactly when every guess goes over the target; otherwise the minimum is attained by an eligible guess and no eligible guess is closer |
| Scoring.WithDiffCount | index.js:39-42 | Keeping the guesses with difference `d` keeps each such guess as often as it was cast, and no other guess |
| Scoring.ClosestSpec | index.js:22-47 | Each guess is a winner, with its full multiplicity, exactly when it does not go over and no eligible guess is closer; there are no winners exactly when every guess goes over |
| Scoring.ClosestHaveMinDiff | index.js:33-42 | Among the cast guesses, having the minimal difference is the same as being a closest eligible guess |
| Scoring.ClosestMembership | index.js:22-47 | A guess is among the winners exactly when it was cast and is a closest eligible guess |
| Scoring.WinnersShareDifference | index.js:33-42 | Winners never go over the target and all share one difference; every losing guess went over or is strictly further away |
| Scoring.ClosestIgnoresOrder | index.js:28-43 | Who wins, with multiplicities, does not depend on the order the guesses arrived in |
| Scoring.MinDiffStep | index.js:33-35 | One more guess updates the minimum only when it is eligible and strictly closer |
| Scoring.WithDiffStep | index.js:39-41 | One more guess joins the guesses with difference `d` exactly when its difference is `d` |
| Scoring.WithDiffEmpty | index.js:37 | When no guess has difference `d`, none is kept |
| Scoring.ClosestStep | index.js:33-42 | One more guess leaves the winners alone if it goes over, replaces them if strictly closer, joins them on a tie, and is ignored if further away |
| Scoring.ExampleRound | index.js:22-47 | With target 7.5 and guesses 7.0, 6.0 and 8.0, only the 7.0 guess wins (8.0 goes over, 6.0 is further) |
| Turns.FirstFewestTurns | index.js:295-310 | The scan returns a seat whose participant has no more turns than any other seat, and every earlier seat has strictly more turns |
| Turns.FirstFewestUnique | index.js:299-310 | The choice is deterministic: only one seat is the first with fewest turns |
| Turns.RotationKeepsBalance | index.js:294-312 | If no two players' turn counts differ by more than one, giving the extra turn to the chosen seat keeps it that way |
| RoomOps.RemoveById | index.js:177-181 | The departure scan loses only copies of the id and keeps the other seats in order. It removes at least one copy when there is one. When the id holds at most one seat, the result is the seat list without it |
| RoomOps.RemovalOutcome | index.js:177-181 | What the departure scan's invariant yields: its count of the id drops when the id is seated, it is exact removal for at most one seat, and it keeps no seat it did not have |
| RoomOps.WithoutCount | index.js:177-181 | Removing every copy of an id shortens the list by its count, leaves no copy, and keeps every other id's count |
| RoomOps.SpliceOut | index.js:179 | Splicing out one seat of an id leaves the other seats as they were, in order |
| RoomOps.WithoutSingle | index.js:178-179 | When the id holds exactly one seat, removing it is splicing out that seat |
| RoomOps.AppendChat | index.js:397-402 | The new message is last. The entries before it are the newest of the old log. The log grows by one until it holds ten, then keeps its length |
| RoomOps.ChatBounded | index.js:397-402 | A log of at most ten entries stays at most ten; a full log drops exactly its oldest entry |
| RoomOps.VotesByBound | index.js:269-271 | A participant's number of winning guesses is at most the number of winners, and positive exactly when one of the winners is theirs |
| RoomOps.ScoreGainStep | index.js:269-275 | Each further winning guess adds, to its author only, one point per seat they hold |
| RoomOps.AwardSeats | index.js:270-274 | The inner scan gives the winner's author one point per seat they hold and changes no other participant or field |
| RoomOps.AwardWinners | index.js:268-276 | The scoring loop gives each participant exactly `ScoreGain` points (winning guesses times seats held) and changes nothing else |
| RoomOps.ScoreGainDistinct | index.js:268-276 | When no one holds two seats, a player gains one point per winning guess and a non-player gains nothing |
| RoomOps.NoDuplicatesCount | index.js:270-271 | In a seat list without repeats, every id holds one seat or none |
| RoomOps.SubmultisetKnown | index.js:177-193 | A seat list drawn from a list of known participants refers only to known participants |
| Handlers.DefaultName | index.js:53 | The starting display name is a prefix of the connection id, five characters long or the whole id if shorter |
| Handlers.StoreRoom | index.js:103 | Storing a room that seats someone and refers only to known participants keeps the store invariant |
| Handlers.UpdateRecords | index.js:272 | Changing participants' scores, names or turns, without changing ids, keeps the store invariant |
| Handlers.Server.constructor | index.js:19-20 | The server starts with no participants, no connections and no rooms |
| Handlers.Server.Connect | index.js:51-56 | A fresh participant is registered and connected: named by `DefaultName`, no score, no turns; rooms unchanged |
| Handlers.Server.UpdateName | index.js:65-67 | Only the connected participant's name changes; rooms see it through the id |
| Handlers.Server.CreateRoom | index.js:77-103 | The room stored under the 32-character id is inactive, with the creator as only player and host. It has no dealer, movie, chat, guesses or winners. The creator's score is reset |
| Handlers.Server.JoinRoom | index.js:119-172 | The checks run in order: id length, existence, not started, password. Each failure gives its own message and changes nothing. Passing every check seats the joiner last, resets their score and gives "Joined room." |
| Handlers.Server.LeaveRoom | index.js:175-199 | The leaver's seats are taken out of the room sent by the client, others kept in order; at least one of the leaver's seats goes when they hold any, and exactly that seat when they hold only one. If no one is left the room is deleted. Otherwise the first remaining player becomes host, the room is stored back, and the new host is announced by name |
| Handlers.Server.StartGame | index.js:217-223 | The room becomes active, and the player at the drawn seat becomes dealer. No turn count changes |
| Handlers.Server.MovieSelected | index.js:236-241 | The movie becomes the round's target and is appended to the room's history |
| Handlers.Server.CastVote | index.js:254-290 | The guess is always appended. Before the last guess nothing else changes. On the guess that makes as many guesses as players, the winners are `ClosestGuesses` of all guesses and each participant gains `ScoreGain` points |
| Handlers.Server.EndRound | index.js:259-276 | The winners are computed and stored, and each participant gains exactly `ScoreGain` points; nothing else changes |
| Handlers.Server.AdvanceDealer | index.js:348-369 | The first player with the fewest turns becomes dealer and gains exactly one turn; no one else and nothing else in the room changes |
| Handlers.Server.NextRound | index.js:293-320 | Rotation as in `AdvanceDealer`, then the round's winners, guesses and movie are cleared |
| Handlers.Server.AssignDealer | index.js:341-346 | The dealer who let time run out gains one turn if still seated, once however many seats they hold; otherwise nothing changes |
| Handlers.Server.GameOver | index.js:391 | The room is deleted and nothing else changes |
| Handlers.Server.SendMessage | index.js:395-402 | The message is appended to the room's chat through `AppendChat`, so a log of at most ten entries stays at most ten |
| Handlers.Server.Disconnect | index.js:410-412 | The id leaves the connected set; its record and every room are kept |
| Scenarios.DisbandedRoomRejectsJoin | index.js:119-199 | After the only player leaves a room, joining it with the right password is rejected as an invalid room |
| Scenarios.OpenRound | index.js:77-256 | Create, join, start with seat 0 dealing, pick a movie rated 7.5, one guess: the round stays open and no one has scored or been charged a turn |
| Scenarios.RoundScenario | index.js:254-276 | The second of two guesses ends the round. The guess 7.0 beats 8.0 for a movie rated 7.5. Its author gains one point, the other player none |
| Scenarios.TwoGuessRound | index.js:22-47 | With target 7.5 and guesses 7.0 then 8.0, only the 7.0 guess wins |
| Scenarios.TwoPlayerGains | index.js:268-276 | With one seat each and A's guess the only winner, A gains one point and B none |
| Scenarios.RotationScenario | index.js:293-369 | Between two players with no turns, `next_round` picks the first. After that dealer's timeout penalty, the deferred rotation picks the second |

## Left out

- Transport: express, http, cors, Socket.io and the port listener (index.js:1-17, 420-423). This is wiring, not game logic.
- Emitted events are not modelled: room and stage updates, public-room lists, one-line notifications. Only two kinds of message are returned: the `join_room` outcome (`JoinRoom`'s note) and the new-host announcement of `leave_room` (`LeaveRoom`'s host note).
- `md5` is not modelled. `CreateRoom` takes the room id as a parameter of 32 characters, as an MD5 hex digest is.
- `Math.random` is not modelled. `StartGame` takes the drawn seat as a parameter below the number of players.
- The 3-second `setTimeout` of `assign_dealer` is not modelled as time. The penalty is `AssignDealer`, and the deferred step is a separate call of `AdvanceDealer`. Other events may run between the two calls.
- `parseFloat` and IEEE floating point are not modelled. Ratings and votes are exact real numbers, so rounding in the subtraction, `NaN` votes and numeric strings are not covered.
- Concurrency: the source runs on a single event loop, and each handler call is modelled as atomic.
- Handlers.Server.LeaveRoom: in the source the room value comes from the client, and its player objects are deserialized copies. The model re-links them to the registry by id. It also requires the client's room to name only known participants, and takes the new host's name from the registry.
- RoomOps.RemoveById: when the leaver holds two or more seats, only a partial result is stated. Some copies may survive, because the source's forward scan skips the element after each splice. The stated result: other seats are kept in order, at least one copy goes, and no seat is added.
- Handlers.Server.CastVote: requires the voter to be connected. The source stores a guess under an unconnected id with an undefined user; that guess still counts toward completing the round, and the source fails only if it is among the winners, when scoring reads its author's id. The model refuses such a vote even when it would lose.
- Handlers.Server.CastVote: requires a chosen movie whenever the vote completes the round. The source dereferences a null movie there.
- Handlers.Server.Connect: requires a connection id never seen before, as socket ids are.
- Handlers.Server.AdvanceDealer: requires the room to still exist. A deferred rotation firing after `game_over` or disbanding fails in the source.
- String lengths count Unicode characters, not UTF-16 code units as JavaScript's `length` and `substring` do. `JoinRoom`'s 32-character check and `DefaultName`'s five-character prefix therefore differ from the source for ids containing characters outside the Basic Multilingual Plane. Room ids are hex digests and connection ids are ASCII, so only a client-supplied room id stored by `leave_room` could be affected.
- Crash paths in all other handlers are stated as preconditions instead of behaviour: a missing room, a missing participant, a null dealer in `assign_dealer`.
- Source comments describe removing a disconnecting user from their games and handing over hosting. The code does neither, and neither does the model.
