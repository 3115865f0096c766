/** The event handlers of the game server, as state changes on the participant registry and the
    room store. Rooms refer to participants by id and every handler resolves ids through the one
    `participants` map, so a score or turn change made through a room is the registry's change. */
module Handlers {
  import opened Types
  import opened Scoring
  import opened Turns
  import opened RoomOps

  const InvalidRoom := "Invalid room."
  const GameAlreadyStarted := "Game already started."
  const InvalidPassword := "Invalid password."
  const JoinedRoom := "Joined room."
  const NewHostPrefix := "New host assigned: "

  /** The display name a participant starts with: the first five characters of the connection id. */
  function DefaultName(sid: Id): (n: string)
    ensures n <= sid
    ensures |n| == if |sid| < 5 then |sid| else 5
  {
    if |sid| <= 5 then sid else sid[..5]
  }

  /** Every participant a room refers to is one of `known`. */
  predicate RoomRefsIn(r: Room, known: set<Id>) {
    (forall i :: 0 <= i < |r.players| ==> r.players[i] in known) &&
    r.host in known &&
    (r.dealer.Some? ==> r.dealer.value in known)
  }

  /** The store's invariant: connected ids have records, each record sits under its own id, and every
      stored room sits under its own id, seats someone, and refers only to known participants. */
  predicate Consistent(participants: map<Id, Participant>, online: set<Id>, rooms: map<Id, Room>) {
    online <= participants.Keys &&
    (forall p :: p in participants ==> participants[p].id == p) &&
    (forall k :: k in rooms ==>
      rooms[k].id == k && |rooms[k].players| > 0 && RoomRefsIn(rooms[k], participants.Keys))
  }

  /** Storing a well-formed room keeps the invariant. */
  lemma StoreRoom(participants: map<Id, Participant>, online: set<Id>, rooms: map<Id, Room>, r: Room)
    requires Consistent(participants, online, rooms)
    requires |r.players| > 0 && RoomRefsIn(r, participants.Keys)
    ensures Consistent(participants, online, rooms[r.id := r])
  {
  }

  /** Changing participants' scores, names or turns, but no ids, keeps the invariant. */
  lemma UpdateRecords(participants: map<Id, Participant>, updated: map<Id, Participant>, online: set<Id>, rooms: map<Id, Room>)
    requires Consistent(participants, online, rooms)
    requires updated.Keys == participants.Keys
    requires forall p :: p in updated ==> updated[p].id == participants[p].id
    ensures Consistent(updated, online, rooms)
  {
  }

  class Server {
    /** The participant records, by connection id. A record is kept after its connection
        closes, since rooms may still refer to it. */
    var participants: map<Id, Participant>
    /** The ids of the connected participants (the registry's keys). */
    var online: set<Id>
    /** The room store, by room id. */
    var rooms: map<Id, Room>

    ghost predicate Valid()
      reads this
    {
      Consistent(participants, online, rooms)
    }

    constructor ()
      ensures Valid()
      ensures participants == map[] && online == {} && rooms == map[]
    {
      participants, online, rooms := map[], {}, map[];
    }

    /** `connection`: register a fresh participant with no score and no turns. */
    method Connect(sid: Id)
      requires Valid() && sid !in participants
      modifies this
      ensures Valid()
      ensures participants == old(participants)[sid := Participant(sid, DefaultName(sid), 0, 0)]
      ensures online == old(online) + {sid} && rooms == old(rooms)
    {
      participants := participants[sid := Participant(sid, DefaultName(sid), 0, 0)];
      online := online + {sid};
    }

    /** `update_name`: rename a connected participant; rooms see the new name through the id. */
    method UpdateName(id: Id, name: string)
      requires Valid() && id in online
      modifies this
      ensures Valid()
      ensures participants == old(participants)[id := old(participants)[id].(name := name)]
      ensures online == old(online) && rooms == old(rooms)
    {
      participants := participants[id := participants[id].(name := name)];
    }

    /** `create_room`: store a new, inactive room under `roomId` (the digest of the creator's id) with the
        creator as its only player and host, and reset the creator's score. An earlier room under the
        same id is replaced. */
    method CreateRoom(id: Id, password: string, roomId: Id)
      requires Valid() && id in online && |roomId| == 32
      modifies this
      ensures Valid()
      ensures rooms == old(rooms)[roomId := Room(roomId, password, false, id, [id], [], None, None, [], [], [])]
      ensures participants == old(participants)[id := old(participants)[id].(score := 0)]
      ensures online == old(online)
    {
      var room := Room(roomId, password, false, id, [id], [], None, None, [], [], []);
      participants := participants[id := participants[id].(score := 0)];
      rooms := rooms[roomId := room];
    }

    /** `join_room`: the checks run in order (id shape, existence, not started, password); a rejection
        changes nothing, a success seats the joiner last and resets their score. */
    method JoinRoom(id: Id, room: Id, password: string) returns (note: string)
      requires Valid()
      requires |room| == 32 && room in rooms && !rooms[room].active && rooms[room].password == password
               ==> id in online
      modifies this
      ensures Valid() && online == old(online)
      ensures |room| != 32 ==> note == InvalidRoom
      ensures |room| == 32 && room !in old(rooms) ==> note == InvalidRoom
      ensures |room| == 32 && room in old(rooms) && old(rooms)[room].active ==> note == GameAlreadyStarted
      ensures (|room| == 32 && room in old(rooms) && !old(rooms)[room].active &&
               old(rooms)[room].password != password) ==> note == InvalidPassword
      ensures (|room| == 32 && room in old(rooms) && !old(rooms)[room].active &&
               old(rooms)[room].password == password) ==> note == JoinedRoom
      ensures note != JoinedRoom ==> rooms == old(rooms) && participants == old(participants)
      ensures note == JoinedRoom ==>
        |room| == 32 && room in old(rooms) && !old(rooms)[room].active &&
        old(rooms)[room].password == password &&
        rooms == old(rooms)[room := old(rooms)[room].(players := old(rooms)[room].players + [id])] &&
        participants == old(participants)[id := old(participants)[id].(score := 0)]
    {
      if |room| != 32 {
        return InvalidRoom;
      }
      if room in rooms {
        if !rooms[room].active {
          if rooms[room].password == password {
            var r := rooms[room];
            rooms := rooms[room := r.(players := r.players + [id])];
            participants := participants[id := participants[id].(score := 0)];
            note := JoinedRoom;
          } else {
            note := InvalidPassword;
          }
        } else {
          note := GameAlreadyStarted;
        }
      } else {
        note := InvalidRoom;
      }
    }

    /** `leave_room`: take `id` out of the room the client sent, then disband the room if no one is left,
        or else make the first remaining player host and store the room back under its id. */
    method LeaveRoom(id: Id, room: Room) returns (remaining: seq<Id>, hostNote: Option<string>)
      requires Valid() && RoomRefsIn(room, participants.Keys)
      modifies this
      ensures Valid() && participants == old(participants) && online == old(online)
      ensures Without(remaining, id) == Without(room.players, id)
      ensures multiset(room.players)[id] <= 1 ==> remaining == Without(room.players, id)
      ensures multiset(room.players)[id] > 0 ==> multiset(remaining)[id] < multiset(room.players)[id]
      ensures remaining == [] ==> rooms == old(rooms) - {room.id} && hostNote == None
      ensures multiset(remaining) <= multiset(room.players)
      ensures remaining != [] ==>
        remaining[0] in participants &&
        rooms == old(rooms)[room.id := room.(players := remaining, host := remaining[0])] &&
        hostNote == Some(NewHostPrefix + participants[remaining[0]].name)
    {
      remaining := RemoveById(room.players, id);
      if |remaining| == 0 {
        rooms := rooms - {room.id};
        hostNote := None;
      } else {
        SubmultisetKnown(remaining, room.players, participants.Keys);
        var stored := room.(players := remaining, host := remaining[0]);
        StoreRoom(participants, online, rooms, stored);
        rooms := rooms[room.id := stored];
        hostNote := Some(NewHostPrefix + participants[remaining[0]].name);
      }
    }

    /** `start_game`: mark the room active and make the player at position `random` (the random draw)
        dealer; no turn count changes. */
    method StartGame(roomId: Id, random: nat)
      requires Valid() && roomId in rooms && random < |rooms[roomId].players|
      modifies this
      ensures Valid() && participants == old(participants) && online == old(online)
      ensures rooms == old(rooms)[roomId := old(rooms)[roomId].(
                active := true, dealer := Some(old(rooms)[roomId].players[random]))]
    {
      var r := rooms[roomId];
      rooms := rooms[roomId := r.(active := true, dealer := Some(r.players[random]))];
    }

    /** `movie_selected`: the movie becomes the round's target and is added to the room's history. */
    method MovieSelected(roomId: Id, movie: Movie)
      requires Valid() && roomId in rooms
      modifies this
      ensures Valid() && participants == old(participants) && online == old(online)
      ensures rooms == old(rooms)[roomId := old(rooms)[roomId].(
                critMovie := Some(movie), movies := old(rooms)[roomId].movies + [movie])]
    {
      var r := rooms[roomId];
      rooms := rooms[roomId := r.(critMovie := Some(movie), movies := r.movies + [movie])];
    }

    /** `cast_vote`: record the guess; when there are as many guesses as players the round ends
        (`EndRound`). Otherwise no score changes. */
    method CastVote(id: Id, roomId: Id, vote: real)
      requires Valid() && roomId in rooms && id in online
      requires |rooms[roomId].guesses| + 1 == |rooms[roomId].players| ==> rooms[roomId].critMovie.Some?
      modifies this
      ensures Valid() && online == old(online)
      ensures var r := old(rooms)[roomId];
              var gs := r.guesses + [Guess(id, vote)];
              |gs| != |r.players| ==>
                rooms == old(rooms)[roomId := r.(guesses := gs)] && participants == old(participants)
      ensures var r := old(rooms)[roomId];
              var gs := r.guesses + [Guess(id, vote)];
              |gs| == |r.players| ==>
                var ws := ClosestGuesses(gs, r.critMovie.value.imdbRating);
                rooms == old(rooms)[roomId := r.(guesses := gs, winners := ws)] &&
                participants.Keys == old(participants).Keys &&
                forall p :: p in participants ==>
                  participants[p] == old(participants)[p].(score := old(participants)[p].score + ScoreGain(ws, r.players, p))
    {
      var r := rooms[roomId];
      r := r.(guesses := r.guesses + [Guess(id, vote)]);
      StoreRoom(participants, online, rooms, r);
      rooms := rooms[roomId := r];
      if |r.guesses| == |r.players| {
        EndRound(roomId);
      }
    }

    /** The end of a round in `cast_vote`: the winners are computed and stored, and each participant
        gains `ScoreGain` points; nothing else changes. */
    method EndRound(roomId: Id)
      requires Valid() && roomId in rooms && rooms[roomId].critMovie.Some?
      modifies this
      ensures Valid() && online == old(online)
      ensures var r := old(rooms)[roomId];
              var ws := ClosestGuesses(r.guesses, r.critMovie.value.imdbRating);
              rooms == old(rooms)[roomId := r.(winners := ws)] &&
              participants.Keys == old(participants).Keys &&
              forall p :: p in participants ==>
                participants[p] == old(participants)[p].(score := old(participants)[p].score + ScoreGain(ws, r.players, p))
    {
      var r := rooms[roomId];
      var winners := CalculateWinner(r.guesses, r.critMovie.value.imdbRating);
      r := r.(winners := winners);
      StoreRoom(participants, online, rooms, r);
      rooms := rooms[roomId := r];
      var awarded := AwardWinners(participants, winners, r.players);
      UpdateRecords(participants, awarded, online, rooms);
      participants := awarded;
    }

    /** Dealer rotation, shared by `next_round` and by the deferred half of `assign_dealer`: the first
        player with the fewest turns becomes dealer and gains one turn; nothing else changes. */
    method AdvanceDealer(roomId: Id) returns (iteration: nat)
      requires Valid() && roomId in rooms
      modifies this
      ensures Valid() && online == old(online)
      ensures var ps := old(rooms)[roomId].players;
              iteration < |ps| && IsFirstFewest(ps, old(participants), iteration) &&
              participants == old(participants)[ps[iteration] :=
                old(participants)[ps[iteration]].(turns := old(participants)[ps[iteration]].turns + 1)] &&
              rooms == old(rooms)[roomId := old(rooms)[roomId].(dealer := Some(ps[iteration]))]
    {
      var r := rooms[roomId];
      iteration := FirstFewestTurns(r.players, participants);
      var low := r.players[iteration];
      participants := participants[low := participants[low].(turns := participants[low].turns + 1)];
      rooms := rooms[roomId := r.(dealer := Some(low))];
    }

    /** `next_round`: rotate the dealer, then clear the round's winners, guesses and movie. */
    method NextRound(roomId: Id) returns (iteration: nat)
      requires Valid() && roomId in rooms
      modifies this
      ensures Valid() && online == old(online)
      ensures var ps := old(rooms)[roomId].players;
              iteration < |ps| && IsFirstFewest(ps, old(participants), iteration) &&
              participants == old(participants)[ps[iteration] :=
                old(participants)[ps[iteration]].(turns := old(participants)[ps[iteration]].turns + 1)] &&
              rooms == old(rooms)[roomId := old(rooms)[roomId].(
                dealer := Some(ps[iteration]), winners := [], guesses := [], critMovie := None)]
    {
      iteration := AdvanceDealer(roomId);
      var r := rooms[roomId];
      rooms := rooms[roomId := r.(winners := [], guesses := [], critMovie := None)];
    }

    /** `assign_dealer`, first half: the dealer who let the time run out is charged one extra turn,
        on the first seat holding the dealer's id. The deferred half is `AdvanceDealer`. */
    method AssignDealer(roomId: Id)
      requires Valid() && roomId in rooms && rooms[roomId].dealer.Some?
      modifies this
      ensures Valid() && online == old(online) && rooms == old(rooms)
      ensures var d := old(rooms)[roomId].dealer.value;
              participants == if d in old(rooms)[roomId].players
                              then old(participants)[d := old(participants)[d].(turns := old(participants)[d].turns + 1)]
                              else old(participants)
    {
      var r := rooms[roomId];
      var d := r.dealer.value;
      var i := 0;
      while i < |r.players|
        invariant 0 <= i <= |r.players|
        invariant d !in r.players[..i]
        invariant participants == old(participants)
      {
        if d == r.players[i] {
          participants := participants[r.players[i] := participants[r.players[i]].(turns := participants[r.players[i]].turns + 1)];
          break;
        }
        assert r.players[..i + 1] == r.players[..i] + [r.players[i]];
        i := i + 1;
      }
      assert i == |r.players| ==> r.players[..i] == r.players;
    }

    /** `game_over`: delete the room. */
    method GameOver(roomId: Id)
      requires Valid()
      modifies this
      ensures Valid() && participants == old(participants) && online == old(online)
      ensures rooms == old(rooms) - {roomId}
    {
      rooms := rooms - {roomId};
    }

    /** `send_message`: append to the room's chat log, which keeps only the ten newest entries. */
    method SendMessage(roomId: Id, name: string, message: string)
      requires Valid() && roomId in rooms
      modifies this
      ensures Valid() && participants == old(participants) && online == old(online)
      ensures rooms == old(rooms)[roomId := old(rooms)[roomId].(
                chat := AppendChat(old(rooms)[roomId].chat, ChatEntry(name, message)))]
      ensures |old(rooms)[roomId].chat| <= ChatCapacity ==> |rooms[roomId].chat| <= ChatCapacity
    {
      var r := rooms[roomId];
      rooms := rooms[roomId := r.(chat := AppendChat(r.chat, ChatEntry(name, message)))];
    }

    /** `disconnect`: drop the id from the registry. Rooms that still seat the participant keep
        referring to their record. */
    method Disconnect(sid: Id)
      requires Valid()
      modifies this
      ensures Valid() && participants == old(participants) && rooms == old(rooms)
      ensures online == old(online) - {sid}
    {
      online := online - {sid};
    }
  }
}
