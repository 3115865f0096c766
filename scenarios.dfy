/** Short sequences of events driven through the server, showing that the handlers' contracts chain:
    a disbanded room rejects newcomers, and a two-player round scores the closer guess. */
module Scenarios {
  import opened Types
  import opened Scoring
  import opened RoomOps
  import opened Turns
  import opened Handlers

  /** A room id of the right shape, as the 32-character digest of a connection id would be. */
  const RoomA := "0cc175b9c0f1b6a831c399e269772661"

  /** A creates a room and leaves it as its only player: the room is disbanded, and B's attempt to
      join it with the right password is turned away as an invalid room. */
  method DisbandedRoomRejectsJoin() returns (note: string)
    ensures note == InvalidRoom
  {
    var s := new Server();
    s.Connect("A");
    s.Connect("B");
    s.CreateRoom("A", "pw", RoomA);
    var remaining, hostNote := s.LeaveRoom("A", s.rooms[RoomA]);
    assert remaining == [];
    note := s.JoinRoom("B", RoomA, "pw");
  }

  /** B joins A's room, the game starts with A dealing, a movie rated 7.5 is picked and A guesses 7.0:
      one guess of two is in, so the round is still open and no one has scored. */
  method OpenRound() returns (s: Server)
    ensures fresh(s) && s.Valid() && RoomA in s.rooms && "A" in s.online && "B" in s.online
    ensures s.rooms[RoomA].players == ["A", "B"] && s.rooms[RoomA].dealer == Some("A")
    ensures s.rooms[RoomA].critMovie == Some(Movie(7.5)) && s.rooms[RoomA].guesses == [Guess("A", 7.0)]
    ensures "A" in s.participants && "B" in s.participants
    ensures s.participants["A"].score == 0 && s.participants["B"].score == 0
    ensures s.participants["A"].turns == 0 && s.participants["B"].turns == 0
  {
    s := new Server();
    s.Connect("A");
    s.Connect("B");
    s.CreateRoom("A", "pw", RoomA);
    var joined := s.JoinRoom("B", RoomA, "pw");
    assert s.rooms[RoomA].players == ["A", "B"] && s.rooms[RoomA].guesses == [];
    s.StartGame(RoomA, 0);
    s.MovieSelected(RoomA, Movie(7.5));
    s.CastVote("A", RoomA, 7.0);
  }

  /** B then guesses 8.0. The round ends on this second guess, A's guess alone wins, and only A scores. */
  method RoundScenario() returns (scoreA: nat, scoreB: nat, winners: seq<Guess>)
    ensures winners == [Guess("A", 7.0)]
    ensures scoreA == 1 && scoreB == 0
  {
    var s := OpenRound();
    TwoGuessRound();
    TwoPlayerGains();
    ghost var before := s.participants;
    assert [Guess("A", 7.0)] + [Guess("B", 8.0)] == [Guess("A", 7.0), Guess("B", 8.0)];
    s.CastVote("B", RoomA, 8.0);
    winners := s.rooms[RoomA].winners;
    assert s.participants["A"].score == before["A"].score + ScoreGain(winners, ["A", "B"], "A");
    scoreA, scoreB := s.participants["A"].score, s.participants["B"].score;
  }

  /** From the open round, `next_round` hands the deal to A, the first of two players with no turns yet.
      If A then lets the time run out, the penalty and the deferred rotation pass the deal to B. */
  method RotationScenario() returns (first: nat, second: nat, turnsA: nat, turnsB: nat)
    ensures first == 0 && second == 1
    ensures turnsA == 2 && turnsB == 1
  {
    var s := OpenRound();
    var players := s.rooms[RoomA].players;
    ghost var start := s.participants;
    assert IsFirstFewest(players, start, 0);
    first := s.NextRound(RoomA);
    FirstFewestUnique(players, start, first, 0);
    s.AssignDealer(RoomA);
    ghost var penalised := s.participants;
    assert penalised["A"].turns == 2 && penalised["B"].turns == 0;
    assert IsFirstFewest(players, penalised, 1);
    second := s.AdvanceDealer(RoomA);
    FirstFewestUnique(players, penalised, second, 1);
    turnsA, turnsB := s.participants["A"].turns, s.participants["B"].turns;
  }

  /** With the players seated once each and A's guess the only winner, A gains one point and B none. */
  lemma TwoPlayerGains()
    ensures ScoreGain([Guess("A", 7.0)], ["A", "B"], "A") == 1
    ensures ScoreGain([Guess("A", 7.0)], ["A", "B"], "B") == 0
  {
  }

  /** The winners of a round with target 7.5 where A guessed 7.0 and B guessed 8.0. */
  lemma TwoGuessRound()
    ensures ClosestGuesses([Guess("A", 7.0), Guess("B", 8.0)], 7.5) == [Guess("A", 7.0)]
  {
    var a, b := Guess("A", 7.0), Guess("B", 8.0);
    assert [] + [a] == [a];
    MinDiffStep([], a, 7.5);
    ClosestStep([], a, 7.5);
    ClosestStep([a], b, 7.5);
    assert [a] + [b] == [a, b];
  }
}
