/** Operations on the contents of one room: removing a player, the bounded chat log, vote counts. */
module RoomOps {
  import opened Types

  /** The chat log keeps at most this many entries. */
  const ChatCapacity := 10

  /** `s` with every occurrence of `x` taken out; the other elements keep their order. */
  function Without<T(==)>(s: seq<T>, x: T): seq<T> {
    if s == [] then []
    else (if s[0] == x then [] else [s[0]]) + Without(s[1..], x)
  }

  lemma {:induction false} WithoutConcat<T>(a: seq<T>, b: seq<T>, x: T)
    ensures Without(a + b, x) == Without(a, x) + Without(b, x)
    decreases |a|
  {
    if a != [] {
      assert (a + b)[1..] == a[1..] + b;
      WithoutConcat(a[1..], b, x);
    } else {
      assert a + b == b;
    }
  }

  lemma {:induction false} WithoutAbsent<T>(s: seq<T>, x: T)
    requires x !in s
    ensures Without(s, x) == s
    decreases |s|
  {
    if s != [] {
      WithoutAbsent(s[1..], x);
    }
  }

  /** When `x` occurs once, at position `i`, removing it leaves the others in their order. */
  lemma WithoutSingle<T>(s: seq<T>, x: T, i: nat)
    requires i < |s| && s[i] == x && multiset(s)[x] == 1
    ensures Without(s, x) == s[..i] + s[i + 1..]
  {
    var rest := s[..i] + s[i + 1..];
    assert s == s[..i] + [x] + s[i + 1..];
    assert multiset(rest)[x] == 0 by {
      assert multiset(s) == multiset(s[..i]) + multiset{x} + multiset(s[i + 1..]);
    }
    SpliceOut(s, i);
    WithoutAbsent(rest, x);
  }

  /** `Without` drops exactly the occurrences of `x`: the other elements keep their multiplicity. */
  lemma {:induction false} WithoutCount<T>(s: seq<T>, x: T)
    ensures |s| == |Without(s, x)| + multiset(s)[x]
    ensures multiset(Without(s, x))[x] == 0
    ensures forall y :: y != x ==> multiset(Without(s, x))[y] == multiset(s)[y]
    decreases |s|
  {
    if s != [] {
      assert s == [s[0]] + s[1..];
      WithoutCount(s[1..], x);
    }
  }

  /** Splicing out the element at `i` removes one occurrence of it and leaves the others in order. */
  lemma SpliceOut<T>(s: seq<T>, i: nat)
    requires i < |s|
    ensures Without(s[..i] + s[i + 1..], s[i]) == Without(s, s[i])
  {
    var x, a, b := s[i], s[..i], s[i + 1..];
    assert s == a + ([x] + b);
    calc {
      Without(s, x);
    == { WithoutConcat(a, [x] + b, x); }
      Without(a, x) + Without([x] + b, x);
    == { assert ([x] + b)[1..] == b; }
      Without(a, x) + Without(b, x);
    == { WithoutConcat(a, b, x); }
      Without(a + b, x);
    }
  }

  /** The departure scan of `leave_room`: walk the list forward and splice out each element equal to
      `id`; as in `leave_room`'s loop the index still advances after a splice, so the element that moved
      into the freed slot is not examined. Every other element survives in order, at least one occurrence
      of `id` is removed when there is one, and when there is at most one the result is exactly `Without`. */
  method RemoveById(players: seq<Id>, id: Id) returns (rest: seq<Id>)
    ensures Without(rest, id) == Without(players, id)
    ensures multiset(players)[id] > 0 ==> multiset(rest)[id] < multiset(players)[id]
    ensures multiset(players)[id] <= 1 ==> rest == Without(players, id)
    ensures multiset(rest) <= multiset(players)
  {
    rest := players;
    ghost var removed := false;
    var i := 0;
    while i < |rest|
      invariant 0 <= i <= |rest| + 1
      invariant Without(rest, id) == Without(players, id)
      invariant |rest| <= |players|
      invariant !removed ==> rest == players && i <= |players| && id !in players[..i]
      invariant removed ==> |rest| < |players|
      decreases |rest| + 1 - i
    {
      if rest[i] == id {
        SpliceOut(rest, i);
        rest := rest[..i] + rest[i + 1..];
        removed := true;
      } else {
        assert !removed ==> players[..i + 1] == players[..i] + [players[i]];
      }
      i := i + 1;
    }
    if !removed {
      assert players[..i] == players;
    }
    RemovalOutcome(players, rest, id);
  }

  /** What the departure scan guarantees, from its loop invariant: losing only occurrences of `id`,
      and at least one of them unless there was none. */
  lemma RemovalOutcome(players: seq<Id>, rest: seq<Id>, id: Id)
    requires Without(rest, id) == Without(players, id)
    requires |rest| <= |players|
    requires |rest| == |players| ==> id !in players
    ensures multiset(players)[id] > 0 ==> multiset(rest)[id] < multiset(players)[id]
    ensures multiset(players)[id] <= 1 ==> rest == Without(players, id)
    ensures multiset(rest) <= multiset(players)
  {
    WithoutCount(rest, id);
    WithoutCount(players, id);
    if multiset(players)[id] <= 1 {
      assert id !in rest by {
        assert multiset(rest)[id] == 0;
      }
      WithoutAbsent(rest, id);
    }
  }

  /** Append a message to a chat log, dropping the single oldest entry when the log then holds more
      than ten. The new message is last and the entries before it are the newest of the old log. */
  function AppendChat(chat: seq<ChatEntry>, e: ChatEntry): (r: seq<ChatEntry>)
    ensures |r| == if |chat| >= ChatCapacity then |chat| else |chat| + 1
    ensures r[|r| - 1] == e
    ensures r[..|r| - 1] == chat[|chat| + 1 - |r|..]
  {
    var pushed := chat + [e];
    if |pushed| > ChatCapacity then pushed[1..] else pushed
  }

  /** A log of at most ten entries stays at most ten; once full, an append evicts exactly the oldest. */
  lemma ChatBounded(chat: seq<ChatEntry>, e: ChatEntry)
    requires |chat| <= ChatCapacity
    ensures |AppendChat(chat, e)| <= ChatCapacity
    ensures |chat| == ChatCapacity ==> AppendChat(chat, e) == chat[1..] + [e]
  {
  }

  /** How many of the guesses `ws` were cast by `p`. */
  function VotesBy(ws: seq<Guess>, p: Id): nat
    decreases |ws|
  {
    if ws == [] then 0
    else VotesBy(ws[..|ws| - 1], p) + (if ws[|ws| - 1].user == p then 1 else 0)
  }

  lemma {:induction false} VotesByBound(ws: seq<Guess>, p: Id)
    ensures VotesBy(ws, p) <= |ws|
    ensures VotesBy(ws, p) > 0 <==> exists i :: 0 <= i < |ws| && ws[i].user == p
    decreases |ws|
  {
    if ws != [] {
      var init := ws[..|ws| - 1];
      VotesByBound(init, p);
      if VotesBy(init, p) > 0 {
        var i :| 0 <= i < |init| && init[i].user == p;
        assert ws[i].user == p;
      }
      forall i | 0 <= i < |init| ensures init[i] == ws[i] { }
    }
  }

  /** What a participant `p` gains when a round ends with `winners`: one point per winning guess of theirs
      for every position they hold in `players`. */
  function ScoreGain(winners: seq<Guess>, players: seq<Id>, p: Id): nat {
    VotesBy(winners, p) * multiset(players)[p]
  }

  /** One more winning guess adds the seats its author holds to that author's gain. */
  lemma ScoreGainStep(winners: seq<Guess>, i: nat, players: seq<Id>, p: Id)
    requires i < |winners|
    ensures ScoreGain(winners[..i + 1], players, p) ==
            ScoreGain(winners[..i], players, p) + if winners[i].user == p then multiset(players)[p] else 0
  {
    assert winners[..i + 1][..i] == winners[..i];
    var v, m := VotesBy(winners[..i], p), multiset(players)[p];
    if winners[i].user == p {
      assert VotesBy(winners[..i + 1], p) == v + 1;
      assert (v + 1) * m == v * m + m;
    } else {
      assert VotesBy(winners[..i + 1], p) == v;
    }
  }

  /** Ids drawn from a list of known ids are known. */
  lemma SubmultisetKnown(a: seq<Id>, b: seq<Id>, known: set<Id>)
    requires multiset(a) <= multiset(b)
    requires forall j :: 0 <= j < |b| ==> b[j] in known
    ensures forall i :: 0 <= i < |a| ==> a[i] in known
  {
    forall i | 0 <= i < |a| ensures a[i] in known {
      assert a[i] in multiset(a);
      assert a[i] in b;
    }
  }

  /** The inner scan of the scoring loop: every seat whose id is the author of the winning guess `w`
      earns that participant one point. */
  method AwardSeats(people: map<Id, Participant>, w: Guess, players: seq<Id>) returns (after: map<Id, Participant>)
    requires forall i :: 0 <= i < |players| ==> players[i] in people
    ensures after.Keys == people.Keys
    ensures forall p :: p in people ==>
      after[p] == people[p].(score := people[p].score + if w.user == p then multiset(players)[p] else 0)
  {
    after := people;
    for j := 0 to |players|
      invariant after.Keys == people.Keys
      invariant forall p :: p in people ==>
        after[p] == people[p].(score := people[p].score + if w.user == p then multiset(players[..j])[p] else 0)
    {
      assert players[..j + 1] == players[..j] + [players[j]];
      if w.user == players[j] {
        var q := after[players[j]];
        after := after[players[j] := q.(score := q.score + 1)];
      }
    }
    assert players[..|players|] == players;
  }

  /** The scoring loop of a finished round: each participant gains `ScoreGain` points, nothing else
      about any participant changes. */
  method AwardWinners(people: map<Id, Participant>, winners: seq<Guess>, players: seq<Id>)
    returns (after: map<Id, Participant>)
    requires forall i :: 0 <= i < |players| ==> players[i] in people
    ensures after.Keys == people.Keys
    ensures forall p :: p in people ==>
      after[p] == people[p].(score := people[p].score + ScoreGain(winners, players, p))
  {
    after := people;
    for i := 0 to |winners|
      invariant after.Keys == people.Keys
      invariant forall p :: p in people ==>
        after[p] == people[p].(score := people[p].score + ScoreGain(winners[..i], players, p))
    {
      forall p | p in people {
        ScoreGainStep(winners, i, players, p);
      }
      after := AwardSeats(after, winners[i], players);
    }
    assert winners[..|winners|] == winners;
  }

  /** No id occurs twice. */
  predicate NoDuplicates(s: seq<Id>) {
    forall i, j :: 0 <= i < j < |s| ==> s[i] != s[j]
  }

  /** In a list without duplicates every id occurs once or not at all. */
  lemma {:induction false} NoDuplicatesCount(s: seq<Id>, x: Id)
    requires NoDuplicates(s)
    ensures multiset(s)[x] == if x in s then 1 else 0
    decreases |s|
  {
    if s != [] {
      assert s == [s[0]] + s[1..];
      assert NoDuplicates(s[1..]) by {
        forall i, j | 0 <= i < j < |s[1..]| ensures s[1..][i] != s[1..][j] {
          assert s[1..][i] == s[i + 1] && s[1..][j] == s[j + 1];
        }
      }
      NoDuplicatesCount(s[1..], x);
      if s[0] == x {
        assert x !in s[1..] by {
          forall k | 0 <= k < |s[1..]| ensures s[1..][k] != x {
            assert s[1..][k] == s[k + 1];
          }
        }
      }
    }
  }

  /** When no one holds two seats, a player gains one point per winning guess and a non-player nothing. */
  lemma ScoreGainDistinct(winners: seq<Guess>, players: seq<Id>, p: Id)
    requires NoDuplicates(players)
    ensures ScoreGain(winners, players, p) == if p in players then VotesBy(winners, p) else 0
  {
    NoDuplicatesCount(players, p);
  }
}
