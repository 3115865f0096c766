/** Dealer rotation: the next dealer is the first player, in list order, with the fewest turns. */
module Turns {
  import opened Types

  /** Every player id resolves to a participant record. */
  predicate Known(players: seq<Id>, people: map<Id, Participant>) {
    forall i :: 0 <= i < |players| ==> players[i] in people
  }

  /** `k` is the first position of `players` whose participant has the fewest turns. */
  predicate IsFirstFewest(players: seq<Id>, people: map<Id, Participant>, k: nat)
    requires Known(players, people)
  {
    k < |players| &&
    (forall j :: 0 <= j < |players| ==> people[players[k]].turns <= people[players[j]].turns) &&
    (forall j :: 0 <= j < k ==> people[players[j]].turns > people[players[k]].turns)
  }

  /** The position of the next dealer: a scan that switches only on a strictly smaller turn count. */
  method FirstFewestTurns(players: seq<Id>, people: map<Id, Participant>) returns (iteration: nat)
    requires |players| > 0 && Known(players, people)
    ensures IsFirstFewest(players, people, iteration)
  {
    var low: Option<Id> := None;
    iteration := 0;
    for i := 0 to |players|
      invariant iteration < |players| && iteration <= i
      invariant low.None? <==> i == 0
      invariant i > 0 ==> iteration < i && low == Some(players[iteration])
      invariant forall j :: 0 <= j < i ==> people[players[iteration]].turns <= people[players[j]].turns
      invariant forall j :: 0 <= j < iteration ==> people[players[j]].turns > people[players[iteration]].turns
    {
      if low.None? {
        low := Some(players[i]);
        iteration := i;
      } else if people[low.value].turns > people[players[i]].turns {
        low := Some(players[i]);
        iteration := i;
      }
    }
  }

  /** The choice is deterministic: at most one position is the first with the fewest turns. */
  lemma FirstFewestUnique(players: seq<Id>, people: map<Id, Participant>, k1: nat, k2: nat)
    requires Known(players, people)
    requires IsFirstFewest(players, people, k1) && IsFirstFewest(players, people, k2)
    ensures k1 == k2
  {
    assert people[players[k1]].turns <= people[players[k2]].turns;
    assert people[players[k2]].turns <= people[players[k1]].turns;
  }

  /** No two players' turn counts differ by more than one. */
  predicate Balanced(players: seq<Id>, people: map<Id, Participant>)
    requires Known(players, people)
  {
    forall i, j :: 0 <= i < |players| && 0 <= j < |players| ==>
      people[players[i]].turns <= people[players[j]].turns + 1
  }

  /** Giving the extra turn to the first player with the fewest turns keeps the turn counts balanced,
      so rotation never gives one player a second turn before every other player has had one. */
  lemma RotationKeepsBalance(players: seq<Id>, people: map<Id, Participant>, k: nat)
    requires Known(players, people) && Balanced(players, people) && IsFirstFewest(players, people, k)
    ensures var low := players[k];
            var after := people[low := people[low].(turns := people[low].turns + 1)];
            Known(players, after) && Balanced(players, after)
  {

  }
}
