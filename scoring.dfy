/** The scoring rule: the guesses closest to the target without going over it win, ties included. */
module Scoring {
  import opened Types

  /** How far a guess stays below the target; negative when the guess goes over. */
  function Diff(g: Guess, target: real): real {
    target - g.vote
  }

  /** Only guesses that do not exceed the target can win. */
  predicate Eligible(g: Guess, target: real) {
    Diff(g, target) >= 0.0
  }

  /** `g` does not exceed the target and no eligible guess of `gs` is closer to it. */
  ghost predicate IsClosest(gs: seq<Guess>, target: real, g: Guess) {
    Eligible(g, target) &&
    forall h :: h in gs && Eligible(h, target) ==> Diff(g, target) <= Diff(h, target)
  }

  /** The smallest difference among the eligible guesses, or None when every guess goes over. */
  function MinDiff(gs: seq<Guess>, target: real): (m: Option<real>)
    ensures m.Some? ==> m.value >= 0.0
    decreases |gs|
  {
    if gs == [] then None
    else
      var init, g := gs[..|gs| - 1], gs[|gs| - 1];
      assert gs == init + [g];
      var m0 := MinDiff(init, target);
      if !Eligible(g, target) then m0
      else if m0.None? || Diff(g, target) < m0.value then Some(Diff(g, target))
      else m0
  }

  /** MinDiff is None exactly when every guess goes over; otherwise it is attained by an eligible
      guess and no eligible guess has a smaller difference. */
  lemma {:induction false} MinDiffIsMinimum(gs: seq<Guess>, target: real)
    ensures MinDiff(gs, target).None? <==> forall h :: h in gs ==> !Eligible(h, target)
    ensures MinDiff(gs, target).Some? ==>
      exists h :: h in gs && Eligible(h, target) && Diff(h, target) == MinDiff(gs, target).value
    ensures MinDiff(gs, target).Some? ==>
      forall h :: h in gs && Eligible(h, target) ==> MinDiff(gs, target).value <= Diff(h, target)
    decreases |gs|
  {
    if gs != [] {
      var init, g := gs[..|gs| - 1], gs[|gs| - 1];
      assert gs == init + [g];
      MinDiffIsMinimum(init, target);
    }
  }

  /** The guesses of `gs` whose difference is exactly `d`, in input order. */
  function WithDiff(gs: seq<Guess>, target: real, d: real): seq<Guess>
    decreases |gs|
  {
    if gs == [] then []
    else
      var r0 := WithDiff(gs[..|gs| - 1], target, d);
      if Diff(gs[|gs| - 1], target) == d then r0 + [gs[|gs| - 1]] else r0
  }

  /** Filtering by difference keeps each guess with difference `d` as often as it occurs, and no other. */
  lemma {:induction false} WithDiffCount(gs: seq<Guess>, target: real, d: real)
    ensures forall x :: multiset(WithDiff(gs, target, d))[x] ==
                        if Diff(x, target) == d then multiset(gs)[x] else 0
    decreases |gs|
  {
    if gs != [] {
      var init, g := gs[..|gs| - 1], gs[|gs| - 1];
      assert gs == init + [g];
      WithDiffCount(init, target, d);
    }
  }

  /** The winners of a round: every guess with the minimal non-negative difference, in input order. */
  function ClosestGuesses(gs: seq<Guess>, target: real): seq<Guess> {
    match MinDiff(gs, target)
    case None => []
    case Some(d) => WithDiff(gs, target, d)
  }

  /** The winners are exactly the closest eligible guesses, each with its multiplicity in `gs`, and
      there are none exactly when every guess goes over the target. */
  lemma ClosestSpec(gs: seq<Guess>, target: real)
    ensures forall x :: multiset(ClosestGuesses(gs, target))[x] ==
                        if IsClosest(gs, target, x) then multiset(gs)[x] else 0
    ensures ClosestGuesses(gs, target) == [] <==> forall h :: h in gs ==> !Eligible(h, target)
  {
    var m := MinDiff(gs, target);
    MinDiffIsMinimum(gs, target);
    if m.Some? {
      WithDiffCount(gs, target, m.value);
      ClosestHaveMinDiff(gs, target, m.value);
      var h :| h in gs && Eligible(h, target) && Diff(h, target) == m.value;
      assert multiset(gs)[h] > 0;
      assert multiset(ClosestGuesses(gs, target))[h] > 0;
    }
  }

  /** Among the guesses of `gs`, having the minimal difference `d` is the same as being closest. */
  lemma ClosestHaveMinDiff(gs: seq<Guess>, target: real, d: real)
    requires MinDiff(gs, target) == Some(d)
    ensures forall x :: x in gs ==> (Diff(x, target) == d <==> IsClosest(gs, target, x))
  {
    MinDiffIsMinimum(gs, target);
    forall x | x in gs
      ensures Diff(x, target) == d <==> IsClosest(gs, target, x)
    {
      if IsClosest(gs, target, x) {
        var h :| h in gs && Eligible(h, target) && Diff(h, target) == d;
        assert Diff(x, target) <= d;
      }
    }
  }

  /** A guess is a winner exactly when it is in `gs` and no eligible guess is closer. */
  lemma ClosestMembership(gs: seq<Guess>, target: real, x: Guess)
    ensures x in ClosestGuesses(gs, target) <==> x in gs && IsClosest(gs, target, x)
  {
    ClosestSpec(gs, target);
    var r := ClosestGuesses(gs, target);
    assert x in r <==> multiset(r)[x] > 0;
    assert x in gs <==> multiset(gs)[x] > 0;
  }

  /** Every winner carries the same difference, and every loser either went over the target or
      is strictly further from it than the winners. */
  lemma WinnersShareDifference(gs: seq<Guess>, target: real, w: Guess, x: Guess)
    requires w in ClosestGuesses(gs, target) && x in gs
    ensures Eligible(w, target)
    ensures x in ClosestGuesses(gs, target) ==> Diff(x, target) == Diff(w, target)
    ensures x !in ClosestGuesses(gs, target) ==> !Eligible(x, target) || Diff(x, target) > Diff(w, target)
  {
    ClosestMembership(gs, target, w);
    ClosestMembership(gs, target, x);
  }

  /** Which guesses win, with their multiplicities, does not depend on the order they came in. */
  lemma ClosestIgnoresOrder(gs1: seq<Guess>, gs2: seq<Guess>, target: real)
    requires multiset(gs1) == multiset(gs2)
    ensures multiset(ClosestGuesses(gs1, target)) == multiset(ClosestGuesses(gs2, target))
  {
    forall h ensures h in gs1 <==> h in gs2 {
      assert h in gs1 <==> multiset(gs1)[h] > 0;
      assert h in gs2 <==> multiset(gs2)[h] > 0;
    }
    ClosestSpec(gs1, target);
    ClosestSpec(gs2, target);
    var r1, r2 := ClosestGuesses(gs1, target), ClosestGuesses(gs2, target);
    forall x ensures multiset(r1)[x] == multiset(r2)[x] {
      assert IsClosest(gs1, target, x) == IsClosest(gs2, target, x);
    }
  }

  /** Appending one guess extends the minimum as the scan over the guesses does. */
  lemma MinDiffStep(p: seq<Guess>, g: Guess, target: real)
    ensures MinDiff(p + [g], target) ==
      if !Eligible(g, target) then MinDiff(p, target)
      else if MinDiff(p, target).None? || Diff(g, target) < MinDiff(p, target).value then Some(Diff(g, target))
      else MinDiff(p, target)
  {
  }

  lemma WithDiffStep(p: seq<Guess>, g: Guess, target: real, d: real)
    ensures WithDiff(p + [g], target, d) ==
      if Diff(g, target) == d then WithDiff(p, target, d) + [g] else WithDiff(p, target, d)
  {
  }

  lemma WithDiffEmpty(gs: seq<Guess>, target: real, d: real)
    requires forall h :: h in gs ==> Diff(h, target) != d
    ensures WithDiff(gs, target, d) == []
  {
  }

  /** How the winners change when one more guess arrives: the one-pass scan is correct. */
  lemma ClosestStep(p: seq<Guess>, g: Guess, target: real)
    ensures ClosestGuesses(p + [g], target) ==
      if !Eligible(g, target) then ClosestGuesses(p, target)
      else if MinDiff(p, target).None? || Diff(g, target) < MinDiff(p, target).value then [g]
      else if Diff(g, target) == MinDiff(p, target).value then ClosestGuesses(p, target) + [g]
      else ClosestGuesses(p, target)
  {
    MinDiffStep(p, g, target);
    var m := MinDiff(p, target);
    var dg := Diff(g, target);
    if !Eligible(g, target) {
      if m.Some? {
        WithDiffStep(p, g, target, m.value);
      }
    } else if m.None? || dg < m.value {
      MinDiffIsMinimum(p, target);
      assert MinDiff(p + [g], target) == Some(dg);
      WithDiffStep(p, g, target, dg);
      WithDiffEmpty(p, target, dg);
      assert WithDiff(p + [g], target, dg) == [g];
    } else {
      assert MinDiff(p + [g], target) == m;
      WithDiffStep(p, g, target, m.value);
    }
  }

  /** The round's winner computation: one pass over the guesses, keeping the closest ones seen so far
      and their difference (None standing for an infinite difference before any eligible guess). */
  method CalculateWinner(guesses: seq<Guess>, target: real) returns (closestGuesses: seq<Guess>)
    ensures closestGuesses == ClosestGuesses(guesses, target)
  {
    closestGuesses := [];
    var minDifference: Option<real> := None;
    var i := 0;
    while i < |guesses|
      invariant 0 <= i <= |guesses|
      invariant minDifference == MinDiff(guesses[..i], target)
      invariant closestGuesses == ClosestGuesses(guesses[..i], target)
    {
      var g := guesses[i];
      var difference := target - g.vote;
      assert MinDiff(guesses[..i + 1], target) ==
        if !Eligible(g, target) then minDifference
        else if minDifference.None? || difference < minDifference.value then Some(difference)
        else minDifference
      by {
        assert guesses[..i + 1] == guesses[..i] + [g];
        MinDiffStep(guesses[..i], g, target);
      }
      assert ClosestGuesses(guesses[..i + 1], target) ==
        if !Eligible(g, target) then closestGuesses
        else if minDifference.None? || difference < minDifference.value then [g]
        else if difference == minDifference.value then closestGuesses + [g]
        else closestGuesses
      by {
        assert guesses[..i + 1] == guesses[..i] + [g];
        ClosestStep(guesses[..i], g, target);
      }
      if difference >= 0.0 && (minDifference.None? || difference < minDifference.value) {
        minDifference := Some(difference);
        closestGuesses := [g];
      } else if difference >= 0.0 && difference == minDifference.value {
        closestGuesses := closestGuesses + [g];
      }
      i := i + 1;
    }
    assert guesses[..i] == guesses;
  }

  /** A round with a target of 7.5 and guesses 7.0, 6.0 and 8.0: the 7.0 guess alone wins. */
  lemma ExampleRound()
    ensures ClosestGuesses([Guess("A", 7.0), Guess("B", 6.0), Guess("C", 8.0)], 7.5) == [Guess("A", 7.0)]
  {
    var a, b, c := Guess("A", 7.0), Guess("B", 6.0), Guess("C", 8.0);
    assert [] + [a] == [a];
    MinDiffStep([], a, 7.5);
    ClosestStep([], a, 7.5);
    MinDiffStep([a], b, 7.5);
    ClosestStep([a], b, 7.5);
    assert [a] + [b] == [a, b];
    ClosestStep([a, b], c, 7.5);
    assert [a, b] + [c] == [a, b, c];
  }
}
