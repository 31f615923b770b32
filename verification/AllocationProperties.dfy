/** What the allocation policies guarantee for one call and over runs of comparable calls. */
module AllocationProperties {
  import opened Prelude
  import opened Ranking
  import opened Sums
  import opened Allocation

  // ----- transition cost -----

  lemma DifferenceTriangle<T>(a: set<T>, b: set<T>, c: set<T>)
    ensures |c - a| <= |c - b| + |b - a|
  {
    SmallerSubset(c - a, (c - b) + (b - a));
    UnionBound(c - b, b - a);
  }

  lemma UnionBound<T>(a: set<T>, b: set<T>)
    ensures |a + b| <= |a| + |b|
  {
  }

  lemma AdditionsTriangle(x: map<nat, set<nat>>, y: map<nat, set<nat>>, z: map<nat, set<nat>>)
    ensures Additions(x, z) <= Additions(x, y) + Additions(y, z)
  {
    DifferenceTriangle(AllGroups(x), AllGroups(y), AllGroups(z));
    DifferenceTriangle(Unmapped(x), Unmapped(y), Unmapped(z));
  }

  lemma NoAdditions(x: map<nat, set<nat>>)
    ensures Additions(x, x) == 0
  {
  }

  /** Going through an intermediate set never costs less than going there directly. */
  lemma CostTriangle(p: Policy, x: map<nat, set<nat>>, y: map<nat, set<nat>>, z: map<nat, set<nat>>)
    requires ValidPolicy(p)
    ensures TransitionCost(p, x, z) <= TransitionCost(p, x, y) + TransitionCost(p, y, z)
    ensures TransitionCost(p, x, x) == 0.0 && TransitionCost(p, x, z) >= 0.0
  {
    AdditionsTriangle(x, y, z);
    AdditionsTriangle(z, y, x);
    NoAdditions(x);
    CostFromCounts(p, Additions(x, z), Additions(z, x), Additions(x, y), Additions(y, x), Additions(y, z), Additions(z, y));
    hide Additions;
  }

  lemma CostFromCounts(p: Policy, a: nat, r: nat, a1: nat, r1: nat, a2: nat, r2: nat)
    requires ValidPolicy(p) && a <= a1 + a2 && r <= r1 + r2
    ensures Priced(p, 0, 0) == 0.0 <= Priced(p, a, r) <= Priced(p, a1, r1) + Priced(p, a2, r2)
  {
    Weighted(p.switchPenalty, p.warmUpCost, a, r, a1, r1, a2, r2);
  }

  lemma Weighted(s: real, w: real, a: nat, r: nat, a1: nat, r1: nat, a2: nat, r2: nat)
    requires s >= 0.0 && w >= 0.0 && a <= a1 + a2 && r <= r1 + r2
    ensures 0.0 <= s * (a + r) as real + w * a as real
    ensures s * (a + r) as real + w * a as real <=
      (s * (a1 + r1) as real + w * a1 as real) + (s * (a2 + r2) as real + w * a2 as real)
  {
    var x, y := (a + r) as real, (a1 + r1 + a2 + r2) as real;
    assert s * x <= s * y;
    assert w * a as real <= w * (a1 + a2) as real;
    assert s * y == s * (a1 + r1) as real + s * (a2 + r2) as real;
    assert w * (a1 + a2) as real == w * a1 as real + w * a2 as real;
  }

  // ----- the cost-aware loop -----

  /** A loop of the cost-aware policy: its listing, its turns, starting within the k slots. */
  ghost predicate Loop(c: Choice, ordered: seq<nat>, turns: seq<set<nat>>) {
    && c.Valid() && Listing(c.eligible.Keys, c.BetterOrder(), ordered)
    && GreedyRun(c, ordered, turns)
    && turns[0] <= c.prior.Keys * c.eligible.Keys && |turns[0]| <= c.policy.k
  }

  lemma TurnKeepsHeld(c: Choice, chosen: set<nat>, a: nat, next: set<nat>, h: nat)
    requires GreedyTurn(c, chosen, a, next) && h in chosen && c.Held(h)
    ensures h in next
  {
  }

  /** A held incumbent is never evicted. */
  lemma {:induction false} HeldNeverEvicted(c: Choice, ordered: seq<nat>, turns: seq<set<nat>>, h: nat, i: nat)
    requires GreedyRun(c, ordered, turns) && h in turns[0] && c.Held(h) && i <= |ordered|
    ensures h in turns[i]
  {
    if i > 0 {
      HeldNeverEvicted(c, ordered, turns, h, i - 1);
      TurnKeepsHeld(c, turns[i - 1], ordered[i - 1], turns[i], h);
    }
  }

  lemma TurnSize(c: Choice, chosen: set<nat>, a: nat, next: set<nat>)
    requires GreedyTurn(c, chosen, a, next) && |chosen| <= c.policy.k
    ensures |chosen| <= |next| <= c.policy.k
    ensures |chosen| < c.policy.k ==> next == chosen + {a}
  {
  }

  /** Slots fill one at a time and never exceed k. */
  lemma {:induction false} SizeWithinK(c: Choice, ordered: seq<nat>, turns: seq<set<nat>>, i: nat)
    requires GreedyRun(c, ordered, turns) && |turns[0]| <= c.policy.k && i <= |ordered|
    ensures |turns[i]| <= c.policy.k
    ensures forall j :: 0 <= j < i ==> |turns[j]| <= |turns[i]|
  {
    if i > 0 {
      SizeWithinK(c, ordered, turns, i - 1);
      TurnSize(c, turns[i - 1], ordered[i - 1], turns[i]);
    }
  }

  /** What a full turn can do: nothing, or swap the weakest removable member for a gain above the cost. */
  lemma FullTurn(c: Choice, chosen: set<nat>, a: nat, next: set<nat>) returns (r: nat)
    requires c.Valid() && GreedyTurn(c, chosen, a, next) && |chosen| == c.policy.k && next != chosen
    ensures a !in chosen && IsWeakest(c, chosen, r) && next == chosen - {r} + {a}
    ensures c.Score(a) - c.Score(r) > 100.0 * c.SwapCost(chosen, next) >= 0.0
  {
    r :| IsWeakest(c, chosen, r) && WorthSwapping(c, chosen, a, r) && next == chosen - {r} + {a};
    CostTriangle(c.policy, c.GroupMap(chosen), c.GroupMap(chosen), c.GroupMap(next));
  }

  lemma SwapGain(c: Choice, chosen: set<nat>, a: nat, r: nat)
    requires a !in chosen && r in chosen
    ensures SumOver(chosen - {r} + {a}, (x: nat) => c.Score(x)) ==
      SumOver(chosen, (x: nat) => c.Score(x)) - c.Score(r) + c.Score(a)
  {
    var f := (x: nat) => c.Score(x);
    SumRemove(chosen, f, r);
    SumAdd(chosen - {r}, f, a);
  }

  ghost function TotalScore(c: Choice, chosen: set<nat>): real {
    SumOver(chosen, (x: nat) => c.Score(x))
  }

  /**
   Once the slots are full, the score gained pays for the whole transition from the filled set
   to any later one, and more than pays if anything was swapped.
   */
  lemma {:induction false} GainCoversCost(c: Choice, ordered: seq<nat>, turns: seq<set<nat>>, full: nat, i: nat)
    requires c.Valid() && GreedyRun(c, ordered, turns) && |turns[0]| <= c.policy.k
    requires full <= i <= |ordered| && |turns[full]| == c.policy.k
    ensures |turns[i]| == c.policy.k
    ensures var gain := (TotalScore(c, turns[i]) - TotalScore(c, turns[full])) / 100.0;
      turns[i] == turns[full] || gain > c.SwapCost(turns[full], turns[i])
  {
    SizeWithinK(c, ordered, turns, i);
    if full < i {
      GainCoversCost(c, ordered, turns, full, i - 1);
      TurnGain(c, turns[i - 1], ordered[i - 1], turns[i]);
      CostTriangle(c.policy, c.GroupMap(turns[full]), c.GroupMap(turns[i - 1]), c.GroupMap(turns[i]));
      hide Choice.GroupMap, TotalScore, TransitionCost, GreedyTurn;
    }
  }

  lemma TurnGain(c: Choice, chosen: set<nat>, a: nat, next: set<nat>)
    requires c.Valid() && GreedyTurn(c, chosen, a, next) && |chosen| == c.policy.k
    ensures next == chosen || (TotalScore(c, next) - TotalScore(c, chosen)) / 100.0 > c.SwapCost(chosen, next)
  {
    if next != chosen {
      var r := FullTurn(c, chosen, a, next);
      SwapGain(c, chosen, a, r);
    }
  }

  // ----- no asset changes sides twice -----

  /** Before turn i: members that are not incumbents were met before, and no evicted asset is stronger than a removable member. */
  ghost predicate Settled(c: Choice, ordered: seq<nat>, turns: seq<set<nat>>, i: nat)
    requires i < |turns|
  {
    && turns[i] <= c.eligible.Keys
    && (forall a :: a in turns[i] && a !in turns[0] ==> a in ordered[..if i <= |ordered| then i else |ordered|])
    && (forall e, a :: e in turns[0] && e !in turns[i] && a in c.Removable(turns[i]) ==> c.Score(e) <= c.Score(a))
    && (forall e :: e in turns[0] && e !in turns[i] ==> !c.Held(e) && |turns[i]| == c.policy.k)
  }

  /** Turn i evicts only incumbents and admits nothing that was evicted. */
  lemma TurnChanges(c: Choice, ordered: seq<nat>, turns: seq<set<nat>>, i: nat)
    requires Loop(c, ordered, turns) && i < |ordered| && Settled(c, ordered, turns, i) && |turns[i]| <= c.policy.k
    ensures forall x :: x in turns[i] && x !in turns[i + 1] ==> x in turns[0]
    ensures forall x :: x in turns[0] && x !in turns[i] ==> x !in turns[i + 1]
    ensures Settled(c, ordered, turns, i + 1)
  {
    TurnSize(c, turns[i], ordered[i], turns[i + 1]);
    ListedEligible(c, ordered, i);
    if |turns[i]| == c.policy.k && turns[i + 1] != turns[i] {
      var r := FullTurn(c, turns[i], ordered[i], turns[i + 1]);
      EvictsIncumbent(c, ordered, turns, i, r);
      hide *;
      SwapSettles(c, ordered, turns, i, r);
    } else {
      hide *;
      FillSettles(c, ordered, turns, i);
    }
  }

  lemma ListedEligible(c: Choice, ordered: seq<nat>, i: nat)
    requires Listing(c.eligible.Keys, c.BetterOrder(), ordered) && i < |ordered|
    ensures ordered[i] in c.eligible
  {
  }

  lemma FillSettles(c: Choice, ordered: seq<nat>, turns: seq<set<nat>>, i: nat)
    requires i < |ordered| && i + 1 < |turns| && Settled(c, ordered, turns, i)
    requires ordered[i] in c.eligible && |turns[i]| <= c.policy.k
    requires turns[i + 1] == turns[i] || (|turns[i]| < c.policy.k && turns[i + 1] == turns[i] + {ordered[i]})
    ensures Settled(c, ordered, turns, i + 1)
    ensures forall x :: x in turns[0] && x !in turns[i] ==> x !in turns[i + 1]
  {
  }

  lemma EvictsIncumbent(c: Choice, ordered: seq<nat>, turns: seq<set<nat>>, i: nat, r: nat)
    requires Loop(c, ordered, turns) && i < |ordered| && Settled(c, ordered, turns, i)
    requires r in turns[i] && c.Score(ordered[i]) > c.Score(r)
    ensures r in turns[0]
  {
  }

  lemma SwapSettles(c: Choice, ordered: seq<nat>, turns: seq<set<nat>>, i: nat, r: nat)
    requires i < |ordered| && i + 1 < |turns| && Settled(c, ordered, turns, i)
    requires ordered[i] !in turns[i] && ordered[i] in c.eligible && r in turns[0] && IsWeakest(c, turns[i], r)
    requires turns[0] <= c.prior.Keys
    requires turns[i + 1] == turns[i] - {r} + {ordered[i]} && c.Score(ordered[i]) > c.Score(r)
    requires |turns[i + 1]| == c.policy.k
    ensures forall x :: x in turns[i] && x !in turns[i + 1] ==> x in turns[0]
    ensures forall x :: x in turns[0] && x !in turns[i] ==> x !in turns[i + 1]
    ensures Settled(c, ordered, turns, i + 1)
  {
    var next, a := turns[i + 1], ordered[i];
    assert ordered[..i + 1] == ordered[..i] + [a];
    assert a !in turns[0] by {
      assert a in turns[0] ==> c.Score(a) <= c.Score(r);
    }
    forall e, b | e in turns[0] && e !in next && b in c.Removable(next) ensures c.Score(e) <= c.Score(b) {
      if b != a {
        assert b in c.Removable(turns[i]);
      }
      if e != r {
        assert c.Score(e) <= c.Score(r);
      }
    }
  }

  lemma {:induction false} AlwaysSettled(c: Choice, ordered: seq<nat>, turns: seq<set<nat>>, i: nat)
    requires Loop(c, ordered, turns) && i <= |ordered|
    ensures Settled(c, ordered, turns, i)
  {
    if i > 0 {
      AlwaysSettled(c, ordered, turns, i - 1);
      SizeWithinK(c, ordered, turns, i - 1);
      TurnChanges(c, ordered, turns, i - 1);
    }
  }

  lemma {:induction false} EvictedStaysOut(c: Choice, ordered: seq<nat>, turns: seq<set<nat>>, x: nat, i: nat, j: nat)
    requires Loop(c, ordered, turns) && i <= j <= |ordered| && x in turns[0] && x !in turns[i]
    ensures x !in turns[j]
  {
    if i < j {
      EvictedStaysOut(c, ordered, turns, x, i, j - 1);
      AlwaysSettled(c, ordered, turns, j - 1);
      SizeWithinK(c, ordered, turns, j - 1);
      TurnChanges(c, ordered, turns, j - 1);
    }
  }

  lemma {:induction false} AdmittedStaysIn(c: Choice, ordered: seq<nat>, turns: seq<set<nat>>, x: nat, i: nat, j: nat)
    requires Loop(c, ordered, turns) && i <= j <= |ordered| && x !in turns[0] && x in turns[i]
    ensures x in turns[j]
  {
    hide GreedyTurn, Listing, Sorted;
    if i < j {
      AdmittedStaysIn(c, ordered, turns, x, i, j - 1);
      OnlyIncumbentsLeave(c, ordered, turns, j - 1);
    }
  }

  /** A turn evicts nothing but what the loop started with. */
  lemma OnlyIncumbentsLeave(c: Choice, ordered: seq<nat>, turns: seq<set<nat>>, i: nat)
    requires Loop(c, ordered, turns) && i < |ordered|
    ensures forall x :: x in turns[i] && x !in turns[i + 1] ==> x in turns[0]
  {
    hide GreedyTurn, Listing, Settled;
    AlwaysSettled(c, ordered, turns, i);
    SizeWithinK(c, ordered, turns, i);
    TurnChanges(c, ordered, turns, i);
  }

  /** In one call an asset's membership changes at most once. */
  lemma MembershipChangesOnce(c: Choice, ordered: seq<nat>, turns: seq<set<nat>>, x: nat, i: nat, j: nat, m: nat)
    requires Loop(c, ordered, turns) && i <= j <= m <= |ordered|
    requires (x in turns[i]) != (x in turns[j])
    ensures (x in turns[j]) == (x in turns[m])
  {
    if x in turns[0] {
      if x !in turns[i] {
        EvictedStaysOut(c, ordered, turns, x, i, j);
      } else {
        EvictedStaysOut(c, ordered, turns, x, j, m);
      }
    } else if x in turns[i] {
      AdmittedStaysIn(c, ordered, turns, x, i, j);
    } else {
      AdmittedStaysIn(c, ordered, turns, x, j, m);
    }
  }

  // ----- every allocation -----

  /** The chosen set fits the slots and is eligible. */
  lemma ChosenFits(c: Choice, comparable: bool, chosen: set<nat>)
    requires c.Valid() && Prescribed(c, comparable, chosen)
    requires comparable ==> |c.prior.Keys * c.eligible.Keys| <= c.policy.k
    ensures |chosen| <= c.policy.k && chosen <= c.eligible.Keys
  {
    ScoreOrders(c, c.eligible.Keys);
    if c.policy.kind == TopK || !comparable {
      FirstCount(c.eligible.Keys, c.BetterOrder(), c.policy.k);
    } else if c.policy.kind == Hysteresis {
      HysteresisFits(c);
    } else {
      var ordered, turns :| Listing(c.eligible.Keys, c.BetterOrder(), ordered) && GreedyRun(c, ordered, turns)
        && turns[0] == c.prior.Keys * c.eligible.Keys && chosen == turns[|ordered|];
      SizeWithinK(c, ordered, turns, |ordered|);
      AlwaysSettled(c, ordered, turns, |ordered|);
    }
  }

  lemma HysteresisFits(c: Choice)
    requires c.Valid()
    ensures |KeptIncumbents(c)| <= c.policy.k && |HysteresisChoice(c)| <= c.policy.k
    ensures HysteresisChoice(c) <= c.eligible.Keys
  {
    ScoreOrders(c, c.Incumbents());
    ScoreOrders(c, Challengers(c));
    FirstCount(c.Incumbents(), c.SeniorOrder(), c.policy.k);
    var kept := KeptIncumbents(c);
    FirstCount(Challengers(c), c.BetterOrder(), c.policy.k - |kept|);
    UnionBound(kept, First(Challengers(c), c.BetterOrder(), c.policy.k - |kept|));
  }

  /** An allocation can be followed by the next one, and its churn is a fraction. */
  lemma AllocationValid(r: Response, policy: Policy, previous: Option<Allocation>, result: Allocation)
    requires ValidPolicy(policy) && ValidResponse(r) && (previous.Some? ==> ValidAllocation(previous.value))
    requires IsAllocation(r, policy, previous, result)
    ensures ValidAllocation(result)
    ensures 0.0 <= result.churn <= 1.0
    ensures result.switchCost >= 0.0
  {
    ChoiceValid(r, policy, previous);
    var c := ChoiceOf(r, policy, previous);
    var chosen :| Prescribed(c, Comparable(r, policy, previous), chosen) && Describes(r, c, previous, chosen, result);
    ChosenFits(c, Comparable(r, policy, previous), chosen);
    SlotsValid(c, chosen, result);
    hide Prescribed, SlotsListed, ChoiceOf, IsAllocation, Comparable, ReasonOf, Choice.Valid, ValidAllocation, ValidResponse;
    ChangeWithin(c, chosen, result);
  }

  lemma ChangeWithin(c: Choice, chosen: set<nat>, result: Allocation)
    requires ValidPolicy(c.policy) && DescribesChange(c, chosen, result) && |chosen| <= c.policy.k
    requires result.comparable ==> |c.prior| <= c.policy.k
    ensures 0.0 <= result.churn <= 1.0 && result.switchCost >= 0.0
  {
    CostTriangle(c.policy, GroupsBySlot(c.prior), GroupsBySlot(c.prior), c.GroupMap(chosen));
    if result.comparable {
      hide AllGroups, Choice.GroupMap, GroupsBySlot, TransitionCost, ChurnOf;
      assert |c.prior| == |c.prior.Keys|;
      assert result.added + result.removed <= chosen + c.prior.Keys;
      SmallerSubset(result.added + result.removed, chosen + c.prior.Keys);
      UnionBound(chosen, c.prior.Keys);
      ChurnFraction(|result.added + result.removed|, c.policy.k);
    }
  }

  lemma SlotsValid(c: Choice, chosen: set<nat>, result: Allocation)
    requires SlotsListed(c, chosen, result.slots) && |chosen| <= c.policy.k
    requires result.policy == c.policy && result.decisionAt == c.decisionAt
    requires forall a :: a in c.prior ==> c.prior[a].enteredAt <= c.decisionAt
    ensures ValidAllocation(result)
  {
    forall i, j | 0 <= i < j < |result.slots| ensures result.slots[i].asset != result.slots[j].asset {
      assert c.BetterOrder()(AssetsOf(result.slots)[i], AssetsOf(result.slots)[j]);
    }
  }

  lemma ChurnFraction(changed: nat, k: nat)
    requires changed <= 2 * k && k > 0
    ensures 0.0 <= ChurnOf(changed, k) <= 1.0
  {
  }

  // ----- hysteresis -----

  /** Every slot is top-ranked or an incumbent that is held or within the buffer. */
  lemma HysteresisSlots(c: Choice, a: nat)
    requires c.Valid() && a in HysteresisChoice(c)
    ensures a in c.eligible
    ensures c.Rank(a) <= c.policy.k || (a in c.prior && (c.Held(a) || c.Rank(a) <= c.policy.k + c.policy.buffer))
  {
  }

  /** A held, still eligible incumbent keeps its slot. */
  lemma HysteresisKeepsHeld(c: Choice, a: nat)
    requires c.Valid() && |c.prior.Keys * c.eligible.Keys| <= c.policy.k
    requires a in c.eligible && c.Held(a)
    ensures a in HysteresisChoice(c)
  {
    var s, order := c.Incumbents(), c.SeniorOrder();
    assert Before(s, order, a) < c.prior.Keys * c.eligible.Keys by {
      assert a in c.prior.Keys * c.eligible.Keys && a !in Before(s, order, a);
    }
    ProperSubset(Before(s, order, a), c.prior.Keys * c.eligible.Keys);
  }

  lemma ProperSubset<T>(a: set<T>, b: set<T>)
    requires a < b
    ensures |a| < |b|
  {
    assert b == a + (b - a) && b - a != {};
  }

  /** Ranks number the eligible assets best first, as a scored response does. */
  ghost predicate RanksAgree(c: Choice) {
    forall a :: a in c.eligible ==> c.Rank(a) == |Before(c.eligible.Keys, c.BetterOrder(), a)| + 1
  }

  /** Without buffer and hold, hysteresis is top-k. */
  lemma PlainHysteresisIsTopK(c: Choice)
    requires c.Valid() && RanksAgree(c)
    requires c.policy.buffer == 0 && c.policy.minimumHoldMinutes == 0
    requires forall a :: a in c.prior ==> c.prior[a].enteredAt <= c.decisionAt
    ensures HysteresisChoice(c) == TopChoice(c)
  {
    TopIsRanked(c);
    NothingHeld(c);
    AllIncumbentsKept(c);
    ChallengersAreTheRest(c);
    hide *;
    ScoreOrders(c, Challengers(c));
    AllFirst(Challengers(c), c.BetterOrder(), |Challengers(c)|, c.policy.k - |KeptIncumbents(c)|);
    HysteresisParts(c, Challengers(c));
  }

  /** Challengers fill exactly the places of the top assets that are not incumbents. */
  lemma ChallengersAreTheRest(c: Choice)
    requires KeptIncumbents(c) <= TopChoice(c)
    requires forall a :: a in TopChoice(c) <==> a in c.eligible && c.Rank(a) <= c.policy.k
    ensures KeptIncumbents(c) + Challengers(c) == TopChoice(c)
    ensures |Challengers(c)| == |TopChoice(c)| - |KeptIncumbents(c)|
  {
    hide KeptIncumbents, TopChoice;
    assert Challengers(c) == TopChoice(c) - KeptIncumbents(c);
  }

  lemma HysteresisParts(c: Choice, rest: set<nat>)
    requires |KeptIncumbents(c)| <= c.policy.k
    requires First(Challengers(c), c.BetterOrder(), c.policy.k - |KeptIncumbents(c)|) == rest
    ensures HysteresisChoice(c) == KeptIncumbents(c) + rest
  {
  }

  lemma AllIncumbentsKept(c: Choice)
    requires c.policy.buffer == 0 && (forall a :: !c.Held(a)) && |TopChoice(c)| <= c.policy.k
    requires forall a :: a in TopChoice(c) <==> a in c.eligible && c.Rank(a) <= c.policy.k
    ensures KeptIncumbents(c) == c.Incumbents() <= TopChoice(c) && |KeptIncumbents(c)| <= |TopChoice(c)|
  {
    assert c.Incumbents() <= TopChoice(c);
    SmallerSubset(c.Incumbents(), TopChoice(c));
    ScoreOrders(c, c.Incumbents());
    AllFirst(c.Incumbents(), c.SeniorOrder(), |c.Incumbents()|, c.policy.k);
  }

  lemma TopIsRanked(c: Choice)
    requires c.Valid() && RanksAgree(c)
    ensures |TopChoice(c)| <= c.policy.k
    ensures forall a :: a in TopChoice(c) <==> a in c.eligible && c.Rank(a) <= c.policy.k
  {
    ScoreOrders(c, c.eligible.Keys);
    FirstCount(c.eligible.Keys, c.BetterOrder(), c.policy.k);
  }

  lemma NothingHeld(c: Choice)
    requires c.policy.minimumHoldMinutes == 0
    requires forall a :: a in c.prior ==> c.prior[a].enteredAt <= c.decisionAt
    ensures forall a :: !c.Held(a)
  {
  }

  // ----- runs of comparable allocations -----

  /** Each allocation answers its response and follows the one before it, all comparable. */
  ghost predicate Follows(responses: seq<Response>, policy: Policy, allocations: seq<Allocation>) {
    && |allocations| == |responses| > 0
    && (forall i :: 0 <= i < |responses| ==> ValidResponse(responses[i]) && ValidAllocation(allocations[i]))
    && (forall i :: 0 < i < |responses| ==>
          && IsAllocation(responses[i], policy, Some(allocations[i - 1]), allocations[i])
          && Comparable(responses[i], policy, Some(allocations[i - 1])))
  }

  predicate HasSlot(a: Allocation, asset: nat, enteredAt: int) {
    exists i :: 0 <= i < |a.slots| && a.slots[i].asset == asset && a.slots[i].enteredAt == enteredAt
  }

  lemma HeldKeepsSlot(r: Response, policy: Policy, previous: Allocation, result: Allocation, asset: nat, enteredAt: int)
    requires ValidPolicy(policy) && ValidResponse(r) && ValidAllocation(previous) && policy.kind != TopK
    requires Comparable(r, policy, Some(previous)) && IsAllocation(r, policy, Some(previous), result)
    requires HasSlot(previous, asset, enteredAt)
    requires asset in Eligible(r, policy) && r.decisionAt - enteredAt < policy.minimumHoldMinutes * MINUTE
    ensures HasSlot(result, asset, enteredAt)
  {
    ChoiceValid(r, policy, Some(previous));
    var c := ChoiceOf(r, policy, Some(previous));
    SlotMapAt(previous.slots, asset, enteredAt);
    var chosen :| Prescribed(c, true, chosen) && Describes(r, c, Some(previous), chosen, result);
    assert c.Held(asset);
    if policy.kind == Hysteresis {
      HysteresisKeepsHeld(c, asset);
    } else {
      var ordered, turns :| Listing(c.eligible.Keys, c.BetterOrder(), ordered) && GreedyRun(c, ordered, turns)
        && turns[0] == c.prior.Keys * c.eligible.Keys && chosen == turns[|ordered|];
      HeldNeverEvicted(c, ordered, turns, asset, |ordered|);
    }
    assert asset in ToSet(AssetsOf(result.slots));
    var i :| 0 <= i < |result.slots| && AssetsOf(result.slots)[i] == asset;
    assert result.slots[i] == SlotOf(c, asset);
  }

  lemma SlotMapAt(slots: seq<Slot>, asset: nat, enteredAt: int)
    requires forall i, j :: 0 <= i < j < |slots| ==> slots[i].asset != slots[j].asset
    requires exists i :: 0 <= i < |slots| && slots[i].asset == asset && slots[i].enteredAt == enteredAt
    ensures asset in SlotMap(slots) && SlotMap(slots)[asset].enteredAt == enteredAt
  {
  }

  /**
   Over a run of comparable hysteresis or cost-aware allocations, an asset that stays eligible
   keeps its slot, with its entry time, for as long as its hold lasts.
   */
  lemma {:induction false} HeldOverRuns(responses: seq<Response>, policy: Policy, allocations: seq<Allocation>, asset: nat, enteredAt: int)
    requires ValidPolicy(policy) && policy.kind != TopK && Follows(responses, policy, allocations)
    requires HasSlot(allocations[0], asset, enteredAt)
    requires forall i :: 0 < i < |responses| ==> asset in Eligible(responses[i], policy)
    requires forall i :: 0 < i < |responses| ==> responses[i].decisionAt - enteredAt < policy.minimumHoldMinutes * MINUTE
    ensures HasSlot(allocations[|allocations| - 1], asset, enteredAt)
    decreases |responses|
  {
    hide IsAllocation, Comparable, ValidResponse, ValidAllocation, Eligible, HasSlot;
    var n := |responses| - 1;
    if n > 0 {
      HeldOverRuns(responses[..n], policy, allocations[..n], asset, enteredAt);
      HeldKeepsSlot(responses[n], policy, allocations[n - 1], allocations[n], asset, enteredAt);
    }
  }
}
