/**
 What an allocation says, read off its response, policy, previous allocation and slots alone: what
 a transition costs, which rows hold slots, what each slot shows, and which rows were left out.
 */
module AllocationLaws {
  import opened Prelude
  import opened Ranking
  import opened Allocation
  import opened AllocationProperties

  // ----- transition cost -----

  type Groups = map<nat, set<nat>>

  predicate Occurs(m: Groups, g: nat) {
    exists a :: a in m && g in m[a]
  }

  predicate Groupless(m: Groups, a: nat) {
    a in m && m[a] == {}
  }

  /** With a positive switch penalty, only a transition that keeps every group and group-less asset is free. */
  lemma FreeIffSame(p: Policy, x: Groups, y: Groups)
    requires ValidPolicy(p) && p.switchPenalty > 0.0
    ensures TransitionCost(p, x, y) == 0.0 <==>
      (forall g :: Occurs(x, g) <==> Occurs(y, g)) && (forall a :: Groupless(x, a) <==> Groupless(y, a))
  {
    var n, m := Additions(x, y), Additions(y, x);
    PricedZero(p, n, m);
    assert forall g :: Occurs(x, g) <==> g in AllGroups(x);
    assert forall g :: Occurs(y, g) <==> g in AllGroups(y);
    assert forall a :: Groupless(x, a) <==> a in Unmapped(x);
    assert forall a :: Groupless(y, a) <==> a in Unmapped(y);
    hide AllGroups, Unmapped, Priced, Occurs, Groupless;
    NoDifference(AllGroups(x), AllGroups(y));
    NoDifference(Unmapped(x), Unmapped(y));
  }

  lemma NoDifference(a: set<nat>, b: set<nat>)
    ensures |a - b| + |b - a| == 0 <==> forall x :: x in a <==> x in b
  {
    assert |a - b| == 0 <==> a - b == {};
    assert |b - a| == 0 <==> b - a == {};
    if a - b == {} && b - a == {} {
      assert forall x :: x in a ==> x in b || x in a - b;
      assert forall x :: x in b ==> x in a || x in b - a;
    }
  }

  lemma PricedZero(p: Policy, n: nat, m: nat)
    requires ValidPolicy(p) && p.switchPenalty > 0.0
    ensures Priced(p, n, m) == 0.0 <==> n + m == 0
  {
    Product(p.switchPenalty, (n + m) as real);
    Product(p.warmUpCost, n as real);
  }

  lemma Product(a: real, b: real)
    requires a >= 0.0 && b >= 0.0
    ensures a * b >= 0.0 && (a > 0.0 && b > 0.0 ==> a * b > 0.0)
  {
  }

  lemma PricedOneMore(p: Policy, n: nat, m: nat)
    ensures Priced(p, n + 1, m) == Priced(p, n, m) + p.switchPenalty + p.warmUpCost
    ensures Priced(p, n, m + 1) == Priced(p, n, m) + p.switchPenalty
  {
  }

  lemma OneMoreOutside(s: set<nat>, t: set<nat>, x: nat)
    requires x !in s && x !in t
    ensures |(s + {x}) - t| == |s - t| + 1 && |t - (s + {x})| == |t - s|
  {
    assert (s + {x}) - t == (s - t) + {x};
    assert t - (s + {x}) == t - s;
  }

  /**
   A further asset without a group costs the switch penalty and the warm-up when it arrives and the
   switch penalty when it leaves, whatever else the transition does.
   */
  lemma GrouplessPays(p: Policy, x: Groups, y: Groups, a: nat)
    requires a !in y && !Groupless(x, a)
    ensures TransitionCost(p, x, y[a := {}]) == TransitionCost(p, x, y) + p.switchPenalty + p.warmUpCost
    ensures TransitionCost(p, y[a := {}], x) == TransitionCost(p, y, x) + p.switchPenalty
  {
    GroupsOfMore(y, a, {});
    OutsideBoth(x, y, a);
    hide AllGroups, Unmapped, Priced, Groupless;
    OneMoreOutside(Unmapped(y), Unmapped(x), a);
    CostOneMore(p, x, y, y[a := {}]);
  }

  lemma OutsideBoth(x: Groups, y: Groups, a: nat)
    requires a !in y && !Groupless(x, a)
    ensures a !in Unmapped(x) && a !in Unmapped(y) && Unmapped(y[a := {}]) == Unmapped(y) + {a}
  {
  }

  /** One more group or group-less asset in y than in x. */
  lemma CostOneMore(p: Policy, x: Groups, y: Groups, z: Groups)
    requires Additions(x, z) == Additions(x, y) + 1 && Additions(z, x) == Additions(y, x)
    ensures TransitionCost(p, x, z) == TransitionCost(p, x, y) + p.switchPenalty + p.warmUpCost
    ensures TransitionCost(p, z, x) == TransitionCost(p, y, x) + p.switchPenalty
  {
    hide Additions;
    PricedOneMore(p, Additions(x, y), Additions(y, x));
    PricedOneMore(p, Additions(y, x), Additions(x, y));
  }

  lemma GroupsOfMore(y: Groups, a: nat, gs: set<nat>)
    requires a !in y
    ensures AllGroups(y[a := gs]) == AllGroups(y) + gs
    ensures gs != {} ==> Unmapped(y[a := gs]) == Unmapped(y)
  {
    var z := y[a := gs];
    forall g | g in AllGroups(y) + gs ensures g in AllGroups(z) {
      if g in AllGroups(y) {
        var b :| b in y && g in y[b];
        assert b in z && g in z[b];
      } else {
        assert a in z && g in z[a];
      }
    }
    forall g | g in AllGroups(z) ensures g in AllGroups(y) + gs {
      var b :| b in z && g in z[b];
    }
  }

  /** A further asset brings its new group at the same price, and a group that is there already for nothing. */
  lemma GroupPays(p: Policy, x: Groups, y: Groups, a: nat, g: nat)
    requires a !in y && !Occurs(x, g)
    ensures TransitionCost(p, x, y[a := {g}]) ==
      TransitionCost(p, x, y) + if Occurs(y, g) then 0.0 else p.switchPenalty + p.warmUpCost
    ensures TransitionCost(p, y[a := {g}], x) == TransitionCost(p, y, x) + if Occurs(y, g) then 0.0 else p.switchPenalty
  {
    hide Priced, Additions;
    GroupsOfMore(y, a, {g});
    OccursMeans(x, g);
    OccursMeans(y, g);
    hide AllGroups, Unmapped, Occurs;
    WithGroup(x, y, y[a := {g}], g);
    if !Occurs(y, g) {
      CostOneMore(p, x, y, y[a := {g}]);
    }
  }

  lemma WithGroup(x: Groups, y: Groups, z: Groups, g: nat)
    requires g !in AllGroups(x) && AllGroups(z) == AllGroups(y) + {g} && Unmapped(z) == Unmapped(y)
    ensures Additions(x, z) == Additions(x, y) + if g in AllGroups(y) then 0 else 1
    ensures Additions(z, x) == Additions(y, x)
  {
    hide AllGroups, Unmapped;
    if g in AllGroups(y) {
      assert AllGroups(y) + {g} == AllGroups(y);
    } else {
      OneMoreOutside(AllGroups(y), AllGroups(x), g);
    }
  }

  lemma OccursMeans(m: Groups, g: nat)
    ensures Occurs(m, g) <==> g in AllGroups(m)
  {
  }

  // ----- what a slot shows -----

  /** The row may hold a slot: a usable response, an identity in order, a scored component and fresh data. */
  predicate Fit(r: Response, policy: Policy, row: Row) {
    && (r.status == Ready || r.status == Partial) && row.identityOk
    && policy.component in row.readings && row.readings[policy.component].Ranked?
    && row.dataAsOf <= r.decisionAt <= row.dataAsOf + 150_000
  }

  predicate HasGroup(row: Row, g: nat) {
    exists i :: 0 <= i < |row.originals| && row.originals[i].current && row.originals[i].group == Some(g)
  }

  /** The time the asset entered: that of its slot before, if this allocation continues that one. */
  predicate EnteredWhen(r: Response, comparable: bool, previous: Option<Allocation>, slot: Slot) {
    if comparable && previous.Some? && exists i :: 0 <= i < |previous.value.slots| && previous.value.slots[i].asset == slot.asset
    then exists i :: 0 <= i < |previous.value.slots| && previous.value.slots[i].asset == slot.asset && previous.value.slots[i].enteredAt == slot.enteredAt
    else slot.enteredAt == r.decisionAt
  }

  /** A slot shows the reading and the current groups of a fit row. */
  ghost predicate Shows(r: Response, policy: Policy, slot: Slot, row: Row) {
    && row.asset == slot.asset && Fit(r, policy, row)
    && row.readings[policy.component] == Ranked(slot.score, slot.rank)
    && forall g :: g in slot.groups <==> HasGroup(row, g)
  }

  predicate Stronger(aScore: real, a: nat, bScore: real, b: nat) {
    aScore > bScore || (aScore == bScore && a < b)
  }

  /** The choice behind an allocation, and its slots. */
  lemma ChoiceBehind(r: Response, policy: Policy, previous: Option<Allocation>, result: Allocation) returns (c: Choice, chosen: set<nat>)
    requires ValidPolicy(policy) && ValidResponse(r) && (previous.Some? ==> ValidAllocation(previous.value))
    requires IsAllocation(r, policy, previous, result)
    ensures c == ChoiceOf(r, policy, previous) && c.Valid() && c.policy == policy && c.decisionAt == r.decisionAt
    ensures Prescribed(c, result.comparable, chosen) && SlotsListed(c, chosen, result.slots) && DescribesChange(c, chosen, result)
    ensures result.comparable == Comparable(r, policy, previous) && chosen <= c.eligible.Keys && |chosen| <= policy.k
    ensures result.comparable ==> |c.prior.Keys * c.eligible.Keys| <= policy.k
  {
    hide ValidResponse, ValidAllocation, Prescribed, SlotsListed, DescribesChange, Comparable, Choice.Valid;
    ChoiceValid(r, policy, previous);
    c := ChoiceOf(r, policy, previous);
    chosen :| Prescribed(c, Comparable(r, policy, previous), chosen) && Describes(r, c, previous, chosen, result);
    ChosenFits(c, result.comparable, chosen);
  }

  lemma SlotAt(c: Choice, chosen: set<nat>, slots: seq<Slot>, i: nat)
    requires SlotsListed(c, chosen, slots) && i < |slots|
    ensures slots[i].asset in chosen && slots[i] == SlotOf(c, slots[i].asset)
  {
    assert AssetsOf(slots)[i] == slots[i].asset;
    assert AssetsOf(slots)[i] in ToSet(AssetsOf(slots));
  }

  lemma ChosenHasSlot(c: Choice, chosen: set<nat>, slots: seq<Slot>, a: nat) returns (i: nat)
    requires SlotsListed(c, chosen, slots) && a in chosen
    ensures i < |slots| && slots[i].asset == a
  {
    assert a in ToSet(AssetsOf(slots));
    i :| 0 <= i < |slots| && AssetsOf(slots)[i] == a;
  }

  /** Each slot shows a fit row of the response and when its asset entered. */
  lemma SlotsShowRows(r: Response, policy: Policy, previous: Option<Allocation>, result: Allocation, i: nat)
    requires ValidPolicy(policy) && ValidResponse(r) && (previous.Some? ==> ValidAllocation(previous.value))
    requires IsAllocation(r, policy, previous, result) && i < |result.slots|
    ensures exists row :: row in r.rows && Shows(r, policy, result.slots[i], row)
    ensures EnteredWhen(r, result.comparable, previous, result.slots[i])
  {
    hide IsAllocation;
    var c, chosen := ChoiceBehind(r, policy, previous, result);
    SlotAt(c, chosen, result.slots, i);
    hide Prescribed, SlotsListed, DescribesChange;
    EligibleIsFit(r, policy, result.slots[i].asset);
    ShowsRow(r, policy, previous, c, result.slots[i]);
    EntryOf(r, policy, previous, c, result.slots[i]);
  }

  /** Exactly the fit rows are eligible. */
  lemma EligibleIsFit(r: Response, policy: Policy, a: nat)
    requires ValidResponse(r)
    ensures a in Eligible(r, policy) ==> Eligible(r, policy)[a] in r.rows && Eligible(r, policy)[a].asset == a && Fit(r, policy, Eligible(r, policy)[a])
    ensures forall row :: row in r.rows && row.asset == a && Fit(r, policy, row) ==> a in Eligible(r, policy) && Eligible(r, policy)[a] == row
  {
  }

  lemma ShowsRow(r: Response, policy: Policy, previous: Option<Allocation>, c: Choice, slot: Slot)
    requires ValidResponse(r) && (previous.Some? ==> ValidAllocation(previous.value))
    requires c == ChoiceOf(r, policy, previous) && slot.asset in c.eligible && slot == SlotOf(c, slot.asset)
    requires c.eligible[slot.asset] in r.rows && c.eligible[slot.asset].asset == slot.asset && Fit(r, policy, c.eligible[slot.asset])
    ensures exists row :: row in r.rows && Shows(r, policy, slot, row)
  {
    hide ValidResponse, ValidAllocation, Eligible;
    var row := c.eligible[slot.asset];
    forall g ensures g in slot.groups <==> HasGroup(row, g) {}
    assert Shows(r, policy, slot, row);
  }

  lemma EntryOf(r: Response, policy: Policy, previous: Option<Allocation>, c: Choice, slot: Slot)
    requires ValidResponse(r) && (previous.Some? ==> ValidAllocation(previous.value))
    requires c == ChoiceOf(r, policy, previous) && slot == SlotOf(c, slot.asset)
    ensures EnteredWhen(r, Comparable(r, policy, previous), previous, slot)
  {
    hide ValidResponse, Eligible;
    if Comparable(r, policy, previous) {
      SlotsCount(previous.value.slots);
    }
  }

  /** Slots go from the strongest to the weakest, and the result says what it was made of. */
  lemma SlotsInOrder(r: Response, policy: Policy, previous: Option<Allocation>, result: Allocation)
    requires ValidPolicy(policy) && ValidResponse(r) && (previous.Some? ==> ValidAllocation(previous.value))
    requires IsAllocation(r, policy, previous, result)
    ensures result.decisionAt == r.decisionAt && result.mapVersion == r.mapVersion && result.policy == policy && result.scorePolicy == r.scorePolicy
    ensures |result.slots| <= policy.k
    ensures forall i, j :: 0 <= i < j < |result.slots| ==>
      Stronger(result.slots[i].score, result.slots[i].asset, result.slots[j].score, result.slots[j].asset)
  {
    AllocationValid(r, policy, previous, result);
    HeaderTold(r, policy, previous, result);
    hide IsAllocation, ValidResponse;
    var c, chosen := ChoiceBehind(r, policy, previous, result);
    hide Prescribed, DescribesChange, ChoiceOf;
    ListedInOrder(c, chosen, result.slots);
  }

  lemma HeaderTold(r: Response, policy: Policy, previous: Option<Allocation>, result: Allocation)
    requires ValidResponse(r) && (previous.Some? ==> ValidAllocation(previous.value)) && IsAllocation(r, policy, previous, result)
    ensures result.decisionAt == r.decisionAt && result.mapVersion == r.mapVersion && result.policy == policy && result.scorePolicy == r.scorePolicy
  {
    hide ValidResponse, ValidAllocation, Prescribed, SlotsListed, DescribesChange;
  }

  lemma ListedInOrder(c: Choice, chosen: set<nat>, slots: seq<Slot>)
    requires SlotsListed(c, chosen, slots)
    ensures forall i, j :: 0 <= i < j < |slots| ==> Stronger(slots[i].score, slots[i].asset, slots[j].score, slots[j].asset)
  {
    hide Choice.Score;
    forall i, j | 0 <= i < j < |slots| ensures Stronger(slots[i].score, slots[i].asset, slots[j].score, slots[j].asset) {
      assert c.BetterOrder()(AssetsOf(slots)[i], AssetsOf(slots)[j]);
      assert slots[i] == SlotOf(c, slots[i].asset) && slots[j] == SlotOf(c, slots[j].asset);
    }
  }

  // ----- which rows are left out -----

  predicate HasNoSlot(result: Allocation, row: Row) {
    forall i :: 0 <= i < |result.slots| ==> result.slots[i].asset != row.asset
  }

  predicate StrongerThanRow(slot: Slot, policy: Policy, row: Row)
    requires policy.component in row.readings && row.readings[policy.component].Ranked?
  {
    Stronger(slot.score, slot.asset, row.readings[policy.component].score, row.asset)
  }

  /** A fit row without a slot is eligible and not chosen. */
  lemma LeftOut(r: Response, policy: Policy, previous: Option<Allocation>, c: Choice, chosen: set<nat>, result: Allocation, row: Row)
    requires ValidResponse(r) && (previous.Some? ==> ValidAllocation(previous.value)) && c == ChoiceOf(r, policy, previous)
    requires SlotsListed(c, chosen, result.slots) && row in r.rows && Fit(r, policy, row) && HasNoSlot(result, row)
    ensures row.asset in c.eligible && c.eligible[row.asset] == row && row.asset !in chosen
    ensures c.Score(row.asset) == row.readings[policy.component].score && c.Rank(row.asset) == row.readings[policy.component].rank
  {
    hide ValidAllocation, Comparable;
    EligibleIsFit(r, policy, row.asset);
    hide ValidResponse, Eligible;
    if row.asset in chosen {
      var i := ChosenHasSlot(c, chosen, result.slots, row.asset);
    }
  }

  /** Top-k, and any allocation that continues none: a fit row is left out only by k stronger ones. */
  lemma TopIsBest(r: Response, policy: Policy, previous: Option<Allocation>, result: Allocation, row: Row)
    requires ValidPolicy(policy) && ValidResponse(r) && (previous.Some? ==> ValidAllocation(previous.value))
    requires IsAllocation(r, policy, previous, result) && (policy.kind == TopK || !result.comparable)
    requires row in r.rows && Fit(r, policy, row) && HasNoSlot(result, row)
    ensures |result.slots| == policy.k
    ensures forall i :: 0 <= i < |result.slots| ==> StrongerThanRow(result.slots[i], policy, row)
  {
    hide IsAllocation, ValidResponse, ValidAllocation, ChoiceOf, Prescribed, DescribesChange, SlotsListed, TopChoice, Comparable, Choice.Valid;
    var c, chosen := ChoiceBehind(r, policy, previous, result);
    LeftOut(r, policy, previous, c, chosen, result, row);
    TopLeftOut(c, chosen, result.comparable, row.asset);
    CountSlots(c, chosen, result.slots);
    forall i | 0 <= i < |result.slots| ensures StrongerThanRow(result.slots[i], policy, row) {
      SlotAt(c, chosen, result.slots, i);
    }
  }

  lemma CountSlots(c: Choice, chosen: set<nat>, slots: seq<Slot>)
    requires SlotsListed(c, chosen, slots)
    ensures |slots| == |chosen|
  {
  }

  lemma TopLeftOut(c: Choice, chosen: set<nat>, comparable: bool, a: nat)
    requires Prescribed(c, comparable, chosen) && (c.policy.kind == TopK || !comparable) && a in c.eligible && a !in chosen
    ensures |chosen| == c.policy.k && forall x :: x in chosen ==> c.Better(x, a)
  {
    ScoreOrders(c, c.eligible.Keys);
    hide First;
    LeftOutOfFirst(c.eligible.Keys, c.BetterOrder(), c.policy.k, a);
  }

  predicate HeldSince(r: Response, policy: Policy, enteredAt: int) {
    r.decisionAt - enteredAt < policy.minimumHoldMinutes * 60_000
  }

  /** The asset had a slot, entered then, and is still within its hold or the buffer. */
  predicate QualifiedSince(r: Response, policy: Policy, previous: Allocation, a: nat, rank: nat, enteredAt: int) {
    HasSlot(previous, a, enteredAt) && (HeldSince(r, policy, enteredAt) || rank <= policy.k + policy.buffer)
  }

  ghost predicate Qualified(r: Response, policy: Policy, previous: Allocation, a: nat, rank: nat) {
    exists at :: QualifiedSince(r, policy, previous, a, rank, at)
  }

  /** The slot's asset goes before an incumbent: held before not held, then the older entry, then the stronger. */
  predicate SeniorTo(r: Response, policy: Policy, slot: Slot, row: Row, enteredAt: int)
    requires policy.component in row.readings && row.readings[policy.component].Ranked?
  {
    if HeldSince(r, policy, slot.enteredAt) != HeldSince(r, policy, enteredAt) then HeldSince(r, policy, slot.enteredAt)
    else slot.enteredAt < enteredAt || (slot.enteredAt == enteredAt && StrongerThanRow(slot, policy, row))
  }

  /** The prior slots of a comparable choice, in terms of the previous allocation. */
  lemma PriorIsPrevious(r: Response, policy: Policy, previous: Allocation, c: Choice, a: nat)
    requires ValidResponse(r) && ValidAllocation(previous) && c == ChoiceOf(r, policy, Some(previous)) && Comparable(r, policy, Some(previous))
    ensures forall at :: HasSlot(previous, a, at) <==> a in c.prior && c.prior[a].enteredAt == at
    ensures a in c.prior ==> (c.Held(a) <==> HeldSince(r, policy, c.prior[a].enteredAt))
    ensures Qualified(r, policy, previous, a, c.Rank(a)) <==>
      a in c.prior && (c.Held(a) || c.Rank(a) <= policy.k + policy.buffer)
  {
    hide Eligible, ValidResponse;
    SlotsCount(previous.slots);
    if a in c.prior {
      assert HasSlot(previous, a, c.prior[a].enteredAt);
      assert QualifiedSince(r, policy, previous, a, c.Rank(a), c.prior[a].enteredAt) <==>
        c.Held(a) || c.Rank(a) <= policy.k + policy.buffer;
    }
  }

  /** Hysteresis gives slots to top-ranked rows and qualified incumbents only. */
  lemma HysteresisSlotsQualify(r: Response, policy: Policy, previous: Allocation, result: Allocation, i: nat)
    requires ValidPolicy(policy) && ValidResponse(r) && ValidAllocation(previous) && policy.kind == Hysteresis
    requires IsAllocation(r, policy, Some(previous), result) && result.comparable && i < |result.slots|
    ensures result.slots[i].rank <= policy.k || Qualified(r, policy, previous, result.slots[i].asset, result.slots[i].rank)
  {
    hide IsAllocation, ValidResponse, ValidAllocation, ChoiceOf, Comparable;
    var c, chosen := ChoiceBehind(r, policy, Some(previous), result);
    SlotAt(c, chosen, result.slots, i);
    PriorIsPrevious(r, policy, previous, c, result.slots[i].asset);
    HysteresisSlots(c, result.slots[i].asset);
  }

  /**
   Hysteresis leaves out a qualified incumbent only for k senior ones, and a top-ranked challenger only
   for qualified incumbents and stronger challengers that fill all k slots.
   */
  lemma HysteresisLeavesOut(r: Response, policy: Policy, previous: Allocation, result: Allocation, row: Row)
    requires ValidPolicy(policy) && ValidResponse(r) && ValidAllocation(previous) && policy.kind == Hysteresis
    requires IsAllocation(r, policy, Some(previous), result) && result.comparable
    requires row in r.rows && Fit(r, policy, row) && HasNoSlot(result, row)
    ensures var rank := row.readings[policy.component].rank;
      && (forall at :: QualifiedSince(r, policy, previous, row.asset, rank, at) ==>
            |result.slots| == policy.k && forall i :: 0 <= i < |result.slots| ==> SeniorTo(r, policy, result.slots[i], row, at))
      && (rank <= policy.k ==> |result.slots| == policy.k && forall i :: 0 <= i < |result.slots| ==>
            || Qualified(r, policy, previous, result.slots[i].asset, result.slots[i].rank)
            || StrongerThanRow(result.slots[i], policy, row))
  {
    hide IsAllocation, ValidResponse, ValidAllocation, ChoiceOf, Comparable, DescribesChange, Prescribed, SlotsListed, Choice.Valid,
      Qualified, QualifiedSince, SeniorTo, StrongerThanRow, HysteresisChoice, IsIncumbent, Choice.Rank, Choice.Score;
    var c, chosen := ChoiceBehind(r, policy, Some(previous), result);
    LeftOut(r, policy, Some(previous), c, chosen, result, row);
    CountSlots(c, chosen, result.slots);
    ChosenByHysteresis(c, chosen);
    WhoStays(c, row.asset);
    RowQualifies(r, policy, previous, c, row);
    forall i | 0 <= i < |result.slots|
      ensures forall at :: QualifiedSince(r, policy, previous, row.asset, row.readings[policy.component].rank, at) ==>
        SeniorTo(r, policy, result.slots[i], row, at)
      ensures row.readings[policy.component].rank <= policy.k ==>
        || Qualified(r, policy, previous, result.slots[i].asset, result.slots[i].rank)
        || StrongerThanRow(result.slots[i], policy, row)
    {
      SlotAt(c, chosen, result.slots, i);
      SlotStays(r, policy, previous, c, result.slots[i], row);
    }
  }

  lemma ChosenByHysteresis(c: Choice, chosen: set<nat>)
    requires Prescribed(c, true, chosen) && c.policy.kind == Hysteresis
    ensures chosen == HysteresisChoice(c)
  {
  }

  /** The row's asset is an incumbent exactly if it qualifies by its former slot. */
  lemma RowQualifies(r: Response, policy: Policy, previous: Allocation, c: Choice, row: Row)
    requires ValidResponse(r) && ValidAllocation(previous) && c == ChoiceOf(r, policy, Some(previous)) && Comparable(r, policy, Some(previous))
    requires row.asset in c.eligible && policy.component in row.readings && row.readings[policy.component].Ranked?
    requires c.Rank(row.asset) == row.readings[policy.component].rank
    ensures IsIncumbent(c, row.asset) <==>
      exists at :: QualifiedSince(r, policy, previous, row.asset, row.readings[policy.component].rank, at)
  {
    PriorIsPrevious(r, policy, previous, c, row.asset);
    hide ValidResponse, Eligible, ValidAllocation, Comparable, QualifiedSince;
  }

  /** Who goes before a row that is left out. */
  lemma SlotStays(r: Response, policy: Policy, previous: Allocation, c: Choice, slot: Slot, row: Row)
    requires ValidResponse(r) && ValidAllocation(previous) && c == ChoiceOf(r, policy, Some(previous)) && Comparable(r, policy, Some(previous))
    requires slot == SlotOf(c, slot.asset) && slot.asset in HysteresisChoice(c) && row.asset in c.eligible
    requires policy.component in row.readings && row.readings[policy.component].Ranked?
    requires c.Rank(row.asset) == row.readings[policy.component].rank && c.Score(row.asset) == row.readings[policy.component].score
    requires IsIncumbent(c, row.asset) ==> IsIncumbent(c, slot.asset) && c.Senior(slot.asset, row.asset)
    requires c.Rank(row.asset) <= policy.k ==> IsIncumbent(c, slot.asset) || c.Better(slot.asset, row.asset)
    ensures forall at :: QualifiedSince(r, policy, previous, row.asset, row.readings[policy.component].rank, at) ==>
      SeniorTo(r, policy, slot, row, at)
    ensures row.readings[policy.component].rank <= policy.k ==>
      Qualified(r, policy, previous, slot.asset, slot.rank) || StrongerThanRow(slot, policy, row)
  {
    hide ValidResponse, ValidAllocation, Comparable, HysteresisChoice, HasSlot, Qualified, Choice.Held, Choice.Groups, Choice.Senior, SeniorTo, ChoiceOf;
    ChoiceTerms(r, policy, previous, c);
    PriorIsPrevious(r, policy, previous, c, slot.asset);
    PriorIsPrevious(r, policy, previous, c, row.asset);
    RowQualifies(r, policy, previous, c, row);
    forall at | QualifiedSince(r, policy, previous, row.asset, row.readings[policy.component].rank, at)
      ensures SeniorTo(r, policy, slot, row, at)
    {
      SeniorMeans(r, policy, c, slot, row);
    }
  }

  lemma ChoiceTerms(r: Response, policy: Policy, previous: Allocation, c: Choice)
    requires ValidResponse(r) && ValidAllocation(previous) && c == ChoiceOf(r, policy, Some(previous))
    ensures c.policy == policy && c.decisionAt == r.decisionAt
  {
  }

  lemma SeniorMeans(r: Response, policy: Policy, c: Choice, slot: Slot, row: Row)
    requires c.policy == policy && c.decisionAt == r.decisionAt && slot == SlotOf(c, slot.asset)
    requires policy.component in row.readings && row.readings[policy.component].Ranked?
    requires slot.asset in c.prior && row.asset in c.prior && c.Senior(slot.asset, row.asset)
    requires c.Score(row.asset) == row.readings[policy.component].score
    ensures SeniorTo(r, policy, slot, row, c.prior[row.asset].enteredAt)
  {
    hide Choice.Score, Choice.Rank, Choice.Groups;
  }

  predicate IsIncumbent(c: Choice, a: nat) {
    a in c.prior && a in c.eligible && (c.Held(a) || c.Rank(a) <= c.policy.k + c.policy.buffer)
  }

  /** What leaves an eligible asset out. */
  lemma WhoStays(c: Choice, a: nat)
    requires c.Valid() && a in c.eligible && a !in HysteresisChoice(c)
    ensures IsIncumbent(c, a) || c.Rank(a) <= c.policy.k ==> |HysteresisChoice(c)| == c.policy.k
    ensures IsIncumbent(c, a) ==> forall x :: x in HysteresisChoice(c) ==> IsIncumbent(c, x) && c.Senior(x, a)
    ensures c.Rank(a) <= c.policy.k ==> forall x :: x in HysteresisChoice(c) ==> IsIncumbent(c, x) || c.Better(x, a)
  {
    assert forall x :: x in c.Incumbents() <==> IsIncumbent(c, x);
    hide HysteresisChoice, Choice.Incumbents, IsIncumbent, Choice.Senior, Choice.Better;
    if a in c.Incumbents() {
      IncumbentLeftOut(c, a);
    } else if c.Rank(a) <= c.policy.k {
      ChallengerLeftOut(c, a);
    }
  }

  lemma IncumbentLeftOut(c: Choice, a: nat)
    requires c.Valid() && a in c.Incumbents() && a !in HysteresisChoice(c)
    ensures |HysteresisChoice(c)| == c.policy.k
    ensures forall x :: x in HysteresisChoice(c) ==> x in c.Incumbents() && c.Senior(x, a)
  {
    HysteresisFits(c);
    ScoreOrders(c, c.Incumbents());
    var kept := KeptIncumbents(c);
    LeftOutOfFirst(c.Incumbents(), c.SeniorOrder(), c.policy.k, a);
    assert kept <= HysteresisChoice(c);
    SmallerSubset(kept, HysteresisChoice(c));
    SameSize(kept, HysteresisChoice(c));
  }

  lemma ChallengerLeftOut(c: Choice, a: nat)
    requires c.Valid() && a in c.eligible && a !in c.Incumbents() && c.Rank(a) <= c.policy.k && a !in HysteresisChoice(c)
    ensures |HysteresisChoice(c)| == c.policy.k
    ensures forall x :: x in HysteresisChoice(c) ==> x in c.Incumbents() || c.Better(x, a)
  {
    HysteresisFits(c);
    var kept := KeptIncumbents(c);
    var places := c.policy.k - |kept|;
    var taken := First(Challengers(c), c.BetterOrder(), places);
    assert kept <= c.Incumbents() && taken <= Challengers(c) && kept !! taken && a in Challengers(c);
    assert HysteresisChoice(c) == kept + taken;
    ScoreOrders(c, Challengers(c));
    hide First, KeptIncumbents, Challengers, HysteresisChoice, Choice.Incumbents;
    LeftOutOfFirst(Challengers(c), c.BetterOrder(), places, a);
    assert |kept + taken| == |kept| + |taken|;
  }

  // ----- the cost-aware loop -----

  /** While slots are free, every asset met has one. */
  lemma {:induction false} FillsFirst(c: Choice, ordered: seq<nat>, turns: seq<set<nat>>, i: nat)
    requires GreedyRun(c, ordered, turns) && |turns[0]| <= c.policy.k && i <= |ordered| && |turns[i]| < c.policy.k
    ensures forall j :: 0 <= j < i ==> ordered[j] in turns[i]
  {
    if i > 0 {
      SizeWithinK(c, ordered, turns, i);
      SizeWithinK(c, ordered, turns, i - 1);
      FillsFirst(c, ordered, turns, i - 1);
      assert GreedyTurn(c, turns[i - 1], ordered[i - 1], turns[i]);
    }
  }

  /** The cost-aware policy leaves a fit row out only when all k slots are taken. */
  lemma CostAwareFills(r: Response, policy: Policy, previous: Allocation, result: Allocation, row: Row)
    requires ValidPolicy(policy) && ValidResponse(r) && ValidAllocation(previous) && policy.kind == CostAware
    requires IsAllocation(r, policy, Some(previous), result) && result.comparable
    requires row in r.rows && Fit(r, policy, row) && HasNoSlot(result, row)
    ensures |result.slots| == policy.k
  {
    hide IsAllocation, ValidResponse, ValidAllocation, ChoiceOf, DescribesChange, SlotsListed, Comparable, Choice.Valid;
    var c, chosen := ChoiceBehind(r, policy, Some(previous), result);
    LeftOut(r, policy, Some(previous), c, chosen, result, row);
    CountSlots(c, chosen, result.slots);
    if |chosen| < policy.k {
      LoopTakesAll(c, chosen, row.asset);
    }
  }

  lemma LoopTakesAll(c: Choice, chosen: set<nat>, a: nat)
    requires Prescribed(c, true, chosen) && c.policy.kind == CostAware && |c.prior.Keys * c.eligible.Keys| <= c.policy.k
    requires |chosen| < c.policy.k && a in c.eligible
    ensures a in chosen
  {
    var ordered, turns :| Listing(c.eligible.Keys, c.BetterOrder(), ordered) && GreedyRun(c, ordered, turns)
      && turns[0] == c.prior.Keys * c.eligible.Keys && chosen == turns[|ordered|];
    hide GreedyRun, Listing;
    FillsFirst(c, ordered, turns, |ordered|);
    var i := ListedAt(c.eligible.Keys, c.BetterOrder(), ordered, a);
  }

  lemma ListedAt(s: set<nat>, before: (nat, nat) -> bool, ordered: seq<nat>, a: nat) returns (i: nat)
    requires Listing(s, before, ordered) && a in s
    ensures i < |ordered| && ordered[i] == a
  {
    assert a in ToSet(ordered);
    i :| 0 <= i < |ordered| && ordered[i] == a;
  }

  /** The member that is not held with the lowest score, ties by asset id. */
  predicate WeakestUnheld(c: Choice, chosen: set<nat>, w: nat) {
    && w in chosen && !c.Held(w)
    && forall x :: x in chosen && x != w && !c.Held(x) ==> c.Score(w) < c.Score(x) || (c.Score(w) == c.Score(x) && w < x)
  }

  /** A hundredth of the score gained is more than the transition costs. */
  predicate Pays(c: Choice, chosen: set<nat>, a: nat, w: nat) {
    c.Score(a) - c.Score(w) > 100.0 * TransitionCost(c.policy, c.GroupMap(chosen), c.GroupMap(chosen - {w} + {a}))
  }

  /** With full slots, an asset replaces the weakest member that is not held exactly if that pays. */
  lemma SwapsIffPays(c: Choice, chosen: set<nat>, a: nat, next: set<nat>)
    requires GreedyTurn(c, chosen, a, next) && a !in chosen && |chosen| >= c.policy.k
    ensures forall w :: WeakestUnheld(c, chosen, w) ==> next == if Pays(c, chosen, a, w) then chosen - {w} + {a} else chosen
    ensures (forall w :: w in chosen ==> c.Held(w)) ==> next == chosen
  {
    forall w ensures WeakestUnheld(c, chosen, w) <==> IsWeakest(c, chosen, w) {
      WeakestMeans(c, chosen, w);
    }
    assert forall v, w :: WeakestUnheld(c, chosen, v) && WeakestUnheld(c, chosen, w) ==> v == w;
    hide Choice.Score, Choice.Held, IsWeakest, WeakestUnheld, TransitionCost, Choice.GroupMap;
  }

  lemma WeakestMeans(c: Choice, chosen: set<nat>, w: nat)
    ensures WeakestUnheld(c, chosen, w) <==> IsWeakest(c, chosen, w)
  {
    assert forall x :: x in c.Removable(chosen) <==> x in chosen && !c.Held(x);
    hide Choice.Removable, Choice.Held, Choice.Score;
  }

  // ----- what changed -----

  predicate Holds(slots: seq<Slot>, a: nat) {
    exists i :: 0 <= i < |slots| && slots[i].asset == a
  }

  predicate HoldsGroup(slots: seq<Slot>, g: nat) {
    exists i :: 0 <= i < |slots| && g in slots[i].groups
  }

  function SlotsBefore(comparable: bool, previous: Option<Allocation>): seq<Slot> {
    if comparable && previous.Some? then previous.value.slots else []
  }

  function SlotGroups(slots: seq<Slot>): Groups
    requires forall i, j :: 0 <= i < j < |slots| ==> slots[i].asset != slots[j].asset
  {
    map i | 0 <= i < |slots| :: slots[i].asset := slots[i].groups
  }

  /** The change against the slots before, asset by asset and group by group. */
  ghost predicate ChangeTold(before: seq<Slot>, result: Allocation) {
    && (forall a :: a in result.added <==> Holds(result.slots, a) && !Holds(before, a))
    && (forall a :: a in result.removed <==> Holds(before, a) && !Holds(result.slots, a))
    && (forall a :: a in result.retained <==> Holds(before, a) && Holds(result.slots, a))
    && (forall g :: g in result.addedGroups <==> HoldsGroup(result.slots, g) && !HoldsGroup(before, g))
    && (forall g :: g in result.removedGroups <==> HoldsGroup(before, g) && !HoldsGroup(result.slots, g))
  }

  /** The allocation before was made over the same map, policy and score policy, and not later. */
  predicate SameTerms(r: Response, policy: Policy, previous: Allocation) {
    && previous.policy == policy && previous.mapVersion == r.mapVersion
    && previous.scorePolicy == r.scorePolicy && previous.decisionAt <= r.decisionAt
  }

  /** Whether and why an allocation continues the one before. */
  predicate ComparableTold(r: Response, policy: Policy, previous: Option<Allocation>, result: Allocation) {
    && (result.comparable <==> previous.Some? && SameTerms(r, policy, previous.value))
    && (result.reason == None <==> result.comparable && (r.status == Ready || r.status == Partial))
    && (result.reason == Some("attention_unavailable") <==> r.status != Ready && r.status != Partial)
    && (result.reason == Some("no_previous_allocation") <==> (r.status == Ready || r.status == Partial) && previous == None)
  }

  /** The change an allocation reports is the one between its slots and those of the allocation it continues. */
  lemma ChangesAreTold(r: Response, policy: Policy, previous: Option<Allocation>, result: Allocation)
    requires ValidPolicy(policy) && ValidResponse(r) && (previous.Some? ==> ValidAllocation(previous.value))
    requires IsAllocation(r, policy, previous, result)
    ensures ComparableTold(r, policy, previous, result)
    ensures var before := SlotsBefore(result.comparable, previous);
      && ValidAllocation(result) && ChangeTold(before, result)
      && result.switchCost == TransitionCost(policy, SlotGroups(before), SlotGroups(result.slots))
      && result.churn == if result.comparable then (|result.added| + |result.removed|) as real / (2 * policy.k) as real else 0.0
  {
    AllocationValid(r, policy, previous, result);
    hide ValidResponse;
    ReasonTold(r, policy, previous, result);
    hide IsAllocation, Comparable;
    var c, chosen := ChoiceBehind(r, policy, previous, result);
    PriorSlots(r, policy, previous, c);
    hide ChoiceOf, Prescribed, ChangeTold;
    ChangeOf(c, chosen, SlotsBefore(result.comparable, previous), result);
  }

  lemma ReasonTold(r: Response, policy: Policy, previous: Option<Allocation>, result: Allocation)
    requires ValidResponse(r) && (previous.Some? ==> ValidAllocation(previous.value)) && IsAllocation(r, policy, previous, result)
    ensures ComparableTold(r, policy, previous, result)
  {
    hide ValidResponse, ValidAllocation, Prescribed, SlotsListed, DescribesChange;
  }

  lemma PriorSlots(r: Response, policy: Policy, previous: Option<Allocation>, c: Choice)
    requires ValidResponse(r) && (previous.Some? ==> ValidAllocation(previous.value)) && c == ChoiceOf(r, policy, previous)
    ensures var before := SlotsBefore(Comparable(r, policy, previous), previous);
      && (forall i, j :: 0 <= i < j < |before| ==> before[i].asset != before[j].asset)
      && (forall i :: 0 <= i < |before| ==> before[i].asset in c.prior && c.prior[before[i].asset] == before[i])
      && (forall a :: a in c.prior ==> c.prior[a].asset == a && c.prior[a] in before)
  {
    hide ValidResponse, Eligible;
    if Comparable(r, policy, previous) {
      SlotsCount(previous.value.slots);
    }
  }

  lemma ChangeOf(c: Choice, chosen: set<nat>, before: seq<Slot>, result: Allocation)
    requires SlotsListed(c, chosen, result.slots) && DescribesChange(c, chosen, result) && result.policy == c.policy && c.policy.k > 0
    requires ValidAllocation(result)
    requires forall i, j :: 0 <= i < j < |before| ==> before[i].asset != before[j].asset
    requires forall i :: 0 <= i < |before| ==> before[i].asset in c.prior && c.prior[before[i].asset] == before[i]
    requires forall a :: a in c.prior ==> c.prior[a].asset == a && c.prior[a] in before
    ensures ChangeTold(before, result)
    ensures result.switchCost == TransitionCost(c.policy, SlotGroups(before), SlotGroups(result.slots))
    ensures result.churn == if result.comparable then (|result.added| + |result.removed|) as real / (2 * c.policy.k) as real else 0.0
  {
    hide ChangeTold, SlotsListed, Choice.GroupMap, GroupsBySlot, AllGroups, HoldsGroup, SlotGroups, TransitionCost, Holds, ChurnOf;
    PriorGroups(c.prior, before);
    ChosenGroups(c, chosen, result.slots);
    HeldGroups(before);
    HeldGroups(result.slots);
    assert |result.added + result.removed| == |result.added| + |result.removed|;
    ChurnMeans(|result.added| + |result.removed|, c.policy.k);
    SetsTold(c, chosen, before, result);
  }

  lemma SetsTold(c: Choice, chosen: set<nat>, before: seq<Slot>, result: Allocation)
    requires DescribesChange(c, chosen, result)
    requires forall a :: a in c.prior <==> Holds(before, a)
    requires forall a :: a in chosen <==> Holds(result.slots, a)
    requires forall g :: g in AllGroups(GroupsBySlot(c.prior)) <==> HoldsGroup(before, g)
    requires forall g :: g in AllGroups(c.GroupMap(chosen)) <==> HoldsGroup(result.slots, g)
    ensures ChangeTold(before, result)
  {
    hide Choice.GroupMap, GroupsBySlot, AllGroups, HoldsGroup, TransitionCost, Holds, ChurnOf;
  }

  lemma ChurnMeans(changed: nat, k: nat)
    requires k > 0
    ensures ChurnOf(changed, k) == changed as real / (2 * k) as real
  {
  }

  lemma PriorGroups(prior: map<nat, Slot>, before: seq<Slot>)
    requires forall i, j :: 0 <= i < j < |before| ==> before[i].asset != before[j].asset
    requires forall i :: 0 <= i < |before| ==> before[i].asset in prior && prior[before[i].asset] == before[i]
    requires forall a :: a in prior ==> prior[a].asset == a && prior[a] in before
    ensures GroupsBySlot(prior) == SlotGroups(before)
    ensures forall a :: a in prior <==> Holds(before, a)
  {
  }

  lemma ChosenGroups(c: Choice, chosen: set<nat>, slots: seq<Slot>)
    requires SlotsListed(c, chosen, slots) && forall i, j :: 0 <= i < j < |slots| ==> slots[i].asset != slots[j].asset
    ensures c.GroupMap(chosen) == SlotGroups(slots)
    ensures forall a :: a in chosen <==> Holds(slots, a)
  {
    forall i | 0 <= i < |slots| ensures slots[i].asset in chosen && slots[i] == SlotOf(c, slots[i].asset) {
      SlotAt(c, chosen, slots, i);
    }
    forall a | a in chosen ensures Holds(slots, a) {
      var i := ChosenHasSlot(c, chosen, slots, a);
    }
    hide SlotsListed, Choice.Groups;
  }

  lemma HeldGroups(slots: seq<Slot>)
    requires forall i, j :: 0 <= i < j < |slots| ==> slots[i].asset != slots[j].asset
    ensures forall g :: g in AllGroups(SlotGroups(slots)) <==> HoldsGroup(slots, g)
  {
    var m := SlotGroups(slots);
    forall g | HoldsGroup(slots, g) ensures g in AllGroups(m) {
      var i :| 0 <= i < |slots| && g in slots[i].groups;
      assert slots[i].asset in m && g in m[slots[i].asset];
    }
  }
}
