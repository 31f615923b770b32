/**
 The shadow allocator: which assets would hold the k hot slots under the top-k, hysteresis
 and cost-aware policies. It recommends; nothing reads its slots back but the next call.

 Asset and group ids are named by their position in text order; scores are exact.
 */
module Allocation {
  import opened Prelude
  import opened Ranking

  const MAX_DATA_AGE_MS := 150_000

  datatype Component = Movement | Activity | Positioning | Dislocation | Confluence
  datatype Kind = TopK | Hysteresis | CostAware
  datatype Policy = Policy(
    id: nat, kind: Kind, component: Component, k: nat, buffer: nat, minimumHoldMinutes: nat,
    switchPenalty: real, warmUpCost: real)
  datatype Reading = Unready | Ranked(score: real, rank: nat)
  datatype Original = Original(group: Option<nat>, current: bool)
  datatype ResponseStatus = Ready | Partial | Unavailable | Stale

  datatype Row = Row(
    asset: nat, identityOk: bool, dataAsOf: int, readings: map<Component, Reading>, originals: seq<Original>)
  datatype Response = Response(
    decisionAt: int, status: ResponseStatus, mapVersion: string, scorePolicy: string, rows: seq<Row>)

  datatype Slot = Slot(asset: nat, groups: set<nat>, enteredAt: int, score: real, rank: nat)
  datatype Allocation = Allocation(
    decisionAt: int, mapVersion: string, policy: Policy, scorePolicy: string, comparable: bool,
    reason: Option<string>, slots: seq<Slot>, added: set<nat>, removed: set<nat>, retained: set<nat>,
    addedGroups: set<nat>, removedGroups: set<nat>, churn: real, switchCost: real)

  predicate ValidPolicy(p: Policy) {
    p.k > 0 && p.switchPenalty >= 0.0 && p.warmUpCost >= 0.0
  }

  predicate ValidResponse(r: Response) {
    && (forall i, j :: 0 <= i < j < |r.rows| ==> r.rows[i].asset != r.rows[j].asset)
    && (forall i, c :: 0 <= i < |r.rows| ==> c in r.rows[i].readings)
  }

  /** What an allocation may rely on about the one it follows. */
  predicate ValidAllocation(a: Allocation) {
    && |a.slots| <= a.policy.k
    && (forall i, j :: 0 <= i < j < |a.slots| ==> a.slots[i].asset != a.slots[j].asset)
    && (forall i :: 0 <= i < |a.slots| ==> a.slots[i].enteredAt <= a.decisionAt)
  }

  // ----- the choice -----

  /** What one choice sees: the eligible assets and the slots it may carry over. */
  datatype Choice = Choice(policy: Policy, decisionAt: int, eligible: map<nat, Row>, prior: map<nat, Slot>)
  {
    predicate Valid() {
      ValidPolicy(policy) && forall a :: a in eligible ==> policy.component in eligible[a].readings && eligible[a].readings[policy.component].Ranked?
    }

    function Score(a: nat): real {
      if a in eligible && policy.component in eligible[a].readings && eligible[a].readings[policy.component].Ranked?
      then eligible[a].readings[policy.component].score else 0.0
    }

    function Rank(a: nat): nat {
      if a in eligible && policy.component in eligible[a].readings && eligible[a].readings[policy.component].Ranked?
      then eligible[a].readings[policy.component].rank else 0
    }

    predicate Held(a: nat) {
      a in prior && decisionAt - prior[a].enteredAt < policy.minimumHoldMinutes * MINUTE
    }

    function Groups(a: nat): set<nat> {
      if a in eligible
      then set i | 0 <= i < |eligible[a].originals| && eligible[a].originals[i].current && eligible[a].originals[i].group.Some?
             :: eligible[a].originals[i].group.value
      else {}
    }

    function GroupMap(chosen: set<nat>): map<nat, set<nat>> {
      map a | a in chosen :: Groups(a)
    }

    /** Score order, best first; ties by asset id. */
    predicate Better(a: nat, b: nat) {
      Score(a) > Score(b) || (Score(a) == Score(b) && a < b)
    }

    /** Eviction order, weakest first. */
    predicate Weaker(a: nat, b: nat) {
      Score(a) < Score(b) || (Score(a) == Score(b) && a < b)
    }

    function EnteredAt(a: nat): int {
      if a in prior then prior[a].enteredAt else decisionAt
    }

    /** Order of incumbents: held ones first, then the longest standing, then the best. */
    predicate Senior(a: nat, b: nat) {
      if Held(a) != Held(b) then Held(a)
      else if EnteredAt(a) != EnteredAt(b) then EnteredAt(a) < EnteredAt(b)
      else Better(a, b)
    }

    function BetterOrder(): (nat, nat) -> bool { (a: nat, b: nat) => Better(a, b) }
    function WeakerOrder(): (nat, nat) -> bool { (a: nat, b: nat) => Weaker(a, b) }
    function SeniorOrder(): (nat, nat) -> bool { (a: nat, b: nat) => Senior(a, b) }

    function Incumbents(): set<nat> {
      set a | a in prior && a in eligible && (Held(a) || Rank(a) <= policy.k + policy.buffer)
    }

    function Removable(chosen: set<nat>): set<nat> {
      set a | a in chosen && !Held(a)
    }

    function SwapCost(before: set<nat>, after: set<nat>): real {
      TransitionCost(policy, GroupMap(before), GroupMap(after))
    }
  }

  function AllGroups(m: map<nat, set<nat>>): set<nat> {
    set a, g | a in m && g in m[a] :: g
  }

  /** Assets without any group: each pays for its own transition. */
  function Unmapped(m: map<nat, set<nat>>): set<nat> {
    set a | a in m && m[a] == {}
  }

  function Additions(before: map<nat, set<nat>>, after: map<nat, set<nat>>): nat {
    |AllGroups(after) - AllGroups(before)| + |Unmapped(after) - Unmapped(before)|
  }

  function TransitionCost(p: Policy, before: map<nat, set<nat>>, after: map<nat, set<nat>>): real {
    Priced(p, Additions(before, after), Additions(after, before))
  }

  /** Every change pays the switch penalty, every addition also warms up. */
  function Priced(p: Policy, additions: nat, removals: nat): real {
    p.switchPenalty * (additions + removals) as real + p.warmUpCost * additions as real
  }

  /** The top-k choice. */
  ghost function TopChoice(c: Choice): set<nat> {
    First(c.eligible.Keys, c.BetterOrder(), c.policy.k)
  }

  ghost function KeptIncumbents(c: Choice): set<nat> {
    First(c.Incumbents(), c.SeniorOrder(), c.policy.k)
  }

  ghost function Challengers(c: Choice): set<nat> {
    set a | a in c.eligible && a !in KeptIncumbents(c) && c.Rank(a) <= c.policy.k
  }

  /** The hysteresis choice: senior incumbents within the buffer, then top-ranked challengers. */
  ghost function HysteresisChoice(c: Choice): set<nat> {
    var kept := KeptIncumbents(c);
    kept + First(Challengers(c), c.BetterOrder(), if |kept| <= c.policy.k then c.policy.k - |kept| else 0)
  }

  /** The weakest member that may be evicted. */
  ghost predicate IsWeakest(c: Choice, chosen: set<nat>, r: nat) {
    r in c.Removable(chosen) && forall a :: a in c.Removable(chosen) && a != r ==> c.Weaker(r, a)
  }

  predicate WorthSwapping(c: Choice, chosen: set<nat>, a: nat, r: nat) {
    (c.Score(a) - c.Score(r)) / 100.0 > c.SwapCost(chosen, chosen - {r} + {a})
  }

  /** One turn of the cost-aware loop, considering asset a. */
  ghost predicate GreedyTurn(c: Choice, chosen: set<nat>, a: nat, next: set<nat>) {
    if a in chosen then next == chosen
    else if |chosen| < c.policy.k then next == chosen + {a}
    else
      || (next == chosen && forall r :: IsWeakest(c, chosen, r) ==> !WorthSwapping(c, chosen, a, r))
      || exists r :: IsWeakest(c, chosen, r) && WorthSwapping(c, chosen, a, r) && next == chosen - {r} + {a}
  }

  /** The chosen sets of a whole cost-aware loop over `ordered`, first to last. */
  ghost predicate GreedyRun(c: Choice, ordered: seq<nat>, turns: seq<set<nat>>) {
    && |turns| == |ordered| + 1
    && forall i :: 0 <= i < |ordered| ==> GreedyTurn(c, turns[i], ordered[i], turns[i + 1])
  }

  lemma ScoreOrders(c: Choice, s: set<nat>)
    ensures StrictOrder(s, c.BetterOrder()) && StrictOrder(s, c.WeakerOrder()) && StrictOrder(s, c.SeniorOrder())
  {
  }

  method ChooseTop(c: Choice) returns (chosen: set<nat>)
    requires c.Valid()
    ensures chosen == TopChoice(c)
  {
    ScoreOrders(c, c.eligible.Keys);
    var ordered := Sort(c.eligible.Keys, c.BetterOrder());
    var n := if |ordered| < c.policy.k then |ordered| else c.policy.k;
    PrefixIsFirst(c.eligible.Keys, c.BetterOrder(), ordered, n);
    AllFirst(c.eligible.Keys, c.BetterOrder(), n, c.policy.k);
    chosen := ToSet(ordered[..n]);
  }

  method ChooseHysteresis(c: Choice) returns (chosen: set<nat>)
    requires c.Valid()
    ensures chosen == HysteresisChoice(c)
  {
    ScoreOrders(c, c.Incumbents());
    var seniors := Sort(c.Incumbents(), c.SeniorOrder());
    var n := if |seniors| < c.policy.k then |seniors| else c.policy.k;
    PrefixIsFirst(c.Incumbents(), c.SeniorOrder(), seniors, n);
    AllFirst(c.Incumbents(), c.SeniorOrder(), n, c.policy.k);
    FirstCount(c.Incumbents(), c.SeniorOrder(), c.policy.k);
    chosen := FillChallengers(c, ToSet(seniors[..n]));
  }

  /** Give the places the kept incumbents leave to challengers, best first. */
  method FillChallengers(c: Choice, kept: set<nat>) returns (chosen: set<nat>)
    requires c.Valid() && kept == KeptIncumbents(c) && |kept| <= c.policy.k
    ensures chosen == HysteresisChoice(c)
  {
    ScoreOrders(c, c.eligible.Keys);
    var ordered := Sort(c.eligible.Keys, c.BetterOrder());
    ghost var taken, met;
    chosen, taken, met := TakeInOrder(c, kept, ordered);
    ChallengersTaken(c, ordered, met, taken, c.policy.k - |kept|);
  }

  /** The challengers among the first i assets in score order. */
  ghost function Met(c: Choice, ordered: seq<nat>, i: nat): set<nat>
    requires i <= |ordered|
  {
    Challengers(c) * ToSet(ordered[..i])
  }

  method TakeInOrder(c: Choice, kept: set<nat>, ordered: seq<nat>) returns (chosen: set<nat>, ghost taken: set<nat>, ghost met: nat)
    requires Listing(c.eligible.Keys, c.BetterOrder(), ordered)
    requires kept == KeptIncumbents(c) && |kept| <= c.policy.k
    ensures met <= |ordered| && taken == Met(c, ordered, met)
    ensures chosen == kept + taken && |chosen| == |kept| + |taken| <= c.policy.k
    ensures met == |ordered| || |chosen| == c.policy.k
  {
    NothingMet(c, ordered);
    hide *;
    chosen, taken := kept, {};
    var i := 0;
    while i < |ordered| && |chosen| < c.policy.k
      invariant 0 <= i <= |ordered|
      invariant chosen == kept + taken && |chosen| == |kept| + |taken| <= c.policy.k
      invariant taken == Met(c, ordered, i)
    {
      MeetNext(c, ordered, i);
      if ordered[i] !in chosen && c.Rank(ordered[i]) <= c.policy.k {
        taken := taken + {ordered[i]};
        chosen := chosen + {ordered[i]};
      }
      i := i + 1;
    }
    met := i;
  }

  lemma NothingMet(c: Choice, ordered: seq<nat>)
    ensures Met(c, ordered, 0) == {}
  {
  }

  lemma MeetNext(c: Choice, ordered: seq<nat>, i: nat)
    requires Listing(c.eligible.Keys, c.BetterOrder(), ordered) && i < |ordered|
    ensures ordered[i] !in Met(c, ordered, i)
    ensures Met(c, ordered, i + 1) ==
      if ordered[i] !in KeptIncumbents(c) && c.Rank(ordered[i]) <= c.policy.k
      then Met(c, ordered, i) + {ordered[i]} else Met(c, ordered, i)
  {
    ScoreOrders(c, c.eligible.Keys);
    ListingDistinct(c.eligible.Keys, c.BetterOrder(), ordered);
    assert ordered[i] in ToSet(ordered) && ordered[i] in c.eligible;
    PrefixGrows(ordered, i);
    hide Choice.Better, Choice.BetterOrder, Choice.Rank, KeptIncumbents, Listing, Sorted, StrictOrder, ToSet;
  }

  lemma PrefixGrows<T>(xs: seq<T>, i: nat)
    requires Distinct(xs) && i < |xs|
    ensures ToSet(xs[..i + 1]) == ToSet(xs[..i]) + {xs[i]} && xs[i] !in ToSet(xs[..i])
  {
    assert xs[..i + 1] == xs[..i] + [xs[i]];
  }

  /** Challengers met in score order until the places run out are the first of them. */
  lemma ChallengersTaken(c: Choice, ordered: seq<nat>, i: nat, taken: set<nat>, places: nat)
    requires Listing(c.eligible.Keys, c.BetterOrder(), ordered) && i <= |ordered|
    requires taken == Met(c, ordered, i)
    requires |taken| <= places && (i == |ordered| || |taken| == places)
    ensures taken == First(Challengers(c), c.BetterOrder(), places)
  {
    var s := Challengers(c);
    ScoreOrders(c, s);
    FirstCount(s, c.BetterOrder(), places);
    forall x, y | x in taken && y in s && y !in taken ensures c.Better(x, y) {
      var p :| 0 <= p < i && ordered[..i][p] == x;
      assert y in ToSet(ordered);
      var q :| 0 <= q < |ordered| && ordered[q] == y;
    }
    FirstByDominance(s, c.BetterOrder(), taken, places);
  }

  /** A subset that precedes everything else is the first part of the listing. */
  lemma FirstByDominance<T>(s: set<T>, before: (T, T) -> bool, taken: set<T>, places: nat)
    requires StrictOrder(s, before) && taken <= s
    requires forall x, y :: x in taken && y in s && y !in taken ==> before(x, y)
    requires |taken| <= places && (taken == s || |taken| == places)
    ensures taken == First(s, before, places)
  {
    forall x | x in s ensures x in taken <==> |Before(s, before, x)| < places {
      if x in taken {
        assert Before(s, before, x) <= taken - {x};
        SmallerSubset(Before(s, before, x), taken - {x});
      } else {
        assert taken <= Before(s, before, x);
        SmallerSubset(taken, Before(s, before, x));
      }
    }
  }

  method ChooseCostAware(c: Choice, start: set<nat>) returns (chosen: set<nat>, ghost ordered: seq<nat>, ghost turns: seq<set<nat>>)
    requires c.Valid() && start <= c.eligible.Keys && |start| <= c.policy.k
    ensures Listing(c.eligible.Keys, c.BetterOrder(), ordered) && GreedyRun(c, ordered, turns)
    ensures turns[0] == start && chosen == turns[|ordered|]
  {
    ScoreOrders(c, c.eligible.Keys);
    var list := Sort(c.eligible.Keys, c.BetterOrder());
    ordered := list;
    chosen, turns := ConsiderAll(c, start, list);
  }

  method ConsiderAll(c: Choice, start: set<nat>, list: seq<nat>) returns (chosen: set<nat>, ghost turns: seq<set<nat>>)
    requires c.Valid()
    ensures GreedyRun(c, list, turns) && turns[0] == start && chosen == turns[|list|]
  {
    hide GreedyTurn;
    chosen, turns := start, [start];
    var i := 0;
    while i < |list|
      invariant 0 <= i <= |list| && |turns| == i + 1
      invariant turns[0] == start && chosen == turns[i]
      invariant forall j :: 0 <= j < i ==> GreedyTurn(c, turns[j], list[j], turns[j + 1])
    {
      chosen := ConsiderAsset(c, chosen, list[i]);
      turns := turns + [chosen];
      i := i + 1;
    }
  }

  method ConsiderAsset(c: Choice, chosen: set<nat>, a: nat) returns (next: set<nat>)
    requires c.Valid()
    ensures GreedyTurn(c, chosen, a, next)
  {
    next := chosen;
    if a in chosen {
      return;
    }
    if |chosen| < c.policy.k {
      return chosen + {a};
    }
    var removable := c.Removable(chosen);
    if removable == {} {
      return;
    }
    ScoreOrders(c, removable);
    var remove := FirstOf(removable, c.WeakerOrder());
    assert IsWeakest(c, chosen, remove);
    var benefit := (c.Score(a) - c.Score(remove)) / 100.0;
    if benefit > TransitionCost(c.policy, c.GroupMap(chosen), c.GroupMap(chosen - {remove} + {a})) {
      next := chosen - {remove} + {a};
    }
  }

  // ----- the allocation -----

  predicate Comparable(r: Response, policy: Policy, previous: Option<Allocation>) {
    && previous.Some?
    && previous.value.mapVersion == r.mapVersion
    && previous.value.policy == policy
    && previous.value.scorePolicy == r.scorePolicy
    && previous.value.decisionAt <= r.decisionAt
  }

  predicate Usable(r: Response) {
    r.status == Ready || r.status == Partial
  }

  predicate EligibleRow(r: Response, policy: Policy, row: Row)
    requires policy.component in row.readings
  {
    && Usable(r) && row.identityOk && row.readings[policy.component].Ranked?
    && 0 <= r.decisionAt - row.dataAsOf <= MAX_DATA_AGE_MS
  }

  /** The rows by asset. */
  function RowMap(rows: seq<Row>): (m: map<nat, Row>)
    requires forall i, j :: 0 <= i < j < |rows| ==> rows[i].asset != rows[j].asset
    ensures forall i :: 0 <= i < |rows| ==> rows[i].asset in m && m[rows[i].asset] == rows[i]
    ensures forall a :: a in m ==> m[a] in rows && m[a].asset == a
  {
    map i | 0 <= i < |rows| :: rows[i].asset := rows[i]
  }

  function Eligible(r: Response, policy: Policy): map<nat, Row>
    requires ValidResponse(r)
  {
    var rows := RowMap(r.rows);
    map a | a in rows && EligibleRow(r, policy, rows[a]) :: rows[a]
  }

  function SlotMap(slots: seq<Slot>): map<nat, Slot>
    requires forall i, j :: 0 <= i < j < |slots| ==> slots[i].asset != slots[j].asset
  {
    map i | 0 <= i < |slots| :: slots[i].asset := slots[i]
  }

  function ChoiceOf(r: Response, policy: Policy, previous: Option<Allocation>): Choice
    requires ValidResponse(r) && (previous.Some? ==> ValidAllocation(previous.value))
  {
    Choice(policy, r.decisionAt, Eligible(r, policy),
           if Comparable(r, policy, previous) then SlotMap(previous.value.slots) else map[])
  }

  /** The chosen set the policy prescribes. */
  ghost predicate Prescribed(c: Choice, comparable: bool, chosen: set<nat>) {
    if c.policy.kind == TopK || !comparable then chosen == TopChoice(c)
    else if c.policy.kind == Hysteresis then chosen == HysteresisChoice(c)
    else exists ordered, turns ::
      && Listing(c.eligible.Keys, c.BetterOrder(), ordered) && GreedyRun(c, ordered, turns)
      && turns[0] == c.prior.Keys * c.eligible.Keys && chosen == turns[|ordered|]
  }

  function SlotOf(c: Choice, a: nat): Slot {
    Slot(a, c.Groups(a), c.EnteredAt(a), c.Score(a), c.Rank(a))
  }

  function GroupsBySlot(slots: map<nat, Slot>): map<nat, set<nat>> {
    map a | a in slots :: slots[a].groups
  }

  /** An allocation is the prescribed choice and what changed against the slots before it. */
  ghost predicate IsAllocation(r: Response, policy: Policy, previous: Option<Allocation>, result: Allocation)
    requires ValidResponse(r) && (previous.Some? ==> ValidAllocation(previous.value))
  {
    var c := ChoiceOf(r, policy, previous);
    exists chosen :: Prescribed(c, Comparable(r, policy, previous), chosen) && Describes(r, c, previous, chosen, result)
  }

  ghost predicate Describes(r: Response, c: Choice, previous: Option<Allocation>, chosen: set<nat>, result: Allocation) {
    && result.decisionAt == r.decisionAt && result.mapVersion == r.mapVersion
    && result.policy == c.policy && result.scorePolicy == r.scorePolicy
    && result.comparable == Comparable(r, c.policy, previous)
    && result.reason == ReasonOf(r, c.policy, previous)
    && SlotsListed(c, chosen, result.slots)
    && DescribesChange(c, chosen, result)
  }

  function ReasonOf(r: Response, policy: Policy, previous: Option<Allocation>): Option<string> {
    if !Usable(r) then Some("attention_unavailable")
    else if Comparable(r, policy, previous) then None
    else if previous.None? then Some("no_previous_allocation")
    else Some("map_or_policy_changed")
  }

  /** One slot for each chosen asset, best first. */
  ghost predicate SlotsListed(c: Choice, chosen: set<nat>, slots: seq<Slot>) {
    && |slots| == |chosen|
    && ToSet(AssetsOf(slots)) == chosen && Sorted(AssetsOf(slots), c.BetterOrder())
    && (forall i :: 0 <= i < |slots| ==> slots[i] == SlotOf(c, slots[i].asset))
  }

  predicate DescribesChange(c: Choice, chosen: set<nat>, result: Allocation) {
    var before, after := GroupsBySlot(c.prior), c.GroupMap(chosen);
    && result.added == chosen - c.prior.Keys
    && result.removed == c.prior.Keys - chosen
    && result.retained == chosen * c.prior.Keys
    && result.addedGroups == AllGroups(after) - AllGroups(before)
    && result.removedGroups == AllGroups(before) - AllGroups(after)
    && result.switchCost == TransitionCost(c.policy, before, after)
    && result.churn == if result.comparable then ChurnOf(|result.added + result.removed|, c.policy.k) else 0.0
  }

  function ChurnOf(changed: nat, k: nat): real {
    if k == 0 then 0.0 else changed as real / (2 * k) as real
  }

  function AssetsOf(slots: seq<Slot>): seq<nat> {
    seq(|slots|, i requires 0 <= i < |slots| => slots[i].asset)
  }

  method AllocateShadowHotset(r: Response, policy: Policy, previous: Option<Allocation>) returns (result: Allocation)
    requires ValidPolicy(policy) && ValidResponse(r)
    requires previous.Some? ==> ValidAllocation(previous.value)
    ensures IsAllocation(r, policy, previous, result)
  {
    var comparable := Comparable(r, policy, previous);
    var c := ChoiceOf(r, policy, previous);
    ChoiceValid(r, policy, previous);
    var chosen;
    if policy.kind == TopK || !comparable {
      chosen := ChooseTop(c);
    } else if policy.kind == Hysteresis {
      chosen := ChooseHysteresis(c);
    } else {
      // The prior slots never exceed k, so cutting the carried-over ones to k cuts none.
      ghost var ordered, turns;
      chosen, ordered, turns := ChooseCostAware(c, c.prior.Keys * c.eligible.Keys);
    }
    assert Prescribed(c, comparable, chosen);
    result := Describe(r, c, previous, chosen);
  }

  lemma ChoiceValid(r: Response, policy: Policy, previous: Option<Allocation>)
    requires ValidPolicy(policy) && ValidResponse(r) && (previous.Some? ==> ValidAllocation(previous.value))
    ensures var c := ChoiceOf(r, policy, previous);
      && c.Valid() && (forall a :: a in c.prior ==> c.prior[a].asset == a && c.prior[a].enteredAt <= r.decisionAt)
      && (Comparable(r, policy, previous) ==> |c.prior| <= policy.k && |c.prior.Keys * c.eligible.Keys| <= policy.k)
  {
    EligibleValid(r, policy);
    if Comparable(r, policy, previous) {
      SlotsCount(previous.value.slots);
      SmallerSubset(SlotMap(previous.value.slots).Keys * Eligible(r, policy).Keys, SlotMap(previous.value.slots).Keys);
      hide Eligible, EligibleRow;
    }
  }

  lemma EligibleValid(r: Response, policy: Policy)
    requires ValidResponse(r)
    ensures var eligible := Eligible(r, policy);
      forall a :: a in eligible ==> policy.component in eligible[a].readings && eligible[a].readings[policy.component].Ranked?
  {
  }

  lemma SlotsCount(slots: seq<Slot>)
    requires forall i, j :: 0 <= i < j < |slots| ==> slots[i].asset != slots[j].asset
    ensures |SlotMap(slots)| == |SlotMap(slots).Keys| == |slots|
    ensures forall a :: a in SlotMap(slots) ==> SlotMap(slots)[a].asset == a && SlotMap(slots)[a] in slots
  {
    assert SlotMap(slots).Keys == ToSet(AssetsOf(slots)) by {
      forall i | 0 <= i < |slots| ensures slots[i].asset in AssetsOf(slots) {
        assert AssetsOf(slots)[i] == slots[i].asset;
      }
    }
    CountDistinct(AssetsOf(slots));
  }

  method Describe(r: Response, c: Choice, previous: Option<Allocation>, chosen: set<nat>) returns (result: Allocation)
    requires c.Valid()
    ensures Describes(r, c, previous, chosen, result)
  {
    var slots := ListSlots(c, chosen);
    var comparable := Comparable(r, c.policy, previous);
    var reason := if comparable then None else if previous.None? then Some("no_previous_allocation") else Some("map_or_policy_changed");
    if !Usable(r) {
      reason := Some("attention_unavailable");
    }
    var empty := Allocation(
      r.decisionAt, r.mapVersion, c.policy, r.scorePolicy, comparable, reason, slots, {}, {}, {}, {}, {}, 0.0, 0.0);
    result := DescribeChange(c, chosen, empty);
    hide SlotsListed, DescribesChange;
  }

  /** What changes against the prior slots, and what that is estimated to cost. */
  method DescribeChange(c: Choice, chosen: set<nat>, base: Allocation) returns (result: Allocation)
    ensures DescribesChange(c, chosen, result)
    ensures result == base.(added := result.added, removed := result.removed, retained := result.retained,
      addedGroups := result.addedGroups, removedGroups := result.removedGroups, churn := result.churn, switchCost := result.switchCost)
  {
    var added, removed := chosen - c.prior.Keys, c.prior.Keys - chosen;
    var before, after := GroupsBySlot(c.prior), c.GroupMap(chosen);
    hide AllGroups, TransitionCost, Choice.GroupMap, GroupsBySlot, ChurnOf;
    result := base.(
      added := added, removed := removed, retained := chosen * c.prior.Keys,
      addedGroups := AllGroups(after) - AllGroups(before), removedGroups := AllGroups(before) - AllGroups(after),
      churn := if base.comparable then ChurnOf(|added + removed|, c.policy.k) else 0.0,
      switchCost := TransitionCost(c.policy, before, after));
  }

  method ListSlots(c: Choice, chosen: set<nat>) returns (slots: seq<Slot>)
    ensures SlotsListed(c, chosen, slots)
  {
    ScoreOrders(c, chosen);
    var listed := Sort(chosen, c.BetterOrder());
    hide SlotOf;
    slots := seq(|listed|, i requires 0 <= i < |listed| => SlotOf(c, listed[i]));
    SlotAssets(c, listed, slots);
  }

  lemma SlotAssets(c: Choice, listed: seq<nat>, slots: seq<Slot>)
    requires |slots| == |listed| && forall i :: 0 <= i < |listed| ==> slots[i] == SlotOf(c, listed[i])
    ensures AssetsOf(slots) == listed
    ensures forall i :: 0 <= i < |slots| ==> slots[i] == SlotOf(c, slots[i].asset)
  {
  }
}
