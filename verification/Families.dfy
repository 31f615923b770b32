/** Frozen candidate families: a family is registered whole, once, and never changes. */
module Families {

  /** A frozen policy; its digest is the policy. */
  datatype Policy = Policy(id: nat, family: nat, body: nat)

  datatype Freeze = Frozen | NotOneFamily | FamilyConflict | PolicyConflict

  /** The records of a submitted family, by policy id. */
  function Records(policies: seq<Policy>): map<nat, Policy> {
    if policies == [] then map[] else Records(policies[..|policies| - 1])[policies[|policies| - 1].id := policies[|policies| - 1]]
  }

  /** One complete family: at least one policy, one family, no id twice. */
  predicate OneFamily(policies: seq<Policy>) {
    && policies != [] && (forall p :: p in policies ==> p.family == policies[0].family)
    && (forall i, j :: 0 <= i < j < |policies| ==> policies[i].id != policies[j].id)
  }

  lemma {:induction false} RecordsAre(policies: seq<Policy>)
    requires forall i, j :: 0 <= i < j < |policies| ==> policies[i].id != policies[j].id
    ensures forall p :: p in policies ==> p.id in Records(policies) && Records(policies)[p.id] == p
    ensures forall id :: id in Records(policies) ==> Records(policies)[id] in policies && Records(policies)[id].id == id
  {
    if policies != [] {
      var n := |policies| - 1;
      RecordsAre(policies[..n]);
      assert policies == policies[..n] + [policies[n]];
    }
  }

  type Policies = map<nat, Policy>

  type Markers = map<nat, Policies>

  /** The stored policies of each marked family are exactly the ones it was frozen with. */
  ghost predicate Whole(policies: Policies, markers: Markers) {
    && (forall id :: id in policies ==> policies[id].id == id && policies[id].family in markers)
    && (forall f :: f in markers ==> markers[f] == MembersOf(policies, f))
  }

  /** What a frozen family consists of. */
  function MembersOf(policies: Policies, family: nat): Policies {
    map id | id in policies && policies[id].family == family :: policies[id]
  }

  /** Some stored policy has the id of a submitted one and differs from it. */
  predicate Differs(policies: Policies, submitted: seq<Policy>) {
    exists p :: p in submitted && p.id in policies && policies[p.id] != p
  }

  /** Insert each submitted policy unless its id is stored; a difference rolls the transaction back. */
  method AddPolicies(policies: Policies, submitted: seq<Policy>) returns (added: bool, grown: Policies)
    requires OneFamily(submitted)
    ensures added <==> !Differs(policies, submitted)
    ensures added ==> grown == policies + Records(submitted)
  {
    grown := policies;
    for i := 0 to |submitted|
      invariant grown == policies + Records(submitted[..i])
      invariant forall j :: 0 <= j < i ==> submitted[j].id in policies ==> policies[submitted[j].id] == submitted[j]
    {
      var p := submitted[i];
      if p.id in policies && policies[p.id] != p {
        return false, grown;
      }
      assert submitted[..i + 1][..i] == submitted[..i];
      if p.id !in policies {
        grown := grown[p.id := p];
      }
      RecordsAre(submitted[..i]);
      AddOne(policies, Records(submitted[..i]), p);
    }
    assert submitted[..|submitted|] == submitted;
    added := true;
  }

  /** Freezing a family makes it exactly what was submitted, and touches no other. */
  lemma FreezingKeepsWhole(policies: Policies, markers: Markers, submitted: seq<Policy>)
    requires Whole(policies, markers) && OneFamily(submitted) && !Differs(policies, submitted)
    requires submitted[0].family in markers ==> markers[submitted[0].family] == Records(submitted)
    ensures var family, records := submitted[0].family, Records(submitted);
      && Whole(policies + records, markers[family := records])
      && (family in markers ==> policies + records == policies && markers[family := records] == markers)
      && forall f :: f != family ==> MembersOf(policies + records, f) == MembersOf(policies, f)
  {
    hide Records, Differs, MembersOf;
    var family, records := submitted[0].family, Records(submitted);
    RecordsAre(submitted);
    forall id | id in records && id in policies ensures policies[id] == records[id] {
      NoDifference(policies, submitted, records[id]);
    }
    OwnMembers(policies, markers, family, records);
    OtherMembers(policies, family, records);
  }

  lemma NoDifference(policies: Policies, submitted: seq<Policy>, p: Policy)
    requires !Differs(policies, submitted) && p in submitted && p.id in policies
    ensures policies[p.id] == p
  {
  }

  lemma OwnMembers(policies: Policies, markers: Markers, family: nat, records: Policies)
    requires Whole(policies, markers) && forall id :: id in records ==> records[id].family == family
    requires forall id :: id in records && id in policies ==> policies[id] == records[id]
    requires family in markers ==> markers[family] == records
    ensures MembersOf(policies + records, family) == records
    ensures family in markers ==> policies + records == policies
  {
  }

  lemma OtherMembers(policies: Policies, family: nat, records: Policies)
    requires forall id :: id in records ==> records[id].family == family
    requires forall id :: id in records && id in policies ==> policies[id] == records[id]
    ensures forall f :: f != family ==> MembersOf(policies + records, f) == MembersOf(policies, f)
  {
  }

  lemma AddOne(policies: Policies, records: Policies, p: Policy)
    requires p.id !in records && (p.id in policies ==> policies[p.id] == p)
    ensures policies + records[p.id := p] == if p.id in policies then policies + records else (policies + records)[p.id := p]
  {
  }

  class FamilyTables {
    // candidate_policies by id, and the family markers of the metadata table.
    var policies: Policies
    var markers: Markers

    ghost predicate Valid() reads this {
      Whole(policies, markers)
    }

    constructor ()
      ensures Valid() && policies == map[] && markers == map[]
    {
      policies, markers := map[], map[];
    }

    method FreezeFamily(submitted: seq<Policy>) returns (result: Freeze)
      requires Valid()
      modifies this
      ensures Valid()
      ensures result == NotOneFamily <==> !OneFamily(submitted)
      ensures OneFamily(submitted) ==> (result == FamilyConflict <==>
        submitted[0].family in old(markers) && old(markers)[submitted[0].family] != Records(submitted))
      ensures result == PolicyConflict ==> Differs(old(policies), submitted)
      ensures result == Frozen ==> !Differs(old(policies), submitted)
      ensures result == Frozen ==> MembersOf(policies, submitted[0].family) == Records(submitted)
      ensures result != Frozen || submitted[0].family in old(markers) ==> unchanged(this)
      ensures forall f :: f in old(markers) ==> MembersOf(policies, f) == old(MembersOf(policies, f))
    {
      hide Whole, MembersOf, Records, Differs;
      if !OneFamily(submitted) {
        return NotOneFamily;
      }
      var family, records := submitted[0].family, Records(submitted);
      if family in markers && markers[family] != records {
        return FamilyConflict;
      }
      var added, grown := AddPolicies(policies, submitted);
      if !added {
        return PolicyConflict;
      }
      FreezingKeepsWhole(policies, markers, submitted);
      MarkedMembers(grown, markers[family := records], family);
      policies := grown;
      if family !in markers {
        markers := markers[family := records];
      }
      result := Frozen;
    }
  }

  lemma MarkedMembers(policies: Policies, markers: Markers, family: nat)
    requires Whole(policies, markers) && family in markers
    ensures MembersOf(policies, family) == markers[family]
  {
  }
}
