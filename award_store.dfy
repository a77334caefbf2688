/** The two repositories the reconciliation reads and writes: employees and awards, each looked
    up by its external identifier (findByEmployeeExternalId, findByAwardExternalId), and
    JpaRepository.save, which gives a new award the next IDENTITY key. */
module AwardStore {
  import opened Wrappers
  import opened Domain

  /** The contents of both tables and the next identity value of the awards table. */
  datatype StoreState = StoreState(
    employees: map<Int64, Employee>,
    awards: map<Int64, Award>,
    nextAwardId: nat)

  /** Every row is filed under its own external identifier (the column is unique), and every
      stored award has a key below the next identity value. */
  predicate StoreInvariant(s: StoreState) {
    (forall k :: k in s.employees ==> s.employees[k].employeeExternalId == k)
    && (forall k :: k in s.awards ==> s.awards[k].awardExternalId == k)
    && (forall k :: k in s.awards ==> s.awards[k].awardId.Some? && s.awards[k].awardId.value < s.nextAwardId)
    && UniqueAwardIds(s.awards)
  }

  /** No two stored awards share a key. */
  predicate UniqueAwardIds(awards: map<Int64, Award>) {
    forall k1, k2 :: k1 in awards && k2 in awards && k1 != k2 ==> awards[k1].awardId != awards[k2].awardId
  }

  /** awardRepository.save(award): an award without a key is inserted with the next identity
      value; an award with a key replaces the stored row. */
  function SaveAward(s: StoreState, award: Award): StoreState {
    var stored := if award.awardId.None? then award.(awardId := Some(s.nextAwardId)) else award;
    StoreState(s.employees, s.awards[award.awardExternalId := stored],
               if award.awardId.None? then s.nextAwardId + 1 else s.nextAwardId)
  }

  lemma FreshIdIsUnique(awards: map<Int64, Award>, key: Int64, stored: Award, next: nat)
    requires key !in awards && stored.awardId == Some(next)
    requires forall k :: k in awards ==> awards[k].awardId.Some? && awards[k].awardId.value < next
    requires UniqueAwardIds(awards)
    ensures UniqueAwardIds(awards[key := stored])
  {
    var m := awards[key := stored];
    forall k1, k2 | k1 in m && k2 in m && k1 != k2 ensures m[k1].awardId != m[k2].awardId {
      if k1 == key {
        assert m[k2] == awards[k2];
      } else if k2 == key {
        assert m[k1] == awards[k1];
      } else {
        assert m[k1] == awards[k1] && m[k2] == awards[k2];
      }
    }
  }

  lemma SameIdIsUnique(awards: map<Int64, Award>, key: Int64, stored: Award)
    requires key in awards && stored.awardId == awards[key].awardId
    requires UniqueAwardIds(awards)
    ensures UniqueAwardIds(awards[key := stored])
  {
    var m := awards[key := stored];
    forall k1, k2 | k1 in m && k2 in m && k1 != k2 ensures m[k1].awardId != m[k2].awardId {
      assert m[k1].awardId == awards[k1].awardId && m[k2].awardId == awards[k2].awardId;
    }
  }

  /** Saving keeps the store consistent as long as a new award goes under an external
      identifier not yet stored and a stored award keeps its key: exactly how the
      reconciliation calls it. */
  lemma SavePreservesInvariant(s: StoreState, award: Award)
    requires StoreInvariant(s)
    requires award.awardId.None? ==> award.awardExternalId !in s.awards
    requires award.awardId.Some? ==> award.awardExternalId in s.awards
                                     && s.awards[award.awardExternalId].awardId == award.awardId
    ensures StoreInvariant(SaveAward(s, award))
  {
    var key := award.awardExternalId;
    if award.awardId.None? {
      FreshIdIsUnique(s.awards, key, award.(awardId := Some(s.nextAwardId)), s.nextAwardId);
    } else {
      SameIdIsUnique(s.awards, key, award);
    }
  }

  /** Both repositories over one database. */
  class Store {
    var employees: map<Int64, Employee>
    var awards: map<Int64, Award>
    var nextAwardId: nat

    function State(): StoreState
      reads this
    {
      StoreState(employees, awards, nextAwardId)
    }

    constructor (initial: StoreState)
      ensures State() == initial
    {
      employees := initial.employees;
      awards := initial.awards;
      nextAwardId := initial.nextAwardId;
    }

    /** findByEmployeeExternalId */
    method FindEmployee(employeeExternalId: Int64) returns (employee: Option<Employee>)
      ensures employee == Lookup(State().employees, employeeExternalId)
    {
      employee := Lookup(employees, employeeExternalId);
    }

    /** findByAwardExternalId */
    method FindAward(awardExternalId: Int64) returns (award: Option<Award>)
      ensures award == Lookup(State().awards, awardExternalId)
    {
      award := Lookup(awards, awardExternalId);
    }

    /** save: returns the award as stored, with its key. */
    method Save(award: Award) returns (saved: Award)
      modifies this
      ensures State() == SaveAward(old(State()), award)
      ensures saved == State().awards[award.awardExternalId]
    {
      saved := award;
      if award.awardId.None? {
        saved := award.(awardId := Some(nextAwardId));
        nextAwardId := nextAwardId + 1;
      }
      awards := awards[award.awardExternalId := saved];
    }
  }
}
