/**
 The database the controllers work on: the user, manuscript and assignment collections,
 held in memory. The invariant Valid() is what every controller operation keeps.
 */
module Database {

  import opened Model

  /** Whether `a` is an active assignment of `reviewer` to `manuscript`. */
  predicate BindsPair(a: Assignment, manuscript: ManuscriptId, reviewer: UserId) {
    a.manuscript == manuscript && a.reviewer == reviewer && IsActiveStatus(a.status)
  }

  /** The query "find an assignment for this pair whose status is pending or accepted". */
  predicate HasActive(s: seq<Assignment>, manuscript: ManuscriptId, reviewer: UserId) {
    exists i :: 0 <= i < |s| && BindsPair(s[i], manuscript, reviewer)
  }

  /** The number of active assignments for one (manuscript, reviewer) pair. */
  function CountActive(s: seq<Assignment>, manuscript: ManuscriptId, reviewer: UserId): nat {
    if s == [] then 0
    else CountActive(s[..|s| - 1], manuscript, reviewer)
         + (if BindsPair(s[|s| - 1], manuscript, reviewer) then 1 else 0)
  }

  /** The exclusivity invariant: no pair has two active assignments. */
  ghost predicate Exclusive(s: seq<Assignment>) {
    forall m, r :: CountActive(s, m, r) <= 1
  }

  lemma {:induction false} CountActiveAppend(s: seq<Assignment>, a: Assignment, m: ManuscriptId, r: UserId)
    ensures CountActive(s + [a], m, r) == CountActive(s, m, r) + (if BindsPair(a, m, r) then 1 else 0)
  {
    assert (s + [a])[..|s|] == s;
  }

  /** The duplicate query finds something exactly when the count is positive. */
  lemma {:induction false} HasActiveIffCounted(s: seq<Assignment>, m: ManuscriptId, r: UserId)
    ensures HasActive(s, m, r) <==> CountActive(s, m, r) > 0
  {
    if s != [] {
      var init := s[..|s| - 1];
      HasActiveIffCounted(init, m, r);
      assert s == init + [s[|s| - 1]];
      if HasActive(init, m, r) {
        var i :| 0 <= i < |init| && BindsPair(init[i], m, r);
        assert s[i] == init[i];
      }
      if HasActive(s, m, r) && !BindsPair(s[|s| - 1], m, r) {
        var i :| 0 <= i < |s| && BindsPair(s[i], m, r);
        assert init[i] == s[i];
      }
    }
  }

  /** Appending an assignment to an exclusive history keeps it exclusive exactly when the
      new assignment is inactive or its pair has no active assignment yet. */
  lemma ExclusiveAppend(s: seq<Assignment>, a: Assignment)
    requires Exclusive(s)
    ensures Exclusive(s + [a]) <==> !(IsActiveStatus(a.status) && HasActive(s, a.manuscript, a.reviewer))
  {
    HasActiveIffCounted(s, a.manuscript, a.reviewer);
    CountActiveAppend(s, a, a.manuscript, a.reviewer);
    if !(IsActiveStatus(a.status) && HasActive(s, a.manuscript, a.reviewer)) {
      forall m, r ensures CountActive(s + [a], m, r) <= 1 {
        CountActiveAppend(s, a, m, r);
        if BindsPair(a, m, r) { HasActiveIffCounted(s, m, r); }
      }
    }
  }

  class Store {
    var users: map<UserId, User>
    var manuscripts: map<ManuscriptId, Manuscript>
    var assignments: seq<Assignment>
    /** The identifier the next inserted manuscript receives. */
    var nextManuscriptId: ManuscriptId

    ghost predicate Valid()
      reads this
    {
      && (forall id :: id in manuscripts ==> id < nextManuscriptId)
      && (forall id :: id in manuscripts ==> WellFormed(manuscripts[id]))
      && (forall i :: 0 <= i < |assignments| ==>
            assignments[i].manuscript in manuscripts && assignments[i].reviewer in users)
      && Exclusive(assignments)
    }

    /** A database holding the registered users and nothing else. */
    constructor (registered: map<UserId, User>)
      ensures Valid()
      ensures users == registered && manuscripts == map[] && assignments == []
    {
      users := registered;
      manuscripts := map[];
      assignments := [];
      nextManuscriptId := 0;
    }
  }
}
