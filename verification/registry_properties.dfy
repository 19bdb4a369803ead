/** Facts relating the registry's transitions to its invariant and to one
    another: what a later read observes after each kind of write. */
module RegistryProperties {
  import opened Wrappers
  import opened Students
  import opened Registry

  /** Create keeps the invariant, and the id it hands out was free, so the
      store grows by exactly one entry. */
  lemma CreatePreservesInv(s: Store, body: Option<Student>)
    requires Inv(s)
    ensures Inv(Create(s, body).store)
    ensures Create(s, body).outcome.Created? ==>
      && s.nextID !in s.students
      && |Create(s, body).store.students| == |s.students| + 1
  {
  }

  lemma UpdatePreservesInv(s: Store, id: Option<int>, body: Option<Student>)
    requires Inv(s)
    ensures Inv(Update(s, id, body).store)
    ensures |Update(s, id, body).store.students| == |s.students|
  {
  }

  lemma DeletePreservesInv(s: Store, id: Option<int>)
    requires Inv(s)
    ensures Inv(Delete(s, id).store)
  {
  }

  /** Reading back a freshly created record returns it under its new id. */
  lemma CreateThenGet(s: Store, st: Student)
    requires IsValid(st)
    ensures Get(Create(s, Some(st)).store, Some(s.nextID)).outcome == Ok(st.(id := s.nextID))
  {
  }

  /** Update replaces the whole record: a later Get sees exactly the body,
      carrying the path id. */
  lemma UpdateThenGet(s: Store, k: int, st: Student)
    requires k in s.students
    requires IsValid(st)
    ensures Get(Update(s, Some(k), Some(st)).store, Some(k)).outcome == Ok(st.(id := k))
  {
  }

  /** After a successful Delete, the id reads as absent. */
  lemma DeleteThenGet(s: Store, k: int)
    ensures Get(Delete(s, Some(k)).store, Some(k)).outcome == NotFound
  {
  }

  /** Summary succeeds exactly when Get does, and then describes the record
      Get returns; they fail alike otherwise. */
  lemma SummaryAgreesWithGet(s: Store, id: Option<int>)
    ensures Summary(s, id).outcome.OkSummary? <==> Get(s, id).outcome.Ok?
    ensures Get(s, id).outcome.Ok? ==>
      Summary(s, id).outcome.summary == SummaryText(Get(s, id).outcome.student)
    ensures !Get(s, id).outcome.Ok? ==> Summary(s, id).outcome == Get(s, id).outcome
  {
  }

  /** An id the store has not yet handed out reads as absent everywhere,
      whatever the store holds. */
  lemma UnissuedIdNotFound(s: Store, k: int, st: Student)
    requires Inv(s)
    requires k >= s.nextID || k < 1
    requires IsValid(st)
    ensures Get(s, Some(k)).outcome == NotFound
    ensures Summary(s, Some(k)).outcome == NotFound
    ensures Update(s, Some(k), Some(st)) == Transition(s, NotFound)
    ensures Delete(s, Some(k)) == Transition(s, NotFound)
  {
  }

  /** A listing in the shape List produces holds a record exactly when the
      store holds it; in a store that keeps the invariant its ids are also
      pairwise distinct and every listed record is valid. */
  lemma ListingIsPermutation(s: Store, all: seq<Student>, order: seq<int>)
    requires |all| == |order| == |s.students|
    requires forall i :: 0 <= i < |order| ==> order[i] in s.students && all[i] == s.students[order[i]]
    requires forall i, j :: 0 <= i < j < |order| ==> order[i] != order[j]
    requires forall k :: k in s.students ==> k in order
    ensures forall x :: x in all <==> x in s.students.Values
    ensures Inv(s) ==> forall i, j :: 0 <= i < j < |all| ==> all[i].id != all[j].id
    ensures Inv(s) ==> forall i :: 0 <= i < |all| ==> IsValid(all[i])
  {
    forall i | 0 <= i < |all|
      ensures all[i] == s.students[order[i]]
      ensures Inv(s) ==> all[i].id == order[i] && IsValid(all[i])
    {
      assert order[i] in s.students;
    }
    forall k | k in s.students
      ensures s.students[k] in all
    {
      var i :| 0 <= i < |order| && order[i] == k;
      assert all[i] == s.students[k];
    }
  }
}
