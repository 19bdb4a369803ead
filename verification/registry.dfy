/** The in-memory student registry: a map from id to Student plus the next id
    to hand out. Each HTTP handler becomes one atomic transition from a store
    and its parsed inputs to the next store and an abstract response. */
module Registry {
  import opened Wrappers
  import opened Students

  datatype Store = Store(students: map<int, Student>, nextID: int)

  /** What a handler answers, independent of status codes and JSON. */
  datatype Outcome =
    | Created(student: Student)                    // 201 with the stored record
    | Ok(student: Student)                         // 200 with one record
    | OkList(all: seq<Student>)                    // 200 with every record
    | OkSummary(summary: string)                   // 200 with {"summary": ...}
    | NoContent                                    // 204
    | ValidationFailed(errors: seq<ValidationError>) // 400 with the error list
    | BadRequest(message: string)                  // 400 with a plain message
    | NotFound                                     // 404 "Student not found"

  datatype Transition = Transition(store: Store, outcome: Outcome)

  const InvalidBody := "Invalid request body"
  const InvalidId := "Invalid ID"

  /** Every stored record sits under its own id, that id was already handed
      out (so it lies below `nextID`), and the record passed validation. */
  ghost predicate Inv(s: Store) {
    && s.nextID >= 1
    && forall k :: k in s.students ==>
         && s.students[k].id == k
         && 1 <= k < s.nextID
         && IsValid(s.students[k])
  }

  /** A fresh store: empty, handing out 1 first. */
  function NewStore(): (s: Store)
    ensures Inv(s)
    ensures |s.students| == 0 && s.nextID == 1
  {
    Store(map[], 1)
  }

  /** POST /students. `body` is None when the request body did not decode. */
  function Create(s: Store, body: Option<Student>): (t: Transition)
    ensures body.None? ==> t == Transition(s, BadRequest(InvalidBody))
    ensures body.Some? && !IsValid(body.value) ==>
      && t.store == s
      && t.outcome.ValidationFailed?
      && |t.outcome.errors| > 0
      && t.outcome.errors == Validate(body.value)
    ensures body.Some? && IsValid(body.value) ==>
      && t.outcome.Created?
      && t.outcome.student == body.value.(id := s.nextID)
      && t.store.nextID == s.nextID + 1
      && t.store.students.Keys == s.students.Keys + {s.nextID}
      && t.store.students[s.nextID] == t.outcome.student
      && (forall k :: k in s.students && k != s.nextID ==> t.store.students[k] == s.students[k])
  {
    match body
    case None => Transition(s, BadRequest(InvalidBody))
    case Some(st) =>
      var errs := Validate(st);
      if |errs| > 0 then Transition(s, ValidationFailed(errs))
      else
        var created := st.(id := s.nextID);
        Transition(Store(s.students[created.id := created], s.nextID + 1), Created(created))
  }

  /** GET /students/{id}. `id` is None when the path segment is not an integer. */
  function Get(s: Store, id: Option<int>): (t: Transition)
    ensures t.store == s
    ensures id.None? ==> t.outcome == BadRequest(InvalidId)
    ensures id.Some? && id.value in s.students ==> t.outcome == Ok(s.students[id.value])
    ensures id.Some? && id.value !in s.students ==> t.outcome == NotFound
  {
    match id
    case None => Transition(s, BadRequest(InvalidId))
    case Some(k) =>
      if k in s.students then Transition(s, Ok(s.students[k]))
      else Transition(s, NotFound)
  }

  /** PUT /students/{id}: the id is checked first, then the body, then the
      rules, and only then whether the id exists. A present entry is
      replaced whole by the body with its id forced to the path id. */
  function Update(s: Store, id: Option<int>, body: Option<Student>): (t: Transition)
    ensures id.None? ==> t == Transition(s, BadRequest(InvalidId))
    ensures id.Some? && body.None? ==> t == Transition(s, BadRequest(InvalidBody))
    ensures id.Some? && body.Some? && !IsValid(body.value) ==>
      && t.store == s
      && t.outcome.ValidationFailed?
      && |t.outcome.errors| > 0
      && t.outcome.errors == Validate(body.value)
    ensures id.Some? && body.Some? && IsValid(body.value) && id.value !in s.students ==>
      t == Transition(s, NotFound)
    ensures id.Some? && body.Some? && IsValid(body.value) && id.value in s.students ==>
      && t.outcome == Ok(body.value.(id := id.value))
      && t.store.nextID == s.nextID
      && t.store.students.Keys == s.students.Keys
      && t.store.students[id.value] == body.value.(id := id.value)
      && (forall k :: k in s.students && k != id.value ==> t.store.students[k] == s.students[k])
  {
    match id
    case None => Transition(s, BadRequest(InvalidId))
    case Some(k) =>
      match body
      case None => Transition(s, BadRequest(InvalidBody))
      case Some(st) =>
        var errs := Validate(st);
        if |errs| > 0 then Transition(s, ValidationFailed(errs))
        else if k !in s.students then Transition(s, NotFound)
        else
          var updated := st.(id := k);
          Transition(Store(s.students[k := updated], s.nextID), Ok(updated))
  }

  /** DELETE /students/{id}. Removes one entry; `nextID` is left alone. */
  function Delete(s: Store, id: Option<int>): (t: Transition)
    ensures id.None? ==> t == Transition(s, BadRequest(InvalidId))
    ensures id.Some? && id.value !in s.students ==> t == Transition(s, NotFound)
    ensures id.Some? && id.value in s.students ==>
      && t.outcome == NoContent
      && t.store.nextID == s.nextID
      && t.store.students.Keys == s.students.Keys - {id.value}
      && (forall k :: k in t.store.students ==> t.store.students[k] == s.students[k])
  {
    match id
    case None => Transition(s, BadRequest(InvalidId))
    case Some(k) =>
      if k !in s.students then Transition(s, NotFound)
      else Transition(Store(s.students - {k}, s.nextID), NoContent)
  }

  /** GET /students/{id}/summary. */
  function Summary(s: Store, id: Option<int>): (t: Transition)
    ensures t.store == s
    ensures id.None? ==> t.outcome == BadRequest(InvalidId)
    ensures id.Some? && id.value in s.students ==>
      t.outcome == OkSummary(SummaryText(s.students[id.value]))
    ensures id.Some? && id.value !in s.students ==> t.outcome == NotFound
  {
    match id
    case None => Transition(s, BadRequest(InvalidId))
    case Some(k) =>
      if k in s.students then Transition(s, OkSummary(SummaryText(s.students[k])))
      else Transition(s, NotFound)
  }

  /** GET /students. Go leaves the map's iteration order unspecified, so the
      listing is produced in an arbitrary order; `order` names the key each
      element came from, and every key appears exactly once. */
  method List(s: Store) returns (t: Transition, ghost order: seq<int>)
    ensures t.store == s
    ensures t.outcome.OkList?
    ensures |t.outcome.all| == |order| == |s.students|
    ensures forall i :: 0 <= i < |order| ==> order[i] in s.students && t.outcome.all[i] == s.students[order[i]]
    ensures forall i, j :: 0 <= i < j < |order| ==> order[i] != order[j]
    ensures forall k :: k in s.students ==> k in order
  {
    var m := s.students;
    var rest := m.Keys;
    var all: seq<Student> := [];
    order := [];
    while |rest| > 0
      invariant rest <= m.Keys
      invariant |all| == |order|
      invariant |order| + |rest| == |m|
      invariant forall i :: 0 <= i < |order| ==> order[i] in m && order[i] !in rest && all[i] == m[order[i]]
      invariant forall i, j :: 0 <= i < j < |order| ==> order[i] != order[j]
      invariant forall k :: k in m ==> k in rest || k in order
      decreases |rest|
    {
      NonEmptyHasMember(rest);
      var k :| k in rest;
      all := all + [m[k]];
      order := order + [k];
      rest := rest - {k};
    }
    t := Transition(s, OkList(all));
  }

  /** A set of keys with positive size has a member (were it memberless, it
      would equal the empty set, whose size is 0). */
  lemma NonEmptyHasMember(keys: set<int>)
    requires |keys| > 0
    ensures exists k :: k in keys
  {
    if forall k :: k !in keys {
      assert false;
    }
  }
}
