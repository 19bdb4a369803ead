/** Requests as the router delivers them, one handler per request, and the
    stores reachable by any sequence of requests from a fresh registry. */
module Sessions {
  import opened Wrappers
  import opened Students
  import opened Registry
  import opened RegistryProperties

  /** One routed request, with its path id and body already parsed:
      None stands for an id that is not an integer or a body that does
      not decode. */
  datatype Request =
    | CreateReq(body: Option<Student>)              // POST /students
    | ListReq                                       // GET /students
    | GetReq(id: Option<int>)                       // GET /students/{id}
    | UpdateReq(id: Option<int>, body: Option<Student>) // PUT /students/{id}
    | DeleteReq(id: Option<int>)                    // DELETE /students/{id}
    | SummaryReq(id: Option<int>)                   // GET /students/{id}/summary

  /** The store after one request. Only Create moves the id counter, and it
      only ever moves it up. */
  function Next(s: Store, req: Request): (s': Store)
    ensures s'.nextID >= s.nextID
    ensures s'.nextID != s.nextID ==> req.CreateReq? && s'.nextID == s.nextID + 1
    ensures (req.ListReq? || req.GetReq? || req.SummaryReq?) ==> s' == s
  {
    match req
    case CreateReq(body) => Create(s, body).store
    case ListReq => s
    case GetReq(id) => Get(s, id).store
    case UpdateReq(id, body) => Update(s, id, body).store
    case DeleteReq(id) => Delete(s, id).store
    case SummaryReq(id) => Summary(s, id).store
  }

  lemma NextPreservesInv(s: Store, req: Request)
    requires Inv(s)
    ensures Inv(Next(s, req))
  {
  }

  /** Dispatches one request to its handler, as the router does. A list
      request answers every stored record once, in some order. */
  method Handle(s: Store, req: Request) returns (t: Transition)
    ensures t.store == Next(s, req)
    ensures Inv(s) ==> Inv(t.store)
    ensures req.CreateReq? ==> t == Create(s, req.body)
    ensures req.GetReq? ==> t == Get(s, req.id)
    ensures req.UpdateReq? ==> t == Update(s, req.id, req.body)
    ensures req.DeleteReq? ==> t == Delete(s, req.id)
    ensures req.SummaryReq? ==> t == Summary(s, req.id)
    ensures req.ListReq? ==>
      && t.store == s
      && t.outcome.OkList?
      && |t.outcome.all| == |s.students|
      && (forall x :: x in t.outcome.all <==> x in s.students.Values)
      && (Inv(s) ==> forall i, j :: 0 <= i < j < |t.outcome.all| ==> t.outcome.all[i].id != t.outcome.all[j].id)
  {
    if Inv(s) {
      NextPreservesInv(s, req);
    }
    match req {
      case CreateReq(body) => t := Create(s, body);
      case ListReq =>
        ghost var order;
        t, order := List(s);
        ListingIsPermutation(s, t.outcome.all, order);
      case GetReq(id) => t := Get(s, id);
      case UpdateReq(id, body) => t := Update(s, id, body);
      case DeleteReq(id) => t := Delete(s, id);
      case SummaryReq(id) => t := Summary(s, id);
    }
  }

  /** The store after a whole sequence of requests, applied in order. */
  function Run(s: Store, reqs: seq<Request>): (s': Store)
    ensures s'.nextID >= s.nextID
    ensures s'.nextID - s.nextID <= |reqs|
    decreases |reqs|
  {
    if |reqs| == 0 then s else Run(Next(s, reqs[0]), reqs[1..])
  }

  lemma {:induction false} RunPreservesInv(s: Store, reqs: seq<Request>)
    requires Inv(s)
    ensures Inv(Run(s, reqs))
    decreases |reqs|
  {
    if |reqs| > 0 {
      NextPreservesInv(s, reqs[0]);
      RunPreservesInv(Next(s, reqs[0]), reqs[1..]);
    }
  }

  /** Every store reachable from a fresh registry satisfies the invariant. */
  lemma ReachableInv(reqs: seq<Request>)
    ensures Inv(Run(NewStore(), reqs))
  {
    RunPreservesInv(NewStore(), reqs);
  }

  /** The ids handed out by the successful Creates of `reqs`, in order. */
  function Issued(s: Store, reqs: seq<Request>): seq<int>
    decreases |reqs|
  {
    if |reqs| == 0 then []
    else
      var issued := if reqs[0].CreateReq? && Create(s, reqs[0].body).outcome.Created?
        then [Create(s, reqs[0].body).outcome.student.id] else [];
      issued + Issued(Next(s, reqs[0]), reqs[1..])
  }

  /** Issued ids start no lower than the counter and stay below its final
      value. */
  lemma {:induction false} IssuedBounds(s: Store, reqs: seq<Request>)
    ensures forall i :: 0 <= i < |Issued(s, reqs)| ==>
      s.nextID <= Issued(s, reqs)[i] < Run(s, reqs).nextID
    decreases |reqs|
  {
    if |reqs| > 0 {
      var s' := Next(s, reqs[0]);
      IssuedBounds(s', reqs[1..]);
      assert Run(s, reqs) == Run(s', reqs[1..]);
      if reqs[0].CreateReq? && Create(s, reqs[0].body).outcome.Created? {
        assert Issued(s, reqs) == [s.nextID] + Issued(s', reqs[1..]);
        assert s'.nextID == s.nextID + 1;
      } else {
        assert Issued(s, reqs) == Issued(s', reqs[1..]);
      }
    }
  }

  /** Issued ids strictly increase: no id is ever handed out twice. */
  lemma {:induction false} IssuedIncreasing(s: Store, reqs: seq<Request>)
    ensures forall i, j :: 0 <= i < j < |Issued(s, reqs)| ==> Issued(s, reqs)[i] < Issued(s, reqs)[j]
    decreases |reqs|
  {
    if |reqs| > 0 {
      var s' := Next(s, reqs[0]);
      var rest := Issued(s', reqs[1..]);
      IssuedIncreasing(s', reqs[1..]);
      if reqs[0].CreateReq? && Create(s, reqs[0].body).outcome.Created? {
        IssuedBounds(s', reqs[1..]);
        assert s'.nextID == s.nextID + 1;
        var all := [s.nextID] + rest;
        assert Issued(s, reqs) == all;
        forall i, j | 0 <= i < j < |all|
          ensures all[i] < all[j]
        {
          assert all[j] == rest[j - 1];
          if i > 0 {
            assert all[i] == rest[i - 1];
          }
        }
      } else {
        assert Issued(s, reqs) == rest;
      }
    }
  }

  /** Ids are handed out without gaps: the run issues exactly the ids from
      the starting counter up to, but excluding, the final one, in order. */
  lemma {:induction false} IssuedConsecutive(s: Store, reqs: seq<Request>)
    ensures |Issued(s, reqs)| == Run(s, reqs).nextID - s.nextID
    ensures forall i :: 0 <= i < |Issued(s, reqs)| ==> Issued(s, reqs)[i] == s.nextID + i
    decreases |reqs|
  {
    if |reqs| > 0 {
      var s' := Next(s, reqs[0]);
      var rest := Issued(s', reqs[1..]);
      IssuedConsecutive(s', reqs[1..]);
      assert Run(s, reqs) == Run(s', reqs[1..]);
      if reqs[0].CreateReq? && Create(s, reqs[0].body).outcome.Created? {
        assert s'.nextID == s.nextID + 1;
        var all := [s.nextID] + rest;
        assert Issued(s, reqs) == all;
        forall i | 0 < i < |all|
          ensures all[i] == s.nextID + i
        {
          assert all[i] == rest[i - 1];
        }
      } else {
        assert Issued(s, reqs) == rest;
        assert s'.nextID == s.nextID;
      }
    }
  }

  /** An id held by the store (in particular, one later deleted) is never
      handed out again by any later Create. */
  lemma NoIdReuse(s: Store, reqs: seq<Request>, k: int)
    requires Inv(s)
    requires k in s.students
    ensures k !in Issued(s, reqs)
  {
    IssuedBounds(s, reqs);
  }

  /** Creating two valid students in a fresh registry hands out 1 then 2. */
  lemma FreshRegistryIssuesOneThenTwo(a: Student, b: Student)
    requires IsValid(a) && IsValid(b)
    ensures Issued(NewStore(), [CreateReq(Some(a)), CreateReq(Some(b))]) == [1, 2]
  {
    var reqs := [CreateReq(Some(a)), CreateReq(Some(b))];
    var s1 := Next(NewStore(), reqs[0]);
    var s2 := Next(s1, reqs[1]);
    assert s1.nextID == 2;
    assert reqs[1..] == [CreateReq(Some(b))];
    assert reqs[1..][1..] == [];
    assert Issued(s1, reqs[1..]) == [2] + Issued(s2, []);
  }

  /** The summary of the first student created in a fresh registry. */
  lemma FreshRegistrySummaryExample()
    ensures Summary(Create(NewStore(), Some(Student(0, "Ann", 20, "a@b.com"))).store, Some(1)).outcome
      == OkSummary("Student Ann is 20 years old with email a@b.com.")
  {
    var ann := Student(0, "Ann", 20, "a@b.com");
    assert IsValid(ann);
    var s1 := Create(NewStore(), Some(ann)).store;
    assert s1.students[1] == Student(1, "Ann", 20, "a@b.com");
    Students.AnnSummaryText();
  }
}
