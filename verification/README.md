# Student registry

A model of the in-memory Student registry behind a small REST service
(`main.go`). The service keeps a map from integer id to `Student` plus a
`nextID` counter that starts at 1. Six handlers work on it: create, list,
get, update, delete and summary. Each handler checks its input, then reads or
changes the map while holding a lock, then writes the response: JSON on
success and for validation errors, plain text for the other failures, and no
body for a delete.

The model takes the locks away and treats each handler as one atomic
transition `(Store, parsed request) -> (Store', Outcome)`:

- `wrappers.dfy` (module `Wrappers`): `Option`. An input that could not be
  obtained is `None`: a path id that is not an integer, or a body that does
  not decode as JSON.
- `students.dfy` (module `Students`): the `Student` and `ValidationError`
  records, `Validate` with its three rules (name, age in [0,150], email),
  and the summary sentence.
- `decimal.dfy` (module `Decimal`): how `%d` prints an integer, with an
  inverse reader used to show that printing loses nothing.
- `registry.dfy` (module `Registry`): `Store`, the abstract `Outcome` of a
  handler, the invariant `Inv`, and one transition per handler. `List` is a
  method because Go's map iteration order is unspecified. It returns the
  values in an arbitrary order, plus a ghost sequence naming the key behind
  each element.
- `registry_properties.dfy` (module `RegistryProperties`): invariant
  preservation, and what a later read sees after each kind of write.
- `sessions.dfy` (module `Sessions`): routed requests, one dispatch step,
  runs of many requests from a fresh store, and the ids those runs hand out.

The invariant `Inv` states four things. Each key maps to a record whose `id`
is that key. Each key lies in `[1, nextID)`. Each stored record passes
validation. `nextID >= 1`. Every reachable store satisfies it. Only a
successful create moves `nextID`, and only up by one. So the ids handed out
strictly increase, and an id is never reused, even after it is deleted.

Update checks its inputs in a fixed order (main.go:133-156): the id, then the
body, then the validation rules, and only then whether the id exists. An
update to a missing id therefore answers not-found only when its body
decodes and is valid. Otherwise it answers a bad request or the validation
errors, whatever the store holds.

## Model

| member | source | states |
|---|---|---|
| Students.Validate | main.go:47-73 | one error per failing rule and none otherwise; empty exactly when name and email are non-empty and 0 <= age <= 150; each error is the fixed name/age/email error for its rule; fields appear in check order name, age, email; at most 3 errors |
| Students.ValidateIgnoresId | main.go:48-73 | validation looks only at name, age and email, so forcing the id onto a record keeps its verdict |
| Students.SummaryTextFields | main.go:201 | the summary sentence holds the name and the email verbatim at fixed offsets, and the age can be read back from the span between them |
| Decimal.NatToString | main.go:201 | `%d` of a natural number is a non-empty run of digits with no leading zero |
| Decimal.IntToString | main.go:201 | `%d` of an integer has a leading minus sign exactly when the integer is negative, digits elsewhere, and no leading zero except for 0 itself |
| Decimal.IntToStringRoundTrip | main.go:201 | reading back the printed age yields the age itself |
| Decimal.IntToStringInjective | main.go:201 | different ages print differently |
| Registry.NewStore | main.go:32-39 | a new store is empty, hands out 1 first, and satisfies the invariant |
| Registry.Create | main.go:79-100 | undecodable body gives a bad request; an invalid body gives its validation errors and leaves the store alone; otherwise the record is stored under the old nextID with its id set to that value, nextID rises by exactly 1, and no other entry changes |
| Registry.List | main.go:102-111 | leaves the store alone; returns one element per stored key, each key exactly once, each element the record under its key, in an unspecified order |
| Registry.Get | main.go:113-130 | bad id gives a bad request; a present id gives the stored record; an absent id gives not-found; the store is unchanged |
| Registry.Update | main.go:132-163 | checks the id, then the body, then the rules, then existence; on a present id the entry is fully replaced by the body with its id forced to the path id; other keys and nextID are unchanged; every failure leaves the store alone |
| Registry.Delete | main.go:165-183 | bad id gives a bad request; an absent id gives not-found and no change; a present id removes only that key, leaves nextID unchanged, and answers no-content |
| Registry.Summary | main.go:185-203 | a present id gives the summary sentence of the stored record; bad or absent ids fail as Get does; the store is unchanged |
| RegistryProperties.CreatePreservesInv | main.go:92-95 | create keeps the invariant, and the id it hands out was free, so the store grows by exactly one entry |
| RegistryProperties.UpdatePreservesInv | main.go:151-160 | update keeps the invariant and the number of entries |
| RegistryProperties.DeletePreservesInv | main.go:172-180 | delete keeps the invariant |
| RegistryProperties.CreateThenGet | main.go:92-95 | a get of the new id right after a create returns the created record |
| RegistryProperties.UpdateThenGet | main.go:158-159 | after an update of a present id, a get returns exactly the body with the path id |
| RegistryProperties.DeleteThenGet | main.go:179 | after a delete, a get of that id is not-found |
| RegistryProperties.SummaryAgreesWithGet | main.go:192-201 | summary succeeds exactly when get does and then describes the record get returns; otherwise both give the same failure |
| RegistryProperties.UnissuedIdNotFound | main.go:113-199 | an id outside [1, nextID) is not-found for get, summary, a valid update and delete, whatever the store holds, and nothing changes |
| RegistryProperties.ListingIsPermutation | main.go:104-107 | a listing in List's shape holds a record exactly when the store does; when the store satisfies the invariant its ids are pairwise distinct and every listed record is valid |
| Sessions.Next | main.go:228-233 | the store after one routed request: only create changes nextID, by exactly +1; list, get and summary change nothing |
| Sessions.NextPreservesInv | main.go:228-233 | every handler keeps the invariant |
| Sessions.Handle | main.go:228-233 | each routed request gets exactly the transition of its handler (create, get, update, delete, summary); a list request leaves the store alone and answers one element per entry, holding a record exactly when the store does, with pairwise distinct ids when the invariant holds; the resulting store agrees with `Next` and keeps the invariant |
| Sessions.Run | main.go:93-94 | over any run of requests nextID never decreases and grows by at most one per request |
| Sessions.RunPreservesInv | main.go:92-95 | any run of requests keeps the invariant |
| Sessions.ReachableInv | main.go:33-38 | every store reachable from a fresh registry satisfies the invariant |
| Sessions.IssuedBounds | main.go:93-94 | every id handed out over a run lies between the starting nextID and the final nextID |
| Sessions.IssuedIncreasing | main.go:93-94 | the ids handed out over a run strictly increase, so none repeats |
| Sessions.IssuedConsecutive | main.go:93-94 | a run issues exactly the ids from its starting nextID up to its final nextID, consecutively and in order, with no gaps |
| Sessions.NoIdReuse | main.go:179 | an id held by the store, including one deleted later, is never handed out again |
| Sessions.FreshRegistryIssuesOneThenTwo | main.go:36 | two valid creates in a fresh registry receive ids 1 and 2 |
| Sessions.FreshRegistrySummaryExample | main.go:201 | after creating Ann (20, a@b.com) in a fresh registry, the summary of id 1 is "Student Ann is 20 years old with email a@b.com." |

## Left out

- HTTP routing, status codes and response writing (main.go:226-236) are
  library plumbing. They become the abstract `Outcome` datatype; the comment
  on each constructor names its status code.
- JSON decoding and encoding are library calls. A body that fails to decode
  is the input `None`. The `{"summary": ...}` wrapper and the encoding of
  errors and lists are not modelled.
- Path id parsing with `strconv.Atoi` is a library call. The id arrives
  already parsed, with `None` for a segment that is not an integer.
  `Decimal.ParseInt` is not a model of `Atoi`: it accepts no `+` sign and has
  no range check. It serves only as the inverse of `%d`.
- The `sync.RWMutex` locking exists for concurrency. Each handler is one
  atomic transition.
- The SQLite handle, its schema creation (main.go:206-220), the `db` field
  of the store, process start-up and logging are I/O that no handler uses.
- List order: Go's map iteration order is unspecified, so `Registry.List`
  fixes only which elements appear, not their order.
- The text-generation client in `ollama.go` is an HTTP POST plus JSON with
  no logic of its own. Its prompt is a single format call.
- Registry.Create: does not model the wrap-around of `nextID++` at the
  platform width of Go's `int` (main.go:28). That happens after 2^31 - 1
  creates on 32-bit targets and after 2^63 - 1 on 64-bit targets. Ids are
  unbounded integers here.
