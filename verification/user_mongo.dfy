/** The document-store user repository. The `users` collection is a sequence
    of user documents in the store's natural order; every operation is a pure
    function of the collection and of what the driver and the environment
    contribute to the call:
    - `fault`: `Some(err)` when the driver call fails with `err`,
    - `uuid`: the random identifier `create` generates,
    - `insertedId`: the `_id` the store reports for an inserted document,
    - `notFoundCode`: the numeric code of the `UserNotFound` error, which the
      store code leaves unstated.
    A call that changes the collection returns the new collection with its
    result. */
module UserMongo {
  import opened Results
  import opened Errors
  import opened Models
  import opened Ids
  import Repository

  type Collection = seq<User>

  /** The store-assigned `_id` of an inserted document: an ObjectId, or some
      other BSON value (rendered as text). */
  datatype Bson = ObjectIdValue(oid: ObjectId) | OtherValue(repr: string)

  /** The result of a call together with the collection after it. */
  datatype Step<T> = Step(result: Result<T, CustomError>, store: Collection)

  datatype Env = Env(fault: Option<DriverError>, uuid: Uuid, insertedId: Bson, notFoundCode: u16)

  const NotObjectIdMessage: string := "Inserted ID is not ObjectId"

  /** A document's public view; a document without `id` is listed as `_id`. */
  function Listing(doc: User): GetUserResponse {
    GetUserResponse(doc.id.UnwrapOr("_id"), doc.name, doc.email)
  }

  function Listings(docs: Collection): (rs: seq<GetUserResponse>)
    ensures |rs| == |docs|
    ensures forall i :: 0 <= i < |docs| ==> rs[i] == Listing(docs[i])
  {
    if docs == [] then [] else [Listing(docs[0])] + Listings(docs[1..])
  }

  /** `get_all`: one response per document, in collection order; an empty
      collection is reported as `UserNotFound`, not as an empty list. */
  function GetAll(store: Collection, fault: Option<DriverError>, notFoundCode: u16)
    : (r: Result<GetAllUserResponse, CustomError>)
    ensures fault.Some? ==> r == Err(FromDriverError(fault.value))
    ensures fault.None? && store == [] ==> r == Err(UserNotFound(notFoundCode))
    ensures fault.None? && store != [] ==>
              && r.Ok?
              && |r.value.data| == |store|
              && forall i :: 0 <= i < |store| ==>
                   && r.value.data[i].id == (if store[i].id.Some? then store[i].id.value else "_id")
                   && r.value.data[i].name == store[i].name
                   && r.value.data[i].email == store[i].email
  {
    if fault.Some? then Err(FromDriverError(fault.value))
    else if store != [] then Ok(GetAllUserResponse(Listings(store)))
    else Err(UserNotFound(notFoundCode))
  }

  /** Position of the first document whose `id` field equals `id`: the
      document `find_one` and `delete_one` act on. */
  function FindFirst(store: Collection, id: string): (r: Option<nat>)
    ensures r.Some? ==> r.value < |store| && store[r.value].id == Some(id)
    ensures r.Some? ==> forall j :: 0 <= j < r.value ==> store[j].id != Some(id)
    ensures r.None? ==> forall j :: 0 <= j < |store| ==> store[j].id != Some(id)
  {
    if store == [] then None
    else if store[0].id == Some(id) then Some(0)
    else
      match FindFirst(store[1..], id)
      case None => None
      case Some(k) => Some(k + 1)
  }

  /** `get_by_id`: the first document with that `id`, shown with the
      requested id; `UserNotFound` when there is none. */
  function GetById(store: Collection, id: string, fault: Option<DriverError>, notFoundCode: u16)
    : (r: Result<GetUserResponse, CustomError>)
    ensures fault.Some? ==> r == Err(FromDriverError(fault.value))
    ensures fault.None? ==> (r.Ok? <==> exists i :: 0 <= i < |store| && store[i].id == Some(id))
    ensures fault.None? && r.Err? ==> r.error == UserNotFound(notFoundCode)
    ensures r.Ok? ==>
              exists i :: && 0 <= i < |store| && store[i].id == Some(id)
                          && (forall j :: 0 <= j < i ==> store[j].id != Some(id))
                          && r.value == GetUserResponse(id, store[i].name, store[i].email)
  {
    if fault.Some? then Err(FromDriverError(fault.value))
    else
      match FindFirst(store, id)
      case Some(i) => Ok(GetUserResponse(id, store[i].name, store[i].email))
      case None => Err(UserNotFound(notFoundCode))
  }

  /** `create`: appends a document with a fresh `uuid` as its `id` and the
      input's name, email and password (the input's own `id` is ignored), with
      no check for an existing email or id. It answers with the store's
      ObjectId for the document, rendered as hex, not with the uuid; an
      inserted id of another kind is an error although the document has
      been written. */
  function Create(store: Collection, user: User, uuid: Uuid, insertedId: Bson, fault: Option<DriverError>)
    : (s: Step<string>)
    ensures fault.Some? ==> s == Step(Err(FromDriverError(fault.value)), store)
    ensures fault.None? ==>
              && |s.store| == |store| + 1
              && s.store[..|store|] == store
              && s.store[|store|] == User(Some(UuidString(uuid)), user.email, user.password, user.name)
    ensures fault.None? && insertedId.ObjectIdValue? ==>
              s.result == Ok(ObjectIdString(insertedId.oid))
    ensures fault.None? && !insertedId.ObjectIdValue? ==>
              s.result == Err(GenericError(NotObjectIdMessage))
  {
    if fault.Some? then
      Step(Err(FromDriverError(fault.value)), store)
    else
      var doc := User(Some(UuidString(uuid)), user.email, user.password, user.name);
      var stored := store + [doc];
      match insertedId
      case ObjectIdValue(oid) => Step(Ok(ObjectIdString(oid)), stored)
      case OtherValue(_) => Step(Err(GenericError(NotObjectIdMessage)), stored)
  }

  /** The collection without the first document whose `id` is `id` (if any). */
  function RemoveFirst(store: Collection, id: string): (r: Collection)
    ensures var f := FindFirst(store, id);
            && (f.None? ==> r == store)
            && (f.Some? ==> r == store[..f.value] + store[f.value + 1..])
  {
    if store == [] then []
    else if store[0].id == Some(id) then store[1..]
    else
      var rest := RemoveFirst(store[1..], id);
      var f := FindFirst(store[1..], id);
      assert FindFirst(store, id) == if f.None? then None else Some(f.value + 1);
      if f.None? then
        assert [store[0]] + store[1..] == store;
        [store[0]] + rest
      else
        var k := f.value;
        assert rest == store[1..][..k] + store[1..][k + 1..];
        assert store[..k + 1] == [store[0]] + store[1..][..k];
        assert store[k + 2..] == store[1..][k + 1..];
        [store[0]] + rest
  }

  /** `delete`: removes the first document with that `id`, if any, and
      succeeds whether or not one matched. */
  function Delete(store: Collection, id: string, fault: Option<DriverError>): (s: Step<()>)
    ensures fault.Some? ==> s == Step(Err(FromDriverError(fault.value)), store)
    ensures fault.None? ==> s.result == Ok(())
    ensures fault.None? ==> s.store == RemoveFirst(store, id)
  {
    if fault.Some? then Step(Err(FromDriverError(fault.value)), store)
    else Step(Ok(()), RemoveFirst(store, id))
  }

  /** The repository contract, answered by this backend. Reads leave the
      collection as it was. */
  function Handle(store: Collection, op: Repository.Operation, env: Env): (s: Step<Repository.Reply>)
    ensures Repository.Answers(op, s.result)
    ensures op.CallGetAll? || op.CallGetById? ==> s.store == store
    ensures env.fault.Some? ==> s == Step(Err(FromDriverError(env.fault.value)), store)
    ensures op.CallGetAll? ==>
              var r := GetAll(store, env.fault, env.notFoundCode);
              && (r.Ok? ==> s.result == Ok(Repository.Listed(r.value)))
              && (r.Err? ==> s.result == Err(r.error))
    ensures op.CallGetById? ==>
              var r := GetById(store, op.id, env.fault, env.notFoundCode);
              && (r.Ok? ==> s.result == Ok(Repository.Found(r.value)))
              && (r.Err? ==> s.result == Err(r.error))
    ensures op.CallCreate? ==>
              var c := Create(store, op.user, env.uuid, env.insertedId, env.fault);
              && s.store == c.store
              && (c.result.Ok? ==> s.result == Ok(Repository.Created(c.result.value)))
              && (c.result.Err? ==> s.result == Err(c.result.error))
    ensures op.CallDelete? ==>
              var d := Delete(store, op.id, env.fault);
              && s.store == d.store
              && (d.result.Ok? ==> s.result == Ok(Repository.Deleted))
              && (d.result.Err? ==> s.result == Err(d.result.error))
  {
    match op
    case CallGetAll =>
      var r := GetAll(store, env.fault, env.notFoundCode);
      Step(if r.Ok? then Ok(Repository.Listed(r.value)) else Err(r.error), store)
    case CallGetById(id) =>
      var r := GetById(store, id, env.fault, env.notFoundCode);
      Step(if r.Ok? then Ok(Repository.Found(r.value)) else Err(r.error), store)
    case CallCreate(user) =>
      var s := Create(store, user, env.uuid, env.insertedId, env.fault);
      Step(if s.result.Ok? then Ok(Repository.Created(s.result.value)) else Err(s.result.error), s.store)
    case CallDelete(id) =>
      var s := Delete(store, id, env.fault);
      Step(if s.result.Ok? then Ok(Repository.Deleted) else Err(s.result.error), s.store)
  }

  // ---------------------------------------------------------------------
  // Properties relating the operations

  /** Whatever `get_by_id` finds is also in the `get_all` listing. */
  lemma FoundIsListed(store: Collection, id: string, code: u16)
    requires GetById(store, id, None, code).Ok?
    ensures GetAll(store, None, code).Ok?
    ensures GetById(store, id, None, code).value in GetAll(store, None, code).value.data
  {
    var i := FindFirst(store, id).value;
    assert GetAll(store, None, code).value.data[i] == GetById(store, id, None, code).value;
  }

  /** Number of documents with the given email. */
  function CountEmail(store: Collection, email: string): nat {
    if store == [] then 0
    else (if store[0].email == email then 1 else 0) + CountEmail(store[1..], email)
  }

  lemma {:induction false} CountEmailAppend(store: Collection, doc: User, email: string)
    ensures CountEmail(store + [doc], email)
              == CountEmail(store, email) + (if doc.email == email then 1 else 0)
  {
    if store != [] {
      assert (store + [doc])[1..] == store[1..] + [doc];
      CountEmailAppend(store[1..], doc, email);
    } else {
      assert store + [doc] == [doc];
    }
  }

  /** No uniqueness check: two creates with the same email both succeed and
      both documents are stored. */
  lemma DuplicateEmailAccepted(store: Collection, u1: User, u2: User, uuid1: Uuid, uuid2: Uuid,
                               oid1: ObjectId, oid2: ObjectId)
    requires u1.email == u2.email
    ensures var s1 := Create(store, u1, uuid1, ObjectIdValue(oid1), None);
            var s2 := Create(s1.store, u2, uuid2, ObjectIdValue(oid2), None);
            && s1.result.Ok? && s2.result.Ok?
            && CountEmail(s2.store, u1.email) == CountEmail(store, u1.email) + 2
  {
    var s1 := Create(store, u1, uuid1, ObjectIdValue(oid1), None);
    var s2 := Create(s1.store, u2, uuid2, ObjectIdValue(oid2), None);
    assert s1.store == store + [s1.store[|store|]];
    assert s2.store == s1.store + [s2.store[|s1.store|]];
    CountEmailAppend(store, s1.store[|store|], u1.email);
    CountEmailAppend(s1.store, s2.store[|s1.store|], u1.email);
  }

  /** The created document is found under the uuid written to its `id`
      field, provided no earlier document already carries that id. */
  lemma CreatedFoundByUuid(store: Collection, user: User, uuid: Uuid, insertedId: Bson, code: u16)
    requires forall i :: 0 <= i < |store| ==> store[i].id != Some(UuidString(uuid))
    ensures var s := Create(store, user, uuid, insertedId, None);
            GetById(s.store, UuidString(uuid), None, code)
              == Ok(GetUserResponse(UuidString(uuid), user.name, user.email))
  {
    var s := Create(store, user, uuid, insertedId, None);
    var r := GetById(s.store, UuidString(uuid), None, code);
    assert s.store[|store|].id == Some(UuidString(uuid));
    var i :| 0 <= i < |s.store| && s.store[i].id == Some(UuidString(uuid))
             && (forall j :: 0 <= j < i ==> s.store[j].id != Some(UuidString(uuid)))
             && r.value == GetUserResponse(UuidString(uuid), s.store[i].name, s.store[i].email);
    assert forall j :: 0 <= j < |store| ==> s.store[j] == store[j];
  }

  /** The id `create` answers with is the ObjectId's hex, never the uuid in
      the document's `id` field, so looking it up does not find the new
      document: unless an older document happens to carry that id, the
      lookup reports `UserNotFound`. */
  lemma CreatedIdNotFound(store: Collection, user: User, uuid: Uuid, oid: ObjectId, code: u16)
    requires forall i :: 0 <= i < |store| ==> store[i].id != Some(ObjectIdString(oid))
    ensures var s := Create(store, user, uuid, ObjectIdValue(oid), None);
            && s.result == Ok(ObjectIdString(oid))
            && GetById(s.store, s.result.value, None, code) == Err(UserNotFound(code))
  {
    var s := Create(store, user, uuid, ObjectIdValue(oid), None);
    ObjectIdIsNotUuid(oid, uuid);
    forall i | 0 <= i < |s.store|
      ensures s.store[i].id != Some(ObjectIdString(oid))
    {
      if i < |store| {
        assert s.store[i] == store[i];
      }
    }
  }

  /** At most one document carries any given id. */
  predicate UniqueIds(store: Collection) {
    forall i, j :: 0 <= i < j < |store| && store[i].id.Some? ==> store[i].id != store[j].id
  }

  /** `create` with a uuid no document carries keeps ids unique. */
  lemma CreateKeepsIdsUnique(store: Collection, user: User, uuid: Uuid, insertedId: Bson)
    requires UniqueIds(store)
    requires forall i :: 0 <= i < |store| ==> store[i].id != Some(UuidString(uuid))
    ensures UniqueIds(Create(store, user, uuid, insertedId, None).store)
  {
    var s := Create(store, user, uuid, insertedId, None).store;
    forall i, j | 0 <= i < j < |s| && s[i].id.Some?
      ensures s[i].id != s[j].id
    {
      assert s[i] == store[i];
      if j < |store| {
        assert s[j] == store[j];
      }
    }
  }

  /** Element `k` of a sequence with position `i` cut out. */
  lemma CutIndex(store: Collection, i: nat, k: nat)
    requires i < |store| && k < |store| - 1
    ensures (store[..i] + store[i + 1..])[k] == store[if k < i then k else k + 1]
  {
  }

  /** Cutting out position `i` removes exactly that element from the multiset. */
  lemma CutMultiset(store: Collection, i: nat)
    requires i < |store|
    ensures multiset(store[..i] + store[i + 1..]) + multiset{store[i]} == multiset(store)
  {
    var before, after := store[..i], store[i + 1..];
    assert store == before + [store[i]] + after;
    assert multiset(store) == multiset(before) + multiset{store[i]} + multiset(after);
  }

  /** `delete` removes at most one document, the first one carrying the id;
      everything else stays, in order. Without a match it changes nothing. */
  lemma DeleteRemovesAtMostOne(store: Collection, id: string)
    ensures var s := Delete(store, id, None).store;
            && (FindFirst(store, id).None? ==> s == store)
            && (FindFirst(store, id).Some? ==>
                  && |s| == |store| - 1
                  && multiset(s) + multiset{store[FindFirst(store, id).value]} == multiset(store))
  {
    var f := FindFirst(store, id);
    if f.Some? {
      CutMultiset(store, f.value);
    }
  }

  /** With unique ids, a deleted id is no longer found. */
  lemma DeletedIdNotFound(store: Collection, id: string, code: u16)
    requires UniqueIds(store)
    ensures GetById(Delete(store, id, None).store, id, None, code) == Err(UserNotFound(code))
  {
    var s := Delete(store, id, None).store;
    if FindFirst(store, id).Some? {
      var i := FindFirst(store, id).value;
      forall k | 0 <= k < |s|
        ensures s[k].id != Some(id)
      {
        if k < i {
          assert s[k] == store[k];
        } else {
          assert s[k] == store[k + 1];
        }
      }
    }
  }

  /** `delete` keeps ids unique. */
  lemma DeleteKeepsIdsUnique(store: Collection, id: string)
    requires UniqueIds(store)
    ensures UniqueIds(Delete(store, id, None).store)
  {
    var s := Delete(store, id, None).store;
    assert s == RemoveFirst(store, id);
    var f := FindFirst(store, id);
    if f.Some? {
      var i := f.value;
      assert s == store[..i] + store[i + 1..];
      forall a, b | 0 <= a < b < |s| && s[a].id.Some?
        ensures s[a].id != s[b].id
      {
        CutIndex(store, i, a);
        CutIndex(store, i, b);
      }
    }
  }
}
