/** The synthetic user repository: stateless, never failing, and answering
    with data made up from its arguments alone. */
module MockUserDb {
  import opened Results
  import opened Errors
  import opened Models
  import Repository

  /** The fixed identifier (and token) the synthetic backend hands out. */
  const FixedId: string := "1234abcd"

  const EmailDomain: string := "@example.com"

  /** `login`, which only this backend offers: the password is not looked at. */
  function Login(credential: UserCredential): (r: Result<UserProfile, CustomError>)
    ensures r.Ok?
  {
    Ok(UserProfile(GetUserResponse(FixedId, "s name", credential.email + EmailDomain), FixedId))
  }

  function GetAll(): (r: Result<GetAllUserResponse, CustomError>)
    ensures r.Ok?
  {
    Ok(GetAllUserResponse([]))
  }

  function GetById(id: string): (r: Result<GetUserResponse, CustomError>)
    ensures r.Ok?
  {
    Ok(GetUserResponse(id, id + "'s name", id + EmailDomain))
  }

  function Create(user: User): (r: Result<string, CustomError>)
    ensures r.Ok?
  {
    Ok(FixedId)
  }

  function Delete(id: string): (r: Result<(), CustomError>)
    ensures r.Ok?
  {
    Ok(())
  }

  /** The repository contract, answered by this backend: each operation
      gets its own function's answer on its own argument. */
  function Handle(op: Repository.Operation): (r: Result<Repository.Reply, CustomError>)
    ensures r.Ok? && Repository.Answers(op, r)
    ensures op.CallGetAll? ==> r == Ok(Repository.Listed(GetAll().value))
    ensures op.CallGetById? ==> r == Ok(Repository.Found(GetById(op.id).value))
    ensures op.CallCreate? ==> r == Ok(Repository.Created(Create(op.user).value))
  {
    match op
    case CallGetAll => Ok(Repository.Listed(GetAll().value))
    case CallGetById(id) => Ok(Repository.Found(GetById(id).value))
    case CallCreate(user) => Ok(Repository.Created(Create(user).value))
    case CallDelete(id) => Ok(Repository.Deleted)
  }

  /** The login profile: fixed id, fixed name, the credential's email with
      the example domain appended, and the fixed id again as token. */
  lemma LoginProfile(credential: UserCredential)
    ensures Login(credential).value.data.id == FixedId
    ensures Login(credential).value.data.name == "s name"
    ensures Login(credential).value.data.email == credential.email + "@example.com"
    ensures Login(credential).value.token == FixedId
  {
  }

  /** Login ignores the password. */
  lemma LoginIgnoresPassword(email: string, p1: string, p2: string)
    ensures Login(UserCredential(email, p1)) == Login(UserCredential(email, p2))
  {
  }

  /** Listing always succeeds, with no users. */
  lemma GetAllIsEmpty()
    ensures GetAll() == Ok(GetAllUserResponse([]))
  {
  }

  /** Any id is "found", echoed, with a name and an email derived from it;
      the id can be read back from either. */
  lemma GetByIdDerivedFromId(id: string)
    ensures GetById(id).value.id == id
    ensures GetById(id).value.name == id + "'s name"
    ensures GetById(id).value.email == id + "@example.com"
    ensures GetById(id).value.email[..|id|] == id
  {
  }

  /** Creation answers the fixed id whatever the user. */
  lemma CreateIgnoresInput(u1: User, u2: User)
    ensures Create(u1) == Create(u2) == Ok(FixedId)
  {
  }

  /** Deletion succeeds for any id. */
  lemma DeleteAlwaysSucceeds(id: string)
    ensures Delete(id) == Ok(())
  {
  }

  /** No operation of the contract fails, and each answer is a function of
      the operation alone (there is no state to consult). */
  lemma NeverFails(op: Repository.Operation)
    ensures Handle(op).Ok?
    ensures op.CallCreate? ==> Handle(op) == Ok(Repository.Created(FixedId))
    ensures op.CallDelete? ==> Handle(op) == Ok(Repository.Deleted)
    ensures op.CallGetAll? ==> Handle(op) == Ok(Repository.Listed(GetAllUserResponse([])))
    ensures op.CallGetById? ==>
              Handle(op) == Ok(Repository.Found(GetUserResponse(op.id, op.id + "'s name", op.id + "@example.com")))
  {
  }

  /** Reading back a created user never shows that user: the record under
      the returned id is made up from the fixed id. */
  lemma CreatedUserNotReadBack(user: User)
    ensures GetById(Create(user).value)
              == Ok(GetUserResponse(FixedId, FixedId + "'s name", FixedId + "@example.com"))
  {
  }
}
