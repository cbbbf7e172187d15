/** The four-operation user repository contract that both backends implement:
    list all users, fetch one by id, create one, delete one. Each backend
    answers an `Operation` with a `Reply` or a `CustomError`. */
module Repository {
  import opened Results
  import opened Errors
  import opened Models

  datatype Operation =
    | CallGetAll
    | CallGetById(id: string)
    | CallCreate(user: User)
    | CallDelete(id: string)

  datatype Reply =
    | Listed(all: GetAllUserResponse)
    | Found(user: GetUserResponse)
    | Created(id: string)
    | Deleted

  /** A successful answer has the return type the contract gives the operation. */
  predicate Answers(op: Operation, r: Result<Reply, CustomError>) {
    r.Ok? ==>
      match op
      case CallGetAll => r.value.Listed?
      case CallGetById(_) => r.value.Found?
      case CallCreate(_) => r.value.Created?
      case CallDelete(_) => r.value.Deleted?
  }
}
