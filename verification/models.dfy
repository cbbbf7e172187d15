/** The user records exchanged between the repository and its callers. They
    carry no behaviour of their own. */
module Models {
  import opened Results

  /** A user as stored in the document collection; `id` is the logical
      identifier field, absent on documents written without one. */
  datatype User = User(id: Option<string>, email: string, password: string, name: string)

  datatype UserCredential = UserCredential(email: string, password: string)

  /** The public view of a user: no password. */
  datatype GetUserResponse = GetUserResponse(id: string, name: string, email: string)

  datatype GetAllUserResponse = GetAllUserResponse(data: seq<GetUserResponse>)

  datatype UserProfile = UserProfile(data: GetUserResponse, token: string)
}
