# Authentication guard and user repositories, modelled in Dafny

This project models the core of a small account service written in Rust on
Rocket and MongoDB:

- **the bearer-token guard** (`src/core/auth.rs`): a request carrying an
  `authorization` header is authenticated when the header, stripped of every
  leading `Bearer` and trimmed, decodes as an HS512-signed JSON Web Token;
  a missing header and every decoding failure (expired, invalid, anything
  else) give the same forward with status 400. Issued tokens carry
  `subject_id = id` and `exp = now + 60`.
- **the document-store user repository** (`src/user/db/mongo/user_mongo.rs`):
  `get_all`, `get_by_id`, `create` and `delete` over the `users` collection,
  here a `seq<User>` in the store's natural order, each operation a pure
  function returning its result and the new collection.
- **the synthetic repository** (`src/user/db/mock/user_db_mock.rs`): a
  stateless backend whose answers are closed-form functions of the arguments,
  plus a `login` that only it offers.
- **the error type** (`src/user/errors.rs`): `CustomError`, its `Display`
  rendering and the conversion from driver errors.

The four-operation repository interface (`src/user/repository.rs`) is the
`Repository.Operation`/`Repository.Reply` pair; each backend has a `Handle`
function that answers an operation.

Modules: `Results` (Option/Result), `Text` (Rust's `trim`,
`trim_start_matches`, `char::is_whitespace`, decimal rendering), `Errors`,
`Models`, `Repository`, `Ids` (ObjectId and UUID text forms), `Auth`,
`UserMongo`, `MockUserDb`.

What stands in for the outside world:

- JWT signing and verification are the function parameters `encode` and
  `decode` of type `Auth.Encoder`/`Auth.Decoder`. The decoder also stands
  for the library's expiry check against the clock.
- The clock reading `Utc::now()` is the parameter `now` (Unix seconds).
- The `JWT_SECRET` value is the parameter `secret`.
- For the document store, each call takes a `fault` (`Some(err)` when the
  driver call fails). `create` also takes the generated `uuid` and the
  store-reported `insertedId`.
- The numeric code of `UserNotFound` is the parameter `notFoundCode`. The
  store code builds `UserNotFound` with no code, although the variant
  declares one.

Where the code and the service's intended contract part ways, the model
follows the code:

- `get_all` on an empty collection is the error `UserNotFound`, not an empty
  list.
- `delete` of a missing id succeeds.
- `create` checks neither email nor id for uniqueness.
- `create` answers with the hex text of the store's ObjectId. It does not
  answer with the uuid it wrote into the document's `id` field, so looking
  up the returned id does not find the new document
  (`UserMongo.CreatedIdNotFound`).

Two spots would not compile as shown:

- the `UserNotFound` construction without a code in the store repository;
- the synthetic `login`, which is not a method of the trait it is
  implemented in.

The model gives the first a parameter. It gives the second a
`MockUserDb.Login` of its own, outside the contract.

## Model

| member | source | states |
|---|---|---|
| Auth.FromRequest | src/core/auth.rs:27-74 | no header gives Forward(BadRequest); the outcome is Success exactly when a header is present and decodes, and then carries exactly the decoded claims; every other case (expired, invalid, any other error) is the same Forward(BadRequest); the guard never produces the Error outcome |
| Auth.NormaliseToken | src/core/auth.rs:81 | the value handed to the decoder never has leading or trailing whitespace |
| Auth.SchemeIsStripped | src/core/auth.rs:81 | `Bearer ` followed by a token without surrounding whitespace reaches the decoder as exactly that token |
| Auth.BareTokenUnchanged | src/core/auth.rs:81 | a bare token that has no surrounding whitespace and does not start with `Bearer` reaches the decoder unchanged |
| Auth.NormalisationNotIdempotent | src/core/auth.rs:81 | `Bearer Bearer t` normalises to `Bearer t`, and normalising again gives `t`: one strip-then-trim pass, not idempotent |
| Auth.RepeatedSchemeStripped | src/core/auth.rs:81 | back-to-back copies `BearerBearer` are all removed, with no space needed |
| Auth.SchemeIsCaseSensitive | src/core/auth.rs:81 | a lower-case `bearer ` prefix is not removed |
| Auth.DecodeJwt | src/core/auth.rs:77-93 | the library's decoder is applied to the normalised header value, with the secret and a validation accepting HS512 only, and its result (claims or error kind) is returned unchanged |
| Auth.CreateJwt | src/core/auth.rs:95-112 | the library's encoder is applied to the header `{typ: "JWT", alg: HS512}`, the issued claims for `id` at `now`, and the secret, and its result is returned unchanged |
| Auth.IssueAndValidateAgreeOnAlgorithm | src/core/auth.rs:84-111 | for every encoder and decoder, `create_jwt` signs under a header declaring HS512 and `decode_jwt` accepts exactly that header's algorithm and no other |
| Auth.IssueClaims | src/core/auth.rs:100-107 | issued claims have `subject_id == id` and `exp == now + 60`; a negative timestamp wraps around as the `as usize` cast does |
| Auth.CompactTokenPassesGuard | src/core/auth.rs:27-93 | a compact token (base64url and dots) that the decoder accepts passes the guard, bare or as `Bearer <token>`, carrying the decoded claims |
| Auth.IssuedTokenPassesGuard | src/core/auth.rs:77-112 | suppose the library, reading the clock as `clock`, decodes back every unexpired claim set it signs, and the token it returns is compact (base64url and dots); then a token from `create_jwt` issued at `now` (no wrap-around) and presented no later than `now + 60`, bare or as `Bearer <token>`, passes the guard carrying the claims it was issued with |
| Auth.ExpiringLibraryRoundTrips | src/core/auth.rs:84-88 | a decoder that, like `Validation::new(HS512)`, refuses claims whose expiry is before its clock still meets the round-trip hypothesis of `IssuedTokenPassesGuard`, so that lemma covers expiry-enforcing libraries |
| Text.TrimStartMatches | src/core/auth.rs:81 | `trim_start_matches`: the result is a suffix, the part removed is a run of copies of the pattern, and the result does not start with the pattern |
| Text.TrimStartMatchesOfRun | src/core/auth.rs:81 | the decomposition is unique: a run of copies followed by text not starting with the pattern strips to exactly that text |
| Text.TrimStart | src/core/auth.rs:81 | only leading whitespace is removed, and the result does not start with whitespace |
| Text.TrimEnd | src/core/auth.rs:81 | only trailing whitespace is removed, and the result does not end with whitespace |
| Text.Trim | src/core/auth.rs:81 | the result has no leading or trailing whitespace |
| Text.TrimIsSlice | src/core/auth.rs:81 | trimming keeps one contiguous slice of the input and drops only whitespace around it |
| Text.TrimOfPadded | src/core/auth.rs:81 | trimming is characterised by its result: whitespace around a trimmed string is removed to give exactly that string |
| Text.DecimalString | src/user/errors.rs:17-20 | a code prints as a non-empty run of digits with no leading zero, which is exactly `0` for code 0 and reads back as the code |
| Errors.Display | src/user/errors.rs:14-23 | `UserNotFound(c)` is `"<c> User not found"`, `UserAlreadyExists(c)` is `"<c> User already exists"`, `EmailAlreadyExists(c)` is `"<c> Email already exists"`, `MissingFields(c, m)` is `"<c> The following fields are missing: {} <m>"` with the literal `{}`, and `GenericError(m)` is `"An error ocurred: <m>"` with no code |
| Errors.DisplayRoundTrip | src/user/errors.rs:14-23 | every rendering reads back to the error it came from |
| Errors.DisplayInjective | src/user/errors.rs:4-23 | two errors render alike exactly when they are equal (same variant and equal payloads), so rendering loses nothing |
| Errors.FromDriverError | src/user/errors.rs:26-30 | every driver error becomes `GenericError` carrying that error's text, never another variant |
| UserMongo.GetAll | src/user/db/mongo/user_mongo.rs:21-44 | an empty collection gives `UserNotFound`; otherwise one response per document in collection order, with name and email copied and a missing `id` shown as `_id`; a driver failure gives `GenericError` |
| UserMongo.FindFirst | src/user/db/mongo/user_mongo.rs:55 | finds the first document whose `id` equals the argument, or reports that none does |
| UserMongo.GetById | src/user/db/mongo/user_mongo.rs:45-64 | succeeds exactly when some document has that `id`, answering the first such document's name and email with the argument echoed as id; otherwise `UserNotFound` |
| UserMongo.Create | src/user/db/mongo/user_mongo.rs:66-93 | appends exactly one document, with the uuid as `id` and the input's name, email and password (the input's `id` ignored), and keeps existing documents; answers the ObjectId's hex, or `GenericError("Inserted ID is not ObjectId")` after the write; a driver failure changes nothing |
| UserMongo.RemoveFirst | src/user/db/mongo/user_mongo.rs:105 | removes the first document with a matching `id` and nothing else; without a match the collection is unchanged |
| UserMongo.Delete | src/user/db/mongo/user_mongo.rs:95-112 | succeeds whether or not a document matched, removing at most the first match; a driver failure gives `GenericError` and changes nothing |
| UserMongo.Handle | src/user/repository.rs:12-17 | the store backend answers each operation with the contract's return type, carrying exactly that operation's own result on its own argument (listing, lookup of the given id, create of the given user, delete of the given id), with the collection that operation leaves; reads leave the collection unchanged, and a driver failure is a `GenericError` with the collection unchanged |
| UserMongo.FoundIsListed | src/user/db/mongo/user_mongo.rs:21-64 | whatever `get_by_id` finds also appears in the `get_all` listing |
| UserMongo.DuplicateEmailAccepted | src/user/db/mongo/user_mongo.rs:66-92 | two creates with the same email both succeed and the collection then holds two more documents with that email |
| UserMongo.CreatedFoundByUuid | src/user/db/mongo/user_mongo.rs:55-78 | when no earlier document carries that uuid's text as its id, a created document is found under the uuid in its `id` field, with the input's name and email |
| UserMongo.CreatedIdNotFound | src/user/db/mongo/user_mongo.rs:84-89 | the id `create` answers is the ObjectId text, not the uuid, and, when no earlier document carries that text as its id, looking it up reports `UserNotFound` |
| UserMongo.CreateKeepsIdsUnique | src/user/db/mongo/user_mongo.rs:70-78 | with a uuid no document carries, `create` keeps ids unique |
| UserMongo.DeleteRemovesAtMostOne | src/user/db/mongo/user_mongo.rs:105-111 | `delete` removes exactly one document (the first match) when one matches, as a multiset difference, and none otherwise |
| UserMongo.DeletedIdNotFound | src/user/db/mongo/user_mongo.rs:95-111 | when ids are unique, a deleted id is no longer found |
| UserMongo.DeleteKeepsIdsUnique | src/user/db/mongo/user_mongo.rs:105 | `delete` keeps ids unique |
| Ids.Hex | src/user/db/mongo/user_mongo.rs:87 | each byte becomes two lower-case hex digits, most significant nibble first, in byte order |
| Ids.HexInjective | src/user/db/mongo/user_mongo.rs:87 | equal hex texts come from equal byte sequences |
| Ids.ObjectIdString | src/user/db/mongo/user_mongo.rs:87 | an ObjectId renders as 24 lower-case hex digits, positions 2i and 2i+1 holding the nibbles of byte i |
| Ids.ObjectIdStringInjective | src/user/db/mongo/user_mongo.rs:87 | distinct ObjectIds render to distinct texts, so `create`'s answer identifies the inserted ObjectId |
| Ids.UuidString | src/user/db/mongo/user_mongo.rs:72 | a uuid renders as 36 characters with hyphens at positions 8, 13, 18 and 23 |
| Ids.UuidStringGroups | src/user/db/mongo/user_mongo.rs:72 | the five groups of the text are the hex digits of bytes 0-3, 4-5, 6-7, 8-9 and 10-15, in order |
| Ids.UuidStringInjective | src/user/db/mongo/user_mongo.rs:72 | distinct uuids render to distinct texts, so the stored `id` identifies the generated uuid |
| MockUserDb.Login | src/user/db/mock/user_db_mock.rs:14-23 | synthetic login always succeeds |
| MockUserDb.LoginProfile | src/user/db/mock/user_db_mock.rs:14-22 | the profile is id `1234abcd`, name `s name`, email `<credential email>@example.com`, token `1234abcd` |
| MockUserDb.LoginIgnoresPassword | src/user/db/mock/user_db_mock.rs:14-22 | the password does not affect the answer |
| MockUserDb.GetAll | src/user/db/mock/user_db_mock.rs:24-28 | listing always succeeds |
| MockUserDb.GetAllIsEmpty | src/user/db/mock/user_db_mock.rs:24-28 | the listing is always empty |
| MockUserDb.GetById | src/user/db/mock/user_db_mock.rs:30-36 | lookup always succeeds |
| MockUserDb.GetByIdDerivedFromId | src/user/db/mock/user_db_mock.rs:30-36 | the id is echoed, the name is `<id>'s name` and the email `<id>@example.com` |
| MockUserDb.Create | src/user/db/mock/user_db_mock.rs:38-40 | creation always succeeds |
| MockUserDb.CreateIgnoresInput | src/user/db/mock/user_db_mock.rs:38-40 | creation answers `1234abcd` whatever the user |
| MockUserDb.Delete | src/user/db/mock/user_db_mock.rs:42-44 | deletion always succeeds |
| MockUserDb.DeleteAlwaysSucceeds | src/user/db/mock/user_db_mock.rs:42-44 | deletion answers `Ok(())` for any id |
| MockUserDb.Handle | src/user/repository.rs:12-17 | the synthetic backend answers every operation successfully with the contract's return type, carrying that operation's own answer on its own argument |
| MockUserDb.NeverFails | src/user/db/mock/user_db_mock.rs:10-45 | no operation fails; create, delete and list answer fixed values whatever the input, and a lookup answers the record made up from the requested id |
| MockUserDb.CreatedUserNotReadBack | src/user/db/mock/user_db_mock.rs:30-40 | looking up the id `create` returns shows a made-up `1234abcd` user, never the created one |

## Left out

- JWT encoding, decoding and HMAC-SHA-512 signatures (RFC 7519; section 3.2 of RFC 7518) belong to a library. They are the `encode`/`decode` parameters, and only their results are modelled.
- The library's expiry comparison and leeway are not modelled, because they happen inside `decode`.
- Reading the wall clock is not modelled: it is the `now` parameter.
- Loading `.env` and reading `JWT_SECRET` is not modelled: the secret is a parameter. The panic when the variable is unset is not modelled.
- Auth.IssueClaims: does not model the "Invalid timestamp" panic that the date library raises for dates outside its range (hundreds of thousands of years away); the model always returns claims.
- Client construction (`UserMongo::new`), database selection, async cursors and serde deserialisation are not modelled. The collection holds well-formed user documents only, so a document that fails to deserialise is not modelled.
- UserMongo.Create: a failing insert is modelled as leaving the collection unchanged; the driver's exact partial-failure behaviour is outside the model.
- Driver failures are one `fault` per call. `get_all`'s separate failures of `find` and of `try_next` collapse into that one parameter; both end as the same `GenericError`.
- Uuid v4 generation and ObjectId assignment are parameters. A uuid is any 16 bytes, so its version and variant bits are not constrained.
- `println!` debug output is not modelled.
- Rocket's request type is reduced to the first `authorization` header value (`Option<string>`). The Rocket outcome is reduced to a three-way datatype.
- The `NetworkResponse` error payload is left out, because the guard never produces an error outcome.
- Concurrency and atomicity of create under load are not modelled: the code has no such logic.
- Password hashing and verification, login against the store, and email or id uniqueness enforcement are not modelled. None appears in the code; the lemmas state that create does no uniqueness check.
- The service layer that calls the repositories and the HTTP routes are not part of this model.
- `CreateUserRequest` and `CreateUserResponse` are not modelled, because no modelled operation uses them.
- Equality of `CustomError` (the derived `PartialEq`) is Dafny's structural equality on the datatype and needs no member of its own. `Errors.DisplayInjective` states its consequence for rendering.
