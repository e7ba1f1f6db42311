# Memories journal backend — verified model

This project models the decision logic of a small personal-journal HTTP
backend. Users sign in through GitHub OAuth. They then create, read, update
and delete short text memories, each with a cover image and a public flag.

The model has four modules:

- `Http` (`http.dfy`): request bodies as JSON values, the two field rules the
  schemas use (a required string, and a boolean coerced by JavaScript
  truthiness that defaults to false), and the reply type `Reply<T>` with its
  error kinds `Validation`, `NotFound`, `Unauthorized` and `Upstream`.
- `Memories` (`memories.dfy`): the memory record, the excerpt shown in
  listings, the read and modify permissions, and the class `MemoryTable`.
  The class holds the table as a `map` from memory id to memory. Its methods
  are the five handlers of `src/routes/memories.ts`. `List` and `Get` only
  read the table. `Create`, `Update` and `Delete` change it in place, and
  their contracts give the whole new table in terms of the old one.
- `Auth` (`auth.dfy`): the `/register` handler of `src/routes/auth.ts`. It
  covers the body schema, the choice between the web and the mobile
  credential pair, the profile schema, and the find-or-create of a user by
  GitHub id on the class `UserTable`. It also builds the token's claims. The
  ghost function `Upserted` gives the user table after a registration. The
  lemmas about it prove the table invariant (one user per GitHub id) and
  idempotence.
- `Scenarios` (`scenarios.dfy`): request sequences whose outcome follows
  from the handlers' contracts alone. These are create then read, create
  then delete, update by a stranger and then by the owner, and registering
  twice.

The caller's user id is an input: it is the subject of a bearer token that
the framework has already verified. Fresh ids and creation times come from
the store, so they are parameters. A `requires` clause says each fresh id is
not yet in use. Time is an integer number of seconds. The UUID check on path
ids and the URL check on the avatar are parameters of type `string -> bool`.
The model assumes nothing about them.

Two behaviours of the code are easy to misread:

- A schema failure and a missing row both make the handler throw. The
  framework then answers with its default error response. The model keeps
  these outcomes apart as `Validation` and `NotFound`. It does not claim a
  particular status code for them.
- `isPublic` and `isMobile` are coerced by truthiness, so the string
  `"false"` counts as true. An absent field counts as false.

## Model

| member | source | states |
|---|---|---|
| `Http.StringField` | src/routes/memories.ts:49-50 | A required string field is accepted exactly when it is present and holds a string, and its value is that string |
| `Http.CoercedFlag` | src/routes/memories.ts:51 | A coerced boolean with default false is true exactly when the field is present and truthy |
| `Memories.Substring` | src/routes/memories.ts:23 | With in-range indices, `substring` is the slice `s[start..end]`, and it is never longer than `s` |
| `Memories.Excerpt` | src/routes/memories.ts:23 | The excerpt has length `min(|content|, 115) + 3`. It begins with that prefix of the content and ends with `"..."` |
| `Memories.ExcerptKeepsAllIff` | src/routes/memories.ts:23 | The excerpt is the whole content followed by `"..."` if and only if the content has at most 115 characters |
| `Memories.ParseMemoryBody` | src/routes/memories.ts:48-58 | The body is accepted if and only if it is an object whose `content` and `coverUrl` are strings. The fields are copied. `isPublic` is true exactly when present and truthy, so it is false when omitted |
| `Memories.InsertByCreatedAt` | src/routes/memories.ts:13-18 | Insertion adds exactly one element and keeps all the others: the result is a permutation of the input plus the new memory |
| `Memories.InsertKeepsOrder` | src/routes/memories.ts:15-17 | Insertion keeps a sequence in ascending `createdAt` order |
| `Memories.InsertKeepsIdsDistinct` | src/routes/memories.ts:13-18 | Inserting a memory with a new id keeps the ids distinct |
| `Memories.MemoryTable.List` | src/routes/memories.ts:10-25 | The result holds each of the caller's memories exactly once, and no one else's. It is in ascending `createdAt` order, and each entry is `{id, coverUrl, excerpt}` of the stored row. The table is not modified |
| `Memories.MemoryTable.Get` | src/routes/memories.ts:26-44 | A non-UUID id is rejected and an absent id is not found. The call is `Unauthorized` if and only if the memory is private and owned by someone else. Otherwise it returns the stored record unchanged. The table is not modified |
| `Memories.MemoryTable.Create` | src/routes/memories.ts:45-70 | A bad body leaves the table unchanged. A good body adds exactly one row under the fresh id, owned by the caller, with the parsed fields. Nothing else changes |
| `Memories.MemoryTable.Update` | src/routes/memories.ts:71-110 | The id is checked, then the body, then the lookup, then ownership. Every failure leaves the table unchanged, and a non-owner fails even on a public memory. The owner's update replaces `content`, `coverUrl` and `isPublic`, keeps `id`, `userId` and `createdAt`, and changes no other row |
| `Memories.MemoryTable.Delete` | src/routes/memories.ts:111-131 | The id is checked, then the lookup, then ownership. Every failure leaves the table unchanged. The owner's delete removes exactly that id |
| `Auth.ParseRegisterBody` | src/routes/auth.ts:8-12 | The body is accepted if and only if `code` is a string. `isMobile` is true exactly when present and truthy, so it is false when omitted |
| `Auth.SelectCredentials` | src/routes/auth.ts:14-15 | Client id and secret come from one pair. When the two pairs differ, the mobile pair is used if and only if `isMobile` |
| `Auth.ParseProfile` | src/routes/auth.ts:30-36 | The profile is accepted if and only if `id` is a number, `login` and `name` are strings, and `avatar_url` is a string the URL check accepts. The fields are copied |
| `Auth.IssueClaims` | src/routes/auth.ts:53-59 | The subject, name and avatar come from the given stored user. The expiry is 30 days after issuance |
| `Auth.UpsertedKeepsInvariant` | src/routes/auth.ts:38-51 | After a registration, exactly one user has the profile's GitHub id. Existing users are unchanged, so profile fields are not refreshed. The only possible new row is the one built from the profile under the fresh id |
| `Auth.UpsertedIdempotent` | src/routes/auth.ts:38-51 | Registering the same profile a second time leaves the table exactly as the first registration left it |
| `Auth.UserTable.FindByGithubId` | src/routes/auth.ts:38-40 | Returns a stored user with the given GitHub id, or nothing exactly when no such user exists |
| `Auth.UserTable.Register` | src/routes/auth.ts:7-62 | A bad body fails before any provider request. Otherwise the token request uses the selected pair and the code. A provider failure or a bad profile fails with the user table unchanged. Success happens exactly when all three steps pass. Then the table becomes `Upserted(old table, profile, fresh id)`, and the claims are issued for the stored user with the profile's GitHub id |
| `Scenarios.CreateThenGet` | src/routes/memories.ts:26-70 | A created memory reads back with the given content and cover, private and owned by its creator. Another user is refused |
| `Scenarios.CreateThenDelete` | src/routes/memories.ts:45-131 | The owner's delete succeeds right after a create, and the table returns to what it was |
| `Scenarios.UpdateThenGet` | src/routes/memories.ts:26-110 | A stranger's update is refused. The owner's update is what a later read returns |
| `Scenarios.RegisterTwice` | src/routes/auth.ts:38-59 | If the first registration succeeds, a second one with the same inputs also succeeds and names the same user. After both calls the table is `Upserted(table before the first call, profile, first fresh id)`, that is, exactly what the first call left |

## Left out

- JWT signing and verification, including the pre-handler that checks the bearer token: the caller id is an input and the token is its claims record.
- The two HTTP calls to GitHub: the token request is returned as a value, and the profile response (or a failure) is a parameter. A missing `access_token` in the provider's answer shows up only as whatever the profile call then returns.
- UUID and URL syntax: these are opaque `string -> bool` parameters. Everything proved holds for any such check.
- Fractional and non-finite JSON numbers: `Json` numbers are integers.
- JavaScript's UTF-16 code units: `content` is a `seq<char>`, and `substring` is modelled on that sequence.
- Environment variables and the start-up check for `JWT_SECRET_KEY`: the credential pairs are an immutable `Config` value.
- The database's concurrency, including the gap between lookup and write in update and delete. Each handler runs as one atomic step.
- The foreign key from `Memory.userId` to `User.id`: the two tables are separate classes and nothing links them.
- The order of memories with equal `createdAt`: the database fixes none, and `List` promises only a non-decreasing order.
- Fastify wiring, CORS, multipart, the static file server, the upload routes and `listen` (src/server.ts): they contain no decision logic.
- `Auth.SelectCredentials`: when the web and mobile pairs are equal, the contract does not say which one was chosen, because the two cannot be told apart.
