# drivenpass secret store: a Dafny model

This project models the core of a small multi-tenant password vault. Users
sign up with an email and a password. Only a bcrypt hash of the password is
stored. Signing in issues a JSON web token carrying the user id. Signed-in
users keep two kinds of secret, both owned by a user:

- credentials: title, url, username, password;
- networks: title, network name, password.

The password of a secret is encrypted when written and decrypted when read.

The model follows the repository/service split of the source:

- `common.dfy` (module `Common`): results and errors, the crypto calls as
  injected configuration, the two query shapes of the persistence layer
  (first match `Find`, all matches in table order `Filter`), and the facts
  about unique columns (`UniqueKeys`) that the three tables share.
- `users_repository.dfy`, `credentials_repository.dfy`,
  `networks_repository.dfy`: each table is a class. It holds its rows as a
  sequence (`rows`, in insertion order) and the next id to hand out
  (`nextId`). `Valid()` says ids are positive, distinct and below `nextId`;
  for the User table it also says emails are distinct.
  Inserts and deletes are methods. Lookups are functions that read the table,
  so they cannot change it.
- `users_service.dfy`, `credentials_service.dfy`, `networks_service.dfy`: the
  service rules on top of the tables. Creates and deletes are methods that
  modify the table. Reads are functions.

Foreign calls are parameters, never bodyless functions:

- `Cipher` holds `encrypt` and `decrypt`. The encryption module's code is not
  part of this model.
- `Hasher` holds `bcrypt.hash(password, rounds, salt)` and `compareSync`. The
  random salt is an explicit argument of `CreateUser`.
- `Signer` holds `jwt.sign` and `jwt.verify`. The signing secret
  (`process.env.JWT_SECRET`) is an argument.

Each config has a `Sound()` predicate stating the one assumption made about
the library: decryption undoes encryption; a password matches its own hash; a
signed payload verifies. These are only ever hypotheses of the properties that
need them, never facts the model asserts.

Persistence-layer behaviour the model fixes:

- `findFirst` returns the first matching row in table order.
- `findMany` returns every matching row in table order.
- `findUnique` on the email or the id: these columns are unique, so the
  match is the only one. The User table's `Valid()` includes email
  uniqueness.
- `create` appends a row with a fresh id. For the User table, `create` with
  an email another account already has is refused by the unique column, as
  `UniqueConstraintError`; nothing is stored. The sign-up check runs first,
  so the service never reaches that refusal.
- `delete` by id removes that row. When no row has the id, it throws; that is
  `RecordNotFoundError` here.

Behaviour the model reproduces as written:

- `createCredential` and `createNetwork` resolve to nothing.
- Credential title clashes raise `ConflictError` with the message "There is
  already a credential with this title". Network title clashes raise
  `DuplicatedTitleError`.
- `getNetworkById` returns its not-found error as a value (`Reply.ErrorValue`)
  instead of throwing.
- Because of that, `deleteNetwork` deletes by id whoever owns the row (see
  Findings).
- In `getAllNetworks`, the repository always resolves to a list, and every
  JavaScript list is truthy, even an empty one. So the `notFoundError` branch
  at src/services/networks-service.ts:28-30 never runs; the model proves the
  result is always a value.

## Model

| member | source | states |
|---|---|---|
| `Common.Find` | src/repositories/credentials-repository.ts:10-17 | `findFirst`: none exactly when no row satisfies the filter; otherwise a satisfying row of the table with no satisfying row before it |
| `Common.Filter` | src/repositories/credentials-repository.ts:28-32 | `findMany`: an element is in the result exactly when it is in the table and satisfies the filter |
| `Common.FilterAppend` | src/repositories/credentials-repository.ts:28-32 | `findMany` keeps table order: filtering distributes over concatenation |
| `Common.FilterAppendOne` | src/repositories/credentials-repository.ts:4-32 | after an insert, the inserted row ends the list of the rows it matches, and every other list is unchanged |
| `Common.AppendKeepsKeysUnique` | src/services/credentials-service.ts:10-16 | appending a row whose key is new keeps a unique column unique: ids on every create, (owner, title) after the services' title check, emails after the sign-up check |
| `Common.RemoveKeepsKeysUnique` | src/repositories/credentials-repository.ts:34-38 | deleting one row keeps a unique column unique, keeps only rows that were there, and leaves no row with the deleted row's key |
| `Common.KeyDeterminesRow` | src/repositories/users-repository.ts:10-24 | under a unique column, two rows with the same key are the same row, so a lookup by id or email has one answer and an id has one owner |
| `UsersRepository.UserTable.CreateUser` | src/repositories/users-repository.ts:4-8 | one new row holding exactly the given email and password, with a fresh id, appended; `UniqueConstraintError` with nothing stored exactly when the email is taken; ids and emails stay distinct |
| `UsersRepository.UserTable.FindUserByEmail` | src/repositories/users-repository.ts:10-16 | the account with that email, or none exactly when no row has it |
| `UsersRepository.UserTable.FindById` | src/repositories/users-repository.ts:18-24 | the account with that id, or none exactly when no row has it |
| `UsersService.ValidateUniqueEmailOrFail` | src/services/users-service.ts:18-23 | fails with `DuplicatedEmailError` exactly when some account already has the email |
| `UsersService.CreateUser` | src/services/users-service.ts:8-16 | `DuplicatedEmailError` with the table unchanged exactly when the email is taken; otherwise one new account with the email and `hash(password, 12, salt)` is appended and returned; the new account passes `GetUser` with the original password when bcrypt is sound |
| `UsersService.FindById` | src/services/users-service.ts:25-31 | `NotFoundError` exactly when no account has the id; otherwise the account with that id |
| `UsersService.GetUser` | src/services/users-service.ts:33-44 | a success is an account with the login's email whose hash `compareSync` accepts; every failure is `UnauthorizedError`; an unknown email fails; success exactly when such an account exists |
| `UsersService.Login` | src/services/users-service.ts:46-50 | fails exactly when `GetUser` fails, with its error; otherwise the token is `sign(user.id, secret)` and, when the signer is sound, verifies to the id of an account with the login's email |
| `UsersService.LoginIssuesToken` | src/services/users-service.ts:33-50 | an account whose hash accepts the password gets a token that verifies to its own id |
| `CredentialsRepository.CredentialTable.CreateCredential` | src/repositories/credentials-repository.ts:4-8 | appends one row with a fresh id and the data's fields, the `userId` argument overriding the data's; that owner's list gains the row at its end, every other owner's list is unchanged |
| `CredentialsRepository.CredentialTable.GetCredentialByTitle` | src/repositories/credentials-repository.ts:10-17 | a row matching both owner and title, or none exactly when no row matches both |
| `CredentialsRepository.CredentialTable.GetCredentialById` | src/repositories/credentials-repository.ts:19-26 | a row matching both owner and id, or none exactly when no row matches both |
| `CredentialsRepository.CredentialTable.GetAllCredentials` | src/repositories/credentials-repository.ts:28-32 | exactly the rows owned by the user |
| `CredentialsRepository.CredentialTable.DeleteCredentials` | src/repositories/credentials-repository.ts:34-38 | with no owner filter: removes the one row with that id and returns it, all other rows stay in order; `RecordNotFoundError` with nothing changed when no row has the id |
| `CredentialsService.CreateCredential` | src/services/credentials-service.ts:9-17 | `ConflictError` with the table unchanged exactly when the user already has that title; otherwise appends one row with the user's id, the data's fields and `encrypt(password)`; per-owner title uniqueness is preserved; when the cipher is sound, fetching the new id as the same user gives back the plaintext |
| `CredentialsService.GetCredentialById` | src/services/credentials-service.ts:19-27 | `NotFoundError` exactly when no row matches both user and id; otherwise the matching stored row with only its password replaced by `decrypt` of it |
| `CredentialsService.CrossOwnerInvisible` | src/services/credentials-service.ts:19-27 | a credential owned by one user is `NotFoundError` when fetched by its id under any other user |
| `CredentialsService.GetAllCredentials` | src/services/credentials-service.ts:29-35 | one entry per row the user owns, in repository order, each with its password decrypted; only the user's rows; an empty list when the user owns nothing |
| `CredentialsService.DeleteCredentials` | src/services/credentials-service.ts:37-40 | `NotFoundError` with nothing deleted exactly when the user does not own the id; otherwise exactly that row is removed and all other rows stay in order; title uniqueness is preserved |
| `NetworksRepository.NetworkTable.CreateNetwork` | src/repositories/networks-repository.ts:4-8 | appends one row with a fresh id and the data's fields, the `userId` argument overriding the data's; that owner's list gains the row at its end, every other owner's list is unchanged |
| `NetworksRepository.NetworkTable.GetAllNetworks` | src/repositories/networks-repository.ts:10-14 | exactly the rows owned by the user |
| `NetworksRepository.NetworkTable.GetNetworksByTitle` | src/repositories/networks-repository.ts:16-20 | a row matching both owner and title, or none exactly when no row matches both |
| `NetworksRepository.NetworkTable.GetNetworkById` | src/repositories/networks-repository.ts:22-29 | a row matching both owner and id, or none exactly when no row matches both |
| `NetworksRepository.NetworkTable.DeleteNetwork` | src/repositories/networks-repository.ts:31-35 | regardless of owner: removes the one row with that id and returns it, all other rows stay in order; `RecordNotFoundError` with nothing changed when no row has the id |
| `NetworksService.CreateNetwork` | src/services/networks-service.ts:7-13 | `DuplicatedTitleError` with the table unchanged exactly when the user already has that title; otherwise appends one row with the user's id and `encrypt(password)`; per-owner title uniqueness is preserved; when the cipher is sound, fetching the new id as the same user gives back the plaintext |
| `NetworksService.GetNetworkById` | src/services/networks-service.ts:15-24 | returns the `NotFoundError` value, not thrown, exactly when no row matches both user and id; otherwise the matching row with its password decrypted |
| `NetworksService.CrossOwnerInvisible` | src/services/networks-service.ts:15-24 | a network owned by one user is the `NotFoundError` value when fetched by its id under any other user |
| `NetworksService.GetAllNetworks` | src/services/networks-service.ts:26-35 | always a value: one entry per row the user owns, in repository order, passwords decrypted; an empty list when the user owns nothing |
| `NetworksService.DeleteNetwork` | src/services/networks-service.ts:37-40 | ignores the lookup: removes the row with that id whoever owns it, the rest stay in order; fails only with `RecordNotFoundError` when no row has that id, changing nothing |
| `NetworksService.CrossOwnerDelete` | src/services/networks-service.ts:37-40 | on a table holding one network of user 1, user 2's delete succeeds and leaves the table empty |
| `NetworksService.DeleteOwnedNetwork` | src/services/networks-service.ts:37-40 | corrected delete: `NotFoundError` with nothing deleted exactly when the user does not own the id; otherwise exactly that row is removed |
| `NetworksService.CrossOwnerDeleteRefused` | src/services/networks-service.ts:37-40 | on the same table, the corrected delete refuses user 2 with `NotFoundError` and user 1's network stays |

## Left out

- HTTP controllers, routers, request-schema validation and application
  bootstrap: transport behaviour, not vault logic. Schema validation would
  only guarantee that the string fields are present, and the model does not
  need that.
- The token-checking middleware that resolves the signed-in user: it is not
  part of this model. The services take the user, or the user id, as a trusted
  argument.
- The code of the encryption module, bcrypt and jsonwebtoken: these are
  foreign calls, modelled as function parameters. `decrypt` failing on
  malformed ciphertext is not modelled; decryption is total.
- UsersService.Login: `jwt.sign` stamps each token with its issue time
  (`iat`), so sign-ins in different seconds get different tokens. The
  model's `sign` has no clock: it is a function of the id and the secret
  alone, so repeated sign-ins of one account get equal tokens here. The
  properties proved (the token verifies to the account's id) do not depend on
  the clock. An unset `JWT_SECRET`, on which `jwt.sign` throws, is not
  modelled either: the secret is always a string argument.
- Ids are JavaScript numbers in the source and unbounded integers (`int`)
  here; precision loss beyond 2^53 is not modelled.
- bcrypt's work factor as a cost: the model records the value 12 in the hash
  call but does not model time.
- The database schema is not part of this model. The model takes the id
  columns and the user email as unique, because `findUnique` is only
  accepted on unique columns. It takes (owner, title) as not unique: the
  secret lookups use `findFirst`. Title uniqueness comes only from the
  services' check-then-insert.
- Concurrency: the model is sequential. Two interleaved creates with the same
  owner and title could both pass the check; that race is not modelled.
- The asynchrony of every call (promises) is not modelled. Each call is one
  atomic step.
- Prisma's own id generation and row order: modelled as a counter starting at
  1 and as insertion order.

## Findings

| source | as written | input that shows it | evidently intended | confidence | as-written member | corrected member |
|---|---|---|---|---|---|---|
| src/services/networks-service.ts:37-40 | `getNetworkById` returns, rather than throws, its not-found error (lines 17-19), and `deleteNetwork` ignores that result, so any signed-in user can delete any network by id | table holding network 1 owned by user 1; user 2 calls `deleteNetwork(user2, 1)`: it succeeds and the network is gone | as in `deleteCredentials`, refuse with `NotFoundError` and delete nothing unless the user owns the id | high, not executed | `NetworksService.CrossOwnerDelete` | `NetworksService.DeleteOwnedNetwork` |
