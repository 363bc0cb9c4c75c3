/** Sign-up and sign-in over the User table (src/services/users-service.ts). */
module UsersService {
  import opened Common
  import opened UsersRepository

  /** The bcrypt work factor used on sign-up. */
  const HashRounds: nat := 12

  /** `validateUniqueEmailOrFail`: fails exactly when an account already uses the email. */
  function ValidateUniqueEmailOrFail(table: UserTable, email: string): (r: Outcome)
    requires table.Valid()
    reads table
    ensures r.Fail? <==> exists u :: u in table.rows && u.email == email
    ensures r.Fail? ==> r.error == DuplicatedEmailError
  {
    if table.FindUserByEmail(email).Some? then Fail(DuplicatedEmailError) else Pass
  }

  /** `createUser`: refuse a taken email; otherwise store the email with the
      bcrypt hash of the password (never the password itself) and return the
      new account. An account created this way passes `GetUser` with the
      password it was created with. */
  method CreateUser(table: UserTable, hasher: Hasher, salt: string, params: UserData) returns (r: Result<User>)
    requires table.Valid()
    modifies table
    ensures table.Valid()
    ensures r.Err? <==> exists u :: u in old(table.rows) && u.email == params.email
    ensures r.Err? ==> r.error == DuplicatedEmailError && table.rows == old(table.rows) && table.nextId == old(table.nextId)
    ensures r.Ok? ==> r.value == User(old(table.nextId), params.email, hasher.hash(params.password, HashRounds, salt))
    ensures r.Ok? ==> table.rows == old(table.rows) + [r.value] && table.nextId == old(table.nextId) + 1
    ensures r.Ok? && hasher.Sound() ==> GetUser(table, hasher, params) == Ok(r.value)
  {
    var unique := ValidateUniqueEmailOrFail(table, params.email);
    if unique.Fail? {
      return Err(unique.error);
    }
    var hashedPassword := hasher.hash(params.password, HashRounds, salt);
    r := table.CreateUser(UserData(params.email, hashedPassword));
    assert r.Ok?;
    assert r.value in table.rows;
  }

  /** `findById`: the account with that id, or `NotFoundError`. */
  function FindById(table: UserTable, id: int): (r: Result<User>)
    requires table.Valid()
    reads table
    ensures r.Err? <==> forall u :: u in table.rows ==> u.id != id
    ensures r.Err? ==> r.error == NotFoundError
    ensures forall u :: u in table.rows && u.id == id ==> r == Ok(u)
  {
    match table.FindById(id)
    case None => Err(NotFoundError)
    case Some(user) => Ok(user)
  }

  /** `getUser`: the account with the login's email whose stored hash accepts
      the login's password; `UnauthorizedError` when the email is unknown or
      the comparison fails. */
  function GetUser(table: UserTable, hasher: Hasher, login: UserData): (r: Result<User>)
    requires table.Valid()
    reads table
    ensures r.Ok? ==> r.value in table.rows && r.value.email == login.email
    ensures r.Ok? ==> hasher.compareSync(login.password, r.value.password)
    ensures r.Err? ==> r.error == UnauthorizedError
    ensures (forall u :: u in table.rows ==> u.email != login.email) ==> r.Err?
    ensures r.Ok? <==> exists u :: u in table.rows && u.email == login.email && hasher.compareSync(login.password, u.password)
  {
    match table.FindUserByEmail(login.email)
    case None => Err(UnauthorizedError)
    case Some(user) =>
      if hasher.compareSync(login.password, user.password) then Ok(user) else Err(UnauthorizedError)
  }

  /** `login`: a token signed over `{ userId }` of the authenticated account;
      the errors of `GetUser` propagate. The token verifies, under the same
      secret, to the id of the account holding the login's email. */
  function Login(table: UserTable, hasher: Hasher, signer: Signer, jwtSecret: string, login: UserData): (r: Result<string>)
    requires table.Valid()
    reads table
    ensures r.Err? <==> GetUser(table, hasher, login).Err?
    ensures r.Err? ==> r.error == UnauthorizedError
    ensures r.Ok? ==> r.value == signer.sign(GetUser(table, hasher, login).value.id, jwtSecret)
    ensures r.Ok? && signer.Sound() ==>
      exists u :: u in table.rows && u.email == login.email && signer.verify(r.value, jwtSecret) == Some(u.id)
  {
    match GetUser(table, hasher, login)
    case Err(e) => Err(e)
    case Ok(user) => Ok(signer.sign(user.id, jwtSecret))
  }

  /** Signing in with the email of an account and a password its hash accepts
      yields a token that verifies to that account's id. */
  lemma LoginIssuesToken(table: UserTable, hasher: Hasher, signer: Signer, jwtSecret: string, login: UserData, u: User)
    requires table.Valid()
    requires u in table.rows && u.email == login.email
    requires hasher.compareSync(login.password, u.password)
    requires signer.Sound()
    ensures Login(table, hasher, signer, jwtSecret, login) == Ok(signer.sign(u.id, jwtSecret))
    ensures signer.verify(Login(table, hasher, signer, jwtSecret, login).value, jwtSecret) == Some(u.id)
  {
    assert table.FindUserByEmail(login.email) == Some(u);
  }
}
