/** The User table (src/repositories/users-repository.ts): one row per account,
    holding the email and the bcrypt hash of the password. The email column is
    unique, which is what lets `findUserByEmail` look it up with `findUnique`. */
module UsersRepository {
  import opened Common

  datatype User = User(id: int, email: string, password: string)

  /** `CreateUserParams`: a user without its id. */
  datatype UserData = UserData(email: string, password: string)

  /** The two unique columns. */
  function IdOf(u: User): int { u.id }

  function EmailOf(u: User): string { u.email }

  /** Row selectors handed to the queries. */
  function EmailIs(email: string): User -> bool {
    (u: User) => u.email == email
  }

  function IdIs(id: int): User -> bool {
    (u: User) => u.id == id
  }

  /** The User table, with the ids the persistence layer hands out. */
  class UserTable {
    var rows: seq<User>
    var nextId: int

    /** Ids are positive, distinct and below the next id to be issued; no two
        accounts share an email. */
    ghost predicate Valid()
      reads this
    {
      0 < nextId && UniqueKeys(rows, IdOf) && UniqueKeys(rows, EmailOf) &&
      forall u :: u in rows ==> 0 < u.id < nextId
    }

    constructor ()
      ensures Valid() && rows == [] && nextId == 1
    {
      rows := [];
      nextId := 1;
    }

    /** `createUser`: store exactly `data` as one new row with a fresh id, and
        return that row. The unique email column refuses an email another
        account already has: `UniqueConstraintError`, nothing stored. */
    method CreateUser(data: UserData) returns (r: Result<User>)
      requires Valid()
      modifies this
      ensures Valid()
      ensures r.Err? <==> exists u :: u in old(rows) && u.email == data.email
      ensures r.Err? ==> r.error == UniqueConstraintError && rows == old(rows) && nextId == old(nextId)
      ensures r.Ok? ==> r.value == User(old(nextId), data.email, data.password)
      ensures r.Ok? ==> rows == old(rows) + [r.value] && nextId == old(nextId) + 1
    {
      if FindUserByEmail(data.email).Some? {
        return Err(UniqueConstraintError);
      }
      var created := User(nextId, data.email, data.password);
      AppendKeepsKeysUnique(rows, created, IdOf);
      AppendKeepsKeysUnique(rows, created, EmailOf);
      rows := rows + [created];
      nextId := nextId + 1;
      r := Ok(created);
    }

    /** `findUserByEmail`: the account with that email, or none. */
    function FindUserByEmail(email: string): (r: Option<User>)
      requires Valid()
      reads this
      ensures r.None? <==> forall u :: u in rows ==> u.email != email
      ensures forall u :: u in rows && u.email == email ==> r == Some(u)
    {
      var r := Find(rows, EmailIs(email));
      assert forall u :: u in rows && u.email == email ==> r == Some(u) by {
        forall u | u in rows && u.email == email ensures r == Some(u) {
          KeyDeterminesRow(rows, EmailOf, r.value, u);
        }
      }
      r
    }

    /** `findById`: the account with that id, or none. */
    function FindById(id: int): (r: Option<User>)
      requires Valid()
      reads this
      ensures r.None? <==> forall u :: u in rows ==> u.id != id
      ensures forall u :: u in rows && u.id == id ==> r == Some(u)
    {
      var r := Find(rows, IdIs(id));
      assert forall u :: u in rows && u.id == id ==> r == Some(u) by {
        forall u | u in rows && u.id == id ensures r == Some(u) {
          KeyDeterminesRow(rows, IdOf, r.value, u);
        }
      }
      r
    }
  }
}
