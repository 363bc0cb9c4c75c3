/** The Credential table (src/repositories/credentials-repository.ts): secrets
    with a title, a url, a username and a password, each owned by a user. */
module CredentialsRepository {
  import opened Common

  datatype Credential = Credential(id: int, userId: int, title: string, url: string, username: string, password: string)

  /** `CreateCredentialData`: a credential without its id. */
  datatype CredentialData = CredentialData(userId: int, title: string, url: string, username: string, password: string)

  /** Row selectors handed to the queries. */
  function OwnerAndTitle(userId: int, title: string): Credential -> bool {
    (c: Credential) => c.userId == userId && c.title == title
  }

  function OwnerAndId(userId: int, id: int): Credential -> bool {
    (c: Credential) => c.userId == userId && c.id == id
  }

  function OwnerIs(userId: int): Credential -> bool {
    (c: Credential) => c.userId == userId
  }

  function IdIs(id: int): Credential -> bool {
    (c: Credential) => c.id == id
  }

  /** The unique id column and the (owner, title) pair kept unique by the service. */
  function IdOf(c: Credential): int { c.id }

  function OwnerTitleOf(c: Credential): (int, string) { (c.userId, c.title) }

  /** The invariant the service maintains: one owner never has two credentials with the same title. */
  ghost predicate UniqueTitles(rows: seq<Credential>) {
    UniqueKeys(rows, OwnerTitleOf)
  }

  /** The Credential table, with the ids the persistence layer hands out. */
  class CredentialTable {
    var rows: seq<Credential>
    var nextId: int

    /** Ids are positive, distinct and below the next id to be issued. */
    ghost predicate Valid()
      reads this
    {
      0 < nextId && UniqueKeys(rows, IdOf) && forall c :: c in rows ==> 0 < c.id < nextId
    }

    constructor ()
      ensures Valid() && rows == [] && nextId == 1
    {
      rows := [];
      nextId := 1;
    }

    /** `createCredential`: insert one row built from the data, with a fresh id
        and with the `userId` argument taking the place of any `userId` in the
        data (it is spread last). The new row ends its owner's list. */
    method CreateCredential(userId: int, credential: CredentialData) returns (created: Credential)
      requires Valid()
      modifies this
      ensures Valid()
      ensures created == Credential(old(nextId), userId, credential.title, credential.url, credential.username, credential.password)
      ensures rows == old(rows) + [created]
      ensures nextId == old(nextId) + 1
      ensures forall u :: GetAllCredentials(u) == if u == userId then old(GetAllCredentials(u)) + [created] else old(GetAllCredentials(u))
    {
      created := Credential(nextId, userId, credential.title, credential.url, credential.username, credential.password);
      ghost var before := rows;
      AppendKeepsKeysUnique(rows, created, IdOf);
      rows := rows + [created];
      nextId := nextId + 1;
      forall u ensures GetAllCredentials(u) == if u == userId then Filter(before, OwnerIs(u)) + [created] else Filter(before, OwnerIs(u)) {
        FilterAppendOne(before, created, OwnerIs(u));
      }
    }

    /** `getCredentialByTitle`: the first row owned by `userId` with that title, or none. */
    function GetCredentialByTitle(userId: int, title: string): (r: Option<Credential>)
      reads this
      ensures r.Some? ==> r.value in rows && r.value.userId == userId && r.value.title == title
      ensures r.None? <==> forall c :: c in rows ==> !(c.userId == userId && c.title == title)
    {
      Find(rows, OwnerAndTitle(userId, title))
    }

    /** `getCredentialById`: the row with that id if `userId` owns it, or none. */
    function GetCredentialById(userId: int, credentialId: int): (r: Option<Credential>)
      reads this
      ensures r.Some? ==> r.value in rows && r.value.userId == userId && r.value.id == credentialId
      ensures r.None? <==> forall c :: c in rows ==> !(c.userId == userId && c.id == credentialId)
    {
      Find(rows, OwnerAndId(userId, credentialId))
    }

    /** `getAllCredentials`: exactly the rows owned by `userId`, in table order. */
    function GetAllCredentials(userId: int): (r: seq<Credential>)
      reads this
      ensures forall c :: c in r <==> c in rows && c.userId == userId
      ensures |r| <= |rows|
    {
      Filter(rows, OwnerIs(userId))
    }

    /** `deleteCredentials`: remove the row with that id, whoever owns it, and
        return it; every other row stays, in order. With no such row the
        persistence layer throws `RecordNotFoundError` and nothing changes. */
    method DeleteCredentials(id: int) returns (r: Result<Credential>)
      requires Valid()
      modifies this
      ensures Valid() && nextId == old(nextId)
      ensures r.Err? <==> forall c :: c in old(rows) ==> c.id != id
      ensures r.Err? ==> r.error == RecordNotFoundError && rows == old(rows)
      ensures r.Ok? ==> r.value.id == id
      ensures r.Ok? ==>
        exists k :: 0 <= k < |old(rows)| && old(rows)[k] == r.value && rows == old(rows)[..k] + old(rows)[k + 1..]
      ensures forall c :: c in rows ==> c.id != id
      ensures old(UniqueTitles(rows)) ==> UniqueTitles(rows)
    {
      var k := FirstIndex(rows, IdIs(id));
      if k == |rows| {
        return Err(RecordNotFoundError);
      }
      r := Ok(rows[k]);
      RemoveKeepsKeysUnique(rows, k, IdOf);
      if UniqueTitles(rows) {
        RemoveKeepsKeysUnique(rows, k, OwnerTitleOf);
      }
      rows := rows[..k] + rows[k + 1..];
    }
  }
}
