/** The credential service (src/services/credentials-service.ts): title
    uniqueness per owner on create, encryption of the password on write and
    decryption on read, and an ownership lookup before delete. */
module CredentialsService {
  import opened Common
  import opened CredentialsRepository
  import UsersRepository

  /** The message of the conflict raised for a title the owner already uses. */
  const TitleTaken: string := "There is already a credential with this title"

  /** A stored credential as the service hands it out: the same row with its
      password decrypted. */
  function Decrypted(cipher: Cipher, c: Credential): Credential {
    c.(password := cipher.decrypt(c.password))
  }

  /** `createCredential`: refuse a title the user already has; otherwise store
      the data under the user's id with the password encrypted. Resolves to
      nothing. Fetching the new id as the same user gives back the plaintext. */
  method CreateCredential(table: CredentialTable, cipher: Cipher, user: UsersRepository.User, credential: CredentialData)
    returns (r: Outcome)
    requires table.Valid()
    modifies table
    ensures table.Valid()
    ensures r.Fail? <==> exists c :: c in old(table.rows) && c.userId == user.id && c.title == credential.title
    ensures r.Fail? ==> r.error == ConflictError(TitleTaken) && table.rows == old(table.rows) && table.nextId == old(table.nextId)
    ensures r.Pass? ==>
      table.rows == old(table.rows) + [Credential(old(table.nextId), user.id, credential.title, credential.url, credential.username, cipher.encrypt(credential.password))]
    ensures r.Pass? ==> table.nextId == old(table.nextId) + 1
    ensures old(UniqueTitles(table.rows)) ==> UniqueTitles(table.rows)
    ensures r.Pass? && cipher.Sound() ==>
      GetCredentialById(table, cipher, user.id, old(table.nextId)) ==
      Ok(Credential(old(table.nextId), user.id, credential.title, credential.url, credential.username, credential.password))
  {
    var isThereCredential := table.GetCredentialByTitle(user.id, credential.title);
    if isThereCredential.Some? {
      return Fail(ConflictError(TitleTaken));
    }
    var credentialInfos := credential.(password := cipher.encrypt(credential.password));
    ghost var before := table.rows;
    var created := table.CreateCredential(user.id, credentialInfos);
    if UniqueTitles(before) {
      AppendKeepsKeysUnique(before, created, OwnerTitleOf);
    }
    assert table.GetCredentialById(user.id, created.id) == Some(created) by {
      assert created in table.rows;
      var found := table.GetCredentialById(user.id, created.id).value;
      assert found in before + [created] && found !in before;
    }
    r := Pass;
  }

  /** `getCredentialById`: the row with that id if the user owns it, password
      decrypted; `NotFoundError` otherwise, so another owner's row looks absent. */
  function GetCredentialById(table: CredentialTable, cipher: Cipher, userId: int, credentialId: int): (r: Result<Credential>)
    reads table
    ensures r.Err? <==> forall c :: c in table.rows ==> !(c.userId == userId && c.id == credentialId)
    ensures r.Err? ==> r.error == NotFoundError
    ensures r.Ok? ==> exists c :: c in table.rows && c.userId == userId && c.id == credentialId && r.value == Decrypted(cipher, c)
  {
    match table.GetCredentialById(userId, credentialId)
    case None => Err(NotFoundError)
    case Some(credential) => Ok(Decrypted(cipher, credential))
  }

  /** A credential of one owner is not found under any other owner's id. */
  lemma CrossOwnerInvisible(table: CredentialTable, cipher: Cipher, c: Credential, userId: int)
    requires table.Valid()
    requires c in table.rows && c.userId != userId
    ensures GetCredentialById(table, cipher, userId, c.id) == Err(NotFoundError)
  {
    forall d | d in table.rows
      ensures !(d.userId == userId && d.id == c.id)
    {
      if d.id == c.id {
        KeyDeterminesRow(table.rows, IdOf, c, d);
      }
    }
  }

  /** `getAllCredentials`: one entry per row the user owns, in table order,
      each with its password decrypted; an empty list when the user owns none. */
  function GetAllCredentials(table: CredentialTable, cipher: Cipher, userId: int): (r: seq<Credential>)
    reads table
    ensures |r| == |table.GetAllCredentials(userId)|
    ensures forall i :: 0 <= i < |r| ==> r[i] == Decrypted(cipher, table.GetAllCredentials(userId)[i])
    ensures forall d :: d in r ==> d.userId == userId && exists c :: c in table.rows && d == Decrypted(cipher, c)
    ensures forall c :: c in table.rows && c.userId == userId ==> Decrypted(cipher, c) in r
    ensures (forall c :: c in table.rows ==> c.userId != userId) ==> r == []
  {
    var credentials := table.GetAllCredentials(userId);
    var r := seq(|credentials|, i requires 0 <= i < |credentials| => Decrypted(cipher, credentials[i]));
    assert forall c :: c in credentials ==> Decrypted(cipher, c) in r by {
      forall c | c in credentials ensures Decrypted(cipher, c) in r {
        var i :| 0 <= i < |credentials| && credentials[i] == c;
        assert r[i] == Decrypted(cipher, c);
      }
    }
    assert credentials != [] ==> credentials[0] in credentials;
    r
  }

  /** `deleteCredentials`: `NotFoundError`, deleting nothing, unless the user
      owns the id; otherwise exactly that row is removed and the rest stay. */
  method DeleteCredentials(table: CredentialTable, cipher: Cipher, user: UsersRepository.User, credentialId: int)
    returns (r: Outcome)
    requires table.Valid()
    modifies table
    ensures table.Valid() && table.nextId == old(table.nextId)
    ensures r.Fail? <==> forall c :: c in old(table.rows) ==> !(c.userId == user.id && c.id == credentialId)
    ensures r.Fail? ==> r.error == NotFoundError && table.rows == old(table.rows)
    ensures r.Pass? ==>
      exists k :: 0 <= k < |old(table.rows)| && old(table.rows)[k].id == credentialId && old(table.rows)[k].userId == user.id &&
        table.rows == old(table.rows)[..k] + old(table.rows)[k + 1..]
    ensures old(UniqueTitles(table.rows)) ==> UniqueTitles(table.rows)
  {
    var found := GetCredentialById(table, cipher, user.id, credentialId);
    if found.Err? {
      return Fail(found.error);
    }
    ghost var owned := table.GetCredentialById(user.id, credentialId).value;
    ghost var before := table.rows;
    var deleted := table.DeleteCredentials(credentialId);
    assert deleted.Ok?;
    assert deleted.value == owned by {
      KeyDeterminesRow(before, IdOf, deleted.value, owned);
    }
    r := Pass;
  }
}
