/** The network service (src/services/networks-service.ts): title uniqueness
    per owner on create and encryption of the password on write, decryption on
    read. Unlike the credential service, its lookup returns the not-found error
    as a value, and its delete does not act on the lookup. */
module NetworksService {
  import opened Common
  import opened NetworksRepository
  import UsersRepository

  /** What the lookups resolve to: the data, or an error object handed back as
      an ordinary value rather than thrown. */
  datatype Reply<T> = Value(value: T) | ErrorValue(error: Error)

  /** A stored network as the service hands it out: the same row with its
      password decrypted. */
  function Decrypted(cipher: Cipher, n: Network): Network {
    n.(password := cipher.decrypt(n.password))
  }

  /** `createNetwork`: throw `DuplicatedTitleError` for a title the user
      already has; otherwise store the data under the user's id with the
      password encrypted. Resolves to nothing. Fetching the new id as the same
      user gives back the plaintext. */
  method CreateNetwork(table: NetworkTable, cipher: Cipher, user: UsersRepository.User, network: NetworkData)
    returns (r: Outcome)
    requires table.Valid()
    modifies table
    ensures table.Valid()
    ensures r.Fail? <==> exists n :: n in old(table.rows) && n.userId == user.id && n.title == network.title
    ensures r.Fail? ==> r.error == DuplicatedTitleError && table.rows == old(table.rows) && table.nextId == old(table.nextId)
    ensures r.Pass? ==>
      table.rows == old(table.rows) + [Network(old(table.nextId), user.id, network.title, network.network, cipher.encrypt(network.password))]
    ensures r.Pass? ==> table.nextId == old(table.nextId) + 1
    ensures old(UniqueTitles(table.rows)) ==> UniqueTitles(table.rows)
    ensures r.Pass? && cipher.Sound() ==>
      GetNetworkById(table, cipher, user.id, old(table.nextId)) ==
      Value(Network(old(table.nextId), user.id, network.title, network.network, network.password))
  {
    var existingNetwork := table.GetNetworksByTitle(user.id, network.title);
    if existingNetwork.Some? {
      return Fail(DuplicatedTitleError);
    }
    var networkInfos := network.(password := cipher.encrypt(network.password));
    ghost var before := table.rows;
    var created := table.CreateNetwork(user.id, networkInfos);
    if UniqueTitles(before) {
      AppendKeepsKeysUnique(before, created, OwnerTitleOf);
    }
    assert table.GetNetworkById(user.id, created.id) == Some(created) by {
      assert created in table.rows;
      var found := table.GetNetworkById(user.id, created.id).value;
      assert found in before + [created] && found !in before;
    }
    r := Pass;
  }

  /** `getNetworkById`: the row with that id if the user owns it, password
      decrypted; otherwise the `NotFoundError` value, returned, not thrown.
      Another owner's row looks absent. */
  function GetNetworkById(table: NetworkTable, cipher: Cipher, userId: int, networkId: int): (r: Reply<Network>)
    reads table
    ensures r.ErrorValue? <==> forall n :: n in table.rows ==> !(n.userId == userId && n.id == networkId)
    ensures r.ErrorValue? ==> r.error == NotFoundError
    ensures r.Value? ==> exists n :: n in table.rows && n.userId == userId && n.id == networkId && r.value == Decrypted(cipher, n)
  {
    match table.GetNetworkById(userId, networkId)
    case None => ErrorValue(NotFoundError)
    case Some(network) => Value(Decrypted(cipher, network))
  }

  /** A network of one owner is not found under any other owner's id. */
  lemma CrossOwnerInvisible(table: NetworkTable, cipher: Cipher, n: Network, userId: int)
    requires table.Valid()
    requires n in table.rows && n.userId != userId
    ensures GetNetworkById(table, cipher, userId, n.id) == ErrorValue(NotFoundError)
  {
    forall d | d in table.rows
      ensures !(d.userId == userId && d.id == n.id)
    {
      if d.id == n.id {
        KeyDeterminesRow(table.rows, IdOf, n, d);
      }
    }
  }

  /** `getAllNetworks`: one entry per row the user owns, in table order, each
      with its password decrypted. The repository always resolves to a list
      and every list is truthy, so the `notFoundError` branch is never taken:
      a user owning nothing gets an empty list. */
  function GetAllNetworks(table: NetworkTable, cipher: Cipher, userId: int): (r: Reply<seq<Network>>)
    reads table
    ensures r.Value?
    ensures |r.value| == |table.GetAllNetworks(userId)|
    ensures forall i :: 0 <= i < |r.value| ==> r.value[i] == Decrypted(cipher, table.GetAllNetworks(userId)[i])
    ensures forall d :: d in r.value ==> d.userId == userId && exists n :: n in table.rows && d == Decrypted(cipher, n)
    ensures forall n :: n in table.rows && n.userId == userId ==> Decrypted(cipher, n) in r.value
    ensures (forall n :: n in table.rows ==> n.userId != userId) ==> r.value == []
  {
    var networks := table.GetAllNetworks(userId);
    var decrypted := seq(|networks|, i requires 0 <= i < |networks| => Decrypted(cipher, networks[i]));
    assert forall n :: n in networks ==> Decrypted(cipher, n) in decrypted by {
      forall n | n in networks ensures Decrypted(cipher, n) in decrypted {
        var i :| 0 <= i < |networks| && networks[i] == n;
        assert decrypted[i] == Decrypted(cipher, n);
      }
    }
    assert networks != [] ==> networks[0] in networks;
    Value(decrypted)
  }

  /** `deleteNetwork`: the lookup's result is discarded, so the row with that
      id is removed whoever owns it; only an id no row has fails, with the
      persistence layer's `RecordNotFoundError`. */
  method DeleteNetwork(table: NetworkTable, cipher: Cipher, user: UsersRepository.User, networkId: int)
    returns (r: Outcome)
    requires table.Valid()
    modifies table
    ensures table.Valid() && table.nextId == old(table.nextId)
    ensures r.Fail? <==> forall n :: n in old(table.rows) ==> n.id != networkId
    ensures r.Fail? ==> r.error == RecordNotFoundError && table.rows == old(table.rows)
    ensures r.Pass? ==>
      exists k :: 0 <= k < |old(table.rows)| && old(table.rows)[k].id == networkId &&
        table.rows == old(table.rows)[..k] + old(table.rows)[k + 1..]
    ensures old(UniqueTitles(table.rows)) ==> UniqueTitles(table.rows)
  {
    var _ := GetNetworkById(table, cipher, user.id, networkId);
    var deleted := table.DeleteNetwork(networkId);
    r := if deleted.Ok? then Pass else Fail(deleted.error);
  }

  /** `DeleteNetwork` on a table holding one network of user 1: user 2
      deletes it. */
  method CrossOwnerDelete(cipher: Cipher) returns (r: Outcome, remaining: seq<Network>)
    ensures r == Pass && remaining == []
  {
    var table := new NetworkTable();
    var owned := table.CreateNetwork(1, NetworkData(1, "home", "wifi", cipher.encrypt("pw")));
    r := DeleteNetwork(table, cipher, UsersRepository.User(2, "b@x.com", "hash"), owned.id);
    remaining := table.rows;
  }

  /** The delete the service evidently intends, matching the credential
      service: `NotFoundError`, deleting nothing, unless the user owns the id;
      otherwise exactly that row is removed and the rest stay. */
  method DeleteOwnedNetwork(table: NetworkTable, cipher: Cipher, user: UsersRepository.User, networkId: int)
    returns (r: Outcome)
    requires table.Valid()
    modifies table
    ensures table.Valid() && table.nextId == old(table.nextId)
    ensures r.Fail? <==> forall n :: n in old(table.rows) ==> !(n.userId == user.id && n.id == networkId)
    ensures r.Fail? ==> r.error == NotFoundError && table.rows == old(table.rows)
    ensures r.Pass? ==>
      exists k :: 0 <= k < |old(table.rows)| && old(table.rows)[k].id == networkId && old(table.rows)[k].userId == user.id &&
        table.rows == old(table.rows)[..k] + old(table.rows)[k + 1..]
    ensures old(UniqueTitles(table.rows)) ==> UniqueTitles(table.rows)
  {
    var found := GetNetworkById(table, cipher, user.id, networkId);
    if found.ErrorValue? {
      return Fail(found.error);
    }
    ghost var owned := table.GetNetworkById(user.id, networkId).value;
    ghost var before := table.rows;
    var deleted := table.DeleteNetwork(networkId);
    assert deleted.Ok?;
    assert deleted.value == owned by {
      KeyDeterminesRow(before, IdOf, deleted.value, owned);
    }
    r := Pass;
  }

  /** `DeleteOwnedNetwork` on the same table: user 2's delete is refused and
      user 1's network stays. */
  method CrossOwnerDeleteRefused(cipher: Cipher) returns (r: Outcome, remaining: seq<Network>)
    ensures r == Fail(NotFoundError) && |remaining| == 1 && remaining[0].userId == 1
  {
    var table := new NetworkTable();
    var owned := table.CreateNetwork(1, NetworkData(1, "home", "wifi", cipher.encrypt("pw")));
    r := DeleteOwnedNetwork(table, cipher, UsersRepository.User(2, "b@x.com", "hash"), owned.id);
    remaining := table.rows;
  }
}
