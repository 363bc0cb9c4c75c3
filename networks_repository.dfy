/** The Network table (src/repositories/networks-repository.ts): Wi-Fi
    secrets with a title, a network name and a password, each owned by a user. */
module NetworksRepository {
  import opened Common

  datatype Network = Network(id: int, userId: int, title: string, network: string, password: string)

  /** `CreateNetworkData`: a network without its id. */
  datatype NetworkData = NetworkData(userId: int, title: string, network: string, password: string)

  /** Row selectors handed to the queries. */
  function OwnerAndTitle(userId: int, title: string): Network -> bool {
    (n: Network) => n.userId == userId && n.title == title
  }

  function OwnerAndId(userId: int, id: int): Network -> bool {
    (n: Network) => n.userId == userId && n.id == id
  }

  function OwnerIs(userId: int): Network -> bool {
    (n: Network) => n.userId == userId
  }

  function IdIs(id: int): Network -> bool {
    (n: Network) => n.id == id
  }

  /** The unique id column and the (owner, title) pair kept unique by the service. */
  function IdOf(n: Network): int { n.id }

  function OwnerTitleOf(n: Network): (int, string) { (n.userId, n.title) }

  /** The invariant the service maintains: one owner never has two networks with the same title. */
  ghost predicate UniqueTitles(rows: seq<Network>) {
    UniqueKeys(rows, OwnerTitleOf)
  }

  /** The Network table, with the ids the persistence layer hands out. */
  class NetworkTable {
    var rows: seq<Network>
    var nextId: int

    /** Ids are positive, distinct and below the next id to be issued. */
    ghost predicate Valid()
      reads this
    {
      0 < nextId && UniqueKeys(rows, IdOf) && forall n :: n in rows ==> 0 < n.id < nextId
    }

    constructor ()
      ensures Valid() && rows == [] && nextId == 1
    {
      rows := [];
      nextId := 1;
    }

    /** `createNetwork`: insert one row built from the data, with a fresh id
        and with the `userId` argument taking the place of any `userId` in the
        data (it is spread last). The new row ends its owner's list. */
    method CreateNetwork(userId: int, network: NetworkData) returns (created: Network)
      requires Valid()
      modifies this
      ensures Valid()
      ensures created == Network(old(nextId), userId, network.title, network.network, network.password)
      ensures rows == old(rows) + [created]
      ensures nextId == old(nextId) + 1
      ensures forall u :: GetAllNetworks(u) == if u == userId then old(GetAllNetworks(u)) + [created] else old(GetAllNetworks(u))
    {
      created := Network(nextId, userId, network.title, network.network, network.password);
      ghost var before := rows;
      AppendKeepsKeysUnique(rows, created, IdOf);
      rows := rows + [created];
      nextId := nextId + 1;
      forall u ensures GetAllNetworks(u) == if u == userId then Filter(before, OwnerIs(u)) + [created] else Filter(before, OwnerIs(u)) {
        FilterAppendOne(before, created, OwnerIs(u));
      }
    }

    /** `getAllNetworks`: exactly the rows owned by `userId`, in table order. */
    function GetAllNetworks(userId: int): (r: seq<Network>)
      reads this
      ensures forall n :: n in r <==> n in rows && n.userId == userId
      ensures |r| <= |rows|
    {
      Filter(rows, OwnerIs(userId))
    }

    /** `getNetworksByTitle`: the first row owned by `userId` with that title, or none. */
    function GetNetworksByTitle(userId: int, title: string): (r: Option<Network>)
      reads this
      ensures r.Some? ==> r.value in rows && r.value.userId == userId && r.value.title == title
      ensures r.None? <==> forall n :: n in rows ==> !(n.userId == userId && n.title == title)
    {
      Find(rows, OwnerAndTitle(userId, title))
    }

    /** `getNetworkById`: the row with that id if `userId` owns it, or none. */
    function GetNetworkById(userId: int, networkId: int): (r: Option<Network>)
      reads this
      ensures r.Some? ==> r.value in rows && r.value.userId == userId && r.value.id == networkId
      ensures r.None? <==> forall n :: n in rows ==> !(n.userId == userId && n.id == networkId)
    {
      Find(rows, OwnerAndId(userId, networkId))
    }

    /** `deleteNetwork`: remove the row with that id, whoever owns it, and
        return it; every other row stays, in order. With no such row the
        persistence layer throws `RecordNotFoundError` and nothing changes. */
    method DeleteNetwork(id: int) returns (r: Result<Network>)
      requires Valid()
      modifies this
      ensures Valid() && nextId == old(nextId)
      ensures r.Err? <==> forall n :: n in old(rows) ==> n.id != id
      ensures r.Err? ==> r.error == RecordNotFoundError && rows == old(rows)
      ensures r.Ok? ==> r.value.id == id
      ensures r.Ok? ==>
        exists k :: 0 <= k < |old(rows)| && old(rows)[k] == r.value && rows == old(rows)[..k] + old(rows)[k + 1..]
      ensures forall n :: n in rows ==> n.id != id
      ensures old(UniqueTitles(rows)) ==> UniqueTitles(rows)
    {
      var k := FirstIndex(rows, IdIs(id));
      if k == |rows| {
        return Err(RecordNotFoundError);
      }
      r := Ok(rows[k]);
      RemoveKeepsKeysUnique(rows, k, IdOf);
      if UniqueTitles(rows) {
        RemoveKeepsKeysUnique(rows, k, OwnerTitleOf);
      }
      rows := rows[..k] + rows[k + 1..];
    }
  }
}
