/**
 * `RedisManager`: a fixed table of Redis clients built from the REDIS_NODES setting, a router
 * that sends each key to one of them by `hash(key) % N`, and the two counter operations.
 * Each client's server is modelled by the data it holds (`stores`, parallel to `nodes`).
 */
module Core {
  import opened Wrappers
  import opened Sequences
  import opened NodeList
  import opened RedisStore

  /**
   * `h % n` as Python computes it in `get_connection`: the remainder is taken with the sign of
   * the divisor, so it lies in [0, n) even for a negative hash; with n = 0 Python raises
   * ZeroDivisionError. (Dafny's `%` agrees with Python's for a positive divisor.)
   */
  function ShardIndex(h: int, n: nat): (r: Result<nat, Error>)
    ensures r.Failure? <==> n == 0
    ensures r.Failure? ==> r.error == ZeroDivision
    ensures r.Success? ==> r.value < n
  {
    if n == 0 then Failure(ZeroDivision) else Success(h % n)
  }

  /** The data a node address already holds when the manager connects to it. */
  function Held(held: map<string, Store>, node: string): Store
  {
    if node in held then held[node] else map[]
  }

  class RedisManager {
    /** Python's `hash` on strings: salted per process, fixed for the manager's lifetime. */
    const hash: string -> int
    /** The keys of `redis_clients` in insertion order. */
    var nodes: seq<string>
    /** `stores[i]` is the data held by the server behind the client for `nodes[i]`. */
    var stores: seq<Store>

    ghost predicate Valid()
      reads this
    {
      |stores| == |nodes| && Distinct(nodes)
    }

    /**
     * `__init__`: parse the setting and add one client per node, in order; a node named twice
     * replaces its client but keeps its first place, so the table has one entry per distinct name.
     */
    constructor (setting: string, hash: string -> int, held: map<string, Store>)
      ensures Valid() && this.hash == hash
      ensures nodes == Dedup(ParseNodes(setting))
      ensures forall n <- nodes :: IsNodeName(n)
      ensures forall i :: 0 <= i < |nodes| ==> stores[i] == Held(held, nodes[i])
    {
      this.hash := hash;
      nodes, stores := [], [];
      new;
      AddClients(ParseNodes(setting), held);
    }

    /** The loop of `__init__`: one client per parsed node, assigned in turn into the table. */
    method AddClients(parsed: seq<string>, held: map<string, Store>)
      requires nodes == [] && stores == []
      modifies this
      ensures Valid() && nodes == Dedup(parsed)
      ensures forall i :: 0 <= i < |nodes| ==> stores[i] == Held(held, nodes[i])
    {
      for i := 0 to |parsed|
        invariant nodes == Dedup(parsed[..i])
        invariant |stores| == |nodes|
        invariant forall j :: 0 <= j < |nodes| ==> stores[j] == Held(held, nodes[j])
      {
        var node := parsed[i];
        assert parsed[..i + 1] == parsed[..i] + [node];
        DedupSnoc(parsed[..i], node);
        if node !in nodes {
          nodes, stores := nodes + [node], stores + [Held(held, node)];
        }
      }
      assert parsed[..|parsed|] == parsed;
    }

    /** `get_connection`: the position in `nodes` of the client that owns `key`. */
    function GetConnection(key: string): (r: Result<nat, Error>)
      reads this
      ensures r.Failure? <==> nodes == []
      ensures r.Failure? ==> r.error == ZeroDivision
      ensures r.Success? ==> r.value < |nodes|
    {
      ShardIndex(hash(key), |nodes|)
    }

    /** What the node that owns `key` stores under it. */
    function Stored(key: string): (r: Option<Bytes>)
      reads this
      requires Valid() && nodes != []
      ensures r.Some? <==> key in stores[GetConnection(key).value]
    {
      Lookup(stores[GetConnection(key).value], key)
    }

    /**
     * `get`: the counter under `key` on its node; 0 when the node does not hold the key. Being a
     * function, it changes no store.
     */
    function Get(key: string): (r: Result<int, Error>)
      reads this
      requires Valid()
      ensures nodes == [] ==> r == Failure(ZeroDivision)
      ensures nodes != [] && Stored(key).None? ==> r == Success(0)
      ensures nodes != [] && Stored(key).Some? ==> r == ReadCounter(Stored(key))
    {
      match GetConnection(key)
      case Failure(e) => Failure(e)
      case Success(i) => ReadCounter(Lookup(stores[i], key))
    }

    /**
     * `increment`: INCRBY on the node that owns `key`. On success that node stores the new value
     * under `key` and nothing else anywhere changes; on failure nothing changes.
     */
    method Increment(key: string, amount: int := 1) returns (r: Result<int, Error>)
      requires Valid()
      modifies this
      ensures Valid() && nodes == old(nodes)
      ensures forall k :: GetConnection(k) == old(GetConnection(k))
      ensures old(nodes) == [] ==> r == Failure(ZeroDivision) && stores == old(stores)
      ensures old(nodes) != [] ==>
                var i := old(GetConnection(key)).value;
                && r == IncrBy(old(Stored(key)), amount)
                && stores == if r.Success? then old(stores[i := stores[i][key := EncodeCounter(r.value)]])
                             else old(stores)
      ensures forall k :: k != key ==> Get(k) == old(Get(k))
      ensures r.Success? ==> Get(key) == r
      ensures r.Success? ==> old(Get(key)) == Success(r.value - amount)
    {
      var route := GetConnection(key);
      if route.Failure? {
        return Failure(route.error);
      }
      var i := route.value;
      var stored := Lookup(stores[i], key);
      r := IncrBy(stored, amount);
      if r.Success? {
        IncrByReadAgreement(stored, amount);
        assert Get(key) == ReadCounter(stored);
        stores := stores[i := stores[i][key := EncodeCounter(r.value)]];
        assert Get(key) == r by {
          assert Lookup(stores[i], key) == Some(EncodeCounter(r.value));
          ReadEncodedCounter(r.value);
        }
        forall k | k != key ensures Get(k) == old(Get(k)) {
          var j := GetConnection(k).value;
          assert Lookup(stores[j], k) == Lookup(old(stores[j]), k);
        }
      }
    }
  }
}
