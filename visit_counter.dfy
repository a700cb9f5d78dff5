/**
 * `VisitCounterService`: one counter per page, kept by a `RedisManager` under the key
 * "visit_count:" followed by the page id.
 */
module Services {
  import opened Wrappers
  import opened NodeList
  import opened RedisStore
  import Core

  const KeyPrefix: string := "visit_count:"

  /** The store key of a page: the f-string `f"visit_count:{page_id}"`. */
  function VisitKey(page: string): (k: string)
    ensures |k| == |KeyPrefix| + |page|
    ensures k[..|KeyPrefix|] == KeyPrefix
  {
    KeyPrefix + page
  }

  /** The page a store key belongs to, if it is a visit-counter key at all. */
  function PageOf(k: string): (r: Option<string>)
    ensures r.Some? <==> |k| >= |KeyPrefix| && k[..|KeyPrefix|] == KeyPrefix
    ensures r.Some? ==> |r.value| == |k| - |KeyPrefix|
  {
    if |k| >= |KeyPrefix| && k[..|KeyPrefix|] == KeyPrefix then Some(k[|KeyPrefix|..]) else None
  }

  /** The page can be read back from its key. */
  lemma PageOfVisitKey(page: string)
    ensures PageOf(VisitKey(page)) == Some(page)
  {
    assert VisitKey(page)[|KeyPrefix|..] == page;
  }

  /** Every visit-counter key is the key of the page it names. */
  lemma VisitKeyOfPage(k: string)
    requires PageOf(k).Some?
    ensures VisitKey(PageOf(k).value) == k
  {
    assert k == k[..|KeyPrefix|] + k[|KeyPrefix|..];
  }

  /** The fixed prefix makes the page-to-key mapping injective: different pages, different keys. */
  lemma VisitKeyInjective(p: string, q: string)
    ensures VisitKey(p) == VisitKey(q) <==> p == q
  {
    if VisitKey(p) == VisitKey(q) {
      PageOfVisitKey(p);
      PageOfVisitKey(q);
    }
  }

  class VisitCounterService {
    const redis: Core.RedisManager

    ghost predicate Valid()
      reads this, redis
    {
      redis.Valid()
    }

    /** `__init__`: a service over a freshly built manager for the REDIS_NODES setting. */
    constructor (setting: string, hash: string -> int, held: map<string, Store>)
      ensures Valid() && fresh(redis) && redis.hash == hash
      ensures redis.nodes == Dedup(ParseNodes(setting))
      ensures forall i :: 0 <= i < |redis.nodes| ==> redis.stores[i] == Core.Held(held, redis.nodes[i])
    {
      redis := new Core.RedisManager(setting, hash, held);
    }

    /**
     * `get_visit_count`: the counter of the page's key on the node that owns that key, 0 when the
     * page has never been counted there. Being a function, it changes no counter.
     */
    function GetVisitCount(page: string): (r: Result<int, Error>)
      reads this, redis
      requires Valid()
      ensures redis.nodes == [] ==> r == Failure(ZeroDivision)
      ensures redis.nodes != [] && redis.Stored(VisitKey(page)).None? ==> r == Success(0)
      ensures redis.nodes != [] && redis.Stored(VisitKey(page)).Some? ==>
                r == ReadCounter(redis.Stored(VisitKey(page)))
    {
      redis.Get(VisitKey(page))
    }

    /**
     * `increment_visit`: adds one to the page's counter and discards the new value; an error of
     * the manager propagates. On success `get_visit_count` reads one more than before; on failure
     * nothing changes; the counters of all other pages never change.
     */
    method IncrementVisit(page: string) returns (r: Outcome<Error>)
      requires Valid()
      modifies redis
      ensures Valid() && redis.nodes == old(redis.nodes)
      ensures old(redis.nodes) == [] ==> r == Fail(ZeroDivision)
      ensures old(redis.nodes) != [] ==>
                (r.Pass? <==> IncrBy(old(redis.Stored(VisitKey(page))), 1).Success?)
      ensures r.Pass? ==>
                old(GetVisitCount(page)).Success? &&
                GetVisitCount(page) == Success(old(GetVisitCount(page)).value + 1)
      ensures old(redis.nodes) != [] && r.Pass? ==>
                var i := old(redis.GetConnection(VisitKey(page))).value;
                var v := IncrBy(old(redis.Stored(VisitKey(page))), 1).value;
                redis.stores == old(redis.stores[i := redis.stores[i][VisitKey(page) := EncodeCounter(v)]])
      ensures r.Fail? ==> redis.stores == old(redis.stores)
      ensures forall q :: q != page ==> GetVisitCount(q) == old(GetVisitCount(q))
    {
      var count := redis.Increment(VisitKey(page));
      r := if count.Success? then Pass else Fail(count.error);
      forall q | q != page ensures GetVisitCount(q) == old(GetVisitCount(q)) {
        VisitKeyInjective(q, page);
      }
    }
  }
}
