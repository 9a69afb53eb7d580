/** The Redis sorted-set commands the limiter issues (ZREMRANGEBYSCORE, ZCARD
    and ZADD), as pure operations on an in-memory keyspace. */
module SortedSets {

  /** One sorted set: each member is unique and carries one score. Redis
      scores are doubles; every epoch-millisecond timestamp is exact in a
      double, so scores are integers here. */
  type ZSet = map<string, int>

  /** The keyspace, from key to sorted set. */
  type Store = map<string, ZSet>

  /** Redis deletes a key whose sorted set becomes empty, so no key of a
      store holds an empty set. */
  ghost predicate WellFormed(s: Store) {
    forall k :: k in s ==> |s[k]| > 0
  }

  /** The sorted set under `key`; a missing key reads as the empty set. */
  function Members(s: Store, key: string): ZSet {
    if key in s then s[key] else map[]
  }

  /** Stores `z` under `key`, deleting the key when `z` is empty. */
  function Put(s: Store, key: string, z: ZSet): (r: Store)
    ensures Members(r, key) == z
    ensures r - {key} == s - {key}
    ensures WellFormed(s) ==> WellFormed(r)
  {
    if |z| == 0 then
      assert z.Keys == {};
      s - {key}
    else
      s[key := z]
  }

  /** Two keyspaces that agree off `key` agree everywhere once `key` is set. */
  lemma SameOffKey(x: Store, y: Store, key: string, z: ZSet)
    requires x - {key} == y - {key}
    ensures x[key := z] == y[key := z]
  {
    var x', y' := x[key := z], y[key := z];
    assert x'.Keys == y'.Keys by {
      assert x'.Keys == (x - {key}).Keys + {key};
      assert y'.Keys == (y - {key}).Keys + {key};
    }
    forall k | k in x'
      ensures x'[k] == y'[k]
    {
      if k != key {
        assert x'[k] == (x - {key})[k];
        assert y'[k] == (y - {key})[k];
      }
    }
  }

  /** Two keyspaces that agree off `key` hold the same set under any other key. */
  lemma MembersOffKey(x: Store, y: Store, key: string, other: string)
    requires x - {key} == y - {key}
    requires other != key
    ensures Members(x, other) == Members(y, other)
  {
    assert other in x <==> other in x - {key};
    assert other in y <==> other in y - {key};
    if other in x {
      assert x[other] == (x - {key})[other];
      assert y[other] == (y - {key})[other];
    }
  }

  /** Only the last of two writes to one key matters. */
  lemma PutTwice(s: Store, key: string, a: ZSet, b: ZSet)
    ensures Put(Put(s, key, a), key, b) == Put(s, key, b)
  {
    var once := Put(s, key, a);
    if |b| > 0 {
      SameOffKey(once, s, key, b);
    }
  }

  /** What a write command leaves behind, and the integer Redis replies with:
      the number of members it removed or added. */
  datatype Reply = Reply(store: Store, count: nat)

  /** A set split into two disjoint parts has the sum of their sizes. */
  lemma SplitCardinality<T>(a: set<T>, kept: set<T>, removed: set<T>)
    requires kept !! removed
    requires a == kept + removed
    ensures |a| == |kept| + |removed|
  {
  }

  /** ZREMRANGEBYSCORE key min max: removes every member whose score lies in
      the closed interval [min, max] and replies with how many went. */
  function ZRemRangeByScore(s: Store, key: string, min: int, max: int): (r: Reply)
    ensures var z, z' := Members(s, key), Members(r.store, key);
            && (forall m :: m in z' <==> m in z && !(min <= z[m] <= max))
            && (forall m :: m in z' ==> z'[m] == z[m])
            && |z'| + r.count == |z|
    ensures r.store - {key} == s - {key}
    ensures WellFormed(s) ==> WellFormed(r.store)
  {
    var z := Members(s, key);
    var kept := map m | m in z && !(min <= z[m] <= max) :: z[m];
    var removed := set m | m in z && min <= z[m] <= max;
    SplitCardinality(z.Keys, kept.Keys, removed);
    Reply(Put(s, key, kept), |removed|)
  }

  /** ZCARD key: the number of members under `key`, zero for a missing key. */
  function ZCard(s: Store, key: string): (n: nat)
    ensures key !in s ==> n == 0
    ensures WellFormed(s) && key in s ==> n > 0
  {
    |Members(s, key)|
  }

  /** ZADD key score member: inserts `member` with `score`; when `member` is
      already present, only its score changes. Replies with the number of
      members added. */
  function ZAdd(s: Store, key: string, score: int, member: string): (r: Reply)
    ensures var z, z' := Members(s, key), Members(r.store, key);
            && member in z' && z'[member] == score
            && (forall m :: m != member ==> (m in z' <==> m in z))
            && (forall m :: m in z' && m != member ==> z'[m] == z[m])
            && r.count == (if member in z then 0 else 1)
            && |z'| == |z| + r.count
    ensures r.store - {key} == s - {key}
    ensures WellFormed(s) ==> WellFormed(r.store)
  {
    var z := Members(s, key);
    var z' := z[member := score];
    Reply(Put(s, key, z'), if member in z then 0 else 1)
  }

  /** Pruning the same score range twice removes nothing the second time. */
  lemma ZRemRangeByScoreIdempotent(s: Store, key: string, min: int, max: int)
    ensures var once := ZRemRangeByScore(s, key, min, max);
            ZRemRangeByScore(once.store, key, min, max) == Reply(once.store, 0)
  {
    var once := ZRemRangeByScore(s, key, min, max);
    var twice := ZRemRangeByScore(once.store, key, min, max);
    assert Members(twice.store, key) == Members(once.store, key);
  }
}
