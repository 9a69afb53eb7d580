/** The sliding-window limiter: `RateLimiter.pass()` as a pure transition
    over the keyspace, with the clock reading passed in as `now`. */
module Limiter {
  import opened SortedSets
  import opened Decimal

  /** The limiter's policy: at most `maxRequestCount` admissions in any
      trailing window of `timeWindowSeconds` seconds, counted in the sorted
      set stored under `key` (the `label` field). The constructor checks neither number, so
      any integer is allowed here. */
  datatype RateLimiter = RateLimiter(key: string, maxRequestCount: int, timeWindowSeconds: int)

  /** One admission check: the keyspace after the call, and the answer. */
  datatype Decision = Decision(store: Store, passed: bool)

  /** First millisecond of the window that ends at `now`. */
  function WindowBegin(l: RateLimiter, now: int): int {
    now - l.timeWindowSeconds * 1000
  }

  /** The entries the prune keeps: it deletes the scores in
      [0, windowBegin - 1], so an entry scored exactly `windowBegin`, and any
      entry with a negative score, survives. */
  function Live(z: ZSet, windowBegin: int): ZSet {
    map m | m in z && (z[m] < 0 || windowBegin <= z[m]) :: z[m]
  }

  /** The prune of `pass()` leaves exactly the live entries. */
  lemma PruneKeepsLive(store: Store, key: string, windowBegin: int)
    ensures Members(ZRemRangeByScore(store, key, 0, windowBegin - 1).store, key)
            == Live(Members(store, key), windowBegin)
    ensures ZRemRangeByScore(store, key, 0, windowBegin - 1).store
            == Put(store, key, Live(Members(store, key), windowBegin))
  {
    var z := Members(store, key);
    var z' := Members(ZRemRangeByScore(store, key, 0, windowBegin - 1).store, key);
    var live := Live(z, windowBegin);
    assert forall m :: m in z' <==> m in live;
    assert forall m :: m in z' ==> z'[m] == live[m];
  }

  /** One admission check, declaratively: prune the entries older than the
      window, and insert `member` scored `now` when fewer than
      `maxRequestCount` remain. The method `PassCommands` below performs the
      same check as the three Redis commands `pass()` issues. */
  function Admit(l: RateLimiter, store: Store, now: int, member: string): (d: Decision)
    ensures d.store - {l.key} == store - {l.key}
    ensures WellFormed(store) ==> WellFormed(d.store)
  {
    var live := Live(Members(store, l.key), WindowBegin(l, now));
    if |live| < l.maxRequestCount then
      Decision(Put(store, l.key, live[member := now]), true)
    else
      Decision(Put(store, l.key, live), false)
  }

  /** `pass()` as written: the member is the decimal text of the timestamp,
      so an admission in a millisecond that already has an entry overwrites
      that entry instead of adding one. */
  function Pass(l: RateLimiter, store: Store, now: int): (d: Decision)
    ensures var live := Live(Members(store, l.key), WindowBegin(l, now));
            var z' := Members(d.store, l.key);
            d.passed ==>
              && LongToString(now) in z' && z'[LongToString(now)] == now
              && |z'| == |live| + (if LongToString(now) in live then 0 else 1)
  {
    Admit(l, store, now, LongToString(now))
  }

  /** `pass()` with the member the comment above it describes: the running
      number of the request, which differs from call to call. */
  function PassNumbered(l: RateLimiter, store: Store, requestNo: nat, now: int): (d: Decision)
    ensures var live := Live(Members(store, l.key), WindowBegin(l, now));
            var z' := Members(d.store, l.key);
            d.passed ==>
              && LongToString(requestNo) in z' && z'[LongToString(requestNo)] == now
              && |z'| == |live| + (if LongToString(requestNo) in live then 0 else 1)
  {
    Admit(l, store, now, LongToString(requestNo))
  }

  /** `pass()` step by step: compute the window start, ZREMRANGEBYSCORE
      the scores from 0 to one below it, ZCARD what is left, and ZADD the
      timestamp when that count is below the limit. The answer is true
      exactly when fewer than `maxRequestCount` entries survive the prune; a
      denial inserts nothing; an admission leaves the survivors plus the
      timestamp's entry; no other key changes. */
  method PassCommands(l: RateLimiter, store: Store, now: int) returns (d: Decision)
    ensures var live := Live(Members(store, l.key), WindowBegin(l, now));
            && (d.passed <==> |live| < l.maxRequestCount)
            && (!d.passed ==> Members(d.store, l.key) == live)
            && (d.passed ==> Members(d.store, l.key) == live[LongToString(now) := now])
    ensures d.store - {l.key} == store - {l.key}
    ensures d == Pass(l, store, now)
  {
    var key := l.key;
    var currentTime := now;
    var windowBegin := currentTime - l.timeWindowSeconds * 1000;
    var pruned := ZRemRangeByScore(store, key, 0, windowBegin - 1).store;
    ghost var live := Live(Members(store, key), windowBegin);
    assert windowBegin == WindowBegin(l, now);
    PruneKeepsLive(store, key, windowBegin);
    assert pruned == Put(store, key, live);
    var requestCount := ZCard(pruned, key);
    assert requestCount == |live|;
    if requestCount < l.maxRequestCount {
      var member := LongToString(currentTime);
      var added := ZAdd(pruned, key, currentTime, member).store;
      assert added == Put(pruned, key, live[member := currentTime]);
      PutTwice(store, key, live, live[member := currentTime]);
      d := Decision(added, true);
      assert d == Admit(l, store, now, member);
    } else {
      d := Decision(pruned, false);
      assert !(|live| < l.maxRequestCount);
      assert Admit(l, store, now, LongToString(now)) == Decision(Put(store, key, live), false);
    }
  }

  /** After a call no entry older than the window remains: every entry with
      a non-negative score is scored at least `now - timeWindowSeconds*1000`.
      Every entry the prune spares is still there. */
  lemma Eviction(l: RateLimiter, store: Store, now: int)
    requires l.timeWindowSeconds >= 0
    ensures var z, z' := Members(store, l.key), Members(Pass(l, store, now).store, l.key);
            && (forall m :: m in z' && z'[m] >= 0 ==> z'[m] >= WindowBegin(l, now))
            && (forall m :: m in z && (z[m] < 0 || z[m] >= WindowBegin(l, now)) ==> m in z')
  {
  }

  /** A set with nothing older than the window is entirely live. */
  lemma LiveOfEvicted(z: ZSet, windowBegin: int)
    requires forall m :: m in z && z[m] >= 0 ==> z[m] >= windowBegin
    ensures Live(z, windowBegin) == z
  {
  }

  /** A set whose members all belong to another is no larger. */
  lemma MapSubsetCardinality(a: ZSet, b: ZSet)
    requires a.Keys <= b.Keys
    ensures |a| <= |b|
  {
    assert b.Keys == a.Keys + (b.Keys - a.Keys);
  }

  /** A set holding at most `maxRequestCount` entries still does after the
      call, whatever member an admission inserts: a denial only prunes, and
      an admission adds at most one entry to a pruned set that was below the
      limit. */
  lemma CardinalityBound(l: RateLimiter, store: Store, now: int, member: string)
    requires |Members(store, l.key)| <= l.maxRequestCount
    ensures |Members(Admit(l, store, now, member).store, l.key)| <= l.maxRequestCount
  {
    var z := Members(store, l.key);
    MapSubsetCardinality(Live(z, WindowBegin(l, now)), z);
  }

  /** With a limit of zero or less, which the constructor lets through, every
      call is denied and inserts nothing. */
  lemma NonPositiveLimitDenies(l: RateLimiter, store: Store, now: int)
    requires l.maxRequestCount <= 0
    ensures var d := Pass(l, store, now);
            && !d.passed
            && Members(d.store, l.key) == Live(Members(store, l.key), WindowBegin(l, now))
  {
  }

  /** Calling again in the millisecond of a denial is denied again and leaves
      the keyspace as it is. */
  lemma DenialIsStable(l: RateLimiter, store: Store, now: int)
    requires !Pass(l, store, now).passed
    ensures Pass(l, Pass(l, store, now).store, now) == Pass(l, store, now)
  {
    var d := Pass(l, store, now);
    var z := Members(store, l.key);
    var wb := WindowBegin(l, now);
    assert Live(Live(z, wb), wb) == Live(z, wb);
  }

  /** A call on one label changes neither the answer nor the set of a
      limiter with another label. */
  lemma LabelsIndependent(a: RateLimiter, b: RateLimiter, store: Store, t: int, u: int)
    requires a.key != b.key
    ensures var viaA := Pass(b, Pass(a, store, t).store, u);
            var direct := Pass(b, store, u);
            && viaA.passed == direct.passed
            && Members(viaA.store, b.key) == Members(direct.store, b.key)
  {
    MembersOffKey(Pass(a, store, t).store, store, a.key, b.key);
  }

  /** A repeat call in the millisecond of an admission finds the entry that
      admission inserted and leaves the set as it was. */
  lemma RepeatAfterAdmission(l: RateLimiter, z1: ZSet, store1: Store, now: int)
    requires l.timeWindowSeconds >= 0
    requires z1 == Members(store1, l.key)
    requires LongToString(now) in z1 && z1[LongToString(now)] == now
    requires Live(z1, WindowBegin(l, now)) == z1
    ensures Members(Pass(l, store1, now).store, l.key) == z1
    ensures Pass(l, store1, now).passed <==> |z1| < l.maxRequestCount
  {
    assert z1[LongToString(now) := now] == z1;
  }

  /** A second call in the same millisecond never grows the set, yet passes
      whenever the first left it below the limit: the timestamp member it
      inserts is already there. */
  lemma SameMillisecondNoGrowth(l: RateLimiter, store: Store, now: int)
    requires l.timeWindowSeconds >= 0
    ensures Members(Pass(l, Pass(l, store, now).store, now).store, l.key)
            == Members(Pass(l, store, now).store, l.key)
    ensures Pass(l, Pass(l, store, now).store, now).passed
            <==> |Members(Pass(l, store, now).store, l.key)| < l.maxRequestCount
  {
    var first := Pass(l, store, now);
    var z1 := Members(first.store, l.key);
    Eviction(l, store, now);
    LiveOfEvicted(z1, WindowBegin(l, now));
    if first.passed {
      RepeatAfterAdmission(l, z1, first.store, now);
    } else {
      DenialIsStable(l, store, now);
    }
  }
}
