/** Concrete call sequences against one limiter, with the clock reading
    left symbolic. */
module Scenarios {
  import opened SortedSets
  import opened Decimal
  import opened Limiter

  /** A call that finds nothing to prune and room under the limit passes
      and adds its timestamp's entry. */
  lemma AdmitsWithoutPruning(l: RateLimiter, store: Store, now: int, z: ZSet)
    requires Members(store, l.key) == z
    requires forall m :: m in z && z[m] >= 0 ==> z[m] >= WindowBegin(l, now)
    requires |z| < l.maxRequestCount
    ensures Pass(l, store, now).passed
    ensures Members(Pass(l, store, now).store, l.key) == z[LongToString(now) := now]
  {
    LiveOfEvicted(z, WindowBegin(l, now));
  }

  /** A call that finds nothing to prune and the limit reached is denied
      and leaves the set as it is. */
  lemma DeniesWithoutPruning(l: RateLimiter, store: Store, now: int, z: ZSet)
    requires Members(store, l.key) == z
    requires forall m :: m in z && z[m] >= 0 ==> z[m] >= WindowBegin(l, now)
    requires |z| >= l.maxRequestCount
    ensures !Pass(l, store, now).passed
    ensures Members(Pass(l, store, now).store, l.key) == z
  {
    LiveOfEvicted(z, WindowBegin(l, now));
  }

  /** A call that finds every entry older than its window passes, with a
      positive limit, and leaves only its own entry. */
  lemma AdmitsAfterExpiry(l: RateLimiter, store: Store, now: int, z: ZSet)
    requires Members(store, l.key) == z
    requires forall m :: m in z ==> 0 <= z[m] < WindowBegin(l, now)
    requires l.maxRequestCount >= 1
    ensures Pass(l, store, now).passed
    ensures Members(Pass(l, store, now).store, l.key) == map[][LongToString(now) := now]
  {
    assert Live(z, WindowBegin(l, now)) == map[];
  }

  /** Limit 1 per second, starting from an empty set: a call at `t` passes;
      a second call at `t` is denied; a call at `t + 1000` is still denied,
      because the entry at `t` lies exactly on the window start and the prune
      spares it; a call at `t + 1001` passes. */
  lemma WindowStartIsInclusive(l: RateLimiter, s0: Store, t: int)
    requires l.maxRequestCount == 1 && l.timeWindowSeconds == 1
    requires Members(s0, l.key) == map[]
    requires t >= 0
    ensures var d1 := Pass(l, s0, t);
            var d2 := Pass(l, d1.store, t);
            var d3 := Pass(l, d2.store, t + 1000);
            var d4 := Pass(l, d3.store, t + 1001);
            d1.passed && !d2.passed && !d3.passed && d4.passed
  {
    var one := map[][LongToString(t) := t];
    var d1 := Pass(l, s0, t);
    AdmitsWithoutPruning(l, s0, t, map[]);
    var d2 := Pass(l, d1.store, t);
    DeniesWithoutPruning(l, d1.store, t, one);
    var d3 := Pass(l, d2.store, t + 1000);
    DeniesWithoutPruning(l, d2.store, t + 1000, one);
    AdmitsAfterExpiry(l, d3.store, t + 1001, one);
  }

  /** The set three admissions at `t`, `t + 1` and `t + 2` leave behind. */
  function ThreeEntries(t: int): ZSet {
    map[][LongToString(t) := t][LongToString(t + 1) := t + 1][LongToString(t + 2) := t + 2]
  }

  /** The three entries are distinct and scored within `[t, t + 2]`. */
  lemma ThreeEntriesShape(t: int)
    ensures |ThreeEntries(t)| == 3
    ensures forall m :: m in ThreeEntries(t) ==> t <= ThreeEntries(t)[m] <= t + 2
  {
    LongToStringInjective(t, t + 1);
    LongToStringInjective(t, t + 2);
    LongToStringInjective(t + 1, t + 2);
  }

  /** Limit 3 per 10 seconds: calls at `t` and `t + 1` on an empty set both pass. */
  lemma TwoAdmitted(l: RateLimiter, s0: Store, t: int)
    requires l.maxRequestCount == 3 && l.timeWindowSeconds == 10
    requires Members(s0, l.key) == map[]
    ensures var d1 := Pass(l, s0, t);
            var d2 := Pass(l, d1.store, t + 1);
            && d1.passed && d2.passed
            && Members(d2.store, l.key) == map[][LongToString(t) := t][LongToString(t + 1) := t + 1]
  {
    var d1 := Pass(l, s0, t);
    AdmitsWithoutPruning(l, s0, t, map[]);
    AdmitsWithoutPruning(l, d1.store, t + 1, map[][LongToString(t) := t]);
  }

  /** Limit 3 per 10 seconds: a third call at `t + 2` passes too. */
  lemma ThreeAdmitted(l: RateLimiter, s0: Store, t: int)
    requires l.maxRequestCount == 3 && l.timeWindowSeconds == 10
    requires Members(s0, l.key) == map[]
    ensures var d1 := Pass(l, s0, t);
            var d2 := Pass(l, d1.store, t + 1);
            var d3 := Pass(l, d2.store, t + 2);
            && d1.passed && d2.passed && d3.passed
            && Members(d3.store, l.key) == ThreeEntries(t)
  {
    TwoAdmitted(l, s0, t);
    ThirdAdmitted(l, Pass(l, Pass(l, s0, t).store, t + 1).store, t);
  }

  /** The call at `t + 2` against the two entries of `t` and `t + 1`. */
  lemma ThirdAdmitted(l: RateLimiter, store: Store, t: int)
    requires l.maxRequestCount == 3 && l.timeWindowSeconds == 10
    requires Members(store, l.key) == map[][LongToString(t) := t][LongToString(t + 1) := t + 1]
    ensures Pass(l, store, t + 2).passed
    ensures Members(Pass(l, store, t + 2).store, l.key) == ThreeEntries(t)
  {
    var z2 := map[][LongToString(t) := t][LongToString(t + 1) := t + 1];
    LongToStringInjective(t, t + 1);
    assert |z2| == 2;
    AdmitsWithoutPruning(l, store, t + 2, z2);
  }

  /** With three live entries a call at `t + 3` is denied; ten seconds
      later all three have expired and a call passes. */
  lemma FullThenExpired(l: RateLimiter, store: Store, t: int)
    requires l.maxRequestCount == 3 && l.timeWindowSeconds == 10
    requires Members(store, l.key) == ThreeEntries(t)
    requires t >= 0
    ensures var d4 := Pass(l, store, t + 3);
            var d5 := Pass(l, d4.store, t + 10003);
            !d4.passed && d5.passed
  {
    var z3 := ThreeEntries(t);
    ThreeEntriesShape(t);
    DeniesWithoutPruning(l, store, t + 3, z3);
    AdmitsAfterExpiry(l, Pass(l, store, t + 3).store, t + 10003, z3);
  }

  /** Limit 3 per 10 seconds, starting from an empty set: three calls a
      millisecond apart pass, a fourth is denied, and a call ten seconds
      after the fourth passes, because by then all three entries have left
      the window. */
  lemma ThreePerTenSeconds(l: RateLimiter, s0: Store, t: int)
    requires l.maxRequestCount == 3 && l.timeWindowSeconds == 10
    requires Members(s0, l.key) == map[]
    requires t >= 0
    ensures var d1 := Pass(l, s0, t);
            var d2 := Pass(l, d1.store, t + 1);
            var d3 := Pass(l, d2.store, t + 2);
            var d4 := Pass(l, d3.store, t + 3);
            var d5 := Pass(l, d4.store, t + 10003);
            d1.passed && d2.passed && d3.passed && !d4.passed && d5.passed
  {
    ThreeAdmitted(l, s0, t);
    var d3 := Pass(l, Pass(l, Pass(l, s0, t).store, t + 1).store, t + 2);
    FullThenExpired(l, d3.store, t);
  }
}
