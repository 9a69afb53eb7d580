/** One caller issuing a sequence of `pass()` calls, and the sliding-window
    cap over such a sequence: among the admitted requests, at most
    `maxRequestCount` carry a timestamp inside the window that ends at any
    request. The cap holds when each admission inserts a member of its own;
    with the timestamp as member it does not. */
module Traces {
  import opened SortedSets
  import opened Decimal
  import opened Limiter

  /** How an admission names its sorted-set member. */
  datatype Naming =
    | ByTimestamp      // the decimal timestamp, as `pass()` does
    | ByRequestNumber  // the decimal number of the request, counted from 0

  /** One call of the limiter as request number `requestNo`. */
  function Call(l: RateLimiter, store: Store, naming: Naming, requestNo: nat, now: int): Decision {
    match naming
    case ByTimestamp => Pass(l, store, now)
    case ByRequestNumber => PassNumbered(l, store, requestNo, now)
  }

  /** The keyspace after a sequence of calls, and each call's answer. */
  datatype Run = Run(store: Store, decisions: seq<bool>)

  /** Request `i` is issued at `times[i]`, after all earlier ones. */
  function Replay(l: RateLimiter, s0: Store, times: seq<int>, naming: Naming): (r: Run)
    ensures |r.decisions| == |times|
    decreases |times|
  {
    if |times| == 0 then Run(s0, [])
    else
      var n := |times| - 1;
      var prev := Replay(l, s0, times[..n], naming);
      var d := Call(l, prev.store, naming, n, times[n]);
      Run(d.store, prev.decisions + [d.passed])
  }

  /** Clock readings of one caller never go back. */
  ghost predicate Nondecreasing(times: seq<int>) {
    forall i, k :: 0 <= i <= k < |times| ==> times[i] <= times[k]
  }

  /** The admitted requests among the first `j + 1` whose timestamps lie in
      the window that ends at request `j`. */
  function AdmittedInWindow(l: RateLimiter, times: seq<int>, decisions: seq<bool>, j: nat): set<int>
    requires j < |times| <= |decisions|
  {
    set i | 0 <= i <= j && decisions[i] && times[i] >= WindowBegin(l, times[j])
  }

  /** Every admitted request in the window of the last request still has
      its own entry, scored with its timestamp. */
  ghost predicate RetainsWindow(l: RateLimiter, times: seq<int>, r: Run)
    requires |times| >= 1 && |r.decisions| == |times|
  {
    var z := Members(r.store, l.key);
    forall i :: 0 <= i < |times| && r.decisions[i] && times[i] >= WindowBegin(l, times[|times| - 1]) ==>
      LongToString(i) in z && z[LongToString(i)] == times[i]
  }

  /** The answers of a prefix of the calls are a prefix of the answers. */
  lemma {:induction false} ReplayPrefix(l: RateLimiter, s0: Store, times: seq<int>, naming: Naming, k: nat)
    requires k <= |times|
    ensures Replay(l, s0, times[..k], naming).decisions == Replay(l, s0, times, naming).decisions[..k]
    decreases |times|
  {
    if k < |times| {
      var n := |times| - 1;
      ReplayPrefix(l, s0, times[..n], naming, k);
      assert times[..n][..k] == times[..k];
    } else {
      assert times[..k] == times;
    }
  }

  /** Numbered requests map to distinct members, so a set holding the
      members of the requests in `a` has at least `|a|` entries. */
  lemma {:induction false} NumberedMembersBound(a: set<int>, z: ZSet)
    requires forall i :: i in a ==> LongToString(i) in z
    ensures |a| <= |z|
    decreases a
  {
    if a != {} {
      // Supplies the witness the `:|` below needs.
      if forall y :: y !in a {
        assert false;
      }
      var x :| x in a;
      var rest := z - {LongToString(x)};
      forall i | i in a - {x}
        ensures LongToString(i) in rest
      {
        LongToStringInjective(i, x);
      }
      NumberedMembersBound(a - {x}, rest);
      assert rest.Keys == z.Keys - {LongToString(x)};
    }
  }

  /** Under any naming, a set that starts within the limit stays within it
      after every call. */
  lemma {:induction false} ReplayWithinLimit(l: RateLimiter, s0: Store, times: seq<int>, naming: Naming)
    requires |Members(s0, l.key)| <= l.maxRequestCount
    ensures |Members(Replay(l, s0, times, naming).store, l.key)| <= l.maxRequestCount
    decreases |times|
  {
    if |times| > 0 {
      var n := |times| - 1;
      ReplayWithinLimit(l, s0, times[..n], naming);
      var prev := Replay(l, s0, times[..n], naming);
      match naming
      case ByTimestamp => CardinalityBound(l, prev.store, times[n], LongToString(times[n]));
      case ByRequestNumber => CardinalityBound(l, prev.store, times[n], LongToString(n));
    }
  }

  /** With numbered members and a clock that never goes back, the set under
      the limiter's key holds an entry for every admitted request inside the
      current window, whatever the set held at the start. */
  lemma {:induction false} NumberedRetainsWindow(l: RateLimiter, s0: Store, times: seq<int>)
    requires Nondecreasing(times)
    ensures |times| >= 1 ==> RetainsWindow(l, times, Replay(l, s0, times, ByRequestNumber))
    decreases |times|
  {
    if |times| > 0 {
      var n := |times| - 1;
      var prefix := times[..n];
      var t := times[n];
      assert Nondecreasing(prefix);
      NumberedRetainsWindow(l, s0, prefix);
      var prev := Replay(l, s0, prefix, ByRequestNumber);
      var d := PassNumbered(l, prev.store, n, t);
      var r := Replay(l, s0, times, ByRequestNumber);
      assert r == Run(d.store, prev.decisions + [d.passed]);
      var wb := WindowBegin(l, t);
      var z := Members(prev.store, l.key);
      var live := Live(z, wb);
      var z' := Members(d.store, l.key);
      forall i | 0 <= i < |times| && r.decisions[i] && times[i] >= wb
        ensures LongToString(i) in z' && z'[LongToString(i)] == times[i]
      {
        if i < n {
          assert prev.decisions[i] && prefix[i] == times[i];
          assert times[n - 1] <= t && prefix[n - 1] == times[n - 1];
          assert LongToString(i) in z && z[LongToString(i)] == times[i];
          assert LongToString(i) in live && live[LongToString(i)] == times[i];
          LongToStringInjective(i, n);
        }
      }
    }
  }

  /** A prefix of a clock's readings is again nondecreasing. */
  lemma NondecreasingPrefix(times: seq<int>, k: nat)
    requires k <= |times|
    requires Nondecreasing(times)
    ensures Nondecreasing(times[..k])
  {
    var p := times[..k];
    forall i, m | 0 <= i <= m < |p|
      ensures p[i] <= p[m]
    {
      assert p[i] == times[i] && p[m] == times[m];
    }
  }

  /** Every admission of a numbered run that lies inside the window of a
      later request at `t` still has a live entry when that request arrives. */
  lemma EarlierEntriesLive(l: RateLimiter, s0: Store, p: seq<int>, t: int)
    requires Nondecreasing(p)
    requires |p| >= 1 && p[|p| - 1] <= t
    ensures var prev := Replay(l, s0, p, ByRequestNumber);
            var live := Live(Members(prev.store, l.key), WindowBegin(l, t));
            forall i :: 0 <= i < |p| && prev.decisions[i] && p[i] >= WindowBegin(l, t) ==>
              LongToString(i) in live
  {
    var prev := Replay(l, s0, p, ByRequestNumber);
    NumberedRetainsWindow(l, s0, p);
    assert WindowBegin(l, p[|p| - 1]) <= WindowBegin(l, t);
  }

  /** The windows of the first `k` requests depend on those requests only. */
  lemma AdmittedInWindowPrefix(l: RateLimiter, times: seq<int>, decisions: seq<bool>, k: nat, j: nat)
    requires j < k <= |times| <= |decisions|
    ensures AdmittedInWindow(l, times[..k], decisions[..k], j) == AdmittedInWindow(l, times, decisions, j)
  {
    var a, b := AdmittedInWindow(l, times[..k], decisions[..k], j), AdmittedInWindow(l, times, decisions, j);
    forall i
      ensures i in a <==> i in b
    {
      if 0 <= i <= j {
        assert times[..k][i] == times[i] && decisions[..k][i] == decisions[i];
        assert times[..k][j] == times[j];
      }
    }
  }

  /** An admission at request `j` found fewer than `maxRequestCount` live
      entries, one for each earlier admission in its window, so the window
      holds at most `maxRequestCount` admissions with its own. */
  lemma WindowOnAdmission(l: RateLimiter, times: seq<int>, decisions: seq<bool>, j: nat, live: ZSet)
    requires j < |times| <= |decisions|
    requires forall i :: 0 <= i < j && decisions[i] && times[i] >= WindowBegin(l, times[j]) ==>
               LongToString(i) in live
    requires |live| < l.maxRequestCount
    ensures |AdmittedInWindow(l, times, decisions, j)| <= l.maxRequestCount
  {
    var a := AdmittedInWindow(l, times, decisions, j);
    var earlier := a - {j};
    NumberedMembersBound(earlier, live);
    assert a <= earlier + {j};
    assert |a| <= |earlier + {j}| <= |earlier| + 1;
  }

  /** A denial at request `j` adds nothing, and the window start never moves
      back, so the window of `j` holds no admission the window of `j - 1`
      lacks. */
  lemma WindowOnDenial(l: RateLimiter, times: seq<int>, decisions: seq<bool>, j: nat)
    requires 1 <= j < |times| <= |decisions|
    requires !decisions[j]
    requires times[j - 1] <= times[j]
    ensures AdmittedInWindow(l, times, decisions, j) <= AdmittedInWindow(l, times, decisions, j - 1)
    ensures |AdmittedInWindow(l, times, decisions, j)| <= |AdmittedInWindow(l, times, decisions, j - 1)|
  {
    var a, b := AdmittedInWindow(l, times, decisions, j), AdmittedInWindow(l, times, decisions, j - 1);
    assert a <= b;
    assert b == a + (b - a);
  }

  /** A window within the limit among the first `j + 1` requests stays within
      it in any longer run that shares their answers. */
  lemma CapFromPrefix(l: RateLimiter, times: seq<int>, decisions: seq<bool>, prefixDecisions: seq<bool>, j: nat)
    requires j < |times| <= |decisions|
    requires prefixDecisions == decisions[..j + 1]
    requires |AdmittedInWindow(l, times[..j + 1], prefixDecisions, j)| <= l.maxRequestCount
    ensures |AdmittedInWindow(l, times, decisions, j)| <= l.maxRequestCount
  {
    AdmittedInWindowPrefix(l, times, decisions, j + 1, j);
  }

  /** The cap in the window that ends at the last request, by induction on
      the number of requests. */
  lemma {:induction false} LastCap(l: RateLimiter, s0: Store, times: seq<int>)
    requires Nondecreasing(times)
    requires l.maxRequestCount >= 0
    requires |times| >= 1
    ensures |AdmittedInWindow(l, times, Replay(l, s0, times, ByRequestNumber).decisions, |times| - 1)|
            <= l.maxRequestCount
    decreases |times|
  {
    var n := |times| - 1;
    var p := times[..n];
    var prev := Replay(l, s0, p, ByRequestNumber);
    var d := PassNumbered(l, prev.store, n, times[n]);
    var r := Replay(l, s0, times, ByRequestNumber);
    assert r.decisions == prev.decisions + [d.passed];
    var wb := WindowBegin(l, times[n]);
    var live := Live(Members(prev.store, l.key), wb);
    if d.passed {
      assert |live| < l.maxRequestCount;
      if n > 0 {
        NondecreasingPrefix(times, n);
        assert p[n - 1] == times[n - 1] <= times[n];
        EarlierEntriesLive(l, s0, p, times[n]);
        forall i | 0 <= i < n && r.decisions[i] && times[i] >= wb
          ensures LongToString(i) in live
        {
          assert prev.decisions[i] == r.decisions[i] && p[i] == times[i];
        }
      }
      WindowOnAdmission(l, times, r.decisions, n, live);
    } else if n == 0 {
      assert AdmittedInWindow(l, times, r.decisions, 0) == {};
    } else {
      NondecreasingPrefix(times, n);
      LastCap(l, s0, p);
      assert r.decisions[..n] == prev.decisions;
      AdmittedInWindowPrefix(l, times, r.decisions, n, n - 1);
      WindowOnDenial(l, times, r.decisions, n);
    }
  }

  /** The cap in the window that ends at request `j`. */
  lemma CapAt(l: RateLimiter, s0: Store, times: seq<int>, j: nat)
    requires Nondecreasing(times)
    requires l.maxRequestCount >= 0
    requires j < |times|
    ensures |AdmittedInWindow(l, times, Replay(l, s0, times, ByRequestNumber).decisions, j)|
            <= l.maxRequestCount
  {
    NondecreasingPrefix(times, j + 1);
    LastCap(l, s0, times[..j + 1]);
    ReplayPrefix(l, s0, times, ByRequestNumber, j + 1);
    CapFromPrefix(l, times, Replay(l, s0, times, ByRequestNumber).decisions,
                  Replay(l, s0, times[..j + 1], ByRequestNumber).decisions, j);
  }

  /** The sliding-window cap, for numbered members: in every window that
      ends at a request, at most `maxRequestCount` requests were admitted,
      whatever the set held before the first request. */
  lemma HardCap(l: RateLimiter, s0: Store, times: seq<int>)
    requires Nondecreasing(times)
    requires l.maxRequestCount >= 0
    ensures var r := Replay(l, s0, times, ByRequestNumber);
            forall j :: 0 <= j < |times| ==>
              |AdmittedInWindow(l, times, r.decisions, j)| <= l.maxRequestCount
  {
    forall j | 0 <= j < |times|
      ensures |AdmittedInWindow(l, times, Replay(l, s0, times, ByRequestNumber).decisions, j)|
              <= l.maxRequestCount
    {
      CapAt(l, s0, times, j);
    }
  }

  /** As written, a call at `t` against a set that is empty or holds only
      the entry of `t` is admitted and leaves exactly that entry, whether or
      not the prune removes that entry first. */
  lemma TimestampEntryRewritten(l: RateLimiter, store: Store, t: int)
    requires l.maxRequestCount >= 2
    requires Members(store, l.key) == map[] || Members(store, l.key) == map[LongToString(t) := t]
    ensures Pass(l, store, t).passed
    ensures Members(Pass(l, store, t).store, l.key) == map[LongToString(t) := t]
  {
    var z := Members(store, l.key);
    var one := map[LongToString(t) := t];
    var wb := WindowBegin(l, t);
    if z == map[] {
      assert Live(z, wb) == map[];
      assert map[][LongToString(t) := t] == one;
    } else if t < 0 || wb <= t {
      assert Live(one, wb) == one;
      assert one[LongToString(t) := t] == one;
    } else {
      assert Live(one, wb) == map[];
      assert map[][LongToString(t) := t] == one;
    }
  }

  /** As written, every call within one millisecond is admitted once the
      limit is two or more: the first inserts the timestamp's entry and each
      later one overwrites it, so the count the check reads stays at one. */
  lemma {:induction false} OneMillisecondAllAdmitted(l: RateLimiter, s0: Store, times: seq<int>, t: int)
    requires l.maxRequestCount >= 2
    requires Members(s0, l.key) == map[]
    requires forall i :: 0 <= i < |times| ==> times[i] == t
    ensures var r := Replay(l, s0, times, ByTimestamp);
            && (forall i :: 0 <= i < |times| ==> r.decisions[i])
            && (|times| > 0 ==> Members(r.store, l.key) == map[LongToString(t) := t])
    decreases |times|
  {
    if |times| > 0 {
      var n := |times| - 1;
      OneMillisecondAllAdmitted(l, s0, times[..n], t);
      var prev := Replay(l, s0, times[..n], ByTimestamp);
      TimestampEntryRewritten(l, prev.store, t);
      var r := Replay(l, s0, times, ByTimestamp);
      forall i | 0 <= i < |times|
        ensures r.decisions[i]
      {
        if i < n {
          assert r.decisions[i] == prev.decisions[i];
        }
      }
    }
  }

  /** The request numbers below `n`. */
  function Upto(n: nat): (r: set<int>)
    ensures forall i :: i in r <==> 0 <= i < n
    ensures |r| == n
  {
    if n == 0 then {} else Upto(n - 1) + {n - 1}
  }

  /** The cap fails as written: once the limit is two or more, more calls
      than the limit in one millisecond are all admitted, and all lie in the
      window of the last one. */
  lemma AsWrittenExceedsCap(l: RateLimiter, s0: Store, times: seq<int>, t: int)
    requires l.timeWindowSeconds >= 0 && l.maxRequestCount >= 2
    requires Members(s0, l.key) == map[]
    requires forall i :: 0 <= i < |times| ==> times[i] == t
    requires |times| > l.maxRequestCount
    ensures Nondecreasing(times)
    ensures |AdmittedInWindow(l, times, Replay(l, s0, times, ByTimestamp).decisions, |times| - 1)| == |times|
  {
    OneMillisecondAllAdmitted(l, s0, times, t);
    var r := Replay(l, s0, times, ByTimestamp);
    var a := AdmittedInWindow(l, times, r.decisions, |times| - 1);
    assert a == Upto(|times|);
  }
}
