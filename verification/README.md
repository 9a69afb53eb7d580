# Sliding-window rate limiter over a Redis sorted set

`RateLimiter` is meant to admit at most `maxRequestCount` calls of
`pass()` in any trailing window of `timeWindowSeconds` seconds. As written
it does not always do so: see "## Findings". It keeps one Redis sorted set
under the key `label`. Each call:

1. reads the clock in epoch milliseconds (`current_time`);
2. computes `window_begin = current_time - timeWindowSeconds * 1000`;
3. runs `ZREMRANGEBYSCORE label 0 window_begin-1`, with both bounds
   inclusive, to drop expired entries;
4. runs `ZCARD label` to count what is left;
5. if the count is below `maxRequestCount`, runs
   `ZADD label current_time "<current_time>"` and answers `true`, and
   otherwise answers `false`.

This project models that behaviour as pure Dafny over an in-memory keyspace:

- `SortedSets` (`sorted_sets.dfy`) holds the three Redis commands as
  functions on `map<string, map<string, int>>`. A key whose set becomes
  empty is deleted, as Redis does.
- `Decimal` (`decimal.dfy`) holds `Long.toString` and a parser that
  inverts it.
- `Limiter` (`limiter.dfy`) holds the limiter:
  - `PassCommands` performs the three commands in the order of the source.
  - `Pass` is the same transition stated declaratively.
  - `PassNumbered` is the corrected variant; see Findings.
  - The single-call properties are lemmas here.
- `Traces` (`traces.dfy`) replays a sequence of calls by one caller. It
  proves the sliding-window cap for numbered members and shows that the
  cap fails for the code as written.
- `Scenarios` (`scenarios.dfy`) holds concrete call sequences with a
  symbolic clock.

The clock reading `Instant.now().toEpochMilli()` is a parameter `now`.

Three details of the code are easy to misread, and the model follows the
code in each:

- The constructor validates neither number. Any integer limit and window
  is allowed, and a limit of zero or less denies everything.
- The prune removes the scores in `[0, window_begin - 1]`. An entry scored
  exactly `window_begin` survives, and so does any entry with a negative
  score.
- The member is the timestamp's text, so two calls in one millisecond
  share an entry (see "## Findings").

## Model

| member | source | states |
|---|---|---|
| Limiter.PassCommands | redis/src/main/java/ratelimiter/RateLimiter.java:31-42 | the call passes exactly when fewer than `maxRequestCount` entries survive the prune; a denial leaves just the survivors; an admission leaves the survivors plus the entry `toString(now)` scored `now`; no other key changes; the command sequence agrees with `Pass` |
| Limiter.Admit | redis/src/main/java/ratelimiter/RateLimiter.java:34-41 | the call, with the inserted member as a parameter: it prunes to the live entries and inserts the member scored `now` when fewer than `maxRequestCount` remain; no other key changes; a store with no empty set keeps none |
| Limiter.Pass | redis/src/main/java/ratelimiter/RateLimiter.java:37-39 | on admission the set holds `toString(now)` scored `now`, and grows by one only when that member was not already live, so an existing entry for the same millisecond is overwritten |
| Limiter.PruneKeepsLive | redis/src/main/java/ratelimiter/RateLimiter.java:34-35 | the prune leaves exactly the entries scored at least the window start, together with negative-scored ones |
| Limiter.Eviction | redis/src/main/java/ratelimiter/RateLimiter.java:34-35 | after a call every non-negative score is at least `now - timeWindowSeconds*1000`, so the window start is inclusive, and every spared entry is still present |
| Limiter.CardinalityBound | redis/src/main/java/ratelimiter/RateLimiter.java:35-39 | a set within the limit stays within the limit after a call, whatever member an admission inserts |
| Limiter.NonPositiveLimitDenies | redis/src/main/java/ratelimiter/RateLimiter.java:17-22 | with `maxRequestCount <= 0`, which the constructor accepts, every call is denied and only prunes |
| Limiter.DenialIsStable | redis/src/main/java/ratelimiter/RateLimiter.java:37-41 | a denial inserts nothing: repeating a denied call in the same millisecond is denied again and changes nothing |
| Limiter.LabelsIndependent | redis/src/main/java/ratelimiter/RateLimiter.java:32-38 | a call under one label changes neither the answer nor the set of a limiter with a different label |
| Limiter.SameMillisecondNoGrowth | redis/src/main/java/ratelimiter/RateLimiter.java:38 | a second call in the same millisecond never grows the set, and it passes whenever the first call left the set below the limit |
| Limiter.PassNumbered | redis/src/main/java/ratelimiter/RateLimiter.java:24-29 | with the request number as member, as the comment describes, an admission stores that request's own entry scored `now` |
| SortedSets.ZRemRangeByScore | redis/src/main/java/ratelimiter/RateLimiter.java:35 | a member survives iff its score lies outside `[min, max]`; scores are unchanged; the reply counts the removed members; other keys are untouched |
| SortedSets.ZRemRangeByScoreIdempotent | redis/src/main/java/ratelimiter/RateLimiter.java:35 | pruning the same range again removes nothing |
| SortedSets.ZCard | redis/src/main/java/ratelimiter/RateLimiter.java:36 | a missing key counts zero, and in a store with no empty set a present key counts at least one |
| SortedSets.ZAdd | redis/src/main/java/ratelimiter/RateLimiter.java:38 | the member ends with the given score; other members are unchanged; the reply is 1 for a new member and 0 for an overwrite; the size grows by the reply |
| SortedSets.PutTwice | redis/src/main/java/ratelimiter/RateLimiter.java:35-38 | only the last write to a key matters |
| Decimal.LongToString | redis/src/main/java/ratelimiter/RateLimiter.java:38 | the text starts with a minus sign exactly for negatives; the rest is digits, and it starts with `0` only for the number zero |
| Decimal.LongToStringRoundTrip | redis/src/main/java/ratelimiter/RateLimiter.java:38 | parsing the text of a long gives the long back |
| Decimal.LongToStringInjective | redis/src/main/java/ratelimiter/RateLimiter.java:38 | two timestamps share a member exactly when they are equal |
| Traces.Replay | redis/src/main/java/ratelimiter/RateLimiter.java:31-42 | a sequence of calls yields one answer per call |
| Traces.ReplayPrefix | redis/src/main/java/ratelimiter/RateLimiter.java:31-42 | the answers to a prefix of the calls are a prefix of the answers |
| Traces.ReplayWithinLimit | redis/src/main/java/ratelimiter/RateLimiter.java:35-39 | under either naming, a set that starts within the limit stays within it after any sequence of calls |
| Traces.NumberedRetainsWindow | redis/src/main/java/ratelimiter/RateLimiter.java:24-39 | with numbered members and a clock that never goes back, the set keeps the entry of every admission inside the current window, whatever it held at the start |
| Traces.WindowOnAdmission | redis/src/main/java/ratelimiter/RateLimiter.java:36-39 | an admission saw fewer than `maxRequestCount` live entries, one per earlier admission in its window, so its window holds at most `maxRequestCount` admissions |
| Traces.WindowOnDenial | redis/src/main/java/ratelimiter/RateLimiter.java:37-41 | a denial adds no admission, and with a clock that never goes back its window holds no admission the previous request's window lacks |
| Traces.LastCap | redis/src/main/java/ratelimiter/RateLimiter.java:24-41 | with numbered members and a clock that never goes back, the window of the last request holds at most `maxRequestCount` admissions |
| Traces.HardCap | redis/src/main/java/ratelimiter/RateLimiter.java:24-41 | with numbered members and a clock that never goes back, no window ending at a request holds more than `maxRequestCount` admissions, whatever the set held before the first call |
| Traces.OneMillisecondAllAdmitted | redis/src/main/java/ratelimiter/RateLimiter.java:36-39 | as written, from an empty set and with a limit of two or more, every call within one millisecond is admitted and the set keeps a single entry, for any window |
| Traces.AsWrittenExceedsCap | redis/src/main/java/ratelimiter/RateLimiter.java:36-39 | as written, from an empty set, with a limit of two or more and a non-negative window, more calls than the limit in one millisecond are all admitted inside one window |
| Scenarios.WindowStartIsInclusive | redis/src/main/java/ratelimiter/RateLimiter.java:34-41 | for `t >= 0`, limit 1 per second from an empty set: calls at `t`, `t`, `t+1000` and `t+1001` answer true, false, false and true |
| Scenarios.ThreePerTenSeconds | redis/src/main/java/ratelimiter/RateLimiter.java:34-41 | for `t >= 0`, limit 3 per 10 seconds from an empty set: calls at `t`, `t+1` and `t+2` pass, a call at `t+3` is denied, and a call at `t+10003` passes |
| Scenarios.AdmitsAfterExpiry | redis/src/main/java/ratelimiter/RateLimiter.java:34-39 | when every entry has a non-negative score below the window start, a call with a positive limit passes and leaves only its own entry |

## Left out

- `main` (lines 44-75) is left out. It is a console loop that reads lines until end of input or `q` and prints each answer, which is I/O only.
- The Jedis connection and its failures are left out. These are connection errors and malformed replies, which the method propagates as exceptions. There is no store error to model once the store is a value.
- The clock is left out: `Instant.now()` becomes the parameter `now`.
- Concurrency is left out. The three commands are not atomic in the source, and concurrent callers can interleave between ZCARD and ZADD. The model treats every call as one atomic transition.
- Java `long` overflow is left out. `timeWindowSeconds * 1000` and `current_time - …` are unbounded integers here, so a window large enough to wrap is not modelled.
- Redis scores are doubles. They are integers here because every epoch-millisecond reading is exact in a double.
- Limiter.Eviction: requires `timeWindowSeconds >= 0`, which the constructor does not check. With a negative window the window start lies after `now`, and the fresh entry is itself older than the window.
- Limiter.SameMillisecondNoGrowth: requires `timeWindowSeconds >= 0`, which the constructor does not check. With a window of -1 and a limit of 1, a first call at 0 on an empty set leaves one entry, yet a second call at 0 prunes that entry, because the window start 1000 lies after it, and passes.
- Traces.HardCap: the cap is stated for the corrected member naming and a clock that never goes back. A clock that steps back can leave entries the prune cannot see as expired.
- Traces.HardCap: requires `maxRequestCount >= 0`. With a negative limit every window is empty, and a cap below zero cannot hold. Limiter.NonPositiveLimitDenies covers that case: every call is denied.

## Findings

| source | as written | input that shows it | evidently intended | confidence | as-written member | corrected member |
|---|---|---|---|---|---|---|
| redis/src/main/java/ratelimiter/RateLimiter.java:38 | the admitted entry's member is `Long.toString(current_time)`, so two admissions in one millisecond share one entry and the second overwrites the first | `maxRequestCount = 2`, `timeWindowSeconds = 1`, three calls at the same millisecond on an empty set: all three pass, because the count ZCARD reads stays at 1 | the comment at lines 24-29 makes the member the running count of requests, which is unique per call, so at most `maxRequestCount` calls pass per window | not executed | Traces.AsWrittenExceedsCap | Traces.HardCap |
