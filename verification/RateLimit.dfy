/** The fixed-window failure counter behind login throttling.  Instants and
    durations are integers in one unit. */
module RateLimit {
  import opened Wrappers

  datatype Bucket = Bucket(
    key: string,
    purpose: string,
    attempts: int,
    windowStart: int,
    blockedUntil: Option<int>,
    updatedAt: int)

  /** The limits a caller passes with every failure. */
  datatype Policy = Policy(window: int, maxAttempts: int, blockFor: int)

  /** One recorded failure. */
  datatype Call = Call(key: string, purpose: string, now: int)

  type Table = map<string, Bucket>

  function NextBucket(table: Table, call: Call, policy: Policy): Bucket {
    var counted :=
      if call.key in table && table[call.key].windowStart + policy.window > call.now
      then table[call.key].(attempts := table[call.key].attempts + 1, updatedAt := call.now)
      else Bucket(call.key, call.purpose, 1, call.now, None, call.now);
    if counted.attempts >= policy.maxAttempts
    then counted.(blockedUntil := Some(call.now + policy.blockFor))
    else counted
  }

  function Record(table: Table, call: Call, policy: Policy): Table {
    table[call.key := NextBucket(table, call, policy)]
  }

  class RateLimitStore {
    var buckets: Table

    constructor ()
      ensures buckets == map[]
    {
      buckets := map[];
    }

    method RecordRateLimitFailure(call: Call, policy: Policy) returns (bucket: Bucket)
      modifies this
      ensures buckets == Record(old(buckets), call, policy)
      ensures bucket == buckets[call.key]
    {
      var live := false;
      if call.key in buckets {
        bucket := buckets[call.key];
        live := bucket.windowStart + policy.window > call.now;
      }
      if live {
        bucket := bucket.(attempts := bucket.attempts + 1);
        bucket := bucket.(updatedAt := call.now);
      } else {
        bucket := Bucket(call.key, call.purpose, 1, call.now, None, call.now);
      }
      if bucket.attempts >= policy.maxAttempts {
        bucket := bucket.(blockedUntil := Some(call.now + policy.blockFor));
      }
      buckets := buckets[call.key := bucket];
    }

    method ClearRateLimitBucket(key: string)
      modifies this
      ensures buckets == old(buckets) - {key}
    {
      buckets := buckets - {key};
    }
  }

  // ---------------------------------------------------------------- runs

  /** The table after the calls, starting from an empty one. */
  function Run(calls: seq<Call>, policy: Policy): Table {
    if calls == [] then map[]
    else Record(Run(calls[..|calls| - 1], policy), calls[|calls| - 1], policy)
  }

  ghost predicate NonDecreasing(calls: seq<Call>) {
    forall i, j :: 0 <= i <= j < |calls| ==> calls[i].now <= calls[j].now
  }

  /** How many of the calls concern `key` at an instant in [from, to). */
  function FailuresIn(calls: seq<Call>, key: string, from: int, to: int): nat {
    if calls == [] then 0
    else
      var last := calls[|calls| - 1];
      FailuresIn(calls[..|calls| - 1], key, from, to)
      + if last.key == key && from <= last.now < to then 1 else 0
  }

  /** Call `i` returned a bucket that is blocked. */
  ghost predicate ReturnsBlocked(calls: seq<Call>, i: nat, policy: Policy)
    requires i < |calls|
  {
    var table := Run(calls[..i + 1], policy);
    calls[i].key in table && table[calls[i].key].blockedUntil.Some?
  }

  /** Nothing in the window [from, from + window) got `key` blocked. */
  ghost predicate Unblocked(calls: seq<Call>, key: string, from: int, policy: Policy) {
    forall i :: 0 <= i < |calls| && calls[i].key == key && from <= calls[i].now < from + policy.window
      ==> !ReturnsBlocked(calls, i, policy)
  }

  lemma PrefixKeepsHistory(calls: seq<Call>, key: string, from: int, policy: Policy)
    requires calls != []
    ensures var before := calls[..|calls| - 1];
      && (NonDecreasing(calls) ==> NonDecreasing(before))
      && (Unblocked(calls, key, from, policy) ==> Unblocked(before, key, from, policy))
  {
    var before := calls[..|calls| - 1];
    if Unblocked(calls, key, from, policy) {
      forall i | 0 <= i < |before| && before[i].key == key && from <= before[i].now < from + policy.window
        ensures !ReturnsBlocked(before, i, policy)
      {
        assert before[..i + 1] == calls[..i + 1];
        assert !ReturnsBlocked(calls, i, policy);
      }
    }
  }

  /** The latest call for `key`. */
  ghost predicate IsLatest(calls: seq<Call>, key: string, i: int) {
    0 <= i < |calls| && calls[i].key == key && forall j :: i < j < |calls| ==> calls[j].key != key
  }

  /** Call `first` opened the window that is current after all the calls: no
      later failure of its key falls outside the window, and the failure before
      it, if any, belongs to a window that was over. */
  ghost predicate OpensWindow(calls: seq<Call>, key: string, first: int, policy: Policy) {
    && 0 <= first < |calls| && calls[first].key == key
    && (forall j :: first < j < |calls| && calls[j].key == key ==> calls[j].now < calls[first].now + policy.window)
    && var before := Run(calls[..first], policy);
       key in before ==> before[key].windowStart + policy.window <= calls[first].now
  }

  function Occurrences(calls: seq<Call>, key: string): nat {
    if calls == [] then 0
    else Occurrences(calls[..|calls| - 1], key) + if calls[|calls| - 1].key == key then 1 else 0
  }

  /** What the bucket of `key` says about its history. */
  ghost predicate History(calls: seq<Call>, key: string, policy: Policy, first: int, latest: int) {
    && IsLatest(calls, key, latest)
    && OpensWindow(calls, key, first, policy)
    && first <= latest
    && key in Run(calls, policy)
    && var bucket := Run(calls, policy)[key];
    && bucket.key == key
    && bucket.purpose == calls[first].purpose
    && bucket.windowStart == calls[first].now
    && bucket.attempts == Occurrences(calls[first..], key)
    && bucket.updatedAt == calls[latest].now
    && bucket.blockedUntil == if bucket.attempts >= policy.maxAttempts
                              then Some(calls[latest].now + policy.blockFor) else None
  }

  /** A bucket, read back from the history of its key: it exists iff the key
      failed; start and purpose are those of the call that opened the window,
      the count is the number of failures since, and it is blocked, until
      `blockFor` after the latest failure, iff the count reached the limit. */
  lemma {:induction false} BucketTellsHistory(calls: seq<Call>, key: string, policy: Policy)
    ensures key in Run(calls, policy) <==> exists i :: 0 <= i < |calls| && calls[i].key == key
    ensures key in Run(calls, policy) ==> exists first, latest :: History(calls, key, policy, first, latest)
  {
    if calls != [] {
      var n := |calls| - 1;
      var before := calls[..n];
      BucketTellsHistory(before, key, policy);
      assert calls[n].key != key && key in Run(calls, policy) ==> key in Run(before, policy);
      if key in Run(before, policy) {
        var first, latest :| History(before, key, policy, first, latest);
        HistoryStep(calls, key, policy, first, latest);
      } else if calls[n].key == key {
        HistoryOpens(calls, key, policy);
      }
    }
  }

  /** One more call, when the key already has a bucket. */
  lemma HistoryStep(calls: seq<Call>, key: string, policy: Policy, first: int, latest: int)
    requires calls != [] && History(calls[..|calls| - 1], key, policy, first, latest)
    ensures exists first', latest' :: History(calls, key, policy, first', latest')
  {
    var n := |calls| - 1;
    if calls[n].key != key {
      HistorySkips(calls, key, policy, first, latest);
    } else if Run(calls[..n], policy)[key].windowStart + policy.window > calls[n].now {
      HistoryExtends(calls, key, policy, first, latest);
    } else {
      HistoryOpens(calls, key, policy);
    }
  }

  /** The last call concerns another key. */
  lemma HistorySkips(calls: seq<Call>, key: string, policy: Policy, first: int, latest: int)
    requires calls != [] && calls[|calls| - 1].key != key
    requires History(calls[..|calls| - 1], key, policy, first, latest)
    ensures History(calls, key, policy, first, latest)
  {
    var n := |calls| - 1;
    assert calls[..first] == calls[..n][..first];
    assert calls[first..][..n - first] == calls[..n][first..];
  }

  /** The last call falls into the open window. */
  lemma HistoryExtends(calls: seq<Call>, key: string, policy: Policy, first: int, latest: int)
    requires calls != [] && calls[|calls| - 1].key == key
    requires History(calls[..|calls| - 1], key, policy, first, latest)
    requires Run(calls[..|calls| - 1], policy)[key].windowStart + policy.window > calls[|calls| - 1].now
    ensures History(calls, key, policy, first, |calls| - 1)
  {
    var n := |calls| - 1;
    assert calls[..first] == calls[..n][..first];
    assert calls[first..][..n - first] == calls[..n][first..];
  }

  /** The last call opens a window. */
  lemma HistoryOpens(calls: seq<Call>, key: string, policy: Policy)
    requires calls != [] && calls[|calls| - 1].key == key
    requires var before := Run(calls[..|calls| - 1], policy);
      key in before ==> before[key].windowStart + policy.window <= calls[|calls| - 1].now
    ensures History(calls, key, policy, |calls| - 1, |calls| - 1)
  {
    assert calls[|calls| - 1..] == [calls[|calls| - 1]];
  }

  lemma NoFailures(calls: seq<Call>, key: string, from: int, to: int)
    requires forall i :: 0 <= i < |calls| && calls[i].key == key ==> !(from <= calls[i].now < to)
    ensures FailuresIn(calls, key, from, to) == 0
  {
  }

  lemma SameCount(calls: seq<Call>, key: string, from: int, to: int, later: int)
    requires to <= later
    requires forall i :: 0 <= i < |calls| && calls[i].key == key ==> calls[i].now < to
    ensures FailuresIn(calls, key, from, to) == FailuresIn(calls, key, from, later)
  {
  }

  /** No failure of a key is later than its bucket says. */
  lemma {:induction false} UpdatedLast(calls: seq<Call>, key: string, policy: Policy)
    requires NonDecreasing(calls)
    ensures key !in Run(calls, policy) ==> forall i :: 0 <= i < |calls| ==> calls[i].key != key
    ensures key in Run(calls, policy) ==>
      var bucket := Run(calls, policy)[key];
      && bucket.windowStart <= bucket.updatedAt <= calls[|calls| - 1].now
      && (policy.window > 0 ==> bucket.updatedAt < bucket.windowStart + policy.window)
      && forall i :: 0 <= i < |calls| && calls[i].key == key ==> calls[i].now <= bucket.updatedAt
  {
    if calls != [] {
      UpdatedLast(calls[..|calls| - 1], key, policy);
      assert forall i :: 0 <= i < |calls| - 1 ==> calls[..|calls| - 1][i] == calls[i];
    }
  }

  /** With a positive window and a clock that does not go back, the count is the
      number of failures recorded at or after the window's start. */
  lemma {:induction false} AttemptsCountTheWindow(calls: seq<Call>, key: string, policy: Policy)
    requires NonDecreasing(calls) && policy.window > 0
    requires key in Run(calls, policy)
    ensures var bucket := Run(calls, policy)[key];
      bucket.attempts == FailuresIn(calls, key, bucket.windowStart, bucket.updatedAt + 1)
  {
    var n := |calls| - 1;
    var before, last := calls[..n], calls[n];
    var bucket := Run(calls, policy)[key];
    UpdatedLast(before, key, policy);
    if key !in Run(before, policy) {
      NoFailures(before, key, bucket.windowStart, bucket.updatedAt + 1);
    } else {
      var earlier := Run(before, policy)[key];
      AttemptsCountTheWindow(before, key, policy);
      if last.key == key {
        if earlier.windowStart + policy.window > last.now {
          SameCount(before, key, bucket.windowStart, earlier.updatedAt + 1, last.now + 1);
        } else {
          NoFailures(before, key, last.now, last.now + 1);
        }
      }
    }
  }

  // ------------------------------------------------------- sliding bound

  /** What one bucket says by itself. */
  predicate HasShape(bucket: Bucket, now: int, policy: Policy) {
    && bucket.windowStart <= bucket.updatedAt <= now
    && (bucket.updatedAt == bucket.windowStart || bucket.updatedAt < bucket.windowStart + policy.window)
    && bucket.attempts >= 1
    && (bucket.blockedUntil.Some? <==> bucket.attempts >= policy.maxAttempts)
  }

  lemma {:induction false} BucketShape(calls: seq<Call>, key: string, policy: Policy)
    requires NonDecreasing(calls) && key in Run(calls, policy)
    ensures HasShape(Run(calls, policy)[key], calls[|calls| - 1].now, policy)
  {
    BucketTellsHistory(calls, key, policy);
    var first, latest :| History(calls, key, policy, first, latest);
    assert first < latest ==> calls[latest].now < calls[first].now + policy.window;
    OccurrencesPositive(calls[first..], key);
  }

  lemma OccurrencesPositive(calls: seq<Call>, key: string)
    requires calls != [] && calls[0].key == key
    ensures Occurrences(calls, key) >= 1
  {
  }

  /** Where the current window starts decides how many failures of the interval
      it can still hold. */
  predicate WithinBound(count: nat, table: Table, key: string, from: int, policy: Policy) {
    && count <= 2 * policy.maxAttempts - 3
    && (key !in table ==> count == 0)
    && (key in table ==>
      var bucket := table[key];
      && (bucket.windowStart < from ==>
        && count <= bucket.attempts - 1
        && (count > 0 ==> bucket.attempts <= policy.maxAttempts - 1))
      && (from <= bucket.windowStart && bucket.updatedAt < from + policy.window ==>
        count <= policy.maxAttempts - 2 + bucket.attempts))
  }

  /** One more failure keeps the bound, if it is not blocked in the interval. */
  lemma StepKeepsBound(count: nat, table: Table, call: Call, from: int, policy: Policy)
    requires WithinBound(count, table, call.key, from, policy) && policy.maxAttempts >= 2
    requires call.key in table ==> HasShape(table[call.key], call.now, policy)
    requires call.now < from ==> count == 0
    requires from <= call.now < from + policy.window ==> NextBucket(table, call, policy).blockedUntil.None?
    ensures WithinBound(count + if from <= call.now < from + policy.window then 1 else 0,
                        Record(table, call, policy), call.key, from, policy)
  {
  }

  /** The inductive form of the bound. */
  lemma {:induction false} BoundInvariant(calls: seq<Call>, key: string, from: int, policy: Policy)
    requires NonDecreasing(calls) && Unblocked(calls, key, from, policy) && policy.maxAttempts >= 2
    ensures WithinBound(FailuresIn(calls, key, from, from + policy.window), Run(calls, policy), key, from, policy)
  {
    if calls != [] {
      var n := |calls| - 1;
      var before, last := calls[..n], calls[n];
      PrefixKeepsHistory(calls, key, from, policy);
      BoundInvariant(before, key, from, policy);
      if last.key == key {
        if key in Run(before, policy) {
          BucketShape(before, key, policy);
        }
        if last.now < from {
          NoFailures(before, key, from, from + policy.window);
        }
        assert calls[..n + 1] == calls;
        assert from <= last.now < from + policy.window ==> !ReturnsBlocked(calls, n, policy);
        StepKeepsBound(FailuresIn(before, key, from, from + policy.window), Run(before, policy), last, from, policy);
      }
    }
  }

  /** With a limit of one or less every failure blocks. */
  lemma EveryFailureBlocks(calls: seq<Call>, key: string, from: int, policy: Policy)
    requires NonDecreasing(calls) && Unblocked(calls, key, from, policy) && policy.maxAttempts <= 1
    ensures FailuresIn(calls, key, from, from + policy.window) == 0
  {
    forall i | 0 <= i < |calls| && calls[i].key == key
      ensures !(from <= calls[i].now < from + policy.window)
    {
      BucketTellsHistory(calls[..i + 1], key, policy);
      assert calls[..i + 1][i] == calls[i];
      BucketShape(calls[..i + 1], key, policy);
      assert ReturnsBlocked(calls, i, policy);
    }
    NoFailures(calls, key, from, from + policy.window);
  }

  /** A window of one tick holds the failures of one instant. */
  lemma {:induction false} OneTick(calls: seq<Call>, key: string, from: int, policy: Policy)
    requires NonDecreasing(calls) && Unblocked(calls, key, from, policy) && policy.maxAttempts >= 2 && policy.window == 1
    ensures FailuresIn(calls, key, from, from + 1) <= policy.maxAttempts - 1
  {
    if calls != [] {
      var n := |calls| - 1;
      if calls[n].key == key && calls[n].now == from {
        UpdatedLast(calls, key, policy);
        AttemptsCountTheWindow(calls, key, policy);
        BucketShape(calls, key, policy);
        assert calls[..n + 1] == calls;
        assert !ReturnsBlocked(calls, n, policy);
      } else {
        PrefixKeepsHistory(calls, key, from, policy);
        OneTick(calls[..n], key, from, policy);
      }
    }
  }

  /** How many failures an interval one window long can hold unblocked. */
  function Capacity(policy: Policy): nat {
    if policy.maxAttempts <= 1 || policy.window <= 0 then 0
    else if policy.window == 1 then policy.maxAttempts - 1
    else 2 * policy.maxAttempts - 3
  }

  /** For every policy: in any interval one window long in which no call came back
      blocked, at most 2 * maxAttempts - 3 failures were recorded; fewer, if the
      limit is below two or the window is a single tick of the clock. */
  lemma SlidingWindowBound(calls: seq<Call>, key: string, from: int, policy: Policy)
    requires NonDecreasing(calls) && Unblocked(calls, key, from, policy)
    ensures FailuresIn(calls, key, from, from + policy.window) <= Capacity(policy)
    ensures policy.maxAttempts >= 2 ==> Capacity(policy) <= 2 * policy.maxAttempts - 3
  {
    if policy.maxAttempts <= 1 {
      EveryFailureBlocks(calls, key, from, policy);
    } else if policy.window <= 0 {
      NoFailures(calls, key, from, from + policy.window);
    } else if policy.window == 1 {
      OneTick(calls, key, from, policy);
    } else {
      BoundInvariant(calls, key, from, policy);
    }
  }

  /** `count` failures of `key` at one instant. */
  function Repeated(key: string, now: int, count: nat): (calls: seq<Call>)
    ensures |calls| == count && forall i :: 0 <= i < count ==> calls[i] == Call(key, "", now)
  {
    seq(count, _ => Call(key, "", now))
  }

  /** One failure opens a window, as many as stay under the limit follow just
      after, and as many again open the next window as early as possible. */
  function Burst(key: string, limit: nat, window: int): seq<Call>
    requires limit >= 2
  {
    Repeated(key, 0, 1) + Repeated(key, 1, limit - 2) + Repeated(key, window, limit - 1)
  }

  /** The bucket and the count along the burst. */
  lemma {:induction false} BurstPrefix(key: string, policy: Policy, n: nat)
    requires policy.maxAttempts >= 2 && policy.window >= 2
    requires n <= 2 * policy.maxAttempts - 2
    ensures var calls := Burst(key, policy.maxAttempts, policy.window)[..n];
      && FailuresIn(calls, key, 1, 1 + policy.window) == (if n == 0 then 0 else n - 1)
      && (n == 0 ==> Run(calls, policy) == map[])
      && (n > 0 ==>
        && key in Run(calls, policy)
        && var bucket := Run(calls, policy)[key];
        && bucket.blockedUntil == None
        && bucket.windowStart == (if n < policy.maxAttempts then 0 else policy.window)
        && bucket.attempts == (if n < policy.maxAttempts then n else n - policy.maxAttempts + 1))
  {
    if n > 0 {
      var calls := Burst(key, policy.maxAttempts, policy.window);
      BurstPrefix(key, policy, n - 1);
      assert calls[..n][..n - 1] == calls[..n - 1];
      assert calls[n - 1] == Call(key, "", if n == 1 then 0 else if n < policy.maxAttempts then 1 else policy.window);
    }
  }

  lemma {:induction false} InstantPrefix(key: string, policy: Policy, n: nat)
    requires policy.maxAttempts >= 2 && policy.window == 1 && n <= policy.maxAttempts - 1
    ensures var calls := Repeated(key, 0, policy.maxAttempts - 1)[..n];
      && FailuresIn(calls, key, 0, 1) == n
      && (n == 0 ==> Run(calls, policy) == map[])
      && (n > 0 ==> key in Run(calls, policy) && Run(calls, policy)[key] == Bucket(key, "", n, 0, None, 0))
  {
    if n > 0 {
      var calls := Repeated(key, 0, policy.maxAttempts - 1);
      InstantPrefix(key, policy, n - 1);
      assert calls[..n][..n - 1] == calls[..n - 1];
    }
  }

  ghost predicate Fills(calls: seq<Call>, key: string, from: int, policy: Policy) {
    && NonDecreasing(calls) && Unblocked(calls, key, from, policy)
    && FailuresIn(calls, key, from, from + policy.window) == Capacity(policy)
  }

  lemma InstantFills(key: string, policy: Policy)
    requires policy.maxAttempts >= 2 && policy.window == 1
    ensures Fills(Repeated(key, 0, policy.maxAttempts - 1), key, 0, policy)
  {
    var calls := Repeated(key, 0, policy.maxAttempts - 1);
    forall i | 0 <= i < |calls| ensures !ReturnsBlocked(calls, i, policy) {
      InstantPrefix(key, policy, i + 1);
    }
    InstantPrefix(key, policy, |calls|);
    assert calls[..|calls|] == calls;
  }

  lemma BurstInOrder(key: string, policy: Policy)
    requires policy.maxAttempts >= 2 && policy.window >= 2
    ensures NonDecreasing(Burst(key, policy.maxAttempts, policy.window))
  {
  }

  lemma BurstFills(key: string, policy: Policy)
    requires policy.maxAttempts >= 2 && policy.window >= 2
    ensures Fills(Burst(key, policy.maxAttempts, policy.window), key, 1, policy)
  {
    var calls := Burst(key, policy.maxAttempts, policy.window);
    BurstInOrder(key, policy);
    forall i | 0 <= i < |calls| ensures !ReturnsBlocked(calls, i, policy) {
      BurstPrefix(key, policy, i + 1);
    }
    BurstPrefix(key, policy, |calls|);
    assert calls[..|calls|] == calls;
    assert Unblocked(calls, key, 1, policy);
  }

  /** The bound is attained, whatever the policy. */
  lemma SlidingWindowBoundIsTight(key: string, policy: Policy)
    ensures exists calls, from :: Fills(calls, key, from, policy)
  {
    if Capacity(policy) == 0 {
      assert Fills([], key, 0, policy);
    } else if policy.window == 1 {
      InstantFills(key, policy);
    } else {
      BurstFills(key, policy);
    }
  }
}
