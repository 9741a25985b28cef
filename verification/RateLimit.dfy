/**
 RateLimitFilter: a sliding window of accepted request times per key; a request that finds the
 window full is refused with HTTP 429 (section 4 of RFC 6585).

 The clock is read before the lock is taken, so calls need not take the lock in the order of their
 times. What follows is about all orders; how late a key's calls are decides what is guaranteed.
*/
module RateLimit {
  datatype Call = Call(key: string, time: int)

  /** Calls in the order in which they took the lock. */
  datatype Log = Start | Then(before: Log, last: Call)

  // ---- Counting calls ----

  /** How many of the calls are for this key and not older than `from`. */
  function CountSince(log: Log, key: string, from: int): nat {
    match log
    case Start => 0
    case Then(before, last) => CountSince(before, key, from) + if last.key == key && last.time >= from then 1 else 0
  }

  function CountBetween(log: Log, key: string, lo: int, hi: int): nat {
    match log
    case Start => 0
    case Then(before, last) =>
      CountBetween(before, key, lo, hi) + if last.key == key && lo <= last.time <= hi then 1 else 0
  }

  lemma {:induction false} BetweenAtMostSince(log: Log, key: string, lo: int, hi: int)
    ensures CountBetween(log, key, lo, hi) <= CountSince(log, key, lo)
  {
    if log.Start? {
    } else {
      BetweenAtMostSince(log.before, key, lo, hi);
    }
  }

  function OfKey(log: Log, key: string): Log {
    match log
    case Start => Start
    case Then(before, last) => if last.key == key then Then(OfKey(before, key), last) else OfKey(before, key)
  }

  // ---- What the filter does to a log of calls ----

  /** What popping from the front while older than the cutoff leaves. */
  function Trim(times: seq<int>, cutoff: int): seq<int> {
    if times != [] && times[0] < cutoff then Trim(times[1..], cutoff) else times
  }

  /** The deque of a key after the calls. */
  function DequeAfter(log: Log, key: string, maxReqs: int, window: int): seq<int> {
    match log
    case Start => []
    case Then(before, last) =>
      var times := DequeAfter(before, key, maxReqs, window);
      if last.key != key then times
      else
        var trimmed := Trim(times, last.time - window);
        if |trimmed| < maxReqs then trimmed + [last.time] else trimmed
  }

  /** Whether the call after the log passes. */
  predicate Passes(log: Log, call: Call, maxReqs: int, window: int) {
    |Trim(DequeAfter(log, call.key, maxReqs, window), call.time - window)| < maxReqs
  }

  /** The calls that pass. */
  function Passed(log: Log, maxReqs: int, window: int): Log {
    match log
    case Start => Start
    case Then(before, last) =>
      if Passes(before, last, maxReqs, window) then Then(Passed(before, maxReqs, window), last)
      else Passed(before, maxReqs, window)
  }

  /** Keys do not interfere: what passes of a key depends on that key's calls alone, whatever the order. */
  lemma {:induction false} KeysIndependent(log: Log, maxReqs: int, window: int, key: string)
    ensures OfKey(Passed(log, maxReqs, window), key) == Passed(OfKey(log, key), maxReqs, window)
    ensures DequeAfter(OfKey(log, key), key, maxReqs, window) == DequeAfter(log, key, maxReqs, window)
  {
    if log.Start? {
    } else {
      KeysIndependent(log.before, maxReqs, window, key);
    }
  }

  // ---- Lateness ----

  predicate NoneAfter(log: Log, key: string, time: int) {
    match log
    case Start => true
    case Then(before, last) => NoneAfter(before, key, time) && (last.key == key ==> last.time <= time)
  }

  /** No call of the key comes more than `late` behind an earlier call of that key. */
  predicate LateAtMost(log: Log, key: string, late: int) {
    match log
    case Start => true
    case Then(before, last) =>
      LateAtMost(before, key, late) && (last.key == key ==> NoneAfter(before, key, last.time + late))
  }

  /** The calls of the key come in the order of their times. */
  predicate InOrder(log: Log, key: string) {
    LateAtMost(log, key, 0)
  }

  // ---- The window guarantee ----

  /** How many of the times are not older than `from`. */
  function CountFrom(times: seq<int>, from: int): nat {
    if times == [] then 0 else CountFrom(times[..|times| - 1], from) + if times[|times| - 1] >= from then 1 else 0
  }

  lemma CountFromPush(times: seq<int>, t: int, from: int)
    ensures CountFrom(times + [t], from) == CountFrom(times, from) + if t >= from then 1 else 0
  {
    assert (times + [t])[..|times + [t]| - 1] == times;
  }

  lemma {:induction false} CountFromDrop(times: seq<int>, from: int)
    requires times != [] && times[0] < from
    ensures CountFrom(times[1..], from) == CountFrom(times, from)
    decreases |times|
  {
    var n := |times|;
    if n == 1 {
    } else {
      assert times[..n - 1][1..] == times[1..][..n - 2];
      CountFromDrop(times[..n - 1], from);
    }
  }

  /** Trimming up to a cutoff loses nothing that is not older than it. */
  lemma {:induction false} TrimCounts(times: seq<int>, cutoff: int, from: int)
    requires cutoff <= from
    ensures CountFrom(Trim(times, cutoff), from) == CountFrom(times, from) <= |Trim(times, cutoff)|
    decreases |times|
  {
    if times == [] || times[0] >= cutoff {
      CountFromSize(times, from);
    } else {
      TrimCounts(times[1..], cutoff, from);
      CountFromDrop(times, from);
    }
  }

  lemma {:induction false} CountFromSize(times: seq<int>, from: int)
    ensures CountFrom(times, from) <= |times|
    decreases |times|
  {
    if times == [] {
    } else {
      CountFromSize(times[..|times| - 1], from);
    }
  }

  /** From any time on that no call has trimmed beyond, the deque holds exactly the passes. */
  lemma {:induction false} DequeHolds(log: Log, key: string, maxReqs: int, window: int, from: int)
    requires NoneAfter(log, key, from + window)
    ensures CountFrom(DequeAfter(log, key, maxReqs, window), from) == CountSince(Passed(log, maxReqs, window), key, from)
  {
    if log.Start? {
    } else {
      DequeHolds(log.before, key, maxReqs, window, from);
      if log.last.key == key {
        var times := DequeAfter(log.before, key, maxReqs, window);
        TrimCounts(times, log.last.time - window, from);
        CountFromPush(Trim(times, log.last.time - window), log.last.time, from);
      }
    }
  }

  lemma {:induction false} NoneAfterLater(log: Log, key: string, t: int, t': int)
    requires NoneAfter(log, key, t) && t <= t'
    ensures NoneAfter(log, key, t')
  {
    if log.Start? {
    } else {
      NoneAfterLater(log.before, key, t, t');
    }
  }

  /**
   When a key's calls are late by at most `late`, no window that much shorter than the configured one,
   both ends included and wherever it lies, holds more than `maxReqs` passes of the key.
   */
  lemma {:induction false} WindowBound(log: Log, maxReqs: int, window: int, key: string, late: nat, lo: int, hi: int)
    requires LateAtMost(log, key, late) && hi - lo <= window - late
    ensures CountBetween(Passed(log, maxReqs, window), key, lo, hi) <= if maxReqs > 0 then maxReqs else 0
  {
    if log.Start? {
    } else {
      WindowBound(log.before, maxReqs, window, key, late, lo, hi);
      var last := log.last;
      if last.key == key && lo <= last.time <= hi {
        NoneAfterLater(log.before, key, last.time + late, lo + window);
        DequeHolds(log.before, key, maxReqs, window, lo);
        TrimCounts(DequeAfter(log.before, key, maxReqs, window), last.time - window, lo);
        BetweenAtMostSince(Passed(log.before, maxReqs, window), key, lo, hi);
      }
    }
  }

  // ---- How long a window is guaranteed, exactly ----

  /** Every window of this length holds at most `maxReqs` passes, over all logs of the given lateness. */
  ghost predicate Guaranteed(maxReqs: int, window: int, late: nat, length: int) {
    forall log, key, lo, hi :: LateAtMost(log, key, late) && hi - lo <= length ==>
      CountBetween(Passed(log, maxReqs, window), key, lo, hi) <= maxReqs
  }

  /** `n` calls at time 0. */
  function Burst(n: nat): Log {
    if n == 0 then Start else Then(Burst(n - 1), Call("k", 0))
  }

  function Zeros(n: nat): seq<int> {
    seq(n, _ => 0)
  }

  lemma {:induction false} BurstPasses(n: nat, maxReqs: int, window: int, hi: int)
    requires n <= maxReqs && window >= 0 && hi >= 0
    ensures Passed(Burst(n), maxReqs, window) == Burst(n) && CountBetween(Burst(n), "k", 0, hi) == n
    ensures DequeAfter(Burst(n), "k", maxReqs, window) == Zeros(n)
    ensures LateAtMost(Burst(n), "k", 0) && NoneAfter(Burst(n), "k", 0)
  {
    if n == 0 {
    } else {
      BurstPasses(n - 1, maxReqs, window, hi);
      assert Trim(Zeros(n - 1), -window) == Zeros(n - 1);
      assert Zeros(n - 1) + [0] == Zeros(n);
    }
  }

  lemma {:induction false} ZerosTrimmed(n: nat, cutoff: int)
    requires cutoff > 0
    ensures Trim(Zeros(n), cutoff) == []
  {
    if n == 0 {
    } else {
      assert Zeros(n)[1..] == Zeros(n - 1);
      ZerosTrimmed(n - 1, cutoff);
    }
  }

  /** A full window at 0, a call that empties the deque, and one whose clock was read `late` before that. */
  function LateCall(maxReqs: nat, window: nat, late: nat): Log {
    var t := if late > window then late else window + 1;
    Then(Then(Burst(maxReqs), Call("k", t)), Call("k", t - late))
  }

  /** All of them pass, and so one too many between 0 and the last. */
  lemma LateCallExceeds(maxReqs: nat, window: nat, late: nat)
    requires maxReqs >= 2
    ensures var t := if late > window then late else window + 1;
            && LateAtMost(LateCall(maxReqs, window, late), "k", late)
            && CountBetween(Passed(LateCall(maxReqs, window, late), maxReqs, window), "k", 0, t - late) > maxReqs
  {
    var t := if late > window then late else window + 1;
    var first := Then(Burst(maxReqs), Call("k", t));
    BurstPasses(maxReqs, maxReqs, window, t - late);
    BurstInOrder(maxReqs, late);
    ZerosTrimmed(maxReqs, t - window);
    assert DequeAfter(first, "k", maxReqs, window) == [t];
    NoneAfterLater(Burst(maxReqs), "k", 0, t);
    NoneAfterLater(Burst(maxReqs), "k", 0, t + late);
    assert Passes(first, Call("k", t - late), maxReqs, window);
  }

  lemma {:induction false} BurstInOrder(n: nat, late: nat)
    ensures LateAtMost(Burst(n), "k", late) && NoneAfter(Burst(n), "k", late)
  {
    if n == 0 {
    } else {
      BurstInOrder(n - 1, late);
    }
  }

  /** So a limit of two or more guarantees exactly the windows that are shorter by the lateness. */
  lemma GuaranteedIff(maxReqs: int, window: nat, late: nat, length: nat)
    requires maxReqs >= 2
    ensures Guaranteed(maxReqs, window, late, length) <==> length <= window - late
  {
    if length <= window - late {
      forall log, key, lo, hi | LateAtMost(log, key, late) && hi - lo <= length
        ensures CountBetween(Passed(log, maxReqs, window), key, lo, hi) <= maxReqs
      {
        WindowBound(log, maxReqs, window, key, late, lo, hi);
      }
    } else {
      LateCallExceeds(maxReqs, window, late);
    }
  }

  /** With a limit of one the order makes no difference: passes are always more than a window apart. */
  lemma {:induction false} OneAtATime(log: Log, window: nat, key: string, lo: int, hi: int)
    requires hi - lo <= window
    ensures CountBetween(Passed(log, 1, window), key, lo, hi) <= 1
  {
    if log.Start? {
    } else {
      OneAtATime(log.before, window, key, lo, hi);
      if log.last.key == key && lo <= log.last.time <= hi && Passes(log.before, log.last, 1, window) {
        LatestPass(log.before, window, key);
        TrimShort(DequeAfter(log.before, key, 1, window), log.last.time - window);
        NonePassedSince(log.before, window, key, lo);
        BetweenAtMostSince(Passed(log.before, 1, window), key, lo, hi);
      }
    }
  }

  lemma {:induction false} LatestPass(log: Log, window: nat, key: string)
    ensures |DequeAfter(log, key, 1, window)| <= 1
  {
    if log.Start? {
    } else {
      LatestPass(log.before, window, key);
      TrimShort(DequeAfter(log.before, key, 1, window), log.last.time - window);
    }
  }

  lemma TrimShort(times: seq<int>, cutoff: int)
    requires |times| <= 1
    ensures Trim(times, cutoff) == if times != [] && times[0] < cutoff then [] else times
  {
    if times != [] && times[0] < cutoff {
      assert Trim(times[1..], cutoff) == [];
    }
  }

  lemma {:induction false} NonePassedSince(log: Log, window: nat, key: string, from: int)
    requires var times := DequeAfter(log, key, 1, window); times == [] || times[0] < from
    ensures CountSince(Passed(log, 1, window), key, from) == 0
  {
    if log.Start? {
    } else {
      LatestPass(log.before, window, key);
      TrimShort(DequeAfter(log.before, key, 1, window), log.last.time - window);
      NonePassedSince(log.before, window, key, from);
    }
  }

  // ---- Calls in order ----

  /** The reference: a call passes iff the window that ends with it holds fewer than `maxReqs` passes. */
  function Accepted(log: Log, maxReqs: int, window: int): Log {
    match log
    case Start => Start
    case Then(before, last) =>
      var accepted := Accepted(before, maxReqs, window);
      if CountSince(accepted, last.key, last.time - window) < maxReqs then Then(accepted, last) else accepted
  }

  predicate Sorted(times: seq<int>) {
    forall i, j :: 0 <= i < j < |times| ==> times[i] <= times[j]
  }

  lemma {:induction false} TrimSorted(times: seq<int>, cutoff: int)
    requires Sorted(times)
    ensures Sorted(Trim(times, cutoff)) && |Trim(times, cutoff)| == CountFrom(times, cutoff)
    ensures forall t :: t in Trim(times, cutoff) ==> t in times
    decreases |times|
  {
    if times == [] {
    } else if times[0] < cutoff {
      TrimSorted(times[1..], cutoff);
      CountFromDrop(times, cutoff);
    } else {
      AllCounted(times, cutoff);
    }
  }

  lemma {:induction false} AllCounted(times: seq<int>, from: int)
    requires forall i :: 0 <= i < |times| ==> times[i] >= from
    ensures CountFrom(times, from) == |times|
    decreases |times|
  {
    if times == [] {
    } else {
      AllCounted(times[..|times| - 1], from);
    }
  }

  lemma {:induction false} DequeSorted(log: Log, key: string, maxReqs: int, window: int, now: int)
    requires InOrder(log, key) && NoneAfter(log, key, now)
    ensures var times := DequeAfter(log, key, maxReqs, window);
            Sorted(times) && forall t :: t in times ==> t <= now
  {
    if log.Start? {
    } else {
      var last, times := log.last, DequeAfter(log.before, key, maxReqs, window);
      DequeSorted(log.before, key, maxReqs, window, if last.key == key then last.time else now);
      if last.key == key {
        TrimSorted(times, last.time - window);
        var trimmed := Trim(times, last.time - window);
        forall i | 0 <= i < |trimmed| ensures trimmed[i] <= last.time { assert trimmed[i] in trimmed; }
      }
    }
  }

  /** While its calls come in order a call passes iff the closed window that ends now is not full of passes. */
  lemma PassesIff(log: Log, call: Call, maxReqs: int, window: int)
    requires InOrder(Then(log, call), call.key)
    ensures Passes(log, call, maxReqs, window) <==>
            CountSince(Passed(log, maxReqs, window), call.key, call.time - window) < maxReqs
  {
    DequeSorted(log, call.key, maxReqs, window, call.time);
    TrimSorted(DequeAfter(log, call.key, maxReqs, window), call.time - window);
    DequeHolds(log, call.key, maxReqs, window, call.time - window);
  }

  /** A key whose calls come in order is treated as the reference says, whatever the others do. */
  lemma {:induction false} PassedIsAccepted(log: Log, key: string, maxReqs: int, window: int)
    requires InOrder(log, key)
    ensures OfKey(Passed(log, maxReqs, window), key) == Accepted(OfKey(log, key), maxReqs, window)
  {
    if log.Start? {
    } else {
      PassedIsAccepted(log.before, key, maxReqs, window);
      if log.last.key == key {
        PassesIff(log.before, log.last, maxReqs, window);
        CountOfKey(Passed(log.before, maxReqs, window), key, log.last.time - window);
      }
    }
  }

  lemma {:induction false} CountOfKey(log: Log, key: string, from: int)
    ensures CountSince(OfKey(log, key), key, from) == CountSince(log, key, from)
  {
    if log.Start? {
    } else {
      CountOfKey(log.before, key, from);
    }
  }

  // ---- The map of deques ----

  /** The deque of a key; `operator[]` makes an empty one for a new key. */
  function DequeOf(windows: map<string, seq<int>>, key: string): seq<int> {
    if key in windows then windows[key] else []
  }

  ghost predicate NoneEmpty(windows: map<string, seq<int>>) {
    forall key :: key in windows ==> windows[key] != []
  }

  /** The map holds the deque of every key. */
  ghost predicate ValidState(windows: map<string, seq<int>>, log: Log, maxReqs: int, window: int) {
    && (forall key :: DequeOf(windows, key) == DequeAfter(log, key, maxReqs, window))
    && (maxReqs > 0 ==> NoneEmpty(windows))
  }

  // ---- The filter ----

  const COUNTER_RANGE: nat := 0x1_0000_0000_0000_0000

  class Filter {
    const maxReqs: int
    const window: int
    var windows: map<string, seq<int>>
    var callCount: nat      // 64 bits, wraps
    ghost var log: Log      // every call so far

    ghost predicate Valid()
      reads this
    {
      ValidState(windows, log, maxReqs, window)
    }

    constructor (maxReqs: int, window: int)
      ensures Valid() && log == Start && this.maxReqs == maxReqs && this.window == window
    {
      this.maxReqs, this.window := maxReqs, window;
      windows, callCount, log := map[], 0, Start;
    }

    /** Erases the keys whose deque is empty. */
    method Sweep()
      modifies this`windows
      ensures windows == map key | key in old(windows) && old(windows)[key] != [] :: old(windows)[key]
    {
      var todo := windows.Keys;
      while todo != {}
        invariant todo <= windows.Keys <= old(windows).Keys
        invariant forall key :: key in windows ==> windows[key] == old(windows)[key]
        invariant forall key :: key in old(windows) ==>
                    (key in windows <==> key in todo || old(windows)[key] != [])
        decreases todo
      {
        var key :| key in todo;
        if windows[key] == [] {
          windows := windows - {key};
        }
        todo := todo - {key};
      }
    }

    /** Every hundredth accepted request sweeps; with no empty deque that erases nothing. */
    method CountAndSweep()
      requires NoneEmpty(windows)
      modifies this`windows, this`callCount
      ensures windows == old(windows)
      ensures callCount == (old(callCount) + 1) % COUNTER_RANGE
    {
      callCount := (callCount + 1) % COUNTER_RANGE;
      if callCount % 100 == 0 {
        Sweep();
      }
    }

    /** Pops the front of the deque while it is older than the cutoff. */
    static method PopOld(times: seq<int>, cutoff: int) returns (dq: seq<int>)
      ensures dq == Trim(times, cutoff)
    {
      dq := times;
      while dq != [] && dq[0] < cutoff
        invariant Trim(dq, cutoff) == Trim(times, cutoff)
        decreases |dq|
      {
        dq := dq[1..];
      }
    }

    /**
     One request, with the clock read before the lock. Other keys' deques stay as they are, and no key
     is ever forgotten: whenever the sweep runs, every deque is non-empty.
     */
    method DoFilter(key: string, now: int) returns (passed: bool)
      requires Valid()
      modifies this`windows, this`callCount, this`log
      ensures Valid() && log == Then(old(log), Call(key, now))
      ensures passed <==> Passes(old(log), Call(key, now), maxReqs, window)
      ensures InOrder(log, key) ==>
                (passed <==> CountSince(Passed(old(log), maxReqs, window), key, now - window) < maxReqs)
      ensures windows == old(windows)[key := DequeAfter(log, key, maxReqs, window)]
    {
      var call := Call(key, now);
      var dq := PopOld(DequeOf(windows, key), now - window);
      passed := |dq| < maxReqs;
      if InOrder(Then(log, call), key) {
        PassesIff(log, call, maxReqs, window);
      }
      if passed {
        dq := dq + [now];
      }
      windows := windows[key := dq];
      log := Then(log, call);
      if passed {
        CountAndSweep();
      }
    }
  }
}
