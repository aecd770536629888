/** Requests counted in fixed windows, in a table or in memory. */
module RateLimiter {
  import opened Wrappers

  const SWEEP_INTERVAL_MS := 300_000
  const U32_MAX: nat := 0xffff_ffff

  type Key = string

  datatype Counter = Counter(points: int, expire: int)

  type Counters = map<Key, Counter>

  datatype Response = Response(limit: nat, consumed: nat, remaining: nat, availableIn: nat)

  // ----- What one call does to the counters

  /** The counter of a key, when its window is running. */
  function Live(counters: Counters, key: Key, now: int): Option<Counter> {
    if key in counters && counters[key].expire > now then Some(counters[key]) else None
  }

  function AtLeastZero(points: int): int {
    if points < 0 then 0 else points
  }

  /** The counter once the points are added: a new window starts when none is running. */
  function Added(running: Option<Counter>, points: int, now: int, window: nat): Counter {
    match running
    case None => Counter(AtLeastZero(points), now + window)
    case Some(c) => Counter(AtLeastZero(c.points + points), c.expire)
  }

  function Swept(counters: Counters, now: int): Counters {
    map key | key in counters && counters[key].expire > now :: counters[key]
  }

  datatype Call = Count(key: Key, points: int, window: nat) | Look(key: Key) | Forget(key: Key)

  /** A call with the time it reads, and whether expired counters are cleared at that time. */
  datatype Timed = Timed(call: Call, now: int, sweeps: bool)

  function After(counters: Counters, t: Timed): Counters {
    var rest := if t.sweeps then Swept(counters, t.now) else counters;
    match t.call
    case Count(key, points, window) => rest[key := Added(Live(counters, key, t.now), points, t.now, window)]
    case Look(_) => rest
    case Forget(key) => rest - {key}
  }

  function Answer(counters: Counters, t: Timed): Option<Counter> {
    match t.call
    case Count(key, points, window) => Some(Added(Live(counters, key, t.now), points, t.now, window))
    case Look(key) => Live(counters, key, t.now)
    case Forget(_) => None
  }

  /** `response`. */
  function ResponseTo(requests: nat, c: Counter, now: int): Response {
    var consumed: nat := if c.points < 0 then 0 else if c.points > U32_MAX then U32_MAX else c.points;
    Response(requests, consumed,
             if requests >= consumed then requests - consumed else 0,
             (if c.expire > now then c.expire - now + 999 else 0) / 1000)
  }

  /** The seconds of a response are the fewest after which the window is over. */
  lemma {:induction false} WaitingEndsTheWindow(counters: Counters, key: Key, requests: nat, now: int, wait: nat)
    requires Live(counters, key, now).Some?
    ensures Live(counters, key, now + 1000 * wait) == None <==>
            wait >= ResponseTo(requests, counters[key], now).availableIn
  {
  }

  // ----- The limiter, over either store

  class Limiter {
    const inMemory: bool
    const requests: nat
    const window: nat
    var counters: Counters
    var sweptAt: int

    constructor (inMemory: bool, requests: nat, window: nat)
      ensures this.inMemory == inMemory && this.requests == requests && this.window == window
      ensures counters == map[] && sweptAt == 0
    {
      this.inMemory, this.requests, this.window := inMemory, requests, window;
      counters, sweptAt := map[], 0;
    }

    predicate SweepIsDue(now: int)
      reads this
    {
      now - sweptAt > SWEEP_INTERVAL_MS
    }

    method Get(key: Key, now: int) returns (r: Option<Response>)
      ensures r == match Answer(counters, Timed(Look(key), now, false))
                   case None => None
                   case Some(c) => Some(ResponseTo(requests, c, now))
    {
      if key in counters && counters[key].expire > now {
        r := Some(ResponseTo(requests, counters[key], now));
      } else {
        r := None;
      }
    }

    /** `add`. In the table a sweep that fails is only reported: `deletes` says whether it went through. */
    method Add(key: Key, points: int, now: int, deletes: bool) returns (r: Response)
      modifies this
      ensures var t := Timed(Count(key, points, window), now, old(SweepIsDue(now)) && (inMemory || deletes));
              && counters == After(old(counters), t)
              && r == ResponseTo(requests, Answer(old(counters), t).value, now)
      ensures sweptAt == if old(SweepIsDue(now)) then now else old(sweptAt)
    {
      hide ResponseTo;
      var windowEnd := now + window;
      var c: Counter;
      if inMemory {
        if now - sweptAt > SWEEP_INTERVAL_MS {
          counters := map k | k in counters && counters[k].expire > now :: counters[k];
          sweptAt := now;
        }
        c := if key in counters then counters[key] else Counter(0, windowEnd);
        if c.expire <= now {
          c := Counter(0, windowEnd);
        }
        c := Counter(if c.points + points < 0 then 0 else c.points + points, c.expire);
        counters := counters[key := c];
      } else {
        if now - sweptAt > SWEEP_INTERVAL_MS {
          sweptAt := now;
          if deletes {
            counters := map k | k in counters && !(counters[k].expire <= now) :: counters[k];
          }
        }
        var alone := if points < 0 then 0 else points;
        if key !in counters {
          c := Counter(alone, windowEnd);
        } else {
          var row := counters[key];
          c := Counter(if row.expire <= now then alone else if row.points + points < 0 then 0 else row.points + points,
                       if row.expire <= now then windowEnd else row.expire);
        }
        counters := counters[key := c];
      }
      r := ResponseTo(requests, c, now);
    }

    /** `consume`: the request is counted also when it is refused. */
    method Consume(key: Key, now: int, deletes: bool) returns (granted: bool)
      modifies this
      ensures var t := Timed(Count(key, 1, window), now, old(SweepIsDue(now)) && (inMemory || deletes));
              counters == After(old(counters), t) && granted == Grants(old(counters), t, requests)
    {
      var r := Add(key, 1, now, deletes);
      granted := r.consumed <= requests;
    }

    /** `attempt`: a key already over its allowance is refused without being counted. */
    method Attempt(key: Key, checked: int, now: int, deletes: bool) returns (granted: bool)
      modifies this
      ensures var t := Timed(Count(key, 1, window), now, old(SweepIsDue(now)) && (inMemory || deletes));
              if old(IsOver(counters, key, checked, requests)) then !granted && counters == old(counters)
              else counters == After(old(counters), t) && granted == Grants(old(counters), t, requests)
    {
      var standing := Get(key, checked);
      if standing.Some? && standing.value.consumed > standing.value.limit {
        return false;
      }
      granted := Consume(key, now, deletes);
    }

    /** `decrement`: nothing is given back when no window is running. */
    method Decrement(key: Key, checked: int, now: int, deletes: bool)
      modifies this
      ensures var t := Timed(Count(key, -1, window), now, old(SweepIsDue(now)) && (inMemory || deletes));
              counters == if Live(old(counters), key, checked).Some? then After(old(counters), t) else old(counters)
    {
      var standing := Get(key, checked);
      if standing.Some? {
        var _ := Add(key, -1, now, deletes);
      }
    }

    /** `delete`. */
    method Delete(key: Key, now: int)
      modifies this
      ensures counters == After(old(counters), Timed(Forget(key), now, false))
    {
      counters := counters - {key};
    }
  }

  // ----- Runs

  function Answers(counters: Counters, calls: seq<Timed>): seq<Option<Counter>>
    decreases |calls|
  {
    if calls == [] then [] else [Answer(counters, calls[0])] + Answers(After(counters, calls[0]), calls[1..])
  }

  /** The clock never goes back. */
  predicate InOrder(calls: seq<Timed>, from: int) {
    calls == [] || (from <= calls[0].now && InOrder(calls[1..], calls[0].now))
  }

  /** The same calls at the same times; the counters may be cleared at others. */
  predicate SameButForSweeps(calls: seq<Timed>, others: seq<Timed>) {
    |calls| == |others| && forall k :: 0 <= k < |calls| ==>
      calls[k].call == others[k].call && calls[k].now == others[k].now
  }

  ghost predicate Agree(a: Counters, b: Counters, now: int) {
    forall key :: Live(a, key, now) == Live(b, key, now)
  }

  lemma {:induction false} LiveEarlier(a: Counters, b: Counters, key: Key, now: int, later: int)
    requires now <= later && Live(a, key, now) == Live(b, key, now)
    ensures Live(a, key, later) == Live(b, key, later)
  {
  }

  lemma {:induction false} LiveAfter(counters: Counters, t: Timed, key: Key)
    ensures Live(After(counters, t), key, t.now) ==
            (if t.call.Look? || t.call.key != key then Live(counters, key, t.now)
             else if t.call.Forget? || (t.call.window == 0 && Live(counters, key, t.now) == None) then None
             else Some(Added(Live(counters, key, t.now), t.call.points, t.now, t.call.window)))
  {
  }

  lemma {:induction false} AgreeAfter(a: Counters, b: Counters, t: Timed, u: Timed)
    requires t.call == u.call && t.now == u.now && Agree(a, b, t.now)
    ensures Answer(a, t) == Answer(b, u) && Agree(After(a, t), After(b, u), t.now)
  {
    hide After, Live;
    forall key ensures Live(After(a, t), key, t.now) == Live(After(b, u), key, t.now) {
      LiveAfter(a, t, key);
      LiveAfter(b, u, key);
    }
  }

  /** Clearing expired counters, at whatever times, changes no answer of any run. */
  lemma {:induction false} SweepsChangeNoAnswer(a: Counters, b: Counters, calls: seq<Timed>, others: seq<Timed>,
                                                from: int)
    requires SameButForSweeps(calls, others) && InOrder(calls, from) && Agree(a, b, from)
    ensures Answers(a, calls) == Answers(b, others)
    decreases |calls|
  {
    if calls != [] {
      hide Live, After, Answer;
      var t, u := calls[0], others[0];
      forall key ensures Live(a, key, t.now) == Live(b, key, t.now) {
        LiveEarlier(a, b, key, from, t.now);
      }
      AgreeAfter(a, b, t, u);
      SweepsChangeNoAnswer(After(a, t), After(b, u), calls[1..], others[1..], t.now);
    }
  }

  /** The run of a limiter: only a call that counts clears, when the last time it might have is long enough ago. */
  predicate IsLimiterRun(calls: seq<Timed>, sweptAt: int)
    decreases |calls|
  {
    if calls == [] then true
    else
      var t := calls[0];
      var due := t.call.Count? && t.now - sweptAt > SWEEP_INTERVAL_MS;
      (t.sweeps ==> due) && IsLimiterRun(calls[1..], if due then t.now else sweptAt)
  }

  predicate IsAt(calls: seq<Timed>, times: seq<int>) {
    |calls| == |times| && forall k :: 0 <= k < |calls| ==> calls[k].now == times[k]
  }

  predicate NeverGoesBack(times: seq<int>) {
    forall i, j :: 0 <= i < j < |times| ==> times[i] <= times[j]
  }

  /**
    * Two runs of a limiter at these clock readings, with the same calls from
    * the same state, one of which may not clear.
    */
  ghost predicate IsComparison(times: seq<int>, calls: seq<Timed>, others: seq<Timed>, sweptAt: int) {
    IsAt(calls, times) && SameButForSweeps(calls, others) && IsLimiterRun(calls, sweptAt) &&
      IsLimiterRun(others, sweptAt)
  }

  ghost predicate ShowsNoSweep(times: seq<int>) {
    forall counters, calls, others, sweptAt :: IsComparison(times, calls, others, sweptAt) ==>
      Answers(counters, calls) == Answers(counters, others)
  }

  /** No run of a limiter at these clock readings lets a sweep be seen, if and only if they never go back. */
  lemma {:induction false} SweepsShowWhenTheClockGoesBack(times: seq<int>)
    ensures ShowsNoSweep(times) <==> NeverGoesBack(times)
  {
    hide Answers, IsLimiterRun;
    if NeverGoesBack(times) {
      forall counters, calls, others, sweptAt | IsComparison(times, calls, others, sweptAt)
        ensures Answers(counters, calls) == Answers(counters, others)
      {
        if times != [] {
          SortedIsInOrder(calls, times[0]);
          SweepsChangeNoAnswer(counters, counters, calls, others, times[0]);
        } else {
          assert calls == others;
        }
      }
    } else {
      var i, j :| 0 <= i < j < |times| && times[i] > times[j];
      var counters: Counters := map["a" := Counter(1, times[i])];
      var calls, others := LooksBack(times, i, true), LooksBack(times, i, false);
      LooksBackIsRun(times, i, true, 0);
      LooksBackIsRun(times, i, false, 0);
      assert calls[0..] == calls && others[0..] == others;
      assert IsComparison(times, calls, others, times[i] - SWEEP_INTERVAL_MS - 1);
      LooksBackAnswer(times, i, true, j);
      LooksBackAnswer(times, i, false, j);
    }
  }

  /** One key is looked at all the time, except that another is counted at the `i`th reading of the clock. */
  function LooksBack(times: seq<int>, i: nat, sweeps: bool): (calls: seq<Timed>)
    requires i < |times|
    ensures |calls| == |times|
  {
    seq(|times|, k requires 0 <= k < |times| =>
      Timed(if k == i then Count("b", 1, 1) else Look("a"), times[k], k == i && sweeps))
  }

  lemma {:induction false} LooksBackIsRun(times: seq<int>, i: nat, sweeps: bool, from: nat)
    requires i < |times| && from <= |times|
    ensures from <= i ==> IsLimiterRun(LooksBack(times, i, sweeps)[from..], times[i] - SWEEP_INTERVAL_MS - 1)
    ensures forall sweptAt :: i < from ==> IsLimiterRun(LooksBack(times, i, sweeps)[from..], sweptAt)
    decreases |times| - from
  {
    var calls := LooksBack(times, i, sweeps);
    if from < |times| {
      assert calls[from..][0] == calls[from] && calls[from..][1..] == calls[from + 1..];
      LooksBackIsRun(times, i, sweeps, from + 1);
    }
  }

  /** What is seen of the key at an earlier reading of the clock. */
  lemma {:induction false} LooksBackAnswer(times: seq<int>, i: nat, sweeps: bool, j: nat)
    requires i < j < |times| && times[j] < times[i]
    ensures var counters: Counters := map["a" := Counter(1, times[i])];
            var answers := Answers(counters, LooksBack(times, i, sweeps));
            |answers| == |times| && (answers[j] == None <==> sweeps)
  {
    hide Answers, After;
    var counters: Counters := map["a" := Counter(1, times[i])];
    var calls := LooksBack(times, i, sweeps);
    LooksChangeNothing(counters, calls, i);
    AnswersStep(counters, calls[i..]);
    var next := After(counters, calls[i]);
    assert calls[i..][1..] == calls[i + 1..];
    assert "a" in next <==> !sweeps by { CountsBeside(counters, calls[i]); }
    assert !sweeps ==> next["a"] == Counter(1, times[i]) by { CountsBeside(counters, calls[i]); }
    LooksChangeNothing(next, calls[i + 1..], j - i - 1);
    assert calls[i + 1..][j - i - 1..] == calls[j..];
    AnswersStep(next, calls[j..]);
    var answers := Answers(counters, calls);
    assert answers[j] == answers[i..][1..][j - i - 1..][0];
  }

  lemma {:induction false} CountsBeside(counters: Counters, t: Timed)
    requires counters == map["a" := Counter(1, t.now)] && t.call == Count("b", 1, 1)
    ensures "a" in After(counters, t) <==> !t.sweeps
    ensures !t.sweeps ==> After(counters, t)["a"] == Counter(1, t.now)
  {
    assert "a"[0] != "b"[0];
  }

  lemma {:induction false} AnswersStep(counters: Counters, calls: seq<Timed>)
    requires calls != []
    ensures Answers(counters, calls) == [Answer(counters, calls[0])] + Answers(After(counters, calls[0]), calls[1..])
  {
  }

  lemma {:induction false} LooksChangeNothing(counters: Counters, calls: seq<Timed>, n: nat)
    requires n <= |calls| && forall k :: 0 <= k < n ==> calls[k].call.Look? && !calls[k].sweeps
    ensures |Answers(counters, calls)| == |calls| && Answers(counters, calls)[n..] == Answers(counters, calls[n..])
    decreases |calls|
  {
    if calls != [] {
      var m := if n == 0 then 0 else n - 1;
      LooksChangeNothing(After(counters, calls[0]), calls[1..], m);
      AnswersStep(counters, calls);
      if n == 0 {
        assert calls[0..] == calls;
      } else {
        assert calls[1..][m..] == calls[n..];
        assert Answers(counters, calls)[n..] == Answers(After(counters, calls[0]), calls[1..])[m..];
      }
    }
  }

  /** From a new limiter: a counter that ends at 401000, swept at 800000 and looked for at 400500. */
  lemma {:induction false} SweepIsSeen(key: Key, other: Key) returns (calls: seq<Timed>, others: seq<Timed>)
    requires key != other
    ensures SameButForSweeps(calls, others) && IsLimiterRun(calls, 0) && IsLimiterRun(others, 0)
    ensures Answers(map[], calls) != Answers(map[], others)
  {
    var first, last := Timed(Count(key, 1, 1000), 400_000, false), Timed(Look(key), 400_500, false);
    calls := [first, Timed(Count(other, 1, 1000), 800_000, true), last];
    others := [first, Timed(Count(other, 1, 1000), 800_000, false), last];
    assert calls[1..][1..] == [last] && others[1..][1..] == [last] && [last][1..] == [];
    assert IsLimiterRun([last], 800_000);
    assert IsLimiterRun(calls[1..], 400_000) && IsLimiterRun(others[1..], 400_000);
    ThirdAnswer(map[], calls);
    ThirdAnswer(map[], others);
    var begun := After(map[], first);
    assert begun == map[key := Counter(1, 401_000)];
    assert key !in After(begun, calls[1]) && After(begun, others[1])[key] == Counter(1, 401_000);
  }

  lemma {:induction false} ThirdAnswer(counters: Counters, calls: seq<Timed>)
    requires |calls| == 3
    ensures |Answers(counters, calls)| == 3
    ensures Answers(counters, calls)[2] == Answer(After(After(counters, calls[0]), calls[1]), calls[2])
  {
    var one := After(counters, calls[0]);
    var two := After(one, calls[1]);
    var later, last := calls[1..], calls[2..];
    assert later[1..] == last && last[1..] == [];
    assert Answers(two, last) == [Answer(two, calls[2])] + [];
    assert Answers(one, later) == [Answer(one, calls[1])] + Answers(two, last);
  }

  // ----- How much a key is granted

  predicate Grants(counters: Counters, t: Timed, requests: nat) {
    t.call.Count? && ResponseTo(requests, Answer(counters, t).value, t.now).consumed <= requests
  }

  predicate IsOver(counters: Counters, key: Key, now: int, requests: nat) {
    Live(counters, key, now).Some? && ResponseTo(requests, Live(counters, key, now).value, now).consumed > requests
  }

  /**
    * A request refused by the check `attempt` makes first, some time before it
    * would be counted, is one that counting refuses if and only if the window
    * still runs by then, or nothing is allowed at all.
    */
  lemma {:induction false} AttemptRefusesAsCounting(counters: Counters, key: Key, checked: int, now: int, window: nat,
                                                    requests: nat, sweeps: bool)
    requires checked <= now && IsOver(counters, key, checked, requests)
    ensures !Grants(counters, Timed(Count(key, 1, window), now, sweeps), requests) <==>
            requests == 0 || Live(counters, key, now).Some?
  {
  }

  /**
    * Between two readings of the clock a window can end, and the request is
    * refused that counting would have granted.
    */
  lemma {:induction false} AttemptRefusesTooMuch(key: Key)
    ensures IsOver(map[key := Counter(2, 10)], key, 9, 1)
    ensures Grants(map[key := Counter(2, 10)], Timed(Count(key, 1, 10), 10, false), 1)
  {
  }

  /** The requests for a key granted from `lo` until `hi`. */
  function Granted(counters: Counters, calls: seq<Timed>, key: Key, requests: nat, lo: int, hi: int): nat
    decreases |calls|
  {
    if calls == [] then 0
    else
      var t := calls[0];
      (if t.call.key == key && lo <= t.now < hi && Grants(counters, t, requests) then 1 else 0)
      + Granted(After(counters, t), calls[1..], key, requests, lo, hi)
  }

  /** The key is only looked at and counted: nothing is given back or forgotten. Other keys do not matter. */
  predicate OnlyCounts(calls: seq<Timed>, key: Key, window: nat) {
    forall k :: 0 <= k < |calls| ==>
      calls[k].call.key == key ==> calls[k].call.Look? || calls[k].call == Count(key, 1, window)
  }

  function Left(requests: nat, c: Counter): nat {
    if requests >= c.points >= 0 then requests - c.points else 0
  }

  /** The counter of the key, if any, was counted at least once. */
  predicate IsCounted(counters: Counters, key: Key) {
    key in counters ==> counters[key].points >= 1
  }

  lemma {:induction false} StaysCounted(counters: Counters, t: Timed, key: Key, window: nat)
    requires OnlyCounts([t], key, window) && IsCounted(counters, key)
    ensures IsCounted(After(counters, t), key)
  {
    assert [t][0] == t;
  }

  lemma {:induction false} TailCounts(calls: seq<Timed>, key: Key, window: nat)
    requires OnlyCounts(calls, key, window) && calls != []
    ensures OnlyCounts([calls[0]], key, window) && OnlyCounts(calls[1..], key, window)
  {
  }

  /** While a window runs until `hi` or later, what is left of the allowance is all that is granted. */
  lemma {:induction false} InOneWindow(counters: Counters, calls: seq<Timed>, key: Key, window: nat, requests: nat,
                                       from: int, lo: int, hi: int)
    requires InOrder(calls, from) && OnlyCounts(calls, key, window) && requests < U32_MAX
    requires IsCounted(counters, key) && key in counters && counters[key].expire >= hi
    ensures Granted(counters, calls, key, requests, lo, hi) <= Left(requests, counters[key])
    decreases |calls|
  {
    if calls != [] {
      var t := calls[0];
      TailCounts(calls, key, window);
      StaysCounted(counters, t, key, window);
      if t.now < hi {
        InOneWindow(After(counters, t), calls[1..], key, window, requests, t.now, lo, hi);
      } else {
        NothingFrom(counters, calls, key, requests, from, lo, hi);
      }
    }
  }

  lemma {:induction false} NothingFrom(counters: Counters, calls: seq<Timed>, key: Key, requests: nat, from: int,
                                       lo: int, hi: int)
    requires InOrder(calls, from) && (calls != [] ==> calls[0].now >= hi)
    ensures Granted(counters, calls, key, requests, lo, hi) == 0
    decreases |calls|
  {
    if calls != [] {
      hide After;
      NothingFrom(After(counters, calls[0]), calls[1..], key, requests, calls[0].now, lo, hi);
    }
  }

  /** At most two windows meet a stretch as long as a window, and the first began before it. */
  lemma {:induction false} InTwoWindows(counters: Counters, calls: seq<Timed>, key: Key, window: nat, requests: nat,
                                        from: int, lo: int)
    requires InOrder(calls, from) && OnlyCounts(calls, key, window) && requests < U32_MAX && IsCounted(counters, key)
    requires lo <= from
    ensures Granted(counters, calls, key, requests, lo, lo + window) <=
            requests + (if Live(counters, key, from).Some? then Left(requests, counters[key]) else 0)
    decreases |calls|
  {
    if calls != [] {
      var t := calls[0];
      TailCounts(calls, key, window);
      StaysCounted(counters, t, key, window);
      if t.now >= lo + window {
        NothingFrom(counters, calls, key, requests, from, lo, lo + window);
      } else if t.call.Count? && t.call.key == key && Live(counters, key, t.now) == None {
        InOneWindow(After(counters, t), calls[1..], key, window, requests, t.now, lo, lo + window);
      } else {
        LiveAfter(counters, t, key);
        InTwoWindows(After(counters, t), calls[1..], key, window, requests, t.now, lo);
      }
    }
  }

  /**
    * Any stretch as long as the window sees fewer than twice the allowance granted.
    * An allowance of the largest 32-bit number is left out: it never refuses.
    */
  lemma {:induction false} FewerThanTwice(counters: Counters, calls: seq<Timed>, key: Key, window: nat, requests: nat,
                                          from: int, lo: int)
    requires InOrder(calls, from) && OnlyCounts(calls, key, window) && requests < U32_MAX && IsCounted(counters, key)
    ensures Granted(counters, calls, key, requests, lo, lo + window) <= (if requests == 0 then 0 else 2 * requests - 1)
    decreases |calls|
  {
    if calls != [] {
      var t := calls[0];
      if lo <= t.now {
        assert InOrder(calls, t.now);
        InTwoWindows(counters, calls, key, window, requests, t.now, lo);
      } else {
        TailCounts(calls, key, window);
        StaysCounted(counters, t, key, window);
        FewerThanTwice(After(counters, t), calls[1..], key, window, requests, t.now, lo);
      }
    }
  }

  // ----- The bound is reached

  function Burst(key: Key, window: nat, now: int, count: nat): seq<Timed> {
    seq(count, _ => Timed(Count(key, 1, window), now, false))
  }

  /** Requests that come together in a running window are all granted while the allowance lasts. */
  lemma {:induction false} BurstIsGranted(counters: Counters, key: Key, window: nat, requests: nat, now: int,
                                          count: nat, rest: seq<Timed>, lo: int, hi: int)
    requires key in counters && counters[key].expire > now && lo <= now < hi && counters[key].points >= 0
    requires counters[key].points + count <= requests || requests == U32_MAX
    ensures Granted(counters, Burst(key, window, now, count) + rest, key, requests, lo, hi) ==
            var after := counters[key := Counter(counters[key].points + count, counters[key].expire)];
            count + Granted(after, rest, key, requests, lo, hi)
    decreases count
  {
    var c := counters[key];
    var calls := Burst(key, window, now, count) + rest;
    if count == 0 {
      assert calls == rest;
      assert counters[key := Counter(c.points, c.expire)] == counters;
    } else {
      var t := Timed(Count(key, 1, window), now, false);
      assert calls[0] == t && calls[1..] == Burst(key, window, now, count - 1) + rest;
      var next := After(counters, t);
      assert next == counters[key := Counter(c.points + 1, c.expire)];
      BurstIsGranted(next, key, window, requests, now, count - 1, rest, lo, hi);
      assert next[key := Counter(c.points + count, c.expire)] == counters[key := Counter(c.points + count, c.expire)];
    }
  }

  function ThreeBursts(key: Key, window: nat, requests: nat): seq<Timed>
    requires window >= 1 && requests >= 1
  {
    Burst(key, window, 0, 1) + (Burst(key, window, window - 1, requests - 1) + Burst(key, window, window, requests))
  }

  /** One request opens a window, the rest of its allowance goes at its end, and the next allowance right after. */
  lemma {:induction false} TwiceLessOneIsReached(key: Key, window: nat, requests: nat)
    requires window >= 2 && requests >= 1
    ensures var calls := ThreeBursts(key, window, requests);
            && InOrder(calls, 0) && OnlyCounts(calls, key, window)
            && Granted(map[], calls, key, requests, window - 1, window - 1 + window) == 2 * requests - 1
  {
    var lo, hi := window - 1, window - 1 + window;
    var last := Burst(key, window, window, requests);
    var second := Burst(key, window, window - 1, requests - 1) + last;
    var calls := Burst(key, window, 0, 1) + second;
    assert calls[1..] == second;
    var begun: Counters := map[key := Counter(1, window)];
    assert After(map[], calls[0]) == begun;
    hide Burst;
    assert Granted(map[], calls, key, requests, lo, hi) == Granted(begun, second, key, requests, lo, hi) by {
      hide After, Grants;
    }
    hide Granted, After;
    BurstIsGranted(begun, key, window, requests, window - 1, requests - 1, last, lo, hi);
    var spent := begun[key := Counter(requests, window)];
    NewWindowIsGranted(spent, key, window, requests, window, requests, lo, hi);
    BurstsInOrder(key, window, requests);
    BurstsOnlyCount(key, window, requests);
  }

  lemma {:induction false} NewWindowIsGranted(counters: Counters, key: Key, window: nat, requests: nat, now: int,
                                              count: nat, lo: int, hi: int)
    requires Live(counters, key, now) == None && window >= 1 && count >= 1 && lo <= now < hi
    requires count <= requests || requests == U32_MAX
    ensures Granted(counters, Burst(key, window, now, count), key, requests, lo, hi) == count
  {
    var calls := Burst(key, window, now, count);
    var next := counters[key := Counter(1, now + window)];
    assert After(counters, calls[0]) == next;
    assert calls[1..] == Burst(key, window, now, count - 1) + [];
    BurstIsGranted(next, key, window, requests, now, count - 1, [], lo, hi);
  }

  lemma {:induction false} BurstsOnlyCount(key: Key, window: nat, requests: nat)
    requires window >= 1 && requests >= 1
    ensures OnlyCounts(ThreeBursts(key, window, requests), key, window)
  {
  }

  lemma {:induction false} SortedIsInOrder(calls: seq<Timed>, from: int)
    requires forall k :: 0 <= k < |calls| ==> from <= calls[k].now
    requires forall j, k :: 0 <= j < k < |calls| ==> calls[j].now <= calls[k].now
    ensures InOrder(calls, from)
    decreases |calls|
  {
    if calls != [] {
      SortedIsInOrder(calls[1..], calls[0].now);
    }
  }

  lemma {:induction false} BurstsInOrder(key: Key, window: nat, requests: nat)
    requires window >= 2 && requests >= 1
    ensures InOrder(ThreeBursts(key, window, requests), 0)
  {
    SortedIsInOrder(ThreeBursts(key, window, requests), 0);
  }

  /** With the largest allowance any number of requests is granted at once. */
  lemma {:induction false} LargestAllowanceNeverRefuses(key: Key, window: nat, count: nat)
    requires window >= 1 && count >= 1
    ensures Granted(map[], Burst(key, window, 0, count), key, U32_MAX, 0, window) == count
  {
    NewWindowIsGranted(map[], key, window, U32_MAX, 0, count, 0, window);
  }
}
