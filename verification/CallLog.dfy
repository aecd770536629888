/** The write queue of the call log: records waiting, and a task that writes them down and then ends. */
module CallLog {
  const MAX_PENDING_WRITES: nat := 1000
  const WRITE_BATCH: nat := 100

  /** What the lock guards, and the count of written records that flushes watch. */
  datatype Queue<T> = Queue(waiting: seq<T>, pending: nat, queued: nat, writing: bool, written: nat)

  // ----- What one critical section does

  predicate Accepts<T>(q: Queue<T>) {
    q.pending < MAX_PENDING_WRITES
  }

  function Recorded<T>(q: Queue<T>, input: T): Queue<T> {
    if Accepts(q) then Queue(q.waiting + [input], q.pending + 1, q.queued + 1, true, q.written) else q
  }

  function BatchSize<T>(q: Queue<T>): (n: nat)
    ensures n <= |q.waiting| && n <= WRITE_BATCH && (n == 0 <==> q.waiting == [])
  {
    if |q.waiting| <= WRITE_BATCH then |q.waiting| else WRITE_BATCH
  }

  function Taken<T>(q: Queue<T>): Queue<T> {
    if q.waiting == [] then q.(writing := false) else q.(waiting := q.waiting[BatchSize(q)..])
  }

  /** The subtraction stops at zero. */
  function Released<T>(q: Queue<T>, count: nat): Queue<T> {
    q.(pending := if q.pending >= count then q.pending - count else 0)
  }

  function Reported<T>(q: Queue<T>, count: nat): Queue<T> {
    q.(written := q.written + count)
  }

  /** The service of one instance. */
  class Service<T(0)> {
    var waiting: seq<T>
    var pending: nat
    var queued: nat
    var writing: bool
    var written: nat

    constructor ()
      ensures View() == Queue([], 0, 0, false, 0)
    {
      waiting, pending, queued, writing, written := [], 0, 0, false, 0;
    }

    function View(): Queue<T>
      reads this
    {
      Queue(waiting, pending, queued, writing, written)
    }

    /** `record`, inside a runtime: whether it starts a task that writes. */
    method Record(input: T) returns (spawns: bool)
      modifies this
      ensures View() == Recorded(old(View()), input)
      ensures spawns == (Accepts(old(View())) && !old(writing))
    {
      if pending >= MAX_PENDING_WRITES {
        return false;
      }
      pending := pending + 1;
      queued := queued + 1;
      waiting := waiting + [input];
      spawns := !writing;
      writing := true;
    }

    /** The first records waiting; with none, the writer is done. */
    method Take() returns (batch: seq<T>)
      modifies this
      ensures View() == Taken(old(View()))
      ensures batch == old(waiting)[..BatchSize(old(View()))]
    {
      var count := if |waiting| <= WRITE_BATCH then |waiting| else WRITE_BATCH;
      batch := waiting[..count];
      if count == 0 {
        writing := false;
      } else {
        waiting := waiting[count..];
      }
    }

    method Release(count: nat)
      modifies this
      ensures View() == Released(old(View()), count)
    {
      pending := if pending >= count then pending - count else 0;
    }

    method Report(count: nat)
      modifies this
      ensures View() == Reported(old(View()), count)
    {
      written := written + count;
    }

    /**
      * `write_queue` from start to end when no record comes in: the batches are
      * the waiting records in order, and all of them.
      */
    method WriteQueue() returns (batches: seq<seq<T>>)
      requires pending >= |waiting|
      modifies this
      ensures Joined(batches) == old(waiting)
      ensures AreBatches(batches, false)
      ensures View() == Queue([], old(pending) - |old(waiting)|, old(queued), false, old(written) + |old(waiting)|)
    {
      hide Joined, AreBatches;
      NothingJoins<T>();
      batches := [];
      while true
        invariant Joined(batches) + waiting == old(waiting)
        invariant AreBatches(batches, waiting != [])
        invariant queued == old(queued)
        invariant pending == old(pending) - |old(waiting)| + |waiting|
        invariant written == old(written) + |old(waiting)| - |waiting|
        decreases |waiting|
      {
        ghost var before := waiting;
        var batch := Take();
        if |batch| == 0 {
          return;
        }
        BatchJoins(batches, batch, waiting, before);
        batches := batches + [batch];
        Release(|batch|);
        Report(|batch|);
      }
    }
  }

  function Joined<T>(batches: seq<seq<T>>): seq<T> {
    if batches == [] then [] else batches[0] + Joined(batches[1..])
  }

  /** Every batch is full, except that the last need not be when no record is left. */
  predicate AreBatches<T>(batches: seq<seq<T>>, more: bool) {
    forall k :: 0 <= k < |batches| ==>
      0 < |batches[k]| <= WRITE_BATCH && (k < |batches| - 1 || more ==> |batches[k]| == WRITE_BATCH)
  }

  lemma {:induction false} NothingJoins<T>()
    ensures Joined<T>([]) == [] && AreBatches<T>([], true) && AreBatches<T>([], false)
  {
  }

  lemma {:induction false} BatchJoins<T>(batches: seq<seq<T>>, batch: seq<T>, rest: seq<T>, waiting: seq<T>)
    requires waiting == batch + rest && AreBatches(batches, true)
    requires 0 < |batch| <= WRITE_BATCH && (rest != [] ==> |batch| == WRITE_BATCH)
    ensures Joined(batches + [batch]) + rest == Joined(batches) + waiting
    ensures AreBatches(batches + [batch], rest != [])
  {
    JoinedGrows(batches, batch);
    assert Joined(batches) + batch + rest == Joined(batches) + (batch + rest);
  }

  lemma {:induction false} JoinedGrows<T>(batches: seq<seq<T>>, batch: seq<T>)
    ensures Joined(batches + [batch]) == Joined(batches) + batch
  {
    if batches == [] {
      assert [batch][1..] == [] && [] + [batch] == [batch];
      assert batch + Joined([]) == batch == Joined([]) + batch;
    } else {
      assert (batches + [batch])[1..] == batches[1..] + [batch];
      JoinedGrows(batches[1..], batch);
    }
  }

  // ----- Callers and tasks interleaved, one critical section a step

  /** Where a writing task is: about to take, about to write, to release, or to report. */
  datatype Task<T> = Taking | Holding(batch: seq<T>) | Releasing(count: nat) | Reporting(count: nat)

  /** A flush waits for as many written records as were queued. `before` are the records accepted by then. */
  datatype Flush<T> = Flush(target: nat, before: seq<T>, returned: bool)

  /** With the records accepted so far and those whose write was attempted, in order. */
  datatype System<T> = System(queue: Queue<T>, tasks: seq<Task<T>>, accepted: seq<T>, attempted: seq<T>,
                              flushes: seq<Flush<T>>)

  datatype Event<T> =
    | Record(input: T, hasRuntime: bool)
    | Step(task: nat)
    | StartFlush
    | EndFlush(flush: nat)

  function Start<T>(): System<T> {
    System(Queue([], 0, 0, false, 0), [], [], [], [])
  }

  predicate Enabled<T>(s: System<T>, e: Event<T>) {
    match e
    case Record(_, _) => true
    case Step(task) => task < |s.tasks|
    case StartFlush => true
    case EndFlush(flush) =>
      flush < |s.flushes| && !s.flushes[flush].returned && s.queue.written >= s.flushes[flush].target
  }

  function Next<T>(s: System<T>, e: Event<T>): System<T>
    requires Enabled(s, e)
  {
    match e
    case Record(input, hasRuntime) =>
      if !hasRuntime || !Accepts(s.queue) then s
      else
        s.(queue := Recorded(s.queue, input),
           tasks := if s.queue.writing then s.tasks else s.tasks + [Taking],
           accepted := s.accepted + [input])
    case Step(task) => Stepped(s, task)
    case StartFlush => s.(flushes := s.flushes + [Flush(s.queue.queued, s.accepted, false)])
    case EndFlush(flush) => s.(flushes := s.flushes[flush := s.flushes[flush].(returned := true)])
  }

  /** The next step of a task. A write that fails is an attempt like any other. */
  function Stepped<T>(s: System<T>, task: nat): System<T>
    requires task < |s.tasks|
  {
    match s.tasks[task]
    case Taking =>
      s.(queue := Taken(s.queue),
         tasks := if s.queue.waiting == [] then s.tasks[..task] + s.tasks[task + 1..]
                  else s.tasks[task := Holding(s.queue.waiting[..BatchSize(s.queue)])])
    case Holding(batch) =>
      s.(tasks := s.tasks[task := Releasing(|batch|)], attempted := s.attempted + batch)
    case Releasing(count) =>
      s.(queue := Released(s.queue, count), tasks := s.tasks[task := Reporting(count)])
    case Reporting(count) =>
      s.(queue := Reported(s.queue, count), tasks := s.tasks[task := Taking])
  }

  ghost predicate Leads<T>(s: System<T>, events: seq<Event<T>>, t: System<T>)
    decreases |events|
  {
    if events == [] then s == t
    else Enabled(s, events[0]) && Leads(Next(s, events[0]), events[1..], t)
  }

  ghost predicate Reachable<T(!new)>(s: System<T>) {
    exists events :: Leads(Start(), events, s)
  }

  // ----- What every step keeps

  /** Records taken whose write was not attempted. */
  function InHand<T>(tasks: seq<Task<T>>): seq<T> {
    if tasks != [] && tasks[0].Holding? then tasks[0].batch else []
  }

  /** Records taken and still counted as pending. */
  function InFlight<T>(tasks: seq<Task<T>>): nat {
    if tasks == [] then 0
    else if tasks[0].Holding? then |tasks[0].batch|
    else if tasks[0].Releasing? then tasks[0].count
    else 0
  }

  /** Records attempted and not yet counted as written. */
  function Unreported<T>(tasks: seq<Task<T>>): nat {
    if tasks != [] && (tasks[0].Releasing? || tasks[0].Reporting?) then tasks[0].count else 0
  }

  predicate HasOneWriter<T>(s: System<T>) {
    && |s.tasks| <= 1
    && (s.queue.writing <==> |s.tasks| == 1)
    && (s.queue.waiting != [] ==> s.queue.writing)
    && (s.tasks != [] && s.tasks[0].Holding? ==> 0 < |s.tasks[0].batch| <= WRITE_BATCH)
  }

  predicate CountsAdd<T>(s: System<T>) {
    && s.queue.pending == |s.queue.waiting| + InFlight(s.tasks)
    && s.queue.pending <= MAX_PENDING_WRITES
    && s.queue.queued == |s.accepted|
    && s.queue.written + Unreported(s.tasks) == |s.attempted|
  }

  /** No record is lost, taken twice or taken out of turn. */
  predicate KeepsOrder<T(==)>(s: System<T>) {
    s.accepted == s.attempted + InHand(s.tasks) + s.queue.waiting
  }

  predicate FlushesKnow<T(==)>(s: System<T>) {
    forall k :: 0 <= k < |s.flushes| ==>
      var f := s.flushes[k];
      f.target == |f.before| && f.before <= s.accepted && (f.returned ==> f.target <= s.queue.written)
  }

  predicate Sound<T(==)>(s: System<T>) {
    HasOneWriter(s) && CountsAdd(s) && KeepsOrder(s) && FlushesKnow(s)
  }

  lemma {:induction false} RecordKeeps<T>(s: System<T>, input: T)
    requires Sound(s) && Accepts(s.queue)
    ensures Sound(Next(s, Record(input, true)))
  {
    var t := Next(s, Record(input, true));
    assert InHand(t.tasks) == InHand(s.tasks);
    assert s.attempted + InHand(s.tasks) + s.queue.waiting + [input] ==
      s.attempted + InHand(s.tasks) + (s.queue.waiting + [input]);
  }

  lemma {:induction false} TakeKeeps<T>(s: System<T>)
    requires Sound(s) && s.tasks == [Taking]
    ensures Sound(Stepped(s, 0))
  {
    var n := BatchSize(s.queue);
    assert s.queue.waiting == s.queue.waiting[..n] + s.queue.waiting[n..];
    assert s.attempted + [] + (s.queue.waiting[..n] + s.queue.waiting[n..]) ==
      s.attempted + s.queue.waiting[..n] + s.queue.waiting[n..];
  }

  lemma {:induction false} AttemptKeeps<T>(s: System<T>)
    requires Sound(s) && |s.tasks| == 1 && s.tasks[0].Holding?
    ensures Sound(Stepped(s, 0))
  {
    var batch := s.tasks[0].batch;
    assert s.attempted + batch + [] == s.attempted + batch;
  }

  lemma {:induction false} StepKeeps<T>(s: System<T>, e: Event<T>)
    requires Sound(s) && Enabled(s, e)
    ensures Sound(Next(s, e))
  {
    match e {
      case Record(input, hasRuntime) =>
        if hasRuntime && Accepts(s.queue) {
          RecordKeeps(s, input);
        }
      case Step(task) =>
        match s.tasks[task] {
          case Taking => TakeKeeps(s);
          case Holding(_) => AttemptKeeps(s);
          case Releasing(_) =>
          case Reporting(_) =>
        }
      case StartFlush =>
      case EndFlush(flush) =>
    }
  }

  lemma {:induction false} RunKeeps<T>(s: System<T>, events: seq<Event<T>>, t: System<T>)
    requires Sound(s) && Leads(s, events, t)
    ensures Sound(t)
    decreases |events|
  {
    if events != [] {
      StepKeeps(s, events[0]);
      RunKeeps(Next(s, events[0]), events[1..], t);
    }
  }

  /** Every reachable state has at most one writer, honest counts and its records in order. */
  lemma {:induction false} EveryRunIsSound<T(!new)>(s: System<T>)
    requires Reachable(s)
    ensures Sound(s)
  {
    var events :| Leads(Start(), events, s);
    RunKeeps(Start(), events, s);
  }

  /** A flush that returned saw an attempt at each record accepted before it, in the order they were accepted. */
  lemma {:induction false} FlushSawEveryAttempt<T(!new)>(s: System<T>, k: nat)
    requires Reachable(s) && k < |s.flushes| && s.flushes[k].returned
    ensures s.flushes[k].before <= s.attempted
  {
    EveryRunIsSound(s);
    var f := s.flushes[k];
    assert |f.before| <= |s.attempted|;
    assert s.attempted <= s.accepted;
  }

  /** A record is dropped only while a thousand are pending, or without a runtime. */
  lemma {:induction false} DropsOnlyWhenFull<T(!new)>(s: System<T>, input: T, hasRuntime: bool)
    requires Reachable(s)
    ensures Next(s, Record(input, hasRuntime)).accepted ==
            (if hasRuntime && |s.queue.waiting| + InFlight(s.tasks) < 1000 then s.accepted + [input] else s.accepted)
  {
    EveryRunIsSound(s);
  }

  // ----- The writer gets done

  function Rank<T>(tasks: seq<Task<T>>): nat {
    if tasks == [] then 0
    else match tasks[0]
         case Taking => 1
         case Reporting(_) => 2
         case Releasing(_) => 3
         case Holding(_) => 4
  }

  function Work<T>(s: System<T>): nat {
    4 * |s.queue.waiting| + Rank(s.tasks)
  }

  /** Each step of the writer leaves less to do. */
  lemma {:induction false} StepsShrinkWork<T>(s: System<T>)
    requires Sound(s) && s.tasks != []
    ensures Work(Stepped(s, 0)) < Work(s) && Stepped(s, 0).accepted == s.accepted && Stepped(s, 0).flushes == s.flushes
  {
  }

  /** Left to itself the writer ends, in at most so many steps. */
  lemma {:induction false} WriterEnds<T>(s: System<T>) returns (t: System<T>, steps: seq<Event<T>>)
    requires Sound(s)
    ensures Leads(s, steps, t) && |steps| <= Work(s)
    ensures forall k :: 0 <= k < |steps| ==> steps[k].Step?
    ensures t.tasks == [] && t.accepted == s.accepted && t.flushes == s.flushes
    decreases Work(s)
  {
    if s.tasks == [] {
      t, steps := s, [];
    } else {
      StepKeeps(s, Step(0));
      StepsShrinkWork(s);
      var later;
      t, later := WriterEnds(Stepped(s, 0));
      steps := [Step(0)] + later;
      assert steps[1..] == later;
    }
  }

  /** Once it has ended nothing is pending, every record was attempted, and every flush may return. */
  lemma {:induction false} NothingIsLeftBehind<T(!new)>(s: System<T>)
    requires Reachable(s) && s.tasks == []
    ensures s.queue.pending == 0 && s.queue.waiting == [] && !s.queue.writing
    ensures s.attempted == s.accepted && s.queue.written == |s.accepted|
    ensures forall k :: 0 <= k < |s.flushes| && !s.flushes[k].returned ==> Enabled(s, EndFlush(k))
  {
    EveryRunIsSound(s);
    assert s.attempted + [] + [] == s.attempted;
  }
}
