/** Any number of threads running `Head_PUT` and `headflush` on one metric, with a
    crash possible between any two sub-steps (src/registry.c, src/wal.c,
    src/server.c). A run is a sequence of events; everything proved here holds
    after every run. */
module Protocol {
  import opened Words
  import opened Heads
  import opened Chunks
  import opened Store

  type Tid = nat

  /** Where a thread is. The states marked (L) hold the head's lock. */
  datatype Pc =
    | PutWaiting(p: Point, retry: bool)      // about to lock the head and put p
    | PutLogging(p: Point)                   // (L) p is in the head, not yet in the log
    | PutLogged(p: Point)                    // (L) p is in the log, the lock not yet released
    | FlushWaiting(after: Option<Point>)     // about to lock the head and flush it
    | FlushWriting(after: Option<Point>)     // (L) the chunk file is open and incomplete
    | FlushWritten(after: Option<Point>)     // (L) the chunk file is complete
    | FlushIndexed(after: Option<Point>)     // (L) indexed, head reset, log still there
    | Done(ok: bool)

  /** The metric, the lock, the threads; and the history: the points accepted into
      the head, the points whose `PUT` was answered, and the contents of every
      indexed chunk, each in the order it happened. */
  datatype State = State(m: Metric, lock: Option<Tid>, threads: map<Tid, Pc>,
                         accepted: seq<Point>, acked: seq<Point>, flushed: seq<seq<Point>>)

  datatype Event =
    | CallPut(t: Tid, p: Point)
    | CallFlush(t: Tid)
    | Run(t: Tid, writeOk: bool)                    // one sub-step of thread t
    | Crash(listing: seq<Uint32>, unset: Long)      // crash, then restart

  /** An empty data directory. */
  function Start(unset: Long): State {
    State(Metric(HeadState([], unset), [], map[], []), None, map[], [], [], [])
  }

  predicate Waiting(pc: Pc) {
    pc.PutWaiting? || pc.FlushWaiting?
  }

  predicate Holding(pc: Pc) {
    !Waiting(pc) && !pc.Done?
  }

  ghost predicate Enabled(s: State, e: Event) {
    match e
    case CallPut(t, _) => t !in s.threads
    case CallFlush(t) => t !in s.threads
    case Run(t, _) =>
      && t in s.threads
      && (Waiting(s.threads[t]) ==> s.lock.None?)
      && !s.threads[t].Done?
    case Crash(listing, _) => Lists(listing, s.m.files)
  }

  /** Where a flush returns to: the put that asked for it, or its caller. */
  function Return(after: Option<Point>, ok: bool): Pc {
    match after
    case Some(p) => PutWaiting(p, true)
    case None => Done(ok)
  }

  function Goto(s: State, t: Tid, pc: Pc, held: bool): State {
    s.(threads := s.threads[t := pc], lock := if held then Some(t) else None)
  }

  /** One sub-step of a thread. A thread in a flushing state always finds points in
      the head, as the invariant below shows. */
  function RunThread(s: State, t: Tid, writeOk: bool): State
    requires t in s.threads
  {
    match s.threads[t]
    case PutWaiting(p, retry) =>
      var (head, ok) := Put(s.m.head, p);
      if ok then Goto(s.(m := s.m.(head := head), accepted := s.accepted + [p]), t, PutLogging(p), true)
      else if !retry && |s.m.head.points| >= HEAD_CAPACITY then Goto(s, t, FlushWaiting(Some(p)), false)
      else Goto(s, t, Done(false), false)
    case PutLogging(p) =>
      Goto(s.(m := s.m.(wal := s.m.wal + [p])), t, PutLogged(p), true)
    case PutLogged(p) =>
      Goto(s.(acked := s.acked + [p]), t, Done(true), false)
    case FlushWaiting(after) =>
      if s.m.head.points == [] then Goto(s, t, Return(after, true), false)
      else Goto(s.(m := OpenChunk(s.m)), t, FlushWriting(after), true)
    case FlushWriting(after) =>
      if s.m.head.points == [] || !writeOk then Goto(s, t, Return(after, false), false)
      else Goto(s.(m := FinishChunk(s.m)), t, FlushWritten(after), true)
    case FlushWritten(after) =>
      if s.m.head.points == [] then s
      else Goto(s.(m := IndexChunk(s.m), flushed := s.flushed + [s.m.head.points]), t, FlushIndexed(after), true)
    case FlushIndexed(after) =>
      Goto(s.(m := DropLog(s.m)), t, Return(after, true), false)
    case Done(_) => s
  }

  /** A crash can fall anywhere, inside a lock region too, and any thread that does not
      wait for a taken lock can go on. */
  lemma AnythingCanHappen(s: State, t: Tid, writeOk: bool, listing: seq<Uint32>, unset: Long)
    ensures Lists(listing, s.m.files) ==> Enabled(s, Crash(listing, unset))
    ensures t in s.threads && Holding(s.threads[t]) ==> Enabled(s, Run(t, writeOk))
    ensures t in s.threads && Waiting(s.threads[t]) ==> (Enabled(s, Run(t, writeOk)) <==> s.lock.None?)
    ensures t !in s.threads ==> Enabled(s, CallFlush(t)) && forall p :: Enabled(s, CallPut(t, p))
  {
  }

  function Apply(s: State, e: Event): State {
    match e
    case CallPut(t, p) => s.(threads := s.threads[t := PutWaiting(p, false)])
    case CallFlush(t) => s.(threads := s.threads[t := FlushWaiting(None)])
    case Run(t, writeOk) => if t in s.threads then RunThread(s, t, writeOk) else s
    case Crash(listing, unset) => s.(m := Restart(s.m, listing, unset), lock := None, threads := map[])
  }

  /** A run: every event was enabled when it happened. */
  ghost predicate IsRun(s: State, events: seq<Event>)
    decreases |events|
  {
    events == [] || (Enabled(s, events[0]) && IsRun(Apply(s, events[0]), events[1..]))
  }

  function After(s: State, events: seq<Event>): State
    decreases |events|
  {
    if events == [] then s else After(Apply(s, events[0]), events[1..])
  }

  ghost predicate NoCrash(events: seq<Event>) {
    forall i :: 0 <= i < |events| ==> !events[i].Crash?
  }

  // ---------------------------------------------------------------------------
  // What every sub-step keeps
  // ---------------------------------------------------------------------------

  function Flat(chunks: seq<seq<Point>>): seq<Point> {
    if chunks == [] then [] else Flat(chunks[..|chunks| - 1]) + chunks[|chunks| - 1]
  }

  /** The lock is held by exactly the thread that is inside a lock region. */
  ghost predicate LockInvariant(s: State) {
    && (forall t :: t in s.threads && Holding(s.threads[t]) ==> s.lock == Some(t))
    && (s.lock.Some? ==> s.lock.value in s.threads && Holding(s.threads[s.lock.value]))
  }

  /** What the thread inside the lock is doing; `Done` when nobody is. */
  function Holder(s: State): Pc {
    if s.lock.Some? && s.lock.value in s.threads then s.threads[s.lock.value] else Done(true)
  }

  /** The log and the head, by what the lock holder has already done. */
  ghost predicate LogInvariant(s: State) {
    match Holder(s)
    case PutLogging(p) => s.m.head.points == s.m.wal + [p]
    case PutLogged(p) => s.m.head.points == s.m.wal && s.m.wal != [] && s.m.wal[|s.m.wal| - 1] == p
    case FlushWriting(_) => s.m.head.points == s.m.wal && s.m.wal != []
    case FlushWritten(_) => s.m.head.points == s.m.wal && s.m.wal != []
    case FlushIndexed(_) => s.m.head.points == []
    case _ => s.m.head.points == s.m.wal
  }

  /** The accepted point that has not been answered yet. */
  function InFlight(s: State): seq<Point> {
    match Holder(s)
    case PutLogging(p) => [p]
    case PutLogged(p) => [p]
    case _ => []
  }

  ghost predicate GoodChunk(points: seq<Point>) {
    0 < |points| <= HEAD_CAPACITY && Sorted(points)
  }

  /** The index entry a flush of `points` makes. */
  function MetaOf(points: seq<Point>): Meta
    requires points != []
  {
    Meta(points[0].ts, points[|points| - 1].ts, ChunkId(points))
  }

  /** The index describes the flushed heads one by one. */
  ghost predicate IndexInvariant(s: State) {
    && |s.m.index| == |s.flushed|
    && forall i :: 0 <= i < |s.flushed| ==> GoodChunk(s.flushed[i]) && s.m.index[i] == MetaOf(s.flushed[i])
  }

  /** Nothing accepted is lost, duplicated or reordered. */
  ghost predicate Conserved(s: State) {
    && s.accepted == Flat(s.flushed) + s.m.head.points
    && s.accepted == s.acked + InFlight(s)
  }

  /** While the log outlives an indexed chunk it is that chunk. */
  ghost predicate WindowInvariant(s: State) {
    Holder(s).FlushIndexed? ==> s.flushed != [] && s.flushed[|s.flushed| - 1] == s.m.wal
  }

  ghost predicate Invariant(s: State) {
    && LockInvariant(s)
    && HeadInvariant(s.m.head)
    && LogInvariant(s)
    && IndexInvariant(s)
    && Conserved(s)
    && WindowInvariant(s)
  }

  lemma StartInvariant(unset: Long)
    ensures Invariant(Start(unset))
  {
    hide MetaOf, GoodChunk;
  }

  lemma FlatAppend(chunks: seq<seq<Point>>, chunk: seq<Point>)
    ensures Flat(chunks + [chunk]) == Flat(chunks) + chunk
  {
    assert (chunks + [chunk])[..|chunks|] == chunks;
  }

  /** Taking, holding and giving back the lock. */
  lemma StepKeepsLock(s: State, e: Event)
    requires LockInvariant(s) && Enabled(s, e) && !e.Crash?
    ensures LockInvariant(Apply(s, e))
  {
    hide Put, OpenChunk, FinishChunk, IndexChunk, DropLog;
  }

  /** A thread that can run either waits for the free lock or holds it. */
  lemma RunnerHolds(s: State, t: Tid, writeOk: bool)
    requires LockInvariant(s) && Enabled(s, Run(t, writeOk))
    ensures if Waiting(s.threads[t]) then s.lock == None && Holder(s) == Done(true)
            else s.lock == Some(t) && Holder(s) == s.threads[t]
  {
  }

  /** Everything in the invariant but the lock. */
  ghost predicate DataInvariant(s: State) {
    && HeadInvariant(s.m.head)
    && LogInvariant(s)
    && IndexInvariant(s)
    && Conserved(s)
    && WindowInvariant(s)
  }

  lemma PutStep(s: State, t: Tid)
    requires Invariant(s) && Enabled(s, Run(t, true)) && s.threads[t].PutWaiting?
    ensures DataInvariant(RunThread(s, t, true))
  {
    hide LockInvariant, GoodChunk, MetaOf, Flat, HeadInvariant, Put;
    RunnerHolds(s, t, true);
    var p := s.threads[t].p;
    PutKeepsInvariant(s.m.head, p);
    PutAppends(s.m.head, p);
    if Put(s.m.head, p).1 {
      assert Flat(s.flushed) + (s.m.head.points + [p]) == (Flat(s.flushed) + s.m.head.points) + [p];
    }
  }

  lemma PutAppends(h: HeadState, p: Point)
    ensures Put(h, p).0.points == if Put(h, p).1 then h.points + [p] else h.points
  {
  }

  lemma LogStep(s: State, t: Tid)
    requires Invariant(s) && Enabled(s, Run(t, true))
    requires s.threads[t].PutLogging? || s.threads[t].PutLogged?
    ensures DataInvariant(RunThread(s, t, true))
  {
    hide LockInvariant;
    RunnerHolds(s, t, true);
  }

  lemma FlushStep(s: State, t: Tid, writeOk: bool)
    requires Invariant(s) && Enabled(s, Run(t, writeOk))
    requires s.threads[t].FlushWaiting? || s.threads[t].FlushWriting? || s.threads[t].FlushIndexed?
    ensures DataInvariant(RunThread(s, t, writeOk))
  {
    hide LockInvariant;
    RunnerHolds(s, t, writeOk);
  }

  lemma IndexStep(s: State, t: Tid)
    requires Invariant(s) && Enabled(s, Run(t, true)) && s.threads[t].FlushWritten?
    ensures DataInvariant(RunThread(s, t, true))
  {
    hide LockInvariant, Flat, HeadInvariant, GoodChunk, MetaOf, HeadMeta;
    RunnerHolds(s, t, true);
    IndexedHead(s.m.head);
    FlatAppend(s.flushed, s.m.head.points);
    assert Flat(s.flushed + [s.m.head.points]) + [] == Flat(s.flushed + [s.m.head.points]);
  }

  lemma IndexedHead(h: HeadState)
    requires HeadInvariant(h) && h.points != []
    ensures HeadMeta(h) == MetaOf(h.points) && GoodChunk(h.points) && HeadInvariant(HeadState([], 0))
  {
  }

  lemma CallStep(s: State, e: Event)
    requires Invariant(s) && Enabled(s, e) && (e.CallPut? || e.CallFlush?)
    ensures DataInvariant(Apply(s, e))
  {
    assert Holder(Apply(s, e)) == Holder(s);
  }

  /** Every sub-step of every thread keeps the invariant. */
  lemma StepKeepsInvariant(s: State, e: Event)
    requires Invariant(s) && Enabled(s, e) && !e.Crash?
    ensures Invariant(Apply(s, e))
  {
    hide HeadInvariant, LogInvariant, IndexInvariant, Conserved, WindowInvariant, RunThread;
    StepKeepsLock(s, e);
    match e
    case Run(t, writeOk) =>
      match s.threads[t] {
        case PutWaiting(_, _) => PutStep(s, t); RunIgnoresWrite(s, t, writeOk);
        case PutLogging(_) => LogStep(s, t); RunIgnoresWrite(s, t, writeOk);
        case PutLogged(_) => LogStep(s, t); RunIgnoresWrite(s, t, writeOk);
        case FlushWritten(_) => IndexStep(s, t); RunIgnoresWrite(s, t, writeOk);
        case _ => FlushStep(s, t, writeOk);
      }
    case _ => CallStep(s, e);
  }

  /** Only writing the chunk file can fail. */
  lemma RunIgnoresWrite(s: State, t: Tid, writeOk: bool)
    requires t in s.threads && !s.threads[t].FlushWriting?
    ensures RunThread(s, t, writeOk) == RunThread(s, t, true)
  {
  }

  lemma {:induction false} RunKeepsInvariant(s: State, events: seq<Event>)
    requires Invariant(s) && IsRun(s, events) && NoCrash(events)
    ensures Invariant(After(s, events))
    decreases |events|
  {
    hide Invariant, Enabled, Apply;
    if events != [] {
      assert !events[0].Crash?;
      StepKeepsInvariant(s, events[0]);
      RunKeepsInvariant(Apply(s, events[0]), events[1..]);
    }
  }

  /** Over every interleaving of any number of puts and flushes: the flushed heads
      in index order followed by the head are the accepted points in acceptance
      order, every answered put among them; the head is sorted and bounded, the
      chunks are non-empty and sorted; and when nobody is inside the lock the log
      is exactly the head. */
  lemma ConservationOverRuns(unset: Long, events: seq<Event>)
    requires IsRun(Start(unset), events) && NoCrash(events)
    ensures var s := After(Start(unset), events);
            && s.accepted == Flat(s.flushed) + s.m.head.points
            && s.acked <= s.accepted <= s.acked + InFlight(s)
            && |InFlight(s)| <= 1
            && Sorted(s.m.head.points) && |s.m.head.points| <= 50000
            && |s.m.index| == |s.flushed|
            && (forall i :: 0 <= i < |s.flushed| ==> GoodChunk(s.flushed[i]) && s.m.index[i] == MetaOf(s.flushed[i]))
            && (s.lock.None? ==> s.m.wal == s.m.head.points && s.acked == s.accepted)
  {
    hide Apply, Enabled;
    StartInvariant(unset);
    RunKeepsInvariant(Start(unset), events);
  }

  // ---------------------------------------------------------------------------
  // A thread that is left alone
  // ---------------------------------------------------------------------------

  function Steps(t: Tid, writeOk: bool, n: nat): seq<Event> {
    seq(n, _ => Run(t, writeOk))
  }

  lemma {:induction false} AfterSteps(s: State, t: Tid, writeOk: bool, n: nat)
    requires n > 0
    ensures var s' := Apply(s, Run(t, writeOk));
            && After(s, Steps(t, writeOk, n)) == After(s', Steps(t, writeOk, n - 1))
            && (IsRun(s, Steps(t, writeOk, n)) <==> Enabled(s, Run(t, writeOk)) && IsRun(s', Steps(t, writeOk, n - 1)))
  {
    hide Apply, Enabled;
    assert Steps(t, writeOk, n)[1..] == Steps(t, writeOk, n - 1);
  }

  /** How many sub-steps a flush takes. */
  function FlushLength(m: Metric, writeOk: bool): nat {
    if m.head.points == [] then 1 else if !writeOk then 2 else 4
  }

  /** The sub-steps of one flush, with nothing in between, are the whole region. */
  lemma UninterruptedFlush(s: State, t: Tid, writeOk: bool)
    requires t in s.threads && s.threads[t].FlushWaiting? && s.lock.None?
    ensures var steps := Steps(t, writeOk, FlushLength(s.m, writeOk));
            var ok := s.m.head.points == [] || writeOk;
            && IsRun(s, steps)
            && After(s, steps) == s.(m := FlushRegion(s.m, writeOk),
                                     threads := s.threads[t := Return(s.threads[t].after, ok)],
                                     flushed := s.flushed
                                                + if s.m.head.points != [] && ok then [s.m.head.points] else [])
  {
    hide HeadChunk, HeadMeta, ChunkId;
    AfterSteps(s, t, writeOk, FlushLength(s.m, writeOk));
    var s1 := Apply(s, Run(t, writeOk));
    assert s.flushed + [] == s.flushed;
    if s.m.head.points != [] {
      AfterSteps(s1, t, writeOk, FlushLength(s.m, writeOk) - 1);
      if writeOk {
        FlushTail(s, t);
      }
    }
  }

  lemma FlushTail(s: State, t: Tid)
    requires t in s.threads && s.threads[t].FlushWaiting? && s.m.head.points != []
    ensures var s2 := Apply(Apply(s, Run(t, true)), Run(t, true));
            && IsRun(s2, Steps(t, true, 2))
            && After(s2, Steps(t, true, 2)) == s.(m := FlushRegion(s.m, true), lock := None,
                                                  threads := s.threads[t := Return(s.threads[t].after, true)],
                                                  flushed := s.flushed + [s.m.head.points])
  {
    hide HeadChunk, HeadMeta, ChunkId;
    var s2 := Apply(Apply(s, Run(t, true)), Run(t, true));
    AfterSteps(s2, t, true, 2);
    AfterSteps(Apply(s2, Run(t, true)), t, true, 1);
  }

  /** A put that is accepted, with nothing in between, is one lock region. */
  lemma UninterruptedPut(s: State, t: Tid, writeOk: bool)
    requires t in s.threads && s.threads[t].PutWaiting? && s.lock.None? && Put(s.m.head, s.threads[t].p).1
    ensures var p := s.threads[t].p;
            && IsRun(s, Steps(t, writeOk, 3))
            && PutRegion(s.m, p).1
            && After(s, Steps(t, writeOk, 3)) == s.(m := PutRegion(s.m, p).0, threads := s.threads[t := Done(true)],
                                                    accepted := s.accepted + [p], acked := s.acked + [p])
  {
    AfterSteps(s, t, writeOk, 3);
    var s1 := Apply(s, Run(t, writeOk));
    AfterSteps(s1, t, writeOk, 2);
    AfterSteps(Apply(s1, Run(t, writeOk)), t, writeOk, 1);
  }

  /** A refused put that may not flush, or need not, is over after one sub-step. */
  lemma RefusedPut(s: State, t: Tid, writeOk: bool)
    requires t in s.threads && s.threads[t].PutWaiting? && s.lock.None? && !Put(s.m.head, s.threads[t].p).1
    requires s.threads[t].retry || |s.m.head.points| < HEAD_CAPACITY
    ensures IsRun(s, Steps(t, writeOk, 1))
    ensures After(s, Steps(t, writeOk, 1)) == s.(threads := s.threads[t := Done(false)])
  {
    hide Put;
    AfterSteps(s, t, writeOk, 1);
  }

  lemma {:induction false} RunConcat(s: State, a: seq<Event>, b: seq<Event>)
    requires IsRun(s, a) && IsRun(After(s, a), b)
    ensures IsRun(s, a + b) && After(s, a + b) == After(After(s, a), b)
    decreases |a|
  {
    hide Apply, Enabled;
    if a == [] {
      assert a + b == b;
    } else {
      assert (a + b)[0] == a[0] && (a + b)[1..] == a[1..] + b;
      RunConcat(Apply(s, a[0]), a[1..], b);
    }
  }

  lemma NextEvent(s: State, e: Event, events: seq<Event>)
    requires Enabled(s, e) && IsRun(Apply(s, e), events)
    ensures IsRun(s, [e] + events) && After(s, [e] + events) == After(Apply(s, e), events)
  {
    hide Apply, Enabled;
    assert ([e] + events)[1..] == events;
  }

  lemma StepsConcat(s: State, t: Tid, writeOk: bool, a: nat, b: nat)
    requires IsRun(s, Steps(t, writeOk, a)) && IsRun(After(s, Steps(t, writeOk, a)), Steps(t, writeOk, b))
    ensures IsRun(s, Steps(t, writeOk, a + b))
    ensures After(s, Steps(t, writeOk, a + b)) == After(After(s, Steps(t, writeOk, a)), Steps(t, writeOk, b))
  {
    assert Steps(t, writeOk, a + b) == Steps(t, writeOk, a) + Steps(t, writeOk, b);
    RunConcat(s, Steps(t, writeOk, a), Steps(t, writeOk, b));
  }

  /** How many sub-steps a call of `Head_PUT` takes. */
  function PutLength(m: Metric, p: Point, writeOk: bool): nat {
    if Put(m.head, p).1 then 3
    else if |m.head.points| < HEAD_CAPACITY then 1
    else 1 + (FlushLength(m, writeOk) + if writeOk then 3 else 1)
  }

  /** The sub-steps of one call of `Head_PUT`, with nothing in between: the thread ends
      with the metric and the answer of the uninterrupted operation, the point is
      answered exactly when the answer says so, and a full head was flushed exactly when
      its chunk could be written. */
  lemma UninterruptedHeadPut(s: State, t: Tid, writeOk: bool)
    requires t in s.threads && s.threads[t].PutWaiting? && !s.threads[t].retry && s.lock.None?
    ensures var p := s.threads[t].p;
            var steps := Steps(t, writeOk, PutLength(s.m, p, writeOk));
            var (m, ok) := PutThrough(s.m, p, writeOk);
            && IsRun(s, steps)
            && After(s, steps) == s.(m := m, threads := s.threads[t := Done(ok)],
                                     accepted := s.accepted + if ok then [p] else [],
                                     acked := s.acked + if ok then [p] else [],
                                     flushed := s.flushed
                                                + if |s.m.head.points| >= 50000 && writeOk
                                                  then [s.m.head.points] else [])
  {
    hide Put, FlushRegion;
    var p := s.threads[t].p;
    assert s.accepted + [] == s.accepted && s.acked + [] == s.acked && s.flushed + [] == s.flushed;
    FullRefuses(s.m.head, p);
    if Put(s.m.head, p).1 {
      UninterruptedPut(s, t, writeOk);
    } else if |s.m.head.points| < HEAD_CAPACITY {
      RefusedPut(s, t, writeOk);
      SameAfterRefusal(s.m, p);
    } else {
      FlushedPut(s, t, writeOk);
    }
  }

  lemma FullRefuses(h: HeadState, p: Point)
    ensures |h.points| >= HEAD_CAPACITY ==> Put(h, p) == (h, false)
    ensures !Put(h, p).1 ==> Put(h, p).0 == h
    ensures h.points == [] ==> Put(h, p).1
  {
  }

  lemma SameAfterRefusal(m: Metric, p: Point)
    requires !Put(m.head, p).1
    ensures PutRegion(m, p) == (m, false)
  {
    hide Put;
  }

  /** A put that finds the head full: it flushes, and tries once more. */
  lemma FlushedPut(s: State, t: Tid, writeOk: bool)
    requires t in s.threads && s.threads[t].PutWaiting? && !s.threads[t].retry && s.lock.None?
    requires |s.m.head.points| >= HEAD_CAPACITY
    ensures var p := s.threads[t].p;
            var n := FlushLength(s.m, writeOk);
            var steps := Steps(t, writeOk, 1 + (n + if writeOk then 3 else 1));
            && IsRun(s, steps)
            && After(s, steps) == s.(m := PutRegion(FlushRegion(s.m, writeOk), p).0,
                                       threads := s.threads[t := Done(writeOk)],
                                     accepted := s.accepted + if writeOk then [p] else [],
                                     acked := s.acked + if writeOk then [p] else [],
                                     flushed := s.flushed + if writeOk then [s.m.head.points] else [])
            && PutRegion(FlushRegion(s.m, writeOk), p).1 == writeOk
  {
    hide Put, FlushRegion;
    var p, n := s.threads[t].p, FlushLength(s.m, writeOk);
    FullRefuses(s.m.head, p);
    AfterSteps(s, t, writeOk, 1);
    var s1 := After(s, Steps(t, writeOk, 1));
    assert s1 == s.(threads := s.threads[t := FlushWaiting(Some(p))]);
    UninterruptedFlush(s1, t, writeOk);
    var s2 := After(s1, Steps(t, writeOk, n));
    assert s2.threads[t] == PutWaiting(p, true) && s2.lock.None?;
    FlushedHead(s.m, writeOk);
    FullRefuses(s2.m.head, p);
    var k := if writeOk then 3 else 1;
    if writeOk {
      UninterruptedPut(s2, t, writeOk);
    } else {
      RefusedPut(s2, t, writeOk);
      SameAfterRefusal(s2.m, p);
      assert s.accepted + [] == s.accepted && s.acked + [] == s.acked && s.flushed + [] == s.flushed;
    }
    StepsConcat(s1, t, writeOk, n, k);
    StepsConcat(s, t, writeOk, 1, n + k);
  }

  lemma FlushedHead(m: Metric, writeOk: bool)
    requires m.head.points != []
    ensures FlushRegion(m, writeOk).head == if writeOk then HeadState([], 0) else m.head
  {
    hide HeadChunk, HeadMeta, ChunkId;
  }

  /** The events of a put by a new thread that is left alone. */
  function PutEvents(t: Tid, p: Point): (events: seq<Event>)
    ensures NoCrash(events)
  {
    [CallPut(t, p)] + Steps(t, true, 3)
  }

  /** The events of a successful flush by a new thread that is left alone. */
  function FlushEvents(t: Tid): (events: seq<Event>)
    ensures NoCrash(events)
  {
    [CallFlush(t)] + Steps(t, true, 4)
  }

  /** A state in which nobody holds the lock and `t` has not been used. */
  predicate Idle(s: State, t: Tid) {
    s.lock.None? && t !in s.threads
  }

  lemma PutRun(s: State, t: Tid, p: Point)
    requires Idle(s, t) && Put(s.m.head, p).1
    ensures IsRun(s, PutEvents(t, p))
    ensures After(s, PutEvents(t, p)) == s.(m := PutRegion(s.m, p).0, threads := s.threads[t := Done(true)],
                                            accepted := s.accepted + [p], acked := s.acked + [p])
  {
    hide Put, PutRegion;
    var call := CallPut(t, p);
    assert PutEvents(t, p)[0] == call && PutEvents(t, p)[1..] == Steps(t, true, 3);
    UninterruptedPut(Apply(s, call), t, true);
  }

  lemma FlushRun(s: State, t: Tid)
    requires Idle(s, t) && s.m.head.points != []
    ensures IsRun(s, FlushEvents(t))
    ensures After(s, FlushEvents(t)) == s.(m := FlushRegion(s.m, true), threads := s.threads[t := Done(true)],
                                           flushed := s.flushed + [s.m.head.points])
  {
    hide FlushRegion;
    var call := CallFlush(t);
    assert FlushEvents(t)[0] == call && FlushEvents(t)[1..] == Steps(t, true, 4);
    UninterruptedFlush(Apply(s, call), t, true);
  }

  /** History only grows: later states extend the accepted points and the chunks. */
  lemma {:induction false} HistoryGrows(s: State, events: seq<Event>)
    ensures s.flushed <= After(s, events).flushed
    ensures s.accepted <= After(s, events).accepted
    decreases |events|
  {
    hide Put, OpenChunk, FinishChunk, IndexChunk, DropLog, Restart;
    if events != [] {
      HistoryGrows(Apply(s, events[0]), events[1..]);
    }
  }
}
