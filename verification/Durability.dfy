/** Runs with any number of crashes and restarts: what it takes for an answered
    put never to be lost. */
module Durability {
  import opened Words
  import opened Heads
  import opened Chunks
  import opened Store
  import opened Protocol
  import ChunkFiles
  import Recovery
  import Wal

  // ---------------------------------------------------------------------------
  // What holds after every run, whatever its crashes
  // ---------------------------------------------------------------------------

  lemma {:induction false} ReplayKeepsInvariant(h: HeadState, records: seq<Point>)
    requires HeadInvariant(h)
    ensures HeadInvariant(Wal.Replay(h, records))
    decreases |records|
  {
    if records != [] {
      PutKeepsInvariant(h, records[0]);
      ReplayKeepsInvariant(Wal.ReplayOne(h, records[0]), records[1..]);
    }
  }

  lemma StepKeepsFilesIntact(s: State, e: Event)
    requires HeadInvariant(s.m.head) && FilesIntact(s.m.files)
    ensures HeadInvariant(Apply(s, e).m.head) && FilesIntact(Apply(s, e).m.files)
  {
    hide Intact, HeadChunk, LoadIndex, Wal.Replay, Put;
    EmptyHead(0);
    match e
    case Run(t, _) =>
      if t in s.threads {
        if s.threads[t].PutWaiting? {
          PutKeepsInvariant(s.m.head, s.threads[t].p);
        } else if s.m.head.points != [] {
          HeadChunkIntact(s.m.head.points);
        }
      }
    case Crash(_, unset) =>
      EmptyHead(unset);
      ReplayKeepsInvariant(HeadState([], unset), s.m.wal);
    case _ =>
  }

  lemma HeadChunkIntact(points: seq<Point>)
    requires 0 < |points| <= HEAD_CAPACITY
    ensures HeadChunk(points).Whole? && Intact(HeadChunk(points).chunk)
  {
    hide Intact, FlushedChunk;
    FlushedChunkReadsBack(ChunkId(points), ToSamples(points));
  }

  lemma {:induction false} RunKeepsFilesIntact(s: State, events: seq<Event>)
    requires HeadInvariant(s.m.head) && FilesIntact(s.m.files)
    ensures HeadInvariant(After(s, events).m.head) && FilesIntact(After(s, events).m.files)
    decreases |events|
  {
    hide HeadInvariant, FilesIntact, Apply;
    if events != [] {
      StepKeepsFilesIntact(s, events[0]);
      RunKeepsFilesIntact(Apply(s, events[0]), events[1..]);
    }
  }

  /** Over every run, whatever its crashes and file names: the head is sorted and
      bounded, and every file that can be read can be decoded. */
  lemma EveryReadableFileDecodes(unset: Long, events: seq<Event>)
    ensures var m := After(Start(unset), events).m;
            HeadInvariant(m.head) && FilesIntact(m.files)
  {
    EmptyHead(unset);
    RunKeepsFilesIntact(Start(unset), events);
  }

  // ---------------------------------------------------------------------------
  // Answered puts
  // ---------------------------------------------------------------------------

  /** The point is in the log or in a readable chunk file. */
  ghost predicate Safe(m: Metric, p: Point) {
    || QuantPoint(p) in Quant(m.wal)
    || exists id :: id in m.files && QuantPoint(p) in Recovery.ReadOf(m.files, id)
  }

  /** The log is in a readable chunk file as a whole. */
  ghost predicate LogInFile(m: Metric) {
    exists id :: id in m.files && Recovery.ReadOf(m.files, id) == Quant(m.wal)
  }

  ghost predicate CrashInvariant(s: State) {
    && LockInvariant(s)
    && HeadInvariant(s.m.head)
    && LogInvariant(s)
    && |s.m.wal| <= HEAD_CAPACITY
    && (Holder(s).FlushWriting? && s.m.head.points != [] ==>
          Recovery.ReadOf(s.m.files, ChunkId(s.m.head.points)) == [])
    && (Holder(s).FlushWritten? || Holder(s).FlushIndexed? ==> LogInFile(s.m))
    && forall p :: p in s.acked ==> Safe(s.m, p)
  }

  /** What a client has to see to. A flush opens the file of a readable chunk only
      if all its points are still in the log, as they are after a crash between the
      chunk write and the removal of the log; a flushed head fits the codec; and at
      a crash the timestamps in the log increase strictly from above the last
      timestamp of the fresh head. */
  ghost predicate Prudent(s: State, e: Event) {
    match e
    case Run(t, writeOk) =>
      t in s.threads && s.m.head.points != [] ==>
        && (s.threads[t].FlushWaiting? ==>
              forall q :: q in Recovery.ReadOf(s.m.files, ChunkId(s.m.head.points)) ==> q in Quant(s.m.wal))
        && (s.threads[t].FlushWriting? && writeOk ==> Fits(s.m.head.points))
    case Crash(_, unset) => Wal.StrictlyAbove(s.m.wal, unset)
    case _ => true
  }

  ghost predicate PrudentRun(s: State, events: seq<Event>)
    decreases |events|
  {
    events == [] || (Prudent(s, events[0]) && PrudentRun(Apply(s, events[0]), events[1..]))
  }

  /** The lock, the head and the log need no history. */
  lemma StepKeepsLog(s: State, e: Event)
    requires LockInvariant(s) && HeadInvariant(s.m.head) && LogInvariant(s) && Enabled(s, e) && !e.Crash?
    ensures LockInvariant(Apply(s, e)) && HeadInvariant(Apply(s, e).m.head) && LogInvariant(Apply(s, e))
  {
    StepKeepsLock(s, e);
    match e
    case Run(t, writeOk) =>
      RunnerHolds(s, t, writeOk);
      if s.threads[t].PutWaiting? {
        PutKeepsInvariant(s.m.head, s.threads[t].p);
      }
    case CallPut(_, _) => assert Holder(Apply(s, e)) == Holder(s);
    case CallFlush(_) => assert Holder(Apply(s, e)) == Holder(s);
    case Crash(_, _) =>
  }

  /** A step that keeps the log and every file keeps every point safe. */
  lemma SafeWithMore(m: Metric, m': Metric, p: Point)
    requires Safe(m, p) && m.wal <= m'.wal
    requires forall id :: id in m.files && Recovery.ReadOf(m.files, id) != [] ==>
               id in m'.files && Recovery.ReadOf(m'.files, id) == Recovery.ReadOf(m.files, id)
    ensures Safe(m', p)
  {
    hide Recovery.ReadOf, QuantPoint;
    if QuantPoint(p) in Quant(m.wal) {
      var i :| 0 <= i < |Quant(m.wal)| && Quant(m.wal)[i] == QuantPoint(p);
      assert Quant(m'.wal)[i] == QuantPoint(p);
    }
  }

  lemma PutStep(s: State, t: Tid)
    requires CrashInvariant(s) && Enabled(s, Run(t, true))
    requires s.threads[t].PutWaiting? || s.threads[t].PutLogging? || s.threads[t].PutLogged?
    ensures CrashInvariant(RunThread(s, t, true))
  {
    StepKeepsLog(s, Run(t, true));
    RunnerHolds(s, t, true);
    hide LockInvariant, HeadInvariant, Put, Recovery.ReadOf, Quant, LogInFile;
    var s' := RunThread(s, t, true);
    assert Holder(s').PutLogging? || Holder(s').PutLogged? || Holder(s').Done?;
    forall p | p in s'.acked
      ensures Safe(s'.m, p)
    {
      if p in s.acked {
        SafeWithMore(s.m, s'.m, p);
      } else {
        LastIsSafe(s.m);
      }
    }
  }

  lemma LastIsSafe(m: Metric)
    requires m.wal != []
    ensures Safe(m, m.wal[|m.wal| - 1])
  {
    hide QuantPoint;
    var i := |m.wal| - 1;
    assert Quant(m.wal)[i] == QuantPoint(m.wal[i]);
  }

  lemma OpenStep(s: State, t: Tid, writeOk: bool)
    requires CrashInvariant(s) && Enabled(s, Run(t, writeOk)) && Prudent(s, Run(t, writeOk))
    requires s.threads[t].FlushWaiting?
    ensures CrashInvariant(RunThread(s, t, writeOk))
  {
    StepKeepsLog(s, Run(t, writeOk));
    RunnerHolds(s, t, writeOk);
    hide LockInvariant, HeadInvariant, ReadBack, Quant, LogInFile;
    var s' := RunThread(s, t, writeOk);
    assert Holder(s').FlushWriting? || Holder(s').Done?;
    forall p | p in s'.acked
      ensures Safe(s'.m, p)
    {
      assert Safe(s.m, p);
      if s.m.head.points != [] && QuantPoint(p) !in Quant(s.m.wal) {
        var id :| id in s.m.files && QuantPoint(p) in Recovery.ReadOf(s.m.files, id);
        assert id != ChunkId(s.m.head.points);
        assert Recovery.ReadOf(s'.m.files, id) == Recovery.ReadOf(s.m.files, id);
      }
    }
    EmptyTorn();
  }

  lemma EmptyTorn()
    ensures ReadBack(Torn) == []
  {
  }

  lemma FinishStep(s: State, t: Tid, writeOk: bool)
    requires CrashInvariant(s) && Enabled(s, Run(t, writeOk)) && Prudent(s, Run(t, writeOk))
    requires s.threads[t].FlushWriting?
    ensures CrashInvariant(RunThread(s, t, writeOk))
  {
    StepKeepsLog(s, Run(t, writeOk));
    RunnerHolds(s, t, writeOk);
    var s' := RunThread(s, t, writeOk);
    var id := ChunkId(s.m.head.points);
    if writeOk {
      assert |s.m.head.points| <= HEAD_CAPACITY;
      FlushedReadsBack(id, s.m.head.points);
    }
    hide LockInvariant, HeadInvariant, ReadBack, Quant, Fits, FlushedChunk;
    if writeOk {
      assert Recovery.ReadOf(s'.m.files, id) == Quant(s'.m.wal);
      assert LogInFile(s'.m);
    }
    forall p | p in s'.acked
      ensures Safe(s'.m, p)
    {
      SafeWithMore(s.m, s'.m, p);
    }
  }

  lemma IndexStep(s: State, t: Tid, writeOk: bool)
    requires CrashInvariant(s) && Enabled(s, Run(t, writeOk)) && s.threads[t].FlushWritten?
    ensures CrashInvariant(RunThread(s, t, writeOk))
  {
    StepKeepsLog(s, Run(t, writeOk));
    RunnerHolds(s, t, writeOk);
    hide LockInvariant, HeadInvariant, Recovery.ReadOf, Quant;
    var s' := RunThread(s, t, writeOk);
    forall p | p in s'.acked
      ensures Safe(s'.m, p)
    {
      SafeWithMore(s.m, s'.m, p);
    }
  }

  lemma DropStep(s: State, t: Tid, writeOk: bool)
    requires CrashInvariant(s) && Enabled(s, Run(t, writeOk)) && s.threads[t].FlushIndexed?
    ensures CrashInvariant(RunThread(s, t, writeOk))
  {
    StepKeepsLog(s, Run(t, writeOk));
    RunnerHolds(s, t, writeOk);
    hide LockInvariant, HeadInvariant, Recovery.ReadOf, Quant;
    var s' := RunThread(s, t, writeOk);
    forall p | p in s'.acked
      ensures Safe(s'.m, p)
    {
      assert Safe(s.m, p);
      if QuantPoint(p) in Quant(s.m.wal) {
        var id :| id in s.m.files && Recovery.ReadOf(s.m.files, id) == Quant(s.m.wal);
        assert QuantPoint(p) in Recovery.ReadOf(s'.m.files, id);
      }
    }
  }

  /** A crash loses no safe point and leaves the head equal to the log. */
  lemma CrashStep(s: State, listing: seq<Uint32>, unset: Long)
    requires CrashInvariant(s) && Wal.StrictlyAbove(s.m.wal, unset)
    ensures CrashInvariant(Apply(s, Crash(listing, unset)))
  {
    hide LockInvariant, HeadInvariant, Recovery.ReadOf, Quant, LoadIndex, Wal.Replay, Wal.StrictlyAbove, LogInFile;
    var s' := Apply(s, Crash(listing, unset));
    Wal.ReplayRecoversAllIff(unset, s.m.wal);
    assert HeadInvariant(HeadState([], unset)) by { EmptyHead(unset); }
    ReplayKeepsInvariant(HeadState([], unset), s.m.wal);
    NoThreads(s');
    forall p | p in s'.acked
      ensures Safe(s'.m, p)
    {
      SafeWithMore(s.m, s'.m, p);
    }
  }

  lemma EmptyHead(unset: Long)
    ensures HeadInvariant(HeadState([], unset))
  {
  }

  lemma NoThreads(s: State)
    requires s.lock.None? && s.threads == map[]
    ensures LockInvariant(s) && Holder(s) == Done(true)
  {
  }

  lemma CallStep(s: State, e: Event)
    requires CrashInvariant(s) && Enabled(s, e) && (e.CallPut? || e.CallFlush?)
    ensures CrashInvariant(Apply(s, e))
  {
    StepKeepsLog(s, e);
    assert Holder(Apply(s, e)) == Holder(s);
  }

  /** Every prudent event, a crash included, keeps every answered put safe. */
  lemma PrudentStepKeepsSafe(s: State, e: Event)
    requires CrashInvariant(s) && Enabled(s, e) && Prudent(s, e)
    ensures CrashInvariant(Apply(s, e))
  {
    hide CrashInvariant, RunThread;
    match e
    case CallPut(_, _) => CallStep(s, e);
    case CallFlush(_) => CallStep(s, e);
    case Crash(listing, unset) => CrashStep(s, listing, unset);
    case Run(t, writeOk) =>
      match s.threads[t] {
        case FlushWaiting(_) => OpenStep(s, t, writeOk);
        case FlushWriting(_) => FinishStep(s, t, writeOk);
        case FlushWritten(_) => IndexStep(s, t, writeOk);
        case FlushIndexed(_) => DropStep(s, t, writeOk);
        case _ => PutStep(s, t); RunIgnoresWrite(s, t, writeOk);
      }
  }

  lemma {:induction false} PrudentRunKeepsSafe(s: State, events: seq<Event>)
    requires CrashInvariant(s) && IsRun(s, events) && PrudentRun(s, events)
    ensures CrashInvariant(After(s, events))
    decreases |events|
  {
    hide CrashInvariant, Enabled, Prudent, Apply;
    if events != [] {
      PrudentStepKeepsSafe(s, events[0]);
      PrudentRunKeepsSafe(Apply(s, events[0]), events[1..]);
    }
  }

  lemma StartIsSafe(unset: Long)
    ensures CrashInvariant(Start(unset))
  {
  }

  /** Everything a query sees, up to the quantisation of the codec. */
  ghost predicate Visible(m: Metric, p: Point) {
    QuantPoint(p) in IndexedPoints(m.files, m.index) || QuantPoint(p) in Quant(m.head.points)
  }

  lemma SafeIsVisible(m: Metric, p: Point, listing: seq<Uint32>, unset: Long)
    requires Safe(m, p) && Lists(listing, m.files) && |m.wal| <= HEAD_CAPACITY && Wal.StrictlyAbove(m.wal, unset)
    ensures Visible(Restart(m, listing, unset), p)
  {
    hide Wal.Replay, Wal.StrictlyAbove, Recovery.ReadOf, IndexedPoints, LoadIndex;
    Wal.ReplayRecoversAllIff(unset, m.wal);
    if QuantPoint(p) !in Quant(m.wal) {
      var id :| id in m.files && QuantPoint(p) in Recovery.ReadOf(m.files, id);
      assert id in listing;
      var k :| 0 <= k < |listing| && listing[k] == id;
      Recovery.ContentsRemove(m.files, listing, k);
      Recovery.LoadedContents(m.files, listing);
      var all := IndexedPoints(m.files, LoadIndex(m.files, listing));
      assert QuantPoint(p) in multiset(all);
    }
  }

  /** Over every prudent run from an empty directory, with any number of crashes, one
      more restart shows every point that was ever answered, at least once. */
  lemma AnsweredPutsSurvive(start: Long, events: seq<Event>, listing: seq<Uint32>, unset: Long, p: Point)
    requires IsRun(Start(start), events) && PrudentRun(Start(start), events)
    requires var s := After(Start(start), events);
             Lists(listing, s.m.files) && Wal.StrictlyAbove(s.m.wal, unset) && p in s.acked
    ensures Visible(Restart(After(Start(start), events).m, listing, unset), p)
  {
    hide Enabled, Prudent, Apply, Visible, Lists, Wal.StrictlyAbove;
    StartIsSafe(start);
    PrudentRunKeepsSafe(Start(start), events);
    SafeIsVisible(After(Start(start), events).m, p, listing, unset);
  }

  /** If no point was answered twice, none is shown less often than it was answered. */
  lemma DistinctPutsAreCounted(start: Long, events: seq<Event>, listing: seq<Uint32>, unset: Long)
    requires IsRun(Start(start), events) && PrudentRun(Start(start), events)
    requires var s := After(Start(start), events);
             && Lists(listing, s.m.files) && Wal.StrictlyAbove(s.m.wal, unset)
             && forall i, j :: 0 <= i < j < |s.acked| ==> QuantPoint(s.acked[i]) != QuantPoint(s.acked[j])
    ensures var s := After(Start(start), events);
            multiset(Quant(s.acked)) <= Recovery.Recovered(s, listing, unset)
  {
    hide Enabled, Prudent, PrudentRun, Apply, Visible, Lists, Wal.StrictlyAbove, QuantPoint;
    var s := After(Start(start), events);
    forall p | p in s.acked
      ensures Visible(Restart(s.m, listing, unset), p)
    {
      AnsweredPutsSurvive(start, events, listing, unset, p);
    }
    DistinctAnswersAreCounted(Restart(s.m, listing, unset), s.acked);
  }

  lemma DistinctAnswersAreCounted(m: Metric, acked: seq<Point>)
    requires forall p :: p in acked ==> Visible(m, p)
    requires forall i, j :: 0 <= i < j < |acked| ==> QuantPoint(acked[i]) != QuantPoint(acked[j])
    ensures multiset(Quant(acked)) <= multiset(IndexedPoints(m.files, m.index)) + multiset(Quant(m.head.points))
  {
    hide QuantPoint, IndexedPoints;
    var shown := multiset(IndexedPoints(m.files, m.index)) + multiset(Quant(m.head.points));
    forall q | q in Quant(acked)
      ensures multiset(Quant(acked))[q] == 1 && q in shown
    {
      var i :| 0 <= i < |acked| && Quant(acked)[i] == q;
      assert Visible(m, acked[i]);
      DistinctOnce(Quant(acked), q);
    }
  }

  lemma {:induction false} DistinctOnce(s: seq<Point>, q: Point)
    requires q in s && forall i, j :: 0 <= i < j < |s| ==> s[i] != s[j]
    ensures multiset(s)[q] == 1
  {
    var front, last := s[..|s| - 1], s[|s| - 1];
    assert s == front + [last];
    if q == last {
      assert q !in front;
    } else {
      DistinctOnce(front, q);
    }
  }

  // ---------------------------------------------------------------------------
  // Prudent runs there are
  // ---------------------------------------------------------------------------

  lemma FitsEarlier(s: State, e: Event)
    requires Invariant(s) && Enabled(s, e) && !e.Crash? && Recovery.AllFit(Apply(s, e))
    ensures Recovery.AllFit(s)
    ensures e.Run? && s.threads[e.t].FlushWriting? && e.writeOk && s.m.head.points != [] ==> Fits(s.m.head.points)
  {
    hide HeadInvariant, IndexInvariant, Conserved, WindowInvariant, Fits, Put, HeadChunk, HeadMeta;
    var s' := Apply(s, e);
    if e.Run? {
      RunnerHolds(s, e.t, e.writeOk);
      if s.threads[e.t].FlushWritten? {
        assert s'.flushed[|s.flushed|] == s.m.head.points;
      }
    } else {
      assert Holder(s') == Holder(s);
    }
    forall i | 0 <= i < |s.flushed|
      ensures Fits(s.flushed[i])
    {
      assert s'.flushed[i] == s.flushed[i];
    }
  }

  /** A file of a name no index entry has cannot be read when a flush opens it. */
  lemma FreshIsPrudent(s: State, e: Event)
    requires Invariant(s) && ChunkFiles.FilesInvariant(s) && Enabled(s, e) && !e.Crash? && ChunkFiles.FreshName(s, e)
    requires Recovery.AllFit(Apply(s, e))
    ensures Prudent(s, e)
  {
    FitsEarlier(s, e);
    if e.Run? && s.threads[e.t].FlushWaiting? && s.m.head.points != [] {
      RunnerHolds(s, e.t, e.writeOk);
      var id := ChunkId(s.m.head.points);
      hide HeadInvariant, IndexInvariant, Conserved, WindowInvariant, LockInvariant, LogInvariant, Fits, HeadChunk,
        ChunkId;
      assert id in s.m.files ==> s.m.files[id].Torn?;
      TornReadsNothing(s.m.files, id);
    }
  }

  lemma TornReadsNothing(files: map<Uint32, File>, id: Uint32)
    requires id in files ==> files[id].Torn?
    ensures Recovery.ReadOf(files, id) == []
  {
  }

  /** Every run without a crash whose file names are fresh and whose chunks fit the codec
      is prudent. */
  lemma {:induction false} FreshRunIsPrudent(s: State, events: seq<Event>)
    requires Invariant(s) && ChunkFiles.FilesInvariant(s) && IsRun(s, events) && NoCrash(events)
    requires ChunkFiles.FreshNames(s, events) && Recovery.AllFit(After(s, events))
    ensures Recovery.AllFit(s) && PrudentRun(s, events)
    decreases |events|
  {
    hide Invariant, ChunkFiles.FilesInvariant, Enabled, Apply, Prudent, ChunkFiles.FreshName, Recovery.AllFit;
    if events != [] {
      assert !events[0].Crash?;
      ChunkFiles.FreshStepKeepsFiles(s, events[0]);
      FreshRunIsPrudent(Apply(s, events[0]), events[1..]);
      FreshIsPrudent(s, events[0]);
      FitsEarlier(s, events[0]);
    }
  }

  lemma {:induction false} PrudentConcat(s: State, a: seq<Event>, b: seq<Event>)
    requires PrudentRun(s, a) && PrudentRun(After(s, a), b)
    ensures PrudentRun(s, a + b)
    decreases |a|
  {
    hide Apply, Prudent;
    if a == [] {
      assert a + b == b;
    } else {
      assert (a + b)[0] == a[0] && (a + b)[1..] == a[1..] + b;
      PrudentConcat(Apply(s, a[0]), a[1..], b);
    }
  }

  /** A put never opens a file. */
  lemma PutIsPrudent(s: State, t: Tid, p: Point)
    requires Idle(s, t) && Put(s.m.head, p).1
    ensures PrudentRun(s, PutEvents(t, p))
  {
    hide Put, Recovery.ReadOf, Fits;
    var call := CallPut(t, p);
    var s1 := Apply(s, call);
    assert PutEvents(t, p)[0] == call && PutEvents(t, p)[1..] == Steps(t, true, 3);
    PrudentSteps(s1, t, 3);
    var s2 := Apply(s1, Run(t, true));
    PrudentSteps(s2, t, 2);
    PrudentSteps(Apply(s2, Run(t, true)), t, 1);
  }

  lemma PrudentSteps(s: State, t: Tid, n: nat)
    requires n > 0
    ensures PrudentRun(s, Steps(t, true, n))
            <==> Prudent(s, Run(t, true)) && PrudentRun(Apply(s, Run(t, true)), Steps(t, true, n - 1))
  {
    hide Apply, Prudent;
    assert Steps(t, true, n)[1..] == Steps(t, true, n - 1);
  }

  /** A flush of a head that fits, into a file that holds nothing that is not also in the
      log. */
  lemma FlushIsPrudent(s: State, t: Tid)
    requires Idle(s, t) && s.m.head.points != [] && Fits(s.m.head.points)
    requires forall q :: q in Recovery.ReadOf(s.m.files, ChunkId(s.m.head.points)) ==> q in Quant(s.m.wal)
    ensures PrudentRun(s, FlushEvents(t))
  {
    hide Apply, Prudent, Fits, ChunkId, Recovery.ReadOf, Quant;
    var call := CallFlush(t);
    assert FlushEvents(t)[0] == call && FlushEvents(t)[1..] == Steps(t, true, 4);
    FlushThreads(s, t);
    var s1 := Apply(s, call);
    var s2 := Apply(s1, Run(t, true));
    var s3 := Apply(s2, Run(t, true));
    var s4 := Apply(s3, Run(t, true));
    FlushEventIsPrudent(s1, t);
    FlushEventIsPrudent(s2, t);
    FlushEventIsPrudent(s3, t);
    FlushEventIsPrudent(s4, t);
    assert Prudent(s, call) by { CallIsPrudent(s, t); }
    PrudentSteps(s1, t, 4);
    PrudentSteps(s2, t, 3);
    PrudentSteps(s3, t, 2);
    PrudentSteps(s4, t, 1);
  }

  lemma CallIsPrudent(s: State, t: Tid)
    ensures Prudent(s, CallFlush(t))
  {
  }

  /** Only opening and finishing a file ask for care. */
  lemma FlushEventIsPrudent(s: State, t: Tid)
    requires t in s.threads && s.m.head.points != [] ==>
               && (s.threads[t].FlushWaiting? ==>
                     forall q :: q in Recovery.ReadOf(s.m.files, ChunkId(s.m.head.points)) ==> q in Quant(s.m.wal))
               && (s.threads[t].FlushWriting? ==> Fits(s.m.head.points))
    ensures Prudent(s, Run(t, true))
  {
    hide Fits, ChunkId, Recovery.ReadOf, Quant;
  }

  lemma FlushThreads(s: State, t: Tid)
    requires Idle(s, t) && s.m.head.points != []
    ensures var s1 := Apply(s, CallFlush(t));
            var s2 := Apply(s1, Run(t, true));
            var s3 := Apply(s2, Run(t, true));
            var s4 := Apply(s3, Run(t, true));
            && s1.m == s.m && s2.m.head == s.m.head
            && t in s1.threads && t in s2.threads && t in s3.threads && t in s4.threads
            && s1.threads[t].FlushWaiting? && s2.threads[t].FlushWriting?
            && s3.threads[t].FlushWritten? && s4.threads[t].FlushIndexed?
  {
    hide HeadChunk, HeadMeta, ChunkId;
  }

  /** A prudent run with a crash in it: a put, a flush, a second put, a crash that leaves
      it in the log, and a third put. */
  lemma CrashedRun(unset: Long, again: Long, p: Point, q: Point, r: Point)
    requires again < q.ts <= r.ts
    ensures var before := PutEvents(0, p) + FlushEvents(1);
            var events := before + (PutEvents(2, q) + ([Crash([ChunkId([p])], again)] + PutEvents(0, r)));
            && IsRun(Start(unset), events) && PrudentRun(Start(unset), events)
            && After(Start(unset), events).acked == [p, q, r]
            && After(Start(unset), events).m.index == [MetaOf([p])]
            && After(Start(unset), events).m.head.points == [q, r]
  {
    hide Apply, Enabled, Prudent, HeadChunk, ChunkId, LoadIndex, Lists;
    var s0, before, crash := Start(unset), PutEvents(0, p) + FlushEvents(1), Crash([ChunkId([p])], again);
    ChunkFiles.FirstChunk(unset, p);
    FirstIsPrudent(unset, p);
    var s1 := After(s0, before);
    PutRun(s1, 2, q);
    PutIsPrudent(s1, 2, q);
    var s2 := After(s1, PutEvents(2, q));
    assert [] + [q] == [q] && [p] + [q] == [p, q];
    CrashAfterPut(s2, again, p, q);
    var s3 := Apply(s2, crash);
    PutRun(s3, 0, r);
    PutIsPrudent(s3, 0, r);
    assert [q] + [r] == [q, r] && [p, q] + [r] == [p, q, r];
    var tail := [crash] + PutEvents(0, r);
    NextEvent(s2, crash, PutEvents(0, r));
    PrudentTail(s2, crash, PutEvents(0, r));
    RunConcat(s1, PutEvents(2, q), tail);
    PrudentConcat(s1, PutEvents(2, q), tail);
    RunConcat(s0, before, PutEvents(2, q) + tail);
    PrudentConcat(s0, before, PutEvents(2, q) + tail);
  }

  lemma PrudentTail(s: State, e: Event, events: seq<Event>)
    requires Prudent(s, e) && PrudentRun(Apply(s, e), events)
    ensures PrudentRun(s, [e] + events)
  {
    hide Apply, Prudent;
    assert ([e] + events)[1..] == events;
  }

  lemma FirstIsPrudent(unset: Long, p: Point)
    ensures PrudentRun(Start(unset), PutEvents(0, p) + FlushEvents(1))
  {
    hide Apply, Enabled, Prudent, HeadChunk, ChunkId;
    PutRun(Start(unset), 0, p);
    PutIsPrudent(Start(unset), 0, p);
    var s1 := After(Start(unset), PutEvents(0, p));
    assert s1.m == Metric(HeadState([p], p.ts), [], map[], [p]);
    OneFits(p);
    TornReadsNothing(s1.m.files, ChunkId([p]));
    FlushIsPrudent(s1, 1);
    PrudentConcat(Start(unset), PutEvents(0, p), FlushEvents(1));
  }

  lemma OneFits(p: Point)
    ensures Fits([p])
  {
  }

  lemma CrashAfterPut(s: State, again: Long, p: Point, q: Point)
    requires again < q.ts
    requires s.m == Metric(HeadState([q], q.ts), [MetaOf([p])], map[ChunkId([p]) := HeadChunk([p])], [q])
    ensures var crash := Crash([ChunkId([p])], again);
            && Enabled(s, crash) && Prudent(s, crash)
            && Apply(s, crash) == s.(lock := None, threads := map[])
  {
    hide HeadChunk, ChunkId, MetaOf, Signed64, Wal.Replay;
    hide LoadIndex;
    Recovery.OneFileLoaded(p);
    Recovery.OneRecord(again, q);
  }
}
