/** What a server answers that has crashed, restarted and gone on, any number of times
    (src/server.c, src/registry.c). */
module Live {
  import opened Words
  import opened Heads
  import opened Chunks
  import opened Store
  import opened Protocol
  import opened Query
  import opened Durability
  import Recovery
  import V = Values
  import Wal

  // ---------------------------------------------------------------------------
  // What every prudent event keeps
  // ---------------------------------------------------------------------------

  /** The file is what a flush of `points` writes under their name. */
  ghost predicate Holds(files: map<Uint32, File>, id: Uint32, points: seq<Point>) {
    && id in files
    && GoodChunk(points) && Fits(points)
    && ChunkId(points) == id && files[id] == HeadChunk(points)
  }

  /** Every readable file is a flushed head, made of accepted points. */
  ghost predicate FilesHoldAccepted(s: State) {
    forall id :: id in s.m.files && s.m.files[id].Whole? ==>
      exists points :: Holds(s.m.files, id, points) && Among(points, s.accepted)
  }

  ghost predicate Among(points: seq<Point>, accepted: seq<Point>) {
    forall p :: p in points ==> p in accepted
  }

  /** Some index entry names the file and bounds what it holds. */
  ghost predicate Bounded(m: Metric, id: Uint32) {
    exists i :: 0 <= i < |m.index| && m.index[i].id == id && Bounds(m.index[i], Recovery.ReadOf(m.files, id))
  }

  /** The file was written by the thread that holds the lock and is not indexed yet. */
  ghost predicate JustWritten(s: State, id: Uint32) {
    Holder(s).FlushWritten? && s.m.head.points != [] && id == ChunkId(s.m.head.points)
  }

  ghost predicate FilesFound(s: State) {
    forall id :: id in s.m.files && s.m.files[id].Whole? ==> Bounded(s.m, id) || JustWritten(s, id)
  }

  ghost predicate WrittenIsHead(s: State) {
    Holder(s).FlushWritten? ==>
      s.m.head.points != [] && Holds(s.m.files, ChunkId(s.m.head.points), s.m.head.points)
  }

  ghost predicate LiveInvariant(s: State) {
    && FilesHoldAccepted(s)
    && FilesFound(s)
    && WrittenIsHead(s)
    && Among(s.m.head.points, s.accepted)
    && Among(s.m.wal, s.accepted)
  }

  lemma HeldReadsBack(files: map<Uint32, File>, id: Uint32, points: seq<Point>)
    requires Holds(files, id, points)
    ensures Recovery.ReadOf(files, id) == Quant(points)
  {
    hide ReadBack, FlushedChunk, Fits, Quant, ChunkId;
    FlushedReadsBack(id, points);
  }

  /** A change that leaves the files and the index as they are and ends no write. */
  lemma QuietChange(s: State, s': State)
    requires LiveInvariant(s)
    requires s'.m.files == s.m.files && s'.m.index == s.m.index && s.accepted <= s'.accepted
    requires Among(s'.m.head.points, s'.accepted) && Among(s'.m.wal, s'.accepted)
    requires (!Holder(s).FlushWritten? && !Holder(s').FlushWritten?)
             || (Holder(s') == Holder(s) && s'.m.head == s.m.head)
    ensures LiveInvariant(s')
  {
    hide Holds, Holder;
    forall id | id in s'.m.files && s'.m.files[id].Whole?
      ensures exists points :: Holds(s'.m.files, id, points) && Among(points, s'.accepted)
      ensures Bounded(s'.m, id) || JustWritten(s', id)
    {
      var points :| Holds(s.m.files, id, points) && Among(points, s.accepted);
      assert Among(points, s'.accepted);
      assert Bounded(s.m, id) || JustWritten(s, id);
      if Bounded(s.m, id) {
        assert Bounded(s'.m, id);
      }
    }
  }

  /** A put, or a step of a flush that opens, gives up or ends. */
  lemma QuietStep(s: State, e: Event)
    requires CrashInvariant(s) && LiveInvariant(s) && Enabled(s, e) && !e.Crash?
    requires e.Run? ==>
               && !s.threads[e.t].FlushWritten?
               && !(s.threads[e.t].FlushWriting? && e.writeOk)
               && !(s.threads[e.t].FlushWaiting? && s.m.head.points != [])
    ensures LiveInvariant(Apply(s, e))
  {
    hide FilesHoldAccepted, FilesFound, WrittenIsHead, HeadInvariant, Put, Safe, LogInFile, HeadChunk, HeadMeta;
    var s' := Apply(s, e);
    if e.Run? {
      RunnerHolds(s, e.t, e.writeOk);
      if s.threads[e.t].PutWaiting? {
        PutAppends(s.m.head, s.threads[e.t].p);
      }
    } else {
      assert Holder(s') == Holder(s);
    }
    hide LockInvariant;
    QuietChange(s, s');
  }

  /** Opening a file makes it unreadable and leaves the others. */
  lemma OpenStep(s: State, t: Tid, writeOk: bool)
    requires CrashInvariant(s) && LiveInvariant(s) && Enabled(s, Run(t, writeOk))
    requires s.threads[t].FlushWaiting? && s.m.head.points != []
    ensures LiveInvariant(RunThread(s, t, writeOk))
  {
    RunnerHolds(s, t, writeOk);
    var s' := RunThread(s, t, writeOk);
    var target := ChunkId(s.m.head.points);
    assert s'.m == s.m.(files := s.m.files[target := Torn]) && !Holder(s').FlushWritten?;
    hide LockInvariant, HeadInvariant, LogInvariant, Safe, LogInFile, HeadChunk, ChunkId, Holder, Fits;
    forall id | id in s'.m.files && s'.m.files[id].Whole?
      ensures exists points :: Holds(s'.m.files, id, points) && Among(points, s'.accepted)
      ensures Bounded(s'.m, id)
    {
      assert id != target && s.m.files[id] == s'.m.files[id];
      var points :| Holds(s.m.files, id, points) && Among(points, s.accepted);
      assert Holds(s'.m.files, id, points);
      SameFileBounded(s.m, s'.m, id);
    }
  }

  /** An entry still bounds a file that did not change. */
  lemma SameFileBounded(m: Metric, m': Metric, id: Uint32)
    requires Bounded(m, id) && m.index <= m'.index && id in m.files && id in m'.files && m'.files[id] == m.files[id]
    ensures Bounded(m', id)
  {
    hide Bounds, ReadBack;
    var i :| 0 <= i < |m.index| && m.index[i].id == id && Bounds(m.index[i], Recovery.ReadOf(m.files, id));
    assert m'.index[i] == m.index[i];
  }

  /** A finished file holds the head. */
  lemma FinishStep(s: State, t: Tid)
    requires CrashInvariant(s) && LiveInvariant(s) && Enabled(s, Run(t, true)) && Prudent(s, Run(t, true))
    requires s.threads[t].FlushWriting?
    ensures LiveInvariant(RunThread(s, t, true))
  {
    RunnerHolds(s, t, true);
    var s' := RunThread(s, t, true);
    var points := s.m.head.points;
    var written := ChunkId(points);
    assert GoodChunk(points) && Fits(points);
    assert s'.m == s.m.(files := s.m.files[written := HeadChunk(points)]) && Holder(s').FlushWritten?;
    hide LockInvariant, HeadInvariant, LogInvariant, Safe, LogInFile, HeadChunk, ChunkId, Holder, Fits, GoodChunk,
      Prudent;
    assert Holds(s'.m.files, written, points);
    forall id | id in s'.m.files && s'.m.files[id].Whole?
      ensures exists points :: Holds(s'.m.files, id, points) && Among(points, s'.accepted)
      ensures Bounded(s'.m, id) || JustWritten(s', id)
    {
      if id == written {
        assert Holds(s'.m.files, id, points) && Among(points, s'.accepted);
      } else {
        var held :| Holds(s.m.files, id, held) && Among(held, s.accepted);
        assert Holds(s'.m.files, id, held);
        assert !JustWritten(s, id);
        SameFileBounded(s.m, s'.m, id);
      }
    }
  }

  /** The new entry bounds the file just written. */
  lemma IndexStep(s: State, t: Tid)
    requires CrashInvariant(s) && LiveInvariant(s) && Enabled(s, Run(t, true))
    requires s.threads[t].FlushWritten?
    ensures LiveInvariant(RunThread(s, t, true))
  {
    hide Holds, Bounds, Bounded, Quant, Recovery.ReadOf, ChunkId, MetaOf, RunThread, CrashInvariant;
    var s' := RunThread(s, t, true);
    var points := s.m.head.points;
    IndexEffect(s, t);
    var written := ChunkId(points);
    HeldReadsBack(s.m.files, written, points);
    SortedIsBounded(points);
    LastIsBounded(s'.m, written);
    forall id | id in s'.m.files && s'.m.files[id].Whole?
      ensures Bounded(s'.m, id)
    {
      if id != written {
        SameFileBounded(s.m, s'.m, id);
      }
    }
  }

  lemma IndexEffect(s: State, t: Tid)
    requires CrashInvariant(s) && WrittenIsHead(s) && Enabled(s, Run(t, true)) && s.threads[t].FlushWritten?
    ensures var s' := RunThread(s, t, true);
            && s.m.head.points != [] && Sorted(s.m.head.points) && Holder(s) == s.threads[t]
            && s'.m == s.m.(index := s.m.index + [MetaOf(s.m.head.points)], head := HeadState([], 0))
            && MetaOf(s.m.head.points).id == ChunkId(s.m.head.points)
            && s'.accepted == s.accepted && !Holder(s').FlushWritten?
  {
    hide Holds, Safe, LogInFile, ChunkId;
    RunnerHolds(s, t, true);
  }

  lemma LastIsBounded(m: Metric, id: Uint32)
    requires m.index != []
    requires var last := m.index[|m.index| - 1]; last.id == id && Bounds(last, Recovery.ReadOf(m.files, id))
    ensures Bounded(m, id)
  {
  }

  lemma {:induction false} ReplayAddsRecords(h: HeadState, records: seq<Point>)
    ensures forall p :: p in Wal.Replay(h, records).points ==> p in h.points || p in records
    decreases |records|
  {
    hide Put;
    if records != [] {
      PutAppends(h, records[0]);
      ReplayAddsRecords(Wal.ReplayOne(h, records[0]), records[1..]);
      assert records[0] in records;
    }
  }

  /** A restart makes an entry for every readable file. */
  lemma {:induction false} LoadedIsBounded(files: map<Uint32, File>, listing: seq<Uint32>, id: Uint32,
                                           points: seq<Point>)
    requires id in listing && Holds(files, id, points)
    ensures exists i :: 0 <= i < |LoadIndex(files, listing)| && LoadIndex(files, listing)[i].id == id
                        && Bounds(LoadIndex(files, listing)[i], Recovery.ReadOf(files, id))
  {
    hide Bounds, Recovery.ReadOf, Signed64;
    var index := LoadIndex(files, listing);
    var rest := LoadIndex(files, listing[1..]);
    if listing[0] == id {
      HeaderBounds(files, id, points);
      assert index[0].id == id;
    } else {
      LoadedIsBounded(files, listing[1..], id, points);
      var j :| 0 <= j < |rest| && rest[j].id == id && Bounds(rest[j], Recovery.ReadOf(files, id));
      assert index[|index| - |rest| + j] == rest[j];
    }
  }

  lemma CrashStep(s: State, listing: seq<Uint32>, unset: Long)
    requires LiveInvariant(s) && Lists(listing, s.m.files)
    ensures LiveInvariant(Apply(s, Crash(listing, unset)))
  {
    var s' := Apply(s, Crash(listing, unset));
    ReplayAddsRecords(HeadState([], unset), s.m.wal);
    assert !Holder(s').FlushWritten?;
    hide Holds, LoadIndex, Wal.Replay, Holder;
    forall id | id in s'.m.files && s'.m.files[id].Whole?
      ensures exists points :: Holds(s'.m.files, id, points) && Among(points, s'.accepted)
      ensures Bounded(s'.m, id)
    {
      var points :| Holds(s.m.files, id, points) && Among(points, s.accepted);
      LoadedIsBounded(s.m.files, listing, id, points);
    }
  }

  /** Every prudent event, a crash included, keeps every readable file found. */
  lemma PrudentStepKeepsLive(s: State, e: Event)
    requires CrashInvariant(s) && LiveInvariant(s) && Enabled(s, e) && Prudent(s, e)
    ensures LiveInvariant(Apply(s, e))
  {
    hide CrashInvariant, LiveInvariant, RunThread, Prudent;
    match e
    case Crash(listing, unset) => CrashStep(s, listing, unset);
    case Run(t, writeOk) =>
      var pc := s.threads[t];
      if pc.FlushWaiting? && s.m.head.points != [] {
        OpenStep(s, t, writeOk);
      } else if pc.FlushWriting? && writeOk {
        FinishStep(s, t);
      } else if pc.FlushWritten? {
        IndexStep(s, t);
        RunIgnoresWrite(s, t, writeOk);
      } else {
        QuietStep(s, e);
      }
    case _ => QuietStep(s, e);
  }

  lemma {:induction false} PrudentRunKeepsLive(s: State, events: seq<Event>)
    requires CrashInvariant(s) && LiveInvariant(s) && IsRun(s, events) && PrudentRun(s, events)
    ensures CrashInvariant(After(s, events)) && LiveInvariant(After(s, events))
    decreases |events|
  {
    hide CrashInvariant, LiveInvariant, Enabled, Prudent, Apply;
    if events != [] {
      PrudentStepKeepsSafe(s, events[0]);
      PrudentStepKeepsLive(s, events[0]);
      PrudentRunKeepsLive(Apply(s, events[0]), events[1..]);
    }
  }

  lemma StartIsLive(unset: Long)
    ensures LiveInvariant(Start(unset))
  {
  }

  // ---------------------------------------------------------------------------
  // What a query shows
  // ---------------------------------------------------------------------------

  lemma {:induction false} FromChunksMembers(files: map<Uint32, File>, index: seq<Meta>, start: Long, end: Long,
                                             inclusive: bool)
    ensures forall p :: p in FromChunks(files, index, start, end, inclusive) <==>
              exists i :: 0 <= i < |index| && MayOverlap(index[i], start, end, inclusive)
                          && p in Recovery.ReadOf(files, index[i].id) && Within(p, start, end)
  {
    hide Recovery.ReadOf, MayOverlap, Within, Filter;
    if index != [] {
      var front, last := index[..|index| - 1], index[|index| - 1];
      FromChunksMembers(files, front, start, end, inclusive);
      FilterMembers(Recovery.ReadOf(files, last.id), start, end);
      forall p
        ensures p in FromChunks(files, index, start, end, inclusive) <==>
                  exists i :: 0 <= i < |index| && MayOverlap(index[i], start, end, inclusive)
                              && p in Recovery.ReadOf(files, index[i].id) && Within(p, start, end)
      {
        if p in FromChunks(files, front, start, end, inclusive) {
          var i :| 0 <= i < |front| && MayOverlap(front[i], start, end, inclusive)
                   && p in Recovery.ReadOf(files, front[i].id) && Within(p, start, end);
          assert index[i] == front[i];
        }
        if i :| 0 <= i < |index| && MayOverlap(index[i], start, end, inclusive)
                && p in Recovery.ReadOf(files, index[i].id) && Within(p, start, end) {
          assert i < |front| ==> front[i] == index[i];
        }
      }
    }
  }

  /** A point in range of a file that an entry bounds is gathered. */
  lemma BoundedIsGathered(m: Metric, id: Uint32, q: Point, start: Long, end: Long, inclusive: bool)
    requires Bounded(m, id) && q in Recovery.ReadOf(m.files, id) && Within(q, start, end)
    ensures q in Answer(m, start, end, inclusive)
  {
    hide Recovery.ReadOf;
    FromChunksMembers(m.files, m.index, start, end, inclusive);
    var i :| 0 <= i < |m.index| && m.index[i].id == id && Bounds(m.index[i], Recovery.ReadOf(m.files, id));
    assert MayOverlap(m.index[i], start, end, inclusive);
  }

  /** A point in range whose quantised form the head holds is shown. */
  lemma HeadIsShown(m: Metric, p: Point, start: Long, end: Long, inclusive: bool)
    requires QuantPoint(p) in Quant(m.head.points) && Within(p, start, end)
    ensures QuantPoint(p) in Quant(Answer(m, start, end, inclusive))
  {
    hide V.Mask;
    var i :| 0 <= i < |m.head.points| && Quant(m.head.points)[i] == QuantPoint(p);
    var r := m.head.points[i];
    FilterMembers(m.head.points, start, end);
    assert r in Filter(m.head.points, start, end);
    Recovery.QuantMember(Answer(m, start, end, inclusive), r);
  }

  /** So is one that a file holds. */
  lemma FileIsShown(s: State, p: Point, id: Uint32, start: Long, end: Long, inclusive: bool)
    requires LiveInvariant(s) && QuantPoint(p) in Recovery.ReadOf(s.m.files, id) && Within(p, start, end)
    ensures QuantPoint(p) in Quant(Answer(s.m, start, end, inclusive))
  {
    ReadableIsWhole(s.m.files, id, QuantPoint(p));
    hide FilesHoldAccepted, Answer, Quant, Recovery.ReadOf, V.Mask, Holds;
    if Bounded(s.m, id) {
      BoundedIsGathered(s.m, id, QuantPoint(p), start, end, inclusive);
      Recovery.QuantMember(Answer(s.m, start, end, inclusive), QuantPoint(p));
      assert QuantPoint(QuantPoint(p)) == QuantPoint(p) by { QuantPointTwice(p); }
    } else {
      assert JustWritten(s, id);
      HeldReadsBack(s.m.files, id, s.m.head.points);
      HeadIsShown(s.m, p, start, end, inclusive);
    }
  }

  lemma QuantPointTwice(p: Point)
    ensures QuantPoint(QuantPoint(p)) == QuantPoint(p)
  {
  }

  lemma ReadableIsWhole(files: map<Uint32, File>, id: Uint32, q: Point)
    requires q in Recovery.ReadOf(files, id)
    ensures id in files && files[id].Whole?
  {
  }

  /** And one that the log holds: it is still in the head, or the head has just become
      a file. */
  lemma LoggedIsShown(s: State, p: Point, start: Long, end: Long, inclusive: bool)
    requires CrashInvariant(s) && LiveInvariant(s) && QuantPoint(p) in Quant(s.m.wal) && Within(p, start, end)
    ensures QuantPoint(p) in Quant(Answer(s.m, start, end, inclusive))
  {
    hide LiveInvariant, Answer, Recovery.ReadOf, QuantPoint, Within, Safe, HeadInvariant, LockInvariant;
    if Holder(s).FlushIndexed? {
      var id :| id in s.m.files && Recovery.ReadOf(s.m.files, id) == Quant(s.m.wal);
      FileIsShown(s, p, id, start, end, inclusive);
    } else {
      assert s.m.wal <= s.m.head.points;
      var i :| 0 <= i < |s.m.wal| && Quant(s.m.wal)[i] == QuantPoint(p);
      assert Quant(s.m.head.points)[i] == QuantPoint(p);
      HeadIsShown(s.m, p, start, end, inclusive);
    }
  }

  lemma SafeIsShown(s: State, p: Point, start: Long, end: Long, inclusive: bool)
    requires CrashInvariant(s) && LiveInvariant(s) && p in s.acked && Within(p, start, end)
    ensures QuantPoint(p) in Quant(Answer(s.m, start, end, inclusive))
  {
    assert Safe(s.m, p);
    hide CrashInvariant, LiveInvariant, Answer, Quant, Recovery.ReadOf, QuantPoint, Within;
    if QuantPoint(p) in Quant(s.m.wal) {
      LoggedIsShown(s, p, start, end, inclusive);
    } else {
      var id :| id in s.m.files && QuantPoint(p) in Recovery.ReadOf(s.m.files, id);
      FileIsShown(s, p, id, start, end, inclusive);
    }
  }

  /** Over every prudent run, with any number of crashes and whatever the server did
      after each restart: a query shows every answered point in its range. */
  lemma AnsweredPutsStayVisible(unset: Long, events: seq<Event>, p: Point, start: Long, end: Long, inclusive: bool)
    requires IsRun(Start(unset), events) && PrudentRun(Start(unset), events)
    requires p in After(Start(unset), events).acked && Within(p, start, end)
    ensures QuantPoint(p) in Quant(Answer(After(Start(unset), events).m, start, end, inclusive))
  {
    hide Enabled, Prudent, Apply, CrashInvariant, LiveInvariant, Answer, Within, QuantPoint;
    StartIsSafe(unset);
    StartIsLive(unset);
    PrudentRunKeepsLive(Start(unset), events);
    SafeIsShown(After(Start(unset), events), p, start, end, inclusive);
  }

  /** A query shows nothing else than accepted points in its range. */
  lemma ShownPointsWereAccepted(unset: Long, events: seq<Event>, r: Point, start: Long, end: Long, inclusive: bool)
    requires IsRun(Start(unset), events) && PrudentRun(Start(unset), events)
    requires r in Answer(After(Start(unset), events).m, start, end, inclusive)
    ensures WasAccepted(After(Start(unset), events), r, start, end)
  {
    hide Enabled, Prudent, Apply, CrashInvariant, LiveInvariant, Answer, Within, QuantPoint;
    StartIsSafe(unset);
    StartIsLive(unset);
    PrudentRunKeepsLive(Start(unset), events);
    var p := ShownIsAccepted(After(Start(unset), events), r, start, end, inclusive);
  }

  /** What a query owes: every answered point in its range is among the shown ones, up
      to quantisation, and every shown one was accepted and is in range. */
  ghost predicate Shows(s: State, shown: seq<Point>, start: Long, end: Long) {
    && (forall p :: p in s.acked && Within(p, start, end) ==> QuantPoint(p) in Quant(shown))
    && forall r :: r in shown ==> WasAccepted(s, r, start, end)
  }

  ghost predicate WasAccepted(s: State, r: Point, start: Long, end: Long) {
    exists p :: p in s.accepted && Within(p, start, end) && QuantPoint(p) == QuantPoint(r)
  }

  /** Both together. */
  lemma AnswerAfterCrashes(unset: Long, events: seq<Event>, start: Long, end: Long, inclusive: bool)
    requires IsRun(Start(unset), events) && PrudentRun(Start(unset), events)
    ensures var s := After(Start(unset), events);
            Shows(s, Answer(s.m, start, end, inclusive), start, end)
  {
    hide Enabled, Prudent, Apply, Answer, Within, QuantPoint;
    var s := After(Start(unset), events);
    forall p | p in s.acked && Within(p, start, end)
      ensures QuantPoint(p) in Quant(Answer(s.m, start, end, inclusive))
    {
      AnsweredPutsStayVisible(unset, events, p, start, end, inclusive);
    }
    forall r | r in Answer(s.m, start, end, inclusive)
      ensures WasAccepted(s, r, start, end)
    {
      ShownPointsWereAccepted(unset, events, r, start, end, inclusive);
    }
  }

  lemma ShownIsAccepted(s: State, r: Point, start: Long, end: Long, inclusive: bool) returns (p: Point)
    requires LiveInvariant(s) && r in Answer(s.m, start, end, inclusive)
    ensures p in s.accepted && Within(p, start, end) && QuantPoint(p) == QuantPoint(r)
  {
    hide FilesFound, WrittenIsHead, FromChunks, Filter, Holds, MayOverlap, V.Mask, Recovery.ReadOf;
    FromChunksMembers(s.m.files, s.m.index, start, end, inclusive);
    FilterMembers(s.m.head.points, start, end);
    if r in Filter(s.m.head.points, start, end) {
      p := r;
    } else {
      var i :| 0 <= i < |s.m.index| && r in Recovery.ReadOf(s.m.files, s.m.index[i].id) && Within(r, start, end);
      var id := s.m.index[i].id;
      ReadableIsWhole(s.m.files, id, r);
      var points :| Holds(s.m.files, id, points) && Among(points, s.accepted);
      HeldReadsBack(s.m.files, id, points);
      var k :| 0 <= k < |points| && Quant(points)[k] == r;
      p := points[k];
      assert p in points;
      QuantPointTwice(p);
    }
  }
}
