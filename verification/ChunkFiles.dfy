/** When the chunk files of a metric stay readable. A chunk file is named by the
    first timestamp of its head cut to 32 bits, and opening it for writing
    destroys what it held. */
module ChunkFiles {
  import opened Words
  import opened Heads
  import opened Chunks
  import opened Store
  import opened Protocol

  /** Every indexed chunk still lies in its file as it was flushed. */
  ghost predicate AllIntact(s: State)
    requires IndexInvariant(s)
  {
    forall i :: 0 <= i < |s.flushed| ==>
      s.m.index[i].id in s.m.files && s.m.files[s.m.index[i].id] == HeadChunk(s.flushed[i])
  }

  ghost predicate Indexed(s: State, id: Uint32) {
    exists i :: 0 <= i < |s.m.index| && s.m.index[i].id == id
  }

  /** The event opens a chunk file. */
  predicate Opens(s: State, e: Event) {
    e.Run? && e.t in s.threads && s.threads[e.t].FlushWaiting? && s.m.head.points != []
  }

  /** If the event opens a chunk file, its name is not that of an indexed chunk. */
  ghost predicate FreshName(s: State, e: Event) {
    Opens(s, e) ==> !Indexed(s, ChunkId(s.m.head.points))
  }

  ghost predicate FreshNames(s: State, events: seq<Event>)
    decreases |events|
  {
    events == [] || (FreshName(s, events[0]) && FreshNames(Apply(s, events[0]), events[1..]))
  }

  /** The ids of the index are distinct; the file being written is none of them;
      and every readable file is indexed or the one just written. */
  ghost predicate FilesInvariant(s: State)
    requires Invariant(s)
  {
    && AllIntact(s)
    && (forall i, j :: 0 <= i < j < |s.m.index| ==> s.m.index[i].id != s.m.index[j].id)
    && (Holder(s).FlushWriting? || Holder(s).FlushWritten? ==>
          && !Indexed(s, ChunkId(s.m.head.points))
          && ChunkId(s.m.head.points) in s.m.files)
    && (Holder(s).FlushWritten? ==> s.m.files[ChunkId(s.m.head.points)] == HeadChunk(s.m.head.points))
    && forall id :: id in s.m.files && s.m.files[id].Whole? ==>
         Indexed(s, id) || (Holder(s).FlushWritten? && id == ChunkId(s.m.head.points))
  }

  lemma StartFiles(unset: Long)
    ensures Invariant(Start(unset)) && FilesInvariant(Start(unset))
  {
    hide HeadChunk, ChunkId;
    StartInvariant(unset);
    assert Start(unset).m.files == map[];
  }

  /** A change that touches neither the files, the index nor a write in progress. */
  lemma QuietChange(s: State, s': State)
    requires Invariant(s) && FilesInvariant(s) && Invariant(s')
    requires s'.m.files == s.m.files && s'.m.index == s.m.index && s'.flushed == s.flushed
    requires (Holder(s') == Holder(s) && s'.m.head == s.m.head)
             || (!Holder(s').FlushWriting? && !Holder(s').FlushWritten? && !Holder(s).FlushWritten?)
    ensures FilesInvariant(s')
  {
    hide HeadChunk, HeadInvariant, Conserved, LockInvariant;
    forall id | Indexed(s, id)
      ensures Indexed(s', id)
    {
    }
  }

  /** A change that only rewrites the file of the head being flushed. */
  lemma WriteChange(s: State, s': State, file: File)
    requires Invariant(s) && FilesInvariant(s) && Invariant(s') && s.m.head.points != []
    requires !Indexed(s, ChunkId(s.m.head.points))
    requires s'.m == s.m.(files := s.m.files[ChunkId(s.m.head.points) := file]) && s'.flushed == s.flushed
    requires (Holder(s').FlushWriting? && file == Torn)
             || (Holder(s').FlushWritten? && file == HeadChunk(s.m.head.points))
    requires !Holder(s).FlushWritten?
    ensures FilesInvariant(s')
  {
    hide HeadChunk, HeadInvariant, Conserved, LockInvariant;
    forall id
      ensures Indexed(s, id) <==> Indexed(s', id)
    {
    }
    forall i | 0 <= i < |s.m.index|
      ensures s.m.index[i].id != ChunkId(s.m.head.points)
    {
    }
  }

  /** Indexing the chunk just written. */
  lemma IndexChange(s: State, s': State)
    requires Invariant(s) && FilesInvariant(s) && Invariant(s') && Holder(s).FlushWritten?
    requires s.m.head.points != []
    requires s'.m == IndexChunk(s.m) && s'.flushed == s.flushed + [s.m.head.points]
    requires Holder(s').FlushIndexed?
    ensures FilesInvariant(s')
  {
    hide HeadChunk, HeadInvariant, Conserved, LockInvariant, GoodChunk, MetaOf, ChunkId, LogInvariant, WindowInvariant;
    var n := |s.m.index|;
    assert s'.m.index[n].id == ChunkId(s.m.head.points);
    forall id
      ensures Indexed(s', id) <==> Indexed(s, id) || id == ChunkId(s.m.head.points)
    {
      if Indexed(s, id) {
        var i :| 0 <= i < n && s.m.index[i].id == id;
        assert s'.m.index[i].id == id;
      }
    }
  }

  lemma IndexEvent(s: State, e: Event)
    requires Invariant(s) && FilesInvariant(s) && Enabled(s, e) && e.Run? && s.threads[e.t].FlushWritten?
    requires Invariant(Apply(s, e))
    ensures FilesInvariant(Apply(s, e))
  {
    hide FilesInvariant, HeadChunk, HeadMeta, HeadInvariant, IndexInvariant, Conserved, WindowInvariant;
    RunnerHolds(s, e.t, e.writeOk);
    IndexChange(s, Apply(s, e));
  }

  lemma WriteEvent(s: State, e: Event)
    requires Invariant(s) && FilesInvariant(s) && Enabled(s, e) && e.Run? && FreshName(s, e)
    requires Opens(s, e) || (s.threads[e.t].FlushWriting? && e.writeOk)
    requires Invariant(Apply(s, e))
    ensures FilesInvariant(Apply(s, e))
  {
    hide FilesInvariant, HeadChunk, HeadInvariant, IndexInvariant, Conserved, WindowInvariant, Indexed;
    RunnerHolds(s, e.t, e.writeOk);
    if !Opens(s, e) {
      WritingName(s);
    }
    WriteChange(s, Apply(s, e), if Opens(s, e) then Torn else HeadChunk(s.m.head.points));
  }

  lemma QuietEvent(s: State, e: Event)
    requires Invariant(s) && FilesInvariant(s) && Enabled(s, e) && !e.Crash? && !Opens(s, e)
    requires e.Run? ==> !s.threads[e.t].FlushWritten? && !(s.threads[e.t].FlushWriting? && e.writeOk)
    requires Invariant(Apply(s, e))
    ensures FilesInvariant(Apply(s, e))
  {
    hide FilesInvariant, HeadChunk, HeadInvariant, IndexInvariant, Conserved, WindowInvariant, LogInvariant;
    if e.Run? {
      RunnerHolds(s, e.t, e.writeOk);
    }
    hide LockInvariant;
    QuietChange(s, Apply(s, e));
  }

  /** A sub-step that opens a fresh name, or no file at all, keeps every chunk. */
  lemma FreshStepKeepsFiles(s: State, e: Event)
    requires Invariant(s) && FilesInvariant(s) && Enabled(s, e) && !e.Crash? && FreshName(s, e)
    ensures Invariant(Apply(s, e)) && FilesInvariant(Apply(s, e))
  {
    hide Invariant, FilesInvariant, Apply;
    StepKeepsInvariant(s, e);
    if e.Run? && s.threads[e.t].FlushWritten? {
      IndexEvent(s, e);
    } else if Opens(s, e) || (e.Run? && s.threads[e.t].FlushWriting? && e.writeOk) {
      WriteEvent(s, e);
    } else {
      QuietEvent(s, e);
    }
  }

  lemma WritingName(s: State)
    requires Invariant(s) && FilesInvariant(s) && Holder(s).FlushWriting?
    ensures s.m.head.points != [] && !Indexed(s, ChunkId(s.m.head.points))
  {
  }

  /** Opening the file of an indexed chunk destroys that chunk at once. */
  lemma ReusedNameDestroys(s: State, e: Event)
    requires Invariant(s) && Enabled(s, e) && !e.Crash? && !FreshName(s, e)
    ensures Invariant(Apply(s, e)) && !AllIntact(Apply(s, e))
  {
    StepKeepsInvariant(s, e);
    var s' := Apply(s, e);
    var i :| 0 <= i < |s.m.index| && s.m.index[i].id == ChunkId(s.m.head.points);
    assert s'.m.files[s'.m.index[i].id] == Torn;
  }

  /** Every chunk is readable after every prefix of the run. */
  ghost predicate AlwaysIntact(s: State, events: seq<Event>)
    requires Invariant(s) && IsRun(s, events) && NoCrash(events)
    decreases |events|
  {
    && AllIntact(s)
    && (events != [] ==>
          assert !events[0].Crash?;
          StepKeepsInvariant(s, events[0]);
          AlwaysIntact(Apply(s, events[0]), events[1..]))
  }

  lemma {:induction false} AlwaysIntactFrom(s: State, events: seq<Event>)
    requires Invariant(s) && FilesInvariant(s) && IsRun(s, events) && NoCrash(events)
    ensures AlwaysIntact(s, events) <==> FreshNames(s, events)
    ensures FreshNames(s, events) ==>
              (RunKeepsInvariant(s, events); FilesInvariant(After(s, events)))
    decreases |events|
  {
    hide Invariant, FilesInvariant, Enabled, Apply, FreshName;
    if events == [] {
      IntactNow(s);
    } else {
      assert !events[0].Crash?;
      IntactNow(s);
      var s' := Apply(s, events[0]);
      if FreshName(s, events[0]) {
        FreshStepKeepsFiles(s, events[0]);
        AlwaysIntactFrom(s', events[1..]);
      } else {
        ReusedNameDestroys(s, events[0]);
      }
    }
  }

  lemma IntactNow(s: State)
    requires Invariant(s) && FilesInvariant(s)
    ensures AllIntact(s)
  {
  }

  /** Over every run without a crash: every indexed chunk is readable at every
      moment exactly when no flush opens a file whose name, the first timestamp of
      its head cut to 32 bits, an indexed chunk already has. */
  lemma ChunksStayReadableIff(unset: Long, events: seq<Event>)
    requires IsRun(Start(unset), events) && NoCrash(events)
    ensures (StartInvariant(unset); AlwaysIntact(Start(unset), events)) <==> FreshNames(Start(unset), events)
  {
    hide Enabled, Apply;
    StartFiles(unset);
    AlwaysIntactFrom(Start(unset), events);
  }

  /** An answered put, a flush, and a put whose timestamp has the same low 32 bits: the
      next flush can open the file of the first. */
  lemma ReusedNameIsReachable(unset: Long)
    ensures exists events ::
              && IsRun(Start(unset), events) && NoCrash(events)
              && Enabled(After(Start(unset), events), Run(3, true))
              && !FreshName(After(Start(unset), events), Run(3, true))
  {
    hide Apply, Enabled, ChunkId, FreshName;
    var s0, p, q := Start(unset), Point(5, 1), Point(0x1_0000_0005, 2);
    FirstChunk(unset, p);
    var first := PutEvents(0, p) + FlushEvents(1);
    var s2 := After(s0, first);
    var later := CallNextFlush(s2, q);
    RunConcat(s0, first, later);
    var s4 := After(s2, later);
    assert ChunkId(s4.m.head.points) == ChunkId([p]) by { SameName(p, q); }
    NextFlushOpens(s4);
    assert NoCrash(first + later);
    assert After(s0, first + later) == s4;
  }

  /** One put and one flush in an empty directory. */
  lemma FirstChunk(unset: Long, p: Point)
    ensures var events := PutEvents(0, p) + FlushEvents(1);
            && IsRun(Start(unset), events) && NoCrash(events)
            && After(Start(unset), events)
               == State(Metric(HeadState([], 0), [MetaOf([p])], map[ChunkId([p]) := HeadChunk([p])], []), None,
                        map[0 := Done(true), 1 := Done(true)], [p], [p], [[p]])
  {
    hide HeadChunk, ChunkId, Apply, Enabled;
    var s0 := Start(unset);
    PutRun(s0, 0, p);
    var s1 := After(s0, PutEvents(0, p));
    assert s1.m == Metric(HeadState([p], p.ts), [], map[], [p]);
    FlushRun(s1, 1);
    RunConcat(s0, PutEvents(0, p), FlushEvents(1));
    assert [] + [[p]] == [[p]];
  }

  /** One more put and one more flush, into a file of another name. */
  lemma SecondChunk(unset: Long, p: Point, q: Point) returns (events: seq<Event>)
    requires ChunkId([p]) != ChunkId([q])
    ensures IsRun(Start(unset), events) && NoCrash(events)
    ensures var s := After(Start(unset), events);
            && s.m == Metric(HeadState([], 0), [MetaOf([p]), MetaOf([q])],
                             map[ChunkId([p]) := HeadChunk([p]), ChunkId([q]) := HeadChunk([q])], [])
            && s.acked == [p, q]
  {
    hide HeadChunk, ChunkId, Apply, Enabled;
    var first, second := PutEvents(0, p) + FlushEvents(1), PutEvents(2, q) + FlushEvents(3);
    FirstChunk(unset, p);
    var s1 := After(Start(unset), first);
    PutRun(s1, 2, q);
    var s2 := After(s1, PutEvents(2, q));
    assert [] + [q] == [q];
    assert s2.m == s1.m.(head := HeadState([q], q.ts), wal := [q]);
    FlushRun(s2, 3);
    RunConcat(s1, PutEvents(2, q), FlushEvents(3));
    RunConcat(Start(unset), first, second);
    assert [MetaOf([p])] + [MetaOf([q])] == [MetaOf([p]), MetaOf([q])];
    assert [p] + [q] == [p, q];
    events := first + second;
  }

  /** One more put into an empty head, and a flush that is about to start. */
  lemma CallNextFlush(s: State, q: Point) returns (later: seq<Event>)
    requires Idle(s, 2) && 3 !in s.threads && s.m.head.points == []
    ensures IsRun(s, later) && NoCrash(later)
    ensures var s' := After(s, later);
            && s'.m.head.points == [q] && s'.m.index == s.m.index
            && s'.lock.None? && 3 in s'.threads && s'.threads[3].FlushWaiting?
  {
    PutRun(s, 2, q);
    var s1, call := After(s, PutEvents(2, q)), CallFlush(3);
    assert [] + [q] == [q];
    OneEvent(s1, call);
    RunConcat(s, PutEvents(2, q), [call]);
    later := PutEvents(2, q) + [call];
  }

  lemma SameName(p: Point, q: Point)
    requires q.ts == p.ts + 0x1_0000_0000
    ensures ChunkId([p]) == ChunkId([q])
  {
  }

  lemma NextFlushOpens(s: State)
    requires s.lock.None? && 3 in s.threads && s.threads[3].FlushWaiting? && s.m.head.points != []
    requires |s.m.index| == 1 && s.m.index[0].id == ChunkId(s.m.head.points)
    ensures Enabled(s, Run(3, true)) && !FreshName(s, Run(3, true))
  {
    assert Indexed(s, ChunkId(s.m.head.points));
  }

  lemma OneEvent(s: State, e: Event)
    requires Enabled(s, e)
    ensures IsRun(s, [e]) && After(s, [e]) == Apply(s, e)
  {
    hide Apply, Enabled;
    var events := [e];
    assert events[1..] == [];
  }

  // ---------------------------------------------------------------------------
  // Names
  // ---------------------------------------------------------------------------

  /** A head's file is named by the low 32 bits of its oldest timestamp. */
  lemma NameIsOldest(points: seq<Point>)
    requires GoodChunk(points)
    ensures exists p :: p in points && ChunkId(points) == p.ts % 0x1_0000_0000
             && forall q :: q in points ==> p.ts <= q.ts
  {
    var p := points[0];
    assert p in points;
    forall q | q in points
      ensures p.ts <= q.ts
    {
      var i :| 0 <= i < |points| && points[i] == q;
    }
  }

  /** The index entry of a head bounds it tightly: its first and last timestamps are those
      of points of the head. */
  lemma EntryIsTight(points: seq<Point>)
    requires GoodChunk(points)
    ensures var meta := MetaOf(points);
            && (exists p :: p in points && p.ts == meta.startTs)
            && (exists p :: p in points && p.ts == meta.endTs)
            && forall p :: p in points ==> meta.startTs <= p.ts <= meta.endTs
  {
    assert points[0] in points && points[|points| - 1] in points;
    forall p | p in points
      ensures points[0].ts <= p.ts <= points[|points| - 1].ts
    {
      var i :| 0 <= i < |points| && points[i] == p;
    }
  }
}
