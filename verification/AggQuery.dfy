/** The aggregation query as a whole (src/registry.c, `Head_AGG`): choose raw or
    coarse chunks, gather, sort, aggregate. */
module AggQuery {
  import opened Words
  import opened Heads
  import opened Chunks
  import opened Store
  import opened Engine
  import opened Collect
  import opened Doubles
  import Aggregate
  import ChunkFiles
  import Durability
  import Live
  import Protocol
  import Query
  import Recovery

  const DOWNSAMPLE_AFTER_SECONDS := 3600
  const COARSE_BUCKET_SECONDS := 60

  /** `downsample_should_use`: a long range, wide buckets, and a coarse directory. */
  predicate UseCoarse(coarse: Option<seq<File>>, start: Long, end: Long, width: int) {
    end - start >= DOWNSAMPLE_AFTER_SECONDS && width >= COARSE_BUCKET_SECONDS && coarse.Some?
  }

  /** The points in range of a list of coarse files; unreadable ones are passed over. */
  ghost function FromFiles(files: seq<File>, start: Long, end: Long): seq<Point> {
    if files == [] then []
    else FromFiles(files[..|files| - 1], start, end) + Query.Filter(ReadBack(files[|files| - 1]), start, end)
  }

  /** The points a query aggregates: coarse files or raw chunks, and always the head. */
  ghost function Gathered(m: Metric, coarse: Option<seq<File>>, start: Long, end: Long, width: int): seq<Point> {
    if UseCoarse(coarse, start, end, width)
    then FromFiles(coarse.value, start, end) + Query.Filter(m.head.points, start, end)
    else Query.Answer(m, start, end, false)
  }

  /** Every chunk that may overlap the range can be read. */
  ghost predicate ChunksReadable(m: Metric, start: Long, end: Long) {
    forall i :: 0 <= i < |m.index| && Query.MayOverlap(m.index[i], start, end, false) ==>
      m.index[i].id in m.files && m.files[m.index[i].id].Whole?
  }

  /** What `qsort` is trusted with. */
  ghost predicate Sorts(sort: seq<Point> -> seq<Point>) {
    forall s :: Heads.Sorted(sort(s)) && multiset(sort(s)) == multiset(s)
  }

  lemma {:induction false} FilterInRange(points: seq<Point>, start: Long, end: Long)
    ensures forall p :: p in Query.Filter(points, start, end) ==> start <= p.ts < end
  {
    if points != [] {
      FilterInRange(points[..|points| - 1], start, end);
    }
  }

  lemma {:induction false} FromChunksInRange(files: map<Uint32, File>, index: seq<Meta>, start: Long, end: Long)
    ensures forall p :: p in Query.FromChunks(files, index, start, end, false) ==> start <= p.ts < end
  {
    hide Query.Filter;
    if index != [] {
      FromChunksInRange(files, index[..|index| - 1], start, end);
      FilterInRange(Recovery.ReadOf(files, index[|index| - 1].id), start, end);
    }
  }

  lemma {:induction false} FromFilesInRange(files: seq<File>, start: Long, end: Long)
    ensures forall p :: p in FromFiles(files, start, end) ==> start <= p.ts < end
  {
    hide Query.Filter;
    if files != [] {
      FromFilesInRange(files[..|files| - 1], start, end);
      FilterInRange(ReadBack(files[|files| - 1]), start, end);
    }
  }

  lemma GatheredInRange(m: Metric, coarse: Option<seq<File>>, start: Long, end: Long, width: int)
    ensures forall p :: p in Gathered(m, coarse, start, end, width) ==> start <= p.ts < end
  {
    hide Query.Filter, Query.FromChunks, FromFiles;
    FilterInRange(m.head.points, start, end);
    FromChunksInRange(m.files, m.index, start, end);
    if coarse.Some? {
      FromFilesInRange(coarse.value, start, end);
    }
  }

  /** Readings of a rearrangement are a rearrangement of the readings. */
  lemma {:induction false} ReadingsRearranged(s: seq<Point>, t: seq<Point>)
    requires multiset(s) == multiset(t)
    ensures multiset(ReadingsOf(s)) == multiset(ReadingsOf(t))
    decreases |s|
  {
    hide RealOf;
    assert |multiset(s)| == |multiset(t)|;
    if s != [] {
      var front, p := s[..|s| - 1], s[|s| - 1];
      assert s == front + [p];
      assert p in multiset(t);
      var k :| 0 <= k < |t| && t[k] == p;
      var rest := t[..k] + t[k + 1..];
      assert t == t[..k] + [p] + t[k + 1..];
      assert multiset(t) == multiset(rest) + multiset{p};
      assert multiset(s) == multiset(front) + multiset{p};
      Aggregate.CancelOne(multiset(front), multiset(rest), p);
      ReadingsRearranged(front, rest);
      ReadingsSplit(t, k);
      assert ReadingsOf(s) == ReadingsOf(front) + [Aggregate.Reading(p.ts, RealOf(p.value))];
    }
  }

  lemma ReadingsSplit(t: seq<Point>, k: nat)
    requires k < |t|
    ensures multiset(ReadingsOf(t)) == multiset(ReadingsOf(t[..k] + t[k + 1..]))
                                       + multiset{Aggregate.Reading(t[k].ts, RealOf(t[k].value))}
  {
    hide RealOf;
    var r := Aggregate.Reading(t[k].ts, RealOf(t[k].value));
    var a, b := ReadingsOf(t[..k]), ReadingsOf(t[k + 1..]);
    assert ReadingsOf(t) == a + [r] + b;
    assert ReadingsOf(t[..k] + t[k + 1..]) == a + b;
  }

  /** Gather the points of the coarse files. */
  method CollectFromFiles(files: seq<File>, start: Long, end: Long, acc: PointArray)
    requires acc.Valid() && forall i :: 0 <= i < |files| && files[i].Whole? ==> Intact(files[i].chunk)
    modifies acc, acc.data
    ensures acc.Valid() && (acc.data == old(acc.data) || fresh(acc.data))
    ensures acc.Points() == old(acc.Points()) + FromFiles(files, start, end)
  {
    hide Query.Filter, ReadBack, Intact;
    assert files[..0] == [];
    for i := 0 to |files|
      invariant acc.Valid() && (acc.data == old(acc.data) || fresh(acc.data))
      invariant acc.Points() == old(acc.Points()) + FromFiles(files[..i], start, end)
    {
      assert files[..i + 1][..i] == files[..i];
      var _ := CollectFromFile(files[i], start, end, acc);
    }
    assert files[..|files|] == files;
  }

  /** Every coarse file that can be read can be decoded. */
  ghost predicate CoarseIntact(coarse: Option<seq<File>>) {
    coarse.Some? ==>
      forall i :: 0 <= i < |coarse.value| && coarse.value[i].Whole? ==> Intact(coarse.value[i].chunk)
  }

  /** The disk part of a query. */
  method CollectFromDisk(store: MetricStore, coarse: Option<seq<File>>, start: Long, end: Long, width: int,
                         acc: PointArray)
    returns (ok: bool)
    requires store.Valid() && acc.Valid() && acc.Points() == [] && FilesIntact(store.files)
    requires CoarseIntact(coarse)
    requires acc.data as object != store.head.timestamps && acc.data as object != store.head.values
    modifies acc, acc.data
    ensures acc.Valid() && (acc.data == old(acc.data) || fresh(acc.data))
    ensures ok == ((end - start >= 3600 && width >= 60 && coarse.Some?) || ChunksReadable(store.State(), start, end))
    ensures ok ==> acc.Points() + Query.Filter(store.head.State().points, start, end)
                   == Gathered(store.State(), coarse, start, end, width)
  {
    hide Query.Filter, Query.FromChunks, FromFiles, FilesIntact, Query.MayOverlap;
    if end - start >= DOWNSAMPLE_AFTER_SECONDS && width >= COARSE_BUCKET_SECONDS && coarse.Some? {
      CollectFromFiles(coarse.value, start, end, acc);
      ok := true;
    } else {
      ok := CollectFromIndex(store, start, end, false, true, acc);
    }
  }

  /** `Head_AGG` on a metric nobody else touches meanwhile. The answer is that of
      naive bucketing over the gathered points, in whatever order they came. */
  method HeadAgg(store: MetricStore, coarse: Option<seq<File>>, start: Long, end: Long, width: int,
                 f: Aggregate.Func, sort: seq<Point> -> seq<Point>)
    returns (result: Aggregate.Result)
    requires store.Valid() && FilesIntact(store.files) && Sorts(sort)
    requires CoarseIntact(coarse)
    ensures var points := Gathered(store.State(), coarse, start, end, width);
            result ==
              if width <= 0 || start >= end then Aggregate.Err(Aggregate.BadRange)
              else if (end - start < 3600 || width < 60 || coarse.None?) && !ChunksReadable(store.State(), start, end)
              then Aggregate.Err(Aggregate.DiskRead)
              else if f == Aggregate.Unknown && points != [] then Aggregate.Err(Aggregate.BadFunc)
              else Aggregate.Rows(Aggregate.NaiveRows(f, ReadingsOf(points), start, end, width))
  {
    if width <= 0 || start >= end {
      return Aggregate.Err(Aggregate.BadRange);
    }
    hide Gathered, ChunksReadable, FilesIntact, Intact, Aggregate.NaiveRows, RealOf, Sorts;
    var points, ok := Gather(store, coarse, start, end, width);
    if !ok {
      return Aggregate.Err(Aggregate.DiskRead);
    }
    GatheredInRange(store.State(), coarse, start, end, width);
    Aggregate.NoPointsNoRows(f, start, end, width);
    if |points| == 0 {
      return Aggregate.Rows([]);
    }
    result := AggregateSorted(points, start, end, width, f, sort);
  }

  /** Gather the points of a query from the disk, then from the head. */
  method Gather(store: MetricStore, coarse: Option<seq<File>>, start: Long, end: Long, width: int)
    returns (points: seq<Point>, ok: bool)
    requires store.Valid() && FilesIntact(store.files)
    requires CoarseIntact(coarse)
    ensures ok == ((end - start >= 3600 && width >= 60 && coarse.Some?) || ChunksReadable(store.State(), start, end))
    ensures ok ==> points == Gathered(store.State(), coarse, start, end, width)
  {
    hide Query.Filter, Gathered, ChunksReadable, FilesIntact, Intact;
    var acc := new PointArray();
    ok := CollectFromDisk(store, coarse, start, end, width, acc);
    if !ok {
      return [], false;
    }
    CollectFromHead(store.head, start, end, acc);
    points := acc.data[..acc.n];
  }

  /** Sort, then aggregate. */
  method AggregateSorted(points: seq<Point>, start: Long, end: Long, width: int,
                         f: Aggregate.Func, sort: seq<Point> -> seq<Point>)
    returns (result: Aggregate.Result)
    requires points != [] && width > 0 && Sorts(sort)
    requires forall p :: p in points ==> start <= p.ts < end
    ensures result == if f == Aggregate.Unknown then Aggregate.Err(Aggregate.BadFunc)
                      else Aggregate.Rows(Aggregate.NaiveRows(f, ReadingsOf(points), start, end, width))
  {
    hide Aggregate.NaiveRows, RealOf;
    var sorted := sort(points);
    assert multiset(sorted) == multiset(points) && Heads.Sorted(sorted);
    var n := |sorted|;
    var pts := new Aggregate.Reading[n](i requires 0 <= i < |sorted| =>
      Aggregate.Reading(sorted[i].ts, RealOf(sorted[i].value)));
    assert pts[..n] == ReadingsOf(sorted);
    SortedReadings(sorted, points, start, end);
    ReadingsRearranged(sorted, points);
    Aggregate.RowsSameMultiset(f, ReadingsOf(sorted), ReadingsOf(points), start, end, width);
    result := Aggregate.AggPoints(pts, n, start, end, width, f);
  }

  lemma SortedReadings(sorted: seq<Point>, points: seq<Point>, start: Long, end: Long)
    requires multiset(sorted) == multiset(points) && Heads.Sorted(sorted) && points != []
    requires forall p :: p in points ==> start <= p.ts < end
    ensures |sorted| == |points| && Aggregate.Sorted(ReadingsOf(sorted))
    ensures forall r :: r in ReadingsOf(sorted) ==> start <= r.ts < end
  {
    hide RealOf;
    assert |multiset(sorted)| == |multiset(points)|;
    forall i | 0 <= i < |sorted|
      ensures start <= sorted[i].ts < end
    {
      assert sorted[i] in multiset(points);
    }
  }

  /** On any state of any run with fresh file names and chunks that fit the codec, no
      aggregate over raw chunks, with or without a coarse directory, fails to read
      one, and it aggregates the accepted points in range, the flushed ones quantised. */
  lemma AggregateSeesAccepted(unset: Long, events: seq<Protocol.Event>, coarse: Option<seq<File>>,
                              start: Long, end: Long, width: int)
    requires Protocol.IsRun(Protocol.Start(unset), events) && Protocol.NoCrash(events)
    requires ChunkFiles.FreshNames(Protocol.Start(unset), events)
    requires Recovery.AllFit(Protocol.After(Protocol.Start(unset), events))
    requires end - start < 3600 || width < 60 || coarse.None?
    ensures var s := Protocol.After(Protocol.Start(unset), events);
            && FilesIntact(s.m.files)
            && ChunksReadable(s.m, start, end)
            && Gathered(s.m, coarse, start, end, width)
               == Query.Filter(Quant(Protocol.Flat(s.flushed)) + s.m.head.points, start, end)
            && Protocol.Flat(s.flushed) + s.m.head.points == s.accepted
  {
    hide Protocol.Enabled, Protocol.Apply, Protocol.Invariant, ChunkFiles.FilesInvariant, ChunkFiles.FreshName,
      Recovery.AllFit, Query.Answer, Query.Filter, Quant, Gathered, ChunksReadable, FilesIntact;
    ReachableState(unset, events);
    var s := Protocol.After(Protocol.Start(unset), events);
    RawGathered(s.m, coarse, start, end, width);
    ChunkFiles.IntactNow(s);
    Query.AnswerIsComplete(s, start, end, false);
    IntactIsReadable(s, start, end);
    AcceptedPoints(s);
  }

  /** A query that is not sent to the coarse files asks the raw chunks. */
  lemma RawGathered(m: Metric, coarse: Option<seq<File>>, start: Long, end: Long, width: int)
    requires end - start < 3600 || width < 60 || coarse.None?
    ensures Gathered(m, coarse, start, end, width) == Query.Answer(m, start, end, false)
  {
  }

  lemma AcceptedPoints(s: Protocol.State)
    requires Protocol.Invariant(s)
    ensures Protocol.Flat(s.flushed) + s.m.head.points == s.accepted
  {
  }

  /** What every state of such a run has. */
  lemma ReachableState(unset: Long, events: seq<Protocol.Event>)
    requires Protocol.IsRun(Protocol.Start(unset), events) && Protocol.NoCrash(events)
    requires ChunkFiles.FreshNames(Protocol.Start(unset), events)
    ensures var s := Protocol.After(Protocol.Start(unset), events);
            && Protocol.Invariant(s) && ChunkFiles.FilesInvariant(s) && FilesIntact(s.m.files)
  {
    hide Protocol.Enabled, Protocol.Apply, ChunkFiles.FreshName, ChunkFiles.FilesInvariant, FilesIntact;
    ChunkFiles.StartFiles(unset);
    Protocol.RunKeepsInvariant(Protocol.Start(unset), events);
    ChunkFiles.AlwaysIntactFrom(Protocol.Start(unset), events);
    Durability.EveryReadableFileDecodes(unset, events);
  }

  /** A range query, by the loops, on an object in a state that such a run reaches:
      the accepted points in range. */
  method GetAfterRun(store: MetricStore, start: Long, end: Long, ghost unset: Long, ghost events: seq<Protocol.Event>)
    returns (acc: PointArray)
    requires Protocol.IsRun(Protocol.Start(unset), events) && Protocol.NoCrash(events)
    requires ChunkFiles.FreshNames(Protocol.Start(unset), events)
    requires Recovery.AllFit(Protocol.After(Protocol.Start(unset), events))
    requires store.Valid() && store.State() == Protocol.After(Protocol.Start(unset), events).m
    ensures acc.Valid()
    ensures var s := Protocol.After(Protocol.Start(unset), events);
            Quant(acc.Points()) == Query.Filter(Quant(s.accepted), start, end)
  {
    hide Protocol.Enabled, Protocol.Apply, ChunkFiles.FreshName, Recovery.AllFit, Query.Answer, Query.Filter, Quant,
      FilesIntact;
    ReachableState(unset, events);
    Query.QueryAfterAnyRun(unset, events, start, end, true);
    acc := GetRange(store, start, end);
  }

  /** An aggregate over raw chunks, by the loops, on such an object: naive bucketing of
      the accepted points in range, the flushed ones quantised. */
  method AggAfterRun(store: MetricStore, coarse: Option<seq<File>>, start: Long, end: Long, width: int,
                     f: Aggregate.Func, sort: seq<Point> -> seq<Point>,
                     ghost unset: Long, ghost events: seq<Protocol.Event>)
    returns (result: Aggregate.Result)
    requires Protocol.IsRun(Protocol.Start(unset), events) && Protocol.NoCrash(events)
    requires ChunkFiles.FreshNames(Protocol.Start(unset), events)
    requires Recovery.AllFit(Protocol.After(Protocol.Start(unset), events))
    requires store.Valid() && store.State() == Protocol.After(Protocol.Start(unset), events).m
    requires width > 0 && start < end && f != Aggregate.Unknown && Sorts(sort)
    requires end - start < 3600 || width < 60 || coarse.None?
    requires CoarseIntact(coarse)
    ensures var s := Protocol.After(Protocol.Start(unset), events);
            var points := Query.Filter(Quant(Protocol.Flat(s.flushed)) + s.m.head.points, start, end);
            result == Aggregate.Rows(Aggregate.NaiveRows(f, ReadingsOf(points), start, end, width))
  {
    hide Protocol.Enabled, Protocol.Apply, ChunkFiles.FreshName, Recovery.AllFit, Query.Filter, Quant, FilesIntact,
      Gathered, ChunksReadable, Aggregate.NaiveRows, RealOf, Intact;
    AggregateSeesAccepted(unset, events, coarse, start, end, width);
    result := HeadAgg(store, coarse, start, end, width, f, sort);
  }

  /** After any prudent run, with any number of crashes: an aggregate over raw chunks
      that reads them all gathers every answered point in its range, and nothing but
      accepted points. */
  lemma AggregateAfterCrashes(unset: Long, events: seq<Protocol.Event>, coarse: Option<seq<File>>,
                              start: Long, end: Long, width: int)
    requires Protocol.IsRun(Protocol.Start(unset), events) && Durability.PrudentRun(Protocol.Start(unset), events)
    requires end - start < 3600 || width < 60 || coarse.None?
    ensures var s := Protocol.After(Protocol.Start(unset), events);
            && FilesIntact(s.m.files)
            && Live.Shows(s, Gathered(s.m, coarse, start, end, width), start, end)
  {
    hide Protocol.Enabled, Protocol.Apply, Durability.Prudent, FilesIntact, Query.Answer, Live.Shows, Gathered;
    RawGathered(Protocol.After(Protocol.Start(unset), events).m, coarse, start, end, width);
    Durability.EveryReadableFileDecodes(unset, events);
    Live.AnswerAfterCrashes(unset, events, start, end, false);
  }

  /** A range query, by the loops, on an object in a state that such a run reaches. */
  method GetAfterCrashes(store: MetricStore, start: Long, end: Long, ghost unset: Long,
                         ghost events: seq<Protocol.Event>)
    returns (acc: PointArray)
    requires Protocol.IsRun(Protocol.Start(unset), events) && Durability.PrudentRun(Protocol.Start(unset), events)
    requires store.Valid() && store.State() == Protocol.After(Protocol.Start(unset), events).m
    ensures acc.Valid()
    ensures Live.Shows(Protocol.After(Protocol.Start(unset), events), acc.Points(), start, end)
  {
    hide Protocol.Enabled, Protocol.Apply, Durability.Prudent, FilesIntact, Query.Answer, Live.Shows;
    Durability.EveryReadableFileDecodes(unset, events);
    Live.AnswerAfterCrashes(unset, events, start, end, true);
    acc := GetRange(store, start, end);
  }

  lemma IntactIsReadable(s: Protocol.State, start: Long, end: Long)
    requires Protocol.Invariant(s) && ChunkFiles.AllIntact(s)
    ensures ChunksReadable(s.m, start, end)
  {
  }
}
