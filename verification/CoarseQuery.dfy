/** Coarse files from end to end: what an aggregation query makes of the coarse files
    of some of a metric's chunks and of its head (src/registry.c). */
module CoarseQuery {
  import opened Words
  import opened Heads
  import opened Chunks
  import opened Store
  import opened Doubles
  import opened Downsample
  import opened Coarse
  import opened CoarseWriter
  import opened AggQuery
  import Aggregate
  import ChunkFiles
  import Protocol
  import Query
  import Recovery
  import Values

  // ---------------------------------------------------------------------------
  // The coarse directory
  // ---------------------------------------------------------------------------

  /** The coarse files of some chunks, in the order a directory scan meets them. */
  ghost function CoarseFiles(chunks: seq<seq<Point>>, round: real -> Word): (files: seq<File>)
    ensures |files| == |chunks|
  {
    seq(|chunks|, k requires 0 <= k < |chunks| => CoarseFile(chunks[k], round))
  }

  ghost predicate AllCoarsen(chunks: seq<seq<Point>>, round: real -> Word) {
    forall k :: 0 <= k < |chunks| ==> Coarsens(chunks[k], round)
  }

  lemma ReadingsConcat(a: seq<Point>, b: seq<Point>)
    ensures ReadingsOf(a + b) == ReadingsOf(a) + ReadingsOf(b)
  {
    hide RealOf;
  }

  lemma {:induction false} FilterReadings(points: seq<Point>, start: Long, end: Long)
    ensures ReadingsOf(Query.Filter(points, start, end)) == Aggregate.Between(ReadingsOf(points), start, end)
  {
    hide RealOf;
    if points != [] {
      var front, p := points[..|points| - 1], points[|points| - 1];
      FilterReadings(front, start, end);
      assert ReadingsOf(points)[..|points| - 1] == ReadingsOf(front);
      ReadingsConcat(Query.Filter(front, start, end), [p]);
    }
  }

  /** Cutting both sides to the range of the query. */
  lemma FilterRepresents(coarse: seq<Point>, raw: seq<Point>, start: Long, end: Long)
    requires Represents(ReadingsOf(coarse), ReadingsOf(raw)) && OnMinute(start) && OnMinute(end)
    ensures Represents(ReadingsOf(Query.Filter(coarse, start, end)), ReadingsOf(Query.Filter(raw, start, end)))
  {
    hide Represents, OnMinute, Query.Filter, Aggregate.Between, RealOf;
    FilterReadings(coarse, start, end);
    FilterReadings(raw, start, end);
    RepresentsBetween(ReadingsOf(coarse), ReadingsOf(raw), start, end);
  }

  lemma JoinRepresents(c1: seq<Point>, r1: seq<Point>, c2: seq<Point>, r2: seq<Point>)
    requires Represents(ReadingsOf(c1), ReadingsOf(r1)) && Represents(ReadingsOf(c2), ReadingsOf(r2))
    ensures Represents(ReadingsOf(c1 + c2), ReadingsOf(r1 + r2))
  {
    hide Represents, RealOf;
    ReadingsConcat(c1, c2);
    ReadingsConcat(r1, r2);
    RepresentsConcat(ReadingsOf(c1), ReadingsOf(r1), ReadingsOf(c2), ReadingsOf(r2));
  }

  /** What a query gets from the coarse files of some chunks represents what it would
      get from the chunks. */
  lemma {:induction false} FilesRepresent(chunks: seq<seq<Point>>, round: real -> Word, start: Long, end: Long)
    requires Rounds(round) && AllCoarsen(chunks, round) && OnMinute(start) && OnMinute(end)
    ensures Represents(ReadingsOf(FromFiles(CoarseFiles(chunks, round), start, end)),
                       ReadingsOf(Query.Filter(Protocol.Flat(chunks), start, end)))
  {
    hide Represents, Rounds, Coarsens, OnMinute, Query.Filter, CoarseFile, ReadBack, RealOf;
    if chunks == [] {
      Query.FilterNone([], start, end);
      SelfRepresents([]);
      assert ReadingsOf([]) == [];
    } else {
      var front, last := chunks[..|chunks| - 1], chunks[|chunks| - 1];
      var files := CoarseFiles(chunks, round);
      assert Coarsens(last, round);
      FilesRepresent(front, round, start, end);
      CoarseFileRepresents(last, round);
      FilterRepresents(ReadBack(CoarseFile(last, round)), last, start, end);
      Query.FilterConcat(Protocol.Flat(front), last, start, end);
      assert files[..|files| - 1] == CoarseFiles(front, round);
      JoinRepresents(FromFiles(CoarseFiles(front, round), start, end), Query.Filter(Protocol.Flat(front), start, end),
                     Query.Filter(ReadBack(CoarseFile(last, round)), start, end), Query.Filter(last, start, end));
    }
  }

  // ---------------------------------------------------------------------------
  // The query
  // ---------------------------------------------------------------------------

  /** The chunks of a state that have been downsampled, in the order of the directory. */
  ghost function Downsampled(s: Protocol.State, order: seq<nat>): (chunks: seq<seq<Point>>)
    requires forall k :: 0 <= k < |order| ==> order[k] < |s.flushed|
    ensures |chunks| == |order|
  {
    seq(|order|, k requires 0 <= k < |order| => Quant(s.flushed[order[k]]))
  }

  /** No chunk that has not been downsampled holds a point in range. */
  ghost predicate NoneMissing(s: Protocol.State, order: seq<nat>, start: Long, end: Long) {
    forall i, p :: 0 <= i < |s.flushed| && i !in order && p in s.flushed[i] ==> !Query.Within(p, start, end)
  }

  lemma {:induction false} FlatMembers(chunks: seq<seq<Point>>)
    ensures forall p :: p in Protocol.Flat(chunks) <==> exists i :: 0 <= i < |chunks| && p in chunks[i]
  {
    if chunks != [] {
      var front, last := chunks[..|chunks| - 1], chunks[|chunks| - 1];
      FlatMembers(front);
      assert chunks == front + [last];
      forall p
        ensures p in Protocol.Flat(chunks) <==> exists i :: 0 <= i < |chunks| && p in chunks[i]
      {
        if p in Protocol.Flat(front) {
          var i :| 0 <= i < |front| && p in front[i];
          assert p in chunks[i];
        }
        if exists i :: 0 <= i < |chunks| && p in chunks[i] {
          var i :| 0 <= i < |chunks| && p in chunks[i];
          assert i < |front| ==> p in front[i];
        }
      }
    }
  }

  lemma {:induction false} QuantFlat(chunks: seq<seq<Point>>, p: Point)
    ensures p in Quant(Protocol.Flat(chunks)) <==> exists i :: 0 <= i < |chunks| && p in Quant(chunks[i])
  {
    hide QuantPoint;
    FlatMembers(chunks);
    if p in Quant(Protocol.Flat(chunks)) {
      var k :| 0 <= k < |Protocol.Flat(chunks)| && Quant(Protocol.Flat(chunks))[k] == p;
      var q := Protocol.Flat(chunks)[k];
      assert q in Protocol.Flat(chunks);
      var i :| 0 <= i < |chunks| && q in chunks[i];
      Recovery.QuantMember(chunks[i], q);
    }
    if i :| 0 <= i < |chunks| && p in Quant(chunks[i]) {
      var k :| 0 <= k < |chunks[i]| && Quant(chunks[i])[k] == p;
      assert chunks[i][k] in chunks[i];
      Recovery.QuantMember(Protocol.Flat(chunks), chunks[i][k]);
    }
  }

  /** When none is missing, the downsampled chunks hold the flushed points in range. */
  lemma SamePointsInRange(s: Protocol.State, order: seq<nat>, start: Long, end: Long)
    requires (forall k :: 0 <= k < |order| ==> order[k] < |s.flushed|) && NoneMissing(s, order, start, end)
    ensures forall p :: p in Query.Filter(Protocol.Flat(Downsampled(s, order)), start, end)
                        <==> p in Query.Filter(Quant(Protocol.Flat(s.flushed)), start, end)
  {
    hide Protocol.Flat, Query.Filter, Quant;
    var chunks := Downsampled(s, order);
    Query.FilterMembers(Protocol.Flat(chunks), start, end);
    Query.FilterMembers(Quant(Protocol.Flat(s.flushed)), start, end);
    FlatMembers(chunks);
    forall p | Query.Within(p, start, end)
      ensures p in Protocol.Flat(chunks) <==> p in Quant(Protocol.Flat(s.flushed))
    {
      QuantFlat(s.flushed, p);
      if k :| 0 <= k < |chunks| && p in chunks[k] {
        assert p in Quant(s.flushed[order[k]]);
      }
      if i :| 0 <= i < |s.flushed| && p in Quant(s.flushed[i]) {
        InRangeIsListed(s, order, start, end, i, p);
        var k :| 0 <= k < |order| && order[k] == i;
        assert p in chunks[k];
      }
    }
  }

  lemma InRangeIsListed(s: Protocol.State, order: seq<nat>, start: Long, end: Long, i: nat, p: Point)
    requires NoneMissing(s, order, start, end) && i < |s.flushed|
    requires p in Quant(s.flushed[i]) && Query.Within(p, start, end)
    ensures i in order
  {
    hide Values.Mask;
    var k :| 0 <= k < |s.flushed[i]| && Quant(s.flushed[i])[k] == p;
    assert s.flushed[i][k] in s.flushed[i] && Query.Within(s.flushed[i][k], start, end);
  }

  lemma SameReadings(a: seq<Point>, b: seq<Point>)
    requires forall p :: p in a ==> p in b
    ensures forall r :: r in ReadingsOf(a) ==> r in ReadingsOf(b)
  {
    hide RealOf;
    forall r | r in ReadingsOf(a)
      ensures r in ReadingsOf(b)
    {
      var i :| 0 <= i < |a| && ReadingsOf(a)[i] == r;
      assert a[i] in b;
      var j :| 0 <= j < |b| && b[j] == a[i];
      assert ReadingsOf(b)[j] == r;
    }
  }

  /** What a coarse query gathers, its head included, represents what the raw chunks
      and the head would give. */
  lemma GatheredRepresents(s: Protocol.State, order: seq<nat>, round: real -> Word, start: Long, end: Long, width: int)
    requires Protocol.Invariant(s) && ChunkFiles.AllIntact(s) && Recovery.AllFit(s)
    requires (forall k :: 0 <= k < |order| ==> order[k] < |s.flushed|) && NoneMissing(s, order, start, end)
    requires Rounds(round) && AllCoarsen(Downsampled(s, order), round)
    requires OnMinute(start) && OnMinute(end)
    requires end - start >= 3600 && width >= 60
    ensures Represents(ReadingsOf(Gathered(s.m, Some(CoarseFiles(Downsampled(s, order), round)), start, end, width)),
                       ReadingsOf(Gathered(s.m, None, start, end, width)))
  {
    hide Protocol.Invariant, ChunkFiles.AllIntact, Recovery.AllFit, NoneMissing, Rounds, AllCoarsen, OnMinute,
      Represents,
      Query.Filter, Query.Answer, Protocol.Flat, Quant, FromFiles, CoarseFiles, Downsampled, RealOf;
    var chunks := Downsampled(s, order);
    var files := CoarseFiles(chunks, round);
    var coarse, head := FromFiles(files, start, end), Query.Filter(s.m.head.points, start, end);
    var listed := Query.Filter(Protocol.Flat(chunks), start, end);
    var flushed := Query.Filter(Quant(Protocol.Flat(s.flushed)), start, end);
    FilesRepresent(chunks, round, start, end);
    SamePointsInRange(s, order, start, end);
    SameReadings(listed, flushed);
    SameReadings(flushed, listed);
    RepresentsMembers(ReadingsOf(coarse), ReadingsOf(listed), ReadingsOf(flushed));
    SelfRepresents(ReadingsOf(head));
    JoinRepresents(coarse, flushed, head, head);
    Query.AnswerIsComplete(s, start, end, false);
    Query.FilterConcat(Quant(Protocol.Flat(s.flushed)), s.m.head.points, start, end);
  }

  /** A coarse `avg` query on any state of a run, for start, end and width on minutes,
      when no chunk that has not been downsampled holds a point in range: exactly the
      buckets of the raw answer, head included, and each average between the raw `min`
      and the raw `max` of its bucket. */
  lemma CoarseQueryWithinRaw(s: Protocol.State, order: seq<nat>, round: real -> Word, start: Long, end: Long,
                             width: int)
    requires Protocol.Invariant(s) && ChunkFiles.AllIntact(s) && Recovery.AllFit(s)
    requires (forall k :: 0 <= k < |order| ==> order[k] < |s.flushed|) && NoneMissing(s, order, start, end)
    requires Rounds(round) && AllCoarsen(Downsampled(s, order), round)
    requires OnMinute(start) && OnMinute(end) && OnMinute(width)
    requires end - start >= 3600 && width >= 60
    ensures var coarse := ReadingsOf(Gathered(s.m, Some(CoarseFiles(Downsampled(s, order), round)), start, end, width));
            var raw := ReadingsOf(Gathered(s.m, None, start, end, width));
            WithinRows(Aggregate.NaiveRows(Aggregate.Avg, coarse, start, end, width),
                       Aggregate.NaiveRows(Aggregate.Min, raw, start, end, width),
                       Aggregate.NaiveRows(Aggregate.Max, raw, start, end, width))
  {
    hide Protocol.Invariant, ChunkFiles.AllIntact, Recovery.AllFit, NoneMissing, Rounds, AllCoarsen, OnMinute,
      Represents,
      Gathered, CoarseFiles, Downsampled, RealOf, Aggregate.NaiveRows, WithinRows;
    GatheredRepresents(s, order, round, start, end, width);
    RowsWithinRaw(ReadingsOf(Gathered(s.m, Some(CoarseFiles(Downsampled(s, order), round)), start, end, width)),
                  ReadingsOf(Gathered(s.m, None, start, end, width)), start, end, width);
  }

  /** The same from an empty directory, over every interleaving of puts and flushes with
      fresh file names and chunks that fit the codec. */
  lemma CoarseQueryAfterAnyRun(unset: Long, events: seq<Protocol.Event>, order: seq<nat>, round: real -> Word,
                               start: Long, end: Long, width: int)
    requires Protocol.IsRun(Protocol.Start(unset), events) && Protocol.NoCrash(events)
    requires ChunkFiles.FreshNames(Protocol.Start(unset), events)
    requires var s := Protocol.After(Protocol.Start(unset), events);
             && Recovery.AllFit(s)
             && (forall k :: 0 <= k < |order| ==> order[k] < |s.flushed|) && NoneMissing(s, order, start, end)
             && AllCoarsen(Downsampled(s, order), round)
             && end - start >= 3600 && width >= 60
    requires Rounds(round) && OnMinute(start) && OnMinute(end) && OnMinute(width)
    ensures var s := Protocol.After(Protocol.Start(unset), events);
            var coarse := ReadingsOf(Gathered(s.m, Some(CoarseFiles(Downsampled(s, order), round)), start, end, width));
            var raw := Query.Filter(Quant(Protocol.Flat(s.flushed)) + s.m.head.points, start, end);
            && Protocol.Flat(s.flushed) + s.m.head.points == s.accepted
            && WithinRows(Aggregate.NaiveRows(Aggregate.Avg, coarse, start, end, width),
                          Aggregate.NaiveRows(Aggregate.Min, ReadingsOf(raw), start, end, width),
                          Aggregate.NaiveRows(Aggregate.Max, ReadingsOf(raw), start, end, width))
  {
    hide Protocol.Enabled, Protocol.Apply, ChunkFiles.FreshName, Recovery.AllFit, NoneMissing, Rounds, AllCoarsen,
      OnMinute, Gathered, CoarseFiles, Downsampled, RealOf, Aggregate.NaiveRows, WithinRows, Query.Filter, Quant,
      ChunkFiles.FilesInvariant, FilesIntact;
    ReachableState(unset, events);
    var s := Protocol.After(Protocol.Start(unset), events);
    ChunkFiles.IntactNow(s);
    CoarseQueryWithinRaw(s, order, round, start, end, width);
    AggregateSeesAccepted(unset, events, None, start, end, width);
  }

  // ---------------------------------------------------------------------------
  // Chunks that have not been downsampled
  // ---------------------------------------------------------------------------

  lemma {:induction false} FromFilesConcat(a: seq<File>, b: seq<File>, start: Long, end: Long)
    ensures FromFiles(a + b, start, end) == FromFiles(a, start, end) + FromFiles(b, start, end)
  {
    hide Query.Filter, ReadBack;
    if b == [] {
      assert a + b == a;
    } else {
      var front := b[..|b| - 1];
      assert (a + b)[..|a + b| - 1] == a + front;
      FromFilesConcat(a, front, start, end);
    }
  }

  /** What a coarse query gathers changes when more chunks are downsampled exactly when
      one of them holds a point in range: until then the query misses that chunk. */
  lemma MissesChunksIff(m: Metric, done: seq<seq<Point>>, missing: seq<seq<Point>>, round: real -> Word,
                        start: Long, end: Long, width: int)
    requires Rounds(round) && AllCoarsen(missing, round) && OnMinute(start) && OnMinute(end)
    requires end - start >= 3600 && width >= 60
    ensures multiset(Gathered(m, Some(CoarseFiles(done, round)), start, end, width))
            == multiset(Gathered(m, Some(CoarseFiles(done + missing, round)), start, end, width))
            <==> forall p :: p in Protocol.Flat(missing) ==> !Query.Within(p, start, end)
  {
    hide Rounds, AllCoarsen, OnMinute, Query.Filter, FromFiles, CoarseFile, Protocol.Flat, Query.Within, RealOf;
    var a, b := CoarseFiles(done, round), CoarseFiles(missing, round);
    assert CoarseFiles(done + missing, round) == a + b;
    FromFilesConcat(a, b, start, end);
    var more, raw := FromFiles(b, start, end), Query.Filter(Protocol.Flat(missing), start, end);
    FilesRepresent(missing, round, start, end);
    AverageWithinRaw(ReadingsOf(more), ReadingsOf(raw));
    assert more == [] <==> raw == [];
    Query.FilterEmptyIff(Protocol.Flat(missing), start, end);
    SameMultisetIff(FromFiles(a, start, end), more, Query.Filter(m.head.points, start, end));
  }

  lemma SameMultisetIff(a: seq<Point>, b: seq<Point>, c: seq<Point>)
    ensures multiset(a + c) == multiset((a + b) + c) <==> b == []
  {
    assert |multiset(a + c)| == |a + c| && |multiset((a + b) + c)| == |(a + b) + c|;
    if b == [] {
      assert a + b == a;
    }
  }

  /** One point makes one minute, which every codec condition allows. */
  lemma OnePointCoarsens(p: Point, round: real -> Word)
    requires p.ts >= 0 && Finite(p.value)
    ensures Coarsens([QuantPoint(p)], round)
  {
    hide CoarseRows, RealOf, Finite, Values.Mask;
    var one := [QuantPoint(p)];
    MaskKeepsShape(p.value);
    NoMoreRowsThanPoints(ReadingsOf(one));
  }

  /** An old chunk that has been downsampled and a later one that has not: the raw query
      shows both points, and nothing the coarse query gathers lies in the later minute. */
  lemma CoarseQueryLosesPoint(unset: Long, p: Point, q: Point, round: real -> Word, start: Long, end: Long, width: int)
    returns (events: seq<Protocol.Event>)
    requires Query.Within(p, start, end) && Query.Within(q, start, end)
    requires p.ts >= 0 && Finite(p.value) && MinuteOf(p.ts) != MinuteOf(q.ts) && ChunkId([p]) != ChunkId([q])
    requires Rounds(round) && end - start >= 3600 && width >= 60
    ensures Protocol.IsRun(Protocol.Start(unset), events) && Protocol.NoCrash(events)
    ensures var s := Protocol.After(Protocol.Start(unset), events);
            && s.acked == [p, q]
            && Gathered(s.m, None, start, end, width) == [QuantPoint(p), QuantPoint(q)]
            && forall r :: r in Gathered(s.m, Some(CoarseFiles([[QuantPoint(p)]], round)), start, end, width) ==>
                 MinuteOf(r.ts) != MinuteOf(q.ts)
  {
    hide Protocol.Apply, Protocol.Enabled, HeadChunk, ChunkId, QuantPoint, Query.Filter, Query.FromChunks,
      MinuteOf, FromFiles, CoarseFiles, Rounds, Finite;
    events := ChunkFiles.SecondChunk(unset, p, q);
    Query.NoneGathered(start, end, false);
    Query.TwoChunksAnswer(p, q, start, end, false);
    assert [QuantPoint(p), QuantPoint(q)] + [] == [QuantPoint(p), QuantPoint(q)];
    OneCoarseFile(p, round, start, end);
    var coarse := FromFiles(CoarseFiles([[QuantPoint(p)]], round), start, end);
    assert coarse + [] == coarse;
  }

  /** What the coarse file of one point gives lies in the point's minute. */
  lemma OneCoarseFile(p: Point, round: real -> Word, start: Long, end: Long)
    requires p.ts >= 0 && Finite(p.value) && Rounds(round)
    ensures forall r :: r in FromFiles(CoarseFiles([[QuantPoint(p)]], round), start, end) ==>
              MinuteOf(r.ts) == MinuteOf(p.ts)
  {
    hide MinuteOf, CoarseFile, ReadBack, Query.Filter, Rounds, Finite, RealOf, QuantPoint, Coarsens, Coarse.Bounded,
      Coarse.Shown;
    var one := [QuantPoint(p)];
    var file := CoarseFile(one, round);
    var files := CoarseFiles([one], round);
    assert files == [file] && files[..0] == [];
    OnePointCoarsens(p, round);
    CoarseFileRepresents(one, round);
    Query.FilterMembers(ReadBack(file), start, end);
    assert FromFiles(files, start, end) == Query.Filter(ReadBack(file), start, end);
    forall r | r in Query.Filter(ReadBack(file), start, end)
      ensures MinuteOf(r.ts) == MinuteOf(p.ts)
    {
      var k :| 0 <= k < |ReadBack(file)| && ReadBack(file)[k] == r;
      var c := ReadingsOf(ReadBack(file))[k];
      assert c in ReadingsOf(ReadBack(file));
      BoundedByOne(c, p);
    }
  }

  lemma BoundedByOne(c: Aggregate.Reading, p: Point)
    requires Coarse.Bounded(c, ReadingsOf([QuantPoint(p)]))
    ensures MinuteOf(c.ts) == MinuteOf(p.ts)
  {
    hide MinuteOf, RealOf, Values.Mask;
  }
}
