/** Range queries (src/registry.c): chunks are skipped by their index entries, the
    rest are decoded and filtered, then the head. */
module Query {
  import opened Words
  import opened Heads
  import opened Chunks
  import opened Store
  import opened Protocol
  import opened ChunkFiles
  import Recovery

  predicate Within(p: Point, start: Long, end: Long) {
    start <= p.ts < end
  }

  /** The points in [start, end), in order. */
  function Filter(points: seq<Point>, start: Long, end: Long): seq<Point> {
    if points == [] then []
    else
      var rest := Filter(points[..|points| - 1], start, end);
      var p := points[|points| - 1];
      if Within(p, start, end) then rest + [p] else rest
  }

  lemma FilterStep(points: seq<Point>, p: Point, start: Long, end: Long)
    ensures Filter(points + [p], start, end)
            == Filter(points, start, end) + (if Within(p, start, end) then [p] else [])
  {
    assert (points + [p])[..|points|] == points;
  }

  lemma {:induction false} FilterConcat(a: seq<Point>, b: seq<Point>, start: Long, end: Long)
    ensures Filter(a + b, start, end) == Filter(a, start, end) + Filter(b, start, end)
  {
    if b == [] {
      assert a + b == a;
    } else {
      var front := b[..|b| - 1];
      assert (a + b)[..|a + b| - 1] == a + front;
      FilterConcat(a, front, start, end);
    }
  }

  lemma {:induction false} FilterNone(points: seq<Point>, start: Long, end: Long)
    requires forall p :: p in points ==> !Within(p, start, end)
    ensures Filter(points, start, end) == []
  {
    if points != [] {
      FilterNone(points[..|points| - 1], start, end);
    }
  }

  lemma {:induction false} FilterMembers(points: seq<Point>, start: Long, end: Long)
    ensures forall p :: p in Filter(points, start, end) <==> p in points && Within(p, start, end)
  {
    if points != [] {
      FilterMembers(points[..|points| - 1], start, end);
      assert points == points[..|points| - 1] + [points[|points| - 1]];
    }
  }

  /** Quantising changes no timestamp, so it does not matter which comes first. */
  lemma {:induction false} FilterQuant(points: seq<Point>, start: Long, end: Long)
    ensures Filter(Quant(points), start, end) == Quant(Filter(points, start, end))
  {
    if points != [] {
      var front := points[..|points| - 1];
      assert Quant(points)[..|points| - 1] == Quant(front);
      FilterQuant(front, start, end);
    }
  }

  // ---------------------------------------------------------------------------
  // Pruning
  // ---------------------------------------------------------------------------

  /** The test of `Head_GET`, which takes in chunks that start at `end`, and the
      tighter one of `Head_AGG`. */
  predicate MayOverlap(meta: Meta, start: Long, end: Long, inclusive: bool) {
    && (if inclusive then meta.startTs <= end else meta.startTs < end)
    && meta.endTs >= start
  }

  /** The timestamp `t` lies in the range of a chunk and in that of a query. */
  predicate Shares(meta: Meta, t: int, start: Long, end: Long, inclusive: bool) {
    meta.startTs <= t <= meta.endTs && start <= t && (t < end || (inclusive && t == end))
  }

  /** The tests skip no more and no less than they can: an entry passes exactly when the
      range of the query and that of the chunk share a timestamp, for `Head_GET` the end
      of the query included. */
  lemma PruningIsTight(meta: Meta, start: Long, end: Long, inclusive: bool)
    requires meta.startTs <= meta.endTs && start < end
    ensures MayOverlap(meta, start, end, inclusive) <==> exists t :: Shares(meta, t, start, end, inclusive)
  {
    if MayOverlap(meta, start, end, inclusive) {
      assert Shares(meta, if start < meta.startTs then meta.startTs else start, start, end, inclusive);
    }
  }

  /** The points a query gets from the chunks of an index. */
  ghost function FromChunks(files: map<Uint32, File>, index: seq<Meta>, start: Long, end: Long, inclusive: bool)
    : seq<Point>
  {
    if index == [] then []
    else
      var last := index[|index| - 1];
      FromChunks(files, index[..|index| - 1], start, end, inclusive)
      + (if MayOverlap(last, start, end, inclusive) then Filter(Recovery.ReadOf(files, last.id), start, end) else [])
  }

  /** The answer to a range query. */
  ghost function Answer(m: Metric, start: Long, end: Long, inclusive: bool): seq<Point> {
    FromChunks(m.files, m.index, start, end, inclusive) + Filter(m.head.points, start, end)
  }

  /** The index entry bounds the timestamps of its chunk. */
  ghost predicate Bounds(meta: Meta, points: seq<Point>) {
    forall p :: p in points ==> meta.startTs <= p.ts <= meta.endTs
  }

  lemma SortedIsBounded(points: seq<Point>)
    requires points != [] && Sorted(points)
    ensures Bounds(MetaOf(points), Quant(points))
  {
    forall p | p in Quant(points)
      ensures points[0].ts <= p.ts <= points[|points| - 1].ts
    {
      var i :| 0 <= i < |points| && Quant(points)[i] == p;
    }
  }

  /** Skipping chunks by their index entries changes no answer: the chunks of the
      index give exactly the points of the flushed heads that are in range. */
  lemma {:induction false} PruningIsSound(s: State, n: nat, start: Long, end: Long, inclusive: bool)
    requires IndexInvariant(s) && AllIntact(s) && Recovery.AllFit(s) && n <= |s.flushed|
    ensures FromChunks(s.m.files, s.m.index[..n], start, end, inclusive)
            == Filter(Quant(Flat(s.flushed[..n])), start, end)
  {
    hide Quant, AllIntact, Recovery.AllFit, Recovery.ReadOf, Flat, MetaOf, ChunkId;
    if n == 0 {
      Recovery.NoContents(s.m.files);
      assert s.flushed[..0] == [];
      assert Flat(s.flushed[..0]) == [] && Quant([]) == [];
    } else {
      var chunk, meta := s.flushed[n - 1], s.m.index[n - 1];
      PruningIsSound(s, n - 1, start, end, inclusive);
      assert s.m.index[..n][..n - 1] == s.m.index[..n - 1];
      Recovery.ChunkReadsBack(s, n - 1);
      Recovery.FlatPrefix(s.flushed, n - 1);
      Recovery.QuantAppend(Flat(s.flushed[..n - 1]), chunk);
      FilterConcat(Quant(Flat(s.flushed[..n - 1])), Quant(chunk), start, end);
      SortedIsBounded(chunk);
      if !MayOverlap(meta, start, end, inclusive) {
        FilterNone(Quant(chunk), start, end);
      }
    }
  }

  /** A query on any state of a run sees exactly the accepted points in range, in
      the order they were accepted, the flushed ones quantised. */
  lemma AnswerIsComplete(s: State, start: Long, end: Long, inclusive: bool)
    requires Invariant(s) && AllIntact(s) && Recovery.AllFit(s)
    ensures Answer(s.m, start, end, inclusive)
            == Filter(Quant(Flat(s.flushed)) + s.m.head.points, start, end)
    ensures Quant(Answer(s.m, start, end, inclusive)) == Filter(Quant(s.accepted), start, end)
  {
    hide HeadInvariant, LogInvariant, LockInvariant, WindowInvariant, Filter, Quant, AllIntact, Recovery.AllFit,
      FromChunks, Flat;
    PruningIsSound(s, |s.flushed|, start, end, inclusive);
    assert s.m.index[..|s.flushed|] == s.m.index && s.flushed[..|s.flushed|] == s.flushed;
    var chunks, head := Flat(s.flushed), s.m.head.points;
    FilterConcat(Quant(chunks), head, start, end);
    FilterConcat(chunks, head, start, end);
    FilterQuant(chunks, start, end);
    FilterQuant(chunks + head, start, end);
    Recovery.QuantAppend(Filter(chunks, start, end), Filter(head, start, end));
    Recovery.QuantAppend(Quant(Filter(chunks, start, end)), Filter(head, start, end));
    QuantTwice(Filter(chunks, start, end));
  }

  lemma QuantTwice(points: seq<Point>)
    ensures Quant(Quant(points)) == Quant(points)
  {
  }

  /** The same from an empty directory: any interleaving of puts and flushes. */
  lemma QueryAfterAnyRun(unset: Long, events: seq<Event>, start: Long, end: Long, inclusive: bool)
    requires IsRun(Start(unset), events) && NoCrash(events) && FreshNames(Start(unset), events)
    requires Recovery.AllFit(After(Start(unset), events))
    ensures var s := After(Start(unset), events);
            Quant(Answer(s.m, start, end, inclusive)) == Filter(Quant(s.accepted), start, end)
  {
    hide Enabled, Apply, FreshName, Recovery.AllFit, Answer, Filter, Quant;
    StartFiles(unset);
    RunKeepsInvariant(Start(unset), events);
    AlwaysIntactFrom(Start(unset), events);
    AnswerIsComplete(After(Start(unset), events), start, end, inclusive);
  }

  // ---------------------------------------------------------------------------
  // Queries after a restart
  // ---------------------------------------------------------------------------

  lemma {:induction false} IndexedAppend(files: map<Uint32, File>, index: seq<Meta>, meta: Meta)
    ensures IndexedPoints(files, index + [meta]) == IndexedPoints(files, index) + Recovery.ReadOf(files, meta.id)
  {
    hide ReadBack;
    var all := index + [meta];
    if index == [] {
      assert all[1..] == [] && Recovery.ReadOf(files, meta.id) + [] == Recovery.ReadOf(files, meta.id);
    } else {
      assert all[1..] == index[1..] + [meta];
      IndexedAppend(files, index[1..], meta);
    }
  }

  /** Every entry of an index bounds what its file holds. */
  ghost predicate IndexBounds(files: map<Uint32, File>, index: seq<Meta>) {
    forall i :: 0 <= i < |index| ==> Bounds(index[i], Recovery.ReadOf(files, index[i].id))
  }

  /** Pruning by such an index is the same as decoding every chunk and filtering. */
  lemma {:induction false} PruningByBounds(files: map<Uint32, File>, index: seq<Meta>, start: Long, end: Long,
                                           inclusive: bool)
    requires IndexBounds(files, index)
    ensures FromChunks(files, index, start, end, inclusive) == Filter(IndexedPoints(files, index), start, end)
  {
    hide Filter, Recovery.ReadOf, Bounds, IndexedPoints;
    if index == [] {
      FilterNone([], start, end);
      assert IndexedPoints(files, []) == [] by { NoIndex(files); }
    } else {
      var front, meta := index[..|index| - 1], index[|index| - 1];
      assert index == front + [meta];
      PruningByBounds(files, front, start, end, inclusive);
      IndexedAppend(files, front, meta);
      FilterConcat(IndexedPoints(files, front), Recovery.ReadOf(files, meta.id), start, end);
      if !MayOverlap(meta, start, end, inclusive) {
        OutOfBounds(meta, Recovery.ReadOf(files, meta.id), start, end, inclusive);
      }
    }
  }

  lemma NoIndex(files: map<Uint32, File>)
    ensures IndexedPoints(files, []) == []
  {
  }

  lemma OutOfBounds(meta: Meta, points: seq<Point>, start: Long, end: Long, inclusive: bool)
    requires Bounds(meta, points) && !MayOverlap(meta, start, end, inclusive)
    ensures Filter(points, start, end) == []
  {
    FilterNone(points, start, end);
  }

  /** The headers of flushed chunks bound their points, so the index a restart loads
      prunes soundly too. */
  lemma {:induction false} LoadedIndexBounds(s: State, listing: seq<Uint32>)
    requires Invariant(s) && FilesInvariant(s) && Recovery.AllFit(s)
    ensures IndexBounds(s.m.files, LoadIndex(s.m.files, listing))
  {
    hide Invariant, FilesInvariant, Recovery.AllFit, Recovery.ReadOf, Signed64, Bounds;
    if listing != [] {
      LoadedIndexBounds(s, listing[1..]);
      var id := listing[0];
      if id in s.m.files && s.m.files[id].Whole? {
        var points := WholeFile(s, id);
        HeaderBounds(s.m.files, id, points);
      }
    }
  }

  /** A readable file is the flushed chunk of some sorted head. */
  lemma WholeFile(s: State, id: Uint32) returns (points: seq<Point>)
    requires Invariant(s) && FilesInvariant(s) && Recovery.AllFit(s)
    requires id in s.m.files && s.m.files[id].Whole?
    ensures GoodChunk(points) && Fits(points) && s.m.files[id] == HeadChunk(points)
  {
    hide LockInvariant, Conserved, HeadChunk, Fits;
    if Indexed(s, id) {
      var i :| 0 <= i < |s.m.index| && s.m.index[i].id == id;
      points := s.flushed[i];
    } else {
      points := s.m.head.points;
    }
  }

  lemma HeaderBounds(files: map<Uint32, File>, id: Uint32, points: seq<Point>)
    requires GoodChunk(points) && Fits(points) && id in files && files[id] == HeadChunk(points)
    ensures files[id].Whole?
    ensures var h := files[id].chunk.header;
            Bounds(Meta(Signed64(h.startTs), Signed64(h.endTs), id), Recovery.ReadOf(files, id))
  {
    hide ReadBack, Payload, Fits, Quant, Signed64, Unsigned64;
    FlushedReadsBack(ChunkId(points), points);
    SignedOfUnsigned(points[0].ts);
    SignedOfUnsigned(points[|points| - 1].ts);
    SortedIsBounded(points);
  }

  /** After a crash at any point of such a run and a restart, queries see exactly the
      recovered points in range. */
  lemma RestartedQuery(s: State, listing: seq<Uint32>, unset: Long, start: Long, end: Long, inclusive: bool)
    requires Invariant(s) && FilesInvariant(s) && Recovery.AllFit(s)
    ensures var m := Restart(s.m, listing, unset);
            Answer(m, start, end, inclusive) == Filter(AllPoints(m), start, end)
  {
    hide Invariant, FilesInvariant, Recovery.AllFit, Filter, FromChunks, IndexedPoints, LoadIndex;
    var m := Restart(s.m, listing, unset);
    LoadedIndexBounds(s, listing);
    PruningByBounds(m.files, m.index, start, end, inclusive);
    FilterConcat(IndexedPoints(m.files, m.index), m.head.points, start, end);
  }

  // ---------------------------------------------------------------------------
  // A query that overlaps a flush
  // ---------------------------------------------------------------------------

  /** `Head_GET` walks the index without the head's lock and takes the lock only for
      the head: the chunks are those of one state, the head that of a later one. */
  ghost function RacingAnswer(before: State, after: State, start: Long, end: Long, inclusive: bool): seq<Point> {
    FromChunks(before.m.files, before.m.index, start, end, inclusive) + Filter(after.m.head.points, start, end)
  }

  /** Such a query gives the complete answer exactly when no chunk that was flushed
      in between holds a point in range. */
  lemma RacingAnswerIff(before: State, events: seq<Event>, start: Long, end: Long, inclusive: bool)
    requires Invariant(before) && AllIntact(before) && Recovery.AllFit(before)
    requires IsRun(before, events) && NoCrash(events)
    requires var after := After(before, events);
             Invariant(after) && AllIntact(after) && Recovery.AllFit(after)
    ensures var after := After(before, events);
            && before.flushed <= after.flushed
            && (RacingAnswer(before, after, start, end, inclusive) == Answer(after.m, start, end, inclusive)
                <==> forall p :: p in Flat(after.flushed[|before.flushed|..]) ==> !Within(p, start, end))
  {
    hide Invariant, AllIntact, Recovery.AllFit, Filter, Flat, Quant, FromChunks, Apply, Enabled, Within;
    var after := After(before, events);
    HistoryGrows(before, events);
    var n := |before.flushed|;
    var late := after.flushed[n..];
    assert after.flushed == before.flushed + late;
    FlatConcat(before.flushed, late);
    Recovery.QuantAppend(Flat(before.flushed), Flat(late));
    FilterConcat(Quant(Flat(before.flushed)), Quant(Flat(late)), start, end);
    ChunksAnswer(before, start, end, inclusive);
    ChunksAnswer(after, start, end, inclusive);
    FilterQuant(Flat(late), start, end);
    FilterEmptyIff(Flat(late), start, end);
    var a, b, c := Filter(Quant(Flat(before.flushed)), start, end), Quant(Filter(Flat(late), start, end)),
                   Filter(after.m.head.points, start, end);
    assert RacingAnswer(before, after, start, end, inclusive) == a + c;
    assert Answer(after.m, start, end, inclusive) == (a + b) + c;
    assert |a + c| == |(a + b) + c| <==> b == [];
    assert b == [] ==> a + b == a;
    assert |b| == |Filter(Flat(late), start, end)|;
  }

  /** A point in range that is put, and flushed while a query walks the index: its put
      was answered before the query came, and the query does not see it. */
  lemma RacingQueryLosesPoint(unset: Long, p: Point, start: Long, end: Long, inclusive: bool)
    requires Within(p, start, end)
    ensures var before := After(Start(unset), PutEvents(0, p));
            var after := After(before, FlushEvents(1));
            && IsRun(Start(unset), PutEvents(0, p)) && IsRun(before, FlushEvents(1))
            && before.acked == [p]
            && RacingAnswer(before, after, start, end, inclusive) == []
            && Answer(after.m, start, end, inclusive) == [QuantPoint(p)]
  {
    hide Apply, Enabled, HeadChunk, ChunkId, QuantPoint, Filter, FromChunks;
    PutRun(Start(unset), 0, p);
    var before := After(Start(unset), PutEvents(0, p));
    assert before.m == Metric(HeadState([p], p.ts), [], map[], [p]) && before.acked == [p];
    FlushRun(before, 1);
    RunConcat(Start(unset), PutEvents(0, p), FlushEvents(1));
    FirstChunk(unset, p);
    NoneGathered(start, end, inclusive);
    OneChunkAnswer(p, start, end, inclusive);
    assert [QuantPoint(p)] + [] == [QuantPoint(p)];
  }

  lemma NoneGathered(start: Long, end: Long, inclusive: bool)
    ensures FromChunks(map[], [], start, end, inclusive) == [] && Filter([], start, end) == []
  {
  }

  /** What a query takes from the chunk of one point. */
  lemma OneEntry(files: map<Uint32, File>, p: Point, start: Long, end: Long, inclusive: bool)
    requires Within(p, start, end) && ChunkId([p]) in files && files[ChunkId([p])] == HeadChunk([p])
    ensures MayOverlap(MetaOf([p]), start, end, inclusive)
    ensures Filter(Recovery.ReadOf(files, MetaOf([p]).id), start, end) == [QuantPoint(p)]
  {
    hide FlushedChunk, ChunkId, ReadBack, QuantPoint;
    FlushedReadsBack(ChunkId([p]), [p]);
    assert Quant([p]) == [QuantPoint(p)];
    FilterOne(p, start, end);
  }

  lemma OneMoreChunk(files: map<Uint32, File>, index: seq<Meta>, meta: Meta, start: Long, end: Long, inclusive: bool)
    requires MayOverlap(meta, start, end, inclusive)
    ensures FromChunks(files, index + [meta], start, end, inclusive)
            == FromChunks(files, index, start, end, inclusive) + Filter(Recovery.ReadOf(files, meta.id), start, end)
  {
    hide Recovery.ReadOf, Filter;
    assert (index + [meta])[..|index|] == index;
  }

  lemma OneChunkAnswer(p: Point, start: Long, end: Long, inclusive: bool)
    requires Within(p, start, end)
    ensures FromChunks(map[ChunkId([p]) := HeadChunk([p])], [MetaOf([p])], start, end, inclusive) == [QuantPoint(p)]
  {
    hide HeadChunk, ChunkId, QuantPoint, MetaOf, Recovery.ReadOf, Filter;
    var files := map[ChunkId([p]) := HeadChunk([p])];
    OneEntry(files, p, start, end, inclusive);
    OneMoreChunk(files, [], MetaOf([p]), start, end, inclusive);
    assert [] + [MetaOf([p])] == [MetaOf([p])] && [] + [QuantPoint(p)] == [QuantPoint(p)];
  }

  lemma TwoChunksAnswer(p: Point, q: Point, start: Long, end: Long, inclusive: bool)
    requires Within(p, start, end) && Within(q, start, end) && ChunkId([p]) != ChunkId([q])
    ensures FromChunks(map[ChunkId([p]) := HeadChunk([p]), ChunkId([q]) := HeadChunk([q])],
                       [MetaOf([p]), MetaOf([q])], start, end, inclusive) == [QuantPoint(p), QuantPoint(q)]
  {
    hide HeadChunk, ChunkId, QuantPoint, MetaOf, FromChunks, Within;
    var files := map[ChunkId([p]) := HeadChunk([p]), ChunkId([q]) := HeadChunk([q])];
    TwoEntriesAnswer(files, p, q, start, end, inclusive);
  }

  lemma TwoEntriesAnswer(files: map<Uint32, File>, p: Point, q: Point, start: Long, end: Long, inclusive: bool)
    requires Within(p, start, end) && Within(q, start, end)
    requires ChunkId([p]) in files && files[ChunkId([p])] == HeadChunk([p])
    requires ChunkId([q]) in files && files[ChunkId([q])] == HeadChunk([q])
    ensures FromChunks(files, [MetaOf([p]), MetaOf([q])], start, end, inclusive) == [QuantPoint(p), QuantPoint(q)]
  {
    hide HeadChunk, ChunkId, QuantPoint, MetaOf, MayOverlap, FromChunks, Recovery.ReadOf, Filter, Within;
    var first, second, a, b := MetaOf([p]), MetaOf([q]), QuantPoint(p), QuantPoint(q);
    OneEntry(files, p, start, end, inclusive);
    OneEntry(files, q, start, end, inclusive);
    OneMoreChunk(files, [], first, start, end, inclusive);
    OneMoreChunk(files, [first], second, start, end, inclusive);
    NoChunks(files, start, end, inclusive);
    assert [] + [first] == [first] && [first] + [second] == [first, second];
    assert [] + [a] == [a] && [a] + [b] == [a, b];
  }

  lemma NoChunks(files: map<Uint32, File>, start: Long, end: Long, inclusive: bool)
    ensures FromChunks(files, [], start, end, inclusive) == []
  {
  }

  lemma FilterOne(p: Point, start: Long, end: Long)
    requires Within(p, start, end)
    ensures Filter([QuantPoint(p)], start, end) == [QuantPoint(p)]
  {
    var one := [QuantPoint(p)];
    assert one[..0] == [];
  }

  lemma ChunksAnswer(s: State, start: Long, end: Long, inclusive: bool)
    requires Invariant(s) && AllIntact(s) && Recovery.AllFit(s)
    ensures FromChunks(s.m.files, s.m.index, start, end, inclusive) == Filter(Quant(Flat(s.flushed)), start, end)
  {
    hide HeadInvariant, LogInvariant, LockInvariant, WindowInvariant, Filter, Quant, AllIntact, Recovery.AllFit,
      FromChunks, Flat;
    PruningIsSound(s, |s.flushed|, start, end, inclusive);
    assert s.m.index[..|s.flushed|] == s.m.index && s.flushed[..|s.flushed|] == s.flushed;
  }

  lemma {:induction false} FlatConcat(a: seq<seq<Point>>, b: seq<seq<Point>>)
    ensures Flat(a + b) == Flat(a) + Flat(b)
  {
    if b == [] {
      assert a + b == a && Flat(b) == [];
    } else {
      var front := b[..|b| - 1];
      assert (a + b)[..|a + b| - 1] == a + front;
      FlatConcat(a, front);
    }
  }

  lemma {:induction false} FilterEmptyIff(points: seq<Point>, start: Long, end: Long)
    ensures Filter(points, start, end) == [] <==> forall p :: p in points ==> !Within(p, start, end)
  {
    if points != [] {
      var front := points[..|points| - 1];
      FilterEmptyIff(front, start, end);
      assert points == front + [points[|points| - 1]];
    }
  }
}
