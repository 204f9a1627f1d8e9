/** What a restart gives back after a crash at any point of a run. */
module Recovery {
  import opened Words
  import opened Heads
  import opened Chunks
  import opened Store
  import opened Protocol
  import opened ChunkFiles
  import Wal

  /** The points of the file with the given id, if it can be read. */
  ghost function ReadOf(files: map<Uint32, File>, id: Uint32): seq<Point> {
    if id in files then ReadBack(files[id]) else []
  }

  /** The points of several files, as a multiset. */
  ghost function Contents(files: map<Uint32, File>, ids: seq<Uint32>): multiset<Point> {
    if ids == [] then multiset{} else multiset(ReadOf(files, ids[0])) + Contents(files, ids[1..])
  }

  ghost predicate Distinct(ids: seq<Uint32>) {
    forall i, j :: 0 <= i < j < |ids| ==> ids[i] != ids[j]
  }

  lemma {:induction false} ContentsAppend(files: map<Uint32, File>, a: seq<Uint32>, b: seq<Uint32>)
    ensures Contents(files, a + b) == Contents(files, a) + Contents(files, b)
  {
    if a == [] {
      assert a + b == b;
    } else {
      assert (a + b)[1..] == a[1..] + b;
      ContentsAppend(files, a[1..], b);
    }
  }

  lemma {:induction false} ContentsRemove(files: map<Uint32, File>, ids: seq<Uint32>, k: nat)
    requires k < |ids|
    ensures Contents(files, ids) == multiset(ReadOf(files, ids[k])) + Contents(files, ids[..k] + ids[k + 1..])
  {
    hide ReadOf;
    ContentsAppend(files, ids[..k], ids[k + 1..]);
    ContentsAppend(files, ids[..k], ids[k..]);
    var later := ids[k..];
    assert ids == ids[..k] + later;
    assert later[1..] == ids[k + 1..] && later[0] == ids[k];
    assert Contents(files, later) == multiset(ReadOf(files, later[0])) + Contents(files, later[1..]);
  }

  /** Taking one name out of a listing leaves the others. */
  lemma RestOfListing(listing: seq<Uint32>, k: nat)
    requires Distinct(listing) && k < |listing|
    ensures var rest := listing[..k] + listing[k + 1..];
            Distinct(rest) && forall id :: id in rest <==> id in listing && id != listing[k]
  {
    var rest := listing[..k] + listing[k + 1..];
    forall id | id in listing && id != listing[k]
      ensures id in rest
    {
      var j :| 0 <= j < |listing| && listing[j] == id;
      assert rest[if j < k then j else j - 1] == id;
    }
  }

  /** A listing may come in any order and may name unreadable files: what it gives
      is what the readable files hold. */
  lemma {:induction false} ListingOrderIrrelevant(files: map<Uint32, File>, listing: seq<Uint32>, ids: seq<Uint32>)
    requires Distinct(listing) && Distinct(ids)
    requires forall id :: id in ids ==> id in listing
    requires forall id :: id in listing && id !in ids ==> ReadOf(files, id) == []
    ensures Contents(files, listing) == Contents(files, ids)
    decreases |listing|
  {
    hide ReadOf;
    if ids == [] {
      if listing != [] {
        assert listing[0] in listing;
        ListingOrderIrrelevant(files, listing[1..], ids);
      }
    } else {
      assert ids[0] in listing;
      var k :| 0 <= k < |listing| && listing[k] == ids[0];
      var rest := listing[..k] + listing[k + 1..];
      ContentsRemove(files, listing, k);
      RestOfListing(listing, k);
      hide Contents;
      forall id | id in ids[1..]
        ensures id in rest
      {
        assert id in ids && id != ids[0];
      }
      forall id | id in rest && id !in ids[1..]
        ensures ReadOf(files, id) == []
      {
        assert ids == [ids[0]] + ids[1..];
      }
      ListingOrderIrrelevant(files, rest, ids[1..]);
    }
  }

  /** Loading a listing into the index gives access to the points of its files. */
  lemma {:induction false} LoadedContents(files: map<Uint32, File>, listing: seq<Uint32>)
    ensures multiset(IndexedPoints(files, LoadIndex(files, listing))) == Contents(files, listing)
  {
    hide Signed64, Intact, Chunks.Contents, FromSamples;
    if listing != [] {
      LoadedContents(files, listing[1..]);
      var id := listing[0];
      var rest := LoadIndex(files, listing[1..]);
      if id in files && files[id].Whole? {
        var meta := LoadIndex(files, listing)[0];
        assert LoadIndex(files, listing) == [meta] + rest && meta.id == id;
        assert LoadIndex(files, listing)[1..] == rest;
      } else {
        assert ReadOf(files, id) == [];
      }
    }
  }

  function IdsOf(index: seq<Meta>): (ids: seq<Uint32>)
    ensures |ids| == |index|
  {
    seq(|index|, i requires 0 <= i < |index| => index[i].id)
  }

  lemma QuantAppend(a: seq<Point>, b: seq<Point>)
    ensures Quant(a + b) == Quant(a) + Quant(b)
  {
  }

  /** Every chunk that exists fits the codec. */
  ghost predicate AllFit(s: State) {
    && (forall i :: 0 <= i < |s.flushed| ==> Fits(s.flushed[i]))
    && (Holder(s).FlushWritten? ==> Fits(s.m.head.points))
  }

  /** The files of the first `n` indexed chunks hold the quantised flushed points. */
  lemma {:induction false} IndexedContents(s: State, n: nat)
    requires IndexInvariant(s) && AllIntact(s) && AllFit(s) && n <= |s.flushed|
    ensures Contents(s.m.files, IdsOf(s.m.index)[..n]) == multiset(Quant(Flat(s.flushed[..n])))
  {
    hide Fits, HeadChunk, ReadBack, Quant, Contents, Flat, IndexInvariant, AllIntact, AllFit, ReadOf;
    assert |s.m.index| == |s.flushed| by { IndexLength(s); }
    var ids := IdsOf(s.m.index);
    if n == 0 {
      NoContents(s.m.files);
      assert ids[..0] == [] && s.flushed[..0] == [];
    } else {
      IndexedContents(s, n - 1);
      OneMoreFile(s.m.files, ids, n - 1);
      ChunkReadsBack(s, n - 1);
      FlatPrefix(s.flushed, n - 1);
      QuantAppend(Flat(s.flushed[..n - 1]), s.flushed[n - 1]);
    }
  }

  lemma IndexLength(s: State)
    requires IndexInvariant(s)
    ensures |s.m.index| == |s.flushed|
  {
  }

  lemma NoContents(files: map<Uint32, File>)
    ensures Contents(files, []) == multiset{} && Quant(Flat([])) == []
  {
  }

  lemma OneMoreFile(files: map<Uint32, File>, ids: seq<Uint32>, n: nat)
    requires n < |ids|
    ensures Contents(files, ids[..n + 1]) == Contents(files, ids[..n]) + multiset(ReadOf(files, ids[n]))
  {
    hide ReadOf;
    var last := [ids[n]];
    assert ids[..n + 1] == ids[..n] + last && last[1..] == [];
    ContentsAppend(files, ids[..n], last);
    assert Contents(files, last) == multiset(ReadOf(files, last[0])) + Contents(files, []);
  }

  lemma FlatPrefix(chunks: seq<seq<Point>>, n: nat)
    requires n < |chunks|
    ensures Flat(chunks[..n + 1]) == Flat(chunks[..n]) + chunks[n]
  {
    FlatAppend(chunks[..n], chunks[n]);
    assert chunks[..n + 1] == chunks[..n] + [chunks[n]];
  }

  lemma ChunkReadsBack(s: State, i: nat)
    requires IndexInvariant(s) && AllIntact(s) && AllFit(s) && i < |s.flushed|
    ensures ReadOf(s.m.files, s.m.index[i].id) == Quant(s.flushed[i])
  {
    hide Fits, Quant, ReadBack, FlushedChunk;
    FlushedReadsBack(s.m.index[i].id, s.flushed[i]);
  }

  /** The readable files of a state: the indexed chunks, and the one just written. */
  function ReadableIds(s: State): seq<Uint32> {
    IdsOf(s.m.index) +
    (if Holder(s).FlushWritten? && s.m.head.points != [] then [ChunkId(s.m.head.points)] else [])
  }

  /** The points that are in a complete file but also still in the log. */
  function WrittenTwice(s: State): seq<Point> {
    if Holder(s).FlushWritten? || Holder(s).FlushIndexed? then s.m.wal else []
  }

  /** The point that is in the log though its put was not answered. */
  function LoggedUnanswered(s: State): seq<Point> {
    match Holder(s)
    case PutLogged(p) => [p]
    case _ => []
  }

  /** The indexed files of a state hold the flushed points. */
  lemma IndexHoldsFlushed(s: State)
    requires Invariant(s) && FilesInvariant(s) && AllFit(s)
    ensures Contents(s.m.files, IdsOf(s.m.index)) == multiset(Quant(Flat(s.flushed)))
  {
    hide HeadInvariant, LogInvariant, LockInvariant, Conserved, WindowInvariant, IndexInvariant, AllIntact, AllFit,
      Quant, Flat, Contents;
    IndexLength(s);
    assert IndexInvariant(s) && AllIntact(s);
    IndexedContents(s, |s.flushed|);
    var ids := IdsOf(s.m.index);
    assert ids[..|s.flushed|] == ids && s.flushed[..|s.flushed|] == s.flushed;
  }

  lemma FilesHoldFlushed(s: State)
    requires Invariant(s) && FilesInvariant(s) && AllFit(s)
    ensures Contents(s.m.files, ReadableIds(s))
            == multiset(Quant(Flat(s.flushed))) +
               (if Holder(s).FlushWritten? then multiset(Quant(s.m.head.points)) else multiset{})
  {
    hide Invariant, FilesInvariant, AllFit, ReadOf, Quant, Flat, Contents;
    var ids := IdsOf(s.m.index);
    IndexHoldsFlushed(s);
    if Holder(s).FlushWritten? {
      WrittenReadsBack(s);
      var id := ChunkId(s.m.head.points);
      OneMoreFile(s.m.files, ids + [id], |ids|);
      assert (ids + [id])[..|ids|] == ids && (ids + [id])[..|ids| + 1] == ids + [id];
    } else {
      assert ReadableIds(s) == ids;
    }
  }

  /** The file just written holds the head. */
  lemma WrittenReadsBack(s: State)
    requires Invariant(s) && FilesInvariant(s) && AllFit(s) && Holder(s).FlushWritten?
    ensures s.m.head.points != []
    ensures ReadOf(s.m.files, ChunkId(s.m.head.points)) == Quant(s.m.head.points)
  {
    hide Conserved, LockInvariant, IndexInvariant, Fits, ReadBack, FlushedChunk, Quant;
    HeadBound(s);
    FlushedReadsBack(ChunkId(s.m.head.points), s.m.head.points);
  }

  lemma HeadBound(s: State)
    requires Invariant(s)
    ensures |s.m.head.points| <= HEAD_CAPACITY && |s.m.wal| <= HEAD_CAPACITY
  {
  }

  lemma ReadableIdsDistinct(s: State)
    requires Invariant(s) && FilesInvariant(s)
    ensures Distinct(ReadableIds(s))
    ensures forall id :: id in ReadableIds(s) ==> id in s.m.files
  {
    hide HeadInvariant, Conserved, LockInvariant, HeadChunk;
    var ids := ReadableIds(s);
    forall i, j | 0 <= i < j < |ids|
      ensures ids[i] != ids[j]
    {
      if j == |s.m.index| {
        assert Indexed(s, ids[i]);
      }
    }
  }

  lemma WholeIsListed(s: State, id: Uint32)
    requires Invariant(s) && FilesInvariant(s) && id in s.m.files && s.m.files[id].Whole?
    ensures id in ReadableIds(s)
  {
    hide HeadInvariant, Conserved, LockInvariant, HeadChunk;
    var ids := ReadableIds(s);
    if Indexed(s, id) {
      var i :| 0 <= i < |s.m.index| && s.m.index[i].id == id;
      assert ids[i] == id;
    } else {
      assert ids[|s.m.index|] == id;
    }
  }

  lemma ReadableIdsCover(s: State, listing: seq<Uint32>)
    requires Invariant(s) && FilesInvariant(s) && Lists(listing, s.m.files)
    ensures Contents(s.m.files, listing) == Contents(s.m.files, ReadableIds(s))
  {
    hide HeadInvariant, Conserved, LockInvariant, HeadChunk, Contents;
    var ids := ReadableIds(s);
    assert Holder(s).FlushWritten? ==> s.m.head.points != [];
    ReadableIdsDistinct(s);
    hide LogInvariant, WindowInvariant, Distinct;
    forall id | id in listing && id !in ids
      ensures ReadOf(s.m.files, id) == []
    {
      if s.m.files[id].Whole? {
        WholeIsListed(s, id);
      }
    }
    ListingOrderIrrelevant(s.m.files, listing, ids);
  }

  /** The points a restart shows, up to the quantisation of the codec. */
  ghost function Recovered(s: State, listing: seq<Uint32>, unset: Long): multiset<Point> {
    var m := Restart(s.m, listing, unset);
    multiset(IndexedPoints(m.files, m.index)) + multiset(Quant(m.head.points))
  }

  lemma RecoveredParts(s: State, listing: seq<Uint32>, unset: Long)
    requires Invariant(s) && FilesInvariant(s) && AllFit(s) && Lists(listing, s.m.files)
    ensures Recovered(s, listing, unset)
            == multiset(Quant(Flat(s.flushed)))
               + (if Holder(s).FlushWritten? then multiset(Quant(s.m.head.points)) else multiset{})
               + multiset(Quant(Wal.Replay(HeadState([], unset), s.m.wal).points))
  {
    hide Invariant, FilesInvariant, AllFit, Lists, Contents, IndexedPoints, LoadIndex, Quant;
    LoadedContents(s.m.files, listing);
    ReadableIdsCover(s, listing);
    FilesHoldFlushed(s);
  }

  lemma CancelLast(a: seq<Point>, b: seq<Point>, p: Point)
    requires a + [p] == b + [p]
    ensures a == b
  {
    assert (a + [p])[..|a|] == a && (b + [p])[..|b|] == b;
  }

  /** The flushed points, the chunk just written and the log, against the answered
      puts: what is in both a file and the log counts twice. */
  lemma ExpectedPoints(s: State)
    requires Invariant(s)
    ensures multiset(Quant(Flat(s.flushed)))
            + (if Holder(s).FlushWritten? then multiset(Quant(s.m.head.points)) else multiset{})
            + multiset(Quant(s.m.wal))
            == multiset(Quant(s.acked)) + multiset(Quant(LoggedUnanswered(s))) + multiset(Quant(WrittenTwice(s)))
  {
    hide HeadInvariant, IndexInvariant, LockInvariant, Quant, Flat;
    QuantAppend(Flat(s.flushed), s.m.wal);
    QuantAppend(s.acked, LoggedUnanswered(s));
    assert Quant([]) == [] by { QuantAppend([], []); }
    match Holder(s)
    case PutLogging(p) =>
      assert Flat(s.flushed) + (s.m.wal + [p]) == (Flat(s.flushed) + s.m.wal) + [p];
      CancelLast(s.acked, Flat(s.flushed) + s.m.wal, p);
    case _ =>
      assert s.acked + [] == s.acked && Flat(s.flushed) + [] == Flat(s.flushed);
  }

  lemma MultisetCancel(common: multiset<Point>, a: multiset<Point>, b: multiset<Point>)
    requires common + a == common + b
    ensures |a| == |b|
  {
    assert |common + a| == |common + b|;
  }

  /** A crash at any point of a run with fresh file names and chunks that fit the
      codec: the restart shows every answered put, plus at most the one whose record
      had reached the log, plus a second copy of the log when the crash fell between
      the end of the chunk write and the removal of the log. It shows exactly that
      if and only if the timestamps in the log increase strictly from above the last
      timestamp the fresh head happens to hold. */
  lemma RecoveryIsExactIff(s: State, listing: seq<Uint32>, unset: Long)
    requires Invariant(s) && FilesInvariant(s) && AllFit(s) && Lists(listing, s.m.files)
    ensures Recovered(s, listing, unset)
              == multiset(Quant(s.acked)) + multiset(Quant(LoggedUnanswered(s))) + multiset(Quant(WrittenTwice(s)))
            <==> Wal.StrictlyAbove(s.m.wal, unset)
  {
    hide Invariant, FilesInvariant, AllFit, Lists, Quant, Recovered, Flat, Wal.StrictlyAbove;
    RecoveredParts(s, listing, unset);
    ExpectedPoints(s);
    HeadBound(s);
    Wal.ReplayRecoversAllIff(unset, s.m.wal);
    var back := Wal.Replay(HeadState([], unset), s.m.wal).points;
    var common := multiset(Quant(Flat(s.flushed)))
                  + (if Holder(s).FlushWritten? then multiset(Quant(s.m.head.points)) else multiset{});
    assert Recovered(s, listing, unset) == common + multiset(Quant(back));
    if Recovered(s, listing, unset) == common + multiset(Quant(s.m.wal)) {
      MultisetCancel(common, multiset(Quant(back)), multiset(Quant(s.m.wal)));
      assert |Quant(back)| == |Quant(s.m.wal)|;
    }
  }

  /** Between the end of the chunk write and the removal of the log every answered
      put is recovered whatever the timestamps in the log. */
  lemma WindowRecoversAll(s: State, listing: seq<Uint32>, unset: Long)
    requires Invariant(s) && FilesInvariant(s) && AllFit(s) && Lists(listing, s.m.files)
    requires Holder(s).FlushWritten? || Holder(s).FlushIndexed?
    ensures multiset(Quant(s.acked)) <= Recovered(s, listing, unset)
  {
    hide FilesInvariant, AllFit, Lists, Quant, Recovered, HeadInvariant, LockInvariant, IndexInvariant;
    RecoveredParts(s, listing, unset);
    QuantAppend(Flat(s.flushed), s.m.head.points);
    assert s.acked + [] == s.acked && Flat(s.flushed) + [] == Flat(s.flushed);
    assert s.acked == Flat(s.flushed) + s.m.head.points;
  }

  /** A crash between the end of the chunk write and the removal of the log does bring
      points back twice: every point of the log is then in a chunk as well. */
  lemma WindowDuplicates(s: State, listing: seq<Uint32>, unset: Long, p: Point)
    requires Invariant(s) && FilesInvariant(s) && AllFit(s) && Lists(listing, s.m.files)
    requires (Holder(s).FlushWritten? || Holder(s).FlushIndexed?) && Wal.StrictlyAbove(s.m.wal, unset) && p in s.m.wal
    ensures Recovered(s, listing, unset)[QuantPoint(p)] >= 2
  {
    RecoveryIsExactIff(s, listing, unset);
    LogIsAcked(s, p);
    hide Invariant, FilesInvariant, AllFit, Recovered, QuantPoint;
    QuantMember(s.acked, p);
    QuantMember(s.m.wal, p);
    assert QuantPoint(p) in multiset(Quant(s.acked)) && QuantPoint(p) in multiset(Quant(WrittenTwice(s)));
  }

  lemma QuantMember(points: seq<Point>, p: Point)
    requires p in points
    ensures QuantPoint(p) in Quant(points)
  {
    hide QuantPoint;
    var i :| 0 <= i < |points| && points[i] == p;
    assert Quant(points)[i] == QuantPoint(p);
  }

  /** In that window every point of the log has been answered. */
  lemma LogIsAcked(s: State, p: Point)
    requires Invariant(s) && (Holder(s).FlushWritten? || Holder(s).FlushIndexed?) && p in s.m.wal
    ensures p in s.acked
  {
    hide HeadInvariant, LockInvariant, IndexInvariant;
    assert s.acked + [] == s.acked && Flat(s.flushed) + [] == Flat(s.flushed);
    if Holder(s).FlushIndexed? {
      assert Flat(s.flushed) == Flat(s.flushed[..|s.flushed| - 1]) + s.m.wal;
    }
  }

  /** The same, from an empty directory: any run, any crash, any listing order. */
  lemma RecoveryAfterAnyRun(start: Long, events: seq<Event>, listing: seq<Uint32>, unset: Long)
    requires IsRun(Start(start), events) && NoCrash(events) && FreshNames(Start(start), events)
    requires var s := After(Start(start), events); AllFit(s) && Lists(listing, s.m.files)
    ensures var s := After(Start(start), events);
            (Recovered(s, listing, unset)
               == multiset(Quant(s.acked)) + multiset(Quant(LoggedUnanswered(s))) + multiset(Quant(WrittenTwice(s))))
            <==> Wal.StrictlyAbove(s.m.wal, unset)
  {
    hide AllFit, Lists, Recovered, Quant, Wal.StrictlyAbove, Enabled, Apply, FilesInvariant, FreshName;
    StartFiles(start);
    RunKeepsInvariant(Start(start), events);
    AlwaysIntactFrom(Start(start), events);
    RecoveryIsExactIff(After(Start(start), events), listing, unset);
  }

  /** Two puts at the same time are both answered, and after a crash one is gone. */
  lemma AnsweredPutIsLost(start: Long, unset: Long, p: Point, q: Point)
    requires unset < p.ts == q.ts
    ensures var s := After(Start(start), PutEvents(0, p) + PutEvents(1, q));
            && IsRun(Start(start), PutEvents(0, p) + PutEvents(1, q))
            && s.acked == [p, q] && s.m.files == map[]
            && Restart(s.m, [], unset) == Metric(HeadState([p], p.ts), [], map[], [p, q])
  {
    hide Apply, Enabled, Wal.Replay;
    PutRun(Start(start), 0, p);
    var s1 := After(Start(start), PutEvents(0, p));
    assert s1.m == Metric(HeadState([p], p.ts), [], map[], [p]);
    PutRun(s1, 1, q);
    RunConcat(Start(start), PutEvents(0, p), PutEvents(1, q));
    assert [p] + [q] == [p, q];
    SecondIsSkipped(unset, p, q);
  }

  lemma SecondIsSkipped(unset: Long, p: Point, q: Point)
    requires unset < p.ts == q.ts
    ensures Wal.Replay(HeadState([], unset), [p, q]) == HeadState([p], p.ts)
  {
    var h, h1 := HeadState([], unset), HeadState([p], p.ts);
    assert [p, q][1..] == [q] && [q][1..] == [];
    assert [] + [p] == [p];
    assert Wal.ReplayOne(h, p) == h1 && Wal.ReplayOne(h1, q) == h1;
    assert Wal.Replay(h1, [q]) == Wal.Replay(h1, []);
  }

  /** A put, and a flush that a crash stops between the end of the chunk write and the
      removal of the log: after the restart the point is in a chunk and in the head. */
  lemma DuplicatingRun(start: Long, unset: Long, p: Point)
    requires unset < p.ts
    ensures var events := PutEvents(0, p) + [CallFlush(1), Run(1, true), Run(1, true), Crash([ChunkId([p])], unset)];
            && IsRun(Start(start), events)
            && After(Start(start), events).m
               == Metric(HeadState([p], p.ts), [MetaOf([p])], map[ChunkId([p]) := HeadChunk([p])], [p])
  {
    hide Apply, Enabled, HeadChunk, ChunkId, MetaOf;
    PutRun(Start(start), 0, p);
    var s1 := After(Start(start), PutEvents(0, p));
    assert s1.m == Metric(HeadState([p], p.ts), [], map[], [p]);
    var more := [CallFlush(1), Run(1, true), Run(1, true), Crash([ChunkId([p])], unset)];
    WrittenThenCrash(s1, unset, p);
    RunConcat(Start(start), PutEvents(0, p), more);
  }

  lemma WrittenThenCrash(s: State, unset: Long, p: Point)
    requires unset < p.ts && Idle(s, 1) && s.m == Metric(HeadState([p], p.ts), [], map[], [p])
    ensures var more := [CallFlush(1), Run(1, true), Run(1, true), Crash([ChunkId([p])], unset)];
            && IsRun(s, more)
            && After(s, more).m
               == Metric(HeadState([p], p.ts), [MetaOf([p])], map[ChunkId([p]) := HeadChunk([p])], [p])
  {
    hide Apply, Enabled, HeadChunk, ChunkId, MetaOf;
    var call, run, crash := CallFlush(1), Run(1, true), Crash([ChunkId([p])], unset);
    var s1 := Apply(s, call);
    var s2 := Apply(s1, run);
    var s3 := Apply(s2, run);
    WrittenState(s, p);
    CrashWhenWritten(s3, unset, p);
    NextEvent(s3, crash, []);
    NextEvent(s2, run, [crash] + []);
    NextEvent(s1, run, [run] + ([crash] + []));
    NextEvent(s, call, [run] + ([run] + ([crash] + [])));
    assert [call] + ([run] + ([run] + ([crash] + []))) == [call, run, run, crash];
  }

  lemma WrittenState(s: State, p: Point)
    requires Idle(s, 1) && s.m == Metric(HeadState([p], p.ts), [], map[], [p])
    ensures var s1 := Apply(s, CallFlush(1));
            var s2 := Apply(s1, Run(1, true));
            var s3 := Apply(s2, Run(1, true));
            && Enabled(s, CallFlush(1)) && Enabled(s1, Run(1, true)) && Enabled(s2, Run(1, true))
            && Holder(s3).FlushWritten?
            && s3.m == Metric(HeadState([p], p.ts), [], map[ChunkId([p]) := HeadChunk([p])], [p])
  {
    hide HeadChunk, ChunkId;
  }

  lemma CrashWhenWritten(s: State, unset: Long, p: Point)
    requires unset < p.ts && s.m == Metric(HeadState([p], p.ts), [], map[ChunkId([p]) := HeadChunk([p])], [p])
    ensures var crash := Crash([ChunkId([p])], unset);
            && Enabled(s, crash)
            && Apply(s, crash).m == s.m.(index := [MetaOf([p])])
  {
    hide HeadChunk, ChunkId, Wal.Replay, LoadIndex, MetaOf;
    OneFileLoaded(p);
    OneRecord(unset, p);
  }

  lemma OneFileLoaded(p: Point)
    ensures LoadIndex(map[ChunkId([p]) := HeadChunk([p])], [ChunkId([p])]) == [MetaOf([p])]
  {
    hide HeadChunk, ChunkId, Signed64;
    var listing := [ChunkId([p])];
    EntryOfHeadChunk([p]);
    assert listing[1..] == [] && [MetaOf([p])] + [] == [MetaOf([p])];
  }

  lemma OneRecord(unset: Long, p: Point)
    requires unset < p.ts
    ensures Wal.Replay(HeadState([], unset), [p]) == HeadState([p], p.ts)
  {
    assert [p][1..] == [] && [] + [p] == [p];
    assert Wal.ReplayOne(HeadState([], unset), p) == HeadState([p], p.ts);
  }

  // ---------------------------------------------------------------------------
  // The index after a restart
  // ---------------------------------------------------------------------------

  /** The entry a restart makes of a readable file. */
  ghost predicate IsEntryOf(e: Meta, files: map<Uint32, File>) {
    && e.id in files && files[e.id].Whole?
    && e.startTs == Signed64(files[e.id].chunk.header.startTs)
    && e.endTs == Signed64(files[e.id].chunk.header.endTs)
  }

  lemma {:induction false} LoadedEntries(files: map<Uint32, File>, listing: seq<Uint32>)
    requires Distinct(listing)
    ensures forall e :: e in LoadIndex(files, listing) <==> e.id in listing && IsEntryOf(e, files)
    ensures Distinct(IdsOf(LoadIndex(files, listing)))
  {
    hide Signed64;
    if listing != [] {
      var id, rest := listing[0], LoadIndex(files, listing[1..]);
      LoadedEntries(files, listing[1..]);
      assert listing == [id] + listing[1..];
      if id in files && files[id].Whole? {
        var h := files[id].chunk.header;
        var e := Meta(Signed64(h.startTs), Signed64(h.endTs), id);
        assert LoadIndex(files, listing) == [e] + rest;
        assert IdsOf([e] + rest) == [id] + IdsOf(rest);
        forall j | 0 <= j < |rest|
          ensures rest[j].id != id
        {
          assert rest[j] in rest && rest[j].id in listing[1..];
        }
      }
    }
  }

  /** The entries come in the order of the listing. */
  lemma {:induction false} LoadedInOrder(files: map<Uint32, File>, listing: seq<Uint32>)
    requires forall id :: id in listing ==> id in files && files[id].Whole?
    ensures IdsOf(LoadIndex(files, listing)) == listing
  {
    hide Signed64;
    if listing != [] {
      var id, rest := listing[0], LoadIndex(files, listing[1..]);
      LoadedInOrder(files, listing[1..]);
      assert id in listing;
      var h := files[id].chunk.header;
      var e := Meta(Signed64(h.startTs), Signed64(h.endTs), id);
      assert LoadIndex(files, listing) == [e] + rest;
      assert IdsOf([e] + rest) == [id] + IdsOf(rest);
    }
  }

  /** The file of a flushed head gives back the entry its flush made. */
  lemma EntryOfHeadChunk(points: seq<Point>)
    requires points != []
    ensures HeadChunk(points).Whole?
    ensures var h := HeadChunk(points).chunk.header;
            Meta(Signed64(h.startTs), Signed64(h.endTs), ChunkId(points)) == MetaOf(points)
  {
    hide Payload, Signed64, Unsigned64;
    SignedOfUnsigned(points[0].ts);
    SignedOfUnsigned(points[|points| - 1].ts);
  }

  /** Whatever the order of the listing, a restart makes exactly the index entries there
      were, and one for a chunk just written, each once. */
  lemma RestartRebuildsIndex(s: State, listing: seq<Uint32>)
    requires Invariant(s) && FilesInvariant(s) && Lists(listing, s.m.files)
    ensures Distinct(IdsOf(LoadIndex(s.m.files, listing)))
    ensures forall e :: e in LoadIndex(s.m.files, listing) <==>
              e in s.m.index
              || (Holder(s).FlushWritten? && s.m.head.points != [] && e == MetaOf(s.m.head.points))
  {
    LoadedEntries(s.m.files, listing);
    hide LoadIndex, HeadInvariant, Conserved, LockInvariant, LogInvariant, WindowInvariant, GoodChunk, Signed64,
      HeadChunk;
    forall e | IsEntryOf(e, s.m.files)
      ensures e in s.m.index || (Holder(s).FlushWritten? && s.m.head.points != [] && e == MetaOf(s.m.head.points))
    {
      EntryIsIndexed(s, e);
    }
    forall i | 0 <= i < |s.m.index|
      ensures IsEntryOf(s.m.index[i], s.m.files)
    {
      FlushedNotEmpty(s, i);
      EntryOfHeadChunk(s.flushed[i]);
    }
    if Holder(s).FlushWritten? {
      HeadNotEmpty(s);
      EntryOfHeadChunk(s.m.head.points);
    }
  }

  lemma FlushedNotEmpty(s: State, i: nat)
    requires IndexInvariant(s) && i < |s.flushed|
    ensures s.flushed[i] != [] && s.m.index[i] == MetaOf(s.flushed[i]) && s.m.index[i].id == ChunkId(s.flushed[i])
  {
  }

  lemma HeadNotEmpty(s: State)
    requires Invariant(s) && Holder(s).FlushWritten?
    ensures s.m.head.points != [] && MetaOf(s.m.head.points).id == ChunkId(s.m.head.points)
  {
  }

  lemma EntryIsIndexed(s: State, e: Meta)
    requires Invariant(s) && FilesInvariant(s) && IsEntryOf(e, s.m.files)
    ensures e in s.m.index || (Holder(s).FlushWritten? && s.m.head.points != [] && e == MetaOf(s.m.head.points))
  {
    hide HeadInvariant, Conserved, LockInvariant, WindowInvariant, GoodChunk, Signed64, HeadChunk;
    if Indexed(s, e.id) {
      var i :| 0 <= i < |s.m.index| && s.m.index[i].id == e.id;
      FlushedNotEmpty(s, i);
      EntryOfHeadChunk(s.flushed[i]);
      assert s.m.index[i] == e;
    } else {
      HeadNotEmpty(s);
      EntryOfHeadChunk(s.m.head.points);
    }
  }
}
