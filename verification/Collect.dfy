/** The loops that gather the points of a query into a growing array
    (src/registry.c). */
module Collect {
  import opened Words
  import opened Heads
  import opened Bits
  import opened Chunks
  import opened Store
  import opened Engine
  import opened Query
  import Recovery

  /** A point array grown by `append_point`: nothing at first, then 1024 places, then
      twice as many whenever it is full. */
  class PointArray {
    var data: array<Point>
    var n: nat
    var cap: nat

    ghost predicate Valid()
      reads this
    {
      data.Length == cap && n <= cap
    }

    ghost function Points(): seq<Point>
      reads this, data
      requires Valid()
    {
      data[..n]
    }

    constructor ()
      ensures Valid() && fresh(data) && Points() == []
    {
      data := new Point[0];
      n := 0;
      cap := 0;
    }

    method Append(p: Point)
      requires Valid()
      modifies this, data
      ensures Valid() && (data == old(data) || fresh(data))
      ensures Points() == old(Points()) + [p]
      ensures cap == (if old(cap) == 0 then 1024 else if old(n) < old(cap) then old(cap) else 2 * old(cap))
    {
      if cap == 0 {
        cap := 1024;
        data := new Point[cap](_ => p);
      } else if n >= cap {
        cap := 2 * cap;
        var larger := new Point[cap](_ => p);
        forall i | 0 <= i < n {
          larger[i] := data[i];
        }
        assert larger[..n] == data[..n];
        data := larger;
      }
      data[n] := p;
      n := n + 1;
      assert data[..n - 1] == old(data[..n]);
      assert data[..n] == data[..n - 1] + [p];
    }
  }

  /** Decode a chunk file and append its points in [start, end). A file that cannot
      be read is reported and appends nothing. */
  method CollectFromFile(file: File, start: Long, end: Long, acc: PointArray) returns (ok: bool)
    requires acc.Valid() && (file.Whole? ==> Intact(file.chunk))
    modifies acc, acc.data
    ensures acc.Valid() && (acc.data == old(acc.data) || fresh(acc.data))
    ensures ok == file.Whole?
    ensures acc.Points() == old(acc.Points()) + Filter(ReadBack(file), start, end)
  {
    if file == Torn {
      return false;
    }
    hide Intact, Filter, ReadBack;
    CollectFromChunk(file.chunk, start, end, acc);
    return true;
  }

  /** The decoding loop over a file that could be read. */
  method CollectFromChunk(file: ChunkFile, start: Long, end: Long, acc: PointArray)
    requires acc.Valid() && Intact(file)
    modifies acc, acc.data
    ensures acc.Valid() && (acc.data == old(acc.data) || fresh(acc.data))
    ensures acc.Points() == old(acc.Points()) + Filter(ReadBack(Whole(file)), start, end)
  {
    hide Intact, Decodable, BytesBits, ReadBack, Remaining, Filter;
    IntactFacts(file, start, end);
    var decoder := OpenDecoder(file);
    var n := file.header.pointCount;
    for i := 0 to n
      invariant acc.Valid() && (acc.data == old(acc.data) || fresh(acc.data))
      invariant decoder.Valid() && fresh(decoder.Repr())
      invariant Decodable(decoder.State(), decoder.br.Rest(), n - i)
      invariant acc.Points() + Remaining(decoder.State(), decoder.br.Rest(), n - i, start, end)
                == old(acc.Points()) + Filter(ReadBack(Whole(file)), start, end)
    {
      CollectOne(decoder, n - i, start, end, acc);
    }
    NoneRemaining(decoder.State(), decoder.br.Rest(), start, end);
  }

  /** The points in range among the next `n` points of a stream. */
  ghost function Remaining(c: Coder, b: Bits, n: nat, start: Long, end: Long): seq<Point>
    requires WellFormed(c)
  {
    Filter(FromSamples(DecodeFrom(c, b, n).0), start, end)
  }

  /** One turn of the collecting loop. */
  method CollectOne(decoder: ChunkDecoder, ghost n: nat, start: Long, end: Long, acc: PointArray)
    requires decoder.Valid() && acc.Valid() && n > 0
    requires Decodable(decoder.State(), decoder.br.Rest(), n)
    modifies decoder.Repr(), acc, acc.data
    ensures decoder.Valid() && acc.Valid() && (acc.data == old(acc.data) || fresh(acc.data))
    ensures Decodable(decoder.State(), decoder.br.Rest(), n - 1)
    ensures acc.Points() + Remaining(decoder.State(), decoder.br.Rest(), n - 1, start, end)
            == old(acc.Points()) + old(Remaining(decoder.State(), decoder.br.Rest(), n, start, end))
  {
    hide Decodable, DecodeOne, ReadableOne, Remaining, BytesBits, Signed64;
    OneRemaining(decoder.State(), decoder.br.Rest(), n, start, end);
    var s := decoder.ReadSample();
    var p := FromSample(s);
    if p.ts >= start && p.ts < end {
      acc.Append(p);
    }
  }

  lemma OneRemaining(c: Coder, b: Bits, n: nat, start: Long, end: Long)
    requires WellFormed(c) && n > 0 && Decodable(c, b, n)
    ensures ReadableOne(c, b)
    ensures var next := DecodeOne(c, b);
            var p := FromSample(Current(next.0));
            && Decodable(next.0, next.1, n - 1)
            && Remaining(c, b, n, start, end)
               == (if Within(p, start, end) then [p] else []) + Remaining(next.0, next.1, n - 1, start, end)
  {
    DecodeStep(c, b, n);
    hide Decodable, DecodeOne, ReadableOne, DecodeFrom, Signed64, Filter;
    var next := DecodeOne(c, b);
    var p := FromSample(Current(next.0));
    var later := DecodeFrom(next.0, next.1, n - 1).0;
    assert FromSamples([Current(next.0)] + later) == [p] + FromSamples(later);
    FilterConcat([p], FromSamples(later), start, end);
    FilterStep([], p, start, end);
    FilterNone([], start, end);
    assert [] + [p] == [p];
  }

  lemma NoneRemaining(c: Coder, b: Bits, start: Long, end: Long)
    requires WellFormed(c)
    ensures Remaining(c, b, 0, start, end) == []
  {
  }

  lemma IntactFacts(file: ChunkFile, start: Long, end: Long)
    requires Intact(file)
    ensures file.header.sizeBytes <= |file.payload|
    ensures var b := BytesBits(file.payload[..file.header.sizeBytes]);
            && Decodable(START, b, file.header.pointCount)
            && Remaining(START, b, file.header.pointCount, start, end) == Filter(ReadBack(Whole(file)), start, end)
  {
  }

  /** Append the head's points in [start, end). */
  method CollectFromHead(head: HeadBlock, start: Long, end: Long, acc: PointArray)
    requires head.Valid() && acc.Valid()
    requires acc.data as object != head.timestamps && acc.data as object != head.values
    modifies acc, acc.data
    ensures acc.Valid() && (acc.data == old(acc.data) || fresh(acc.data))
    ensures acc.Points() == old(acc.Points()) + Filter(head.State().points, start, end)
  {
    hide Filter;
    ghost var all := head.State().points;
    FilterNone([], start, end);
    assert all[..0] == [];
    for i := 0 to head.size
      invariant acc.Valid() && (acc.data == old(acc.data) || fresh(acc.data))
      invariant head.State().points == all
      invariant acc.Points() == old(acc.Points()) + Filter(all[..i], start, end)
    {
      var ts := head.timestamps[i];
      assert all[..i + 1] == all[..i] + [Point(ts, head.values[i])];
      FilterStep(all[..i], Point(ts, head.values[i]), start, end);
      if ts >= start && ts < end {
        acc.Append(Point(ts, head.values[i]));
      }
    }
    assert all[..head.size] == all;
  }

  /** Walk the index and gather the points in range from the chunks that may overlap
      it; `strict` stops at the first chunk that cannot be read, as `Head_AGG` does. */
  method CollectFromIndex(store: MetricStore, start: Long, end: Long, inclusive: bool, strict: bool, acc: PointArray)
    returns (ok: bool)
    requires store.Valid() && acc.Valid() && FilesIntact(store.files)
    requires acc.data as object != store.head.timestamps && acc.data as object != store.head.values
    modifies acc, acc.data
    ensures acc.Valid() && (acc.data == old(acc.data) || fresh(acc.data))
    ensures ok ==> acc.Points() == old(acc.Points()) + FromChunks(store.files, store.index, start, end, inclusive)
    ensures !strict ==> ok
    ensures ok == (!strict || forall i :: 0 <= i < |store.index| ==>
                     MayOverlap(store.index[i], start, end, inclusive) ==>
                       store.index[i].id in store.files && store.files[store.index[i].id].Whole?)
  {
    hide Filter, Intact, FilesIntact, ReadBack, Recovery.ReadOf, FromChunks, MayOverlap;
    ok := true;
    NoChunks(store.files, start, end, inclusive);
    assert store.index[..0] == [];
    for i := 0 to |store.index|
      invariant acc.Valid() && (acc.data == old(acc.data) || fresh(acc.data))
      invariant acc.Points() == old(acc.Points()) + FromChunks(store.files, store.index[..i], start, end, inclusive)
      invariant strict ==> forall k :: 0 <= k < i && MayOverlap(store.index[k], start, end, inclusive) ==>
                  store.index[k].id in store.files && store.files[store.index[k].id].Whole?
    {
      NextEntry(store.files, store.index, i, start, end, inclusive);
      var read := CollectEntry(store, store.index[i], start, end, inclusive, acc);
      if strict && !read {
        return false;
      }
    }
    assert store.index[..|store.index|] == store.index;
  }

  lemma NextEntry(files: map<Uint32, File>, index: seq<Meta>, i: nat, start: Long, end: Long, inclusive: bool)
    requires i < |index|
    ensures FromChunks(files, index[..i + 1], start, end, inclusive)
            == FromChunks(files, index[..i], start, end, inclusive)
               + (if MayOverlap(index[i], start, end, inclusive)
                  then Filter(Recovery.ReadOf(files, index[i].id), start, end) else [])
  {
    hide Filter, Recovery.ReadOf, MayOverlap;
    assert index[..i + 1][..i] == index[..i];
  }

  /** One entry of the index: skipped, or its file is read. */
  method CollectEntry(store: MetricStore, meta: Meta, start: Long, end: Long, inclusive: bool, acc: PointArray)
    returns (read: bool)
    requires store.Valid() && acc.Valid() && FilesIntact(store.files)
    requires acc.data as object != store.head.timestamps && acc.data as object != store.head.values
    modifies acc, acc.data
    ensures acc.Valid() && (acc.data == old(acc.data) || fresh(acc.data))
    ensures read == (MayOverlap(meta, start, end, inclusive) ==> meta.id in store.files && store.files[meta.id].Whole?)
    ensures acc.Points() == old(acc.Points())
              + (if MayOverlap(meta, start, end, inclusive)
                 then Filter(Recovery.ReadOf(store.files, meta.id), start, end) else [])
  {
    hide Filter, Intact, ReadBack, Recovery.ReadOf;
    read := true;
    if MayOverlap(meta, start, end, inclusive) {
      var file := if meta.id in store.files then store.files[meta.id] else Torn;
      UnreadableGivesNothing(store.files, meta.id);
      read := CollectFromFile(file, start, end, acc);
    }
  }

  lemma UnreadableGivesNothing(files: map<Uint32, File>, id: Uint32)
    ensures Recovery.ReadOf(files, id) == ReadBack(if id in files then files[id] else Torn)
  {
  }

  /** `Head_GET` on a metric nobody else touches meanwhile. */
  method GetRange(store: MetricStore, start: Long, end: Long) returns (acc: PointArray)
    requires store.Valid() && FilesIntact(store.files)
    ensures fresh(acc) && acc.Valid()
    ensures acc.Points() == Answer(store.State(), start, end, true)
  {
    hide Filter, FromChunks, FilesIntact;
    acc := new PointArray();
    var _ := CollectFromIndex(store, start, end, true, false, acc);
    CollectFromHead(store.head, start, end, acc);
  }
}
