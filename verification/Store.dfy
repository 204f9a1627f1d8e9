/** The state of one metric on disk and in memory, and what each lock region of
    `Head_PUT` and `headflush` does to it (src/registry.c, src/server.c). */
module Store {
  import opened Words
  import opened Heads
  import opened Chunks
  import V = Values
  import Wal

  /** A chunk file: whole, or cut off by an unfinished write and so unreadable. */
  datatype File = Torn | Whole(chunk: ChunkFile)

  /** An entry of the chunk index. The file name is determined by the chunk id. */
  datatype Meta = Meta(startTs: Long, endTs: Long, id: Uint32)

  /** The head block, the chunk index, the chunk files by id, and the log. */
  datatype Metric = Metric(head: HeadState, index: seq<Meta>, files: map<Uint32, File>, wal: seq<Point>)

  // ---------------------------------------------------------------------------
  // Points and the samples the codec works on
  // ---------------------------------------------------------------------------

  /** The cast of the head's arrays to unsigned words. */
  function ToSamples(points: seq<Point>): (r: seq<Sample>)
    ensures |r| == |points|
  {
    seq(|points|, i requires 0 <= i < |points| => Sample(Unsigned64(points[i].ts), points[i].value))
  }

  function FromSample(s: Sample): Point {
    Point(Signed64(s.ts), s.value)
  }

  function FromSamples(samples: seq<Sample>): (r: seq<Point>)
    ensures |r| == |samples|
  {
    seq(|samples|, i requires 0 <= i < |samples| => FromSample(samples[i]))
  }

  function QuantPoint(p: Point): Point {
    Point(p.ts, V.Mask(p.value))
  }

  /** Points with the low four bits of every value cleared. */
  function Quant(points: seq<Point>): (r: seq<Point>)
    ensures |r| == |points|
  {
    seq(|points|, i requires 0 <= i < |points| => QuantPoint(points[i]))
  }

  /** The codec's range condition on a head about to be flushed. */
  ghost predicate Fits(points: seq<Point>) {
    InRange(ToSamples(points))
  }

  /** The points a reader gets out of a chunk file. */
  ghost function ReadBack(file: File): seq<Point> {
    if file.Whole? && Intact(file.chunk) then FromSamples(Contents(file.chunk)) else []
  }

  /** Every whole file of a metric can be decoded. */
  ghost predicate FilesIntact(files: map<Uint32, File>) {
    forall id :: id in files && files[id].Whole? ==> Intact(files[id].chunk)
  }

  lemma SignedOfUnsigned(x: Long)
    ensures Signed64(Unsigned64(x)) == x
  {
  }

  /** A flushed head that fits the codec reads back as its quantised points. */
  lemma FlushedReadsBack(id: Uint32, points: seq<Point>)
    requires 0 < |points| <= HEAD_CAPACITY && Fits(points)
    ensures ReadBack(Whole(FlushedChunk(id, ToSamples(points)))) == Quant(points)
  {
    hide Unsigned64, Signed64, V.Mask, Intact, Contents, FlushedChunk, Stored;
    var samples := ToSamples(points);
    FlushedChunkReadsBack(id, samples);
    ChunkLosslessIff(samples);
    forall i | 0 <= i < |points|
      ensures FromSample(Quantised(samples)[i]) == QuantPoint(points[i])
    {
      SignedOfUnsigned(points[i].ts);
    }
  }

  // ---------------------------------------------------------------------------
  // Flushing
  // ---------------------------------------------------------------------------

  /** The id a flush gives the head's chunk: its first timestamp cut to 32 bits. */
  function ChunkId(points: seq<Point>): Uint32
    requires points != []
  {
    ToUint32(points[0].ts)
  }

  function HeadChunk(points: seq<Point>): File
    requires points != []
  {
    Whole(FlushedChunk(ChunkId(points), ToSamples(points)))
  }

  function HeadMeta(h: HeadState): Meta
    requires h.points != []
  {
    Meta(h.points[0].ts, h.last, ChunkId(h.points))
  }

  /** The sub-steps of a flush, in the order the source performs them. */
  function OpenChunk(m: Metric): Metric
    requires m.head.points != []
  {
    m.(files := m.files[ChunkId(m.head.points) := Torn])
  }

  function FinishChunk(m: Metric): Metric
    requires m.head.points != []
  {
    m.(files := m.files[ChunkId(m.head.points) := HeadChunk(m.head.points)])
  }

  function IndexChunk(m: Metric): Metric
    requires m.head.points != []
  {
    m.(index := m.index + [HeadMeta(m.head)], head := HeadState([], 0))
  }

  function DropLog(m: Metric): Metric {
    m.(wal := [])
  }

  /** The whole lock region of `headflush`; `writeOk` says whether the chunk file
      could be written. */
  function FlushRegion(m: Metric, writeOk: bool): Metric {
    if m.head.points == [] then m
    else if !writeOk then OpenChunk(m)
    else DropLog(IndexChunk(FinishChunk(OpenChunk(m))))
  }

  /** One lock region of `Head_PUT`. */
  function PutRegion(m: Metric, p: Point): (Metric, bool) {
    var (head, ok) := Put(m.head, p);
    (if ok then m.(head := head, wal := m.wal + [p]) else m, ok)
  }

  /** `Head_PUT` by a thread that is never interrupted: a refused point is tried
      once more after a flush when the head is full. */
  function PutThrough(m: Metric, p: Point, writeOk: bool): (Metric, bool) {
    var (m1, ok) := PutRegion(m, p);
    if !ok && |m.head.points| >= HEAD_CAPACITY then PutRegion(FlushRegion(m, writeOk), p) else (m1, ok)
  }

  /** Exactly when an uninterrupted put is accepted: there is room and the point is
      not older than the newest, or the head is full and could be flushed. In the
      second case even a point older than everything flushed is accepted. Either way
      an accepted point ends both the head and the log, and a refused one changes
      neither the head nor the log. */
  lemma PutThroughAcceptsIff(m: Metric, p: Point, writeOk: bool)
    requires HeadInvariant(m.head)
    ensures var (m', ok) := PutThrough(m, p, writeOk);
            var full := |m.head.points| == 50000;
            && (ok <==> if full then writeOk else forall q :: q in m.head.points ==> q.ts <= p.ts)
            && HeadInvariant(m'.head)
            && m'.head.points == (if !ok then m.head.points else if full then [p] else m.head.points + [p])
            && m'.wal == (if !ok then m.wal else if full then [p] else m.wal + [p])
            && m'.index == (if full && ok then m.index + [HeadMeta(m.head)] else m.index)
            && m'.files == (if !full then m.files
                            else m.files[ChunkId(m.head.points) := if ok then HeadChunk(m.head.points) else Torn])
  {
    hide HeadMeta, HeadChunk, ChunkId;
    PutKeepsInvariant(m.head, p);
    var m1 := FlushRegion(m, writeOk);
    if |m.head.points| == HEAD_CAPACITY {
      assert m1.head == if writeOk then HeadState([], 0) else m.head;
      PutKeepsInvariant(m1.head, p);
    }
  }

  /** When a put flushes a full head, the head's points can be read from the file the new
      index entry names; every other file is untouched. */
  lemma FullHeadIsKept(m: Metric, p: Point)
    requires HeadInvariant(m.head) && |m.head.points| == 50000 && Fits(m.head.points)
    ensures var m' := PutThrough(m, p, true).0;
            && |m'.index| == |m.index| + 1
            && var id := m'.index[|m.index|].id;
               && id in m'.files && ReadBack(m'.files[id]) == Quant(m.head.points)
               && forall other :: other != id ==>
                    (other in m'.files <==> other in m.files)
                    && (other in m.files ==> m'.files[other] == m.files[other])
  {
    hide FlushedChunk, ReadBack, Quant, ChunkId, PutThrough, HeadInvariant;
    PutThroughAcceptsIff(m, p, true);
    FlushedReadsBack(ChunkId(m.head.points), m.head.points);
  }

  // ---------------------------------------------------------------------------
  // Recovery
  // ---------------------------------------------------------------------------

  /** A directory listing names every chunk file once, in any order. */
  ghost predicate Lists(listing: seq<Uint32>, files: map<Uint32, File>) {
    && (forall id :: id in listing <==> id in files)
    && forall i, j :: 0 <= i < j < |listing| ==> listing[i] != listing[j]
  }

  /** The index entries `loadChunkMetadata` makes of a listing. */
  function LoadIndex(files: map<Uint32, File>, listing: seq<Uint32>): seq<Meta> {
    if listing == [] then []
    else
      var rest := LoadIndex(files, listing[1..]);
      var id := listing[0];
      if id in files && files[id].Whole? then
        var h := files[id].chunk.header;
        [Meta(Signed64(h.startTs), Signed64(h.endTs), id)] + rest
      else rest
  }

  /** Restart: load the readable chunks, then replay the log into a fresh head
      whose last timestamp was left unset. */
  function Restart(m: Metric, listing: seq<Uint32>, unset: Long): Metric {
    Metric(Wal.Replay(HeadState([], unset), m.wal), LoadIndex(m.files, listing), m.files, m.wal)
  }

  /** The points behind an index, in index order. */
  ghost function IndexedPoints(files: map<Uint32, File>, index: seq<Meta>): seq<Point> {
    if index == [] then []
    else (if index[0].id in files then ReadBack(files[index[0].id]) else []) + IndexedPoints(files, index[1..])
  }

  /** Everything a query can see. */
  ghost function AllPoints(m: Metric): seq<Point> {
    IndexedPoints(m.files, m.index) + m.head.points
  }
}
