/** One metric of the registry as an object: its head block, its log, its chunk
    index and the chunk files it owns (src/registry.c, src/server.c). The methods
    run without interruption; the `Protocol` module interleaves them. */
module Engine {
  import opened Words
  import opened Heads
  import opened Chunks
  import opened Store
  import opened Wal

  class MetricStore {
    const head: HeadBlock
    const log: LogFile
    var index: seq<Meta>
    var files: map<Uint32, File>
    ghost var records: seq<Point>

    ghost function Repr(): set<object>
      reads this, head
    {
      {this, log} + head.Repr()
    }

    ghost predicate Valid()
      reads this, head, log
    {
      head.Valid() && log.bytes == LogBytes(records)
    }

    ghost function State(): Metric
      reads this, head, log, Repr()
      requires Valid()
    {
      Metric(head.State(), index, files, records)
    }

    /** A metric seen for the first time. */
    constructor (unset: Long)
      ensures Valid() && fresh(Repr())
      ensures State() == Metric(HeadState([], unset), [], map[], [])
    {
      head := new HeadBlock(unset);
      log := new LogFile();
      index := [];
      files := map[];
      records := [];
    }

    /** Compress the head into the file named by its first timestamp, index it, reset
        the head and remove the log. A write that fails leaves a torn file behind and
        everything else as it was. */
    method Flush(writeOk: bool) returns (ok: bool)
      requires Valid()
      modifies Repr()
      ensures Valid() && head.timestamps == old(head.timestamps) && head.values == old(head.values)
      ensures State() == FlushRegion(old(State()), writeOk)
      ensures ok == (old(State()).head.points == [] || writeOk)
    {
      if head.size == 0 {
        return true;
      }
      hide FlushedChunk, LogBytes;
      var chunkId := ToUint32(head.timestamps[0]);
      files := files[chunkId := Torn];
      if !writeOk {
        return false;
      }
      var file := CompressHead(chunkId);
      files := files[chunkId := Whole(file)];
      index := index + [Meta(head.timestamps[0], head.lastTimestamp, chunkId)];
      head.Reset();
      log.Truncate(true);
      records := [];
      assert LogBytes([]) == [] by { LogBytesNone(); }
      return true;
    }

    /** The head's two arrays, the timestamps cast to unsigned, as a chunk. */
    method CompressHead(chunkId: Uint32) returns (file: ChunkFile)
      requires Valid() && head.size > 0
      ensures file == FlushedChunk(chunkId, ToSamples(head.State().points))
    {
      hide FlushedChunk, LogBytes, Unsigned64;
      var n := head.size;
      var timestamps := head.timestamps;
      var words := new Word[n](i reads timestamps requires 0 <= i < timestamps.Length => Unsigned64(timestamps[i]));
      var result := FlushToChunk(chunkId, words, head.values, n);
      assert SamplesOf(words[..n], head.values[..n]) == ToSamples(head.State().points);
      file := result.value;
    }

    /** One lock region of a put: the head first, then the log. */
    method PutOnce(timestamp: Long, value: Word) returns (ok: bool)
      requires Valid()
      modifies Repr()
      ensures Valid() && head.timestamps == old(head.timestamps) && head.values == old(head.values)
      ensures (State(), ok) == PutRegion(old(State()), Point(timestamp, value))
    {
      ok := head.PutValue(timestamp, value);
      if ok {
        LogBytesAppend(records, Point(timestamp, value));
        ghost var record := RecordBytes(Point(timestamp, value));
        log.Append(timestamp, value, RECORD_BYTES);
        assert record[..RECORD_BYTES] == record;
        records := records + [Point(timestamp, value)];
      }
    }

    /** `Head_PUT`: a point refused by a full head is tried again after a flush. */
    method PutPoint(timestamp: Long, value: Word, writeOk: bool) returns (ok: bool)
      requires Valid()
      modifies Repr()
      ensures Valid()
      ensures (State(), ok) == PutThrough(old(State()), Point(timestamp, value), writeOk)
    {
      ok := PutOnce(timestamp, value);
      if !ok && head.size >= HEAD_CAPACITY {
        var _ := Flush(writeOk);
        ok := PutOnce(timestamp, value);
      }
    }

    /** Restart from what lies on disk: load the readable chunks in listing order,
        then replay the whole records of the log into a fresh head. A record torn at
        the end of the log is not replayed and stays in the file. */
    constructor Restarted(files: map<Uint32, File>, bytes: seq<Byte>, listing: seq<Uint32>, unset: Long)
      requires Lists(listing, files)
      ensures fresh(Repr()) && head.Valid() && this.files == files && log.bytes == bytes
      ensures var m := Restart(Metric(HeadState([], 0), [], files, Parse(bytes)), listing, unset);
              && head.State() == m.head && index == m.index
              && (bytes == LogBytes(Parse(bytes)) ==> Valid() && State() == m)
    {
      hide LogBytes, Parse, Replay, LoadIndex;
      head := new HeadBlock(unset);
      log := new LogFile();
      index := [];
      this.files := files;
      records := Parse(bytes);
      new;
      log.bytes := bytes;
      index := LoadChunks(files, listing);
      var _ := log.ReplayInto(head);
    }

    /** An index entry for every chunk file that can be read. */
    static method LoadChunks(files: map<Uint32, File>, listing: seq<Uint32>) returns (index: seq<Meta>)
      requires forall id :: id in listing ==> id in files
      ensures index == LoadIndex(files, listing)
    {
      hide Signed64;
      index := [];
      assert listing[0..] == listing;
      for i := 0 to |listing|
        invariant index + LoadIndex(files, listing[i..]) == LoadIndex(files, listing)
      {
        var id := listing[i];
        assert listing[i..][1..] == listing[i + 1..];
        if files[id].Whole? {
          var h := files[id].chunk.header;
          index := index + [Meta(Signed64(h.startTs), Signed64(h.endTs), id)];
        }
      }
    }
  }
}
