/** The write-ahead log of a metric (src/wal.c): 16-byte records and their replay. */
module Wal {
  import opened Words
  import opened Heads

  const RECORD_BYTES := 16

  // ---------------------------------------------------------------------------
  // Records as bytes
  // ---------------------------------------------------------------------------

  /** The `n` low bytes of a word, least significant first. */
  function WordBytes(w: nat, n: nat): (b: seq<Byte>)
    ensures |b| == n
  {
    if n == 0 then [] else [w % 256] + WordBytes(w / 256, n - 1)
  }

  function WordOf(b: seq<Byte>): nat {
    if b == [] then 0 else b[0] + 256 * WordOf(b[1..])
  }

  lemma {:induction false} WordOfBound(b: seq<Byte>)
    ensures WordOf(b) < Pow2(8 * |b|)
  {
    hide Pow2;
    if b == [] {
      assert Pow2(0) == 1 by { Pow2Small(); }
    } else {
      WordOfBound(b[1..]);
      ByteStep(|b[1..]|);
    }
  }

  lemma {:induction false} WordOfWordBytes(w: nat, n: nat)
    requires w < Pow2(8 * n)
    ensures WordOf(WordBytes(w, n)) == w
  {
    hide Pow2;
    if n == 0 {
      assert Pow2(0) == 1 by { Pow2Small(); }
    } else {
      ByteStep(n - 1);
      WordOfWordBytes(w / 256, n - 1);
    }
  }

  lemma ByteStep(n: nat)
    ensures Pow2(8 * (n + 1)) == 256 * Pow2(8 * n)
  {
    Pow2Add(8, 8 * n);
    Pow2Small();
  }

  /** The word read by one 8-byte `fread`. */
  function ReadWord(b: seq<Byte>): Word
    requires |b| == 8
  {
    WordOfBound(b);
    Pow2Widths();
    WordOf(b)
  }

  function RecordBytes(p: Point): (b: seq<Byte>)
    ensures |b| == RECORD_BYTES
  {
    WordBytes(Unsigned64(p.ts), 8) + WordBytes(p.value, 8)
  }

  function RecordOf(b: seq<Byte>): Point
    requires |b| == RECORD_BYTES
  {
    Point(Signed64(ReadWord(b[..8])), ReadWord(b[8..]))
  }

  lemma RecordRoundTrip(p: Point)
    ensures RecordOf(RecordBytes(p)) == p
  {
    hide WordBytes, WordOf;
    WordRoundTrip(Unsigned64(p.ts));
    WordRoundTrip(p.value);
    assert RecordBytes(p)[..8] == WordBytes(Unsigned64(p.ts), 8);
    assert RecordBytes(p)[8..] == WordBytes(p.value, 8);
  }

  lemma WordRoundTrip(w: Word)
    ensures ReadWord(WordBytes(w, 8)) == w
  {
    assert Pow2(8 * 8) == TWO_64 by { Pow2Widths(); }
    WordOfWordBytes(w, 8);
  }

  /** A log that `records` were appended to, from the first to the last. */
  function LogBytes(records: seq<Point>): (b: seq<Byte>)
    ensures |b| == RECORD_BYTES * |records|
  {
    if records == [] then [] else RecordBytes(records[0]) + LogBytes(records[1..])
  }

  /** The whole records at the front of a log. */
  function Parse(bytes: seq<Byte>): seq<Point> {
    if |bytes| < RECORD_BYTES then []
    else [RecordOf(bytes[..RECORD_BYTES])] + Parse(bytes[RECORD_BYTES..])
  }

  /** However many bytes of a log survive, exactly its whole records are read. */
  lemma {:induction false} ParsePrefix(records: seq<Point>, k: nat)
    requires k <= RECORD_BYTES * |records|
    ensures Parse(LogBytes(records)[..k]) == records[..k / RECORD_BYTES]
  {
    hide LogBytes, RecordBytes, RecordOf;
    var b := LogBytes(records)[..k];
    if k >= RECORD_BYTES {
      var r := RecordBytes(records[0]);
      RecordRoundTrip(records[0]);
      LogBytesFirst(records);
      assert b[..RECORD_BYTES] == r;
      assert b[RECORD_BYTES..] == LogBytes(records[1..])[..k - RECORD_BYTES];
      ParsePrefix(records[1..], k - RECORD_BYTES);
      assert records[..k / RECORD_BYTES] == [records[0]] + records[1..][..k / RECORD_BYTES - 1];
    }
  }

  /** Every record appended behind a log cut to its first `k` bytes is read back as
      it was appended exactly when the cut fell between two records: a torn record is
      never trimmed, so what follows it is read out of step. */
  lemma AppendsSurviveIff(records: seq<Point>, k: nat)
    requires k <= RECORD_BYTES * |records|
    ensures (forall more :: Parse(LogBytes(records)[..k] + LogBytes(more)) == records[..k / RECORD_BYTES] + more)
            <==> k % RECORD_BYTES == 0
  {
    hide Parse, LogBytes;
    if k % RECORD_BYTES == 0 {
      forall more
        ensures Parse(LogBytes(records)[..k] + LogBytes(more)) == records[..k / RECORD_BYTES] + more
      {
        ReadBehindWhole(records, k, more);
      }
    } else {
      var more := UnreadBehindTorn(records, k);
    }
  }

  lemma ReadBehindWhole(records: seq<Point>, k: nat, more: seq<Point>)
    requires k <= RECORD_BYTES * |records| && k % RECORD_BYTES == 0
    ensures Parse(LogBytes(records)[..k] + LogBytes(more)) == records[..k / RECORD_BYTES] + more
  {
    hide Parse, LogBytes, RecordBytes;
    var front := records[..k / RECORD_BYTES];
    CutLog(records, k);
    LogBytesConcat(front, more);
    ParseTail(front + more, []);
    assert LogBytes(front + more) + [] == LogBytes(front + more);
    assert LogBytes(front) + [] == LogBytes(front);
  }

  lemma UnreadBehindTorn(records: seq<Point>, k: nat) returns (more: seq<Point>)
    requires k <= RECORD_BYTES * |records| && k % RECORD_BYTES != 0
    ensures Parse(LogBytes(records)[..k] + LogBytes(more)) != records[..k / RECORD_BYTES] + more
  {
    hide Parse, LogBytes, RecordBytes, RecordOf, OtherByte;
    var j, r := k / RECORD_BYTES, k % RECORD_BYTES;
    var p := OtherByte(records[j]);
    ReadBehindTorn(records, k, p);
    Misread(records[j], r);
    var misread := RecordOf(RecordBytes(records[j])[..r] + RecordBytes(p)[..RECORD_BYTES - r]);
    more := [p];
    assert (records[..j] + [misread])[j] != (records[..j] + more)[j];
  }

  /** The bytes of a log up to `k`: whole records, and the front of the next. */
  lemma {:induction false} CutLog(records: seq<Point>, k: nat)
    requires k <= RECORD_BYTES * |records|
    ensures var j := k / RECORD_BYTES;
            && (k % RECORD_BYTES != 0 ==> j < |records|)
            && LogBytes(records)[..k]
               == LogBytes(records[..j])
                  + (if k % RECORD_BYTES == 0 then [] else RecordBytes(records[j])[..k % RECORD_BYTES])
  {
    hide LogBytes, RecordBytes;
    var j := k / RECORD_BYTES;
    if records != [] {
      LogBytesFirst(records);
    }
    if j == 0 {
      assert records[..0] == [] && LogBytes([]) == [] by { LogBytesNone(); }
    } else {
      CutLog(records[1..], k - RECORD_BYTES);
      LogBytesFirst(records[..j]);
      assert records[..j][1..] == records[1..][..j - 1];
    }
  }

  lemma LogBytesFirst(records: seq<Point>)
    requires records != []
    ensures LogBytes(records) == RecordBytes(records[0]) + LogBytes(records[1..])
  {
  }

  lemma LogBytesNone()
    ensures LogBytes([]) == []
  {
  }

  lemma {:induction false} LogBytesConcat(a: seq<Point>, b: seq<Point>)
    ensures LogBytes(a + b) == LogBytes(a) + LogBytes(b)
  {
    hide RecordBytes;
    if a == [] {
      assert a + b == b;
    } else {
      assert (a + b)[1..] == a[1..] + b;
      LogBytesConcat(a[1..], b);
    }
  }

  /** A point whose record starts with another byte than that of `q`. */
  function OtherByte(q: Point): Point {
    Point(if q.ts % 256 == 0 then 1 else 0, 0)
  }

  /** The first byte of a record is the low byte of its timestamp. */
  lemma FirstByte(b: seq<Byte>)
    requires |b| == RECORD_BYTES
    ensures RecordOf(b).ts % 256 == b[0]
  {
    hide WordOf, Signed64;
    assert b[..8][0] == b[0];
    LowByte(b[..8]);
    SignedLowByte(ReadWord(b[..8]));
  }

  lemma LowByte(b: seq<Byte>)
    requires b != []
    ensures WordOf(b) % 256 == b[0]
  {
  }

  lemma SignedLowByte(w: Word)
    ensures Signed64(w) % 256 == w % 256
  {
  }

  /** Behind a torn record an appended one is read out of step: the front of the torn
      record is completed with the front of the new one, and the rest is not read. */
  lemma ReadBehindTorn(records: seq<Point>, k: nat, p: Point)
    requires k < RECORD_BYTES * |records| && k % RECORD_BYTES != 0
    ensures var j, r := k / RECORD_BYTES, k % RECORD_BYTES;
            Parse(LogBytes(records)[..k] + LogBytes([p]))
            == records[..j] + [RecordOf(RecordBytes(records[j])[..r] + RecordBytes(p)[..RECORD_BYTES - r])]
  {
    hide Parse, LogBytes, RecordBytes, RecordOf;
    var j, r := k / RECORD_BYTES, k % RECORD_BYTES;
    CutLog(records, k);
    var before, torn, next := LogBytes(records[..j]), RecordBytes(records[j])[..r], RecordBytes(p);
    var head, tail := next[..RECORD_BYTES - r], next[RECORD_BYTES - r..];
    LogBytesOne(p);
    assert next == head + tail;
    Regroup(before, torn, head, tail);
    ParseMixed(records[..j], torn + head, tail);
  }

  lemma Misread(q: Point, r: nat)
    requires 0 < r < RECORD_BYTES
    ensures RecordOf(RecordBytes(q)[..r] + RecordBytes(OtherByte(q))[..RECORD_BYTES - r]) != OtherByte(q)
  {
    hide RecordBytes, RecordOf;
    RecordRoundTrip(q);
    FirstByte(RecordBytes(q));
    FirstByte(RecordBytes(q)[..r] + RecordBytes(OtherByte(q))[..RECORD_BYTES - r]);
  }

  lemma LogBytesOne(p: Point)
    ensures LogBytes([p]) == RecordBytes(p)
  {
    LogBytesAppend([], p);
    assert [] + [p] == [p];
  }

  /** Whole records, then sixteen bytes of any origin, then less than a record. */
  lemma {:induction false} ParseMixed(records: seq<Point>, b: seq<Byte>, tail: seq<Byte>)
    requires |b| == RECORD_BYTES && |tail| < RECORD_BYTES
    ensures Parse(LogBytes(records) + b + tail) == records + [RecordOf(b)]
  {
    hide RecordOf;
    var all := LogBytes(records) + b + tail;
    if records == [] {
      assert all[..RECORD_BYTES] == b && all[RECORD_BYTES..] == tail;
    } else {
      RecordRoundTrip(records[0]);
      assert all[..RECORD_BYTES] == RecordBytes(records[0]);
      assert all[RECORD_BYTES..] == LogBytes(records[1..]) + b + tail;
      ParseMixed(records[1..], b, tail);
    }
  }

  /** An example: a record torn after its timestamp is not cut off before the next
      append, so the next record is misread: its timestamp is taken for the torn record's
      value, and its value is never reached. */
  lemma TornRecordMisaligns(records: seq<Point>, j: nat, p: Point)
    requires j < |records|
    ensures Parse(LogBytes(records)[..RECORD_BYTES * j + 8] + RecordBytes(p))
            == records[..j] + [Point(records[j].ts, Unsigned64(p.ts))]
  {
    hide Parse, LogBytes, RecordBytes, RecordOf, Unsigned64;
    var k, q := RECORD_BYTES * j + 8, Point(records[j].ts, Unsigned64(p.ts));
    ReadBehindTorn(records, k, p);
    LogBytesOne(p);
    HalfRecords(records[j], p);
    RecordRoundTrip(q);
  }

  lemma HalfRecords(p: Point, q: Point)
    ensures RecordBytes(p)[..8] + RecordBytes(q)[..8] == RecordBytes(Point(p.ts, Unsigned64(q.ts)))
  {
    hide WordBytes, Unsigned64;
  }

  lemma Regroup(a: seq<Byte>, b: seq<Byte>, c: seq<Byte>, d: seq<Byte>)
    ensures (a + b) + (c + d) == a + (b + c) + d
  {
  }

  lemma {:induction false} ParseTail(records: seq<Point>, tail: seq<Byte>)
    requires |tail| < RECORD_BYTES
    ensures Parse(LogBytes(records) + tail) == records
  {
    var b := LogBytes(records) + tail;
    if records != [] {
      RecordRoundTrip(records[0]);
      assert b[..RECORD_BYTES] == RecordBytes(records[0]);
      assert b[RECORD_BYTES..] == LogBytes(records[1..]) + tail;
      ParseTail(records[1..], tail);
    }
  }

  lemma {:induction false} LogBytesAppend(records: seq<Point>, p: Point)
    ensures LogBytes(records + [p]) == LogBytes(records) + RecordBytes(p)
  {
    if records == [] {
      assert records + [p] == [p] && [p][1..] == [];
      assert LogBytes([p]) == RecordBytes(p) + LogBytes([]);
    } else {
      assert (records + [p])[1..] == records[1..] + [p];
      LogBytesAppend(records[1..], p);
    }
  }

  // ---------------------------------------------------------------------------
  // Replay
  // ---------------------------------------------------------------------------

  /** One turn of the replay loop. */
  function ReplayOne(h: HeadState, p: Point): HeadState {
    if p.ts <= h.last then h else Put(h, p).0
  }

  function Replay(h: HeadState, records: seq<Point>): HeadState
    decreases |records|
  {
    if records == [] then h else Replay(ReplayOne(h, records[0]), records[1..])
  }

  /** The records whose timestamp exceeds `last` and every earlier timestamp. */
  function Maxima(records: seq<Point>, last: Long): seq<Point> {
    if records == [] then []
    else if records[0].ts <= last then Maxima(records[1..], last)
    else [records[0]] + Maxima(records[1..], records[0].ts)
  }

  function Take(s: seq<Point>, n: nat): seq<Point> {
    if n <= |s| then s[..n] else s
  }

  /** Replay appends exactly the strict running maxima above the head's last
      timestamp, up to the capacity that is left. */
  lemma {:induction false} ReplayIsMaxima(h: HeadState, records: seq<Point>)
    requires |h.points| <= HEAD_CAPACITY
    ensures Replay(h, records).points
            == h.points + Take(Maxima(records, h.last), HEAD_CAPACITY - |h.points|)
    decreases |records|
  {
    if records != [] {
      var h' := ReplayOne(h, records[0]);
      ReplayIsMaxima(h', records[1..]);
      var room := HEAD_CAPACITY - |h.points|;
      if records[0].ts > h.last {
        if room > 0 {
          var more := Maxima(records[1..], records[0].ts);
          assert Take([records[0]] + more, room) == [records[0]] + Take(more, room - 1);
        } else {
          assert h' == h;
        }
      }
    }
  }

  /** After a replay nothing in the log can be added any more. */
  ghost predicate Covered(h: HeadState, records: seq<Point>) {
    |h.points| >= HEAD_CAPACITY || forall p :: p in records ==> p.ts <= h.last
  }

  lemma {:induction false} ReplayCovers(h: HeadState, records: seq<Point>)
    requires |h.points| <= HEAD_CAPACITY
    ensures var h' := Replay(h, records);
            && |h'.points| <= HEAD_CAPACITY
            && (|h.points| >= HEAD_CAPACITY ==> h' == h)
            && h.last <= h'.last && Covered(h', records)
    decreases |records|
  {
    if records != [] {
      ReplayCovers(ReplayOne(h, records[0]), records[1..]);
    }
  }

  lemma {:induction false} CoveredReplaysNothing(h: HeadState, records: seq<Point>)
    requires Covered(h, records)
    ensures Replay(h, records) == h
  {
    if records != [] {
      assert ReplayOne(h, records[0]) == h;
      CoveredReplaysNothing(h, records[1..]);
    }
  }

  /** Replaying the same log into the same head again adds nothing. */
  lemma ReplayIsIdempotent(h: HeadState, records: seq<Point>)
    requires |h.points| <= HEAD_CAPACITY
    ensures Replay(Replay(h, records), records) == Replay(h, records)
  {
    ReplayCovers(h, records);
    CoveredReplaysNothing(Replay(h, records), records);
  }

  /** Timestamps that increase strictly from above `last`. */
  ghost predicate StrictlyAbove(records: seq<Point>, last: Long) {
    && (records != [] ==> last < records[0].ts)
    && forall i :: 0 < i < |records| ==> records[i - 1].ts < records[i].ts
  }

  lemma {:induction false} MaximaLength(records: seq<Point>, last: Long)
    ensures |Maxima(records, last)| <= |records|
    ensures |Maxima(records, last)| == |records| <==> StrictlyAbove(records, last)
    ensures StrictlyAbove(records, last) ==> Maxima(records, last) == records
  {
    if records != [] {
      var rest := records[1..];
      if records[0].ts <= last {
        MaximaLength(rest, last);
      } else {
        MaximaLength(rest, records[0].ts);
        assert StrictlyAbove(records, last) <==> StrictlyAbove(rest, records[0].ts) by {
          if StrictlyAbove(rest, records[0].ts) {
            forall i | 0 < i < |records|
              ensures records[i - 1].ts < records[i].ts
            {
              assert i > 1 ==> rest[i - 2].ts < rest[i - 1].ts;
            }
          }
        }
      }
    }
  }

  /** A log is recovered completely into an empty head exactly when it fits the head and
      its timestamps increase strictly from above the head's last timestamp. */
  lemma ReplayRecoversAllIff(last: Long, records: seq<Point>)
    ensures Replay(HeadState([], last), records).points == records
            <==> StrictlyAbove(records, last) && |records| <= HEAD_CAPACITY
    ensures |Replay(HeadState([], last), records).points| <= |records|
    ensures |Replay(HeadState([], last), records).points| == |records|
            <==> StrictlyAbove(records, last) && |records| <= HEAD_CAPACITY
  {
    ReplayIsMaxima(HeadState([], last), records);
    MaximaLength(records, last);
  }

  /** Two points a client put at the same time are both accepted, but only the
      first survives a crash. */
  lemma EqualTimestampsAreLost()
    ensures exists p: Point, q: Point, last: Long ::
              var h := HeadState([], last);
              && Put(h, p).1 && Put(Put(h, p).0, q).1
              && Replay(h, [p, q]).points == [p]
  {
    var p, q, h := Point(5, 1), Point(5, 2), HeadState([], 0);
    var h1 := ReplayOne(h, p);
    assert h1 == Put(h, p).0 == HeadState([p], 5);
    assert [p, q][1..] == [q] && [q][1..] == [];
    assert Replay(h1, [q]) == Replay(ReplayOne(h1, q), []);
    assert Replay(h, [p, q]) == Replay(h1, [q]) == h1;
    assert h.points + [p] == [p];
  }

  // ---------------------------------------------------------------------------
  // The log file
  // ---------------------------------------------------------------------------

  /** The log as it lies on disk; an absent file is an empty log. */
  class LogFile {
    var bytes: seq<Byte>

    constructor ()
      ensures bytes == []
    {
      bytes := [];
    }

    /** Append a record of which `landed` bytes reach the file: all of them, or fewer
        when the file cannot be opened, a write fails or the process dies. */
    method Append(timestamp: Long, value: Word, landed: nat)
      requires landed <= RECORD_BYTES
      modifies this
      ensures bytes == old(bytes) + RecordBytes(Point(timestamp, value))[..landed]
    {
      bytes := bytes + WordBytes(Unsigned64(timestamp), 8)[..if landed < 8 then landed else 8];
      if landed < 8 {
        return;
      }
      bytes := bytes + WordBytes(value, 8)[..landed - 8];
    }

    /** Remove the file; a removal that fails leaves it as it was. */
    method Truncate(removed: bool)
      modifies this
      ensures bytes == if removed then [] else old(bytes)
    {
      if removed {
        bytes := [];
      }
    }

    /** Replay every whole record into `head`. */
    method ReplayInto(head: HeadBlock) returns (replayed: nat)
      requires head.Valid()
      modifies head.Repr()
      ensures head.Valid() && head.timestamps == old(head.timestamps) && head.values == old(head.values)
      ensures head.State() == Replay(old(head.State()), Parse(bytes))
      ensures |head.State().points| == |old(head.State()).points| + replayed
    {
      var offset := 0;
      replayed := 0;
      ghost var start := head.State();
      while true
        invariant offset <= |bytes|
        invariant head.Valid() && head.timestamps == old(head.timestamps) && head.values == old(head.values)
        invariant Replay(head.State(), Parse(bytes[offset..])) == Replay(start, Parse(bytes))
        invariant |head.State().points| == |start.points| + replayed
        decreases |bytes| - offset
      {
        if |bytes| - offset < 8 {
          break;
        }
        var ts := Signed64(ReadWord(bytes[offset..offset + 8]));
        if |bytes| - (offset + 8) < 8 {
          break;
        }
        var val := ReadWord(bytes[offset + 8..offset + 16]);
        ParseStep(bytes, offset);
        offset := offset + 16;
        if ts <= head.lastTimestamp {
          continue;
        }
        var ok := head.PutValue(ts, val);
        if ok {
          replayed := replayed + 1;
        }
      }
      assert Parse(bytes[offset..]) == [];
    }
  }

  lemma ParseStep(bytes: seq<Byte>, offset: nat)
    requires offset + 16 <= |bytes|
    ensures var p := Point(Signed64(ReadWord(bytes[offset..offset + 8])), ReadWord(bytes[offset + 8..offset + 16]));
            Parse(bytes[offset..]) == [p] + Parse(bytes[offset + 16..])
  {
    var b := bytes[offset..];
    assert b[..16][..8] == bytes[offset..offset + 8];
    assert b[..16][8..] == bytes[offset + 8..offset + 16];
    assert b[16..] == bytes[offset + 16..];
  }
}
