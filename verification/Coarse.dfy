/** Coarse chunks: they survive the codec, and a query answered from them stays
    within the answer the raw chunks would have given (src/downsample.c,
    src/registry.c). */
module Coarse {
  import opened Words
  import opened Aggregate
  import opened Downsample
  import C = Chunks
  import T = Timestamps

  // ---------------------------------------------------------------------------
  // The codec
  // ---------------------------------------------------------------------------

  /** The largest gap between minutes that fits a signed 14-bit field. */
  const MAX_GAP := 8160

  ghost predicate GapsAtMost(s: seq<Reading>, gap: int) {
    forall i :: 0 < i < |s| ==> s[i].ts - s[i - 1].ts <= gap
  }

  /** No point lies between two neighbouring rows, or before the first. */
  lemma {:induction false} NothingBetweenRows(s: seq<Reading>, start: int, end: int)
    ensures var rows := NaiveRows(Avg, s, start, end, BUCKET_SECONDS);
            && (rows != [] ==> forall p :: p in s ==> !(start <= p.ts < rows[0].start))
            && forall i, p :: 0 < i < |rows| && p in s ==> !(rows[i - 1].end <= p.ts < rows[i].start)
    decreases end - start
  {
    hide Between, Average;
    if start < end {
      var next := start + BUCKET_SECONDS;
      NothingBetweenRows(s, next, end);
      BetweenMembers(s, start, next);
      var later := NaiveRows(Avg, s, next, end, BUCKET_SECONDS);
      var rows := NaiveRows(Avg, s, start, end, BUCKET_SECONDS);
      if Between(s, start, next) == [] {
        assert rows == later;
      } else {
        var first := rows[0];
        assert rows == [first] + later && first.start == start && first.end == next;
      }
    }
  }

  /** Somewhere in a sorted list the timestamps step over `t`. */
  lemma FindCrossing(s: seq<Reading>, a: nat, b: nat, t: int) returns (k: nat)
    requires a < b < |s| && s[a].ts < t <= s[b].ts
    ensures a <= k && k + 1 <= b && s[k].ts < t <= s[k + 1].ts
  {
    k := a;
    while s[k + 1].ts < t
      invariant a <= k < b && s[k].ts < t
      decreases b - k
    {
      k := k + 1;
    }
  }

  /** Neighbouring minutes are at most as far apart as the raw points allow. */
  lemma MinuteGap(s: seq<Reading>, i: nat)
    requires s != [] && Sorted(s) && GapsAtMost(s, MAX_GAP) && 0 < i < |MinuteAverages(s)|
    ensures var rows := MinuteAverages(s);
            BUCKET_SECONDS <= rows[i].start - rows[i - 1].start <= MAX_GAP
  {
    hide Between, Average, NaiveRows, MinuteOf, OnMinute;
    var rows := MinuteAverages(s);
    MinutesAreExact(s);
    NothingBetweenRows(s, MinuteOf(s[0].ts), LastTime(s) + 1);
    var r, r' := rows[i - 1], rows[i];
    assert MinuteRow(r, s) && MinuteRow(r', s) && r.end <= r'.start;
    assert forall p :: p in s ==> !(r.end <= p.ts < r'.start);
    hide MinuteAverages, InOrder;
    var a := PointIn(s, r.start, r.end);
    var b := PointIn(s, r'.start, r'.end);
    var k := FindCrossing(s, a, b, r.end);
    assert s[k + 1] in s;
    MultiplesApart(r.start, r'.start);
  }

  lemma PointIn(s: seq<Reading>, lo: int, hi: int) returns (k: nat)
    requires Between(s, lo, hi) != []
    ensures k < |s| && lo <= s[k].ts < hi
  {
    BetweenMembers(s, lo, hi);
    var p := Between(s, lo, hi)[0];
    assert p in Between(s, lo, hi);
    k :| 0 <= k < |s| && s[k] == p;
  }

  lemma MultiplesApart(a: int, b: int)
    requires OnMinute(a) && OnMinute(b) && a < b < a + MAX_GAP + BUCKET_SECONDS
    ensures BUCKET_SECONDS <= b - a <= MAX_GAP
  {
  }

  /** The words of two timestamps differ, as signed numbers, by their distance. */
  lemma WordGap(a: int, b: int)
    requires 0 <= a - b < TWO_63
    ensures Signed64(Unsigned64(a) as int - Unsigned64(b) as int) == a - b
  {
    hide Signed64, Unsigned64;
    T.TrackBackward(b, a - b);
    T.SignedLong(a - b);
  }

  /** The samples carry the minutes of the rows, whatever their values. */
  ghost predicate Labelled(samples: seq<C.Sample>, rows: seq<Row>) {
    |samples| == |rows| && forall i :: 0 <= i < |rows| ==> samples[i].ts == Unsigned64(rows[i].start)
  }

  /** The gap before row `i`. */
  function RowGap(rows: seq<Row>, i: nat): int
    requires 1 <= i < |rows|
  {
    rows[i].start - rows[i - 1].start
  }

  /** The first two minutes are at most 8160 seconds apart, and later gaps change by no
      more than a signed 32-bit number can say. */
  ghost predicate GapsFit(rows: seq<Row>) {
    && (|rows| >= 2 ==> RowGap(rows, 1) <= MAX_GAP)
    && forall i :: 2 <= i < |rows| ==> -0x8000_0000 <= RowGap(rows, i) - RowGap(rows, i - 1) < 0x8000_0000
  }

  /** A coarse chunk gives its minutes back exactly, with quantised averages, if and only
      if its gaps fit. */
  lemma CoarseChunkSurvivesIff(s: seq<Reading>, samples: seq<C.Sample>)
    requires s != [] && Sorted(s) && Labelled(samples, MinuteAverages(s))
    requires forall i :: 1 <= i < |MinuteAverages(s)| ==> RowGap(MinuteAverages(s), i) < TWO_63
    ensures C.Stored(samples) == C.Quantised(samples) <==> GapsFit(MinuteAverages(s))
  {
    hide MinuteAverages, MinuteOf, Signed64, Unsigned64, C.Stored, C.Quantised, OnMinute;
    var ts, rows := C.TimestampsOf(samples), MinuteAverages(s);
    MinutesIncrease(s);
    forall i | 1 <= i < |rows|
      ensures T.Gap(ts, i) == RowGap(rows, i) && 0 < RowGap(rows, i) < TWO_63
    {
      assert 0 < RowGap(rows, i) < TWO_63;
      WordGap(rows[i].start, rows[i - 1].start);
    }
    forall i | 2 <= i < |rows|
      ensures T.Change(ts, i) == RowGap(rows, i) - RowGap(rows, i - 1)
    {
      assert T.Gap(ts, i) == RowGap(rows, i) && T.Gap(ts, i - 1) == RowGap(rows, i - 1);
      T.SignedLong(RowGap(rows, i) - RowGap(rows, i - 1));
    }
    if |rows| >= 2 {
      assert T.Gap(ts, 1) == RowGap(rows, 1);
      MultipleAtMost(rows[1].start, rows[0].start);
    }
    C.ChunkLosslessIff(samples);
  }

  lemma MinutesIncrease(s: seq<Reading>)
    requires s != [] && Sorted(s)
    ensures var rows := MinuteAverages(s);
            && (forall i :: 0 <= i < |rows| ==> OnMinute(rows[i].start))
            && forall i :: 1 <= i < |rows| ==> 0 < RowGap(rows, i)
  {
    hide MinuteAverages, Between, OnMinute, Average;
    var rows := MinuteAverages(s);
    MinutesAreExact(s);
    assert forall i :: 0 <= i < |rows| ==> MinuteRow(rows[i], s);
  }

  lemma MultipleAtMost(b: int, a: int)
    requires OnMinute(a) && OnMinute(b)
    ensures b - a < 8192 <==> b - a <= MAX_GAP
  {
  }

  /** In particular if no two neighbouring raw points are more than 8160 seconds apart. */
  lemma CoarseChunkSurvives(s: seq<Reading>, samples: seq<C.Sample>)
    requires s != [] && Sorted(s) && GapsAtMost(s, MAX_GAP)
    requires Labelled(samples, MinuteAverages(s))
    ensures C.InRange(samples) && C.Stored(samples) == C.Quantised(samples)
  {
    hide MinuteAverages, MinuteOf, C.Stored, C.Quantised, Labelled;
    var rows := MinuteAverages(s);
    forall i | 1 <= i < |rows|
      ensures 0 < RowGap(rows, i) <= MAX_GAP
    {
      MinuteGap(s, i);
    }
    CoarseChunkSurvivesIff(s, samples);
    C.ChunkLosslessIff(samples);
  }

  /** Two points 8220 seconds apart: their coarse chunk does not survive the codec. */
  lemma DistantMinutesAreCut(p: Reading, q: Reading, samples: seq<C.Sample>)
    requires p.ts == 0 && q.ts == 8220 && Labelled(samples, MinuteAverages([p, q]))
    ensures C.Stored(samples) != C.Quantised(samples)
  {
    hide NaiveRows, MinuteAverages, Between, C.Stored, C.Quantised;
    var s := [p, q];
    var rows := MinuteAverages(s);
    MinutesAreExact(s);
    assert p in s && q in s && MinuteOf(0) == 0 && MinuteOf(8220) == 8220;
    forall i | 0 <= i < |rows|
      ensures rows[i].start in {0, 8220}
    {
      assert MinuteRow(rows[i], s);
      BetweenMembers(s, rows[i].start, rows[i].end);
      assert Between(s, rows[i].start, rows[i].end)[0] in s;
    }
    assert |rows| >= 2 && rows[0].end <= rows[1].start;
    assert RowGap(rows, 1) == 8220;
    CoarseChunkSurvivesIff(s, samples);
  }

  // ---------------------------------------------------------------------------
  // Coarse answers against raw answers
  // ---------------------------------------------------------------------------

  /** How an average is kept: it keeps the order and changes no value of the chunk. */
  ghost predicate Keeps(store: real -> real, raw: seq<Reading>) {
    && (forall x, y :: x <= y ==> store(x) <= store(y))
    && forall p :: p in raw ==> store(p.val) == p.val
  }

  /** A raw chunk whose minutes the source finds. */
  ghost predicate RawChunk(s: seq<Reading>) {
    Sorted(s) && (s != [] ==> s[0].ts >= 0 || OnMinute(s[0].ts))
  }

  ghost function ToReadings(rows: seq<Row>, store: real -> real): (r: seq<Reading>)
    ensures |r| == |rows|
  {
    seq(|rows|, i requires 0 <= i < |rows| => Reading(rows[i].start, store(rows[i].value)))
  }

  /** The points of the coarse file of one raw chunk; an empty chunk has none. */
  ghost function CoarseChunk(s: seq<Reading>, store: real -> real): seq<Reading> {
    if s == [] then [] else ToReadings(CoarseRows(s), store)
  }

  /** `c` lies between two raw points of its own minute. */
  ghost predicate Bounded(c: Reading, raw: seq<Reading>) {
    exists p, q :: p in raw && q in raw && MinuteOf(p.ts) == MinuteOf(c.ts) == MinuteOf(q.ts) && p.val <= c.val <= q.val
  }

  /** A coarse point lies in the minute of `p`. */
  ghost predicate Shown(p: Reading, coarse: seq<Reading>) {
    exists c :: c in coarse && MinuteOf(c.ts) == MinuteOf(p.ts)
  }

  /** Coarse points for raw points: in the same minutes, and within the raw values of
      their minute. */
  ghost predicate Represents(coarse: seq<Reading>, raw: seq<Reading>) {
    && (forall c :: c in coarse ==> Bounded(c, raw))
    && (forall p :: p in raw ==> Shown(p, coarse))
  }

  lemma MinuteOfMinute(m: int)
    requires OnMinute(m)
    ensures forall ts :: MinuteOf(ts) == m <==> m <= ts < m + BUCKET_SECONDS
  {
  }

  /** The coarse file of a chunk represents the chunk. */
  lemma ChunkRepresents(s: seq<Reading>, store: real -> real)
    requires RawChunk(s) && Keeps(store, s)
    ensures Represents(CoarseChunk(s, store), s)
  {
    hide Between, Average, CoarseRows, MinuteAverages, MinuteOf, OnMinute, Keeps, Bounded;
    if s == [] {
      return;
    }
    assert s[0].ts >= 0 || s[0].ts % BUCKET_SECONDS == 0 by { OnMinuteRemainder(s[0].ts); }
    CoarseIsMinuteAveragesIff(s);
    MinutesAreExact(s);
    var rows := CoarseRows(s);
    var points := CoarseChunk(s, store);
    forall c | c in points
      ensures Bounded(c, s)
    {
      var i :| 0 <= i < |points| && points[i] == c;
      assert MinuteRow(rows[i], s);
      AverageIsBounded(s, rows[i], store);
    }
    forall p | p in s
      ensures Shown(p, points)
    {
      var i :| 0 <= i < |rows| && rows[i].start == MinuteOf(p.ts);
      assert MinuteRow(rows[i], s);
      MinuteOfMinute(rows[i].start);
      assert points[i] in points;
    }
  }

  lemma AverageIsBounded(s: seq<Reading>, row: Row, store: real -> real)
    requires MinuteRow(row, s) && Keeps(store, s)
    ensures Bounded(Reading(row.start, store(row.value)), s)
  {
    hide Between, Average, Least, Greatest, MinuteOf, OnMinute;
    var minute := Between(s, row.start, row.end);
    BetweenMembers(s, row.start, row.end);
    MinuteOfMinute(row.start);
    AverageBetween(minute);
    LeastSpec(minute);
    GreatestSpec(minute);
    var p :| p in minute && p.val == Least(minute);
    var q :| q in minute && q.val == Greatest(minute);
    assert store(p.val) == p.val && store(q.val) == q.val;
  }

  /** Points that are not downsampled represent themselves. */
  lemma SelfRepresents(s: seq<Reading>)
    ensures Represents(s, s)
  {
    hide MinuteOf;
    forall c | c in s
      ensures Bounded(c, s) && Shown(c, s)
    {
    }
  }

  lemma RepresentsConcat(c1: seq<Reading>, r1: seq<Reading>, c2: seq<Reading>, r2: seq<Reading>)
    requires Represents(c1, r1) && Represents(c2, r2)
    ensures Represents(c1 + c2, r1 + r2)
  {
    hide Bounded, Shown;
    forall c | c in c1 + c2
      ensures Bounded(c, r1 + r2)
    {
      if c in c1 {
        BoundedInMore(c, r1, r1 + r2);
      } else {
        BoundedInMore(c, r2, r1 + r2);
      }
    }
    forall p | p in r1 + r2
      ensures Shown(p, c1 + c2)
    {
      if p in r1 {
        ShownInMore(p, c1, c1 + c2);
      } else {
        ShownInMore(p, c2, c1 + c2);
      }
    }
  }

  lemma BoundedInMore(c: Reading, raw: seq<Reading>, more: seq<Reading>)
    requires Bounded(c, raw) && forall p :: p in raw ==> p in more
    ensures Bounded(c, more)
  {
    hide MinuteOf;
  }

  lemma ShownInMore(p: Reading, coarse: seq<Reading>, more: seq<Reading>)
    requires Shown(p, coarse) && forall c :: c in coarse ==> c in more
    ensures Shown(p, more)
  {
    hide MinuteOf;
  }

  /** Only what the raw points are matters, not their order or number. */
  lemma RepresentsMembers(coarse: seq<Reading>, raw: seq<Reading>, raw': seq<Reading>)
    requires Represents(coarse, raw) && forall p :: p in raw <==> p in raw'
    ensures Represents(coarse, raw')
  {
    hide Bounded, Shown;
    forall c | c in coarse
      ensures Bounded(c, raw')
    {
      BoundedInMore(c, raw, raw');
    }
  }

  lemma MinuteInRange(ts: int, lo: int, hi: int)
    requires OnMinute(lo) && OnMinute(hi)
    ensures lo <= ts < hi <==> lo <= MinuteOf(ts) < hi
  {
  }

  /** Both sides can be cut to a range that starts and ends on minutes. */
  lemma RepresentsBetween(coarse: seq<Reading>, raw: seq<Reading>, lo: int, hi: int)
    requires Represents(coarse, raw) && OnMinute(lo) && OnMinute(hi)
    ensures Represents(Between(coarse, lo, hi), Between(raw, lo, hi))
  {
    hide Between, Bounded, Shown, OnMinute;
    BetweenMembers(coarse, lo, hi);
    BetweenMembers(raw, lo, hi);
    forall c | c in Between(coarse, lo, hi)
      ensures Bounded(c, Between(raw, lo, hi))
    {
      BoundedInRange(c, raw, lo, hi);
    }
    forall p | p in Between(raw, lo, hi)
      ensures Shown(p, Between(coarse, lo, hi))
    {
      ShownInRange(p, coarse, lo, hi);
    }
  }

  lemma BoundedInRange(c: Reading, raw: seq<Reading>, lo: int, hi: int)
    requires Bounded(c, raw) && OnMinute(lo) && OnMinute(hi) && lo <= c.ts < hi
    ensures Bounded(c, Between(raw, lo, hi))
  {
    hide Between, MinuteOf, OnMinute;
    var p, q :| p in raw && q in raw && MinuteOf(p.ts) == MinuteOf(c.ts) == MinuteOf(q.ts) && p.val <= c.val <= q.val;
    MinuteInRange(c.ts, lo, hi);
    MinuteInRange(p.ts, lo, hi);
    MinuteInRange(q.ts, lo, hi);
    BetweenMembers(raw, lo, hi);
    assert p in Between(raw, lo, hi) && q in Between(raw, lo, hi);
  }

  lemma ShownInRange(p: Reading, coarse: seq<Reading>, lo: int, hi: int)
    requires Shown(p, coarse) && OnMinute(lo) && OnMinute(hi) && lo <= p.ts < hi
    ensures Shown(p, Between(coarse, lo, hi))
  {
    hide Between, MinuteOf, OnMinute;
    var c :| c in coarse && MinuteOf(c.ts) == MinuteOf(p.ts);
    MinuteInRange(p.ts, lo, hi);
    MinuteInRange(c.ts, lo, hi);
    BetweenMembers(coarse, lo, hi);
    assert c in Between(coarse, lo, hi);
  }

  /** One bucket: there is a coarse point exactly when there is a raw one, and the
      average of the coarse points lies between the least and the greatest raw value. */
  lemma AverageWithinRaw(coarse: seq<Reading>, raw: seq<Reading>)
    requires Represents(coarse, raw)
    ensures coarse == [] <==> raw == []
    ensures coarse != [] ==> Least(raw) <= Average(coarse) <= Greatest(raw)
  {
    hide Least, Greatest, Average, MinuteOf;
    if raw != [] {
      assert raw[0] in raw && Shown(raw[0], coarse);
      LeastSpec(raw);
      GreatestSpec(raw);
    }
    if coarse != [] {
      assert coarse[0] in coarse && Bounded(coarse[0], raw);
      forall c | c in coarse
        ensures Least(raw) <= c.val <= Greatest(raw)
      {
        assert Bounded(c, raw);
      }
      AverageWithin(coarse, Least(raw), Greatest(raw));
    }
  }

  lemma AverageWithin(s: seq<Reading>, lo: real, hi: real)
    requires s != [] && forall p :: p in s ==> lo <= p.val <= hi
    ensures lo <= Average(s) <= hi
  {
    TotalBounds(s, lo, hi);
    DivideBounds(Total(s), |s|, lo, hi);
  }

  /** The buckets of two answers are the same, and each value of the first lies
      between those of the other two. */
  ghost predicate WithinRows(avg: seq<Row>, least: seq<Row>, greatest: seq<Row>) {
    && |avg| == |least| == |greatest|
    && forall i :: 0 <= i < |avg| ==>
         && avg[i].start == least[i].start == greatest[i].start
         && avg[i].end == least[i].end == greatest[i].end
         && least[i].value <= avg[i].value <= greatest[i].value
  }

  /** For start, end and bucket width on minutes: `avg` over the coarse points has
      exactly the buckets of the raw answer, and each average lies between the raw
      `min` and the raw `max` of its bucket. */
  lemma {:induction false} RowsWithinRaw(coarse: seq<Reading>, raw: seq<Reading>, start: int, end: int, width: int)
    requires Represents(coarse, raw)
    requires width > 0 && OnMinute(start) && OnMinute(width)
    ensures WithinRows(NaiveRows(Avg, coarse, start, end, width),
                       NaiveRows(Min, raw, start, end, width),
                       NaiveRows(Max, raw, start, end, width))
    decreases end - start
  {
    hide Between, Least, Greatest, Average, OnMinute, Represents;
    if start < end {
      var next := start + width;
      NextOnMinute(start, width);
      RowsWithinRaw(coarse, raw, next, end, width);
      RepresentsBetween(coarse, raw, start, next);
      AverageWithinRaw(Between(coarse, start, next), Between(raw, start, next));
    }
  }

  lemma NextOnMinute(start: int, width: int)
    requires OnMinute(start) && OnMinute(width)
    ensures OnMinute(start + width)
  {
  }
}
