/** Downsampling a raw chunk to one average per minute (src/downsample.c). */
module Downsample {
  import opened Aggregate

  const BUCKET_SECONDS := 60

  /** Division as the source's language does it: truncated toward zero. */
  function TruncDiv(a: int, b: int): int
    requires b > 0
  {
    if a >= 0 then a / b else -((-a) / b)
  }

  /** The start of the minute a timestamp lies in. */
  function MinuteOf(ts: int): int {
    ts / BUCKET_SECONDS * BUCKET_SECONDS
  }

  /** Where the source starts its first bucket. */
  function FirstBucket(ts: int): int {
    TruncDiv(ts, BUCKET_SECONDS) * BUCKET_SECONDS
  }

  /** The number of places in the output arrays. */
  function MaxBuckets(first: int, last: int): int {
    TruncDiv(last - first + BUCKET_SECONDS, BUCKET_SECONDS) + 1
  }

  function Max(a: int, b: int): int {
    if a < b then b else a
  }

  /** The points with every timestamp raised to at least `base`. */
  function Clamp(s: seq<Reading>, base: int): (r: seq<Reading>)
    ensures |r| == |s|
  {
    seq(|s|, i requires 0 <= i < |s| => Reading(Max(s[i].ts, base), s[i].val))
  }

  ghost function LastTime(s: seq<Reading>): int
    requires s != []
  {
    s[|s| - 1].ts
  }

  /** The specification: one row for every minute that holds a point, with the average
      of exactly the points in that minute. */
  ghost function MinuteAverages(s: seq<Reading>): seq<Row>
    requires s != []
  {
    NaiveRows(Avg, s, MinuteOf(s[0].ts), LastTime(s) + 1, BUCKET_SECONDS)
  }

  /** What the one-pass loop computes: the minute averages of the points raised to
      the start of its first bucket. */
  ghost function CoarseRows(s: seq<Reading>): seq<Row>
    requires s != []
  {
    var base := FirstBucket(s[0].ts);
    NaiveRows(Avg, Clamp(s, base), base, Max(LastTime(s), base) + 1, BUCKET_SECONDS)
  }

  /** The source's first bucket starts at the minute of the first point exactly when
      that point is not negative or lies on a minute. */
  lemma FirstBucketIff(ts: int)
    ensures FirstBucket(ts) == MinuteOf(ts) <==> ts >= 0 || ts % BUCKET_SECONDS == 0
    ensures MinuteOf(ts) <= ts < MinuteOf(ts) + BUCKET_SECONDS
    ensures ts < FirstBucket(ts) + BUCKET_SECONDS
    ensures FirstBucket(ts) != MinuteOf(ts) ==> FirstBucket(ts) == MinuteOf(ts) + BUCKET_SECONDS
  {
  }

  /** The loop meets its specification exactly when the first point is not negative
      or lies on a minute; otherwise truncating division merges two minutes into one
      and labels them with the later. */
  lemma CoarseIsMinuteAveragesIff(s: seq<Reading>)
    requires s != [] && Sorted(s)
    ensures CoarseRows(s) == MinuteAverages(s) <==> s[0].ts >= 0 || s[0].ts % BUCKET_SECONDS == 0
  {
    hide FirstBucket, MinuteOf;
    var first := s[0].ts;
    var base := FirstBucket(first);
    FirstBucketIff(first);
    if base == MinuteOf(first) {
      assert Clamp(s, base) == s;
    } else {
      FirstMinuteHasRow(s);
      RowsAreOrdered(Avg, Clamp(s, base), base, Max(LastTime(s), base) + 1, BUCKET_SECONDS);
      assert CoarseRows(s) != [] ==> CoarseRows(s)[0].start >= base by {
        assert CoarseRows(s) != [] ==>
          GoodRow(CoarseRows(s)[0], Clamp(s, base), base, Max(LastTime(s), base) + 1, BUCKET_SECONDS);
      }
    }
  }

  /** Otherwise the first row, labelled with the minute after that of the first point,
      averages everything before that minute's end, and the other rows are right. */
  lemma MergedRows(s: seq<Reading>)
    requires s != [] && Sorted(s) && s[0].ts < 0 && s[0].ts % BUCKET_SECONDS != 0
    ensures var base := MinuteOf(s[0].ts) + BUCKET_SECONDS;
            var merged := Between(s, s[0].ts, base + BUCKET_SECONDS);
            && merged != []
            && CoarseRows(s) == [Row(base, base + BUCKET_SECONDS, Average(merged))]
                                + NaiveRows(Avg, s, base + BUCKET_SECONDS, LastTime(s) + 1, BUCKET_SECONDS)
  {
    hide Between, NaiveRows, FirstBucket, MinuteOf, Average, Clamp;
    FirstBucketIff(s[0].ts);
    var base := FirstBucket(s[0].ts);
    var next := base + BUCKET_SECONDS;
    var c, end := Clamp(s, base), Max(LastTime(s), base) + 1;
    MergedBucket(s, base);
    RowsStep(c, base, end);
    ClampedRows(s, base, next, end);
    if LastTime(s) < base {
      NoRange(s, next, end);
      NoRange(s, next, LastTime(s) + 1);
    }
  }

  lemma MergedBucket(s: seq<Reading>, base: int)
    requires s != [] && Sorted(s) && s[0].ts < base
    ensures var merged, bucket := Between(s, s[0].ts, base + BUCKET_SECONDS),
                                  Between(Clamp(s, base), base, base + BUCKET_SECONDS);
            merged != [] && bucket != [] && Average(bucket) == Average(merged)
  {
    hide Between, Average, Total;
    var next := base + BUCKET_SECONDS;
    var merged := Between(s, s[0].ts, next);
    ClampedBetween(s, s[0].ts, base, next);
    ClampedTotal(merged, base);
    BetweenMembers(s, s[0].ts, next);
    assert s[0] in s && s[0] in merged;
    SameAverage(Clamp(merged, base), merged);
  }

  lemma SameAverage(a: seq<Reading>, b: seq<Reading>)
    requires |a| == |b| > 0 && Total(a) == Total(b)
    ensures Average(a) == Average(b)
  {
  }

  lemma NoRange(s: seq<Reading>, start: int, end: int)
    requires start >= end
    ensures NaiveRows(Avg, s, start, end, BUCKET_SECONDS) == []
  {
  }

  lemma ClampStep(s: seq<Reading>, base: int)
    requires s != []
    ensures var n := |s| - 1;
            Clamp(s, base) == Clamp(s[..n], base) + [Reading(Max(s[n].ts, base), s[n].val)]
  {
  }

  /** Raising timestamps to the start of a bucket moves what came before into it. */
  lemma {:induction false} ClampedBetween(s: seq<Reading>, lo: int, base: int, next: int)
    requires lo <= base < next && forall i :: 0 <= i < |s| ==> lo <= s[i].ts
    ensures Between(Clamp(s, base), base, next) == Clamp(Between(s, lo, next), base)
  {
    if s != [] {
      var front, p := s[..|s| - 1], s[|s| - 1];
      ClampedBetween(front, lo, base, next);
      ClampStep(s, base);
      BetweenStep(Clamp(front, base), Reading(Max(p.ts, base), p.val), base, next);
      BetweenStep(front, p, lo, next);
      assert s == front + [p];
      hide Between;
      var b := Between(front, lo, next);
      if p.ts < next {
        ClampStep(b + [p], base);
        assert (b + [p])[..|b|] == b;
      }
    }
  }

  lemma {:induction false} ClampedTotal(s: seq<Reading>, base: int)
    ensures Total(Clamp(s, base)) == Total(s)
  {
    if s != [] {
      ClampedTotal(s[..|s| - 1], base);
      ClampStep(s, base);
      TotalStep(Clamp(s[..|s| - 1], base), Reading(Max(s[|s| - 1].ts, base), s[|s| - 1].val));
    }
  }

  lemma {:induction false} ClampedAbove(s: seq<Reading>, base: int, lo: int, hi: int)
    requires base < lo
    ensures Between(Clamp(s, base), lo, hi) == Between(s, lo, hi)
  {
    if s != [] {
      var front, p := s[..|s| - 1], s[|s| - 1];
      ClampedAbove(front, base, lo, hi);
      ClampStep(s, base);
      BetweenStep(Clamp(front, base), Reading(Max(p.ts, base), p.val), lo, hi);
    }
  }

  /** Later buckets are as they were. */
  lemma {:induction false} ClampedRows(s: seq<Reading>, base: int, start: int, end: int)
    requires base < start
    ensures NaiveRows(Avg, Clamp(s, base), start, end, BUCKET_SECONDS) == NaiveRows(Avg, s, start, end, BUCKET_SECONDS)
    decreases end - start
  {
    hide Between, Average;
    if start < end {
      ClampedAbove(s, base, start, start + BUCKET_SECONDS);
      ClampedRows(s, base, start + BUCKET_SECONDS, end);
    }
  }

  lemma RowsStep(c: seq<Reading>, start: int, end: int)
    requires start < end && Between(c, start, start + BUCKET_SECONDS) != []
    ensures NaiveRows(Avg, c, start, end, BUCKET_SECONDS)
            == [Row(start, start + BUCKET_SECONDS, Average(Between(c, start, start + BUCKET_SECONDS)))]
               + NaiveRows(Avg, c, start + BUCKET_SECONDS, end, BUCKET_SECONDS)
  {
    hide Between, Average;
  }

  /** An example, on either side of the epoch: two minutes become one. */
  lemma NegativeMinutesMerge(p: Reading, q: Reading)
    requires p.ts == -30 && q.ts == 10
    ensures CoarseRows([p, q]) == [Row(0, 60, (p.val + q.val) / 2.0)] && |MinuteAverages([p, q])| == 2
  {
    hide CoarseRows, MinuteAverages, Between, NaiveRows, Average;
    var s := [p, q];
    assert MinuteOf(-30) == -60 && s[0] == p && LastTime(s) == 10;
    MergedRows(s);
    NoRange(s, 60, 11);
    EverythingSeen(s, -30, 60);
    AverageOfTwo(p, q);
    TwoMinutes(p, q);
  }

  lemma AverageOfTwo(p: Reading, q: Reading)
    ensures Average([p, q]) == (p.val + q.val) / 2.0
  {
    TotalStep([p], q);
    TotalStep([], p);
    assert [p] + [q] == [p, q] && [] + [p] == [p];
  }

  lemma TwoMinutes(p: Reading, q: Reading)
    requires p.ts == -30 && q.ts == 10
    ensures |MinuteAverages([p, q])| == 2
  {
    hide Between, Average;
    var s := [p, q];
    assert MinuteOf(-30) == -60 && s[0] == p && LastTime(s) == 10;
    BetweenMembers(s, -60, 0);
    BetweenMembers(s, 0, 60);
    assert p in s && q in s && p in Between(s, -60, 0) && q in Between(s, 0, 60);
    RowsStep(s, -60, 11);
    RowsStep(s, 0, 11);
    NoRange(s, 60, 11);
  }

  lemma FirstMinuteHasRow(s: seq<Reading>)
    requires s != [] && Sorted(s)
    ensures MinuteAverages(s) != [] && MinuteAverages(s)[0].start == MinuteOf(s[0].ts)
  {
    hide MinuteOf, ValueOf;
    FirstBucketIff(s[0].ts);
    var m := MinuteOf(s[0].ts);
    BetweenMembers(s, m, m + BUCKET_SECONDS);
    assert s[0] in s;
    assert s[0] in Between(s, m, m + BUCKET_SECONDS);
  }

  // ---------------------------------------------------------------------------
  // What the minute averages are
  // ---------------------------------------------------------------------------

  /** A multiple of 60. */
  predicate OnMinute(ts: int) {
    ts % BUCKET_SECONDS == 0
  }

  lemma MinuteOnMinute(ts: int)
    ensures OnMinute(MinuteOf(ts))
  {
  }

  lemma AlignedOnMinute(x: int, start: int)
    requires Aligned(x, start, BUCKET_SECONDS) && OnMinute(start)
    ensures OnMinute(x)
  {
  }

  /** A minute that starts at `row.start`, with the average of exactly its points. */
  ghost predicate MinuteRow(row: Row, s: seq<Reading>) {
    && OnMinute(row.start) && row.end == row.start + BUCKET_SECONDS
    && Between(s, row.start, row.end) != []
    && row.value == Average(Between(s, row.start, row.end))
  }

  /** Rows of naive averaging carry the average of their bucket. */
  lemma {:induction false} RowsHoldAverages(s: seq<Reading>, start: int, end: int)
    ensures forall i :: 0 <= i < |NaiveRows(Avg, s, start, end, BUCKET_SECONDS)| ==>
              var row := NaiveRows(Avg, s, start, end, BUCKET_SECONDS)[i];
              var b := Between(s, row.start, row.end);
              b != [] && row.value == Average(b)
    decreases end - start
  {
    hide Between, Average;
    if start < end {
      RowsHoldAverages(s, start + BUCKET_SECONDS, end);
    }
  }

  /** The averages are those of increasing minutes, one for each minute that holds a
      point and no other. */
  lemma MinutesAreExact(s: seq<Reading>)
    requires s != [] && Sorted(s)
    ensures var rows := MinuteAverages(s);
            && InOrder(rows)
            && (forall i :: 0 <= i < |rows| ==> MinuteRow(rows[i], s))
            && forall p :: p in s ==> exists i :: 0 <= i < |rows| && rows[i].start == MinuteOf(p.ts)
  {
    hide Between, Average, NaiveRows, MinuteOf, OnMinute, Aligned;
    var rows, start, end := MinuteAverages(s), MinuteOf(s[0].ts), LastTime(s) + 1;
    RowsAreOrdered(Avg, s, start, end, BUCKET_SECONDS);
    RowsHoldAverages(s, start, end);
    MinuteOnMinute(s[0].ts);
    forall i | 0 <= i < |rows|
      ensures MinuteRow(rows[i], s)
    {
      assert GoodRow(rows[i], s, start, end, BUCKET_SECONDS);
      AlignedOnMinute(rows[i].start, start);
    }
    forall p | p in s
      ensures exists i :: 0 <= i < |rows| && rows[i].start == MinuteOf(p.ts)
    {
      FirstBucketIff(s[0].ts);
      MinuteHasRow(s, p, start, end);
    }
  }

  /** The minute of every point from `start` on has a row. */
  lemma {:induction false} MinuteHasRow(s: seq<Reading>, p: Reading, start: int, end: int)
    requires p in s && OnMinute(start) && start <= p.ts < end
    ensures exists i :: 0 <= i < |NaiveRows(Avg, s, start, end, BUCKET_SECONDS)| &&
              NaiveRows(Avg, s, start, end, BUCKET_SECONDS)[i].start == MinuteOf(p.ts)
    decreases end - start
  {
    hide Between, Average;
    var next := start + BUCKET_SECONDS;
    var rows := NaiveRows(Avg, s, start, end, BUCKET_SECONDS);
    BetweenMembers(s, start, next);
    if p.ts < next {
      assert p in Between(s, start, next);
      assert rows[0].start == start;
    } else {
      MinuteHasRow(s, p, next, end);
      var later := NaiveRows(Avg, s, next, end, BUCKET_SECONDS);
      var j :| 0 <= j < |later| && later[j].start == MinuteOf(p.ts);
      assert rows[|rows| - |later| + j] == later[j];
    }
  }

  /** The sum over rows of the average times the number of points it stands for. */
  ghost function Weighted(s: seq<Reading>, rows: seq<Row>): real {
    if rows == [] then 0.0
    else rows[0].value * |Between(s, rows[0].start, rows[0].end)| as real + Weighted(s, rows[1..])
  }

  lemma WeightedStep(s: seq<Reading>, row: Row, rows: seq<Row>)
    requires Between(s, row.start, row.end) != [] && row.value == Average(Between(s, row.start, row.end))
    ensures Weighted(s, [row] + rows) == Total(Between(s, row.start, row.end)) + Weighted(s, rows)
  {
    hide Between, Total;
    assert ([row] + rows)[1..] == rows;
  }

  lemma {:induction false} WeightedFrom(s: seq<Reading>, start: int, end: int)
    requires forall p :: p in s ==> p.ts < end
    ensures Weighted(s, NaiveRows(Avg, s, start, end, BUCKET_SECONDS)) == Total(Between(s, start, end))
    decreases end - start
  {
    hide Average, Total, Between;
    if start < end {
      var next := start + BUCKET_SECONDS;
      var later := NaiveRows(Avg, s, next, end, BUCKET_SECONDS);
      WeightedFrom(s, next, end);
      BetweenSplit(s, start, next, end);
      EmptyTotal();
      if Between(s, start, next) != [] {
        WeightedStep(s, Row(start, next, Average(Between(s, start, next))), later);
      } else {
        assert [] + later == later;
      }
    } else {
      BetweenEmpty(s, start, end);
      EmptyTotal();
    }
  }

  /** Every point is used once: the averages times their counts add up to the total. */
  lemma MinutesConserveTotal(s: seq<Reading>)
    requires s != [] && Sorted(s)
    ensures Weighted(s, MinuteAverages(s)) == Total(s)
  {
    hide Between, Total, NaiveRows, MinuteOf;
    FirstBucketIff(s[0].ts);
    var start, end := MinuteOf(s[0].ts), LastTime(s) + 1;
    forall p | p in s
      ensures start <= p.ts < end
    {
    }
    WeightedFrom(s, start, end);
    EverythingSeen(s, start, end);
  }

  /** Rows a minute apart: their number is bounded by the range they span. */
  lemma {:induction false} OrderedSpan(rows: seq<Row>, i: nat)
    requires InOrder(rows) && i < |rows|
    requires forall k :: 0 <= k < |rows| ==> rows[k].end == rows[k].start + BUCKET_SECONDS
    ensures BUCKET_SECONDS * i <= rows[i].start - rows[0].start
  {
    if i > 0 {
      OrderedSpan(rows, i - 1);
    }
  }

  /** The number of minutes never exceeds the places of the output arrays. */
  lemma RowsFit(s: seq<Reading>)
    requires s != [] && Sorted(s)
    ensures |CoarseRows(s)| <= MaxBuckets(s[0].ts, LastTime(s))
  {
    hide NaiveRows, FirstBucket, MaxBuckets, Between, Aligned;
    var base := FirstBucket(s[0].ts);
    var end := Max(LastTime(s), base) + 1;
    var rows := CoarseRows(s);
    FirstBucketIff(s[0].ts);
    PlacesSuffice(s[0].ts, LastTime(s));
    RowsAreOrdered(Avg, Clamp(s, base), base, end, BUCKET_SECONDS);
    assert forall k :: 0 <= k < |rows| ==> GoodRow(rows[k], Clamp(s, base), base, end, BUCKET_SECONDS);
    if rows != [] {
      OrderedSpan(rows, |rows| - 1);
    }
  }

  /** The minute that starts at `m` holds a point. */
  ghost predicate Holds(s: seq<Reading>, m: int) {
    Between(s, m, m + BUCKET_SECONDS) != []
  }

  /** Every minute that starts in the range holds a point. */
  ghost predicate NoEmptyMinute(s: seq<Reading>, start: int, end: int) {
    forall m :: OnMinute(m) && start <= m < end ==> Holds(s, m)
  }

  /** The number of minutes that start in a range. */
  function Minutes(start: int, end: int): nat
    decreases end - start
  {
    if start >= end then 0 else 1 + Minutes(start + BUCKET_SECONDS, end)
  }

  lemma {:induction false} MinutesOfRange(start: int, end: int)
    requires start < end
    ensures Minutes(start, end) == (end - 1 - start) / BUCKET_SECONDS + 1
    decreases end - start
  {
    if start + BUCKET_SECONDS < end {
      MinutesOfRange(start + BUCKET_SECONDS, end);
    }
  }

  /** There are as many rows as minutes exactly when no minute is empty. */
  lemma {:induction false} RowForEveryMinute(s: seq<Reading>, start: int, end: int)
    requires OnMinute(start)
    ensures var n := |NaiveRows(Avg, s, start, end, BUCKET_SECONDS)|;
            n <= Minutes(start, end) && (n == Minutes(start, end) <==> NoEmptyMinute(s, start, end))
    decreases end - start
  {
    hide Between, ValueOf;
    if start < end {
      var next := start + BUCKET_SECONDS;
      RowForEveryMinute(s, next, end);
      assert NoEmptyMinute(s, start, end) <==> Holds(s, start) && NoEmptyMinute(s, next, end) by {
        MinutesFrom(s, start, end);
      }
    }
  }

  lemma MinutesFrom(s: seq<Reading>, start: int, end: int)
    requires OnMinute(start) && start < end
    ensures NoEmptyMinute(s, start, end) <==> Holds(s, start) && NoEmptyMinute(s, start + BUCKET_SECONDS, end)
  {
    hide Holds;
    forall m | OnMinute(m) && start <= m < start + BUCKET_SECONDS
      ensures m == start
    {
    }
  }

  /** When the array bound is reached: the first bucket is the minute of the first
      point, the last point lies earlier in its minute than the first one in its own,
      and no minute from the first to the last is empty. */
  lemma BoundIsReachedIff(s: seq<Reading>)
    requires s != [] && Sorted(s)
    ensures var first, last := s[0].ts, LastTime(s);
            |CoarseRows(s)| == MaxBuckets(first, last)
            <==> (first >= 0 || OnMinute(first)) && first % BUCKET_SECONDS > last % BUCKET_SECONDS
                 && NoEmptyMinute(s, MinuteOf(first), last + 1)
  {
    hide MaxBuckets, FirstBucket, MinuteOf, Minutes, NaiveRows, NoEmptyMinute, OnMinute;
    var first, last := s[0].ts, LastTime(s);
    var base := FirstBucket(first);
    CoarseIsMinuteAveragesIff(s);
    FirstBucketIff(first);
    MinuteOnMinute(first);
    if base == MinuteOf(first) {
      RowForEveryMinute(s, base, last + 1);
      MinutesOfRange(base, last + 1);
      PlacesAgainstMinutes(first, last);
    } else {
      OnNextMinute(MinuteOf(first));
      RowForEveryMinute(Clamp(s, base), base, Max(last, base) + 1);
      MinutesOfRange(base, Max(last, base) + 1);
      PlacesBeyondMinutes(first, last, base);
    }
    OnMinuteRemainder(first);
  }

  lemma OnNextMinute(m: int)
    requires OnMinute(m)
    ensures OnMinute(m + BUCKET_SECONDS)
  {
  }

  lemma OnMinuteRemainder(ts: int)
    ensures OnMinute(ts) <==> ts % BUCKET_SECONDS == 0
  {
  }

  lemma PlacesBeyondMinutes(first: int, last: int, base: int)
    requires first <= last && base == MinuteOf(first) + BUCKET_SECONDS
    ensures (Max(last, base) - base) / BUCKET_SECONDS + 1 < MaxBuckets(first, last)
  {
    FirstBucketIff(first);
    if last >= base {
      assert (last - base) / BUCKET_SECONDS == (last - MinuteOf(first)) / BUCKET_SECONDS - 1;
      PlacesAgainstMinutes(first, last);
    } else {
      PlacesSuffice(first, last);
    }
  }

  lemma PlacesAgainstMinutes(first: int, last: int)
    requires first <= last
    ensures MaxBuckets(first, last)
            == (last - MinuteOf(first)) / BUCKET_SECONDS
               + (if first % BUCKET_SECONDS > last % BUCKET_SECONDS then 1 else 2)
  {
  }

  /** An example: two points on either side of a minute. */
  lemma BoundIsReached(p: Reading, q: Reading)
    requires p.ts == 59 && q.ts == 60
    ensures |CoarseRows([p, q])| == MaxBuckets(59, 60)
  {
    var s := [p, q];
    BetweenMembers(s, 0, 60);
    BetweenMembers(s, 60, 120);
    assert p in s && q in s;
    assert p in Between(s, 0, 60) && q in Between(s, 60, 120);
    hide CoarseRows, Between;
    forall m | OnMinute(m) && 0 <= m < 61
      ensures Holds(s, m)
    {
      assert m == 0 || m == 60;
    }
    assert MinuteOf(59) == 0 && LastTime(s) == 60;
    BoundIsReachedIff(s);
  }

  // ---------------------------------------------------------------------------
  // The loop
  // ---------------------------------------------------------------------------

  /** The output of a downsampling pass, in the arrays the source allocates. */
  class CoarseOutput {
    const ts: array<int>
    const val: array<real>
    var n: nat

    ghost predicate Valid()
      reads this
    {
      ts.Length == val.Length && n <= ts.Length
    }

    ghost function Points(): seq<Row>
      reads this, ts, val
      requires Valid()
    {
      seq(n, i requires 0 <= i < n reads this, ts, val requires Valid() =>
        Row(ts[i], ts[i] + BUCKET_SECONDS, val[i]))
    }

    constructor (places: nat)
      ensures Valid() && fresh(ts) && fresh(val) && ts.Length == places && n == 0
      ensures Points() == []
    {
      ts := new int[places](_ => 0);
      val := new real[places](_ => 0.0);
      n := 0;
    }

    /** Store one average; there must be a place for it. */
    method Emit(bucketStart: int, average: real)
      requires Valid() && n < ts.Length
      modifies this, ts, val
      ensures Valid() && n == old(n) + 1
      ensures Points() == old(Points()) + [Row(bucketStart, bucketStart + BUCKET_SECONDS, average)]
    {
      ts[n] := bucketStart;
      val[n] := average;
      n := n + 1;
    }
  }

  /** The state of the loop between two points: everything before the current bucket
      is emitted, and `sum` and `count` are those of the points of the current bucket
      among the first `i`. */
  ghost predicate LoopState(out: CoarseOutput, c: seq<Reading>, base: int, end: int,
                            i: nat, bucketStart: int, sum: real, count: nat)
    reads out, out.ts, out.val
  {
    && out.Valid() && i <= |c|
    && base <= bucketStart && BUCKET_SECONDS * out.n <= bucketStart - base
    && out.Points() + NaiveRows(Avg, c, bucketStart, end, BUCKET_SECONDS)
       == NaiveRows(Avg, c, base, end, BUCKET_SECONDS)
    && (forall k :: 0 <= k < i ==> c[k].ts < bucketStart + BUCKET_SECONDS)
    && (forall k :: i <= k < |c| ==> bucketStart <= c[k].ts)
    && sum == Total(Between(c[..i], bucketStart, bucketStart + BUCKET_SECONDS))
    && count == |Between(c[..i], bucketStart, bucketStart + BUCKET_SECONDS)|
  }

  /** Close the current bucket and move to the next minute. */
  method FlushBucket(out: CoarseOutput, ghost c: seq<Reading>, ghost base: int, ghost end: int,
                     ghost i: nat, bucketStart: int, sum: real, count: nat)
    requires LoopState(out, c, base, end, i, bucketStart, sum, count)
    requires bucketStart < end
    requires forall k :: i <= k < |c| ==> bucketStart + BUCKET_SECONDS <= c[k].ts
    requires out.n < out.ts.Length
    modifies out, out.ts, out.val
    ensures LoopState(out, c, base, end, i, bucketStart + BUCKET_SECONDS, 0.0, 0)
  {
    hide Between, NaiveRows, Total, Average;
    ghost var next := bucketStart + BUCKET_SECONDS;
    WholeBucket(c, i, bucketStart);
    NextBucketEmpty(c[..i], next);
    EmptyTotal();
    AverageRow(c, out.Points(), bucketStart, end);
    if count > 0 {
      out.Emit(bucketStart, sum / count as real);
    }
  }

  lemma AverageRow(c: seq<Reading>, rows: seq<Row>, start: int, end: int)
    requires start < end
    ensures var next := start + BUCKET_SECONDS;
            var bucket := Between(c, start, next);
            var more := if bucket == [] then rows else rows + [Row(start, next, Total(bucket) / |bucket| as real)];
            rows + NaiveRows(Avg, c, start, end, BUCKET_SECONDS) == more + NaiveRows(Avg, c, next, end, BUCKET_SECONDS)
  {
    hide Between, NaiveRows, Total;
    NaiveStep(Avg, c, rows, start, end, BUCKET_SECONDS);
  }

  /** When the rest of the points lie after the bucket, it is complete. */
  lemma WholeBucket(c: seq<Reading>, i: nat, start: int)
    requires i <= |c| && forall k :: i <= k < |c| ==> start + BUCKET_SECONDS <= c[k].ts
    ensures Between(c[..i], start, start + BUCKET_SECONDS) == Between(c, start, start + BUCKET_SECONDS)
  {
    assert c == c[..i] + c[i..];
    BetweenConcat(c[..i], c[i..], start, start + BUCKET_SECONDS);
    BetweenNone(c[i..], start, start + BUCKET_SECONDS);
  }

  lemma NextBucketEmpty(s: seq<Reading>, next: int)
    requires forall k :: 0 <= k < |s| ==> s[k].ts < next
    ensures Between(s, next, next + BUCKET_SECONDS) == []
  {
    BetweenNone(s, next, next + BUCKET_SECONDS);
  }

  lemma PlacesSuffice(first: int, last: int)
    requires first <= last
    ensures MaxBuckets(first, last) >= 2
    ensures BUCKET_SECONDS * MaxBuckets(first, last) > last - first + BUCKET_SECONDS
  {
  }

  /** There is a place for one more average as long as no bucket starts after the
      last point. */
  lemma RoomLeft(n: nat, first: int, last: int, base: int, bucketStart: int)
    requires first <= last && base == FirstBucket(first)
    requires BUCKET_SECONDS * n <= bucketStart - base && bucketStart <= Max(last, base)
    ensures n < MaxBuckets(first, last)
  {
    hide FirstBucket, MaxBuckets;
    FirstBucketIff(first);
    PlacesSuffice(first, last);
  }

  lemma NothingYet(c: seq<Reading>, base: int)
    ensures Between(c[..0], base, base + BUCKET_SECONDS) == [] && Total([]) == 0.0
  {
    assert c[..0] == [];
  }

  lemma ClampBelow(s: seq<Reading>, base: int, i: nat, bound: int)
    requires Sorted(s) && i < |s| && bound <= s[i].ts
    ensures forall k :: i <= k < |s| ==> bound <= Clamp(s, base)[k].ts
  {
  }

  lemma AddPoint(c: seq<Reading>, i: nat, bucketStart: int)
    requires i < |c| && bucketStart <= c[i].ts < bucketStart + BUCKET_SECONDS
    ensures var before := Between(c[..i], bucketStart, bucketStart + BUCKET_SECONDS);
            var after := Between(c[..i + 1], bucketStart, bucketStart + BUCKET_SECONDS);
            |after| == |before| + 1 && Total(after) == Total(before) + c[i].val
  {
    hide Between, Total;
    assert c[..i + 1] == c[..i] + [c[i]];
    BetweenStep(c[..i], c[i], bucketStart, bucketStart + BUCKET_SECONDS);
    TotalStep(Between(c[..i], bucketStart, bucketStart + BUCKET_SECONDS), c[i]);
  }

  /** Close the buckets that end before point `i`. */
  method SkipTo(out: CoarseOutput, pts: array<Reading>, ghost s: seq<Reading>, i: nat, ghost base: int, ghost end: int,
                start: int, sum0: real, count0: nat)
    returns (bucketStart: int, sum: real, count: nat)
    requires i < |s| <= pts.Length && s == pts[..|s|] && Sorted(s)
    requires base == FirstBucket(s[0].ts) && end == Max(LastTime(s), base) + 1
    requires out.ts.Length == MaxBuckets(s[0].ts, LastTime(s))
    requires LoopState(out, Clamp(s, base), base, end, i, start, sum0, count0) && start < end
    modifies out, out.ts, out.val
    ensures LoopState(out, Clamp(s, base), base, end, i, bucketStart, sum, count) && bucketStart < end
    ensures pts[i].ts < bucketStart + BUCKET_SECONDS
  {
    hide Between, NaiveRows, Total, FirstBucket, MaxBuckets;
    bucketStart, sum, count := start, sum0, count0;
    while pts[i].ts >= bucketStart + BUCKET_SECONDS
      invariant LoopState(out, Clamp(s, base), base, end, i, bucketStart, sum, count)
      invariant bucketStart < end
      decreases pts[i].ts - bucketStart
    {
      ClampBelow(s, base, i, bucketStart + BUCKET_SECONDS);
      RoomLeft(out.n, s[0].ts, LastTime(s), base, bucketStart);
      FlushBucket(out, Clamp(s, base), base, end, i, bucketStart, sum, count);
      bucketStart, sum, count := bucketStart + BUCKET_SECONDS, 0.0, 0;
      assert s[i].ts <= LastTime(s);
    }
  }

  lemma StateAtStart(out: CoarseOutput, c: seq<Reading>, base: int, end: int)
    requires out.Valid() && out.n == 0 && out.Points() == []
    requires c != [] && base <= c[0].ts < base + BUCKET_SECONDS && Sorted(c)
    ensures LoopState(out, c, base, end, 0, base, 0.0, 0)
  {
    hide Between, NaiveRows, Total;
    NothingYet(c, base);
    assert [] + NaiveRows(Avg, c, base, end, BUCKET_SECONDS) == NaiveRows(Avg, c, base, end, BUCKET_SECONDS);
  }

  /** Point `i` belongs to the current bucket. */
  lemma StateAfterPoint(out: CoarseOutput, c: seq<Reading>, base: int, end: int,
                        i: nat, bucketStart: int, sum: real, count: nat)
    requires LoopState(out, c, base, end, i, bucketStart, sum, count)
    requires i < |c| && c[i].ts < bucketStart + BUCKET_SECONDS
    ensures LoopState(out, c, base, end, i + 1, bucketStart, sum + c[i].val, count + 1)
  {
    hide Between, NaiveRows, Total;
    AddPoint(c, i, bucketStart);
  }

  /** The one-pass averager. Every store is within the arrays, and the result is the
      coarse rows of the points. */
  method Downsample(pts: array<Reading>, n: nat) returns (out: CoarseOutput)
    requires 0 < n <= pts.Length && Sorted(pts[..n])
    ensures fresh(out) && out.Valid()
    ensures out.ts.Length == MaxBuckets(pts[0].ts, pts[n - 1].ts)
    ensures out.Points() == CoarseRows(pts[..n])
  {
    hide Between, NaiveRows, Total, FirstBucket, MaxBuckets, Clamp, Sorted, LoopState;
    ghost var s := pts[..n];
    var base := FirstBucket(pts[0].ts);
    ClampEnds(s, base);
    ghost var c, end := Clamp(s, base), Max(pts[n - 1].ts, base) + 1;
    FirstBucketIff(pts[0].ts);
    PlacesSuffice(pts[0].ts, pts[n - 1].ts);
    out := new CoarseOutput(MaxBuckets(pts[0].ts, pts[n - 1].ts));
    var bucketStart := base;
    var sum, count := 0.0, 0;
    StateAtStart(out, c, base, end);
    for i := 0 to n
      invariant fresh(out) && fresh(out.ts) && fresh(out.val)
      invariant LoopState(out, c, base, end, i, bucketStart, sum, count)
      invariant bucketStart < end
    {
      bucketStart, sum, count := SkipTo(out, pts, s, i, base, end, bucketStart, sum, count);
      ClampAt(s, base, i);
      StartAtLeastBase(out, c, base, end, i, bucketStart, sum, count);
      StateAfterPoint(out, c, base, end, i, bucketStart, sum, count);
      sum, count := sum + pts[i].val, count + 1;
    }
    StateAtEnd(out, c, base, end, bucketStart, sum, count);
    RoomLeft(out.n, pts[0].ts, pts[n - 1].ts, base, bucketStart);
    FlushBucket(out, c, base, end, n, bucketStart, sum, count);
    StateAtEnd(out, c, base, end, bucketStart + BUCKET_SECONDS, 0.0, 0);
    NoMoreRows(Avg, c, out.Points(), bucketStart + BUCKET_SECONDS, end, BUCKET_SECONDS);
  }

  lemma StartAtLeastBase(out: CoarseOutput, c: seq<Reading>, base: int, end: int,
                         i: nat, bucketStart: int, sum: real, count: nat)
    requires LoopState(out, c, base, end, i, bucketStart, sum, count)
    ensures base <= bucketStart
  {
  }

  lemma ClampAt(s: seq<Reading>, base: int, i: nat)
    requires i < |s|
    ensures Clamp(s, base)[i] == Reading(Max(s[i].ts, base), s[i].val)
  {
  }

  lemma ClampEnds(s: seq<Reading>, base: int)
    requires s != [] && Sorted(s) && base == FirstBucket(s[0].ts)
    ensures var c := Clamp(s, base);
            && Sorted(c) && base <= c[0].ts < base + BUCKET_SECONDS
            && c[|c| - 1].ts == Max(LastTime(s), base)
            && s[0].ts <= LastTime(s)
  {
    hide FirstBucket;
    FirstBucketIff(s[0].ts);
  }

  lemma StateAtEnd(out: CoarseOutput, c: seq<Reading>, base: int, end: int, bucketStart: int, sum: real, count: nat)
    requires LoopState(out, c, base, end, |c|, bucketStart, sum, count) && c != [] && c[|c| - 1].ts == end - 1
    ensures out.Valid() && BUCKET_SECONDS * out.n <= bucketStart - base && end <= bucketStart + BUCKET_SECONDS
    ensures out.Points() + NaiveRows(Avg, c, bucketStart, end, BUCKET_SECONDS)
            == NaiveRows(Avg, c, base, end, BUCKET_SECONDS)
  {
  }
}
