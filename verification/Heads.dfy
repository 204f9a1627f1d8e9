/** The in-memory head block of a metric (src/head.c). */
module Heads {
  import opened Words

  const HEAD_CAPACITY := 50000

  /** A point as a client sends it: a signed timestamp and the word of a double. */
  datatype Point = Point(ts: Long, value: Word)

  /** The part of a head block that its operations depend on. */
  datatype HeadState = HeadState(points: seq<Point>, last: Long)

  /** `PUT_value`: refuse a point older than the newest, or any point when full. */
  function Put(h: HeadState, p: Point): (HeadState, bool) {
    if |h.points| > 0 && p.ts < h.last then (h, false)
    else if |h.points| >= HEAD_CAPACITY then (h, false)
    else (HeadState(h.points + [p], p.ts), true)
  }

  ghost predicate Sorted(points: seq<Point>) {
    forall i, j :: 0 <= i < j < |points| ==> points[i].ts <= points[j].ts
  }

  /** What every operation keeps: the head is bounded and in time order, and a
      non-empty head remembers its newest timestamp. */
  ghost predicate HeadInvariant(h: HeadState) {
    && |h.points| <= HEAD_CAPACITY
    && Sorted(h.points)
    && (h.points != [] ==> h.last == h.points[|h.points| - 1].ts)
  }

  /** A point is accepted exactly when there is room and it is not older than the
      newest one; either way the invariant is kept. */
  lemma PutKeepsInvariant(h: HeadState, p: Point)
    requires HeadInvariant(h)
    ensures var (h', ok) := Put(h, p);
            && HeadInvariant(h')
            && (ok <==> |h.points| < 50000 && forall q :: q in h.points ==> q.ts <= p.ts)
            && h'.points == (if ok then h.points + [p] else h.points)
  {
    if h.points != [] {
      assert h.points[|h.points| - 1] in h.points;
    }
  }

  class HeadBlock {
    var timestamps: array<Long>
    var values: array<Word>
    var size: nat
    var lastTimestamp: Long

    ghost function Repr(): set<object>
      reads this
    {
      {this, timestamps, values}
    }

    ghost predicate Valid()
      reads this
    {
      && timestamps.Length == values.Length == HEAD_CAPACITY
      && timestamps as object != values
      && size <= HEAD_CAPACITY
    }

    ghost function State(): HeadState
      reads this, timestamps, values
      requires Valid()
    {
      HeadState(PointsOf(timestamps[..size], values[..size]), lastTimestamp)
    }

    /** A fresh head. The source leaves its last timestamp unset, so it is whatever
        the allocator left there. */
    constructor (unset: Long)
      ensures Valid() && fresh(timestamps) && fresh(values)
      ensures State() == HeadState([], unset)
    {
      timestamps := new Long[HEAD_CAPACITY](_ => 0);
      values := new Word[HEAD_CAPACITY](_ => 0);
      size := 0;
      lastTimestamp := unset;
    }

    method PutValue(timestamp: Long, value: Word) returns (ok: bool)
      requires Valid()
      modifies Repr()
      ensures Valid() && timestamps == old(timestamps) && values == old(values)
      ensures (State(), ok) == Put(old(State()), Point(timestamp, value))
    {
      if size > 0 && timestamp < lastTimestamp {
        return false;
      }
      if size >= HEAD_CAPACITY {
        return false;
      }
      PointsOfAppend(timestamps[..size], values[..size], timestamp, value);
      timestamps[size] := timestamp;
      lastTimestamp := timestamp;
      values[size] := value;
      size := size + 1;
      assert timestamps[..size] == old(timestamps[..size]) + [timestamp];
      assert values[..size] == old(values[..size]) + [value];
      return true;
    }

    /** What a successful flush leaves behind. */
    method Reset()
      requires Valid()
      modifies `size, `lastTimestamp
      ensures Valid() && State() == HeadState([], 0)
    {
      size := 0;
      lastTimestamp := 0;
    }
  }

  /** The points in two parallel arrays. */
  function PointsOf(timestamps: seq<Long>, values: seq<Word>): (points: seq<Point>)
    requires |timestamps| == |values|
    ensures |points| == |timestamps|
  {
    seq(|timestamps|, i requires 0 <= i < |timestamps| => Point(timestamps[i], values[i]))
  }

  lemma PointsOfAppend(timestamps: seq<Long>, values: seq<Word>, timestamp: Long, value: Word)
    requires |timestamps| == |values|
    ensures PointsOf(timestamps + [timestamp], values + [value])
            == PointsOf(timestamps, values) + [Point(timestamp, value)]
  {
  }
}
