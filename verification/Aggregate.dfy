/** Bucket aggregation (src/registry.c, `agg_points`). Values are reals: rounding of
    sums and averages is not the point here. */
module Aggregate {
  import opened Words

  /** A point as the aggregation sees it. */
  datatype Reading = Reading(ts: int, val: real)

  /** The functions of the `AGG` command. */
  datatype Func = Avg | Min | Max | Sum | Count | Dcount | Unknown

  /** One line of the answer. */
  datatype Row = Row(start: int, end: int, value: real)

  /** Why a query is refused. */
  datatype Reason = BadRange | DiskRead | BadFunc

  datatype Result = Rows(rows: seq<Row>) | Err(reason: Reason)

  ghost predicate Sorted(s: seq<Reading>) {
    forall i, j :: 0 <= i < j < |s| ==> s[i].ts <= s[j].ts
  }

  // ---------------------------------------------------------------------------
  // The naive specification
  // ---------------------------------------------------------------------------

  /** The readings with lo <= ts < hi, in order. */
  ghost function Between(s: seq<Reading>, lo: int, hi: int): seq<Reading> {
    if s == [] then []
    else
      var rest := Between(s[..|s| - 1], lo, hi);
      var p := s[|s| - 1];
      if lo <= p.ts < hi then rest + [p] else rest
  }

  ghost function Total(s: seq<Reading>): real {
    if s == [] then 0.0 else Total(s[..|s| - 1]) + s[|s| - 1].val
  }

  ghost function Least(s: seq<Reading>): real
    requires s != []
  {
    var p := s[|s| - 1];
    if |s| == 1 then p.val else var m := Least(s[..|s| - 1]); if p.val < m then p.val else m
  }

  ghost function Greatest(s: seq<Reading>): real
    requires s != []
  {
    var p := s[|s| - 1];
    if |s| == 1 then p.val else var m := Greatest(s[..|s| - 1]); if p.val > m then p.val else m
  }

  ghost function Average(s: seq<Reading>): real
    requires s != []
  {
    Total(s) / |s| as real
  }

  /** The timestamps below `hi`. */
  ghost function TimesBelow(s: seq<Reading>, hi: int): set<int> {
    set p | p in s && p.ts < hi :: p.ts
  }

  /** What the source calls a distinct count: a running count of the timestamps seen
      so far, never reset between buckets, in which a smallest timestamp of zero is
      not counted because the previous timestamp starts out as zero. */
  ghost function DistinctSoFar(s: seq<Reading>, hi: int): int {
    var times := TimesBelow(s, hi);
    |times| - (if 0 in times && forall t :: t in times ==> t >= 0 then 1 else 0)
  }

  ghost function ValueOf(f: Func, s: seq<Reading>, lo: int, hi: int): real
    requires Between(s, lo, hi) != []
  {
    var b := Between(s, lo, hi);
    match f
    case Avg => Average(b)
    case Min => Least(b)
    case Max => Greatest(b)
    case Sum => Total(b)
    case Count => |b| as real
    case Dcount => DistinctSoFar(s, hi) as real
    case Unknown => 0.0
  }

  /** One row for every non-empty bucket [b, b + width) with b = start, start + width,
      and so on below `end`. */
  ghost function NaiveRows(f: Func, s: seq<Reading>, start: int, end: int, width: int): seq<Row>
    requires width > 0
    decreases end - start
  {
    if start >= end then []
    else BucketRow(f, s, start, start + width) + NaiveRows(f, s, start + width, end, width)
  }

  /** The row of one bucket, if it holds a point. */
  ghost function BucketRow(f: Func, s: seq<Reading>, lo: int, hi: int): seq<Row> {
    if Between(s, lo, hi) == [] then [] else [Row(lo, hi, ValueOf(f, s, lo, hi))]
  }

  // ---------------------------------------------------------------------------
  // The order of the points does not matter
  // ---------------------------------------------------------------------------

  lemma BetweenStep(s: seq<Reading>, p: Reading, lo: int, hi: int)
    ensures Between(s + [p], lo, hi) == Between(s, lo, hi) + (if lo <= p.ts < hi then [p] else [])
  {
    assert (s + [p])[..|s|] == s;
  }

  lemma {:induction false} BetweenConcat(a: seq<Reading>, b: seq<Reading>, lo: int, hi: int)
    ensures Between(a + b, lo, hi) == Between(a, lo, hi) + Between(b, lo, hi)
  {
    if b == [] {
      assert a + b == a;
    } else {
      assert (a + b)[..|a + b| - 1] == a + b[..|b| - 1];
      BetweenConcat(a, b[..|b| - 1], lo, hi);
    }
  }

  lemma {:induction false} BetweenMembers(s: seq<Reading>, lo: int, hi: int)
    ensures forall p :: p in Between(s, lo, hi) <==> p in s && lo <= p.ts < hi
  {
    if s != [] {
      BetweenMembers(s[..|s| - 1], lo, hi);
      assert s == s[..|s| - 1] + [s[|s| - 1]];
    }
  }

  /** Taking one point out of the middle. */
  function Without(s: seq<Reading>, k: nat): seq<Reading>
    requires k < |s|
  {
    s[..k] + s[k + 1..]
  }

  lemma WithoutParts(s: seq<Reading>, k: nat)
    requires k < |s|
    ensures s == s[..k] + [s[k]] + s[k + 1..]
    ensures multiset(s) == multiset(Without(s, k)) + multiset{s[k]}
  {
    assert s == s[..k] + [s[k]] + s[k + 1..];
  }

  lemma {:induction false} TotalConcat(a: seq<Reading>, b: seq<Reading>)
    ensures Total(a + b) == Total(a) + Total(b)
  {
    if b == [] {
      assert a + b == a;
    } else {
      assert (a + b)[..|a + b| - 1] == a + b[..|b| - 1];
      TotalConcat(a, b[..|b| - 1]);
    }
  }

  lemma TotalWithout(s: seq<Reading>, k: nat)
    requires k < |s|
    ensures Total(s) == Total(Without(s, k)) + s[k].val
  {
    WithoutParts(s, k);
    TotalConcat(s[..k] + [s[k]], s[k + 1..]);
    TotalConcat(s[..k], [s[k]]);
    TotalConcat(s[..k], s[k + 1..]);
    assert [s[k]][..0] == [];
    assert Total([s[k]]) == Total([]) + s[k].val;
  }

  lemma SameMembers(s: seq<Reading>, t: seq<Reading>)
    requires multiset(s) == multiset(t)
    ensures |s| == |t|
    ensures forall p :: p in s <==> p in t
  {
    assert |multiset(s)| == |multiset(t)|;
    forall p
      ensures p in s <==> p in t
    {
      assert p in s <==> p in multiset(s);
    }
  }

  /** Where the last point of one arrangement is in another. */
  lemma FindLast(s: seq<Reading>, t: seq<Reading>) returns (k: nat)
    requires multiset(s) == multiset(t) && s != []
    ensures k < |t| && t[k] == s[|s| - 1]
    ensures multiset(s[..|s| - 1]) == multiset(Without(t, k))
  {
    SameMembers(s, t);
    var p := s[|s| - 1];
    assert p in t;
    k :| 0 <= k < |t| && t[k] == p;
    WithoutParts(t, k);
    assert s == s[..|s| - 1] + [p];
    CancelOne(multiset(s[..|s| - 1]), multiset(Without(t, k)), p);
  }

  lemma CancelOne<T>(a: multiset<T>, b: multiset<T>, p: T)
    requires a + multiset{p} == b + multiset{p}
    ensures a == b
  {
    forall q
      ensures a[q] == b[q]
    {
      assert (a + multiset{p})[q] == (b + multiset{p})[q];
    }
  }

  lemma {:induction false} TotalSameMultiset(s: seq<Reading>, t: seq<Reading>)
    requires multiset(s) == multiset(t)
    ensures Total(s) == Total(t)
    decreases |s|
  {
    SameMembers(s, t);
    if s != [] {
      var k := FindLast(s, t);
      TotalSameMultiset(s[..|s| - 1], Without(t, k));
      TotalWithout(t, k);
    }
  }

  lemma {:induction false} BetweenSameMultiset(s: seq<Reading>, t: seq<Reading>, lo: int, hi: int)
    requires multiset(s) == multiset(t)
    ensures multiset(Between(s, lo, hi)) == multiset(Between(t, lo, hi))
    decreases |s|
  {
    SameMembers(s, t);
    if s != [] {
      var k := FindLast(s, t);
      var p := t[k];
      BetweenSameMultiset(s[..|s| - 1], Without(t, k), lo, hi);
      WithoutParts(t, k);
      BetweenConcat(t[..k] + [p], t[k + 1..], lo, hi);
      BetweenStep(t[..k], p, lo, hi);
      BetweenConcat(t[..k], t[k + 1..], lo, hi);
    }
  }

  lemma {:induction false} LeastSpec(s: seq<Reading>)
    requires s != []
    ensures exists p :: p in s && p.val == Least(s)
    ensures forall p :: p in s ==> Least(s) <= p.val
  {
    var front, last := s[..|s| - 1], s[|s| - 1];
    assert s == front + [last] && last in s;
    if front == [] {
      assert last.val == Least(s);
    } else {
      LeastSpec(front);
      var m := Least(front);
      assert Least(s) == if last.val < m then last.val else m;
      hide Least;
      var q :| q in front && q.val == m;
      var w := if last.val < m then last else q;
      assert w in s && w.val == Least(s);
    }
  }

  lemma {:induction false} GreatestSpec(s: seq<Reading>)
    requires s != []
    ensures exists p :: p in s && p.val == Greatest(s)
    ensures forall p :: p in s ==> p.val <= Greatest(s)
  {
    var front, last := s[..|s| - 1], s[|s| - 1];
    assert s == front + [last] && last in s;
    if front == [] {
      assert last.val == Greatest(s);
    } else {
      GreatestSpec(front);
      var m := Greatest(front);
      assert Greatest(s) == if last.val > m then last.val else m;
      hide Greatest;
      var q :| q in front && q.val == m;
      var w := if last.val > m then last else q;
      assert w in s && w.val == Greatest(s);
    }
  }

  lemma ExtremesSameMultiset(s: seq<Reading>, t: seq<Reading>)
    requires multiset(s) == multiset(t) && s != [] && t != []
    ensures Least(s) == Least(t) && Greatest(s) == Greatest(t)
  {
    SameMembers(s, t);
    LeastSpec(s);
    LeastSpec(t);
    GreatestSpec(s);
    GreatestSpec(t);
  }

  /** Every aggregate depends only on the multiset of the points, so the order in
      which the sort leaves points of equal time cannot change an answer. */
  lemma {:induction false} RowsSameMultiset(f: Func, s: seq<Reading>, t: seq<Reading>, start: int, end: int, width: int)
    requires multiset(s) == multiset(t) && width > 0
    ensures NaiveRows(f, s, start, end, width) == NaiveRows(f, t, start, end, width)
    decreases end - start
  {
    hide BucketRow;
    if start < end {
      RowsSameMultiset(f, s, t, start + width, end, width);
      ValueSameMultiset(f, s, t, start, start + width);
    }
  }

  lemma ValueSameMultiset(f: Func, s: seq<Reading>, t: seq<Reading>, lo: int, hi: int)
    requires multiset(s) == multiset(t)
    ensures BucketRow(f, s, lo, hi) == BucketRow(f, t, lo, hi)
  {
    hide Between, Total, Least, Greatest;
    var a, b := Between(s, lo, hi), Between(t, lo, hi);
    BetweenSameMultiset(s, t, lo, hi);
    SameMembers(a, b);
    TotalSameMultiset(a, b);
    SameMembers(s, t);
    assert TimesBelow(s, hi) == TimesBelow(t, hi);
    if a != [] {
      assert a[0] in a;
      ExtremesSameMultiset(a, b);
    }
  }

  // ---------------------------------------------------------------------------
  // Every point is in exactly one bucket
  // ---------------------------------------------------------------------------

  ghost function SumOfValues(rows: seq<Row>): real {
    if rows == [] then 0.0 else rows[0].value + SumOfValues(rows[1..])
  }

  /** The counts of the rows add up to the number of points from `start` on, whatever
      the width divides: every point is in exactly one bucket. */
  lemma {:induction false} CountsPartition(s: seq<Reading>, start: int, end: int, width: int)
    requires width > 0 && forall p :: p in s ==> p.ts < end
    ensures SumOfValues(NaiveRows(Count, s, start, end, width)) == |Between(s, start, end)| as real
    decreases end - start
  {
    hide Between, BucketRow, SumOfValues;
    if start < end {
      var next := start + width;
      CountsPartition(s, next, end, width);
      BetweenSplit(s, start, next, end);
      CountedBucket(s, start, next, NaiveRows(Count, s, next, end, width));
    } else {
      BetweenEmpty(s, start, end);
      NoRows();
    }
  }

  /** The sums of the rows add up to the total of the points from `start` on. */
  lemma {:induction false} SumsPartition(s: seq<Reading>, start: int, end: int, width: int)
    requires width > 0 && forall p :: p in s ==> p.ts < end
    ensures SumOfValues(NaiveRows(Sum, s, start, end, width)) == Total(Between(s, start, end))
    decreases end - start
  {
    hide Between, BucketRow, SumOfValues, Total;
    if start < end {
      var next := start + width;
      SumsPartition(s, next, end, width);
      BetweenSplit(s, start, next, end);
      SummedBucket(s, start, next, NaiveRows(Sum, s, next, end, width));
    } else {
      BetweenEmpty(s, start, end);
      EmptyTotal();
      NoRows();
    }
  }

  lemma EmptyTotal()
    ensures Total([]) == 0.0
  {
  }

  lemma NoRows()
    ensures SumOfValues([]) == 0.0
  {
  }

  lemma CountedBucket(s: seq<Reading>, lo: int, hi: int, later: seq<Row>)
    ensures SumOfValues(BucketRow(Count, s, lo, hi) + later) == |Between(s, lo, hi)| as real + SumOfValues(later)
  {
    hide Between;
    if Between(s, lo, hi) == [] {
      assert [] + later == later;
    } else {
      PrependedRow(Row(lo, hi, |Between(s, lo, hi)| as real), later);
    }
  }

  lemma SummedBucket(s: seq<Reading>, lo: int, hi: int, later: seq<Row>)
    ensures SumOfValues(BucketRow(Sum, s, lo, hi) + later) == Total(Between(s, lo, hi)) + SumOfValues(later)
  {
    hide Between;
    if Between(s, lo, hi) == [] {
      assert [] + later == later;
      EmptyTotal();
    } else {
      PrependedRow(Row(lo, hi, Total(Between(s, lo, hi))), later);
    }
  }

  lemma PrependedRow(row: Row, rows: seq<Row>)
    ensures SumOfValues([row] + rows) == row.value + SumOfValues(rows)
  {
    assert ([row] + rows)[1..] == rows;
  }

  lemma {:induction false} BetweenEmpty(s: seq<Reading>, lo: int, hi: int)
    requires lo >= hi
    ensures Between(s, lo, hi) == []
  {
    if s != [] {
      BetweenEmpty(s[..|s| - 1], lo, hi);
    }
  }

  /** Cutting a range in two splits its points; the last bucket may reach past the end. */
  lemma {:induction false} BetweenSplit(s: seq<Reading>, lo: int, mid: int, hi: int)
    requires lo <= mid && lo < hi && forall p :: p in s ==> p.ts < hi
    ensures |Between(s, lo, hi)| == |Between(s, lo, mid)| + |Between(s, mid, hi)|
    ensures Total(Between(s, lo, hi)) == Total(Between(s, lo, mid)) + Total(Between(s, mid, hi))
  {
    if s == [] {
      EmptyTotal();
    } else {
      var front, p := s[..|s| - 1], s[|s| - 1];
      assert p in s && s == front + [p];
      BetweenSplit(front, lo, mid, hi);
      BetweenStep(front, p, lo, hi);
      BetweenStep(front, p, lo, mid);
      BetweenStep(front, p, mid, hi);
      hide Between, Total;
      TotalStep(Between(front, lo, hi), p);
      TotalStep(Between(front, lo, mid), p);
      TotalStep(Between(front, mid, hi), p);
    }
  }

  lemma TotalStep(s: seq<Reading>, p: Reading)
    ensures Total(s + [p]) == Total(s) + p.val
  {
    assert (s + [p])[..|s|] == s;
  }

  /** A row of a non-empty bucket on a bucket boundary. */
  ghost predicate GoodRow(row: Row, s: seq<Reading>, start: int, end: int, width: int)
    requires width > 0
  {
    && start <= row.start < end && row.end == row.start + width
    && Aligned(row.start, start, width)
    && Between(s, row.start, row.end) != []
  }

  /** Rows come in time order and do not overlap. */
  ghost predicate InOrder(rows: seq<Row>) {
    forall i :: 0 < i < |rows| ==> rows[i - 1].end <= rows[i].start
  }

  /** Rows come on bucket boundaries, and only for buckets that hold a point. */
  lemma {:induction false} RowsAreGood(f: Func, s: seq<Reading>, start: int, end: int, width: int)
    requires width > 0
    ensures forall row :: row in NaiveRows(f, s, start, end, width) ==> GoodRow(row, s, start, end, width)
    decreases end - start
  {
    hide Between, ValueOf, Aligned;
    if start < end {
      RowsAreGood(f, s, start + width, end, width);
      forall row | row in NaiveRows(f, s, start + width, end, width)
        ensures GoodRow(row, s, start, end, width)
      {
        AlignedEarlier(row.start, start, width);
      }
      AlignedHere(start, width);
    }
  }

  /** Rows come in order, on bucket boundaries, and only for buckets that hold a point. */
  lemma {:induction false} RowsAreOrdered(f: Func, s: seq<Reading>, start: int, end: int, width: int)
    requires width > 0
    ensures var rows := NaiveRows(f, s, start, end, width);
            InOrder(rows) && forall i :: 0 <= i < |rows| ==> GoodRow(rows[i], s, start, end, width)
    decreases end - start
  {
    RowsAreGood(f, s, start, end, width);
    if start < end {
      var later := NaiveRows(f, s, start + width, end, width);
      hide NaiveRows, GoodRow;
      RowsAreOrdered(f, s, start + width, end, width);
      BucketBeforeLater(f, s, start, end, width);
    }
  }

  lemma BucketBeforeLater(f: Func, s: seq<Reading>, start: int, end: int, width: int)
    requires width > 0 && start < end && InOrder(NaiveRows(f, s, start + width, end, width))
    ensures InOrder(NaiveRows(f, s, start, end, width))
  {
    hide Between, ValueOf, Aligned;
    var later := NaiveRows(f, s, start + width, end, width);
    RowsAreGood(f, s, start + width, end, width);
    if Between(s, start, start + width) == [] {
      assert [] + later == later;
    } else {
      assert later != [] ==> later[0] in later;
      FirstRowOrdered(Row(start, start + width, ValueOf(f, s, start, start + width)), later);
    }
  }

  lemma FirstRowOrdered(row: Row, later: seq<Row>)
    requires InOrder(later) && (later != [] ==> row.end <= later[0].start)
    ensures InOrder([row] + later)
  {
  }

  /** A whole number of buckets after `start`. */
  predicate Aligned(x: int, start: int, width: int)
    requires width > 0
  {
    (x - start) % width == 0
  }

  lemma AlignedHere(start: int, width: int)
    requires width > 0
    ensures Aligned(start, start, width)
  {
  }

  lemma AlignedEarlier(x: int, start: int, width: int)
    requires width > 0 && Aligned(x, start + width, width)
    ensures Aligned(x, start, width)
  {
    var q := (x - start - width) / width;
    assert x - start == (q + 1) * width + 0;
    DivUnique(x - start, width, q + 1, 0);
  }

  // ---------------------------------------------------------------------------
  // What the value of a row means
  // ---------------------------------------------------------------------------

  /** `v` is the value of some point of `b`, and no point of `b` is below it. */
  ghost predicate IsMinimum(v: real, b: seq<Reading>) {
    (exists p :: p in b && p.val == v) && forall p :: p in b ==> v <= p.val
  }

  /** `v` is the value of some point of `b`, and no point of `b` is above it. */
  ghost predicate IsMaximum(v: real, b: seq<Reading>) {
    (exists p :: p in b && p.val == v) && forall p :: p in b ==> p.val <= v
  }

  /** `b` consists of the points of `s` at the places `at`: those in [lo, hi), in their
      order and each once. */
  ghost predicate Picks(at: seq<nat>, b: seq<Reading>, s: seq<Reading>, lo: int, hi: int) {
    && |at| == |b|
    && (forall k :: 0 <= k < |at| ==> at[k] < |s| && b[k] == s[at[k]] && lo <= b[k].ts < hi)
    && (forall j, k :: 0 <= j < k < |at| ==> at[j] < at[k])
    && forall i: nat :: i < |s| && lo <= s[i].ts < hi ==> i in at
  }

  /** `b` consists of the points of `s` in [lo, hi). */
  ghost predicate IsPart(b: seq<Reading>, s: seq<Reading>, lo: int, hi: int) {
    exists at :: Picks(at, b, s, lo, hi)
  }

  lemma {:induction false} BetweenIsPart(s: seq<Reading>, lo: int, hi: int)
    ensures IsPart(Between(s, lo, hi), s, lo, hi)
  {
    if s == [] {
      assert Picks([], [], s, lo, hi);
    } else {
      var front, p := s[..|s| - 1], s[|s| - 1];
      BetweenIsPart(front, lo, hi);
      var at :| Picks(at, Between(front, lo, hi), front, lo, hi);
      assert s == front + [p];
      if lo <= p.ts < hi {
        PickLast(at, Between(front, lo, hi), front, p, lo, hi);
      } else {
        PassLast(at, Between(front, lo, hi), front, p, lo, hi);
      }
    }
  }

  lemma PickLast(at: seq<nat>, b: seq<Reading>, front: seq<Reading>, p: Reading, lo: int, hi: int)
    requires Picks(at, b, front, lo, hi) && lo <= p.ts < hi
    ensures Picks(at + [|front|], b + [p], front + [p], lo, hi)
  {
    var more, s := at + [|front|], front + [p];
    forall i: nat | i < |s| && lo <= s[i].ts < hi
      ensures i in more
    {
      if i < |front| {
        assert front[i] == s[i] && i in at;
      } else {
        assert more[|at|] == i;
      }
    }
  }

  lemma PassLast(at: seq<nat>, b: seq<Reading>, front: seq<Reading>, p: Reading, lo: int, hi: int)
    requires Picks(at, b, front, lo, hi) && !(lo <= p.ts < hi)
    ensures Picks(at, b, front + [p], lo, hi)
  {
    var s := front + [p];
    forall i: nat | i < |s| && lo <= s[i].ts < hi
      ensures i in at
    {
      assert front[i] == s[i];
    }
  }

  /** What the value of a row says about the points `b` of its bucket. */
  ghost predicate Means(f: Func, v: real, b: seq<Reading>, s: seq<Reading>, hi: int) {
    match f
    case Avg => v * |b| as real == Total(b)
    case Min => IsMinimum(v, b)
    case Max => IsMaximum(v, b)
    case Sum => v == Total(b)
    case Count => v == |b| as real
    case Dcount =>
      var times := set p | p in s && p.ts < hi :: p.ts;
      v == |times| as real - (if 0 in times && forall t :: t in times ==> t >= 0 then 1.0 else 0.0)
    case Unknown => true
  }

  lemma ValueMeans(f: Func, s: seq<Reading>, lo: int, hi: int)
    requires Between(s, lo, hi) != []
    ensures Means(f, ValueOf(f, s, lo, hi), Between(s, lo, hi), s, hi)
  {
    hide Between, Total, Least, Greatest;
    var b := Between(s, lo, hi);
    LeastSpec(b);
    GreatestSpec(b);
    if f == Avg {
      Quotient(Total(b), |b| as real);
    }
  }

  lemma Quotient(x: real, n: real)
    requires n != 0.0
    ensures x / n * n == x
  {
  }

  /** Every row, for every function and width: its bucket's points are those of the list
      in its range, and its value means what the function's name says. */
  lemma {:induction false} RowsMean(f: Func, s: seq<Reading>, start: int, end: int, width: int)
    requires width > 0
    ensures forall row :: row in NaiveRows(f, s, start, end, width) ==>
              exists b :: b != [] && IsPart(b, s, row.start, row.end) && Means(f, row.value, b, s, row.end)
    decreases end - start
  {
    hide Between, ValueOf, IsPart, Means;
    if start < end {
      var next := start + width;
      RowsMean(f, s, next, end, width);
      if Between(s, start, next) != [] {
        BetweenIsPart(s, start, next);
        ValueMeans(f, s, start, next);
      }
    }
  }

  /** And every point from `start` to before `end` has a row for its bucket. */
  lemma {:induction false} EveryPointHasRow(f: Func, s: seq<Reading>, p: Reading, start: int, end: int, width: int)
    requires width > 0 && p in s && start <= p.ts < end
    ensures exists row :: row in NaiveRows(f, s, start, end, width) && row.start <= p.ts < row.end
    decreases end - start
  {
    hide Between, ValueOf;
    var next := start + width;
    if p.ts < next {
      BetweenMembers(s, start, next);
      assert p in Between(s, start, next);
      var row := Row(start, next, ValueOf(f, s, start, next));
      assert row in NaiveRows(f, s, start, end, width);
    } else {
      EveryPointHasRow(f, s, p, next, end, width);
      var row :| row in NaiveRows(f, s, next, end, width) && row.start <= p.ts < row.end;
      assert row in NaiveRows(f, s, start, end, width);
    }
  }

  /** An average lies between the least and the greatest value. */
  lemma AverageBetween(s: seq<Reading>)
    requires s != []
    ensures Least(s) <= Average(s) <= Greatest(s)
  {
    hide Least, Greatest, Total;
    LeastSpec(s);
    GreatestSpec(s);
    TotalBounds(s, Least(s), Greatest(s));
    DivideBounds(Total(s), |s|, Least(s), Greatest(s));
  }

  lemma {:induction false} TotalBounds(s: seq<Reading>, lo: real, hi: real)
    requires forall p :: p in s ==> lo <= p.val <= hi
    ensures lo * |s| as real <= Total(s) <= hi * |s| as real
  {
    if s != [] {
      var front, p := s[..|s| - 1], s[|s| - 1];
      assert p in s;
      TotalBounds(front, lo, hi);
      assert lo * |s| as real == lo * |front| as real + lo;
      assert hi * |s| as real == hi * |front| as real + hi;
    }
  }

  lemma DivideBounds(total: real, n: nat, lo: real, hi: real)
    requires n > 0 && lo * n as real <= total <= hi * n as real
    ensures lo <= total / n as real <= hi
  {
    var q := total / n as real;
    assert q * n as real == total;
  }

  // ---------------------------------------------------------------------------
  // The running distinct count
  // ---------------------------------------------------------------------------

  /** The timestamp seen last; zero before the first. */
  ghost function PrevTime(b: seq<Reading>): int {
    if b == [] then 0 else b[|b| - 1].ts
  }

  /** How often the timestamp differed from the one before. */
  ghost function Changes(b: seq<Reading>): int {
    if b == [] then 0
    else
      var front := b[..|b| - 1];
      Changes(front) + (if b[|b| - 1].ts != PrevTime(front) then 1 else 0)
  }

  ghost function Times(b: seq<Reading>): set<int> {
    set p | p in b :: p.ts
  }

  ghost function Distinct(times: set<int>): int {
    |times| - (if 0 in times && forall t :: t in times ==> t >= 0 then 1 else 0)
  }

  lemma {:induction false} ChangesAreDistinct(b: seq<Reading>)
    requires Sorted(b)
    ensures Changes(b) == Distinct(Times(b))
  {
    hide Changes, Times, Distinct;
    if b == [] {
      NoChanges();
    } else {
      var front, p := b[..|b| - 1], b[|b| - 1];
      ChangesAreDistinct(front);
      assert b == front + [p];
      ChangesStep(front, p);
      TimesAppend(front, p);
      if front == [] {
        NoChanges();
        OneTime(p.ts);
      } else {
        NewestTime(front, p.ts);
      }
    }
  }

  lemma NoChanges()
    ensures Changes([]) == Distinct(Times([])) == 0
  {
    assert Times([]) == {};
  }

  lemma ChangesStep(front: seq<Reading>, p: Reading)
    ensures Changes(front + [p]) == Changes(front) + (if p.ts != PrevTime(front) then 1 else 0)
  {
    assert (front + [p])[..|front|] == front;
  }

  lemma TimesAppend(front: seq<Reading>, p: Reading)
    ensures Times(front + [p]) == Times(front) + {p.ts}
  {
    forall t
      ensures t in Times(front + [p]) <==> t in Times(front) + {p.ts}
    {
      if t in Times(front) {
        var q :| q in front && q.ts == t;
        assert q in front + [p];
      }
      assert p in front + [p];
    }
  }

  lemma OneTime(t: int)
    ensures Distinct(Times([]) + {t}) == (if t != 0 then 1 else 0)
  {
    assert Times([]) + {t} == {t};
  }

  /** The last point of a sorted list is the newest; a later one is a new timestamp. */
  lemma NewestTime(front: seq<Reading>, t: int)
    requires front != [] && Sorted(front) && front[|front| - 1].ts <= t
    ensures Distinct(Times(front) + {t}) == Distinct(Times(front)) + (if t != front[|front| - 1].ts then 1 else 0)
  {
    hide Distinct;
    var times, q := Times(front), front[|front| - 1];
    assert q in front && q.ts in times;
    forall x | x in times
      ensures x <= q.ts
    {
      var r :| r in front && r.ts == x;
    }
    if t == q.ts {
      assert times + {t} == times;
    } else {
      DistinctAdd(times, t, q.ts);
    }
  }

  lemma DistinctAdd(times: set<int>, t: int, m: int)
    requires m in times && m < t && forall x :: x in times ==> x <= m
    ensures Distinct(times + {t}) == Distinct(times) + 1
  {
    assert |times + {t}| == |times| + 1;
    assert (forall x :: x in times + {t} ==> x >= 0) ==> forall x :: x in times ==> x >= 0;
    if forall x :: x in times ==> x >= 0 {
      assert forall x :: x in times + {t} ==> x >= 0;
    }
  }

  lemma {:induction false} BetweenSorted(s: seq<Reading>, lo: int, hi: int)
    requires Sorted(s)
    ensures Sorted(Between(s, lo, hi))
  {
    if s != [] {
      var front, p := s[..|s| - 1], s[|s| - 1];
      BetweenSorted(front, lo, hi);
      BetweenMembers(front, lo, hi);
      var rest := Between(front, lo, hi);
      forall i | 0 <= i < |rest|
        ensures rest[i].ts <= p.ts
      {
        assert rest[i] in front;
      }
    }
  }

  /** The running distinct count of a bucket is its own number of timestamps exactly when
      nothing earlier was counted: no point came before and zero is not its smallest
      timestamp, or all that came before was at zero. */
  lemma DistinctIsOwnIff(s: seq<Reading>, lo: int, hi: int)
    requires lo <= hi
    ensures var own := Times(Between(s, lo, hi));
            DistinctSoFar(s, hi) == |own|
            <==> (TimesBelow(s, lo) == {} && !(0 in own && forall t :: t in own ==> t >= 0)) || TimesBelow(s, lo) == {0}
  {
    hide Between;
    BetweenMembers(s, lo, hi);
    var before, own, all := TimesBelow(s, lo), Times(Between(s, lo, hi)), TimesBelow(s, hi);
    assert all == before + own;
    assert before !! own;
    assert |all| == |before| + |own|;
    if before != {} && DistinctSoFar(s, hi) == |own| {
      assert |before| == 1;
      var t :| t in before;
      assert before == {t} by {
        assert |before - {t}| == 0;
      }
    }
  }

  lemma ChangesSoFar(s: seq<Reading>, lo: int, hi: int)
    requires Sorted(s) && forall p :: p in s ==> lo <= p.ts
    ensures Changes(Between(s, lo, hi)) == DistinctSoFar(s, hi)
  {
    hide Between, Changes;
    BetweenSorted(s, lo, hi);
    BetweenMembers(s, lo, hi);
    ChangesAreDistinct(Between(s, lo, hi));
    assert Times(Between(s, lo, hi)) == TimesBelow(s, hi);
  }

  /** In a sorted list the points of two adjacent ranges follow each other. */
  lemma {:induction false} BetweenAdjacent(s: seq<Reading>, lo: int, mid: int, hi: int)
    requires Sorted(s) && lo <= mid <= hi
    ensures Between(s, lo, hi) == Between(s, lo, mid) + Between(s, mid, hi)
  {
    if s != [] {
      var front, p := s[..|s| - 1], s[|s| - 1];
      BetweenAdjacent(front, lo, mid, hi);
      if lo <= p.ts < mid {
        BetweenNone(front, mid, hi);
      }
    }
  }

  lemma {:induction false} BetweenNone(s: seq<Reading>, lo: int, hi: int)
    requires forall p :: p in s ==> !(lo <= p.ts < hi)
    ensures Between(s, lo, hi) == []
  {
    if s != [] {
      BetweenNone(s[..|s| - 1], lo, hi);
    }
  }

  // ---------------------------------------------------------------------------
  // The loops
  // ---------------------------------------------------------------------------

  /** The running figures of one bucket. */
  datatype Stats = Stats(count: nat, sum: real, minv: real, maxv: real, distinct: int, prevTs: int)

  /** The figures describe the bucket `b` reached after the points `before`. */
  ghost predicate Describes(st: Stats, before: seq<Reading>, b: seq<Reading>) {
    && st.count == |b| && st.sum == Total(b)
    && (b != [] ==> st.minv == Least(b) && st.maxv == Greatest(b))
    && st.distinct == Changes(before + b) && st.prevTs == PrevTime(before + b)
  }

  /** One more point of the bucket. */
  method Accumulate(st: Stats, p: Reading, ghost before: seq<Reading>, ghost b: seq<Reading>) returns (r: Stats)
    requires Describes(st, before, b)
    ensures Describes(r, before, b + [p])
  {
    assert (b + [p])[..|b|] == b && (before + (b + [p]))[..|before + b|] == before + b;
    var minv, maxv := st.minv, st.maxv;
    if st.count == 0 {
      minv, maxv := p.val, p.val;
    } else {
      if p.val < minv {
        minv := p.val;
      }
      if p.val > maxv {
        maxv := p.val;
      }
    }
    var distinct := if p.ts != st.prevTs then st.distinct + 1 else st.distinct;
    r := Stats(st.count + 1, st.sum + p.val, minv, maxv, distinct, p.ts);
  }

  /** The inner loop: skip the points before the bucket, stop after it. */
  method ScanBucket(pts: array<Reading>, n: nat, bstart: int, bend: int, distinct: int, prevTs: int,
                    ghost before: seq<Reading>)
    returns (st: Stats)
    requires n <= pts.Length && Sorted(pts[..n])
    requires distinct == Changes(before) && prevTs == PrevTime(before)
    ensures Describes(st, before, Between(pts[..n], bstart, bend))
  {
    hide Changes, PrevTime, Total, Least, Greatest;
    ghost var s := pts[..n];
    EmptyTotal();
    assert before + [] == before;
    st := Stats(0, 0.0, 0.0, 0.0, distinct, prevTs);
    assert s[..0] == [];
    var i := 0;
    while i < n
      invariant 0 <= i <= n
      invariant Describes(st, before, Between(s[..i], bstart, bend))
    {
      var p := pts[i];
      assert s[..i + 1] == s[..i] + [p];
      BetweenStep(s[..i], p, bstart, bend);
      if p.ts < bstart {
        i := i + 1;
        continue;
      }
      if p.ts >= bend {
        LaterIsOutside(s, i, bstart, bend);
        return;
      }
      st := Accumulate(st, p, before, Between(s[..i], bstart, bend));
      i := i + 1;
    }
    assert s[..n] == s;
  }

  lemma LaterIsOutside(s: seq<Reading>, i: nat, bstart: int, bend: int)
    requires Sorted(s) && i < |s| && s[i].ts >= bend
    ensures Between(s, bstart, bend) == Between(s[..i], bstart, bend)
  {
    assert s == s[..i] + s[i..];
    BetweenConcat(s[..i], s[i..], bstart, bend);
    BetweenNone(s[i..], bstart, bend);
  }

  function Choose(f: Func, st: Stats): real
    requires st.count > 0
  {
    match f
    case Avg => st.sum / st.count as real
    case Min => st.minv
    case Max => st.maxv
    case Sum => st.sum
    case Count => st.count as real
    case Dcount => st.distinct as real
    case Unknown => 0.0
  }

  /** The buckets of a sorted array of points in [start, end). An unknown function is
      an error as soon as a bucket holds a point. */
  method AggPoints(pts: array<Reading>, n: nat, start: int, end: int, width: int, f: Func) returns (result: Result)
    requires n <= pts.Length && Sorted(pts[..n]) && width > 0
    requires forall p :: p in pts[..n] ==> start <= p.ts < end
    ensures f != Unknown || n == 0 ==> result == Rows(NaiveRows(f, pts[..n], start, end, width))
    ensures f == Unknown && n > 0 ==> result == Err(BadFunc)
  {
    hide Changes, PrevTime, Between, Describes, NaiveRows, ValueOf, DistinctSoFar, Choose;
    ghost var s := pts[..n];
    var rows := [];
    var bstart := start;
    var distinct, prevTs := 0, 0;
    BetweenEmpty(s, start, start);
    NothingSeen();
    while bstart < end
      invariant start <= bstart
      invariant rows + NaiveRows(f, s, bstart, end, width) == NaiveRows(f, s, start, end, width)
      invariant distinct == Changes(Between(s, start, bstart)) && prevTs == PrevTime(Between(s, start, bstart))
      invariant f == Unknown ==> Between(s, start, bstart) == []
    {
      var bend := bstart + width;
      ghost var before := Between(s, start, bstart);
      var st := ScanBucket(pts, n, bstart, bend, distinct, prevTs, before);
      BetweenAdjacent(s, start, bstart, bend);
      ChangesSoFar(s, start, bend);
      DescribesBucket(f, st, before, s, bstart, bend);
      NaiveStep(f, s, rows, bstart, end, width);
      distinct, prevTs := st.distinct, st.prevTs;
      if st.count > 0 {
        if f == Unknown {
          BetweenEmptyOf(bstart, bend);
          return Err(BadFunc);
        }
        rows := rows + [Row(bstart, bend, Choose(f, st))];
      }
      bstart := bend;
    }
    EverythingSeen(s, start, bstart);
    NoMoreRows(f, s, rows, bstart, end, width);
    result := Rows(rows);
  }

  lemma BetweenEmptyOf(lo: int, hi: int)
    ensures Between([], lo, hi) == []
  {
  }

  lemma NoMoreRows(f: Func, s: seq<Reading>, rows: seq<Row>, start: int, end: int, width: int)
    requires width > 0 && start >= end
    ensures rows + NaiveRows(f, s, start, end, width) == rows
  {
  }

  lemma NothingSeen()
    ensures Changes([]) == 0 && PrevTime([]) == 0
  {
  }

  lemma {:induction false} EverythingSeen(s: seq<Reading>, lo: int, hi: int)
    requires forall p :: p in s ==> lo <= p.ts < hi
    ensures Between(s, lo, hi) == s
  {
    if s != [] {
      var front, p := s[..|s| - 1], s[|s| - 1];
      assert p in s && s == front + [p];
      EverythingSeen(front, lo, hi);
    }
  }

  lemma {:induction false} NoPointsNoRows(f: Func, start: int, end: int, width: int)
    requires width > 0
    ensures NaiveRows(f, [], start, end, width) == []
    decreases end - start
  {
    if start < end {
      NoPointsNoRows(f, start + width, end, width);
    }
  }

  lemma NaiveStep(f: Func, s: seq<Reading>, rows: seq<Row>, start: int, end: int, width: int)
    requires width > 0 && start < end
    ensures var bucket := Between(s, start, start + width);
            var more := if bucket == [] then rows else rows + BucketRow(f, s, start, start + width);
            rows + NaiveRows(f, s, start, end, width) == more + NaiveRows(f, s, start + width, end, width)
  {
    hide Between, ValueOf, BucketRow;
    var row, later := BucketRow(f, s, start, start + width), NaiveRows(f, s, start + width, end, width);
    NoBucketRow(f, s, start, start + width);
    assert NaiveRows(f, s, start, end, width) == row + later;
    assert rows + (row + later) == (rows + row) + later;
    assert rows + [] == rows;
  }

  lemma NoBucketRow(f: Func, s: seq<Reading>, lo: int, hi: int)
    ensures Between(s, lo, hi) == [] ==> BucketRow(f, s, lo, hi) == []
  {
  }

  lemma DescribesBucket(f: Func, st: Stats, before: seq<Reading>, s: seq<Reading>, lo: int, hi: int)
    requires Describes(st, before, Between(s, lo, hi))
    requires Changes(before + Between(s, lo, hi)) == DistinctSoFar(s, hi)
    ensures st.count == |Between(s, lo, hi)|
    ensures st.count > 0 ==> Choose(f, st) == ValueOf(f, s, lo, hi)
    ensures st.distinct == Changes(before + Between(s, lo, hi)) && st.prevTs == PrevTime(before + Between(s, lo, hi))
  {
    hide Between, Changes, PrevTime, Total, Least, Greatest, DistinctSoFar;
  }
}
