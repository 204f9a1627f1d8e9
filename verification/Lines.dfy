/** Line reassembly in the client loop (src/server.c, `handleClient`). */
module Lines {
  import opened Words

  const NEWLINE: Byte := 10
  const INBUF_SIZE := 8192
  const PIECE_MAX := 1024
  const LINE_MAX := 1023

  type Bytes = seq<Byte>

  // ---------------------------------------------------------------------------
  // The lines of a byte string
  // ---------------------------------------------------------------------------

  /** The newline-terminated pieces of `b`, each with its newline. */
  function SplitLines(b: Bytes): seq<Bytes> {
    if b == [] then []
    else
      var front, last := b[..|b| - 1], b[|b| - 1];
      if last == NEWLINE then SplitLines(front) + [Tail(front) + [last]] else SplitLines(front)
  }

  /** What follows the last newline of `b`. */
  function Tail(b: Bytes): Bytes {
    if b == [] || b[|b| - 1] == NEWLINE then [] else Tail(b[..|b| - 1]) + [b[|b| - 1]]
  }

  function Min(a: int, b: int): int {
    if a < b then a else b
  }

  /** A line as it is copied for the parser: cut at 1023 bytes. */
  function Cut(line: Bytes): Bytes {
    if |line| < LINE_MAX then line else line[..LINE_MAX]
  }

  function CutAll(lines: seq<Bytes>): (r: seq<Bytes>)
    ensures |r| == |lines|
  {
    seq(|lines|, i requires 0 <= i < |lines| => Cut(lines[i]))
  }

  /** The lines up to and including the first one that quits. */
  function UpToQuit(lines: seq<Bytes>, quits: Bytes -> bool): seq<Bytes> {
    if lines == [] then []
    else if quits(lines[0]) then [lines[0]]
    else [lines[0]] + UpToQuit(lines[1..], quits)
  }

  predicate AnyQuits(lines: seq<Bytes>, quits: Bytes -> bool) {
    lines != [] && (quits(lines[0]) || AnyQuits(lines[1..], quits))
  }

  lemma {:induction false} SplitConcat(a: Bytes, b: Bytes)
    ensures SplitLines(a + b) == SplitLines(a) + SplitLines(Tail(a) + b)
    ensures Tail(a + b) == Tail(Tail(a) + b)
  {
    hide SplitLines, Tail;
    if b == [] {
      assert a + b == a && Tail(a) + b == Tail(a);
      TailHasNoLines(a);
    } else {
      var front, last := b[..|b| - 1], b[|b| - 1];
      SplitConcat(a, front);
      SplitStep(a + front, last);
      SplitStep(Tail(a) + front, last);
      Regroup(a, front, last, b);
      Regroup(Tail(a), front, last, b);
      var more := if last == NEWLINE then [Tail(a + front) + [last]] else [];
      Associate(SplitLines(a), SplitLines(Tail(a) + front), more);
    }
  }

  lemma Associate(a: seq<Bytes>, b: seq<Bytes>, c: seq<Bytes>)
    ensures (a + b) + c == a + (b + c)
  {
  }

  lemma Regroup(a: Bytes, front: Bytes, last: Byte, b: Bytes)
    requires b == front + [last]
    ensures a + b == (a + front) + [last]
  {
  }

  lemma SplitStep(b: Bytes, last: Byte)
    ensures SplitLines(b + [last]) == SplitLines(b) + (if last == NEWLINE then [Tail(b) + [last]] else [])
    ensures Tail(b + [last]) == (if last == NEWLINE then [] else Tail(b) + [last])
  {
    assert (b + [last])[..|b|] == b;
  }

  lemma {:induction false} TailHasNoLines(b: Bytes)
    ensures SplitLines(Tail(b)) == [] && Tail(Tail(b)) == Tail(b)
    ensures NEWLINE !in Tail(b)
  {
    if b != [] && b[|b| - 1] != NEWLINE {
      var front := b[..|b| - 1];
      TailHasNoLines(front);
      assert Tail(b)[..|Tail(b)| - 1] == Tail(front);
    }
  }

  lemma {:induction false} NoNewlineIsTail(b: Bytes)
    requires NEWLINE !in b
    ensures Tail(b) == b && SplitLines(b) == []
  {
    if b != [] {
      assert b[|b| - 1] in b;
      NoNewlineIsTail(b[..|b| - 1]);
      assert b == b[..|b| - 1] + [b[|b| - 1]];
    }
  }

  // ---------------------------------------------------------------------------
  // The loop on values
  // ---------------------------------------------------------------------------

  /** A received piece does not fit behind what is pending: the buffer is reset and
      the piece is dropped. */
  predicate Overflows(pending: Bytes, piece: Bytes) {
    |pending| + |piece| >= INBUF_SIZE - 1
  }

  /** The lines handed to the parser for the pieces still to come. */
  function Session(pending: Bytes, pieces: seq<Bytes>, quits: Bytes -> bool): seq<Bytes>
    decreases |pieces|
  {
    if pieces == [] then []
    else if Overflows(pending, pieces[0]) then Session([], pieces[1..], quits)
    else
      var all := pending + pieces[0];
      var lines := CutAll(SplitLines(all));
      if AnyQuits(lines, quits) then UpToQuit(lines, quits)
      else lines + Session(Tail(all), pieces[1..], quits)
  }

  /** The reset fires before a line quits. */
  predicate Fires(pending: Bytes, pieces: seq<Bytes>, quits: Bytes -> bool)
    decreases |pieces|
  {
    pieces != [] &&
    (Overflows(pending, pieces[0]) ||
     (!AnyQuits(CutAll(SplitLines(pending + pieces[0])), quits)
      && Fires(Tail(pending + pieces[0]), pieces[1..], quits)))
  }

  function Join(pieces: seq<Bytes>): Bytes {
    if pieces == [] then [] else pieces[0] + Join(pieces[1..])
  }

  /** What `recv` can deliver: pieces of 1 to 1024 bytes. */
  predicate Received(pieces: seq<Bytes>) {
    forall i :: 0 <= i < |pieces| ==> 1 <= |pieces[i]| <= PIECE_MAX
  }

  lemma {:induction false} UpToQuitConcat(a: seq<Bytes>, b: seq<Bytes>, quits: Bytes -> bool)
    ensures UpToQuit(a + b, quits)
            == (if AnyQuits(a, quits) then UpToQuit(a, quits) else a + UpToQuit(b, quits))
  {
    if a == [] {
      assert a + b == b;
      NothingQuits(quits);
    } else {
      hide UpToQuit, AnyQuits;
      UpToQuitConcat(a[1..], b, quits);
      FirstOfConcat(a, b);
      FirstOfConcat(a, UpToQuit(b, quits));
      QuitStep(a, quits);
      QuitStep(a + b, quits);
    }
  }

  lemma NothingQuits(quits: Bytes -> bool)
    ensures !AnyQuits([], quits) && UpToQuit([], quits) == []
  {
  }

  lemma FirstOfConcat(a: seq<Bytes>, b: seq<Bytes>)
    requires a != []
    ensures (a + b)[0] == a[0] && (a + b)[1..] == a[1..] + b && [a[0]] + (a[1..] + b) == a + b
  {
  }

  lemma QuitStep(lines: seq<Bytes>, quits: Bytes -> bool)
    requires lines != []
    ensures AnyQuits(lines, quits) == (quits(lines[0]) || AnyQuits(lines[1..], quits))
    ensures UpToQuit(lines, quits) == [lines[0]] + (if quits(lines[0]) then [] else UpToQuit(lines[1..], quits))
  {
  }

  lemma {:induction false} AnyQuitsConcat(a: seq<Bytes>, b: seq<Bytes>, quits: Bytes -> bool)
    ensures AnyQuits(a + b, quits) == (AnyQuits(a, quits) || AnyQuits(b, quits))
  {
    if a == [] {
      assert a + b == b;
    } else {
      hide AnyQuits;
      AnyQuitsConcat(a[1..], b, quits);
      FirstOfConcat(a, b);
      QuitStep(a, quits);
      QuitStep(a + b, quits);
    }
  }

  /** Whether a line of `a + b` quits: one of the lines `a` completes, or one of those
      completed later. */
  lemma QuitsConcat(a: Bytes, b: Bytes, quits: Bytes -> bool)
    ensures AnyQuits(CutAll(SplitLines(a + b)), quits)
            == (AnyQuits(CutAll(SplitLines(a)), quits) || AnyQuits(CutAll(SplitLines(Tail(a) + b)), quits))
  {
    hide SplitLines, Tail, CutAll, AnyQuits;
    SplitConcat(a, b);
    CutConcat(SplitLines(a), SplitLines(Tail(a) + b));
    AnyQuitsConcat(CutAll(SplitLines(a)), CutAll(SplitLines(Tail(a) + b)), quits);
  }

  /** As long as the reset does not fire, the way the stream was cut up is invisible:
      the parser gets the lines of the stream, cut, up to the one that quits. */
  lemma {:induction false} SessionIsLines(pending: Bytes, pieces: seq<Bytes>, quits: Bytes -> bool)
    requires !Fires(pending, pieces, quits) && NEWLINE !in pending
    ensures Session(pending, pieces, quits) == UpToQuit(CutAll(SplitLines(pending + Join(pieces))), quits)
    decreases |pieces|
  {
    hide SplitLines, Tail, CutAll, AnyQuits, UpToQuit;
    if pieces == [] {
      assert pending + Join(pieces) == pending;
      NoNewlineIsTail(pending);
      NothingToCut(quits);
    } else {
      var all, rest := pending + pieces[0], Join(pieces[1..]);
      SplitConcat(all, rest);
      assert pending + Join(pieces) == all + rest;
      TailHasNoLines(all);
      if !AnyQuits(CutAll(SplitLines(all)), quits) {
        SessionIsLines(Tail(all), pieces[1..], quits);
      }
      CutConcat(SplitLines(all), SplitLines(Tail(all) + rest));
      UpToQuitConcat(CutAll(SplitLines(all)), CutAll(SplitLines(Tail(all) + rest)), quits);
    }
  }

  lemma NothingToCut(quits: Bytes -> bool)
    ensures UpToQuit(CutAll([]), quits) == [] && !AnyQuits(CutAll([]), quits)
  {
  }

  lemma CutConcat(a: seq<Bytes>, b: seq<Bytes>)
    ensures CutAll(a + b) == CutAll(a) + CutAll(b)
  {
  }

  // ---------------------------------------------------------------------------
  // When the reset can fire
  // ---------------------------------------------------------------------------

  /** Offset `o` is where a line of the stream starts. */
  predicate LineStart(stream: Bytes, o: nat) {
    o <= |stream| && (o == 0 || stream[o - 1] == NEWLINE)
  }

  /** Some line runs on for 7167 bytes without a newline, with at least 1024 more
      bytes of the stream to come, and no line before it quits. */
  ghost predicate Risky(stream: Bytes, quits: Bytes -> bool) {
    exists o: nat :: LineStart(stream, o) && RunsOn(stream, o) && !AnyQuits(CutAll(SplitLines(stream[..o])), quits)
  }

  predicate RunsOn(stream: Bytes, o: nat) {
    o + 8191 <= |stream| && 10 !in stream[o..o + 7167]
  }

  lemma {:induction false} FiresConcat(pending: Bytes, a: seq<Bytes>, b: seq<Bytes>, quits: Bytes -> bool)
    requires NEWLINE !in pending
    ensures Fires(pending, a + b, quits) <==>
              Fires(pending, a, quits)
              || (!AnyQuits(CutAll(SplitLines(pending + Join(a))), quits) && Fires(Tail(pending + Join(a)), b, quits))
    decreases |a|
  {
    hide Tail, SplitLines, CutAll, AnyQuits;
    if a == [] {
      assert a + b == b && pending + Join(a) == pending;
      NoNewlineIsTail(pending);
      NothingToCut(quits);
    } else {
      assert (a + b)[1..] == a[1..] + b;
      var all := pending + a[0];
      TailHasNoLines(all);
      FiresConcat(Tail(all), a[1..], b, quits);
      SplitConcat(all, Join(a[1..]));
      QuitsConcat(all, Join(a[1..]), quits);
      assert pending + Join(a) == all + Join(a[1..]);
    }
  }

  /** The tail of a prefix is the part of the line that has begun. */
  lemma {:induction false} TailStart(b: Bytes)
    ensures |Tail(b)| <= |b| && Tail(b) == b[|b| - |Tail(b)|..]
    ensures LineStart(b, |b| - |Tail(b)|)
  {
    if b != [] && b[|b| - 1] != NEWLINE {
      var front := b[..|b| - 1];
      TailStart(front);
      assert b == front + [b[|b| - 1]];
    }
  }

  /** Where the line that has begun starts, nothing after it is complete. */
  lemma LinesUpToTail(b: Bytes)
    ensures |Tail(b)| <= |b| && SplitLines(b[..|b| - |Tail(b)|]) == SplitLines(b)
  {
    TailStart(b);
    TailHasNoLines(b);
    var o := |b| - |Tail(b)|;
    LinesUpTo(b, o);
  }

  lemma LinesUpTo(b: Bytes, o: nat)
    requires LineStart(b, o) && NEWLINE !in b[o..]
    ensures SplitLines(b[..o]) == SplitLines(b) && Tail(b) == b[o..]
  {
    assert b == b[..o] + b[o..];
    SplitConcat(b[..o], b[o..]);
    assert o > 0 ==> b[..o][|b[..o]| - 1] == NEWLINE;
    assert Tail(b[..o]) == [];
    assert Tail(b[..o]) + b[o..] == b[o..];
    NoNewlineIsTail(b[o..]);
  }

  lemma {:induction false} FiresMeansRisky(before: Bytes, pieces: seq<Bytes>, quits: Bytes -> bool)
    requires Received(pieces) && Fires(Tail(before), pieces, quits)
    requires !AnyQuits(CutAll(SplitLines(before)), quits)
    ensures Risky(before + Join(pieces), quits)
    decreases |pieces|
  {
    hide Tail, Risky, SplitLines, CutAll, AnyQuits;
    var piece, rest := pieces[0], Join(pieces[1..]);
    if Overflows(Tail(before), piece) {
      OverflowMeansRisky(before, piece + rest, quits);
    } else {
      var next := before + piece;
      SplitConcat(before, piece);
      QuitsConcat(before, piece, quits);
      FiresMeansRisky(next, pieces[1..], quits);
      assert next + rest == before + (piece + rest);
    }
  }

  lemma OverflowMeansRisky(before: Bytes, more: Bytes, quits: Bytes -> bool)
    requires |Tail(before)| >= INBUF_SIZE - 1 - PIECE_MAX && |Tail(before)| + |more| >= INBUF_SIZE - 1
    requires !AnyQuits(CutAll(SplitLines(before)), quits)
    ensures Risky(before + more, quits)
  {
    hide Tail, SplitLines, CutAll, AnyQuits;
    var stream, pending := before + more, Tail(before);
    TailStart(before);
    TailHasNoLines(before);
    LinesUpToTail(before);
    var o: nat := |before| - |pending|;
    assert stream[o..o + INBUF_SIZE - 1 - PIECE_MAX] == pending[..INBUF_SIZE - 1 - PIECE_MAX];
    assert stream[..o] == before[..o];
    assert LineStart(stream, o);
  }

  /** A byte string, one byte at a time. */
  function Singles(b: Bytes): (pieces: seq<Bytes>)
    ensures Received(pieces) && |pieces| == |b|
  {
    seq(|b|, i requires 0 <= i < |b| => [b[i]])
  }

  lemma {:induction false} JoinSingles(b: Bytes)
    ensures Join(Singles(b)) == b
  {
    if b != [] {
      JoinSingles(b[1..]);
      assert Singles(b)[1..] == Singles(b[1..]);
    }
  }

  lemma {:induction false} JoinConcat(a: seq<Bytes>, b: seq<Bytes>)
    ensures Join(a + b) == Join(a) + Join(b)
  {
    if a == [] {
      assert a + b == b;
    } else {
      assert (a + b)[1..] == a[1..] + b;
      JoinConcat(a[1..], b);
    }
  }

  lemma JoinOne(piece: Bytes)
    ensures Join([piece]) == piece
  {
    var one := [piece];
    assert one[1..] == [] && piece + [] == piece;
  }

  lemma RiskyCanFire(stream: Bytes, quits: Bytes -> bool)
    requires Risky(stream, quits)
    ensures exists pieces :: Received(pieces) && Join(pieces) == stream && Fires([], pieces, quits)
  {
    var o: nat :| LineStart(stream, o) && RunsOn(stream, o) && !AnyQuits(CutAll(SplitLines(stream[..o])), quits);
    var pieces := CutLongLine(stream, o, quits);
  }

  lemma CutLongLine(stream: Bytes, o: nat, quits: Bytes -> bool) returns (pieces: seq<Bytes>)
    requires LineStart(stream, o) && RunsOn(stream, o) && !AnyQuits(CutAll(SplitLines(stream[..o])), quits)
    ensures Received(pieces) && Join(pieces) == stream && Fires([], pieces, quits)
  {
    hide Tail, SplitLines, CutAll, AnyQuits, Fires, Join, Received;
    var m, n := o + INBUF_SIZE - 1 - PIECE_MAX, o + INBUF_SIZE - 1;
    var prefix, piece, suffix := stream[..m], stream[m..n], stream[n..];
    assert prefix[o..] == stream[o..m] && prefix[..o] == stream[..o];
    LinesUpTo(prefix, o);
    pieces := CutOut(prefix, piece, suffix, quits);
    assert prefix + (piece + suffix) == stream;
  }

  /** One long piece, everything around it one byte at a time. */
  lemma CutOut(prefix: Bytes, piece: Bytes, suffix: Bytes, quits: Bytes -> bool) returns (pieces: seq<Bytes>)
    requires 1 <= |piece| <= PIECE_MAX && Overflows(Tail(prefix), piece)
    requires !AnyQuits(CutAll(SplitLines(prefix)), quits)
    ensures Received(pieces) && Join(pieces) == prefix + (piece + suffix) && Fires([], pieces, quits)
  {
    hide Tail, SplitLines, CutAll, AnyQuits;
    var a, b := Singles(prefix), [piece] + Singles(suffix);
    pieces := a + b;
    JoinSingles(prefix);
    JoinSingles(suffix);
    JoinConcat(a, b);
    JoinConcat([piece], Singles(suffix));
    JoinOne(piece);
    FiresConcat([], a, b, quits);
    assert [] + Join(a) == prefix;
    assert b[0] == piece;
  }

  /** Some way of cutting up a stream makes the reset fire before a line quits exactly
      when some line runs on for 7167 bytes with at least 1024 more bytes to come and
      no line before it quits. */
  lemma ResetCanFireIff(stream: Bytes, quits: Bytes -> bool)
    ensures (exists pieces :: Received(pieces) && Join(pieces) == stream && Fires([], pieces, quits))
            <==> Risky(stream, quits)
  {
    if Risky(stream, quits) {
      RiskyCanFire(stream, quits);
    }
    if exists pieces :: Received(pieces) && Join(pieces) == stream && Fires([], pieces, quits) {
      var pieces :| Received(pieces) && Join(pieces) == stream && Fires([], pieces, quits);
      NothingToCut(quits);
      FiresMeansRisky([], pieces, quits);
      assert [] + Join(pieces) == stream;
    }
  }

  /** Bytes of an unfinished line that arrive one by one are only kept. */
  lemma {:induction false} QuietBytes(pending: Bytes, more: Bytes, rest: seq<Bytes>, quits: Bytes -> bool)
    requires NEWLINE !in pending && NEWLINE !in more && |pending| + |more| < INBUF_SIZE - 1
    ensures Session(pending, Singles(more) + rest, quits) == Session(pending + more, rest, quits)
    decreases |more|
  {
    hide SplitLines, Tail, UpToQuit;
    if more == [] {
      assert Singles(more) + rest == rest && pending + more == pending;
    } else {
      var pieces, all := Singles(more) + rest, pending + [more[0]];
      assert pieces[0] == [more[0]] && pieces[1..] == Singles(more[1..]) + rest;
      assert more[0] in more;
      NoNewlineIsTail(all);
      assert CutAll([]) == [] && [] + Session(all, pieces[1..], quits) == Session(all, pieces[1..], quits);
      QuietBytes(all, more[1..], rest, quits);
      assert all + more[1..] == pending + more;
    }
  }

  /** A line of 7167 zeros and its newline, then 1023 zeros. With the last 1024 bytes in
      one piece the line is lost; with the newline in a piece of its own it is handed
      out. */
  lemma CutChangesAnswer(quits: Bytes -> bool)
    ensures exists a, b :: Received(a) && Received(b) && Join(a) == Join(b)
              && Session([], a, quits) == [] && Session([], b, quits) != []
  {
    var zeros: Bytes := seq(INBUF_SIZE - 1 - PIECE_MAX, _ => 0);
    var last: Bytes := seq(PIECE_MAX - 1, _ => 0);
    assert NEWLINE !in zeros;
    TwoCuts(zeros, last, quits);
  }

  lemma TwoCuts(line: Bytes, last: Bytes, quits: Bytes -> bool)
    requires NEWLINE !in line && |line| == INBUF_SIZE - 1 - PIECE_MAX && |last| == PIECE_MAX - 1
    ensures exists a, b :: Received(a) && Received(b) && Join(a) == Join(b)
              && Session([], a, quits) == [] && Session([], b, quits) != []
  {
    hide Session, Join;
    var whole, split := [[NEWLINE] + last], [[NEWLINE], last];
    var a, b := Singles(line) + whole, Singles(line) + split;
    QuietBytes([], line, whole, quits);
    QuietBytes([], line, split, quits);
    assert [] + line == line;
    JoinConcat(Singles(line), whole);
    JoinConcat(Singles(line), split);
    JoinPieces(last);
    LineIsLost(line, whole[0], quits);
    LineIsHandedOut(line, last, quits);
    ReceivedConcat(Singles(line), whole);
    ReceivedConcat(Singles(line), split);
  }

  lemma ReceivedConcat(a: seq<Bytes>, b: seq<Bytes>)
    requires Received(a) && Received(b)
    ensures Received(a + b)
  {
  }

  lemma JoinPieces(last: Bytes)
    ensures Join([[NEWLINE] + last]) == Join([[NEWLINE], last])
  {
    JoinOne([NEWLINE] + last);
    JoinOne(last);
    var split := [[NEWLINE], last];
    assert split[1..] == [last];
  }

  lemma LineIsLost(pending: Bytes, piece: Bytes, quits: Bytes -> bool)
    requires Overflows(pending, piece)
    ensures Session(pending, [piece], quits) == []
  {
    var pieces := [piece];
    assert pieces[1..] == [];
  }

  /** After a reset nothing is left of what was pending: the next line comes alone. */
  lemma LineAfterReset(pending: Bytes, piece: Bytes, line: Bytes, quits: Bytes -> bool)
    requires Overflows(pending, piece) && NEWLINE !in line && |line| < 1023
    ensures Session(pending, [piece, line + [NEWLINE]], quits) == [line + [NEWLINE]]
  {
    hide SplitLines, Tail, Cut;
    OneLine(line);
    var whole := line + [NEWLINE];
    CutIsPrefix(whole);
    assert whole[..|whole|] == whole;
    var pieces, next := [piece, whole], [whole];
    assert pieces[1..] == next && next[1..] == [] && [] + whole == whole;
    assert CutAll(next) == next;
    OneQuits(whole, quits);
    assert next + [] == next;
    assert !Overflows([], whole);
    hide AnyQuits, UpToQuit, CutAll;
    SessionStep([], next, 0, quits);
    SessionEnd(Tail(whole), next[1..], quits);
    assert next[0..] == next && Session([], next, quits) == next;
  }

  lemma LineIsHandedOut(pending: Bytes, last: Bytes, quits: Bytes -> bool)
    requires NEWLINE !in pending && |pending| + 1 < INBUF_SIZE - 1
    ensures Session(pending, [[NEWLINE], last], quits) != []
  {
    hide SplitLines, Tail, Cut;
    OneLine(pending);
    var pieces := [[NEWLINE], last];
    var lines := CutAll([pending + [NEWLINE]]);
    assert lines == [Cut(pending + [NEWLINE])];
    OneQuits(lines[0], quits);
  }

  /** However a stream is cut into pieces of 1 to 1024 bytes: if no line runs on that
      long before a line quits, the parser gets the newline-terminated pieces of the
      stream in order, each cut at 1023 bytes, up to the one that quits. */
  lemma SegmentationIndependence(stream: Bytes, pieces: seq<Bytes>, quits: Bytes -> bool)
    requires Received(pieces) && Join(pieces) == stream && !Risky(stream, quits)
    ensures Session([], pieces, quits) == UpToQuit(CutAll(SplitLines(stream)), quits)
  {
    hide Risky, Fires, SplitLines, CutAll, UpToQuit;
    ResetCanFireIff(stream, quits);
    SessionIsLines([], pieces, quits);
    assert [] + Join(pieces) == stream;
  }

  /** A line of at most 1023 bytes is handed out whole, a longer one cut to that. */
  lemma CutIsPrefix(line: Bytes)
    ensures Cut(line) == line[..Min(|line|, 1023)]
  {
  }

  /** Under the same condition every line the parser gets is the beginning of a line of
      the stream: the first 1023 bytes of it, or all if it has no more. */
  lemma HandedLines(stream: Bytes, pieces: seq<Bytes>, quits: Bytes -> bool)
    requires Received(pieces) && Join(pieces) == stream && !Risky(stream, quits)
    ensures var handed, lines := Session([], pieces, quits), SplitLines(stream);
            && |handed| <= |lines|
            && (forall i :: 0 <= i < |handed| ==> handed[i] == lines[i][..Min(|lines[i]|, 1023)])
            && (forall i :: 0 <= i < |handed| - 1 ==> !quits(handed[i]))
            && (handed == [] || quits(handed[|handed| - 1]) || |handed| == |lines|)
            && (handed == [] ==> lines == [])
  {
    hide Risky, SplitLines, Cut, UpToQuit, Session;
    SegmentationIndependence(stream, pieces, quits);
    var lines := SplitLines(stream);
    UpToQuitIsPrefix(CutAll(lines), quits);
    forall i | 0 <= i < |lines|
      ensures CutAll(lines)[i] == lines[i][..Min(|lines[i]|, 1023)]
    {
      CutIsPrefix(lines[i]);
    }
  }

  /** The lines up to the one that quits: the first lines, none of which quits but
      perhaps the last, and all of them if none does. */
  lemma {:induction false} UpToQuitIsPrefix(lines: seq<Bytes>, quits: Bytes -> bool)
    ensures var handed := UpToQuit(lines, quits);
            && handed <= lines
            && (forall i :: 0 <= i < |handed| - 1 ==> !quits(handed[i]))
            && (handed == [] || quits(handed[|handed| - 1]) || handed == lines)
            && (handed == [] ==> lines == [])
  {
    if lines != [] && !quits(lines[0]) {
      var later := UpToQuit(lines[1..], quits);
      UpToQuitIsPrefix(lines[1..], quits);
      var handed := UpToQuit(lines, quits);
      assert handed == [lines[0]] + later && lines == [lines[0]] + lines[1..];
      forall i | 0 <= i < |handed| - 1
        ensures !quits(handed[i])
      {
        assert i > 0 ==> handed[i] == later[i - 1];
      }
      if later != [] {
        assert handed[|handed| - 1] == later[|later| - 1];
      }
    }
  }

  /** If besides no line has more than 1023 bytes, the parser gets the very lines. */
  lemma ShortLinesAreWhole(stream: Bytes, pieces: seq<Bytes>, quits: Bytes -> bool)
    requires Received(pieces) && Join(pieces) == stream && !Risky(stream, quits)
    requires forall line :: line in SplitLines(stream) ==> |line| <= 1023
    ensures Session([], pieces, quits) == UpToQuit(SplitLines(stream), quits)
  {
    hide Risky, SplitLines, Cut, UpToQuit, Session;
    SegmentationIndependence(stream, pieces, quits);
    var lines := SplitLines(stream);
    forall i | 0 <= i < |lines|
      ensures CutAll(lines)[i] == lines[i]
    {
      assert lines[i] in lines;
      CutIsPrefix(lines[i]);
    }
    assert CutAll(lines) == lines;
  }

  /** One newline, at the end. */
  predicate IsLine(line: Bytes) {
    line != [] && line[|line| - 1] == 10 && 10 !in line[..|line| - 1]
  }

  /** The lines of a stream are the stream, cut behind its newlines: put together with
      the rest they give it back, and each holds one newline, at its end. */
  lemma {:induction false} LinesPartition(stream: Bytes)
    ensures Join(SplitLines(stream)) + Tail(stream) == stream
    ensures forall line :: line in SplitLines(stream) ==> IsLine(line)
    ensures 10 !in Tail(stream)
  {
    hide SplitLines, Tail, IsLine, Join;
    TailHasNoLines(stream);
    if stream == [] {
      EmptyStream();
    } else {
      var front, last := stream[..|stream| - 1], stream[|stream| - 1];
      LinesPartition(front);
      SplitStep(front, last);
      assert stream == front + [last];
      if last == NEWLINE {
        NewLine(SplitLines(front), Tail(front));
      } else {
        AssociateBytes(Join(SplitLines(front)), Tail(front), [last]);
        assert SplitLines(front) + [] == SplitLines(front);
      }
    }
  }

  lemma EmptyStream()
    ensures SplitLines([]) == [] && Tail([]) == [] && Join([]) == []
  {
  }

  lemma NewLine(lines: seq<Bytes>, tail: Bytes)
    requires 10 !in tail
    ensures IsLine(tail + [NEWLINE])
    ensures Join(lines + [tail + [NEWLINE]]) + [] == Join(lines) + tail + [NEWLINE]
  {
    var line := tail + [NEWLINE];
    assert line[..|line| - 1] == tail;
    hide Join;
    JoinConcat(lines, [line]);
    JoinOne(line);
    AssociateBytes(Join(lines), tail, [NEWLINE]);
  }

  lemma AssociateBytes(a: Bytes, b: Bytes, c: Bytes)
    ensures (a + b) + c == a + (b + c)
  {
  }

  /** In particular when every line, its newline included, and the unfinished rest
      have at most 7167 bytes. */
  lemma ShortLinesAreSafe(stream: Bytes, quits: Bytes -> bool)
    requires (forall line :: line in SplitLines(stream) ==> |line| <= INBUF_SIZE - 1 - PIECE_MAX)
    requires |Tail(stream)| <= INBUF_SIZE - 1 - PIECE_MAX
    ensures !Risky(stream, quits)
  {
    if Risky(stream, quits) {
      var o: nat :| LineStart(stream, o) && RunsOn(stream, o) && !AnyQuits(CutAll(SplitLines(stream[..o])), quits);
      assert stream[..|stream|] == stream;
      LongLineExists(stream, o, INBUF_SIZE - 1 - PIECE_MAX, |stream|);
    }
  }

  /** A line that starts at `o` and has no newline in its first `k` bytes is longer
      than `k`, or is the unfinished rest. */
  lemma {:induction false} LongLineExists(stream: Bytes, o: nat, k: nat, n: nat)
    requires LineStart(stream, o) && o + k < n <= |stream| && NEWLINE !in stream[o..o + k]
    ensures |Tail(stream[..n])| > k || exists line :: line in SplitLines(stream[..n]) && |line| > k
    decreases n
  {
    var b := stream[..n];
    var front := b[..n - 1];
    assert front == stream[..n - 1];
    if n == o + k + 1 {
      assert front[o..] == stream[o..o + k];
      assert LineStart(front, o);
      LinesUpTo(front, o);
      if b[n - 1] == NEWLINE {
        var line := Tail(front) + [b[n - 1]];
        assert line in SplitLines(b);
      }
    } else {
      LongLineExists(stream, o, k, n - 1);
      if |Tail(front)| > k {
        if b[n - 1] == NEWLINE {
          var line := Tail(front) + [b[n - 1]];
          assert line in SplitLines(b);
        }
      } else {
        var line :| line in SplitLines(front) && |line| > k;
        assert line in SplitLines(b);
      }
    }
  }

  // ---------------------------------------------------------------------------
  // The loop on the buffer
  // ---------------------------------------------------------------------------

  /** A piece that ends with its only newline is one line. */
  lemma OneLine(line: Bytes)
    requires NEWLINE !in line
    ensures SplitLines(line + [NEWLINE]) == [line + [NEWLINE]] && Tail(line + [NEWLINE]) == []
  {
    NoNewlineIsTail(line);
    SplitStep(line, NEWLINE);
  }

  /** What the inner loop has done when it stands at a line start. */
  ghost predicate Scanned(all: Bytes, at: nat, handed: seq<Bytes>, quits: Bytes -> bool) {
    && at <= |all|
    && Tail(all[..at]) == []
    && handed == CutAll(SplitLines(all[..at]))
    && !AnyQuits(handed, quits)
  }

  lemma ScanStart(all: Bytes, quits: Bytes -> bool)
    ensures Scanned(all, 0, [], quits)
  {
    assert all[..0] == [];
  }

  /** One more line, found at the next newline. */
  lemma ScanStep(all: Bytes, at: nat, nl: nat, handed: seq<Bytes>, quits: Bytes -> bool)
    requires Scanned(all, at, handed, quits) && at <= nl < |all| && all[nl] == NEWLINE && NEWLINE !in all[at..nl]
    ensures var line := Cut(all[at..nl + 1]);
            && (quits(line) ==> AnyQuits(CutAll(SplitLines(all)), quits)
                                && handed + [line] == UpToQuit(CutAll(SplitLines(all)), quits))
            && (!quits(line) ==> Scanned(all, nl + 1, handed + [line], quits))
  {
    hide SplitLines, Tail, Cut, CutAll, AnyQuits, UpToQuit;
    var line := Cut(all[at..nl + 1]);
    ScanUpto(all, at, nl, handed, quits);
    var more := LinesAfter(all, nl + 1);
    assert CutAll(SplitLines(all)) == handed + [line] + more;
    QuitHere(handed, line, more, quits);
  }

  /** The lines of a string are those of a prefix and some more. */
  lemma LinesAfter(all: Bytes, n: nat) returns (more: seq<Bytes>)
    requires n <= |all|
    ensures CutAll(SplitLines(all)) == CutAll(SplitLines(all[..n])) + more
  {
    hide SplitLines, Tail, Cut;
    assert all == all[..n] + all[n..];
    SplitConcat(all[..n], all[n..]);
    more := CutAll(SplitLines(Tail(all[..n]) + all[n..]));
    CutConcat(SplitLines(all[..n]), SplitLines(Tail(all[..n]) + all[n..]));
  }

  /** The lines so far do not quit: whether the next one does decides. */
  lemma QuitHere(handed: seq<Bytes>, line: Bytes, more: seq<Bytes>, quits: Bytes -> bool)
    requires !AnyQuits(handed, quits)
    ensures quits(line) ==> AnyQuits(handed + [line] + more, quits)
                            && UpToQuit(handed + [line] + more, quits) == handed + [line]
    ensures !quits(line) ==> !AnyQuits(handed + [line], quits)
  {
    hide AnyQuits, UpToQuit;
    AnyQuitsConcat(handed, [line], quits);
    AnyQuitsConcat(handed + [line], more, quits);
    UpToQuitConcat(handed, [line], quits);
    UpToQuitConcat(handed + [line], more, quits);
    OneQuits(line, quits);
  }

  lemma SliceLast(all: Bytes, at: nat, nl: nat)
    requires at <= nl < |all|
    ensures all[at..nl + 1] == all[at..nl] + [all[nl]]
    ensures all[..nl + 1] == all[..at] + all[at..nl + 1]
  {
  }

  lemma ScanUpto(all: Bytes, at: nat, nl: nat, handed: seq<Bytes>, quits: Bytes -> bool)
    requires Scanned(all, at, handed, quits) && at <= nl < |all| && all[nl] == NEWLINE && NEWLINE !in all[at..nl]
    ensures Tail(all[..nl + 1]) == []
    ensures CutAll(SplitLines(all[..nl + 1])) == handed + [Cut(all[at..nl + 1])]
  {
    hide SplitLines, Tail, Cut, AnyQuits;
    var line := all[at..nl + 1];
    SliceLast(all, at, nl);
    OneLine(all[at..nl]);
    SplitConcat(all[..at], line);
    assert [] + line == line;
    CutConcat(SplitLines(all[..at]), [line]);
    assert CutAll([line]) == [Cut(line)];
  }

  lemma OneQuits(line: Bytes, quits: Bytes -> bool)
    ensures AnyQuits([line], quits) == quits(line) && UpToQuit([line], quits) == [line]
  {
    var one := [line];
    assert one[1..] == [] && [line] + [] == one;
  }

  /** No newline is left. */
  lemma ScanEnd(all: Bytes, at: nat, handed: seq<Bytes>, quits: Bytes -> bool)
    requires Scanned(all, at, handed, quits) && NEWLINE !in all[at..]
    ensures handed == CutAll(SplitLines(all)) && Tail(all) == all[at..]
  {
    assert all == all[..at] + all[at..];
    SplitConcat(all[..at], all[at..]);
    assert [] + all[at..] == all[at..];
    NoNewlineIsTail(all[at..]);
    assert SplitLines(all[..at]) + [] == SplitLines(all[..at]);
  }

  class Connection {
    const inbuf: array<Byte>
    var inlen: nat

    ghost predicate Valid()
      reads this
    {
      inbuf.Length == INBUF_SIZE && inlen < INBUF_SIZE - 1
    }

    /** The bytes of a line that has begun. */
    ghost function Pending(): Bytes
      reads this, inbuf
      requires Valid()
    {
      inbuf[..inlen]
    }

    constructor ()
      ensures Valid() && fresh(inbuf) && Pending() == []
    {
      inbuf := new Byte[INBUF_SIZE](_ => 0);
      inlen := 0;
    }

    /** `memchr` for a newline. */
    method FindNewline(from: nat) returns (found: bool, nl: nat)
      requires Valid() && from <= inlen
      ensures found ==> from <= nl < inlen && Pending()[nl] == NEWLINE && NEWLINE !in Pending()[from..nl]
      ensures !found ==> NEWLINE !in Pending()[from..]
    {
      nl := from;
      while nl < inlen
        invariant from <= nl <= inlen
        invariant NEWLINE !in Pending()[from..nl]
      {
        assert Pending()[from..nl + 1] == Pending()[from..nl] + [inbuf[nl]];
        if inbuf[nl] == NEWLINE {
          return true, nl;
        }
        nl := nl + 1;
      }
      found := false;
    }

    /** Put a received piece behind what is pending. */
    method Store(piece: Bytes)
      requires Valid() && !Overflows(Pending(), piece)
      modifies this, inbuf
      ensures Valid() && Pending() == old(Pending()) + piece
    {
      forall i | 0 <= i < |piece| {
        inbuf[inlen + i] := piece[i];
      }
      inlen := inlen + |piece|;
      inbuf[inlen] := 0;
    }

    /** Move what follows the last line to the front. */
    method Compact(lineStart: nat)
      requires Valid() && lineStart <= inlen
      modifies this, inbuf
      ensures Valid() && Pending() == old(Pending()[lineStart..])
    {
      var remaining := inlen - lineStart;
      forall i | 0 <= i < remaining {
        inbuf[i] := inbuf[lineStart + i];
      }
      inlen := remaining;
      inbuf[inlen] := 0;
    }

    /** Copy a line for the parser, cut at 1023 bytes. */
    method CopyLine(lineStart: nat, nl: nat) returns (line: Bytes)
      requires Valid() && lineStart <= nl < inlen
      ensures line == Cut(Pending()[lineStart..nl + 1])
    {
      var lineLen := nl - lineStart + 1;
      var copyLen := if lineLen < LINE_MAX then lineLen else LINE_MAX;
      line := inbuf[lineStart..lineStart + copyLen];
      ghost var whole := Pending()[lineStart..nl + 1];
      assert |whole| == lineLen && forall i :: 0 <= i < lineLen ==> whole[i] == inbuf[lineStart + i];
      assert line == whole[..copyLen];
    }

    /** Hand out the lines in the buffer, stopping after one that quits. */
    method HandOut(quits: Bytes -> bool) returns (handed: seq<Bytes>, quit: bool)
      requires Valid()
      modifies this, inbuf
      ensures Valid()
      ensures var lines := CutAll(SplitLines(old(Pending())));
              && quit == AnyQuits(lines, quits)
              && handed == (if quit then UpToQuit(lines, quits) else lines)
              && (!quit ==> Pending() == Tail(old(Pending())))
    {
      hide SplitLines, Tail, Cut, CutAll, AnyQuits, UpToQuit, Scanned;
      ghost var all := Pending();
      var lineStart := 0;
      handed := [];
      ScanStart(all, quits);
      while true
        invariant Valid() && Pending() == all && lineStart <= inlen
        invariant Scanned(all, lineStart, handed, quits)
        decreases inlen - lineStart
      {
        var found, nl := FindNewline(lineStart);
        if !found {
          break;
        }
        var line := CopyLine(lineStart, nl);
        ScanStep(all, lineStart, nl, handed, quits);
        handed := handed + [line];
        lineStart := nl + 1;
        if quits(line) {
          return handed, true;
        }
      }
      ScanEnd(all, lineStart, handed, quits);
      ScannedNoQuit(all, lineStart, handed, quits);
      Compact(lineStart);
      quit := false;
    }

    /** The client loop over everything `recv` delivers until the client leaves. */
    method HandleClient(pieces: seq<Bytes>, quits: Bytes -> bool) returns (handed: seq<Bytes>)
      requires Valid() && Received(pieces)
      modifies this, inbuf
      ensures handed == Session(old(Pending()), pieces, quits)
    {
      hide SplitLines, Tail, CutAll, AnyQuits, UpToQuit;
      handed := [];
      var i := 0;
      while i < |pieces|
        invariant 0 <= i <= |pieces| && Valid()
        invariant handed + Session(Pending(), pieces[i..], quits) == Session(old(Pending()), pieces, quits)
      {
        var piece := pieces[i];
        SessionStep(Pending(), pieces, i, quits);
        i := i + 1;
        if inlen + |piece| >= INBUF_SIZE - 1 {
          inlen := 0;
          inbuf[0] := 0;
          continue;
        }
        Store(piece);
        var lines, quit := HandOut(quits);
        ghost var before := handed;
        handed := handed + lines;
        if quit {
          return;
        }
        ghost var later := Session(Pending(), pieces[i..], quits);
        assert before + (lines + later) == handed + later;
      }
      SessionEnd(Pending(), pieces[i..], quits);
      assert handed + [] == handed;
    }
  }

  lemma ScannedNoQuit(all: Bytes, at: nat, handed: seq<Bytes>, quits: Bytes -> bool)
    requires Scanned(all, at, handed, quits)
    ensures !AnyQuits(handed, quits)
  {
  }

  lemma SessionStep(pending: Bytes, pieces: seq<Bytes>, i: nat, quits: Bytes -> bool)
    requires i < |pieces|
    ensures var all := pending + pieces[i];
            var lines := CutAll(SplitLines(all));
            Session(pending, pieces[i..], quits) ==
              if Overflows(pending, pieces[i]) then Session([], pieces[i + 1..], quits)
              else if AnyQuits(lines, quits) then UpToQuit(lines, quits)
              else lines + Session(Tail(all), pieces[i + 1..], quits)
  {
    hide SplitLines, Tail, CutAll, AnyQuits, UpToQuit;
    assert pieces[i..][1..] == pieces[i + 1..];
  }

  lemma SessionEnd(pending: Bytes, pieces: seq<Bytes>, quits: Bytes -> bool)
    requires pieces == []
    ensures Session(pending, pieces, quits) == []
  {
  }
}
