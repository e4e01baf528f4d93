/**
 How a stream ends for the reader of `SseReader`: without a blank line, with a
 `[DONE]` event, or with a line that is too long.
 */
module SseEnds {
  import opened Common
  import opened SseReader

  // ---- lines of a stream that is continued ----

  predicate EndsLine(s: bytes) { s == [] || s[|s| - 1] == NEWLINE }

  lemma {:induction false} LineEndAppend(s: bytes, t: bytes)
    ensures LineEnd(s) < |s| ==> LineEnd(s + t) == LineEnd(s)
    ensures LineEnd(s) == |s| ==> LineEnd(s + t) == |s| + LineEnd(t)
  {
    if s == [] {
      assert s + t == t;
    } else if s[0] != NEWLINE {
      assert (s + t)[1..] == s[1..] + t;
      LineEndAppend(s[1..], t);
    }
  }

  /** Scanning takes one line off. */
  lemma FirstLine(s: bytes)
    requires LineEnd(s) < |s|
    ensures var i := LineEnd(s); var rest := ScanLines(s[i + 1..]);
            ScanLines(s) == if i >= MAX_LINE then Scanned([], true) else Scanned([DropReturn(s[..i])] + rest.lines, rest.tooLong)
  {
  }

  /** And ends at a line that has no end. */
  lemma LastLine(s: bytes)
    requires s != [] && LineEnd(s) == |s|
    ensures ScanLines(s) == if |s| >= MAX_LINE then Scanned([], true) else Scanned([DropReturn(s)], false)
  {
  }

  /** The first line of a stream of whole lines, and what follows it. */
  lemma FirstCut(s: bytes, t: bytes)
    requires s != [] && EndsLine(s)
    ensures var i := LineEnd(s);
            && i < |s| && LineEnd(s + t) == i && (s + t)[..i] == s[..i]
            && (s + t)[i + 1..] == s[i + 1..] + t && EndsLine(s[i + 1..])
  {
    hide LineEnd;
    var i := LineEnd(s);
    assert s[..|s|] == s && s[|s| - 1] in s;
    LineEndAppend(s, t);
    assert (s + t)[..i] == s[..i] && (s + t)[i + 1..] == s[i + 1..] + t;
    assert s[i + 1..] != [] ==> s[i + 1..][|s[i + 1..]| - 1] == s[|s| - 1];
  }

  lemma NoLines()
    ensures ScanLines([]) == Scanned([], false)
  {
  }

  /** After the end of a line scanning starts anew. */
  lemma {:induction false} ScanAppend(s: bytes, t: bytes)
    requires EndsLine(s) && !ScanLines(s).tooLong
    ensures ScanLines(s + t) == Scanned(ScanLines(s).lines + ScanLines(t).lines, ScanLines(t).tooLong)
    decreases |s|
  {
    hide *;
    if s == [] {
      NoLines();
      assert s + t == t;
    } else {
      FirstCut(s, t);
      FirstLine(s);
      FirstLine(s + t);
      var i := LineEnd(s);
      var rest, line := s[i + 1..], DropReturn(s[..i]);
      ScanAppend(rest, t);
      assert [line] + ScanLines(rest).lines + ScanLines(t).lines == [line] + (ScanLines(rest).lines + ScanLines(t).lines);
    }
  }

  /** The first line of a stream that ends in the middle of a line. */
  lemma OpenCut(s: bytes)
    requires !EndsLine(s)
    ensures var i, t := LineEnd(s), s + [NEWLINE];
            && LineEnd(t) == i && t[..i] == s[..i]
            && (i == |s| ==> s[..i] == s && t[i + 1..] == [])
            && (i < |s| ==> t[i + 1..] == s[i + 1..] + [NEWLINE] && !EndsLine(s[i + 1..]))
  {
    hide LineEnd;
    var i, t := LineEnd(s), s + [NEWLINE];
    NewlineEnds();
    LineEndAppend(s, [NEWLINE]);
    assert t[..i] == s[..i];
    if i == |s| {
      assert s[..i] == s && t[i + 1..] == [];
    } else {
      hide EndsLine;
      OpenRest(s, i);
    }
  }

  lemma OpenRest(s: bytes, i: nat)
    requires !EndsLine(s) && i < |s| && s[i] == NEWLINE
    ensures (s + [NEWLINE])[i + 1..] == s[i + 1..] + [NEWLINE] && !EndsLine(s[i + 1..])
  {
    var rest := s[i + 1..];
    assert rest != [] && rest[|rest| - 1] == s[|s| - 1];
  }

  lemma NewlineEnds()
    ensures LineEnd([NEWLINE]) == 0
  {
  }

  lemma Unfinished(s: bytes)
    requires !EndsLine(s)
    ensures s != []
  {
  }

  /** A newline at the end of an unfinished line adds no line. */
  lemma {:induction false} ScanNewline(s: bytes)
    requires !EndsLine(s) && !ScanLines(s).tooLong
    ensures ScanLines(s + [NEWLINE]) == ScanLines(s)
    decreases |s|
  {
    hide *;
    OpenCut(s);
    Unfinished(s);
    FirstLine(s + [NEWLINE]);
    if LineEnd(s) == |s| {
      LastLine(s);
      NoLines();
    } else {
      FirstLine(s);
      ScanNewline(s[LineEnd(s) + 1..]);
    }
  }

  /** The stream with two newlines after it. */
  function Closed(stream: bytes): bytes { stream + [NEWLINE, NEWLINE] }

  /** Two newlines close the last line and add one blank line or two. */
  lemma ScanClosed(stream: bytes)
    requires !ScanLines(stream).tooLong
    ensures var s := ScanLines(Closed(stream));
            !s.tooLong && s.lines == ScanLines(stream).lines + if EndsLine(stream) then [[], []] else [[]]
  {
    assert ScanLines([NEWLINE]) == Scanned([[]], false) by { assert [NEWLINE][..0] == [] && [NEWLINE][1..] == []; }
    if EndsLine(stream) {
      var blank := [NEWLINE, NEWLINE];
      assert LineEnd(blank) == 0 && blank[..0] == [] && blank[1..] == [NEWLINE];
      assert ScanLines(blank) == Scanned([[], []], false);
      ScanAppend(stream, blank);
    } else {
      ScanNewline(stream);
      ScanAppend(stream + [NEWLINE], [NEWLINE]);
      assert Closed(stream) == stream + [NEWLINE] + [NEWLINE];
    }
  }

  // ---- no blank line at the end ----

  /** The events once the open block is closed. */
  function WithLast(events: seq<bytes>, p: bytes): seq<bytes> { if p == [] then events else events + [p] }

  lemma ClosedBlocks(lines: seq<bytes>)
    ensures var (closed, open) := Blocks(lines); var events := WithLast(Events(closed), Payload(open));
            && Events(Blocks(lines + [[]]).0) == events && Blocks(lines + [[]]).1 == []
            && Events(Blocks(lines + [[], []]).0) == events && Blocks(lines + [[], []]).1 == []
  {
    var (closed, open) := Blocks(lines);
    BlocksSnoc(lines, []);
    BlocksSnoc(lines + [[]], []);
    assert lines + [[], []] == lines + [[]] + [[]];
    assert Payload([]) == [];
    hide Blocks, Events, Payload;
    EventsSnoc(closed, open);
    EventsSnoc(closed + [open], []);
  }

  /** The last payload counts as an event, unless a `[DONE]` came before it or it is one. */
  lemma LastCounts(events: seq<bytes>, p: bytes)
    ensures UpToDone(WithLast(events, p)) == UpToDone(events) + if DONE in events || p == [] || p == DONE then [] else [p]
  {
    if DONE !in events { NoDone(events); }
    assert p != [] ==> (events + [p])[..|events|] == events;
    assert UpToDone(events) + [] == UpToDone(events);
  }

  /** All the events that count, given the lines. */
  function Counted(lines: seq<bytes>): seq<bytes> { UpToDone(Events(Blocks(lines).0)) + Tail(lines) }

  lemma CountedIs(lines: seq<bytes>)
    ensures var (closed, open) := Blocks(lines); var events, p := Events(closed), Payload(open);
            Counted(lines) == UpToDone(events) + if DONE in events || p == [] || p == DONE then [] else [p]
  {
    hide Blocks, Events, Payload, UpToDone;
  }

  lemma ReadIs(stream: bytes, header: Option<int>)
    requires !ScanLines(stream).tooLong
    ensures var r, all := Read(stream, header), Counted(ScanLines(stream).lines);
            && r.content == Texts(all) && !r.tooLong
            && r.tokens == if TokenSum(all) == 0 && header.Some? then header.value else TokenSum(all)
  {
    hide ScanLines, Blocks, Events, UpToDone, Tail, Texts, TokenSum;
  }

  /** A blank line at the end leaves the same events. */
  lemma ClosedCounted(lines: seq<bytes>, more: seq<bytes>)
    requires more in {[[]], [[], []]}
    ensures Counted(lines + more) == Counted(lines)
  {
    hide *;
    ClosedBlocks(lines);
    CountedIs(lines);
    CountedIs(lines + more);
    NoPayload();
    LastCounts(Events(Blocks(lines).0), Payload(Blocks(lines).1));
  }

  /**
   A blank line at the end makes no difference to what is read: an event that is
   not closed by one is read as if it were.
   */
  lemma ClosingChangesNothing(stream: bytes, header: Option<int>)
    requires !ScanLines(stream).tooLong
    ensures var r, closed := Read(stream, header), Read(stream + [NEWLINE, NEWLINE], header);
            closed.content == r.content && closed.tokens == r.tokens && !closed.tooLong && !r.tooLong
  {
    hide ScanLines, Read, Counted, Texts, TokenSum, EndsLine;
    var lines := ScanLines(stream).lines;
    ScanClosed(stream);
    ClosedCounted(lines, if EndsLine(stream) then [[], []] else [[]]);
    ReadIs(stream, header);
    ReadIs(Closed(stream), header);
  }

  // ---- [DONE] ----

  /** The events before the first `[DONE]`. */
  lemma {:induction false} FirstDone(events: seq<bytes>) returns (seen: seq<bytes>)
    requires DONE in events
    ensures DONE !in seen && seen + [DONE] <= events
  {
    if events[0] == DONE {
      seen := [];
    } else {
      var rest := FirstDone(events[1..]);
      seen := [events[0]] + rest;
      assert events == [events[0]] + events[1..];
    }
  }

  /** What precedes a `[DONE]` is all that counts, whatever follows. */
  lemma DoneIsLast(events: seq<bytes>, all: seq<bytes>)
    requires events + [DONE] <= all
    ensures UpToDone(all) == UpToDone(events) && DONE in all
  {
    hide UpToDone;
    if DONE in events {
      var seen := FirstDone(events);
      DonePrefix(events, seen);
      DonePrefix(all, seen);
    } else {
      NoDone(events);
      DonePrefix(all, events);
    }
  }

  lemma DoneLines()
    ensures ScanLines(DATA + DONE + [NEWLINE, NEWLINE]) == Scanned([DATA + DONE] + [[]], false)
    ensures EndsLine(DATA + DONE + [NEWLINE, NEWLINE])
  {
    var line := DATA + DONE;
    assert LineEnd(line) == |line| by {
      assert forall i :: 0 <= i < |line| ==> line[i] != NEWLINE;
    }
    assert !EndsLine(line) && DropReturn(line) == line;
    assert ScanLines(line) == Scanned([line], false);
    hide ScanLines, LineEnd;
    ScanClosed(line);
  }

  lemma DoneEvent(lines: seq<bytes>, more: seq<bytes>)
    requires Payload(Blocks(lines).1) == []
    ensures Events(Blocks(lines).0) + [DONE] <= Events(Blocks(lines + ([DATA + DONE] + [[]]) + more).0)
  {
    var (closed, open) := Blocks(lines);
    var line := DATA + DONE;
    BlocksSnoc(lines, line);
    BlocksSnoc(lines + [line], []);
    PayloadSnoc(open, line);
    assert line[|DATA|..] == DONE;
    assert lines + ([line] + [[]]) == lines + [line] + [[]];
    hide Blocks, Events, Payload;
    EventsSnoc(closed, open + [line]);
    MoreLinesMoreEvents(lines + [line] + [[]], more);
  }

  /** Nothing after a `[DONE]` event matters, not even a line that is too long. */
  lemma NothingAfterDone(stream: bytes, more: bytes, header: Option<int>)
    requires !ScanLines(stream).tooLong
    ensures Read(Closed(stream) + (DATA + DONE + [NEWLINE, NEWLINE]) + more, header) == Read(Closed(stream), header)
  {
    hide Blocks, Events, Payload, UpToDone, Texts, TokenSum, LineEnd;
    var before, done := Closed(stream), DATA + DONE + [NEWLINE, NEWLINE];
    ScanClosed(stream);
    ClosedBlocks(ScanLines(stream).lines);
    DoneLines();
    hide ScanLines;
    var lines, after := ScanLines(before).lines, ScanLines(more).lines;
    ScanAppend(before, done);
    ScanAppend(before + done, more);
    NoPayload();
    DoneEvent(lines, after);
    DoneIsLast(Events(Blocks(lines).0), Events(Blocks(lines + ([DATA + DONE] + [[]]) + after).0));
    assert forall s: seq<bytes> {:trigger s + []} :: s + [] == s;
  }

  lemma NoPayload()
    ensures Payload([]) == []
  {
  }

  // ---- the header, and lines that are too long ----

  /** The header's count stands in for a missing one only: where nothing was counted and no line was too long. */
  lemma HeaderIsFallback(stream: bytes, header: Option<int>)
    ensures var r, bare := Read(stream, header), Read(stream, None);
            r == if header.Some? && bare.tokens == 0 && !bare.tooLong then bare.(tokens := header.value) else bare
  {
  }

  /** 1 MiB without a newline, from `i` on. */
  predicate LongRun(s: bytes, i: nat) {
    i + 1_048_576 <= |s| && forall m :: i <= m < i + 1_048_576 ==> s[m] != NEWLINE
  }

  /** Scanning stops exactly at 1 MiB without a newline. */
  lemma {:induction false} TooLongIff(s: bytes)
    ensures ScanLines(s).tooLong <==> exists i: nat :: LongRun(s, i)
    decreases |s|
  {
    var e := LineEnd(s);
    assert forall m :: 0 <= m < e ==> s[m] != NEWLINE by { assert forall m :: 0 <= m < e ==> s[..e][m] == s[m]; }
    if e >= MAX_LINE {
      assert LongRun(s, 0);
    } else if e < |s| {
      var rest := s[e + 1..];
      TooLongIff(rest);
      if i: nat :| LongRun(rest, i) {
        assert forall m :: i + e + 1 <= m < i + e + 1 + 1_048_576 ==> s[m] == rest[m - e - 1];
        assert LongRun(s, i + e + 1);
      }
      if i: nat :| LongRun(s, i) {
        assert i > e;
        assert forall m :: i - e - 1 <= m < i - e - 1 + 1_048_576 ==> rest[m] == s[m + e + 1];
        assert LongRun(rest, i - e - 1);
      }
    }
  }

  // ---- one data line and nothing else ----

  lemma {:induction false} NoLineEnd(s: bytes)
    requires NEWLINE !in s
    ensures LineEnd(s) == |s|
  {
    if s != [] { NoLineEnd(s[1..]); }
  }

  lemma OneLineScanned(p: bytes)
    requires NEWLINE !in p && RETURN !in p && |p| + 6 < 1_048_576
    ensures ScanLines(DATA + p) == Scanned([DATA + p], false)
  {
    var line := DATA + p;
    assert NEWLINE !in line && RETURN !in line;
    NoLineEnd(line);
  }

  lemma OneLineBlock(line: bytes)
    ensures line != [] ==> Blocks([line]) == ([], [line])
    ensures Payload([line]) == if DATA <= line then line[|DATA|..] else []
    ensures Events([]) == [] && UpToDone([]) == [] && Texts([]) == []
  {
    BlocksSnoc([], line);
    PayloadSnoc([], line);
    assert [] + [line] == [line];
  }

  /** A payload without its blank line is read as the event it is. */
  lemma LonePayloadIsRead(p: bytes, header: Option<int>)
    requires NEWLINE !in p && RETURN !in p && |p| + 6 < 1_048_576
    ensures Read(DATA + p, header).content == if p == [] || p == DONE then [] else EventText(p)
  {
    OneLineScanned(p);
    OneLineBlock(DATA + p);
    assert (DATA + p)[|DATA|..] == p;
    hide ScanLines, Blocks, Payload, UpToDone, Events, EventText;
    assert Tail([DATA + p]) == if p == [] || p == DONE then [] else [p];
    TextsSnoc([], p);
    assert [] + [p] == [p] && [] + EventText(p) == EventText(p);
  }
}
