/** What the reader makes of the writer's stream, for every output. */
module SseRoundTrip {
  import opened Common
  import opened Floats
  import opened JsonGrammar
  import opened JsonParser
  import opened JsonStrings
  import opened SseReader
  import opened SseWriter

  // ---- the lines of the stream ----

  /** A payload that fits on one line. */
  predicate OneLine(p: bytes) { p != [] && (forall i :: 0 <= i < |p| ==> p[i] >= 0x20) && |p| + |DATA| < MAX_LINE }

  lemma {:induction false} LineEndAt(line: bytes, rest: bytes)
    requires NEWLINE !in line
    ensures LineEnd(line + ([NEWLINE] + rest)) == |line|
  {
    if line == [] {
      assert line + ([NEWLINE] + rest) == [NEWLINE] + rest;
    } else {
      LineEndAt(line[1..], rest);
      assert (line + ([NEWLINE] + rest))[1..] == line[1..] + ([NEWLINE] + rest);
      assert line[0] in line;
    }
  }

  /** A line that ends in the stream is scanned off its front. */
  lemma ScanOne(line: bytes, rest: bytes)
    requires NEWLINE !in line && |line| < MAX_LINE && (line != [] ==> line[|line| - 1] != RETURN)
    ensures ScanLines(line + ([NEWLINE] + rest)) == Scanned([line] + ScanLines(rest).lines, ScanLines(rest).tooLong)
  {
    hide LineEnd;
    var s := line + ([NEWLINE] + rest);
    LineEndAt(line, rest);
    assert s != [] && s[..|line|] == line && s[|line| + 1..] == rest;
    assert DropReturn(line) == line;
  }

  lemma ScanFrame(p: bytes, rest: bytes)
    requires OneLine(p)
    ensures ScanLines(Frame(p) + rest) == Scanned([DATA + p, []] + ScanLines(rest).lines, ScanLines(rest).tooLong)
  {
    hide ScanLines, LineEnd;
    var tail := [] + ([NEWLINE] + rest);
    assert Frame(p) + rest == (DATA + p) + ([NEWLINE] + tail);
    assert forall i :: 0 <= i < |DATA + p| ==> (DATA + p)[i] >= 0x20;
    ScanOne(DATA + p, tail);
    ScanOne([], rest);
    assert [DATA + p] + ([[]] + ScanLines(rest).lines) == [DATA + p, []] + ScanLines(rest).lines;
  }

  /** The lines of the framed payloads. */
  function FramedLines(payloads: seq<bytes>): seq<bytes> {
    if payloads == [] then []
    else FramedLines(payloads[..|payloads| - 1]) + [DATA + payloads[|payloads| - 1], []]
  }

  lemma {:induction false} ScanFrames(payloads: seq<bytes>, rest: bytes)
    requires forall i :: 0 <= i < |payloads| ==> OneLine(payloads[i])
    ensures ScanLines(Frames(payloads) + rest)
         == Scanned(FramedLines(payloads) + ScanLines(rest).lines, ScanLines(rest).tooLong)
    decreases |payloads|
  {
    hide ScanLines, Frame, OneLine;
    if payloads == [] {
      assert Frames(payloads) + rest == rest && FramedLines(payloads) + ScanLines(rest).lines == ScanLines(rest).lines;
    } else {
      var front, p := payloads[..|payloads| - 1], payloads[|payloads| - 1];
      assert forall i :: 0 <= i < |front| ==> front[i] == payloads[i];
      ScanFrame(p, rest);
      ScanFrames(front, Frame(p) + rest);
      Append3(Frames(front), Frame(p), rest);
      AppendLines(FramedLines(front), [DATA + p, []], ScanLines(rest).lines);
    }
  }

  lemma AppendLines(a: seq<bytes>, b: seq<bytes>, c: seq<bytes>)
    ensures a + (b + c) == a + b + c
  {
  }

  /** The framed lines are read back as the payloads. */
  lemma {:induction false} FramedEvents(payloads: seq<bytes>)
    requires forall i :: 0 <= i < |payloads| ==> payloads[i] != []
    ensures var (closed, open) := Blocks(FramedLines(payloads)); Events(closed) == payloads && open == []
  {
    if payloads != [] {
      var front, p := payloads[..|payloads| - 1], payloads[|payloads| - 1];
      FramedEvents(front);
      FramedOne(FramedLines(front), p);
      assert payloads == front + [p];
    }
  }

  /** One more frame adds one event. */
  lemma FramedOne(lines: seq<bytes>, p: bytes)
    requires Blocks(lines).1 == [] && p != []
    ensures var (closed, open) := Blocks(lines + [DATA + p, []]); Events(closed) == Events(Blocks(lines).0) + [p] && open == []
  {
    var line := DATA + p;
    assert DATA <= line && line[|DATA|..] == p && line != [];
    PayloadSnoc([], line);
    assert Payload([]) == [] && Joined([], p) == p && [] + [line] == [line];
    hide Blocks, Events, Payload;
    BlocksSnoc(lines, line);
    BlocksSnoc(lines + [line], []);
    EventsSnoc(Blocks(lines).0, [line]);
    assert lines + [line] + [[]] == lines + [line, []];
  }

  /** len() of a Go string is an int64. */
  const MAX_INT: nat := 0x7FFF_FFFF_FFFF_FFFF

  // ---- the events ----

  lemma {:induction false} PlainUnquote(s: bytes)
    requires forall i :: 0 <= i < |s| ==> PlainByte(s[i]) && s[i] < 0x80
    ensures Unquote(s) == s && StringBody(s)
  {
    if s != [] {
      PlainUnquote(s[1..]);
      assert RuneLen(s) == 1 && s == s[..1] + s[1..];
    }
  }

  lemma {:induction false} BodyBytes(s: bytes)
    requires StringBody(s)
    ensures forall i :: 0 <= i < |s| ==> s[i] >= 0x20
    decreases |s|
  {
    if s != [] {
      var n := if s[0] == BACKSLASH then (if UnicodeEscape(s) then 6 else 2) else 1;
      BodyBytes(s[n..]);
      forall i | 0 <= i < |s| ensures s[i] >= 0x20 {
        if i >= n { assert s[i] == s[n..][i - n]; }
      }
    }
  }

  /** A name that marshals to itself. */
  predicate Name(key: bytes) { Unquote(key) == key && StringBody(key) }

  lemma Names()
    ensures Name(CONTENT) && Name(USAGE) && Name(TOTAL_TOKENS) && Name(PROMPT_TOKENS) && Name(COMPLETION_TOKENS)
  {
    hide Unquote, StringBody;
    PlainUnquote(CONTENT);
    PlainUnquote(USAGE);
    PlainUnquote(TOTAL_TOKENS);
    PlainUnquote(PROMPT_TOKENS);
    PlainUnquote(COMPLETION_TOKENS);
  }

  lemma KeysDiffer()
    ensures CONTENT != TEXT && CONTENT != USAGE && USAGE != TEXT
    ensures TOTAL_TOKENS != PROMPT_TOKENS && TOTAL_TOKENS != COMPLETION_TOKENS
  {
    assert |CONTENT| == 7 && |TEXT| == 4 && |USAGE| == 5;
    assert |TOTAL_TOKENS| == 12 && |PROMPT_TOKENS| == 13 && |COMPLETION_TOKENS| == 17;
  }

  lemma LastField(key: bytes, v: Value, k: bytes)
    requires Name(key) && WellFormed(v)
    ensures var items := Last(Field(key, v));
            && WellFormedItems(Brace, items) && NestingItems(items) == Nesting(v)
            && LookupItems(items, k) == if key == k then Some(v) else None
  {
    hide StringBody;
  }

  lemma MoreField(key: bytes, v: Value, rest: Items, k: bytes)
    requires Name(key) && WellFormed(v) && WellFormedItems(Brace, rest)
    ensures var items := More(Field(key, v), rest);
            && WellFormedItems(Brace, items)
            && NestingItems(items) == (if Nesting(v) < NestingItems(rest) then NestingItems(rest) else Nesting(v))
            && LookupItems(items, k) == if LookupItems(rest, k).Some? then LookupItems(rest, k) else if key == k then Some(v) else None
  {
    hide StringBody;
  }

  lemma LastNumbers(key: bytes, v: Value)
    ensures NumbersFitItems(Last(Field(key, v))) <==> NumbersFit(v)
  {
  }

  lemma MoreNumbers(key: bytes, v: Value, rest: Items)
    ensures NumbersFitItems(More(Field(key, v), rest)) <==> NumbersFit(v) && NumbersFitItems(rest)
  {
  }

  lemma ObjectNumbers(items: Items)
    ensures NumbersFit(Full(Brace, items)) <==> NumbersFitItems(items)
  {
  }

  lemma TextNumbers(body: bytes)
    ensures NumbersFit(Str(body))
  {
  }

  /** A content event carries its chunk, sanitized, and no tokens. */
  lemma ContentEventRead(chunk: bytes)
    ensures var p := Print(ContentEvent(chunk)); EventText(p) == Sanitize(chunk) && EventTokens(p) == 0
  {
    var s := Str(Escape(chunk));
    TextNumbers(Escape(chunk));
    LastNumbers(CONTENT, s);
    ObjectNumbers(Last(Field(CONTENT, s)));
    hide Unquote, Escape, ParseText, Print, Name, StringBody, Sanitize, NestingItems, LookupItems, WellFormedItems, NumbersFit;
    Names();
    KeysDiffer();
    EscapeIsBody(chunk);
    UnquoteEscape(chunk);
    LastField(CONTENT, s, CONTENT);
    LastField(CONTENT, s, TEXT);
    LastField(CONTENT, s, USAGE);
    PrintedIsValid(ContentEvent(chunk));
    assert Sanitize(chunk) + [] == Sanitize(chunk);
  }

  lemma {:induction false} DigitsAreNumber(s: bytes)
    requires forall i :: 0 <= i < |s| ==> Digit(s[i])
    ensures NumberFrom(NInt, s)
    decreases |s|
  {
    if s != [] { DigitsAreNumber(s[1..]); }
  }

  lemma {:induction false} DigitRunAll(s: bytes)
    requires forall i :: 0 <= i < |s| ==> Digit(s[i])
    ensures DigitRun(s) == |s|
  {
    if s != [] { DigitRunAll(s[1..]); }
  }

  /** A number as it is after the way through float64. */
  function Float64(n: nat): nat { FloatPart(n, 1) }

  /** Integers up to 2^53 are float64 numbers. */
  lemma FloatIsExact(n: nat)
    requires n <= TWO_53
    ensures Float64(n) == n
  {
    if n < TWO_53 {
      var k := Places(n, 1, 0);
      ShiftBack(n, k);
      MulDiv(n, Shifted(1, k));
    } else {
      assert Shifted(TWO_53, 1) == 2 * TWO_53 && Dropped(n, 1, 1) == 1 && Shifted(1, 1) == 2;
    }
  }

  /** A decimal numeral is a JSON number. */
  lemma DecIsNumber(n: nat)
    ensures NumberFrom(NStart, Dec(n)) && IsScalar(Dec(n))
  {
    var s := Dec(n);
    assert forall i :: 0 <= i < |s| ==> Digit(s[i]);
    if s[0] == 0x30 {
      assert s[1..] == [];
    } else {
      DigitsAreNumber(s[1..]);
    }
  }

  lemma DecimalOfDec(n: nat)
    ensures DecimalOf(Dec(n)) == Decimal(false, n, 0) && Fraction(Decimal(false, n, 0)) == (n, 1)
  {
    var s := Dec(n);
    assert forall i :: 0 <= i < |s| ==> Digit(s[i]);
    DigitRunAll(s);
    UndecDec(n);
    assert s[..|s|] + [] == s && s[|s|..] == [];
    hide Undec, Dec;
  }

  /** Reading a numeral back gives the number, rounded to float64. */
  lemma DecimalRead(n: nat)
    ensures NumberFrom(NStart, Dec(n)) && IsScalar(Dec(n)) && Truncated(Dec(n)) == Float64(n)
    ensures n <= MAX_INT ==> NumberFits(Dec(n))
  {
    DecIsNumber(n);
    DecimalOfDec(n);
    if n <= MAX_INT { CountFits(n); }
    hide FloatPart, FloatFits, DecimalOf, Fraction, NumberFrom, IsScalar, Dec;
  }

  lemma UsageCountsRead(n: nat)
    ensures WellFormed(UsageCounts(n)) && Nesting(UsageCounts(n)) == 1
    ensures Lookup(UsageCounts(n), TOTAL_TOKENS) == Some(Scalar(Dec(n / 4)))
  {
    hide Unquote, Dec, IsScalar, Name, NestingItems, LookupItems, WellFormedItems, Truncated, NumberFits, Float64;
    Names();
    DecimalRead(n / 6);
    DecimalRead(n / 12);
    DecimalRead(n / 4);
    var last := Last(Field(TOTAL_TOKENS, Scalar(Dec(n / 4))));
    var middle := More(Field(PROMPT_TOKENS, Scalar(Dec(n / 12))), last);
    LastField(TOTAL_TOKENS, Scalar(Dec(n / 4)), TOTAL_TOKENS);
    MoreField(PROMPT_TOKENS, Scalar(Dec(n / 12)), last, TOTAL_TOKENS);
    MoreField(COMPLETION_TOKENS, Scalar(Dec(n / 6)), middle, TOTAL_TOKENS);
  }

  lemma UsageFields(n: nat, k: bytes)
    ensures WellFormed(UsageEvent(n)) && Nesting(UsageEvent(n)) == 2
    ensures Lookup(UsageEvent(n), k) == if USAGE == k then Some(UsageCounts(n)) else if CONTENT == k then Some(Str([])) else None
  {
    UsageCountsRead(n);
    Names();
    var empty, counts := Str([]), UsageCounts(n);
    assert WellFormed(empty) && Nesting(empty) == 0;
    hide UsageCounts, Name, WellFormed, Nesting, NestingItems, LookupItems, WellFormedItems;
    var last := Last(Field(USAGE, counts));
    LastField(USAGE, counts, k);
    MoreField(CONTENT, empty, last, k);
    ObjectFields(More(Field(CONTENT, empty), last), k);
  }

  lemma ObjectFields(items: Items, k: bytes)
    requires WellFormedItems(Brace, items)
    ensures var v := Full(Brace, items); WellFormed(v) && Nesting(v) == 1 + NestingItems(items) && Lookup(v, k) == LookupItems(items, k)
  {
    hide NestingItems, LookupItems, WellFormedItems;
  }

  /** The usage event carries no text and a quarter of the output's length in tokens. */
  lemma UsageEventRead(n: nat)
    requires n <= MAX_INT
    ensures var p := Print(UsageEvent(n)); EventText(p) == [] && EventTokens(p) == Float64(n / 4)
  {
    assert Unquote([]) == [];
    UsageNumbersFit(n);
    hide Unquote, Dec, ParseText, UsageCounts, UsageEvent, Print, Lookup, Truncated, NumbersFit, Float64;
    KeysDiffer();
    UsageCountsRead(n);
    DecimalRead(n / 4);
    UsageFields(n, CONTENT);
    UsageFields(n, TEXT);
    UsageFields(n, USAGE);
    PrintedIsValid(UsageEvent(n));
  }

  lemma UsageNumbersFit(n: nat)
    requires n <= MAX_INT
    ensures NumbersFit(UsageEvent(n))
  {
    DecimalRead(n / 6);
    DecimalRead(n / 12);
    DecimalRead(n / 4);
    hide Dec, NumbersFitItems, NumberFits;
    var a, b, c := Scalar(Dec(n / 6)), Scalar(Dec(n / 12)), Scalar(Dec(n / 4));
    assert NumbersFit(a) && NumbersFit(b) && NumbersFit(c) && NumbersFit(Str([]));
    hide NumbersFit;
    var last := Last(Field(TOTAL_TOKENS, c));
    LastNumbers(TOTAL_TOKENS, c);
    MoreNumbers(PROMPT_TOKENS, b, last);
    MoreNumbers(COMPLETION_TOKENS, a, More(Field(PROMPT_TOKENS, b), last));
    ObjectNumbers(More(Field(COMPLETION_TOKENS, a), More(Field(PROMPT_TOKENS, b), last)));
    LastNumbers(USAGE, UsageCounts(n));
    MoreNumbers(CONTENT, Str([]), Last(Field(USAGE, UsageCounts(n))));
    ObjectNumbers(More(Field(CONTENT, Str([])), Last(Field(USAGE, UsageCounts(n)))));
  }

  // ---- the whole stream ----

  /** The chunks sent, each sanitized on its own, put together again. */
  function Received(chunks: seq<bytes>): bytes {
    if chunks == [] then [] else Received(chunks[..|chunks| - 1]) + Sanitize(chunks[|chunks| - 1])
  }

  lemma {:induction false} ContentEventsRead(chunks: seq<bytes>)
    ensures Texts(ContentEvents(chunks)) == Received(chunks) && TokenSum(ContentEvents(chunks)) == 0
  {
    hide EventText, EventTokens, Print, ContentEvent, Sanitize;
    if chunks != [] {
      var front, chunk := chunks[..|chunks| - 1], chunks[|chunks| - 1];
      ContentEventsRead(front);
      ContentEventRead(chunk);
      ContentEventsSnoc(front, chunk);
      assert chunks == front + [chunk];
      TextsSnoc(ContentEvents(front), Print(ContentEvent(chunk)));
    }
  }

  /** No control bytes, and of bounded length. */
  predicate Plain(s: bytes, size: nat) { (forall i :: 0 <= i < |s| ==> s[i] >= 0x20) && |s| <= size }

  lemma FieldPlain(key: bytes, m: nat, v: Value, n: nat)
    requires Plain(key, m) && Plain(Print(v), n)
    ensures Plain(PrintItem(Field(key, v)), m + n + 3)
  {
    hide Print;
    var lead := PrintLead(Member([], key, [], []));
    assert lead == [QUOTE] + key + [QUOTE] + [COLON];
    assert PrintItem(Field(key, v)) == lead + Print(v);
  }

  /** The text of an object is a line of its own, and not `[DONE]`. */
  lemma ObjectFits(items: Items, n: nat)
    requires Plain(PrintItems(items), n) && n <= 2000
    ensures var p := Print(Full(Brace, items)); Plain(p, n + 2) && OneLine(p) && p != DONE
  {
    hide PrintItems;
    var p := Print(Full(Brace, items));
    assert p == [0x7B] + PrintItems(items) + [0x7D] && p[0] == 0x7B;
  }

  lemma QuotedPlain(body: bytes, n: nat)
    requires (forall i :: 0 <= i < |body| ==> body[i] >= 0x20) && |body| <= n
    ensures Plain(Print(Str(body)), n + 2)
  {
  }

  lemma LastPlain(item: Item, n: nat)
    requires Plain(PrintItem(item), n)
    ensures Plain(PrintItems(Last(item)), n)
  {
    hide PrintItem, Plain;
  }

  lemma ContentEventFits(chunk: bytes)
    requires |chunk| <= CHUNK
    ensures OneLine(Print(ContentEvent(chunk))) && Print(ContentEvent(chunk)) != DONE
  {
    assert Plain(CONTENT, 7);
    hide Escape, StringBody, Plain, Print, PrintItems, PrintItem, Field, OneLine;
    EscapeIsBody(chunk);
    BodyBytes(Escape(chunk));
    var v := Str(Escape(chunk));
    QuotedPlain(Escape(chunk), 600);
    FieldPlain(CONTENT, 7, v, 602);
    LastPlain(Field(CONTENT, v), 612);
    ObjectFits(Last(Field(CONTENT, v)), 612);
  }

  lemma {:induction false} DecLength(n: nat, k: nat)
    requires k >= 1 && n < Pow10(k)
    ensures |Dec(n)| <= k
  {
    if n >= 10 { DecLength(n / 10, k - 1); }
  }

  lemma NumberPlain(n: nat)
    requires n <= MAX_INT
    ensures Plain(Print(Scalar(Dec(n))), 19)
  {
    Nineteen();
    hide Pow10;
    DecLength(n, 19);
  }

  lemma Nineteen()
    ensures MAX_INT < Pow10(19)
  {
    assert Pow10(4) == 10_000;
    assert Pow10(8) == 100_000_000;
    assert Pow10(12) == 1_000_000_000_000;
    assert Pow10(16) == 10_000_000_000_000_000;
  }

  lemma NumberFieldPlain(key: bytes, n: nat)
    requires Plain(key, 20) && n <= MAX_INT
    ensures Plain(PrintItem(Field(key, Scalar(Dec(n)))), 42)
  {
    hide PrintItem, Print, Dec;
    NumberPlain(n);
    FieldPlain(key, 20, Scalar(Dec(n)), 19);
  }

  lemma MorePlain(item: Item, m: nat, rest: Items, n: nat)
    requires Plain(PrintItem(item), m) && Plain(PrintItems(rest), n)
    ensures Plain(PrintItems(More(item, rest)), m + n + 1)
  {
    hide PrintItem;
    assert PrintItems(More(item, rest)) == PrintItem(item) + [COMMA] + PrintItems(rest);
  }

  lemma UsageCountsFit(n: nat)
    requires n <= MAX_INT
    ensures Plain(Print(UsageCounts(n)), 130)
  {
    var a := Field(COMPLETION_TOKENS, Scalar(Dec(n / 6)));
    var b := Field(PROMPT_TOKENS, Scalar(Dec(n / 12)));
    var c := Field(TOTAL_TOKENS, Scalar(Dec(n / 4)));
    NumberFieldPlain(COMPLETION_TOKENS, n / 6);
    NumberFieldPlain(PROMPT_TOKENS, n / 12);
    NumberFieldPlain(TOTAL_TOKENS, n / 4);
    hide Field, Dec, PrintItem, Plain;
    assert PrintItems(Last(c)) == PrintItem(c);
    MorePlain(b, 42, Last(c), 42);
    MorePlain(a, 42, More(b, Last(c)), 85);
    ObjectFits(More(a, More(b, Last(c))), 128);
  }

  lemma UsageEventFits(n: nat)
    requires n <= MAX_INT
    ensures OneLine(Print(UsageEvent(n))) && Print(UsageEvent(n)) != DONE
  {
    var a, b := Field(CONTENT, Str([])), Field(USAGE, UsageCounts(n));
    assert Plain(Print(Str([])), 2) && Plain(CONTENT, 7) && Plain(USAGE, 5);
    UsageCountsFit(n);
    hide Print, UsageCounts, PrintItem, Plain, OneLine;
    FieldPlain(CONTENT, 7, Str([]), 2);
    FieldPlain(USAGE, 5, UsageCounts(n), 130);
    assert PrintItems(Last(b)) == PrintItem(b);
    MorePlain(a, 12, Last(b), 138);
    ObjectFits(More(a, Last(b)), 151);
  }

  lemma PayloadsFit(output: bytes)
    requires |output| <= MAX_INT
    ensures forall i :: 0 <= i < |Payloads(output)| ==> OneLine(Payloads(output)[i]) && Payloads(output)[i] != DONE
  {
    hide OneLine, Print, ContentEvent, UsageEvent;
    var chunks := Sent(output);
    forall i | 0 <= i < |chunks| ensures OneLine(Print(ContentEvent(chunks[i]))) && Print(ContentEvent(chunks[i])) != DONE {
      ContentEventFits(chunks[i]);
    }
    UsageEventFits(|output|);
  }

  lemma StreamEvents(output: bytes)
    requires |output| <= MAX_INT
    ensures var s := ScanLines(Stream(output));
            && !s.tooLong && Events(Blocks(s.lines).0) == Payloads(output) + [DONE] && Blocks(s.lines).1 == []
  {
    PayloadsFit(output);
    assert OneLine(DONE) && ScanLines([]) == Scanned([], false);
    hide OneLine, Payloads, Frames, FramedLines, Blocks, Events, ScanLines;
    var all := Payloads(output) + [DONE];
    assert forall i :: 0 <= i < |all| ==> OneLine(all[i]) && all[i] != [] by {
      forall i | 0 <= i < |all| ensures OneLine(all[i]) && all[i] != [] { NotEmpty(all[i]); }
    }
    ScanFrames(all, []);
    FramedEvents(all);
    assert Frames(all) + [] == Frames(all) && FramedLines(all) + [] == FramedLines(all);
  }

  lemma NotEmpty(p: bytes)
    requires OneLine(p)
    ensures p != []
  {
  }

  lemma PayloadsRead(output: bytes)
    requires |output| <= MAX_INT
    ensures Texts(Payloads(output)) == Received(Sent(output)) && TokenSum(Payloads(output)) == Float64(|output| / 4)
    ensures |Payloads(output)| == |Sent(output)| + 1
  {
    hide EventText, EventTokens, Print, ContentEvent, UsageEvent, Sent, Received, Float64;
    ContentEventsRead(Sent(output));
    UsageEventRead(|output|);
    TextsSnoc(ContentEvents(Sent(output)), Print(UsageEvent(|output|)));
    assert Received(Sent(output)) + [] == Received(Sent(output));
  }

  /** What the reader returns for the writer's stream, whatever the output: nothing is lost but what is not UTF-8. */
  lemma ReadStream(output: bytes, header: Option<int>)
    requires |output| <= MAX_INT
    ensures var tokens := Float64(|output| / 4);
            Read(Stream(output), header)
            == Reading(Received(Sent(output)), if tokens == 0 && header.Some? then header.value else tokens,
                       false, (|Sent(output)| + 1) / 10)
  {
    StreamEvents(output);
    PayloadsFit(output);
    PayloadsRead(output);
    var payloads := Payloads(output);
    assert Payload([]) == [];
    hide Stream, Payloads, Sent, Received, Texts, TokenSum, ScanLines, Blocks, Events, Payload, UpToDone, OneLine, Float64;
    assert DONE !in payloads;
    DoneStops(payloads, []);
    assert payloads + [DONE] + [] == payloads + [DONE];
    assert (payloads + [DONE])[|payloads|] == DONE;
    assert payloads + [] == payloads;
  }

  // ---- when the output comes back unchanged ----

  function Concat(chunks: seq<bytes>): bytes {
    if chunks == [] then [] else Concat(chunks[..|chunks| - 1]) + chunks[|chunks| - 1]
  }

  lemma {:induction false} ChunksConcat(output: bytes, k: nat)
    requires k <= |Chunks(output)|
    ensures Concat(Chunks(output)[..k]) == if CHUNK * k > |output| then output else output[..CHUNK * k]
  {
    if k > 0 {
      ChunksConcat(output, k - 1);
      var chunks := Chunks(output);
      assert chunks[..k][..k - 1] == chunks[..k - 1];
      assert chunks[k - 1] == ChunkAt(output, k - 1);
    }
  }

  lemma SentConcat(output: bytes)
    ensures Concat(Sent(output)) == output
  {
    if output == [] {
      assert Concat([[]]) == Concat([[]][..0]) + [];
    } else {
      ChunksConcat(output, |Chunks(output)|);
      assert Chunks(output)[..|Chunks(output)|] == Chunks(output);
    }
  }

  predicate AllUtf8(chunks: seq<bytes>) { forall i :: 0 <= i < |chunks| ==> ValidUtf8(chunks[i]) }

  lemma {:induction false} ReceivedIff(chunks: seq<bytes>)
    ensures |Received(chunks)| >= |Concat(chunks)| && (|Received(chunks)| == |Concat(chunks)| <==> AllUtf8(chunks))
    ensures Received(chunks) == Concat(chunks) <==> AllUtf8(chunks)
  {
    hide Sanitize, ValidUtf8;
    if chunks != [] {
      var front, chunk := chunks[..|chunks| - 1], chunks[|chunks| - 1];
      ReceivedIff(front);
      SanitizeIffValid(chunk);
      assert chunks == front + [chunk];
      assert AllUtf8(chunks) <==> AllUtf8(front) && ValidUtf8(chunk);
    }
  }

  /** A text is UTF-8 exactly when both parts are, if it is cut before a byte that continues nothing. */
  lemma {:induction false} CutUtf8(s: bytes, n: nat)
    requires n <= |s|
    ensures ValidUtf8(s[..n]) && ValidUtf8(s[n..]) <==> ValidUtf8(s) && (n == |s| || !Continuation(s[n]))
    decreases |s|
  {
    if n == 0 {
      assert s[..0] == [] && s[0..] == s;
    } else {
      var r := RuneLen(s);
      if r == 0 || r > n {
        CutRune(s, n);
      } else {
        RuneLocal(s, s[r..n]);
        assert s[..n] == s[..r] + s[r..n] && s[r..][..n - r] == s[r..n] && s[r..][n - r..] == s[n..];
        CutUtf8(s[r..], n - r);
      }
    }
  }

  lemma CutRune(s: bytes, n: nat)
    requires 0 < n <= |s| && (RuneLen(s) == 0 || RuneLen(s) > n)
    ensures !ValidUtf8(s[..n]) && !(ValidUtf8(s) && (n == |s| || !Continuation(s[n])))
  {
    hide ValidUtf8;
    if RuneLen(s[..n]) > 0 {
      RuneLocal(s[..n], s[RuneLen(s[..n])..]);
      Cut(s, RuneLen(s[..n]));
    }
    assert RuneLen(s[..n]) == 0;
    NoRune(s[..n]);
    if RuneLen(s) == 0 { NoRune(s); }
  }

  lemma NoRune(s: bytes)
    requires s != [] && RuneLen(s) == 0
    ensures !ValidUtf8(s)
  {
  }

  /** No chunk boundary falls inside a UTF-8 character. */
  predicate BoundariesFit(output: bytes) {
    forall k :: 0 < k < |Chunks(output)| ==> !Continuation(output[CHUNK * k])
  }

  /** Whether the chunks from the `k`th on are UTF-8, and so is what they cover. */
  lemma {:induction false} ChunksUtf8(output: bytes, k: nat)
    requires k < |Chunks(output)|
    ensures (forall i :: k <= i < |Chunks(output)| ==> ValidUtf8(Chunks(output)[i]))
       <==> ValidUtf8(output[CHUNK * k..]) && forall i :: k < i < |Chunks(output)| ==> !Continuation(output[CHUNK * i])
    decreases |Chunks(output)| - k
  {
    hide ValidUtf8, Continuation;
    var rest := output[CHUNK * k..];
    assert Chunks(output)[k] == ChunkAt(output, k);
    if k + 1 == |Chunks(output)| {
      assert rest == ChunkAt(output, k);
    } else {
      CutUtf8(rest, CHUNK);
      assert rest[..CHUNK] == ChunkAt(output, k) && rest[CHUNK..] == output[CHUNK * (k + 1)..];
      assert rest[CHUNK] == output[CHUNK * (k + 1)];
      ChunksUtf8(output, k + 1);
    }
  }

  lemma SentUtf8(output: bytes)
    ensures AllUtf8(Sent(output)) <==> ValidUtf8(output) && BoundariesFit(output)
  {
    if output == [] {
      assert Sent(output) == [[]];
    } else {
      hide ValidUtf8, Continuation, Chunks;
      assert |Chunks(output)| > 0 by { ChunkCount(output); }
      ChunksUtf8(output, 0);
      assert output[CHUNK * 0..] == output;
    }
  }

  lemma ChunkCount(output: bytes)
    requires output != []
    ensures |Chunks(output)| > 0
  {
  }

  /** The output comes back exactly when it is UTF-8 and no boundary of 100 bytes falls inside a character. */
  lemma RoundTripIff(output: bytes, header: Option<int>)
    requires |output| <= MAX_INT
    ensures Read(Stream(output), header).content == output <==> ValidUtf8(output) && BoundariesFit(output)
  {
    hide Sent, Received, Stream, Read, AllUtf8, ValidUtf8, BoundariesFit;
    ReadStream(output, header);
    ReceivedIff(Sent(output));
    SentConcat(output);
    SentUtf8(output);
  }

  lemma {:induction false} AsciiUtf8(s: bytes)
    requires forall i :: 0 <= i < |s| ==> s[i] < 0x80
    ensures ValidUtf8(s)
  {
    if s != [] { AsciiUtf8(s[1..]); }
  }

  /** Some UTF-8 outputs do not come back: here a character of two bytes stands across byte 100. */
  lemma CutCharacterIsLost(header: Option<int>)
    ensures var output := seq(99, _ => 0x61 as byte) + [0xC3, 0xA9];
            ValidUtf8(output) && Read(Stream(output), header).content != output
  {
    var ascii: bytes, accent: bytes := seq(99, _ => 0x61 as byte), [0xC3, 0xA9];
    var output := ascii + accent;
    AsciiUtf8(ascii);
    assert RuneLen(accent) == 2 && accent[2..] == [] && ValidUtf8(accent);
    TakeDrop(ascii, accent);
    CutUtf8(output, 99);
    assert |Chunks(output)| == 2 && Continuation(output[CHUNK * 1]);
    hide Read, Stream, ValidUtf8, Chunks;
    RoundTripIff(output, header);
  }
}
