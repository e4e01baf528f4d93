/**
 `readSSEStream` and `processSSEData` of internal/opencode/client.go: the
 line-driven reader of a server-sent event stream, against a reading of the
 stream as blocks between blank lines.
 */
module SseReader {
  import opened Common
  import opened Floats
  import opened JsonGrammar
  import opened JsonParser
  import opened JsonStrings

  const NEWLINE: byte := 0x0A
  const RETURN: byte := 0x0D
  const DATA: bytes := [0x64, 0x61, 0x74, 0x61, 0x3A, 0x20]            // "data: "
  const DONE: bytes := [0x5B, 0x44, 0x4F, 0x4E, 0x45, 0x5D]            // "[DONE]"
  const MAX_LINE: nat := 0x10_0000                                     // scanner buffer, 1 MiB

  // ---- bufio.ScanLines ----

  /** The lines of a stream, and whether scanning stopped at a line too long for the buffer. */
  datatype Scanned = Scanned(lines: seq<bytes>, tooLong: bool)

  function DropReturn(line: bytes): bytes {
    if line != [] && line[|line| - 1] == RETURN then line[..|line| - 1] else line
  }

  function LineEnd(s: bytes): (i: nat)
    ensures i <= |s| && (i < |s| ==> s[i] == NEWLINE) && NEWLINE !in s[..i]
  {
    if s == [] || s[0] == NEWLINE then 0
    else
      assert s[..1 + LineEnd(s[1..])] == [s[0]] + s[1..][..LineEnd(s[1..])];
      1 + LineEnd(s[1..])
  }

  function ScanLines(s: bytes): Scanned
    decreases |s|
  {
    var i := LineEnd(s);
    if s == [] then Scanned([], false)
    else if i >= MAX_LINE then Scanned([], true)
    else if i == |s| then Scanned([DropReturn(s)], false)
    else
      var rest := ScanLines(s[i + 1..]);
      Scanned([DropReturn(s[..i])] + rest.lines, rest.tooLong)
  }

  // ---- one event ----

  const CONTENT: bytes := [0x63, 0x6F, 0x6E, 0x74, 0x65, 0x6E, 0x74]   // "content"
  const TEXT: bytes := [0x74, 0x65, 0x78, 0x74]                        // "text"
  const USAGE: bytes := [0x75, 0x73, 0x61, 0x67, 0x65]                 // "usage"
  const TOTAL_TOKENS: bytes := [0x74, 0x6F, 0x74, 0x61, 0x6C, 0x5F, 0x74, 0x6F, 0x6B, 0x65, 0x6E, 0x73]

  /** The value a decoded object holds for a key; the last member of that name wins. */
  function LookupItems(items: Items, key: bytes): Option<Value> {
    var later := if items.More? then LookupItems(items.rest, key) else None;
    if later.Some? then later
    else if items.item.lead.Member? && Unquote(items.item.lead.key) == key then Some(items.item.value)
    else None
  }

  function Lookup(v: Value, key: bytes): Option<Value> {
    if v.Full? && v.kind.Brace? then LookupItems(v.items, key) else None
  }

  function StringOf(v: Option<Value>): bytes {
    if v.Some? && v.value.Str? then Unquote(v.value.body) else []
  }

  function DigitRun(s: bytes): (n: nat)
    ensures n <= |s|
  {
    if s == [] || !Digit(s[0]) then 0 else 1 + DigitRun(s[1..])
  }

  function Pow10(n: nat): (p: int)
    ensures p > 0
  {
    if n == 0 then 1 else 10 * Pow10(n - 1)
  }

  /** The exponent part `e...` of a number, 0 when there is none. */
  function ExponentOf(s: bytes): int {
    if s == [] then 0
    else
      var tail := s[1..];
      var digits := if tail != [] && (tail[0] == 0x2B || tail[0] == 0x2D) then tail[1..] else tail;
      var e: int := Undec(digits[..DigitRun(digits)]);
      if tail != [] && tail[0] == 0x2D then -e else e
  }

  /** The number `± mantissa * 10^scale`. */
  datatype Decimal = Decimal(negative: bool, mantissa: nat, scale: int)

  function DecimalOf(text: bytes): Decimal {
    var negative := text != [] && text[0] == 0x2D;
    var body := if negative then text[1..] else text;
    var n := DigitRun(body);
    var tail := body[n..];
    var frac := if tail != [] && tail[0] == 0x2E then tail[1..][..DigitRun(tail[1..])] else [];
    var exponent := ExponentOf(if frac == [] then tail else tail[1 + |frac|..]);
    Decimal(negative, Undec(body[..n] + frac), exponent - |frac|)
  }

  /** The size of a decimal as a fraction. */
  function Fraction(d: Decimal): (f: (nat, nat))
    ensures f.1 > 0
  {
    if d.scale >= 0 then (d.mantissa * Pow10(d.scale), 1) else (d.mantissa, Pow10(-d.scale))
  }

  /** A JSON number as the float64 it is read into, truncated towards zero. */
  function Truncated(text: bytes): int {
    var d := DecimalOf(text);
    var (p, q) := Fraction(d);
    var size: int := FloatPart(p, q);
    if d.negative then -size else size
  }

  predicate NumberFits(text: bytes) {
    NumberFrom(NStart, text) ==> var (p, q) := Fraction(DecimalOf(text)); FloatFits(p, q)
  }

  /** All numbers of a value can be read into float64. */
  predicate NumbersFit(v: Value) {
    match v
    case Scalar(t) => NumberFits(t)
    case Str(_) => true
    case Empty(_, _) => true
    case Full(_, items) => NumbersFitItems(items)
  }

  predicate NumbersFitItems(items: Items) {
    NumbersFit(items.item.value) && (items.More? ==> NumbersFitItems(items.rest))
  }

  /** What `Unmarshal` accepts as an event: a text in which no number overflows. */
  function ParseEvent(data: bytes): Option<Value> {
    match ParseText(data)
    case None => None
    case Some(v) => if NumbersFit(v) then Some(v) else None
  }

  function TokensOf(v: Option<Value>): int {
    if v.Some? && v.value.Scalar? && NumberFrom(NStart, v.value.text) then Truncated(v.value.text) else 0
  }

  /**
   The text and the tokens an event contributes; what is no JSON object, or holds
   a number beyond float64, contributes nothing.
   */
  function EventText(data: bytes): bytes {
    match ParseEvent(data)
    case None => []
    case Some(v) => StringOf(Lookup(v, CONTENT)) + StringOf(Lookup(v, TEXT))
  }

  function EventTokens(data: bytes): int {
    match ParseEvent(data)
    case None => 0
    case Some(v) =>
      match Lookup(v, USAGE)
      case None => 0
      case Some(usage) => TokensOf(Lookup(usage, TOTAL_TOKENS))
  }

  // ---- the stream as blocks ----

  /** The groups of lines closed by a blank line, and the lines after the last blank one. */
  function Blocks(lines: seq<bytes>): (r: (seq<seq<bytes>>, seq<bytes>)) {
    if lines == [] then ([], [])
    else
      var (closed, open) := Blocks(lines[..|lines| - 1]);
      var line := lines[|lines| - 1];
      if line == [] then (closed + [open], []) else (closed, open + [line])
  }

  /** Appends a data line to a payload; a newline goes between, but not after an empty payload. */
  function Joined(payload: bytes, data: bytes): bytes {
    if payload == [] then data else payload + [NEWLINE] + data
  }

  /** The data lines of a block joined; all other fields are ignored. */
  function Payload(block: seq<bytes>): bytes {
    if block == [] then []
    else
      var before, line := Payload(block[..|block| - 1]), block[|block| - 1];
      if DATA <= line then Joined(before, line[|DATA|..]) else before
  }

  /** The payloads of the blocks that have one. */
  function Events(blocks: seq<seq<bytes>>): seq<bytes> {
    if blocks == [] then []
    else
      var before, p := Events(blocks[..|blocks| - 1]), Payload(blocks[|blocks| - 1]);
      if p == [] then before else before + [p]
  }

  /** The events before the first `[DONE]`. */
  function UpToDone(events: seq<bytes>): seq<bytes> {
    if events == [] then []
    else if DONE in events[..|events| - 1] || events[|events| - 1] == DONE then UpToDone(events[..|events| - 1])
    else events
  }

  function Texts(events: seq<bytes>): bytes {
    if events == [] then [] else Texts(events[..|events| - 1]) + EventText(events[|events| - 1])
  }

  function TokenSum(events: seq<bytes>): int {
    if events == [] then 0 else TokenSum(events[..|events| - 1]) + EventTokens(events[|events| - 1])
  }

  /** The last event of a stream that ends without a blank line; a late `[DONE]` is no event. */
  function Tail(lines: seq<bytes>): seq<bytes> {
    var (closed, open) := Blocks(lines);
    var p := Payload(open);
    if DONE in Events(closed) || p == [] || p == DONE then [] else [p]
  }

  datatype Reading = Reading(content: bytes, tokens: int, tooLong: bool, heartbeats: nat)

  /** What reading a stream returns; `header` is the token count of the response header. */
  function Read(stream: bytes, header: Option<int>): Reading {
    var s := ScanLines(stream);
    var events := Events(Blocks(s.lines).0);
    var counted := UpToDone(events);
    var all := counted + Tail(s.lines);
    var tooLong := s.tooLong && DONE !in events;
    var tokens := TokenSum(all);
    Reading(Texts(all), if !tooLong && tokens == 0 && header.Some? then header.value else tokens, tooLong, |counted| / 10)
  }

  // ---- facts about the reading ----

  lemma BlocksSnoc(lines: seq<bytes>, line: bytes)
    ensures var (closed, open) := Blocks(lines);
            Blocks(lines + [line]) == if line == [] then (closed + [open], []) else (closed, open + [line])
  {
    assert (lines + [line])[..|lines|] == lines;
  }

  lemma PayloadSnoc(block: seq<bytes>, line: bytes)
    ensures Payload(block + [line]) == if DATA <= line then Joined(Payload(block), line[|DATA|..]) else Payload(block)
  {
    assert (block + [line])[..|block|] == block;
  }

  lemma EventsSnoc(blocks: seq<seq<bytes>>, block: seq<bytes>)
    ensures Events(blocks + [block]) == if Payload(block) == [] then Events(blocks) else Events(blocks) + [Payload(block)]
  {
    assert (blocks + [block])[..|blocks|] == blocks;
  }

  lemma TextsSnoc(events: seq<bytes>, e: bytes)
    ensures Texts(events + [e]) == Texts(events) + EventText(e) && TokenSum(events + [e]) == TokenSum(events) + EventTokens(e)
  {
    assert (events + [e])[..|events|] == events;
  }

  /** The texts are joined in order and the tokens added up. */
  lemma {:induction false} TextsAppend(a: seq<bytes>, b: seq<bytes>)
    ensures Texts(a + b) == Texts(a) + Texts(b) && TokenSum(a + b) == TokenSum(a) + TokenSum(b)
    ensures |b| == 1 ==> Texts(b) == EventText(b[0]) && TokenSum(b) == EventTokens(b[0])
    decreases |b|
  {
    hide EventText, EventTokens;
    if b == [] {
      assert a + b == a && Texts(a) + [] == Texts(a);
    } else {
      var front, e := b[..|b| - 1], b[|b| - 1];
      TextsAppend(a, front);
      TextsSnoc(a + front, e);
      assert a + b == a + front + [e];
      assert [] + EventText(e) == EventText(e);
    }
  }

  lemma {:induction false} NoDone(events: seq<bytes>)
    requires DONE !in events
    ensures UpToDone(events) == events
  {
  }

  /** Nothing after the first `[DONE]` is ever looked at. */
  lemma {:induction false} DoneStops(events: seq<bytes>, more: seq<bytes>)
    requires DONE !in events
    ensures UpToDone(events + [DONE] + more) == events
    decreases |more|
  {
    var all := events + [DONE] + more;
    if more == [] {
      assert all[..|all| - 1] == events;
      NoDone(events);
    } else {
      var front := more[..|more| - 1];
      assert all[..|all| - 1] == events + [DONE] + front;
      assert (events + [DONE] + front)[|events|] == DONE;
      DoneStops(events, front);
    }
  }

  /** More lines only add events. */
  lemma {:induction false} MoreLinesMoreEvents(lines: seq<bytes>, more: seq<bytes>)
    ensures Events(Blocks(lines).0) <= Events(Blocks(lines + more).0)
    decreases |more|
  {
    if more == [] {
      assert lines + more == lines;
    } else {
      var front, line := more[..|more| - 1], more[|more| - 1];
      MoreLinesMoreEvents(lines, front);
      assert lines + more == lines + front + [line];
      BlocksSnoc(lines + front, line);
      EventsSnoc(Blocks(lines + front).0, Blocks(lines + front).1);
    }
  }

  // ---- the reader ----

  /** Parses one payload, appends its text to the builder and returns its tokens. */
  method ProcessSSEData(data: bytes, result: bytes) returns (text: bytes, tokens: int)
    ensures text == result + EventText(data) && tokens == EventTokens(data)
  {
    hide ParseEvent, Lookup, Unquote, TokensOf;
    text, tokens := result, 0;
    assert result + [] == result;
    var event := ParseEvent(data);
    if event.Some? {
      var content := Lookup(event.value, CONTENT);
      if content.Some? && content.value.Str? {
        text := text + Unquote(content.value.body);
      }
      var more := Lookup(event.value, TEXT);
      if more.Some? && more.value.Str? {
        text := text + Unquote(more.value.body);
      }
      Append3(result, StringOf(content), StringOf(more));
      assert text == result + (StringOf(content) + StringOf(more));
      var usage := Lookup(event.value, USAGE);
      if usage.Some? {
        tokens := TokensOf(Lookup(usage.value, TOTAL_TOKENS));
      }
    }
  }

  /** The events closed by the first `i` lines. */
  ghost function Before(lines: seq<bytes>, i: nat): seq<bytes>
    requires i <= |lines|
  {
    Events(Blocks(lines[..i]).0)
  }

  /** The payload those lines leave open. */
  ghost function Pending(lines: seq<bytes>, i: nat): bytes
    requires i <= |lines|
  {
    Payload(Blocks(lines[..i]).1)
  }

  lemma NothingRead(lines: seq<bytes>)
    ensures Before(lines, 0) == [] && Pending(lines, 0) == [] && Texts([]) == [] && TokenSum([]) == 0
    ensures Before(lines, |lines|) == Events(Blocks(lines).0) && Pending(lines, |lines|) == Payload(Blocks(lines).1)
  {
    assert lines[..|lines|] == lines;
  }

  /** What one more line does to the events and to the open block. */
  lemma LineRead(lines: seq<bytes>, i: nat)
    requires i < |lines|
    ensures var p := Pending(lines, i);
            if lines[i] == [] then
              Pending(lines, i + 1) == [] && Before(lines, i + 1) == if p == [] then Before(lines, i) else Before(lines, i) + [p]
            else
              && Before(lines, i + 1) == Before(lines, i)
              && Pending(lines, i + 1) == if DATA <= lines[i] then Joined(p, lines[i][|DATA|..]) else p
  {
    var (closed, open) := Blocks(lines[..i]);
    assert lines[..i + 1] == lines[..i] + [lines[i]];
    BlocksSnoc(lines[..i], lines[i]);
    EventsSnoc(closed, open);
    PayloadSnoc(open, lines[i]);
  }

  /** Once a `[DONE]` event has been read the rest of the lines does not matter. */
  lemma DoneRead(lines: seq<bytes>, i: nat, seen: seq<bytes>)
    requires i <= |lines| && DONE !in seen && Before(lines, i) == seen + [DONE]
    ensures var events := Events(Blocks(lines).0); UpToDone(events) == seen && DONE in events
  {
    hide Blocks, Events, UpToDone;
    MoreLinesMoreEvents(lines[..i], lines[i..]);
    assert lines[..i] + lines[i..] == lines;
    DonePrefix(Events(Blocks(lines).0), seen);
  }

  lemma DonePrefix(events: seq<bytes>, seen: seq<bytes>)
    requires seen + [DONE] <= events && DONE !in seen
    ensures UpToDone(events) == seen && DONE in events
  {
    hide UpToDone;
    DoneStops(seen, events[|seen| + 1..]);
    assert events == seen + [DONE] + events[|seen| + 1..];
    assert events[|seen|] == DONE;
  }

  /** The scanning loop: consumes lines up to a `[DONE]` event or to the end. */
  method ReadLines(lines: seq<bytes>)
    returns (result: bytes, dataBuf: bytes, tokensUsed: int, heartbeats: nat, done: bool)
    ensures var events := Events(Blocks(lines).0);
            && result == Texts(UpToDone(events)) && tokensUsed == TokenSum(UpToDone(events))
            && heartbeats == |UpToDone(events)| / 10 && (done <==> DONE in events)
            && dataBuf == if done then [] else Payload(Blocks(lines).1)
  {
    hide Blocks, Payload, Events, Texts, TokenSum, UpToDone, EventText, EventTokens, Before, Pending;
    result, dataBuf, tokensUsed, heartbeats, done := [], [], 0, 0, false;
    var eventCount := 0;
    ghost var seen: seq<bytes> := [];
    NothingRead(lines);
    var i := 0;
    while i < |lines|
      invariant i <= |lines| && !done
      invariant seen == Before(lines, i) && DONE !in seen
      invariant dataBuf == Pending(lines, i)
      invariant result == Texts(seen) && tokensUsed == TokenSum(seen)
      invariant eventCount == |seen| && heartbeats == eventCount / 10
    {
      var line := lines[i];
      LineRead(lines, i);
      i := i + 1;
      if line == [] {
        if |dataBuf| > 0 {
          var data := dataBuf;
          dataBuf := [];
          if data == DONE {
            done := true;
            DoneRead(lines, i, seen);
            break;
          }
          var tokens;
          result, tokens := ProcessSSEData(data, result);
          tokensUsed := tokensUsed + tokens;
          TextsSnoc(seen, data);
          seen := seen + [data];
          eventCount := eventCount + 1;
          if eventCount % 10 == 0 {
            heartbeats := heartbeats + 1;
          }
        }
        continue;
      }
      if DATA <= line {
        if |dataBuf| > 0 {
          dataBuf := dataBuf + [NEWLINE];
        }
        dataBuf := dataBuf + line[|DATA|..];
      }
    }
    if !done {
      NoDone(seen);
    }
  }

  method ReadSSEStream(stream: bytes, header: Option<int>) returns (r: Reading)
    ensures r == Read(stream, header)
  {
    hide ScanLines, Blocks, Payload, Events, Texts, TokenSum, UpToDone, EventText, EventTokens;
    var scanned := ScanLines(stream);
    var result, dataBuf, tokensUsed, heartbeats, done := ReadLines(scanned.lines);
    ghost var counted := UpToDone(Events(Blocks(scanned.lines).0));
    assert counted + [] == counted;
    if |dataBuf| > 0 {
      if dataBuf != DONE {
        var tokens;
        result, tokens := ProcessSSEData(dataBuf, result);
        tokensUsed := tokensUsed + tokens;
        TextsSnoc(counted, dataBuf);
      }
    }
    if scanned.tooLong && !done {
      return Reading(result, tokensUsed, true, heartbeats);
    }
    if tokensUsed == 0 && header.Some? {
      tokensUsed := header.value;
    }
    return Reading(result, tokensUsed, false, heartbeats);
  }
}
