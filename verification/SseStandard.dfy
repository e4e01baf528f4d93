/**
 The reader against the standard: WHATWG HTML Living Standard, section 9.2.6
 "Interpreting an event stream", for streams that are UTF-8 and the data field.
 */
module SseStandard {
  import opened Common
  import opened JsonStrings
  import opened SseEnds
  import opened SseReader

  const FIELD: bytes := [0x64, 0x61, 0x74, 0x61]             // "data"
  const FIELD_COLON: bytes := FIELD + [COLON]                // "data:"

  /** The value of a data field: what follows the colon, without one leading space. */
  function FieldValue(line: bytes): bytes
    requires FIELD_COLON <= line
  {
    var v := line[|FIELD_COLON|..];
    if v != [] && v[0] == 0x20 then v[1..] else v
  }

  /** The events dispatched and the data buffer left, by the standard. */
  function Interpret(lines: seq<bytes>): (seq<bytes>, bytes) {
    if lines == [] then ([], [])
    else
      var (events, buffer) := Interpret(lines[..|lines| - 1]);
      var line := lines[|lines| - 1];
      if line == [] then
        if buffer == [] then (events, [])
        else (events + [if buffer[|buffer| - 1] == NEWLINE then buffer[..|buffer| - 1] else buffer], [])
      else if FIELD_COLON <= line then (events, buffer + FieldValue(line) + [NEWLINE])
      else if line == FIELD then (events, buffer + [NEWLINE])
      else (events, buffer)
  }

  lemma InterpretSnoc(lines: seq<bytes>, line: bytes)
    ensures var (events, buffer) := Interpret(lines);
            Interpret(lines + [line]) ==
            if line == [] then
              if buffer == [] then (events, [])
              else (events + [if buffer[|buffer| - 1] == NEWLINE then buffer[..|buffer| - 1] else buffer], [])
            else if FIELD_COLON <= line then (events, buffer + FieldValue(line) + [NEWLINE])
            else if line == FIELD then (events, buffer + [NEWLINE])
            else (events, buffer)
  {
    assert (lines + [line])[..|lines|] == lines;
  }

  // ---- block by block ----

  predicate IsField(line: bytes) { FIELD_COLON <= line || line == FIELD }

  function FieldLines(block: seq<bytes>): seq<bytes> {
    if block == [] then []
    else
      var before, line := FieldLines(block[..|block| - 1]), block[|block| - 1];
      if IsField(line) then before + [line] else before
  }

  /** Every data field of a block is written `data: `, and the first one is not empty. */
  predicate Steady(block: seq<bytes>) {
    && (forall i :: 0 <= i < |FieldLines(block)| ==> DATA <= FieldLines(block)[i])
    && (FieldLines(block) != [] ==> FieldLines(block)[0] != DATA)
  }

  /** The standard's data buffer after a block. */
  function Buffer(block: seq<bytes>): bytes {
    if block == [] then []
    else
      var before, line := Buffer(block[..|block| - 1]), block[|block| - 1];
      if FIELD_COLON <= line then before + FieldValue(line) + [NEWLINE]
      else if line == FIELD then before + [NEWLINE]
      else before
  }

  function Dispatched(blocks: seq<seq<bytes>>): seq<bytes> {
    if blocks == [] then []
    else
      var before, buffer := Dispatched(blocks[..|blocks| - 1]), Buffer(blocks[|blocks| - 1]);
      if buffer == [] then before else before + [buffer[..|buffer| - 1]]
  }

  lemma {:induction false} BufferEnds(block: seq<bytes>)
    ensures Buffer(block) != [] ==> Buffer(block)[|Buffer(block)| - 1] == NEWLINE
  {
    if block != [] { BufferEnds(block[..|block| - 1]); }
  }

  lemma BufferSnoc(block: seq<bytes>, line: bytes)
    ensures Buffer(block + [line]) == if FIELD_COLON <= line then Buffer(block) + FieldValue(line) + [NEWLINE]
                                      else if line == FIELD then Buffer(block) + [NEWLINE]
                                      else Buffer(block)
  {
    assert (block + [line])[..|block|] == block;
  }

  lemma DispatchedSnoc(blocks: seq<seq<bytes>>, block: seq<bytes>)
    ensures var b := Buffer(block);
            Dispatched(blocks + [block]) == if b == [] then Dispatched(blocks) else Dispatched(blocks) + [b[..|b| - 1]]
  {
    assert (blocks + [block])[..|blocks|] == blocks;
  }

  lemma {:induction false} InterpretIsDispatched(lines: seq<bytes>)
    ensures Interpret(lines) == (Dispatched(Blocks(lines).0), Buffer(Blocks(lines).1))
  {
    if lines != [] {
      var front, line := lines[..|lines| - 1], lines[|lines| - 1];
      InterpretIsDispatched(front);
      assert lines == front + [line] && Buffer([]) == [];
      hide Interpret, Blocks, Dispatched, Buffer, FieldValue;
      var (closed, open) := Blocks(front);
      BufferEnds(open);
      BufferSnoc(open, line);
      DispatchedSnoc(closed, open);
      InterpretSnoc(front, line);
      BlocksSnoc(front, line);
    }
  }

  lemma DataLine(line: bytes)
    ensures DATA <= line ==> FIELD_COLON <= line && FieldValue(line) == line[|DATA|..] && line != FIELD
    ensures FIELD_COLON <= line ==> line != FIELD
    ensures line == DATA <==> DATA <= line && line[|DATA|..] == []
  {
    assert DATA == FIELD_COLON + [0x20];
    if DATA <= line { assert FIELD_COLON <= line && line[5] == DATA[5]; }
  }

  /** How much the reader's payload of a block falls short of the standard's. */
  ghost predicate Compared(block: seq<bytes>) {
    var p, b := Payload(block), Buffer(block);
    && (b == [] <==> FieldLines(block) == []) && (b == [] ==> p == []) && |p| <= |b|
    && (b != [] ==> |p| + 1 <= |b|)
    && (Steady(block) ==> b == if p == [] then [] else p + [NEWLINE])
    && (!Steady(block) ==> b != [] && (p == [] || |p| + 1 < |b|))
  }

  lemma {:induction false} BlockCompared(block: seq<bytes>)
    ensures Compared(block)
  {
    if block != [] {
      var front, line := block[..|block| - 1], block[|block| - 1];
      BlockCompared(front);
      DataLine(line);
      assert block == front + [line];
      ComparedStep(front, line);
    }
  }

  lemma ComparedStep(front: seq<bytes>, line: bytes)
    requires Compared(front)
    ensures Compared(front + [line])
  {
    var block := front + [line];
    DataLine(line);
    PayloadSnoc(front, line);
    assert block[..|front|] == front;
    var f, f' := FieldLines(front), FieldLines(block);
    if IsField(line) {
      assert f' == f + [line] && f'[|f|] == line;
      assert f != [] ==> f'[0] == f[0];
      assert (forall i :: 0 <= i < |f| ==> f'[i] == f[i]);
      assert Steady(block) <==> Steady(front) && DATA <= line && (f == [] ==> line != DATA);
    } else {
      assert Steady(block) <==> Steady(front);
    }
    hide Steady, Payload, FieldLines;
  }

  predicate AllSteady(blocks: seq<seq<bytes>>) { forall i :: 0 <= i < |blocks| ==> Steady(blocks[i]) }

  lemma AllSteadySnoc(blocks: seq<seq<bytes>>, block: seq<bytes>)
    ensures AllSteady(blocks + [block]) <==> AllSteady(blocks) && Steady(block)
  {
    hide Steady;
    assert AllSteady(blocks + [block]) ==> (blocks + [block])[|blocks|] == block;
    assert forall i :: 0 <= i < |blocks| ==> (blocks + [block])[i] == blocks[i];
  }

  lemma {:induction false} DispatchedIff(blocks: seq<seq<bytes>>)
    ensures |Events(blocks)| <= |Dispatched(blocks)| && (Events(blocks) == Dispatched(blocks) <==> AllSteady(blocks))
  {
    if blocks != [] {
      var front, block := blocks[..|blocks| - 1], blocks[|blocks| - 1];
      DispatchedIff(front);
      BlockCompared(block);
      AllSteadySnoc(front, block);
      assert blocks == front + [block];
      hide Steady, Buffer, Payload, FieldLines, AllSteady;
      SnocEqual(Events(front), Payload(block), Dispatched(front), Buffer(block), Steady(block));
    }
  }

  lemma SnocEqual(events: seq<bytes>, p: bytes, dispatched: seq<bytes>, b: bytes, steady: bool)
    requires |events| <= |dispatched| && (b == [] ==> p == []) && (b != [] ==> |p| + 1 <= |b|)
    requires steady ==> b == if p == [] then [] else p + [NEWLINE]
    requires !steady ==> b != [] && (p == [] || |p| + 1 < |b|)
    ensures var e, d := if p == [] then events else events + [p], if b == [] then dispatched else dispatched + [b[..|b| - 1]];
            |e| <= |d| && (e == d <==> events == dispatched && steady)
  {
    var e, d := if p == [] then events else events + [p], if b == [] then dispatched else dispatched + [b[..|b| - 1]];
    if e == d && b != [] {
      assert p != [] && e[|events|] == d[|dispatched|];
      assert e[..|events|] == d[..|dispatched|];
    }
  }

  /** The reader dispatches exactly the standard's events if and only if every closed block is steady. */
  lemma AgreesWithStandardIff(lines: seq<bytes>)
    ensures Events(Blocks(lines).0) == Interpret(lines).0 <==> AllSteady(Blocks(lines).0)
  {
    InterpretIsDispatched(lines);
    DispatchedIff(Blocks(lines).0);
  }

  // ---- from bytes to lines ----

  const BOM: bytes := [0xEF, 0xBB, 0xBF]

  /** The length of the first line by the standard: up to a newline or a return. */
  function LineStop(s: bytes): (i: nat)
    ensures i <= |s| && NEWLINE !in s[..i] && RETURN !in s[..i] && (i < |s| ==> s[i] == NEWLINE || s[i] == RETURN)
  {
    if s == [] || s[0] == NEWLINE || s[0] == RETURN then 0
    else
      assert s[..1 + LineStop(s[1..])] == [s[0]] + s[1..][..LineStop(s[1..])];
      1 + LineStop(s[1..])
  }

  /** The lines of the standard end at a return and newline, at a newline, or at a return. */
  function StandardLines(s: bytes): seq<bytes>
    decreases |s|
  {
    var i := LineStop(s);
    if s == [] then []
    else if i == |s| then [s]
    else
      var crlf := s[i] == RETURN && i + 1 < |s| && s[i + 1] == NEWLINE;
      [s[..i]] + StandardLines(if crlf then s[i + 2..] else s[i + 1..])
  }

  /** The names the standard uses; the byte order mark is U+FEFF. */
  lemma StandardNames()
    ensures FIELD == Ascii("data") && FIELD_COLON == Ascii("data:") && BOM == Utf8(0xFEFF)
  {
  }

  /** The events the standard dispatches for a UTF-8 stream; a byte order mark at its head is dropped. */
  function StandardEvents(stream: bytes): seq<bytes>
    requires ValidUtf8(stream)
  {
    Interpret(StandardLines(if BOM <= stream then stream[|BOM|..] else stream)).0
  }

  /** Every return is part of a line end with a newline. */
  predicate NoLoneReturn(s: bytes) {
    forall i :: 0 <= i < |s| && s[i] == RETURN ==> i + 1 < |s| && s[i + 1] == NEWLINE
  }

  lemma FirstStop(s: bytes)
    requires NoLoneReturn(s)
    ensures var i, e := LineStop(s), LineEnd(s);
            if i < |s| && s[i] == RETURN then e == i + 1 < |s| else e == i
  {
    var i, e := LineStop(s), LineEnd(s);
    assert forall m :: 0 <= m < i ==> s[m] != NEWLINE && s[m] != RETURN by {
      assert forall m :: 0 <= m < i ==> s[..i][m] == s[m];
    }
    assert forall m :: 0 <= m < e ==> s[m] != NEWLINE by {
      assert forall m :: 0 <= m < e ==> s[..e][m] == s[m];
    }
  }

  /** The first line by the standard, and the rest. */
  lemma StandardFirst(s: bytes)
    requires s != []
    ensures var i := LineStop(s);
            StandardLines(s)
            == if i == |s| then [s]
               else [s[..i]] + StandardLines(if s[i] == RETURN && i + 1 < |s| && s[i + 1] == NEWLINE then s[i + 2..] else s[i + 1..])
  {
  }

  lemma NoLoneReturnAfter(s: bytes, n: nat)
    requires NoLoneReturn(s) && n <= |s|
    ensures NoLoneReturn(s[n..])
  {
    assert forall i :: 0 <= i < |s[n..]| ==> s[n..][i] == s[i + n];
  }

  lemma {:induction false} LinesAgree(s: bytes)
    requires NoLoneReturn(s) && !ScanLines(s).tooLong
    ensures ScanLines(s).lines == StandardLines(s)
    decreases |s|
  {
    if s != [] {
      hide *;
      var e := LineEnd(s);
      StandardFirst(s);
      FirstStop(s);
      LineText(s);
      if e < |s| {
        FirstLine(s);
        NoLoneReturnAfter(s, e + 1);
        LinesAgree(s[e + 1..]);
      } else {
        LastLine(s);
      }
    }
  }

  /** Dropping the return leaves the line of the standard. */
  lemma LineText(s: bytes)
    requires s != [] && NoLoneReturn(s)
    ensures DropReturn(s[..LineEnd(s)]) == s[..LineStop(s)]
    ensures LineEnd(s) == |s| ==> LineStop(s) == |s| && s[..|s|] == s
  {
    hide LineStop, LineEnd, NoLoneReturn;
    FirstStop(s);
    var i, e := LineStop(s), LineEnd(s);
    if i < |s| && s[i] == RETURN {
      assert s[..e] == s[..i] + [RETURN];
    } else if i > 0 {
      assert s[..i][i - 1] != RETURN by { assert s[..i][i - 1] in s[..i]; }
    }
  }

  /**
   The whole way: a UTF-8 stream without a byte order mark and without lone
   returns, whose lines fit the buffer, whose blocks are steady and which ends with
   a blank line, is read as the standard interprets it, up to `[DONE]`.
   */
  lemma ReadsTheStandardEvents(stream: bytes, header: Option<int>)
    requires ValidUtf8(stream) && !(BOM <= stream) && NoLoneReturn(stream) && !ScanLines(stream).tooLong
    requires var lines := StandardLines(stream);
             lines != [] && lines[|lines| - 1] == [] && AllSteady(Blocks(lines).0)
    ensures var events := UpToDone(StandardEvents(stream));
            var tokens := TokenSum(events);
            Read(stream, header)
            == Reading(Texts(events), if tokens == 0 && header.Some? then header.value else tokens, false, |events| / 10)
  {
    hide ScanLines, StandardLines, Interpret, Events, UpToDone, AllSteady, Texts, TokenSum, NoLoneReturn, ValidUtf8;
    LinesAgree(stream);
    var lines := ScanLines(stream).lines;
    AgreesWithStandardIff(lines);
    BlocksSnoc(lines[..|lines| - 1], []);
    assert lines == lines[..|lines| - 1] + [[]];
    hide Blocks;
    var events := UpToDone(Interpret(lines).0);
    assert events + [] == events;
  }

  /** One field line, read by the code and by the standard. */
  lemma OneLine(line: bytes)
    requires FIELD_COLON <= line
    ensures Blocks([line]) == ([], [line]) && Payload([line]) == if DATA <= line then line[|DATA|..] else []
    ensures Interpret([line]) == ([], FieldValue(line) + [NEWLINE])
  {
    BlocksSnoc([], line);
    PayloadSnoc([], line);
    InterpretSnoc([], line);
    assert [] + [line] == [line] && [] + FieldValue(line) == FieldValue(line);
  }

  /** And then a blank line. */
  lemma BlankLine(lines: seq<bytes>)
    requires Blocks(lines) == ([], lines) && Interpret(lines).0 == []
    requires Interpret(lines).1 != [] && Interpret(lines).1[|Interpret(lines).1| - 1] == NEWLINE
    ensures Events(Blocks(lines + [[]]).0) == if Payload(lines) == [] then [] else [Payload(lines)]
    ensures Interpret(lines + [[]]).0 == [Interpret(lines).1[..|Interpret(lines).1| - 1]]
  {
    BlocksSnoc(lines, []);
    EventsSnoc([], lines);
    InterpretSnoc(lines, []);
  }

  /** Without the space after the colon a data line is an event by the standard and nothing to the reader. */
  lemma SpaceIsNeeded(x: byte)
    requires x != 0x20
    ensures Interpret([FIELD_COLON + [x]] + [[]]).0 == [[x]] && Events(Blocks([FIELD_COLON + [x]] + [[]]).0) == []
  {
    var line := FIELD_COLON + [x];
    assert line[5] != DATA[5];
    OneLine(line);
    assert FieldValue(line) == [x];
    BlankLine([line]);
  }

  /** After an empty first data line the standard keeps a newline the reader drops. */
  lemma LeadingEmptyLineIsDropped(x: byte)
    ensures Interpret([DATA] + [DATA + [x]] + [[]]).0 == [[NEWLINE, x]]
    ensures Events(Blocks([DATA] + [DATA + [x]] + [[]]).0) == [[x]]
  {
    var line := DATA + [x];
    assert FieldValue(DATA) == [] && FieldValue(line) == [x] && line[|DATA|..] == [x];
    OneLine(DATA);
    BlocksSnoc([DATA], line);
    PayloadSnoc([DATA], line);
    InterpretSnoc([DATA], line);
    assert [] + [NEWLINE] + [x] + [NEWLINE] == [NEWLINE, x, NEWLINE];
    assert [NEWLINE, x, NEWLINE][..2] == [NEWLINE, x];
    BlankLine([DATA] + [line]);
  }

  /** A data line at the very end of a stream is no event by the standard, and the reader reads it as one. */
  lemma UnterminatedIsDispatched(p: bytes, header: Option<int>)
    requires NEWLINE !in p && RETURN !in p && |p| + 6 < 1_048_576
    ensures Interpret(StandardLines(DATA + p)).0 == []
    ensures Read(DATA + p, header).content == if p == [] || p == DONE then [] else EventText(p)
  {
    hide ScanLines, StandardLines, Interpret, Read, EventText, FieldValue;
    var line := DATA + p;
    LonePayloadIsRead(p, header);
    OneLineScanned(p);
    assert NoLoneReturn(line) by { assert forall i :: 0 <= i < |line| ==> line[i] in line; }
    LinesAgree(line);
    OneLine(line);
  }
}
