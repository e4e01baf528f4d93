/**
 The streaming handler of cmd/mock-opencode/main.go, which cuts its output into
 events of 100 bytes.
 */
module SseWriter {
  import opened Common
  import opened JsonGrammar
  import opened JsonParser
  import opened JsonStrings
  import opened SseReader

  const CHUNK: nat := 100
  const OUTPUT: bytes := [0x4F, 0x55, 0x54, 0x50, 0x55, 0x54, 0x3A]   // "OUTPUT:"
  const PLACEHOLDER: bytes := [0x70, 0x6C, 0x61, 0x63, 0x65, 0x68, 0x6F, 0x6C, 0x64, 0x65, 0x72, 0x20,
                               0x72, 0x65, 0x73, 0x75, 0x6C, 0x74, 0x20, 0x66, 0x6F, 0x72, 0x20,
                               0x70, 0x72, 0x6F, 0x6D, 0x70, 0x74, 0x3A, 0x20]   // "placeholder result for prompt: "
  const PROMPT_TOKENS: bytes := [0x70, 0x72, 0x6F, 0x6D, 0x70, 0x74, 0x5F, 0x74, 0x6F, 0x6B, 0x65, 0x6E, 0x73]
  const COMPLETION_TOKENS: bytes := [0x63, 0x6F, 0x6D, 0x70, 0x6C, 0x65, 0x74, 0x69, 0x6F, 0x6E, 0x5F,
                                     0x74, 0x6F, 0x6B, 0x65, 0x6E, 0x73]

  // ---- what json.Marshal writes for the handler's maps: keys sorted, no blanks ----

  function Field(key: bytes, v: Value): Item { Item(Member([], key, [], []), v, []) }

  function ContentEvent(chunk: bytes): Value { Full(Brace, Last(Field(CONTENT, Str(Escape(chunk))))) }

  function UsageCounts(n: nat): Value {
    Full(Brace, More(Field(COMPLETION_TOKENS, Scalar(Dec(n / 6))),
                     More(Field(PROMPT_TOKENS, Scalar(Dec(n / 12))),
                          Last(Field(TOTAL_TOKENS, Scalar(Dec(n / 4)))))))
  }

  function UsageEvent(n: nat): Value {
    Full(Brace, More(Field(CONTENT, Str([])), Last(Field(USAGE, UsageCounts(n)))))
  }

  // ---- the body of the response ----

  function Frame(p: bytes): bytes { DATA + p + [NEWLINE, NEWLINE] }

  function Frames(payloads: seq<bytes>): bytes {
    if payloads == [] then [] else Frames(payloads[..|payloads| - 1]) + Frame(payloads[|payloads| - 1])
  }

  /** The chunks of an output: `CHUNK` bytes each, the last one what is left. */
  function Chunks(output: bytes): seq<bytes> {
    seq((|output| + CHUNK - 1) / CHUNK, i requires 0 <= i < (|output| + CHUNK - 1) / CHUNK => ChunkAt(output, i))
  }

  function ChunkAt(output: bytes, i: nat): bytes
    requires i < (|output| + CHUNK - 1) / CHUNK
  {
    output[CHUNK * i..if CHUNK * i + CHUNK > |output| then |output| else CHUNK * i + CHUNK]
  }

  /** The chunks sent: at least one, if only an empty one. */
  function Sent(output: bytes): seq<bytes> { if output == [] then [[]] else Chunks(output) }

  function ContentEvents(chunks: seq<bytes>): seq<bytes> {
    seq(|chunks|, i requires 0 <= i < |chunks| => Print(ContentEvent(chunks[i])))
  }

  function Payloads(output: bytes): seq<bytes> {
    ContentEvents(Sent(output)) + [Print(UsageEvent(|output|))]
  }

  function Stream(output: bytes): bytes { Frames(Payloads(output) + [DONE]) }

  function OutputFor(content: bytes): bytes {
    if OUTPUT <= content then content[|OUTPUT|..] else PLACEHOLDER + content
  }

  lemma FramesSnoc(payloads: seq<bytes>, p: bytes)
    ensures Frames(payloads + [p]) == Frames(payloads) + Frame(p)
  {
    assert (payloads + [p])[..|payloads|] == payloads;
  }

  lemma ContentEventsSnoc(chunks: seq<bytes>, chunk: bytes)
    ensures ContentEvents(chunks + [chunk]) == ContentEvents(chunks) + [Print(ContentEvent(chunk))]
  {
  }

  /** The offset of a chunk tells whether there is one. */
  lemma Progress(output: bytes, sent: nat)
    ensures CHUNK * sent < |output| <==> sent < |Chunks(output)|
  {
  }

  /** The body after `k` chunks. */
  ghost function BodyAfter(output: bytes, k: nat): bytes
    requires k <= |Chunks(output)|
  {
    Frames(ContentEvents(Chunks(output)[..k]))
  }

  lemma SendChunk(output: bytes, sent: nat)
    requires sent < |Chunks(output)|
    ensures BodyAfter(output, sent + 1) == BodyAfter(output, sent) + Frame(Print(ContentEvent(ChunkAt(output, sent))))
  {
    hide Frames, Frame, Print, ContentEvent, ContentEvents;
    var before, chunk := Chunks(output)[..sent], ChunkAt(output, sent);
    assert Chunks(output)[..sent + 1] == before + [chunk];
    ContentEventsSnoc(before, chunk);
    FramesSnoc(ContentEvents(before), Print(ContentEvent(chunk)));
  }

  /** What follows the chunks closes the stream; an empty output is sent as one empty chunk. */
  lemma CloseStream(output: bytes)
    ensures BodyAfter(output, 0) == []
    ensures var chunks := BodyAfter(output, |Chunks(output)|);
            var sent := if output == [] then chunks + Frame(Print(ContentEvent([]))) else chunks;
            sent + Frame(Print(UsageEvent(|output|))) + Frame(DONE) == Stream(output)
  {
    hide Frame, Print, ContentEvent, UsageEvent;
    FramesSnoc(ContentEvents(Sent(output)), Print(UsageEvent(|output|)));
    FramesSnoc(Payloads(output), DONE);
    assert Chunks(output)[..|Chunks(output)|] == Chunks(output);
    if output == [] {
      FramesSnoc([], Print(ContentEvent([])));
      assert ContentEvents([[]]) == [] + [Print(ContentEvent([]))] && Chunks(output) == [];
    }
  }

  /** A message that begins with `OUTPUT:` asks for the rest of it, any other gets a fixed answer. */
  ghost predicate Requested(content: bytes, output: bytes) {
    if Ascii("OUTPUT:") <= content then content == Ascii("OUTPUT:") + output
    else output == Ascii("placeholder result for prompt: ") + content
  }

  lemma Prefixes()
    ensures OUTPUT == Ascii("OUTPUT:") && PLACEHOLDER == Ascii("placeholder result for prompt: ")
  {
  }

  lemma Chosen(content: bytes)
    requires OUTPUT == Ascii("OUTPUT:") && PLACEHOLDER == Ascii("placeholder result for prompt: ")
    ensures Requested(content, OutputFor(content))
  {
    hide Ascii;
  }

  lemma OutputIs(content: bytes)
    ensures Requested(content, OutputFor(content))
  {
    hide *;
    Prefixes();
    Chosen(content);
  }

  method ServeMessage(content: bytes) returns (body: bytes)
    ensures body == Stream(OutputFor(content)) && Requested(content, OutputFor(content))
  {
    OutputIs(content);
    hide OutputFor, Requested, BodyAfter, Frame, Print, ContentEvent, UsageEvent, Stream, Chunks;
    var output := OutputFor(content);
    CloseStream(output);
    Progress(output, 0);
    body := [];
    ghost var sent := 0;
    var i := 0;
    while i < |output|
      invariant i == CHUNK * sent && sent <= |Chunks(output)|
      invariant i < |output| <==> sent < |Chunks(output)|
      invariant body == BodyAfter(output, sent)
    {
      var end := i + CHUNK;
      if end > |output| {
        end := |output|;
      }
      var chunk := output[i..end];
      SendChunk(output, sent);
      Progress(output, sent + 1);
      body := body + Frame(Print(ContentEvent(chunk)));
      i := i + CHUNK;
      sent := sent + 1;
    }
    if |output| == 0 {
      body := body + Frame(Print(ContentEvent([])));
    }
    body := body + Frame(Print(UsageEvent(|output|)));
    body := body + Frame(DONE);
  }

  // ---- the body as text ----

  lemma Names()
    ensures CONTENT == Ascii("content") && USAGE == Ascii("usage") && TOTAL_TOKENS == Ascii("total_tokens")
    ensures PROMPT_TOKENS == Ascii("prompt_tokens") && COMPLETION_TOKENS == Ascii("completion_tokens")
    ensures DATA == Ascii("data: ") && DONE == Ascii("[DONE]")
  {
  }

  function Quoted(s: bytes): bytes { Ascii("\"") + s + Ascii("\"") }

  lemma FieldText(key: bytes, v: Value)
    ensures PrintItem(Field(key, v)) == Quoted(key) + Ascii(":") + Print(v)
  {
    hide Print;
    assert Ascii("\"") == [QUOTE] && Ascii(":") == [COLON];
    assert PrintLead(Member([], key, [], [])) == [QUOTE] + key + [QUOTE] + [COLON];
  }

  lemma ObjectText(items: Items)
    ensures Print(Full(Brace, items)) == Ascii("{") + PrintItems(items) + Ascii("}")
    ensures items.More? ==> PrintItems(items) == PrintItem(items.item) + Ascii(",") + PrintItems(items.rest)
    ensures items.Last? ==> PrintItems(items) == PrintItem(items.item)
  {
    assert Ascii("{") == [0x7B] && Ascii("}") == [0x7D] && Ascii(",") == [COMMA];
  }

  lemma FrameText(p: bytes)
    ensures Frame(p) == Ascii("data: ") + p + Ascii("\n\n")
  {
    assert Ascii("\n\n") == [NEWLINE, NEWLINE];
  }

  /** A content event as it is written. */
  lemma ContentFrame(chunk: bytes)
    ensures Frame(Print(ContentEvent(chunk)))
         == Ascii("data: ") + (Ascii("{") + (Quoted(Ascii("content")) + Ascii(":") + Quoted(Escape(chunk))) + Ascii("}")) + Ascii("\n\n")
  {
    var v := Str(Escape(chunk));
    assert Print(v) == Quoted(Escape(chunk)) by { assert Ascii("\"") == [QUOTE]; }
    Names();
    hide Print, PrintItem, PrintItems, Field, Frame, Quoted, Ascii;
    FieldText(CONTENT, v);
    ObjectText(Last(Field(CONTENT, v)));
    FrameText(Print(ContentEvent(chunk)));
  }

  /** The counts of the usage event: a sixth, a twelfth and a quarter of the length. */
  lemma UsageText(n: nat)
    ensures Print(UsageCounts(n))
         == Ascii("{") + (Quoted(Ascii("completion_tokens")) + Ascii(":") + Dec(n / 6) + Ascii(",")
                          + (Quoted(Ascii("prompt_tokens")) + Ascii(":") + Dec(n / 12) + Ascii(",")
                             + (Quoted(Ascii("total_tokens")) + Ascii(":") + Dec(n / 4)))) + Ascii("}")
  {
    var a, b, c := Scalar(Dec(n / 6)), Scalar(Dec(n / 12)), Scalar(Dec(n / 4));
    assert Print(a) == Dec(n / 6) && Print(b) == Dec(n / 12) && Print(c) == Dec(n / 4);
    Names();
    hide Print, PrintItem, PrintItems, Field, Quoted, Ascii, Dec;
    var last := Last(Field(TOTAL_TOKENS, c));
    var middle := More(Field(PROMPT_TOKENS, b), last);
    FieldText(COMPLETION_TOKENS, a);
    FieldText(PROMPT_TOKENS, b);
    FieldText(TOTAL_TOKENS, c);
    ObjectText(last);
    ObjectText(middle);
    ObjectText(More(Field(COMPLETION_TOKENS, a), middle));
  }

  /** The usage event as it is written. */
  lemma UsageFrame(n: nat)
    ensures Frame(Print(UsageEvent(n)))
         == Ascii("data: ") + (Ascii("{") + (Quoted(Ascii("content")) + Ascii(":") + Quoted([]) + Ascii(",")
                                            + (Quoted(Ascii("usage")) + Ascii(":") + Print(UsageCounts(n)))) + Ascii("}")) + Ascii("\n\n")
  {
    assert Print(Str([])) == Quoted([]) by { assert Ascii("\"") == [QUOTE]; }
    Names();
    hide Print, PrintItem, PrintItems, Field, Quoted, Ascii, UsageCounts, Frame;
    var last := Last(Field(USAGE, UsageCounts(n)));
    FieldText(CONTENT, Str([]));
    FieldText(USAGE, UsageCounts(n));
    ObjectText(last);
    ObjectText(More(Field(CONTENT, Str([])), last));
    FrameText(Print(UsageEvent(n)));
  }

  /** The body: a frame for each chunk, the usage frame, `[DONE]`. */
  lemma StreamText(output: bytes)
    ensures Stream(output) == Frames(ContentEvents(Sent(output))) + Frame(Print(UsageEvent(|output|))) + Ascii("data: [DONE]\n\n")
  {
    hide Print, UsageEvent, ContentEvents, Sent;
    FramesSnoc(ContentEvents(Sent(output)), Print(UsageEvent(|output|)));
    FramesSnoc(Payloads(output), DONE);
    assert Frame(DONE) == Ascii("data: [DONE]\n\n");
    hide Frame, Frames, Ascii;
  }

  /** The sizes of the chunks sent. */
  lemma SentSizes(output: bytes)
    ensures var sent := Sent(output);
            && |sent| >= 1 && (forall i :: 0 <= i < |sent| - 1 ==> |sent[i]| == 100)
            && (if output == [] then sent == [[]] else 1 <= |sent[|sent| - 1]| <= 100)
  {
    if output != [] {
      var chunks := Chunks(output);
      assert 100 * (|chunks| - 1) < |output| <= 100 * |chunks|;
      forall i | 0 <= i < |chunks| ensures chunks[i] == ChunkAt(output, i) && (i < |chunks| - 1 ==> |chunks[i]| == 100) {
        assert i < |chunks| - 1 ==> CHUNK * i + CHUNK <= 100 * (|chunks| - 1);
      }
    }
  }
}
