/**
 A recursive-descent JSON parser over bytes: the executable reading of
 encoding/json's `Valid`, proved sound and complete for the grammar of
 `JsonGrammar`. It is what `ExtractJSON` validates candidates with.
 */
module JsonParser {
  import opened Common
  import opened JsonGrammar

  /** The string body up to its closing quote, and what follows the quote. */
  function ParseBody(s: bytes): (r: Option<(bytes, bytes)>)
    ensures r.Some? ==> |r.value.1| < |s|
  {
    if s == [] then None
    else if s[0] == QUOTE then Some(([], s[1..]))
    else
      var n := if s[0] == BACKSLASH then (if UnicodeEscape(s) then 6 else 2) else 1;
      if |s| < n || (if s[0] == BACKSLASH then n == 2 && !ShortEscape(s[1]) else s[0] < 0x20) then None
      else match ParseBody(s[n..])
        case None => None
        case Some(p) => Some((s[..n] + p.0, p.1))
  }

  function ParseLead(k: Kind, s: bytes): (r: Option<(Lead, bytes)>)
    ensures r.Some? ==> |r.value.1| <= |s|
  {
    var a := BlankRun(s);
    if k.Bracket? then Some((Elem(s[..a]), s[a..]))
    else if a == |s| || s[a] != QUOTE then None
    else match ParseBody(s[a + 1..])
      case None => None
      case Some((key, s1)) =>
        var b := BlankRun(s1);
        if b == |s1| || s1[b] != COLON then None
        else
          var s2 := s1[b + 1..];
          var c := BlankRun(s2);
          Some((Member(s[..a], key, s1[..b], s2[..c]), s2[c..]))
  }

  function KindOf(b: byte): Option<Kind> {
    if b == Open(Brace) then Some(Brace) else if b == Open(Bracket) then Some(Bracket) else None
  }

  /** Parses the value at the head of `s`, allowing `depth` more levels of nesting. */
  function ParseValue(s: bytes, depth: nat): (r: Option<(Value, bytes)>)
    ensures r.Some? ==> |r.value.1| < |s|
    decreases |s|, 0
  {
    if s == [] then None
    else if s[0] == QUOTE then
      match ParseBody(s[1..])
      case None => None
      case Some((body, rest)) => Some((Str(body), rest))
    else match KindOf(s[0])
      case Some(k) => if depth == 0 then None else ParseContainer(k, s, depth)
      case None =>
        var n := ScalarRun(s);
        if n > 0 && IsScalar(s[..n]) then Some((Scalar(s[..n]), s[n..])) else None
  }

  function ParseContainer(k: Kind, s: bytes, depth: nat): (r: Option<(Value, bytes)>)
    requires s != [] && depth > 0
    ensures r.Some? ==> |r.value.1| < |s|
    decreases |s|, 0, 0
  {
    var tail := s[1..];
    var n := BlankRun(tail);
    if n < |tail| && tail[n] == Close(k) then Some((Empty(k, tail[..n]), tail[n + 1..]))
    else match ParseItems(k, tail, depth - 1)
      case None => None
      case Some((items, rest)) =>
        if rest != [] && rest[0] == Close(k) then Some((Full(k, items), rest[1..])) else None
  }

  /** One member or element: its lead, its value and the blanks after it. */
  function ParseItem(k: Kind, s: bytes, depth: nat): (r: Option<(Item, bytes)>)
    ensures r.Some? ==> |r.value.1| < |s|
    decreases |s|, 1
  {
    match ParseLead(k, s)
    case None => None
    case Some((lead, s1)) =>
      match ParseValue(s1, depth)
      case None => None
      case Some((v, s2)) =>
        var n := BlankRun(s2);
        Some((Item(lead, v, s2[..n]), s2[n..]))
  }

  function ParseItems(k: Kind, s: bytes, depth: nat): (r: Option<(Items, bytes)>)
    ensures r.Some? ==> |r.value.1| < |s|
    decreases |s|, 2
  {
    match ParseItem(k, s, depth)
    case None => None
    case Some((item, s1)) =>
      if s1 != [] && s1[0] == COMMA then
        match ParseItems(k, s1[1..], depth)
        case None => None
        case Some((more, rest)) => Some((More(item, more), rest))
      else Some((Last(item), s1))
  }

  /** The single value a whole text holds between optional blanks. */
  function ParseText(s: bytes): Option<Value> {
    match ParseValue(s[BlankRun(s)..], MAX_NESTING)
    case None => None
    case Some((v, rest)) => if BlankRun(rest) == |rest| then Some(v) else None
  }

  /** encoding/json's `Valid`. */
  predicate Valid(s: bytes) { ParseText(s).Some? }

  // ---- soundness: what is parsed was printed ----

  lemma {:induction false} BodySound(s: bytes)
    requires ParseBody(s).Some?
    ensures var (body, rest) := ParseBody(s).value; StringBody(body) && s == body + ([QUOTE] + rest)
  {
    if s[0] == QUOTE {
      assert s == [] + ([QUOTE] + s[1..]);
    } else {
      var n := if s[0] == BACKSLASH then (if UnicodeEscape(s) then 6 else 2) else 1;
      BodySound(s[n..]);
      var (tail, rest) := ParseBody(s[n..]).value;
      BodyUnit(s[..n], tail);
      Cut(s, n);
      Append3(s[..n], tail, [QUOTE] + rest);
    }
  }

  /** One character or one escape of a string body. */
  predicate StringUnit(unit: bytes) {
    unit != []
    && if unit[0] == BACKSLASH then (UnicodeEscape(unit) && |unit| == 6) || (|unit| == 2 && ShortEscape(unit[1]))
       else |unit| == 1 && unit[0] >= 0x20 && unit[0] != QUOTE
  }

  /** A string body may be preceded by one more unit. */
  lemma BodyUnit(unit: bytes, tail: bytes)
    requires StringUnit(unit) && StringBody(tail)
    ensures StringBody(unit + tail)
  {
    var body := unit + tail;
    TakeDrop(unit, tail);
    assert forall i :: 0 <= i < |unit| ==> body[i] == unit[i];
    if |unit| == 2 { assert !UnicodeEscape(body); }
  }

  lemma {:induction false} LeadSound(k: Kind, s: bytes)
    requires ParseLead(k, s).Some?
    ensures var (lead, rest) := ParseLead(k, s).value; WellFormedLead(k, lead) && s == LeadThen(lead, rest)
  {
    hide ParseBody, StringBody, BlankRun;
    var a := BlankRun(s);
    if k.Bracket? {
      Cut(s, a);
    } else {
      CutAt(s, a);
      BodySound(s[a + 1..]);
      var (key, s1) := ParseBody(s[a + 1..]).value;
      var b := BlankRun(s1);
      var s2 := s1[b + 1..];
      var c := BlankRun(s2);
      CutAt(s1, b);
      Cut(s2, c);
      assert ParseLead(k, s).value == (Member(s[..a], key, s1[..b], s2[..c]), s2[c..]);
    }
  }

  lemma {:induction false} ValueSound(s: bytes, depth: nat)
    requires ParseValue(s, depth).Some?
    ensures var (v, rest) := ParseValue(s, depth).value;
            WellFormed(v) && Nesting(v) <= depth && s == PrintThen(v, rest)
    decreases |s|, 0
  {
    assert s == [s[0]] + s[1..];
    if s[0] == QUOTE {
      BodySound(s[1..]);
    } else if KindOf(s[0]).Some? {
      ContainerSound(KindOf(s[0]).value, s, depth);
    } else {
      var n := ScalarRun(s);
      assert s == s[..n] + s[n..];
    }
  }

  lemma {:induction false} ContainerSound(k: Kind, s: bytes, depth: nat)
    requires s != [] && s[0] == Open(k) && depth > 0 && ParseContainer(k, s, depth).Some?
    ensures var (v, rest) := ParseContainer(k, s, depth).value;
            WellFormed(v) && Nesting(v) <= depth && s == PrintThen(v, rest)
    decreases |s|, 0, 0
  {
    hide ParseItems, BlankRun, WellFormedItems, NestingItems, ItemsThen, Blank;
    var tail := s[1..];
    assert s == [Open(k)] + tail;
    var n := BlankRun(tail);
    if n < |tail| && tail[n] == Close(k) {
      CutAt(tail, n);
    } else {
      ItemsSound(k, tail, depth - 1);
      var (items, rest) := ParseItems(k, tail, depth - 1).value;
      assert rest == [Close(k)] + rest[1..];
    }
  }

  lemma {:induction false} ItemSound(k: Kind, s: bytes, depth: nat)
    requires ParseItem(k, s, depth).Some?
    ensures var (item, rest) := ParseItem(k, s, depth).value;
            WellFormedItem(k, item) && Nesting(item.value) <= depth && s == ItemThen(item, rest)
    decreases |s|, 1
  {
    LeadSound(k, s);
    var s1 := ParseLead(k, s).value.1;
    ValueSound(s1, depth);
    var s2 := ParseValue(s1, depth).value.1;
    Cut(s2, BlankRun(s2));
  }

  lemma {:induction false} ItemsSound(k: Kind, s: bytes, depth: nat)
    requires ParseItems(k, s, depth).Some?
    ensures var (items, rest) := ParseItems(k, s, depth).value;
            WellFormedItems(k, items) && NestingItems(items) <= depth && s == ItemsThen(items, rest)
    decreases |s|, 2
  {
    hide ParseItem, WellFormedItem, ItemThen, Nesting;
    ItemSound(k, s, depth);
    var s1 := ParseItem(k, s, depth).value.1;
    if s1 != [] && s1[0] == COMMA {
      ItemsSound(k, s1[1..], depth);
      assert s1 == [COMMA] + s1[1..];
    }
  }

  // ---- completeness: what is printed is parsed back ----

  /** The length of the first unit of a string body. */
  function UnitLength(body: bytes): (n: nat)
    requires body != [] && StringBody(body)
    ensures n <= |body| && StringUnit(body[..n]) && StringBody(body[n..])
  {
    if body[0] == BACKSLASH then (if UnicodeEscape(body) then 6 else 2) else 1
  }

  lemma ParseUnit(unit: bytes, tail: bytes)
    requires StringUnit(unit) && ParseBody(tail).Some?
    ensures var (body, rest) := ParseBody(tail).value; ParseBody(unit + tail) == Some((unit + body, rest))
  {
    var s := unit + tail;
    TakeDrop(unit, tail);
    assert forall i :: 0 <= i < |unit| ==> s[i] == unit[i];
    if |unit| == 2 { assert !UnicodeEscape(s); }
  }

  lemma {:induction false} BodyComplete(body: bytes, rest: bytes)
    requires StringBody(body)
    ensures ParseBody(body + ([QUOTE] + rest)) == Some((body, rest))
  {
    if body == [] {
      assert body + ([QUOTE] + rest) == [QUOTE] + rest;
    } else {
      var n := UnitLength(body);
      BodyComplete(body[n..], rest);
      hide *;
      ParseUnit(body[..n], body[n..] + ([QUOTE] + rest));
      Cut(body, n);
      Append3(body[..n], body[n..], [QUOTE] + rest);
    }
  }

  /** `rest` does not continue a number or a literal name that ends just before it. */
  predicate Stops(rest: bytes) { rest == [] || !ScalarByte(rest[0]) }

  lemma {:induction false} ValueComplete(v: Value, rest: bytes, depth: nat)
    requires WellFormed(v) && Nesting(v) <= depth && (v.Scalar? ==> Stops(rest))
    ensures ParseValue(PrintThen(v, rest), depth) == Some((v, rest))
    decreases v, 0
  {
    var s := PrintThen(v, rest);
    match v {
      case Scalar(t) =>
        ScalarBytes(t);
        ScalarRunStops(t, rest);
        TakeDrop(t, rest);
        hide ScalarRun, IsScalar, ScalarByte;
        assert s[0] == t[0];
      case Str(b) =>
        BodyComplete(b, rest);
        assert s[1..] == b + ([QUOTE] + rest);
      case Empty(k, w) =>
        EmptyComplete(k, w, rest, depth);
      case Full(k, items) =>
        var tail := ItemsThen(items, [Close(k)] + rest);
        ItemsComplete(k, items, [Close(k)] + rest, depth - 1);
        NoEarlyCloseOf(k, items, [Close(k)] + rest);
        FullComplete(k, items, rest, depth);
    }
  }

  lemma EmptyComplete(k: Kind, w: bytes, rest: bytes, depth: nat)
    requires Blanks(w) && depth >= 1
    ensures ParseValue(PrintThen(Empty(k, w), rest), depth) == Some((Empty(k, w), rest))
  {
    var s := PrintThen(Empty(k, w), rest);
    BlankRunStops(w, [Close(k)] + rest);
    hide BlankRun, ParseItems;
    assert s[1..] == w + ([Close(k)] + rest);
    TakeDrop(w, [Close(k)] + rest);
    assert s[1..][|w| + 1..] == rest;
  }

  lemma FullComplete(k: Kind, items: Items, rest: bytes, depth: nat)
    requires depth >= 1
    requires var tail := ItemsThen(items, [Close(k)] + rest); var n := BlankRun(tail);
             && ParseItems(k, tail, depth - 1) == Some((items, [Close(k)] + rest))
             && n < |tail| && tail[n] != Close(k)
    ensures ParseValue(PrintThen(Full(k, items), rest), depth) == Some((Full(k, items), rest))
  {
    hide BlankRun, ParseItems, ItemsThen;
    var s := PrintThen(Full(k, items), rest);
    assert s[1..] == ItemsThen(items, [Close(k)] + rest);
    assert ([Close(k)] + rest)[1..] == rest;
  }

  lemma NoEarlyCloseOf(k: Kind, items: Items, rest: bytes)
    requires WellFormedItems(k, items)
    ensures var s := ItemsThen(items, rest); var n := BlankRun(s); n < |s| && s[n] != Close(k)
  {
    hide BlankRun, ItemThen, WellFormedItem;
    NoEarlyClose(k, items.item, if items.Last? then rest else [COMMA] + ItemsThen(items.rest, rest));
  }

  lemma LeadComplete(k: Kind, lead: Lead, rest: bytes)
    requires WellFormedLead(k, lead) && rest != [] && !Blank(rest[0])
    ensures ParseLead(k, LeadThen(lead, rest)) == Some((lead, rest))
  {
    match lead {
      case Elem(w) =>
        BlankRunStops(w, rest);
      case Member(w, key, x, y) =>
        MemberComplete(w, key, x, y, rest);
    }
  }

  lemma MemberComplete(w: bytes, key: bytes, x: bytes, y: bytes, rest: bytes)
    requires Blanks(w) && StringBody(key) && Blanks(x) && Blanks(y) && rest != [] && !Blank(rest[0])
    ensures ParseLead(Brace, LeadThen(Member(w, key, x, y), rest)) == Some((Member(w, key, x, y), rest))
  {
    var s2 := y + rest;
    var s1 := x + ([COLON] + s2);
    var s0 := [QUOTE] + (key + ([QUOTE] + s1));
    BlankRunStops(w, s0);
    BodyComplete(key, s1);
    BlankRunStops(x, [COLON] + s2);
    BlankRunStops(y, rest);
    hide BlankRun, ParseBody, StringBody, Blanks;
    TakeDrop(w, s0);
    assert (w + s0)[|w| + 1..] == key + ([QUOTE] + s1);
    TakeDrop(x, [COLON] + s2);
    assert s1[|x| + 1..] == s2;
    TakeDrop(y, rest);
  }

  /** The first byte after the blanks that open a container is not its closing bracket. */
  lemma NoEarlyClose(k: Kind, item: Item, rest: bytes)
    requires WellFormedItem(k, item)
    ensures var s := ItemThen(item, rest); var n := BlankRun(s); n < |s| && s[n] != Close(k)
  {
    var s0 := PrintThen(item.value, item.trail + rest);
    FirstByte(item.value, item.trail + rest);
    match item.lead {
      case Elem(w) =>
        BlankRunStops(w, s0);
      case Member(w, key, x, y) =>
        BlankRunStops(w, [QUOTE] + (key + ([QUOTE] + (x + ([COLON] + (y + s0))))));
    }
  }

  lemma {:induction false} ItemComplete(k: Kind, item: Item, rest: bytes, depth: nat)
    requires WellFormedItem(k, item) && Nesting(item.value) <= depth
    requires rest != [] && (rest[0] == Close(k) || rest[0] == COMMA)
    ensures ParseItem(k, ItemThen(item, rest), depth) == Some((item, rest))
    decreases item, 1
  {
    var v, w := item.value, item.trail;
    FirstByte(v, w + rest);
    LeadComplete(k, item.lead, PrintThen(v, w + rest));
    ValueComplete(v, w + rest, depth);
    ItemTrailComplete(k, item, rest, depth);
  }

  lemma ItemTrailComplete(k: Kind, item: Item, rest: bytes, depth: nat)
    requires Blanks(item.trail) && rest != [] && !Blank(rest[0])
    requires ParseLead(k, ItemThen(item, rest)) == Some((item.lead, PrintThen(item.value, item.trail + rest)))
    requires ParseValue(PrintThen(item.value, item.trail + rest), depth) == Some((item.value, item.trail + rest))
    ensures ParseItem(k, ItemThen(item, rest), depth) == Some((item, rest))
  {
    BlankRunStops(item.trail, rest);
    TakeDrop(item.trail, rest);
  }

  lemma {:induction false} ItemsComplete(k: Kind, items: Items, rest: bytes, depth: nat)
    requires WellFormedItems(k, items) && NestingItems(items) <= depth
    requires rest != [] && rest[0] == Close(k)
    ensures ParseItems(k, ItemsThen(items, rest), depth) == Some((items, rest))
    decreases items, 2
  {
    if items.Last? {
      ItemComplete(k, items.item, rest, depth);
    } else {
      var tail := ItemsThen(items.rest, rest);
      ItemComplete(k, items.item, [COMMA] + tail, depth);
      ItemsComplete(k, items.rest, rest, depth);
      assert ([COMMA] + tail)[1..] == tail;
    }
  }

  // ---- whole texts ----

  /** Parsing a printed tree between blanks gives the tree back: the grammar is unambiguous. */
  lemma ParsePrinted(before: bytes, v: Value, after: bytes)
    requires Blanks(before) && WellFormed(v) && Nesting(v) <= MAX_NESTING && Blanks(after)
    ensures ParseText(before + Print(v) + after) == Some(v)
  {
    var s := PrintThen(v, after);
    PrintThenIsPrint(v, after);
    FirstByte(v, after);
    assert before + Print(v) + after == before + s;
    BlankRunStops(before, s);
    ValueComplete(v, after, MAX_NESTING);
    BlankRunStops(after, []);
    assert after + [] == after;
  }

  lemma PrintedIsValid(v: Value)
    requires WellFormed(v) && Nesting(v) <= MAX_NESTING
    ensures Valid(Print(v)) && ParseText(Print(v)) == Some(v)
  {
    ParsePrinted([], v, []);
    assert [] + Print(v) + [] == Print(v);
  }

  /** What is parsed prints back to the text. */
  lemma ParsedPrints(s: bytes) returns (before: bytes, after: bytes)
    requires Valid(s)
    ensures JsonParts(s, before, ParseText(s).value, after)
  {
    var n := BlankRun(s);
    var tail := s[n..];
    ValueSound(tail, MAX_NESTING);
    var (v, rest) := ParseValue(tail, MAX_NESTING).value;
    PrintThenIsPrint(v, rest);
    Cut(s, n);
    Append3(s[..n], Print(v), rest);
    before, after := s[..n], rest;
    assert rest[..BlankRun(rest)] == rest;
  }

  /** `Valid` decides exactly the JSON grammar with its nesting limit. */
  lemma ValidIsGrammar(s: bytes)
    ensures Valid(s) <==> IsJson(s)
  {
    if Valid(s) {
      var before, after := ParsedPrints(s);
    }
    if IsJson(s) {
      var before, v, after :| JsonParts(s, before, v, after);
      ParsePrinted(before, v, after);
    }
  }
}
