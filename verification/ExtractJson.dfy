/**
 `ExtractJSON` of internal/schema/validator.go: the scan for an object, then
 for an array, then the regular-expression fallback, and the characterisation of
 what the three together return.
 */
module ExtractJson {
  import opened Common
  import opened JsonGrammar
  import opened JsonParser
  import opened BracketScanner

  datatype Error = NoValidJson

  // ---- json.Compact ----

  /** Drops the blanks outside strings, tracking strings the way encoding/json's `Compact` does. */
  function CompactFrom(inString: bool, escaped: bool, s: bytes): bytes
    decreases |s|
  {
    if s == [] then []
    else if escaped then [s[0]] + CompactFrom(inString, false, s[1..])
    else if inString && s[0] == BACKSLASH then [s[0]] + CompactFrom(true, true, s[1..])
    else if s[0] == QUOTE then [s[0]] + CompactFrom(!inString, false, s[1..])
    else if !inString && Blank(s[0]) then CompactFrom(false, false, s[1..])
    else [s[0]] + CompactFrom(inString, false, s[1..])
  }

  function Compact(s: bytes): bytes { CompactFrom(false, false, s) }

  lemma {:induction false} CompactBlanks(w: bytes, rest: bytes)
    requires Blanks(w)
    ensures Compact(w + rest) == Compact(rest)
  {
    if w == [] {
      assert w + rest == rest;
    } else {
      CompactBlanks(w[1..], rest);
      assert (w + rest)[1..] == w[1..] + rest;
    }
  }

  lemma {:induction false} CompactScalar(t: bytes, rest: bytes)
    requires forall i :: 0 <= i < |t| ==> ScalarByte(t[i])
    ensures Compact(t + rest) == t + Compact(rest)
  {
    if t == [] {
      assert t + rest == rest;
    } else {
      CompactScalar(t[1..], rest);
      assert (t + rest)[1..] == t[1..] + rest;
      assert t == [t[0]] + t[1..];
    }
  }

  lemma CompactPunctuation(b: byte, rest: bytes)
    requires b != QUOTE && !Blank(b)
    ensures Compact([b] + rest) == [b] + Compact(rest)
  {
    assert ([b] + rest)[1..] == rest;
  }

  /** Inside a string every unit is kept. */
  lemma CompactUnit(unit: bytes, tail: bytes)
    requires StringUnit(unit)
    ensures CompactFrom(true, false, unit + tail) == unit + CompactFrom(true, false, tail)
  {
    var s := unit + tail;
    assert forall i :: 0 <= i < |unit| ==> s[i] == unit[i];
    CompactKept(s, |unit|);
    TakeDrop(unit, tail);
  }

  lemma {:induction false} CompactKept(s: bytes, n: nat)
    requires n <= |s| && StringUnit(s[..n])
    ensures CompactFrom(true, false, s) == s[..n] + CompactFrom(true, false, s[n..])
  {
    if n == 1 {
      assert s[..1] == [s[0]];
    } else {
      var t := s[2..];
      assert s[1..][1..] == t;
      assert CompactFrom(true, false, s) == [s[0]] + ([s[1]] + CompactFrom(true, false, t));
      if n == 6 {
        assert forall i :: 2 <= i < 6 ==> HexDigit(s[i]);
        CompactPlain(t, 4);
        assert t[4..] == s[6..] && s[..6] == [s[0]] + ([s[1]] + t[..4]);
      } else {
        assert s[..2] == [s[0]] + [s[1]];
      }
    }
  }

  lemma {:induction false} CompactPlain(s: bytes, n: nat)
    requires n <= |s| && forall i :: 0 <= i < n ==> HexDigit(s[i])
    ensures CompactFrom(true, false, s) == s[..n] + CompactFrom(true, false, s[n..])
  {
    if n > 0 {
      CompactPlain(s[1..], n - 1);
      assert s[1..][n - 1..] == s[n..] && s[..n] == [s[0]] + s[1..][..n - 1];
    }
  }

  lemma {:induction false} CompactBody(body: bytes, rest: bytes)
    requires StringBody(body)
    ensures CompactFrom(true, false, body + ([QUOTE] + rest)) == body + ([QUOTE] + Compact(rest))
    decreases |body|
  {
    if body == [] {
      assert body + ([QUOTE] + rest) == [QUOTE] + rest && ([QUOTE] + rest)[1..] == rest;
    } else {
      var n := UnitLength(body);
      CompactBody(body[n..], rest);
      hide *;
      CompactUnit(body[..n], body[n..] + ([QUOTE] + rest));
      Cut(body, n);
      Append3(body[..n], body[n..], [QUOTE] + rest);
      Append3(body[..n], body[n..], [QUOTE] + Compact(rest));
    }
  }

  lemma CompactQuoted(body: bytes, rest: bytes)
    requires StringBody(body)
    ensures Compact([QUOTE] + (body + ([QUOTE] + rest))) == [QUOTE] + (body + ([QUOTE] + Compact(rest)))
  {
    CompactBody(body, rest);
    assert ([QUOTE] + (body + ([QUOTE] + rest)))[1..] == body + ([QUOTE] + rest);
  }

  lemma CompactLead(k: Kind, l: Lead, rest: bytes)
    requires WellFormedLead(k, l)
    ensures Compact(LeadThen(l, rest)) == LeadThen(StripLead(l), Compact(rest))
  {
    match l {
      case Elem(w) =>
        CompactBlanks(w, rest);
        assert [] + Compact(rest) == Compact(rest);
      case Member(w, key, x, y) =>
        var s2 := y + rest;
        var s1 := x + ([COLON] + s2);
        CompactBlanks(w, [QUOTE] + (key + ([QUOTE] + s1)));
        CompactQuoted(key, s1);
        CompactBlanks(x, [COLON] + s2);
        CompactPunctuation(COLON, s2);
        CompactBlanks(y, rest);
        assert forall s: bytes {:trigger [] + s} :: [] + s == s;
    }
  }

  lemma {:induction false} CompactValue(v: Value, rest: bytes)
    requires WellFormed(v)
    ensures Compact(PrintThen(v, rest)) == PrintThen(Strip(v), Compact(rest))
    decreases v, 0
  {
    match v {
      case Scalar(t) =>
        ScalarBytes(t);
        CompactScalar(t, rest);
      case Str(b) =>
        CompactQuoted(b, rest);
      case Empty(k, w) =>
        CompactPunctuation(Open(k), w + ([Close(k)] + rest));
        CompactBlanks(w, [Close(k)] + rest);
        CompactPunctuation(Close(k), rest);
        assert [] + ([Close(k)] + Compact(rest)) == [Close(k)] + Compact(rest);
      case Full(k, items) =>
        CompactPunctuation(Open(k), ItemsThen(items, [Close(k)] + rest));
        CompactItems(k, items, [Close(k)] + rest);
        CompactPunctuation(Close(k), rest);
    }
  }

  lemma {:induction false} CompactItem(k: Kind, i: Item, rest: bytes)
    requires WellFormedItem(k, i)
    ensures Compact(ItemThen(i, rest)) == ItemThen(StripItem(i), Compact(rest))
    decreases i, 1
  {
    CompactLead(k, i.lead, PrintThen(i.value, i.trail + rest));
    CompactValue(i.value, i.trail + rest);
    CompactBlanks(i.trail, rest);
    assert [] + Compact(rest) == Compact(rest);
  }

  lemma {:induction false} CompactItems(k: Kind, items: Items, rest: bytes)
    requires WellFormedItems(k, items)
    ensures Compact(ItemsThen(items, rest)) == ItemsThen(StripItems(items), Compact(rest))
    decreases items, 2
  {
    if items.Last? {
      CompactItem(k, items.item, rest);
    } else {
      var tail := ItemsThen(items.rest, rest);
      CompactItem(k, items.item, [COMMA] + tail);
      CompactPunctuation(COMMA, tail);
      CompactItems(k, items.rest, rest);
    }
  }

  /** Compacting the text of a value is printing the value without its whitespace. */
  lemma CompactIsStrip(v: Value)
    requires WellFormed(v)
    ensures Compact(Print(v)) == Print(Strip(v))
  {
    CompactValue(v, []);
    PrintThenIsPrint(v, []);
    PrintThenIsPrint(Strip(v), []);
    assert Print(v) + [] == Print(v) && Print(Strip(v)) + [] == Print(Strip(v));
  }

  // ---- what extraction should return ----

  /** strings.IndexByte: the first index of `b`, or -1. */
  function IndexByte(s: bytes, b: byte): (i: int)
    ensures -1 <= i < |s|
    ensures i >= 0 ==> s[i] == b && b !in s[..i]
    ensures i == -1 ==> b !in s
  {
    if s == [] then -1
    else if s[0] == b then 0
    else
      var i := IndexByte(s[1..], b);
      assert s == [s[0]] + s[1..];
      assert i >= 0 ==> s[..i + 1] == [s[0]] + s[1..][..i];
      if i == -1 then -1 else i + 1
  }

  lemma {:induction false} FirstIsIndex(s: bytes, b: byte, i: nat)
    requires i < |s| && s[i] == b && b !in s[..i]
    ensures IndexByte(s, b) == i
  {
    if i > 0 {
      assert s[0] == s[..i][0];
      assert s[..i] == [s[0]] + s[1..][..i - 1];
      FirstIsIndex(s[1..], b, i - 1);
    }
  }

  /** A well-formed container `v` of kind `k` stands in `raw` at the first opening bracket of that kind. */
  ghost predicate AtFirst(raw: bytes, k: Kind, v: Value) {
    var i := IndexByte(raw, Open(k));
    && i >= 0 && IsContainer(k, v) && WellFormed(v) && Nesting(v) <= MAX_NESTING
    && Print(v) <= raw[i..]
  }

  /** What one pass is after: the container at the first opening bracket, if there is one. */
  function Sought(raw: bytes, k: Kind): Option<Value> {
    var i := IndexByte(raw, Open(k));
    if i == -1 then None
    else match ParseValue(raw[i..], MAX_NESTING)
      case None => None
      case Some((v, _)) => Some(v)
  }

  lemma SoughtIsAtFirst(raw: bytes, k: Kind, v: Value)
    ensures Sought(raw, k) == Some(v) <==> AtFirst(raw, k, v)
  {
    var i := IndexByte(raw, Open(k));
    if i >= 0 {
      var s := raw[i..];
      if Sought(raw, k) == Some(v) {
        ValueSound(s, MAX_NESTING);
        var rest := ParseValue(s, MAX_NESTING).value.1;
        PrintThenIsPrint(v, rest);
        if v.Scalar? { ScalarBytes(v.text); }
      }
      if AtFirst(raw, k, v) {
        var rest := s[|Print(v)|..];
        PrintThenIsPrint(v, rest);
        assert s == Print(v) + rest;
        ValueComplete(v, rest, MAX_NESTING);
      }
    }
  }

  /** The extraction as it should be: the object first, failing that the array, compacted. */
  function Extraction(raw: bytes): Result<bytes, Error> {
    match Sought(raw, Brace)
    case Some(v) => Ok(Print(Strip(v)))
    case None =>
      match Sought(raw, Bracket)
      case Some(v) => Ok(Print(Strip(v)))
      case None => Err(NoValidJson)
  }

  // ---- candidates ----

  /** A valid text that starts and ends with the brackets of `k` is one container, without blanks around it. */
  lemma BareContainer(k: Kind, c: bytes)
    requires Valid(c) && c[0] == Open(k) && c[|c| - 1] == Close(k)
    ensures var v := ParseText(c).value;
            c == Print(v) && IsContainer(k, v) && WellFormed(v) && Nesting(v) <= MAX_NESTING
  {
    var first, last := c[0], c[|c| - 1];
    var before, after := ParsedPrints(c);
    var v := ParseText(c).value;
    assert before != [] ==> Blank(first);
    assert after != [] ==> Blank(last);
    assert [] + Print(v) + [] == Print(v);
    if v.Scalar? { ScalarBytes(v.text); }
  }

  /** A candidate is valid only when it is the container the pass is after. */
  lemma ValidCandidate(k: Kind, raw: bytes, j: nat)
    requires var i := IndexByte(raw, Open(k)); 0 <= i <= j < |raw|
    requires raw[j] == Close(k) && Valid(raw[IndexByte(raw, Open(k))..j + 1])
    ensures Sought(raw, k).Some? && Print(Sought(raw, k).value) == raw[IndexByte(raw, Open(k))..j + 1]
  {
    hide WellFormed, Nesting, Print, ParseText, IndexByte, Sought, IsContainer;
    var i := IndexByte(raw, Open(k));
    var c := raw[i..j + 1];
    BareContainer(k, c);
    assert c <= raw[i..];
    SoughtIsAtFirst(raw, k, ParseText(c).value);
  }

  /** Where the container the pass is after ends. */
  function SoughtEnd(raw: bytes, k: Kind): int
    requires Sought(raw, k).Some?
  {
    IndexByte(raw, Open(k)) + |Print(Sought(raw, k).value)| - 1
  }

  lemma SoughtText(k: Kind, raw: bytes)
    requires Sought(raw, k).Some?
    ensures var i, j, v := IndexByte(raw, Open(k)), SoughtEnd(raw, k), Sought(raw, k).value;
            && 0 <= i <= j < |raw| && raw[i..j + 1] == Print(v) && IsContainer(k, v)
            && WellFormed(v) && Nesting(v) <= MAX_NESTING
            && raw[i..j] == Print(v)[..|Print(v)| - 1] && raw[j] == Print(v)[|Print(v)| - 1]
  {
    hide WellFormed, Nesting, Print, IndexByte, Sought, IsContainer, Quiet, ScanAll;
    var i, v := IndexByte(raw, Open(k)), Sought(raw, k).value;
    SoughtIsAtFirst(raw, k, v);
    ContainerEndsAtZero(k, v);
    var t := Print(v);
    assert raw[i..][..|t|] == t;
    assert raw[i..][|t| - 1] == t[|t| - 1];
  }

  lemma QuietSlice(k: Kind, raw: bytes, i: nat, j: nat)
    requires i <= j <= |raw| && Quiet(k, START, raw[i..j])
    ensures forall m :: i <= m < j ==> !CandidateEnd(k, raw, i, m)
  {
    forall m | i <= m < j ensures !CandidateEnd(k, raw, i, m) {
      QuietPrefix(k, START, raw[i..j], m - i);
      assert raw[i..j][..m - i] == raw[i..m];
    }
  }

  /** The scan always offers the container the pass is after, and offers nothing before it. */
  lemma SoughtIsOffered(k: Kind, raw: bytes)
    requires Sought(raw, k).Some?
    ensures var i, j := IndexByte(raw, Open(k)), SoughtEnd(raw, k);
            && 0 <= i <= j < |raw| && Valid(raw[i..j + 1]) && CandidateEnd(k, raw, i, j)
            && forall m :: i <= m < j ==> !CandidateEnd(k, raw, i, m)
  {
    var i, j, v := IndexByte(raw, Open(k)), SoughtEnd(raw, k), Sought(raw, k).value;
    SoughtText(k, raw);
    ContainerEndsAtZero(k, v);
    QuietSlice(k, raw, i, j);
    PrintedIsValid(v);
  }

  /** Only the first balanced close of a pass can be accepted: once it is refused, so is every later one. */
  lemma OnlyFirstCandidateCounts(k: Kind, raw: bytes, j: nat, later: nat)
    requires var i := IndexByte(raw, Open(k)); 0 <= i <= j < later < |raw|
    requires CandidateEnd(k, raw, IndexByte(raw, Open(k)), j)
    requires CandidateEnd(k, raw, IndexByte(raw, Open(k)), later)
    ensures !Valid(raw[IndexByte(raw, Open(k))..later + 1])
  {
    if Valid(raw[IndexByte(raw, Open(k))..later + 1]) {
      ValidCandidate(k, raw, later);
      SoughtIsOffered(k, raw);
    }
  }

  // ---- the regular-expression fallback ----

  /** The index of the last `b` at or after `from`, or -1. */
  function LastIndex(s: bytes, b: byte, from: nat): (j: int)
    requires from <= |s|
    ensures j == -1 || from <= j < |s|
    ensures j >= 0 ==> s[j] == b
    ensures forall m :: from <= m < |s| && s[m] == b ==> m <= j
    decreases |s| - from
  {
    if from == |s| then -1
    else
      var j := LastIndex(s, b, from + 1);
      if j >= 0 then j else if s[from] == b then from else -1
  }

  /** Leftmost-first match of `(?s)(\{.*\}|\[.*\])` at or after `from`, as a pair of bounds. */
  function GreedyMatch(s: bytes, from: nat): (m: Option<(nat, nat)>)
    requires from <= |s|
    ensures m.Some? ==> from <= m.value.0 < m.value.1 <= |s|
    decreases |s| - from
  {
    if from == |s| then None
    else match KindOf(s[from])
      case None => GreedyMatch(s, from + 1)
      case Some(k) =>
        var j := LastIndex(s, Close(k), from + 1);
        if j == -1 then GreedyMatch(s, from + 1) else Some((from, j + 1))
  }

  lemma {:induction false} GreedyMatchIsFirst(s: bytes, from: nat)
    requires from <= |s| && GreedyMatch(s, from).Some?
    ensures var (i, e) := GreedyMatch(s, from).value;
            KindOf(s[i]).Some? && s[e - 1] == Close(KindOf(s[i]).value) && s[i] !in s[from..i]
    decreases |s| - from
  {
    var (i, e) := GreedyMatch(s, from).value;
    if i > from {
      GreedyMatchIsFirst(s, from + 1);
      var k := KindOf(s[i]).value;
      assert e - 1 <= LastIndex(s, Close(k), from + 1);
      assert s[from..i] == [s[from]] + s[from + 1..i];
    }
  }

  /** regexp's FindString: the matched text, empty when nothing matches. */
  function FindString(raw: bytes): bytes {
    match GreedyMatch(raw, 0)
    case None => []
    case Some((i, e)) => raw[i..e]
  }

  /** The fallback is dead code: whatever it would accept, one of the passes has already returned. */
  lemma FallbackNeverSucceeds(raw: bytes)
    requires FindString(raw) != [] && Valid(FindString(raw))
    ensures Sought(raw, Brace).Some? || Sought(raw, Bracket).Some?
  {
    GreedyMatchIsFirst(raw, 0);
    var (i, e) := GreedyMatch(raw, 0).value;
    assert raw[..i] == raw[0..i];
    FirstIsIndex(raw, raw[i], i);
    ValidCandidate(KindOf(raw[i]).value, raw, e - 1);
  }

  // ---- the method ----

  /** One round of the outer loop: the first opening bracket of kind `k`, and the walk forward from it. */
  method ScanPass(raw: bytes, k: Kind) returns (r: Option<bytes>)
    ensures r == match Sought(raw, k) case Some(v) => Some(Print(Strip(v))) case None => None
  {
    var start := IndexByte(raw, Open(k));
    if start == -1 { return None; }
    var depth, inString, escaped := 0, false, false;
    var i := start;
    while i < |raw|
      invariant start <= i <= |raw|
      invariant Scan(depth, inString, escaped) == ScanAll(k, START, raw[start..i])
      invariant forall j :: start <= j < i && CandidateEnd(k, raw, start, j) ==> !Valid(raw[start..j + 1])
    {
      var ch := raw[i];
      ScanSnoc(k, START, raw[start..i], ch);
      assert raw[start..i] + [ch] == raw[start..i + 1];
      if escaped {
        escaped := false;
      } else if ch == BACKSLASH && inString {
        escaped := true;
      } else if ch == QUOTE {
        inString := !inString;
      } else if inString {
      } else if ch == Open(k) {
        depth := depth + 1;
      } else if ch == Close(k) {
        depth := depth - 1;
        if depth == 0 {
          var candidate := raw[start..i + 1];
          if Valid(candidate) {
            ValidCandidate(k, raw, i);
            SoughtText(k, raw);
            CompactIsStrip(Sought(raw, k).value);
            return Some(Compact(candidate));
          }
        }
      }
      i := i + 1;
    }
    if Sought(raw, k).Some? { SoughtIsOffered(k, raw); }
    r := None;
  }

  method ExtractJSON(raw: bytes) returns (r: Result<bytes, Error>)
    ensures r == Extraction(raw)
  {
    var patterns := [Brace, Bracket];
    for p := 0 to |patterns|
      invariant p >= 1 ==> Sought(raw, Brace) == None
      invariant p >= 2 ==> Sought(raw, Bracket) == None
    {
      var found := ScanPass(raw, patterns[p]);
      if found.Some? { return Ok(found.value); }
    }
    var text := FindString(raw);
    var fallback := text != [] && Valid(text);
    if fallback { FallbackNeverSucceeds(raw); }
    r := if fallback then Ok(text) else Err(NoValidJson);
  }

  // ---- what callers rely on ----

  /** Success and result, in terms of the grammar alone. */
  lemma ExtractionCharacterised(raw: bytes)
    ensures forall v :: AtFirst(raw, Brace, v) ==> Extraction(raw) == Ok(Print(Strip(v)))
    ensures (forall v :: !AtFirst(raw, Brace, v)) ==>
              forall v :: AtFirst(raw, Bracket, v) ==> Extraction(raw) == Ok(Print(Strip(v)))
    ensures Extraction(raw).Ok? <==> exists k, v :: AtFirst(raw, k, v)
  {
    forall k, v ensures Sought(raw, k) == Some(v) <==> AtFirst(raw, k, v) { SoughtIsAtFirst(raw, k, v); }
    if Sought(raw, Brace).Some? { assert AtFirst(raw, Brace, Sought(raw, Brace).value); }
    if Sought(raw, Bracket).Some? { assert AtFirst(raw, Bracket, Sought(raw, Bracket).value); }
  }

  lemma FirstIndexAfter(prefix: bytes, s: bytes, b: byte)
    requires b !in prefix && s != [] && s[0] == b
    ensures IndexByte(prefix + s, b) == |prefix| && (prefix + s)[|prefix|..] == s
  {
    assert (prefix + s)[..|prefix|] == prefix;
    FirstIsIndex(prefix + s, b, |prefix|);
  }

  /** An object printed with any whitespace, after anything without `{` and before anything, comes back compacted. */
  lemma ObjectRoundTrip(prefix: bytes, v: Value, suffix: bytes)
    requires Open(Brace) !in prefix
    requires IsContainer(Brace, v) && WellFormed(v) && Nesting(v) <= MAX_NESTING
    ensures Extraction(prefix + Print(v) + suffix) == Ok(Print(Strip(v)))
  {
    var s := Print(v) + suffix;
    Append3(prefix, Print(v), suffix);
    FirstIndexAfter(prefix, s, Open(Brace));
    SoughtIsAtFirst(prefix + s, Brace, v);
  }

  lemma StripFirstByte(k: Kind, v: Value)
    requires IsContainer(k, v)
    ensures Print(Strip(v)) != [] && Print(Strip(v))[0] == Open(k)
  {
  }

  /** The same for an array, exactly when nothing is found at the first `{` of the whole input. */
  lemma ArrayRoundTripIff(prefix: bytes, v: Value, suffix: bytes)
    requires Open(Bracket) !in prefix
    requires IsContainer(Bracket, v) && WellFormed(v) && Nesting(v) <= MAX_NESTING
    ensures var raw := prefix + Print(v) + suffix;
            && (Extraction(raw) == Ok(Print(Strip(v))) <==> Sought(raw, Brace).None?)
            && (Open(Brace) !in raw ==> Sought(raw, Brace).None?)
  {
    hide WellFormed, Nesting, Sought;
    var s := Print(v) + suffix;
    var raw := prefix + Print(v) + suffix;
    Append3(prefix, Print(v), suffix);
    FirstIndexAfter(prefix, s, Open(Bracket));
    SoughtIsAtFirst(raw, Bracket, v);
    StripFirstByte(Bracket, v);
    if Sought(raw, Brace).Some? {
      SoughtIsAtFirst(raw, Brace, Sought(raw, Brace).value);
      StripFirstByte(Brace, Sought(raw, Brace).value);
    }
  }

  /** Extracting again changes nothing, unless an array was extracted and an object is found inside it. */
  lemma IdempotentIff(raw: bytes)
    requires Extraction(raw).Ok?
    ensures var out := Extraction(raw).value;
            Extraction(out) == Ok(out) <==> Sought(raw, Brace).Some? || Sought(out, Brace).None?
  {
    var k := if Sought(raw, Brace).Some? then Brace else Bracket;
    var v := Sought(raw, k).value;
    SoughtIsAtFirst(raw, k, v);
    StripKeeps(v);
    hide WellFormed, Nesting, Sought, Strip;
    assert [] + Print(Strip(v)) + [] == Print(Strip(v));
    if k.Brace? {
      StripContainer(k, v);
      ObjectRoundTrip([], Strip(v), []);
    } else {
      StripContainer(k, v);
      ArrayRoundTripIff([], Strip(v), []);
    }
  }

  lemma StripContainer(k: Kind, v: Value)
    requires IsContainer(k, v)
    ensures IsContainer(k, Strip(v))
  {
  }

  /**
   Extraction is not "the first object or array": an array whose first element is
   an object is never returned, its first element is.
   */
  lemma ObjectHidesArray(w: bytes, v: Value, tail: bytes)
    requires Blanks(w) && IsContainer(Brace, v) && WellFormed(v) && Nesting(v) <= MAX_NESTING
    ensures Extraction([Open(Bracket)] + w + Print(v) + tail) == Ok(Print(Strip(v)))
  {
    ObjectRoundTrip([Open(Bracket)] + w, v, tail);
  }

  /** The container that starts at index `i`, if one does. */
  function ContainerAt(raw: bytes, i: nat): (r: Option<Value>)
    requires i < |raw|
    ensures r.Some? ==> KindOf(raw[i]).Some? && IsContainer(KindOf(raw[i]).value, r.value)
  {
    if KindOf(raw[i]).None? then None
    else
      match ParseValue(raw[i..], MAX_NESTING)
      case None => None
      case Some((v, _)) => ParsedKind(raw[i..], MAX_NESTING); Some(v)
  }

  lemma ParsedKind(s: bytes, depth: nat)
    requires s != [] && KindOf(s[0]).Some? && ParseValue(s, depth).Some?
    ensures IsContainer(KindOf(s[0]).value, ParseValue(s, depth).value.0)
  {
    assert ParseContainer(KindOf(s[0]).value, s, depth).Some?;
  }

  /** The first index at or after `from` where a valid object or array starts. */
  function FirstContainer(raw: bytes, from: nat): (r: Option<nat>)
    requires from <= |raw|
    ensures r.Some? ==> from <= r.value < |raw| && ContainerAt(raw, r.value).Some?
    ensures forall i :: from <= i < |raw| && (r.Some? ==> i < r.value) ==> ContainerAt(raw, i).None?
    decreases |raw| - from
  {
    if from == |raw| then None
    else if ContainerAt(raw, from).Some? then Some(from)
    else FirstContainer(raw, from + 1)
  }

  lemma SoughtIsContainer(raw: bytes, k: Kind)
    ensures var i := IndexByte(raw, Open(k)); Sought(raw, k) == if i == -1 then None else ContainerAt(raw, i)
  {
  }

  /**
   Returning the first valid object or array of the text, as the documentation
   puts it, holds exactly when that container's bracket is the first of its kind
   and, for an array, nothing is found at the first `{`.
   */
  lemma FirstContainerIff(raw: bytes)
    ensures var first := FirstContainer(raw, 0);
            Extraction(raw) == (if first.None? then Err(NoValidJson) else Ok(Print(Strip(ContainerAt(raw, first.value).value))))
            <==> (first.Some? ==>
                    && first.value == IndexByte(raw, raw[first.value])
                    && (raw[first.value] == Open(Bracket) ==> Sought(raw, Brace).None?))
  {
    hide ParseValue, Print, Strip, Sought, ContainerAt, FirstContainer;
    SoughtIsContainer(raw, Brace);
    SoughtIsContainer(raw, Bracket);
    var first := FirstContainer(raw, 0);
    if first.Some? {
      var v := ContainerAt(raw, first.value).value;
      StripFirstByte(KindOf(raw[first.value]).value, v);
      forall k | Sought(raw, k).Some?
        ensures Print(Strip(Sought(raw, k).value)) != [] && Print(Strip(Sought(raw, k).value))[0] == Open(k)
      {
        SoughtIsAtFirst(raw, k, Sought(raw, k).value);
        StripFirstByte(k, Sought(raw, k).value);
      }
    }
  }

  /** Nothing is found at a `{` that an array follows. */
  lemma BraceThenBracket(rest: bytes)
    ensures Sought([Open(Brace), Open(Bracket)] + rest, Brace).None?
  {
    var raw := [Open(Brace), Open(Bracket)] + rest;
    var tail := raw[1..];
    assert tail[0] == Open(Bracket) && raw[0..] == raw && IndexByte(raw, Open(Brace)) == 0;
    assert ParseLead(Brace, tail).None?;
    assert ParseItem(Brace, tail, MAX_NESTING - 1).None?;
    assert ParseItems(Brace, tail, MAX_NESTING - 1).None?;
    assert ParseContainer(Brace, raw, MAX_NESTING).None?;
  }

  /** The text `[{}]`. */
  lemma ObjectInArray() returns (inner: Value, v: Value)
    ensures inner == Empty(Brace, []) && v == Full(Bracket, Last(Item(Elem([]), inner, [])))
    ensures Print(inner) == [Open(Brace), Close(Brace)] && Print(Strip(inner)) == Print(inner)
    ensures Print(v) == [Open(Bracket), Open(Brace), Close(Brace), Close(Bracket)] && Print(Strip(v)) == Print(v)
    ensures IsContainer(Brace, inner) && WellFormed(inner) && Nesting(inner) <= MAX_NESTING
    ensures IsContainer(Bracket, v) && WellFormed(v) && Nesting(v) <= MAX_NESTING
  {
    inner := Empty(Brace, []);
    v := Full(Bracket, Last(Item(Elem([]), inner, [])));
  }

  /** Extraction is not idempotent: from `{[{}]` it takes `[{}]`, and from that `{}`. */
  lemma NotIdempotent()
    ensures var outer, first := [Open(Bracket), Open(Brace), Close(Brace), Close(Bracket)], [Open(Brace), Close(Brace)];
            Extraction([Open(Brace)] + outer) == Ok(outer) && Extraction(outer) == Ok(first)
  {
    assert Open(Brace) != Open(Bracket) && Blanks([]);
    hide *;
    var inner, v := ObjectInArray();
    var outer := [Open(Bracket), Open(Brace), Close(Brace), Close(Bracket)];
    BraceThenBracket([Open(Brace), Close(Brace), Close(Bracket)]);
    assert [Open(Brace)] + Print(v) + [] == [Open(Brace), Open(Bracket)] + [Open(Brace), Close(Brace), Close(Bracket)];
    ArrayRoundTripIff([Open(Brace)], v, []);
    assert [Open(Brace)] + Print(v) + [] == [Open(Brace)] + outer;
    ObjectHidesArray([], inner, [Close(Bracket)]);
    assert [Open(Bracket)] + [] + Print(inner) + [Close(Bracket)] == outer;
  }
}
