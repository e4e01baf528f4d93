/**
 JSON text as concrete syntax trees (RFC 8259, sections 2 to 7). A tree records
 every byte of the text, insignificant whitespace included, so `Print` is the
 grammar read from left to right and a text is JSON exactly when it is printed
 by some well-formed tree.
 */
module JsonGrammar {
  import opened Common

  datatype Kind = Brace | Bracket

  /** What stands before a value inside a container: blanks, or `blanks "key" blanks : blanks`. */
  datatype Lead =
    | Elem(before: bytes)
    | Member(before: bytes, key: bytes, afterKey: bytes, afterColon: bytes)

  datatype Value =
    | Scalar(text: bytes)               // number, true, false or null
    | Str(body: bytes)                  // the bytes between the quotes
    | Empty(kind: Kind, inner: bytes)   // {} or []
    | Full(kind: Kind, items: Items)

  datatype Item = Item(lead: Lead, value: Value, trail: bytes)

  /** The comma-separated members or elements of a container that is not empty. */
  datatype Items = Last(item: Item) | More(item: Item, rest: Items)

  /** encoding/json refuses text nested deeper than this. */
  const MAX_NESTING: nat := 10000

  function Open(k: Kind): byte { if k.Brace? then 0x7B else 0x5B }

  function Close(k: Kind): byte { if k.Brace? then 0x7D else 0x5D }

  // ---- lexical grammar ----

  predicate Blank(b: byte) { b == 0x20 || b == 0x09 || b == 0x0A || b == 0x0D }

  predicate Blanks(s: bytes) { forall i :: 0 <= i < |s| ==> Blank(s[i]) }

  predicate Digit(b: byte) { 0x30 <= b <= 0x39 }

  predicate HexDigit(b: byte) { Digit(b) || 0x41 <= b <= 0x46 || 0x61 <= b <= 0x66 }

  /** Every byte a number or a literal name can contain. */
  predicate ScalarByte(b: byte) {
    Digit(b) || b == 0x2B || b == 0x2D || b == 0x2E || 0x41 <= b <= 0x5A || 0x61 <= b <= 0x7A
  }

  /** Where the number automaton of RFC 8259 section 6 stands. */
  datatype NumState = NStart | NMinus | NZero | NInt | NDot | NFrac | NExp | NExpSign | NExpDigits | NFail

  function NumStep(q: NumState, b: byte): NumState {
    match q
    case NStart => if b == 0x2D then NMinus else if b == 0x30 then NZero else if Digit(b) then NInt else NFail
    case NMinus => if b == 0x30 then NZero else if Digit(b) then NInt else NFail
    case NZero => AfterInt(b)
    case NInt => if Digit(b) then NInt else AfterInt(b)
    case NDot => if Digit(b) then NFrac else NFail
    case NFrac => if Digit(b) then NFrac else if IsE(b) then NExp else NFail
    case NExp => if b == 0x2B || b == 0x2D then NExpSign else if Digit(b) then NExpDigits else NFail
    case NExpSign => if Digit(b) then NExpDigits else NFail
    case NExpDigits => if Digit(b) then NExpDigits else NFail
    case NFail => NFail
  }

  predicate IsE(b: byte) { b == 0x65 || b == 0x45 }

  function AfterInt(b: byte): NumState {
    if b == 0x2E then NDot else if IsE(b) then NExp else NFail
  }

  predicate NumberFrom(q: NumState, s: bytes)
    decreases |s|
  {
    if s == [] then q in {NZero, NInt, NFrac, NExpDigits} else NumberFrom(NumStep(q, s[0]), s[1..])
  }

  const TRUE: bytes := [0x74, 0x72, 0x75, 0x65]
  const FALSE: bytes := [0x66, 0x61, 0x6C, 0x73, 0x65]
  const NULL: bytes := [0x6E, 0x75, 0x6C, 0x6C]

  predicate IsScalar(s: bytes) { s == TRUE || s == FALSE || s == NULL || NumberFrom(NStart, s) }

  /** The letters that may follow a backslash, other than `u`. */
  predicate ShortEscape(b: byte) {
    b == 0x22 || b == 0x5C || b == 0x2F || b == 0x62 || b == 0x66 || b == 0x6E || b == 0x72 || b == 0x74
  }

  predicate UnicodeEscape(s: bytes) {
    |s| >= 6 && s[0] == BACKSLASH && s[1] == 0x75
    && HexDigit(s[2]) && HexDigit(s[3]) && HexDigit(s[4]) && HexDigit(s[5])
  }

  /** The bytes a string may hold between its quotes (RFC 8259 section 7). */
  predicate StringBody(s: bytes) {
    if s == [] then true
    else if s[0] == BACKSLASH then
      if UnicodeEscape(s) then StringBody(s[6..])
      else |s| >= 2 && ShortEscape(s[1]) && StringBody(s[2..])
    else s[0] >= 0x20 && s[0] != QUOTE && StringBody(s[1..])
  }

  /** The length of the longest blank prefix of `s`. */
  function BlankRun(s: bytes): (n: nat)
    ensures n <= |s| && Blanks(s[..n]) && (n < |s| ==> !Blank(s[n]))
  {
    if s == [] || !Blank(s[0]) then 0 else 1 + BlankRun(s[1..])
  }

  lemma {:induction false} BlankRunStops(a: bytes, rest: bytes)
    requires Blanks(a) && (rest == [] || !Blank(rest[0]))
    ensures BlankRun(a + rest) == |a|
  {
    if a == [] {
      assert a + rest == rest;
    } else {
      BlankRunStops(a[1..], rest);
      assert (a + rest)[1..] == a[1..] + rest;
    }
  }

  /** The length of the longest prefix of `s` that could belong to a number or literal name. */
  function ScalarRun(s: bytes): (n: nat)
    ensures n <= |s|
  {
    if s == [] || !ScalarByte(s[0]) then 0 else 1 + ScalarRun(s[1..])
  }

  lemma {:induction false} ScalarRunStops(a: bytes, rest: bytes)
    requires (forall i :: 0 <= i < |a| ==> ScalarByte(a[i])) && (rest == [] || !ScalarByte(rest[0]))
    ensures ScalarRun(a + rest) == |a|
  {
    if a == [] {
      assert a + rest == rest;
    } else {
      ScalarRunStops(a[1..], rest);
      assert (a + rest)[1..] == a[1..] + rest;
    }
  }

  // ---- trees ----

  predicate WellFormedLead(k: Kind, l: Lead) {
    match l
    case Elem(w) => k.Bracket? && Blanks(w)
    case Member(w, key, x, y) => k.Brace? && Blanks(w) && StringBody(key) && Blanks(x) && Blanks(y)
  }

  predicate WellFormed(v: Value)
    decreases v, 0
  {
    match v
    case Scalar(t) => IsScalar(t)
    case Str(b) => StringBody(b)
    case Empty(_, w) => Blanks(w)
    case Full(k, items) => WellFormedItems(k, items)
  }

  predicate WellFormedItem(k: Kind, i: Item)
    decreases i, 1
  {
    WellFormedLead(k, i.lead) && WellFormed(i.value) && Blanks(i.trail)
  }

  predicate WellFormedItems(k: Kind, items: Items)
    decreases items, 2
  {
    WellFormedItem(k, items.item) && (items.More? ==> WellFormedItems(k, items.rest))
  }

  function Nesting(v: Value): nat {
    match v
    case Scalar(_) => 0
    case Str(_) => 0
    case Empty(_, _) => 1
    case Full(_, items) => 1 + NestingItems(items)
  }

  function NestingItems(items: Items): nat {
    match items
    case Last(i) => Nesting(i.value)
    case More(i, rest) => if Nesting(i.value) < NestingItems(rest) then NestingItems(rest) else Nesting(i.value)
  }

  function PrintLead(l: Lead): bytes {
    match l
    case Elem(w) => w
    case Member(w, key, x, y) => w + [QUOTE] + key + [QUOTE] + x + [COLON] + y
  }

  /** The text of a tree. */
  function Print(v: Value): bytes {
    match v
    case Scalar(t) => t
    case Str(b) => [QUOTE] + b + [QUOTE]
    case Empty(k, w) => [Open(k)] + w + [Close(k)]
    case Full(k, items) => [Open(k)] + PrintItems(items) + [Close(k)]
  }

  function PrintItems(items: Items): bytes {
    match items
    case Last(i) => PrintItem(i)
    case More(i, rest) => PrintItem(i) + [COMMA] + PrintItems(rest)
  }

  function PrintItem(i: Item): bytes { PrintLead(i.lead) + Print(i.value) + i.trail }

  /** `s` is the text of a JSON value between optional blanks, within the nesting limit. */
  ghost predicate IsJson(s: bytes) {
    exists before, v, after :: JsonParts(s, before, v, after)
  }

  ghost predicate JsonParts(s: bytes, before: bytes, v: Value, after: bytes) {
    Blanks(before) && WellFormed(v) && Nesting(v) <= MAX_NESTING && Blanks(after) && s == before + Print(v) + after
  }

  // ---- the same text, with a continuation ----

  function LeadThen(l: Lead, rest: bytes): bytes {
    match l
    case Elem(w) => w + rest
    case Member(w, key, x, y) => w + ([QUOTE] + (key + ([QUOTE] + (x + ([COLON] + (y + rest))))))
  }

  /** The text of `v` followed by `rest`, built from the right. */
  function PrintThen(v: Value, rest: bytes): bytes {
    match v
    case Scalar(t) => t + rest
    case Str(b) => [QUOTE] + (b + ([QUOTE] + rest))
    case Empty(k, w) => [Open(k)] + (w + ([Close(k)] + rest))
    case Full(k, items) => [Open(k)] + ItemsThen(items, [Close(k)] + rest)
  }

  function ItemsThen(items: Items, rest: bytes): bytes {
    match items
    case Last(i) => ItemThen(i, rest)
    case More(i, more) => ItemThen(i, [COMMA] + ItemsThen(more, rest))
  }

  function ItemThen(i: Item, rest: bytes): bytes { LeadThen(i.lead, PrintThen(i.value, i.trail + rest)) }

  lemma {:induction false} PrintThenIsPrint(v: Value, rest: bytes)
    ensures PrintThen(v, rest) == Print(v) + rest
    decreases v, 0
  {
    if v.Full? {
      ItemsThenIsPrint(v.items, [Close(v.kind)] + rest);
    }
  }

  lemma {:induction false} ItemThenIsPrint(i: Item, rest: bytes)
    ensures ItemThen(i, rest) == PrintItem(i) + rest
    decreases i, 1
  {
    PrintThenIsPrint(i.value, i.trail + rest);
  }

  lemma {:induction false} ItemsThenIsPrint(items: Items, rest: bytes)
    ensures ItemsThen(items, rest) == PrintItems(items) + rest
    decreases items, 2
  {
    match items {
      case Last(i) =>
        ItemThenIsPrint(i, rest);
      case More(i, more) =>
        ItemsThenIsPrint(more, rest);
        ItemThenIsPrint(i, [COMMA] + ItemsThen(more, rest));
    }
  }

  // ---- facts about first bytes ----

  lemma {:induction false} NumberBytes(q: NumState, s: bytes)
    requires NumberFrom(q, s)
    ensures forall i :: 0 <= i < |s| ==> ScalarByte(s[i])
    decreases |s|
  {
    if s != [] {
      if NumStep(q, s[0]) == NFail { NumberFails(s[1..]); }
      NumberBytes(NumStep(q, s[0]), s[1..]);
      forall i | 0 <= i < |s| ensures ScalarByte(s[i]) {
        if i > 0 { assert s[i] == s[1..][i - 1]; }
      }
    }
  }

  lemma {:induction false} NumberFails(s: bytes)
    ensures !NumberFrom(NFail, s)
  {
    if s != [] { NumberFails(s[1..]); }
  }

  lemma ScalarBytes(s: bytes)
    requires IsScalar(s)
    ensures s != [] && forall i :: 0 <= i < |s| ==> ScalarByte(s[i])
  {
    if NumberFrom(NStart, s) { NumberBytes(NStart, s); }
  }

  /** A value starts with a byte that is no blank, comma, colon or closing bracket. */
  lemma FirstByte(v: Value, rest: bytes)
    requires WellFormed(v)
    ensures var s := PrintThen(v, rest);
            s != [] && (s[0] == QUOTE || s[0] == Open(Brace) || s[0] == Open(Bracket) || ScalarByte(s[0]))
  {
    if v.Scalar? { ScalarBytes(v.text); }
  }

  // ---- insignificant whitespace ----

  function StripLead(l: Lead): Lead {
    match l
    case Elem(_) => Elem([])
    case Member(_, key, _, _) => Member([], key, [], [])
  }

  /** The tree without its insignificant whitespace. */
  function Strip(v: Value): Value {
    match v
    case Scalar(_) => v
    case Str(_) => v
    case Empty(k, _) => Empty(k, [])
    case Full(k, items) => Full(k, StripItems(items))
  }

  function StripItems(items: Items): Items {
    match items
    case Last(i) => Last(StripItem(i))
    case More(i, rest) => More(StripItem(i), StripItems(rest))
  }

  function StripItem(i: Item): Item { Item(StripLead(i.lead), Strip(i.value), []) }

  lemma {:induction false} StripKeeps(v: Value)
    requires WellFormed(v)
    ensures WellFormed(Strip(v)) && Nesting(Strip(v)) == Nesting(v) && Strip(Strip(v)) == Strip(v)
    decreases v
  {
    if v.Full? { StripItemsKeeps(v.kind, v.items); }
  }

  lemma {:induction false} StripItemsKeeps(k: Kind, items: Items)
    requires WellFormedItems(k, items)
    ensures WellFormedItems(k, StripItems(items)) && NestingItems(StripItems(items)) == NestingItems(items)
    ensures StripItems(StripItems(items)) == StripItems(items)
    decreases items
  {
    StripKeeps(items.item.value);
    if items.More? { StripItemsKeeps(k, items.rest); }
  }

  /** The same value, however it is spaced: same names, strings, numbers and order. */
  predicate SameValue(v: Value, w: Value) {
    match (v, w)
    case (Scalar(t), Scalar(u)) => t == u
    case (Str(b), Str(c)) => b == c
    case (Empty(k, _), Empty(l, _)) => k == l
    case (Full(k, items), Full(l, others)) => k == l && SameItems(items, others)
    case _ => false
  }

  predicate SameItems(items: Items, others: Items) {
    && SameLead(items.item.lead, others.item.lead) && SameValue(items.item.value, others.item.value)
    && (items.More? <==> others.More?) && (items.More? ==> SameItems(items.rest, others.rest))
  }

  predicate SameLead(l: Lead, m: Lead) { (l.Member? <==> m.Member?) && (l.Member? ==> l.key == m.key) }

  /** Without any insignificant whitespace. */
  predicate Unspaced(v: Value) {
    match v
    case Scalar(_) => true
    case Str(_) => true
    case Empty(_, w) => w == []
    case Full(_, items) => UnspacedItems(items)
  }

  predicate UnspacedItems(items: Items) {
    var item := items.item;
    && item.lead.before == [] && (item.lead.Member? ==> item.lead.afterKey == [] && item.lead.afterColon == [])
    && Unspaced(item.value) && item.trail == [] && (items.More? ==> UnspacedItems(items.rest))
  }

  /** Stripping gives the one tree of the same value that has no insignificant whitespace. */
  lemma {:induction false} StripIff(v: Value, w: Value)
    ensures w == Strip(v) <==> SameValue(v, w) && Unspaced(w)
    decreases v
  {
    if v.Full? && w.Full? { StripItemsIff(v.items, w.items); }
    if v.Full? { StripItemsIff(v.items, StripItems(v.items)); }
  }

  lemma {:induction false} StripItemsIff(items: Items, others: Items)
    ensures others == StripItems(items) <==> SameItems(items, others) && UnspacedItems(others)
    decreases items
  {
    StripIff(items.item.value, others.item.value);
    StripIff(items.item.value, Strip(items.item.value));
    if items.More? && others.More? { StripItemsIff(items.rest, others.rest); }
    if items.More? { StripItemsIff(items.rest, StripItems(items.rest)); }
  }
}
