/**
 What the reader of `SseReader` takes from one event: members by their position,
 numbers by their parts, and float64 as the nearest number it can hold.
 */
module SseEvents {
  import opened Common
  import opened Floats
  import opened JsonAbnf
  import opened JsonGrammar
  import opened JsonParser
  import opened JsonStrings
  import opened SseReader

  // ---- members ----

  function Listed(items: Items): (s: seq<Item>)
    ensures s != []
  {
    match items
    case Last(item) => [item]
    case More(item, rest) => [item] + Listed(rest)
  }

  /** The members of an object in order; anything else has none. */
  function Members(v: Value): seq<Item> { if v.Full? && v.kind.Brace? then Listed(v.items) else [] }

  predicate Named(item: Item, name: bytes) { item.lead.Member? && Unquote(item.lead.key) == name }

  /** The last member of a name. */
  ghost predicate LastNamed(members: seq<Item>, name: bytes, i: nat) {
    i < |members| && Named(members[i], name) && forall j :: i < j < |members| ==> !Named(members[j], name)
  }

  /** `r` is the value of the last member of the name, if there is one. */
  ghost predicate IsLast(members: seq<Item>, name: bytes, r: Option<Value>) {
    && (r.Some? <==> exists i :: 0 <= i < |members| && Named(members[i], name))
    && forall i: nat :: LastNamed(members, name, i) ==> r == Some(members[i].value)
  }

  lemma IsLastCons(first: Item, rest: seq<Item>, name: bytes, later: Option<Value>)
    requires IsLast(rest, name, later)
    ensures IsLast([first] + rest, name, if later.Some? then later else if Named(first, name) then Some(first.value) else None)
  {
    hide Named;
    var all := [first] + rest;
    assert forall j :: 0 <= j < |rest| ==> rest[j] == all[j + 1];
    if later.Some? {
      var i :| 0 <= i < |rest| && Named(rest[i], name);
      assert Named(all[i + 1], name);
    } else if Named(first, name) {
      assert Named(all[0], name);
    }
    forall i: nat | LastNamed(all, name, i)
      ensures if i > 0 then LastNamed(rest, name, i - 1) else later.None?
    {
      if i > 0 { assert all[i] == rest[i - 1]; }
    }
    assert forall i :: 0 < i < |all| ==> all[i] == rest[i - 1];
  }

  lemma {:induction false} LookupItemsIsLast(items: Items, name: bytes)
    ensures IsLast(Listed(items), name, LookupItems(items, name))
  {
    assert Listed(items) == [items.item] + if items.More? then Listed(items.rest) else [];
    assert IsLast([], name, None);
    LookupStep(items, name);
    hide Listed, LookupItems, IsLast, Named;
    if items.More? {
      LookupItemsIsLast(items.rest, name);
      IsLastCons(items.item, Listed(items.rest), name, LookupItems(items.rest, name));
    } else {
      IsLastCons(items.item, [], name, None);
    }
  }

  lemma LookupStep(items: Items, name: bytes)
    ensures LookupItems(items, name) == if items.More? && LookupItems(items.rest, name).Some? then LookupItems(items.rest, name)
                                        else if Named(items.item, name) then Some(items.item.value) else None
  {
  }

  /** A field is the value of the last member of its name, if there is one. */
  lemma LookupIsLast(v: Value, name: bytes)
    ensures var members := Members(v);
            && (Lookup(v, name).Some? <==> exists i :: 0 <= i < |members| && Named(members[i], name))
            && forall i: nat :: LastNamed(members, name, i) ==> Lookup(v, name) == Some(members[i].value)
  {
    hide LookupItems, Named;
    if v.Full? && v.kind.Brace? { LookupItemsIsLast(v.items, name); }
  }

  // ---- the event ----

  lemma FieldNames()
    ensures CONTENT == Ascii("content") && TEXT == Ascii("text") && USAGE == Ascii("usage") && TOTAL_TOKENS == Ascii("total_tokens")
    ensures DATA == Ascii("data: ") && DONE == Ascii("[DONE]")
  {
  }

  /** However an event is spaced, its text is what its `content` and its `text` say, its tokens are those of its `usage`. */
  lemma EventRead(before: bytes, v: Value, after: bytes)
    requires Blanks(before) && WellFormed(v) && Nesting(v) <= MAX_NESTING && Blanks(after) && NumbersFit(v)
    ensures var data := before + Print(v) + after;
            && EventText(data) == StringOf(Lookup(v, CONTENT)) + StringOf(Lookup(v, TEXT))
            && EventTokens(data) == match Lookup(v, USAGE)
                                    case None => 0
                                    case Some(usage) => TokensOf(Lookup(usage, TOTAL_TOKENS))
  {
    hide Print, NumbersFit, WellFormed, Nesting, ParseText, Lookup, TokensOf;
    ParsePrinted(before, v, after);
  }

  /** What is no JSON text, or holds a number too large for float64, is passed over. */
  lemma NoEvent(data: bytes)
    requires !Valid(data) || !NumbersFit(ParseText(data).value)
    ensures EventText(data) == [] && EventTokens(data) == 0
  {
  }

  /** The two text fields of an event, wherever they stand; the last of a name counts. */
  lemma TextFields(before: bytes, v: Value, after: bytes, i: nat, j: nat)
    requires Blanks(before) && WellFormed(v) && Nesting(v) <= MAX_NESTING && Blanks(after) && NumbersFit(v)
    requires LastNamed(Members(v), CONTENT, i) && Members(v)[i].value.Str?
    requires LastNamed(Members(v), TEXT, j) && Members(v)[j].value.Str?
    ensures EventText(before + Print(v) + after) == Unquote(Members(v)[i].value.body) + Unquote(Members(v)[j].value.body)
  {
    hide Print, NumbersFit, WellFormed, Nesting, Lookup, LastNamed, EventText, Unquote;
    EventRead(before, v, after);
    LookupIsLast(v, CONTENT);
    LookupIsLast(v, TEXT);
  }

  // ---- numbers, by their parts ----

  lemma {:induction false} DigitRunStops(digits: bytes, rest: bytes)
    requires AllDigits(digits) && (rest == [] || !Digit(rest[0]))
    ensures DigitRun(digits + rest) == |digits|
  {
    if digits == [] {
      assert digits + rest == rest;
    } else {
      DigitRunStops(digits[1..], rest);
      assert (digits + rest)[1..] == digits[1..] + rest;
    }
  }

  lemma UndecStep(s: bytes)
    requires s != []
    ensures var b := s[|s| - 1]; Undec(s) == Undec(s[..|s| - 1]) * 10 + if 0x30 <= b <= 0x39 then (b - 0x30) as nat else 0
  {
  }

  lemma Places10(a: nat, p: nat, f: nat)
    ensures (a * p + f) * 10 == a * (10 * p) + f * 10
  {
    MulMul(a, 10, p);
  }

  /** Digits are read by their places. */
  lemma {:induction false} UndecAppend(a: bytes, b: bytes)
    ensures Undec(a + b) == Undec(a) * Pow10(|b|) + Undec(b)
    ensures |b| == 1 && 0x30 <= b[0] <= 0x39 ==> Undec(b) == (b[0] - 0x30) as nat
    decreases |b|
  {
    assert Undec([]) == 0;
    if b == [] {
      assert a + b == a;
    } else {
      assert Pow10(|b|) == 10 * Pow10(|b| - 1);
      hide Undec, Pow10;
      var front := b[..|b| - 1];
      UndecAppend(a, front);
      UndecStep(b);
      UndecStep(a + b);
      assert (a + b)[..|a + b| - 1] == a + front && (a + b)[|a + b| - 1] == b[|b| - 1];
      Places10(Undec(a), Pow10(|b| - 1), Undec(front));
      if |b| == 1 { assert front == []; }
    }
  }

  /** An exponent: a letter, a sign or none, digits. */
  predicate ExponentParts(letter: bytes, sign: bytes, digits: bytes) {
    letter in {Ascii("e"), Ascii("E")} && sign in {[], Ascii("+"), Ascii("-")} && digits != [] && AllDigits(digits)
  }

  lemma ExponentRead(letter: bytes, sign: bytes, digits: bytes)
    requires ExponentParts(letter, sign, digits)
    ensures ExponentOf(letter + (sign + digits)) == if sign == Ascii("-") then 0 - Undec(digits) else Undec(digits)
  {
    var s := letter + (sign + digits);
    assert Ascii("-") == [0x2D] && Ascii("+") == [0x2B];
    assert s[1..] == sign + digits;
    if sign != [] { assert s[1..][1..] == digits; } else { assert sign + digits == digits; }
    DigitRunStops(digits, []);
    assert digits + [] == digits && digits[..|digits|] == digits;
  }

  lemma ExpStart(exp: bytes)
    requires ExpText(exp) && exp != []
    ensures !Digit(exp[0]) && exp[0] != 0x2E
  {
    assert Ascii("eE") == [0x65, 0x45];
  }

  lemma WholeDigits(whole: bytes, tail: bytes)
    requires IntText(whole) && (tail == [] || !Digit(tail[0]))
    ensures var body := whole + tail;
            DigitRun(body) == |whole| && body[..|whole|] == whole && body[|whole|..] == tail && Digit(body[0])
  {
    assert Ascii("0") == [0x30];
    DigitRunStops(whole, tail);
  }

  lemma FracDigits(frac: bytes, exp: bytes)
    requires FracText(frac) && frac != [] && (exp == [] || !Digit(exp[0]))
    ensures var tail := frac + exp;
            && tail[0] == 0x2E && DigitRun(tail[1..]) == |frac| - 1
            && tail[1..][..|frac| - 1] == frac[1..] && tail[|frac|..] == exp && frac[1..] != []
  {
    var tail := frac + exp;
    DigitRunStops(frac[1..], exp);
    assert tail[1..] == frac[1..] + exp;
  }

  lemma MinusRead(body: bytes)
    requires body != [] && Digit(body[0])
    ensures DecimalOf(Ascii("-") + body) == DecimalOf(body).(negative := true) && !DecimalOf(body).negative
  {
    var s := Ascii("-") + body;
    assert s[0] == 0x2D && s[1..] == body;
    hide Undec, ExponentOf, DigitRun, Ascii;
  }

  lemma UnsignedRead(whole: bytes, frac: bytes, exp: bytes)
    requires IntText(whole) && FracText(frac) && ExpText(exp)
    ensures var places := if frac == [] then [] else frac[1..];
            DecimalOf(whole + (frac + exp)) == Decimal(false, Undec(whole + places), ExponentOf(exp) - |places|)
  {
    hide Undec, ExponentOf, DigitRun, IntText, ExpText, Ascii;
    assert frac != [] ==> frac[0] == 0x2E;
    hide FracText;
    if exp != [] { ExpStart(exp); }
    var tail := frac + exp;
    WholeDigits(whole, tail);
    if frac == [] {
      assert tail == exp && whole + [] == whole;
    } else {
      FracDigits(frac, exp);
    }
  }

  /** `-12.34e5` is -1234 times ten to the power of 5 - 2, and so for every number. */
  lemma DecimalRead(s: bytes, minus: bytes, whole: bytes, frac: bytes, exp: bytes)
    requires NumberParts(s, minus, whole, frac, exp)
    ensures var places := if frac == [] then [] else frac[1..];
            DecimalOf(s) == Decimal(minus != [], Undec(whole + places), ExponentOf(exp) - |places|)
  {
    UnsignedRead(whole, frac, exp);
    WholeDigits(whole, []);
    var body := whole + (frac + exp);
    hide DecimalOf, Undec, ExponentOf, DigitRun;
    assert whole + [] == whole && body[0] == whole[0];
    MinusRead(body);
    if minus == [] { assert s == body; }
  }

  lemma FractionIs(d: Decimal)
    ensures Fraction(d).0 == (if d.scale >= 0 then d.mantissa * Pow10(d.scale) else d.mantissa)
    ensures Fraction(d).1 == if d.scale >= 0 then 1 else Pow10(-d.scale)
  {
  }

  lemma FractionRead(s: bytes, d: Decimal)
    requires d == DecimalOf(s) && NumberFits(s) && NumberFrom(NStart, s)
    ensures var (p, q) := Fraction(d);
            FloatFits(p, q) && Truncated(s) == if d.negative then 0 - FloatPart(p, q) else FloatPart(p, q)
  {
    hide Fraction, FloatPart, FloatFits, DecimalOf, NumberFrom;
  }

  /**
   A number is read as the integer part of a float64, and no float64 is nearer to
   the decimal that was written.
   */
  lemma NumberRead(s: bytes, minus: bytes, whole: bytes, frac: bytes, exp: bytes) returns (r: nat)
    requires NumberParts(s, minus, whole, frac, exp) && NumberFits(s)
    ensures var places := if frac == [] then [] else frac[1..];
            var mantissa, scale := Undec(whole + places), ExponentOf(exp) - |places|;
            var p, q := if scale >= 0 then mantissa * Pow10(scale) else mantissa, if scale >= 0 then 1 else Pow10(-scale);
            && q > 0 && IsFloat(r) && (forall n :: IsFloat(n) ==> Away(r, p, q) <= Away(n, p, q))
            && Truncated(s) == if minus == [] then r / Two(1074) else -(r / Two(1074))
  {
    hide *;
    var d := DecimalOf(s);
    FractionIs(d);
    var (p, q) := Fraction(d);
    PartsAccepted(s, minus, whole, frac, exp);
    DecimalRead(s, minus, whole, frac, exp);
    FractionRead(s, d);
    r := Rounded(p, q);
    FloatPartIsNearest(p, q);
  }
}
