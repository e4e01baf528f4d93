/**
 The tokens of JSON as RFC 8259 writes them down (sections 2, 3, 6 and 7), next to
 the automata and recursive predicates the grammar and the parser read them with.
 */
module JsonAbnf {
  import opened Common
  import opened JsonGrammar
  import opened JsonParser

  // ---- numbers, section 6 ----

  predicate AllDigits(s: bytes) { forall i :: 0 <= i < |s| ==> 0x30 <= s[i] <= 0x39 }

  /** `0`, or a digit other than 0 and any digits. */
  predicate IntText(s: bytes) { s == Ascii("0") || (s != [] && 0x31 <= s[0] <= 0x39 && AllDigits(s)) }

  /** Nothing, or a point and at least one digit. */
  predicate FracText(s: bytes) { s == [] || (|s| >= 2 && s[0] == 0x2E && AllDigits(s[1..])) }

  /** Nothing, or `e` or `E`, perhaps a sign, and at least one digit. */
  predicate ExpText(s: bytes) {
    s == []
    || (s[0] in Ascii("eE") && var digits := if |s| >= 2 && s[1] in Ascii("+-") then s[2..] else s[1..];
                               digits != [] && AllDigits(digits))
  }

  ghost predicate NumberParts(s: bytes, minus: bytes, whole: bytes, frac: bytes, exp: bytes) {
    && (minus == [] || minus == Ascii("-")) && IntText(whole) && FracText(frac) && ExpText(exp)
    && s == minus + (whole + (frac + exp))
  }

  lemma {:induction false} DigitsRun(q: NumState, digits: bytes, rest: bytes)
    requires q in {NInt, NFrac, NExpDigits} && AllDigits(digits)
    ensures NumberFrom(q, digits + rest) <==> NumberFrom(q, rest)
    decreases |digits|
  {
    if digits == [] {
      assert digits + rest == rest;
    } else {
      DigitsRun(q, digits[1..], rest);
      assert (digits + rest)[1..] == digits[1..] + rest;
    }
  }

  lemma ExpAccepted(q: NumState, exp: bytes)
    requires q in {NZero, NInt, NFrac} && ExpText(exp)
    ensures NumberFrom(q, exp)
  {
    if exp != [] {
      var t := exp[1..];
      assert exp[0] == 0x65 || exp[0] == 0x45;
      if |exp| >= 2 && exp[1] in Ascii("+-") {
        assert exp[1] == 0x2B || exp[1] == 0x2D;
        var digits := exp[2..];
        assert t[1..] == digits && digits[1..] + [] == digits[1..];
        DigitsRun(NExpDigits, digits[1..], []);
      } else {
        assert t[1..] + [] == t[1..];
        DigitsRun(NExpDigits, t[1..], []);
      }
    }
  }

  lemma FracAccepted(q: NumState, frac: bytes, exp: bytes)
    requires q in {NZero, NInt} && FracText(frac) && ExpText(exp)
    ensures NumberFrom(q, frac + exp)
  {
    if frac == [] {
      assert frac + exp == exp;
      ExpAccepted(q, exp);
    } else {
      var s, digits := frac + exp, frac[1..];
      assert s[1..] == digits + exp && (digits + exp)[1..] == digits[1..] + exp;
      DigitsRun(NFrac, digits[1..], exp);
      ExpAccepted(NFrac, exp);
    }
  }

  lemma IntAccepted(q: NumState, whole: bytes, tail: bytes)
    requires q in {NStart, NMinus} && IntText(whole) && NumberFrom(NZero, tail) && NumberFrom(NInt, tail)
    ensures NumberFrom(q, whole + tail)
  {
    var s := whole + tail;
    assert s[1..] == whole[1..] + tail;
    if whole == Ascii("0") {
      assert whole[0] == 0x30 && whole[1..] + tail == tail;
    } else {
      DigitsRun(NInt, whole[1..], tail);
    }
  }

  lemma PartsAccepted(s: bytes, minus: bytes, whole: bytes, frac: bytes, exp: bytes)
    requires NumberParts(s, minus, whole, frac, exp)
    ensures NumberFrom(NStart, s)
  {
    FracAccepted(NZero, frac, exp);
    FracAccepted(NInt, frac, exp);
    var number := whole + (frac + exp);
    if minus == [] {
      assert s == number;
      IntAccepted(NStart, whole, frac + exp);
    } else {
      assert s[0] == 0x2D && s[1..] == number;
      IntAccepted(NMinus, whole, frac + exp);
    }
  }

  lemma {:induction false} SplitDigits(s: bytes)
    requires NumberFrom(NExpDigits, s)
    ensures AllDigits(s)
    decreases |s|
  {
    if s != [] {
      if !Digit(s[0]) { NumberFails(s[1..]); }
      SplitDigits(s[1..]);
      assert forall i :: 0 < i < |s| ==> s[i] == s[1..][i - 1];
    }
  }

  /** What may follow the letter of an exponent. */
  lemma SplitExp(s: bytes)
    requires s != [] && IsE(s[0]) && NumberFrom(NExp, s[1..])
    ensures ExpText(s)
  {
    var t := s[1..];
    assert s[0] in Ascii("eE") by { assert Ascii("eE")[0] == 0x65 && Ascii("eE")[1] == 0x45; }
    assert Ascii("+-")[0] == 0x2B && Ascii("+-")[1] == 0x2D;
    if t != [] {
      var u := t[1..];
      assert s[2..] == u;
      if t[0] == 0x2B || t[0] == 0x2D {
        assert s[1] in Ascii("+-");
        if u != [] {
          if !Digit(u[0]) { NumberFails(u[1..]); }
          SplitDigits(u[1..]);
          assert forall i :: 0 < i < |u| ==> u[i] == u[1..][i - 1];
        }
      } else {
        if !Digit(t[0]) { NumberFails(u); }
        SplitDigits(u);
        assert forall i :: 0 < i < |t| ==> t[i] == u[i - 1];
        assert s[1] !in Ascii("+-");
      }
    }
  }

  lemma {:induction false} SplitFrac(s: bytes) returns (n: nat)
    requires NumberFrom(NFrac, s)
    ensures n <= |s| && AllDigits(s[..n]) && ExpText(s[n..])
    decreases |s|
  {
    n := 0;
    if s == [] {
      assert s[0..] == [];
    } else if Digit(s[0]) {
      n := SplitFrac(s[1..]);
      assert s[1..][n..] == s[n + 1..] && s[..n + 1] == [s[0]] + s[1..][..n];
      n := n + 1;
    } else {
      if !IsE(s[0]) { NumberFails(s[1..]); }
      assert s[0..] == s;
      SplitExp(s);
    }
  }

  lemma FracOf(s: bytes, n: nat)
    requires 2 <= n <= |s| && s[0] == 0x2E && Digit(s[1]) && AllDigits(s[1..][1..][..n - 2])
    ensures FracText(s[..n])
  {
    var digits := s[..n][1..];
    forall k | 0 <= k < |digits| ensures 0x30 <= digits[k] <= 0x39 {
      if k > 0 { assert digits[k] == s[1..][1..][..n - 2][k - 1]; }
    }
  }

  /** What may follow the whole part. */
  lemma SplitTail(s: bytes) returns (n: nat)
    requires NumberFrom(NZero, s)
    ensures n <= |s| && FracText(s[..n]) && ExpText(s[n..])
  {
    n := 0;
    if s == [] {
    } else if s[0] == 0x2E {
      var t := s[1..];
      if t == [] || !Digit(t[0]) {
        if t != [] { NumberFails(t[1..]); }
      } else {
        var m := SplitFrac(t[1..]);
        n := m + 2;
        assert t[1..][m..] == s[n..];
        FracOf(s, n);
      }
    } else {
      if !IsE(s[0]) { NumberFails(s[1..]); }
      assert s[0..] == s;
      SplitExp(s);
    }
  }

  lemma {:induction false} SplitInt(s: bytes) returns (n: nat)
    requires NumberFrom(NInt, s)
    ensures n <= |s| && AllDigits(s[..n]) && NumberFrom(NZero, s[n..])
    decreases |s|
  {
    n := 0;
    assert s[0..] == s;
    if s != [] && Digit(s[0]) {
      n := SplitInt(s[1..]);
      assert s[1..][n..] == s[n + 1..] && s[..n + 1] == [s[0]] + s[1..][..n];
      n := n + 1;
    }
  }

  /** After the sign: a whole part and what may follow it. */
  lemma SplitWhole(q: NumState, s: bytes) returns (n: nat)
    requires q in {NStart, NMinus} && NumberFrom(q, s) && (s != [] ==> s[0] != 0x2D)
    ensures n <= |s| && IntText(s[..n]) && NumberFrom(NZero, s[n..])
  {
    assert s != [];
    if s[0] == 0x30 {
      n := 1;
      assert s[..1] == Ascii("0");
    } else {
      if !Digit(s[0]) { NumberFails(s[1..]); }
      n := SplitInt(s[1..]);
      assert s[1..][n..] == s[n + 1..] && s[..n + 1] == [s[0]] + s[1..][..n];
      n := n + 1;
    }
  }

  lemma NumberSplits(s: bytes) returns (minus: bytes, whole: bytes, frac: bytes, exp: bytes)
    requires NumberFrom(NStart, s)
    ensures NumberParts(s, minus, whole, frac, exp)
  {
    var signed := s[0] == 0x2D;
    var t := if signed then s[1..] else s;
    minus := if signed then Ascii("-") else [];
    if signed && t != [] && t[0] == 0x2D { NumberFails(t[1..]); }
    var n := SplitWhole(if signed then NMinus else NStart, t);
    var m := SplitTail(t[n..]);
    whole, frac, exp := t[..n], t[n..][..m], t[n..][m..];
    Cut(t, n);
    Cut(t[n..], m);
    assert s == minus + t;
  }

  /** The number automaton accepts exactly the numbers of RFC 8259, section 6. */
  lemma NumberIff(s: bytes)
    ensures NumberFrom(NStart, s) <==> exists minus, whole, frac, exp :: NumberParts(s, minus, whole, frac, exp)
  {
    if NumberFrom(NStart, s) {
      var minus, whole, frac, exp := NumberSplits(s);
    }
    if minus, whole, frac, exp :| NumberParts(s, minus, whole, frac, exp) {
      PartsAccepted(s, minus, whole, frac, exp);
    }
  }

  // ---- literal names and whitespace, sections 2 and 3 ----

  /** A scalar is `true`, `false`, `null` or a number. */
  lemma ScalarIff(s: bytes)
    ensures IsScalar(s) <==> s == Ascii("true") || s == Ascii("false") || s == Ascii("null")
                             || exists minus, whole, frac, exp :: NumberParts(s, minus, whole, frac, exp)
  {
    NumberIff(s);
    assert TRUE == Ascii("true") && FALSE == Ascii("false") && NULL == Ascii("null");
  }

  /** Insignificant whitespace is space, tab, newline and return. */
  lemma BlankIff(b: byte)
    ensures Blank(b) <==> b in Ascii(" \t\n\r")
  {
    var blanks := Ascii(" \t\n\r");
    assert blanks[0] == 0x20 && blanks[1] == 0x09 && blanks[2] == 0x0A && blanks[3] == 0x0D;
  }

  /** The structural characters of section 2. */
  lemma Structural()
    ensures [Open(Brace), Close(Brace), Open(Bracket), Close(Bracket), COMMA, COLON] == Ascii("{}[],:") && [QUOTE] == Ascii("\"")
  {
  }

  // ---- strings, section 7 ----

  predicate Hex(b: byte) { b in Ascii("0123456789abcdefABCDEF") }

  /** One character of a string: itself, a two-character escape, or `\u` and four hexadecimal digits. */
  predicate CharText(u: bytes) {
    || (|u| == 1 && u[0] >= 0x20 && u[0] !in Ascii("\"\\"))
    || (|u| == 2 && u[0] == 0x5C && u[1] in Ascii("\"\\/bfnrt"))
    || (|u| == 6 && u[..2] == Ascii("\\u") && forall i :: 2 <= i < 6 ==> Hex(u[i]))
  }

  lemma HexIff(b: byte)
    ensures HexDigit(b) <==> Hex(b)
  {
    var h := Ascii("0123456789abcdefABCDEF");
    if HexDigit(b) {
      var i: int := if b <= 0x39 then (b - 0x30) as int else if b <= 0x46 then (b - 0x41) as int + 16 else (b - 0x61) as int + 10;
      assert h[i] == b;
    }
  }

  lemma ShortEscapeIff(b: byte)
    ensures ShortEscape(b) <==> b in Ascii("\"\\/bfnrt")
  {
    var e := Ascii("\"\\/bfnrt");
    assert e == [0x22, 0x5C, 0x2F, 0x62, 0x66, 0x6E, 0x72, 0x74];
  }

  lemma CharIff(u: bytes)
    ensures CharText(u) <==> StringUnit(u)
  {
    assert Ascii("\"\\") == [0x22, 0x5C] && Ascii("\\u") == [0x5C, 0x75];
    if |u| == 2 { ShortEscapeIff(u[1]); }
    if |u| == 6 {
      forall i | 2 <= i < 6 ensures HexDigit(u[i]) <==> Hex(u[i]) { HexIff(u[i]); }
      assert u[..2] == [u[0], u[1]];
      assert UnicodeEscape(u) <==> u[0] == 0x5C && u[1] == 0x75 && HexDigit(u[2]) && HexDigit(u[3]) && HexDigit(u[4]) && HexDigit(u[5]);
    }
    hide Hex, HexDigit, ShortEscape;
    assert Ascii("\"\\/bfnrt") == Ascii("\"\\/bfnrt");
  }

  function Flatten(us: seq<bytes>): bytes {
    if us == [] then [] else us[0] + Flatten(us[1..])
  }

  ghost predicate CharsOf(us: seq<bytes>, s: bytes) {
    Flatten(us) == s && forall i :: 0 <= i < |us| ==> CharText(us[i])
  }

  lemma {:induction false} CharsAreBody(us: seq<bytes>)
    requires forall i :: 0 <= i < |us| ==> CharText(us[i])
    ensures StringBody(Flatten(us))
  {
    if us != [] {
      CharsAreBody(us[1..]);
      CharIff(us[0]);
      BodyUnit(us[0], Flatten(us[1..]));
    }
  }

  lemma {:induction false} BodySplits(s: bytes) returns (us: seq<bytes>)
    requires StringBody(s)
    ensures CharsOf(us, s)
    decreases |s|
  {
    us := [];
    if s != [] {
      var n := UnitLength(s);
      var rest := BodySplits(s[n..]);
      CharIff(s[..n]);
      Cut(s, n);
      us := [s[..n]] + rest;
      assert us[1..] == rest;
    }
  }

  /** A string body is a sequence of characters of RFC 8259, section 7. */
  lemma StringIff(s: bytes)
    ensures StringBody(s) <==> exists us :: CharsOf(us, s)
  {
    if StringBody(s) {
      var us := BodySplits(s);
    }
    if us :| CharsOf(us, s) {
      CharsAreBody(us);
    }
  }

  // ---- the nesting limit ----

  /** `n + 1` empty arrays, one in the other. */
  function Nested(n: nat): Value {
    if n == 0 then Empty(Bracket, []) else Full(Bracket, Last(Item(Elem([]), Nested(n - 1), [])))
  }

  lemma {:induction false} NestedIs(n: nat)
    ensures WellFormed(Nested(n)) && Nesting(Nested(n)) == n + 1 && !Nested(n).Scalar?
  {
    if n > 0 {
      NestedIs(n - 1);
      var item := Item(Elem([]), Nested(n - 1), []);
      assert WellFormedItem(Bracket, item) && WellFormedItems(Bracket, Last(item));
    }
  }

  /** A text has one tree only. */
  lemma PrintIsUnique(v: Value, before: bytes, w: Value, after: bytes)
    requires WellFormed(v) && WellFormed(w) && !v.Scalar? && Blanks(before) && Print(v) == before + Print(w) + after
    requires Blanks(after)
    ensures v == w
  {
    var depth := Nesting(v) + Nesting(w);
    PrintThenIsPrint(v, []);
    PrintThenIsPrint(w, after);
    assert Print(v) + [] == Print(v);
    FirstByte(v, []);
    FirstByte(w, after);
    if before != [] { assert Print(v)[0] == before[0]; }
    assert before + Print(w) + after == Print(w) + after;
    ValueComplete(v, [], depth);
    ValueComplete(w, after, depth);
  }

  /** Ten thousand levels are valid and one more is not. */
  lemma NestingLimit(n: nat)
    ensures Valid(Print(Nested(n))) <==> n + 1 <= 10_000
  {
    var v := Nested(n);
    NestedIs(n);
    if n + 1 <= 10_000 {
      PrintedIsValid(v);
    } else if Valid(Print(v)) {
      var before, after := ParsedPrints(Print(v));
      PrintIsUnique(v, before, ParseText(Print(v)).value, after);
    }
  }
}
