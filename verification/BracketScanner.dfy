/**
 The depth counter `ExtractJSON` walks the text with: one counter for one kind
 of bracket, a string flag and an escape flag. It knows almost nothing of JSON,
 yet on JSON text its counter returns to zero exactly at the last byte of a
 container and never before.
 */
module BracketScanner {
  import opened Common
  import opened JsonGrammar

  datatype Scan = Scan(depth: int, inString: bool, escaped: bool)

  const START := Scan(0, false, false)

  /** One iteration of the loop, validation of candidates apart. */
  function Step(k: Kind, st: Scan, ch: byte): Scan {
    if st.escaped then st.(escaped := false)
    else if ch == BACKSLASH && st.inString then st.(escaped := true)
    else if ch == QUOTE then st.(inString := !st.inString)
    else if st.inString then st
    else if ch == Open(k) then st.(depth := st.depth + 1)
    else if ch == Close(k) then st.(depth := st.depth - 1)
    else st
  }

  /** Whether `ch` is a close that brings the depth back to zero: the end of a candidate. */
  predicate Balances(k: Kind, st: Scan, ch: byte) {
    ch == Close(k) && !st.escaped && !st.inString && st.depth == 1
  }

  function ScanAll(k: Kind, st: Scan, s: bytes): Scan
    decreases |s|
  {
    if s == [] then st else ScanAll(k, Step(k, st, s[0]), s[1..])
  }

  /** Scanning `s` from `st` meets no balancing close. */
  predicate Quiet(k: Kind, st: Scan, s: bytes)
    decreases |s|
  {
    s == [] || (!Balances(k, st, s[0]) && Quiet(k, Step(k, st, s[0]), s[1..]))
  }

  /** A candidate of the pass for `k` started at `start` ends at index `j`. */
  predicate CandidateEnd(k: Kind, raw: bytes, start: nat, j: nat)
    requires start <= j < |raw|
  {
    Balances(k, ScanAll(k, START, raw[start..j]), raw[j])
  }

  lemma {:induction false} ScanSnoc(k: Kind, st: Scan, s: bytes, ch: byte)
    ensures ScanAll(k, st, s + [ch]) == Step(k, ScanAll(k, st, s), ch)
    decreases |s|
  {
    if s == [] {
      assert (s + [ch])[1..] == [];
    } else {
      ScanSnoc(k, Step(k, st, s[0]), s[1..], ch);
      assert (s + [ch])[1..] == s[1..] + [ch];
    }
  }

  lemma {:induction false} QuietPrefix(k: Kind, st: Scan, s: bytes, i: nat)
    requires Quiet(k, st, s) && i < |s|
    ensures !Balances(k, ScanAll(k, st, s[..i]), s[i])
    decreases |s|
  {
    if i > 0 {
      QuietPrefix(k, Step(k, st, s[0]), s[1..], i - 1);
      assert s[1..][..i - 1] == s[..i][1..];
    }
  }

  // ---- what the scanner does on each piece of JSON text ----

  predicate SameScan(k: Kind, st: Scan, s: bytes, st': Scan, s': bytes) {
    ScanAll(k, st, s) == ScanAll(k, st', s') && (Quiet(k, st, s) <==> Quiet(k, st', s'))
  }

  predicate Neutral(b: byte) {
    b != QUOTE && b != Open(Brace) && b != Open(Bracket) && b != Close(Brace) && b != Close(Bracket)
  }

  lemma {:induction false} SkipNeutral(k: Kind, d: int, a: bytes, rest: bytes)
    requires forall i :: 0 <= i < |a| ==> Neutral(a[i])
    ensures SameScan(k, Scan(d, false, false), a + rest, Scan(d, false, false), rest)
  {
    if a == [] {
      assert a + rest == rest;
    } else {
      SkipNeutral(k, d, a[1..], rest);
      assert (a + rest)[1..] == a[1..] + rest;
    }
  }

  /** Inside a string nothing counts until the closing quote. */
  lemma {:induction false} SkipBody(k: Kind, d: int, body: bytes, rest: bytes)
    requires StringBody(body)
    ensures SameScan(k, Scan(d, true, false), body + ([QUOTE] + rest), Scan(d, false, false), rest)
    decreases |body|
  {
    var s, st := body + ([QUOTE] + rest), Scan(d, true, false);
    if body == [] {
      assert s == [QUOTE] + rest;
      assert s[1..] == rest;
    } else if body[0] == BACKSLASH {
      assert s[1..] == body[1..] + ([QUOTE] + rest);
      assert s[2..] == body[2..] + ([QUOTE] + rest) && s[1..][1..] == s[2..];
      assert SameScan(k, st, s, Scan(d, true, true), s[1..]);
      assert SameScan(k, Scan(d, true, true), s[1..], st, s[2..]);
      if UnicodeEscape(body) {
        SkipHexDigits(k, d, body[2..], rest);
        assert body[2..][4..] == body[6..];
        SkipBody(k, d, body[6..], rest);
      } else {
        SkipBody(k, d, body[2..], rest);
      }
    } else {
      SkipBody(k, d, body[1..], rest);
      assert s[1..] == body[1..] + ([QUOTE] + rest);
    }
  }

  lemma SkipHexDigits(k: Kind, d: int, body: bytes, rest: bytes)
    requires |body| >= 4 && forall i :: 0 <= i < 4 ==> HexDigit(body[i])
    ensures SameScan(k, Scan(d, true, false), body + ([QUOTE] + rest),
                     Scan(d, true, false), body[4..] + ([QUOTE] + rest))
  {
    var s, st := body + ([QUOTE] + rest), Scan(d, true, false);
    assert s[1..][1..] == s[2..] && s[2..][1..] == s[3..] && s[3..][1..] == s[4..];
    assert SameScan(k, st, s, st, s[1..]);
    assert SameScan(k, st, s[1..], st, s[2..]);
    assert SameScan(k, st, s[2..], st, s[3..]);
    assert SameScan(k, st, s[3..], st, s[4..]);
    assert s[4..] == body[4..] + ([QUOTE] + rest);
  }

  lemma SkipQuoted(k: Kind, d: int, body: bytes, rest: bytes)
    requires StringBody(body)
    ensures SameScan(k, Scan(d, false, false), [QUOTE] + (body + ([QUOTE] + rest)), Scan(d, false, false), rest)
  {
    SkipBody(k, d, body, rest);
    var s := [QUOTE] + (body + ([QUOTE] + rest));
    assert s[1..] == body + ([QUOTE] + rest);
  }

  lemma SkipLead(k: Kind, d: int, kind: Kind, l: Lead, rest: bytes)
    requires WellFormedLead(kind, l)
    ensures SameScan(k, Scan(d, false, false), LeadThen(l, rest), Scan(d, false, false), rest)
  {
    match l {
      case Elem(w) =>
        SkipNeutral(k, d, w, rest);
      case Member(w, key, x, y) =>
        var s2 := y + rest;
        var s1 := x + ([COLON] + s2);
        SkipNeutral(k, d, w, [QUOTE] + (key + ([QUOTE] + s1)));
        SkipQuoted(k, d, key, s1);
        SkipNeutral(k, d, x, [COLON] + s2);
        SkipNeutral(k, d, [COLON], s2);
        SkipNeutral(k, d, y, rest);
    }
  }

  /** At positive depth a whole JSON value leaves the scanner as it was. */
  lemma {:induction false} SkipValue(k: Kind, d: int, v: Value, rest: bytes)
    requires WellFormed(v) && d >= 1
    ensures SameScan(k, Scan(d, false, false), PrintThen(v, rest), Scan(d, false, false), rest)
    decreases v, 0
  {
    match v {
      case Scalar(t) =>
        ScalarBytes(t);
        SkipNeutral(k, d, t, rest);
      case Str(b) =>
        SkipQuoted(k, d, b, rest);
      case Empty(kind, w) =>
        var d' := if kind == k then d + 1 else d;
        SkipBracket(k, d, Open(kind), w + ([Close(kind)] + rest));
        SkipNeutral(k, d', w, [Close(kind)] + rest);
        SkipBracket(k, d', Close(kind), rest);
      case Full(kind, items) =>
        var d' := if kind == k then d + 1 else d;
        SkipBracket(k, d, Open(kind), ItemsThen(items, [Close(kind)] + rest));
        SkipItems(k, d', kind, items, [Close(kind)] + rest);
        SkipBracket(k, d', Close(kind), rest);
    }
  }

  lemma SkipBracket(k: Kind, d: int, b: byte, rest: bytes)
    requires b in {Open(Brace), Open(Bracket), Close(Brace), Close(Bracket)} && (b == Close(k) ==> d != 1)
    ensures SameScan(k, Scan(d, false, false), [b] + rest,
                     Scan(if b == Open(k) then d + 1 else if b == Close(k) then d - 1 else d, false, false), rest)
  {
    assert ([b] + rest)[1..] == rest;
  }

  lemma {:induction false} SkipItem(k: Kind, d: int, kind: Kind, i: Item, rest: bytes)
    requires WellFormedItem(kind, i) && d >= 1
    ensures SameScan(k, Scan(d, false, false), ItemThen(i, rest), Scan(d, false, false), rest)
    decreases i, 1
  {
    SkipLead(k, d, kind, i.lead, PrintThen(i.value, i.trail + rest));
    SkipValue(k, d, i.value, i.trail + rest);
    SkipNeutral(k, d, i.trail, rest);
  }

  lemma {:induction false} SkipItems(k: Kind, d: int, kind: Kind, items: Items, rest: bytes)
    requires WellFormedItems(kind, items) && d >= 1
    ensures SameScan(k, Scan(d, false, false), ItemsThen(items, rest), Scan(d, false, false), rest)
    decreases items, 2
  {
    if items.Last? {
      SkipItem(k, d, kind, items.item, rest);
    } else {
      var tail := ItemsThen(items.rest, rest);
      SkipItem(k, d, kind, items.item, [COMMA] + tail);
      SkipNeutral(k, d, [COMMA], tail);
      SkipItems(k, d, kind, items.rest, rest);
    }
  }

  // ---- containers ----

  predicate IsContainer(k: Kind, v: Value) { (v.Empty? || v.Full?) && v.kind == k }

  /**
   On the text of a container the depth first returns to zero at its last byte:
   the scan of everything before is quiet and stands at depth one, outside strings.
   */
  lemma ContainerEndsAtZero(k: Kind, v: Value)
    requires WellFormed(v) && IsContainer(k, v)
    ensures var body := Print(v)[..|Print(v)| - 1];
            Print(v) == body + [Close(k)] && body != [] && body[0] == Open(k)
            && Quiet(k, START, body) && ScanAll(k, START, body) == Scan(1, false, false)
  {
    var inner := if v.Empty? then v.inner else PrintItems(v.items);
    var body := [Open(k)] + inner;
    assert Print(v) == body + [Close(k)];
    assert Print(v)[..|Print(v)| - 1] == body;
    assert body[1..] == inner;
    if v.Empty? {
      SkipNeutral(k, 1, inner, []);
    } else {
      SkipItems(k, 1, k, v.items, []);
      ItemsThenIsPrint(v.items, []);
    }
    assert inner + [] == inner;
  }
}
