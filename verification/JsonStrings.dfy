/**
 The two directions of a JSON string in encoding/json: `Marshal` writes bytes as a
 string body, `Unmarshal` reads a body back. Both replace what is not UTF-8.
 */
module JsonStrings {
  import opened Common
  import opened JsonGrammar

  /** U+FFFD in UTF-8. */
  const REPLACEMENT: bytes := [0xEF, 0xBF, 0xBD]

  predicate Continuation(b: byte) { 0x80 <= b < 0xC0 }

  /** The bounds of the second byte after a given first byte (RFC 3629, section 4). */
  predicate SecondByte(first: byte, b: byte) {
    if first == 0xE0 then 0xA0 <= b < 0xC0
    else if first == 0xED then 0x80 <= b < 0xA0
    else if first == 0xF0 then 0x90 <= b < 0xC0
    else if first == 0xF4 then 0x80 <= b < 0x90
    else Continuation(b)
  }

  /** The length a first byte announces, 0 when it cannot start a character. */
  function Announced(first: byte): nat {
    if first < 0x80 then 1
    else if 0xC2 <= first < 0xE0 then 2
    else if 0xE0 <= first < 0xF0 then 3
    else if 0xF0 <= first < 0xF5 then 4
    else 0
  }

  /** The length of the UTF-8 character `s` starts with, 0 when it starts with none. */
  function RuneLen(s: bytes): (n: nat)
    ensures n <= |s| && n <= 4
  {
    if s == [] then 0
    else
      var n := Announced(s[0]);
      if n <= |s| && (n >= 2 ==> SecondByte(s[0], s[1])) && (n >= 3 ==> Continuation(s[2])) && (n == 4 ==> Continuation(s[3]))
      then n else 0
  }

  predicate ValidUtf8(s: bytes) { s == [] || (RuneLen(s) > 0 && ValidUtf8(s[RuneLen(s)..])) }

  /** Every byte that is not part of a UTF-8 character, replaced by U+FFFD. */
  function Sanitize(s: bytes): bytes {
    if s == [] then []
    else if RuneLen(s) == 0 then REPLACEMENT + Sanitize(s[1..])
    else s[..RuneLen(s)] + Sanitize(s[RuneLen(s)..])
  }

  /** A character is recognised by its own bytes, whatever follows. */
  lemma RuneLocal(s: bytes, rest: bytes)
    requires RuneLen(s) > 0
    ensures var n := RuneLen(s); RuneLen(s[..n] + rest) == n && (s[..n] + rest)[..n] == s[..n] && (s[..n] + rest)[n..] == rest
  {
    var n := RuneLen(s);
    assert forall i :: 0 <= i < n ==> (s[..n] + rest)[i] == s[i];
  }

  /** Sanitizing changes a text exactly when the text is not UTF-8, and then it grows. */
  lemma {:induction false} SanitizeIffValid(s: bytes)
    ensures |Sanitize(s)| >= |s| && (|Sanitize(s)| == |s| <==> ValidUtf8(s)) && (Sanitize(s) == s <==> ValidUtf8(s))
  {
    if s != [] {
      var n := RuneLen(s);
      SanitizeIffValid(if n == 0 then s[1..] else s[n..]);
      Cut(s, n);
    }
  }

  // ---- Marshal ----

  function HexLower(n: nat): byte
    requires n < 16
  {
    if n < 10 then (0x30 + n) as byte else (0x57 + n) as byte
  }

  /** The bytes written for one ASCII byte; `<`, `>` and `&` are escaped for HTML. */
  function EscapeAscii(b: byte): bytes
    requires b < 0x80
  {
    if b == BACKSLASH || b == QUOTE then [BACKSLASH, b]
    else if b == 0x08 then [BACKSLASH, 0x62]
    else if b == 0x0C then [BACKSLASH, 0x66]
    else if b == 0x0A then [BACKSLASH, 0x6E]
    else if b == 0x0D then [BACKSLASH, 0x72]
    else if b == 0x09 then [BACKSLASH, 0x74]
    else if b < 0x20 || b == 0x3C || b == 0x3E || b == 0x26 then
      [BACKSLASH, 0x75, 0x30, 0x30, HexLower(b as nat / 16), HexLower(b as nat % 16)]
    else [b]
  }

  /** The bytes written for the first character of `s`. */
  function EscapeFirst(s: bytes): bytes
    requires s != []
  {
    var n := RuneLen(s);
    if n == 0 then [BACKSLASH, 0x75, 0x66, 0x66, 0x66, 0x64]
    else if n == 1 then EscapeAscii(s[0])
    else if s[..n] == [0xE2, 0x80, 0xA8] then [BACKSLASH, 0x75, 0x32, 0x30, 0x32, 0x38]
    else if s[..n] == [0xE2, 0x80, 0xA9] then [BACKSLASH, 0x75, 0x32, 0x30, 0x32, 0x39]
    else s[..n]
  }

  function Width(s: bytes): (n: nat)
    requires s != []
    ensures 1 <= n <= |s|
  {
    if RuneLen(s) == 0 then 1 else RuneLen(s)
  }

  /** The string body encoding/json writes for `s`. */
  function Escape(s: bytes): bytes {
    if s == [] then [] else EscapeFirst(s) + Escape(s[Width(s)..])
  }

  // ---- Unmarshal ----

  function HexValue(b: byte): nat
    requires HexDigit(b)
  {
    if b <= 0x39 then (b - 0x30) as nat else if b <= 0x46 then (b - 0x37) as nat else (b - 0x57) as nat
  }

  /** The code unit a `\uXXXX` escape stands for. */
  function CodeUnit(s: bytes): nat
    requires UnicodeEscape(s)
  {
    ((HexValue(s[2]) * 16 + HexValue(s[3])) * 16 + HexValue(s[4])) * 16 + HexValue(s[5])
  }

  predicate High(u: nat) { 0xD800 <= u < 0xDC00 }

  predicate Low(u: nat) { 0xDC00 <= u < 0xE000 }

  /** UTF-8 of a code point. */
  function Utf8(cp: nat): bytes {
    if cp < 0x80 then [cp as byte]
    else if cp < 0x800 then [(0xC0 + cp / 64) as byte, (0x80 + cp % 64) as byte]
    else if cp < 0x10000 then [(0xE0 + cp / 4096) as byte, (0x80 + cp / 64 % 64) as byte, (0x80 + cp % 64) as byte]
    else if cp < 0x110000 then
      [(0xF0 + cp / 262144) as byte, (0x80 + cp / 4096 % 64) as byte, (0x80 + cp / 64 % 64) as byte, (0x80 + cp % 64) as byte]
    else REPLACEMENT
  }

  function Unescape(letter: byte): byte {
    if letter == 0x62 then 0x08
    else if letter == 0x66 then 0x0C
    else if letter == 0x6E then 0x0A
    else if letter == 0x72 then 0x0D
    else if letter == 0x74 then 0x09
    else letter
  }

  /** What the first unit of a string body decodes to, and how many bytes it takes. */
  function UnquoteFirst(s: bytes): (r: (bytes, nat))
    requires s != []
    ensures 1 <= r.1 <= |s|
  {
    if s[0] != BACKSLASH then
      if RuneLen(s) == 0 then (REPLACEMENT, 1) else (s[..RuneLen(s)], RuneLen(s))
    else if !UnicodeEscape(s) then
      if |s| == 1 then ([], 1) else ([Unescape(s[1])], 2)
    else
      var u := CodeUnit(s);
      if High(u) && UnicodeEscape(s[6..]) && Low(CodeUnit(s[6..])) then
        (Utf8(0x10000 + (u - 0xD800) * 0x400 + (CodeUnit(s[6..]) - 0xDC00)), 12)
      else if High(u) || Low(u) then (REPLACEMENT, 6)
      else (Utf8(u), 6)
  }

  /** The text a string body stands for. */
  function Unquote(s: bytes): bytes {
    if s == [] then [] else UnquoteFirst(s).0 + Unquote(s[UnquoteFirst(s).1..])
  }

  // ---- there and back ----

  lemma EscapeAsciiBack(b: byte, rest: bytes)
    requires b < 0x80
    ensures var e := EscapeAscii(b); UnquoteFirst(e + rest) == ([b], |e|) && (e + rest)[|e|..] == rest
  {
    var e := EscapeAscii(b);
    var s := e + rest;
    assert forall i :: 0 <= i < |e| ==> s[i] == e[i];
    if |e| == 6 {
      assert UnicodeEscape(s) && CodeUnit(s) == b as nat;
      assert Utf8(b as nat) == [b];
    } else if |e| == 2 {
      assert !UnicodeEscape(s);
    } else {
      assert RuneLen(s) == 1 && s[..1] == [b];
    }
  }

  /** The first character written is the first character read, and it is the original or U+FFFD. */
  lemma EscapeFirstBack(s: bytes, rest: bytes)
    requires s != []
    ensures var e := EscapeFirst(s);
            && e != [] && (e + rest)[|e|..] == rest
            && UnquoteFirst(e + rest) == (if RuneLen(s) == 0 then REPLACEMENT else s[..RuneLen(s)], |e|)
  {
    var n, e := RuneLen(s), EscapeFirst(s);
    var t := e + rest;
    assert forall i :: 0 <= i < |e| ==> t[i] == e[i];
    if n == 1 {
      EscapeAsciiBack(s[0], rest);
      assert s[..1] == [s[0]];
    } else if n == 0 {
      assert UnicodeEscape(t) && CodeUnit(t) == 0xFFFD;
    } else if |e| == 6 {
      assert UnicodeEscape(t) && (CodeUnit(t) == 0x2028 || CodeUnit(t) == 0x2029);
    } else {
      RuneLocal(s, rest);
    }
  }

  /** Reading back a marshalled string gives it, with everything that is not UTF-8 replaced. */
  lemma {:induction false} UnquoteEscape(s: bytes)
    ensures Unquote(Escape(s)) == Sanitize(s)
  {
    if s != [] {
      var rest := s[Width(s)..];
      UnquoteEscape(rest);
      EscapeFirstBack(s, Escape(rest));
    }
  }

  /** A body without escapes is read with what is not UTF-8 replaced, too. */
  lemma {:induction false} UnquoteRaw(s: bytes)
    requires BACKSLASH !in s
    ensures Unquote(s) == Sanitize(s)
  {
    if s != [] {
      UnquoteRaw(s[Width(s)..]);
      assert s[0] in s;
    }
  }

  predicate PlainByte(b: byte) { b >= 0x20 && b != QUOTE && b != BACKSLASH }

  lemma {:induction false} PlainBody(a: bytes, rest: bytes)
    requires (forall i :: 0 <= i < |a| ==> PlainByte(a[i])) && StringBody(rest)
    ensures StringBody(a + rest)
  {
    if a == [] {
      assert a + rest == rest;
    } else {
      PlainBody(a[1..], rest);
      assert (a + rest)[1..] == a[1..] + rest;
    }
  }

  lemma EscapeFirstBody(s: bytes, rest: bytes)
    requires s != [] && StringBody(rest)
    ensures StringBody(EscapeFirst(s) + rest) && |EscapeFirst(s)| <= 6 * Width(s)
  {
    var e := EscapeFirst(s);
    var t := e + rest;
    if e[0] == BACKSLASH {
      assert t[0] == BACKSLASH && t[1] == e[1];
      if |e| == 6 {
        assert UnicodeEscape(t) && t[6..] == rest;
      } else {
        assert !UnicodeEscape(t) && t[2..] == rest;
      }
    } else {
      PlainBody(e, rest);
    }
  }

  /** What `Marshal` writes between quotes is a string body, at most six bytes for each byte. */
  lemma {:induction false} EscapeIsBody(s: bytes)
    ensures StringBody(Escape(s)) && |Escape(s)| <= 6 * |s|
  {
    if s != [] {
      EscapeIsBody(s[Width(s)..]);
      EscapeFirstBody(s, Escape(s[Width(s)..]));
    }
  }
}
