/**
 UTF-8 as RFC 3629 defines it (section 3): the encoding of a sequence of code
 points, next to the byte tests `JsonStrings` recognises characters with.
 */
module CodePoints {
  import opened Common
  import opened JsonGrammar
  import opened JsonStrings

  /** Every code point but the surrogates. */
  predicate ScalarValue(cp: nat) { cp < 0xD800 || 0xE000 <= cp < 0x11_0000 }

  /** The encoding of a sequence of code points. */
  function EncodedAll(cps: seq<nat>): bytes
    requires forall i :: 0 <= i < |cps| ==> ScalarValue(cps[i])
  {
    if cps == [] then [] else Utf8(cps[0]) + EncodedAll(cps[1..])
  }

  ghost predicate Encodes(cps: seq<nat>, s: bytes) {
    (forall i :: 0 <= i < |cps| ==> ScalarValue(cps[i])) && EncodedAll(cps) == s
  }

  /** The number in the bits of the character `s` starts with. */
  function Decoded(s: bytes): nat
    requires RuneLen(s) > 0
  {
    var n := RuneLen(s);
    if n == 1 then s[0] as nat
    else if n == 2 then (s[0] - 0xC0) as nat * 0x40 + (s[1] - 0x80) as nat
    else if n == 3 then (s[0] - 0xE0) as nat * 0x1000 + (s[1] - 0x80) as nat * 0x40 + (s[2] - 0x80) as nat
    else (s[0] - 0xF0) as nat * 0x4_0000 + (s[1] - 0x80) as nat * 0x1000 + (s[2] - 0x80) as nat * 0x40 + (s[3] - 0x80) as nat
  }

  /** What is decoded of a character depends on its own bytes alone. */
  lemma DecodedLocal(e: bytes, rest: bytes)
    requires RuneLen(e) == |e| > 0
    ensures RuneLen(e + rest) == |e| && Decoded(e + rest) == Decoded(e) && (e + rest)[|e|..] == rest
  {
    RuneLocal(e, rest);
    assert e[..|e|] == e;
    assert forall i :: 0 <= i < |e| ==> (e + rest)[i] == e[i];
    hide RuneLen;
  }

  lemma TwoBytes(cp: nat)
    requires 0x80 <= cp < 0x800
    ensures RuneLen(Utf8(cp)) == |Utf8(cp)| && Decoded(Utf8(cp)) == cp
  {
    var a, b := cp / 0x40, cp % 0x40;
    assert cp == a * 0x40 + b && 2 <= a < 0x20;
    assert Utf8(cp) == [(0xC0 + a) as byte, (0x80 + b) as byte];
    hide Utf8;
  }

  /** The bits of a code point of three bytes. */
  lemma ThreeParts(cp: nat, a: nat, b: nat, c: nat)
    requires a == cp / 0x1000 && b == cp / 0x40 % 0x40 && c == cp % 0x40
    ensures cp == a * 0x1000 + b * 0x40 + c && b < 0x40 && c < 0x40
  {
    var h := cp / 0x40;
    assert cp == h * 0x40 + c && h == a * 0x40 + b;
  }

  lemma ThreeBytes(cp: nat)
    requires ScalarValue(cp) && 0x800 <= cp < 0x1_0000
    ensures RuneLen(Utf8(cp)) == |Utf8(cp)| && Decoded(Utf8(cp)) == cp
  {
    var a, b, c := cp / 0x1000, cp / 0x40 % 0x40, cp % 0x40;
    ThreeParts(cp, a, b, c);
    assert Utf8(cp) == [(0xE0 + a) as byte, (0x80 + b) as byte, (0x80 + c) as byte];
    hide Utf8;
    assert (a == 0 ==> b >= 0x20) && (a == 13 ==> b < 0x20);
  }

  /** The bits of a code point of four bytes. */
  lemma FourParts(cp: nat, a: nat, b: nat, c: nat, d: nat)
    requires a == cp / 0x4_0000 && b == cp / 0x1000 % 0x40 && c == cp / 0x40 % 0x40 && d == cp % 0x40
    ensures cp == a * 0x4_0000 + b * 0x1000 + c * 0x40 + d && b < 0x40 && c < 0x40 && d < 0x40
  {
    var h, g := cp / 0x40, cp / 0x1000;
    assert cp == h * 0x40 + d && h == g * 0x40 + c && g == a * 0x40 + b;
  }

  lemma FourBytes(cp: nat)
    requires ScalarValue(cp) && cp >= 0x1_0000
    ensures RuneLen(Utf8(cp)) == |Utf8(cp)| && Decoded(Utf8(cp)) == cp
  {
    var a, b, c, d := cp / 0x4_0000, cp / 0x1000 % 0x40, cp / 0x40 % 0x40, cp % 0x40;
    FourParts(cp, a, b, c, d);
    assert Utf8(cp) == [(0xF0 + a) as byte, (0x80 + b) as byte, (0x80 + c) as byte, (0x80 + d) as byte];
    hide Utf8;
    assert (a == 0 ==> b >= 0x10) && (a == 4 ==> b < 0x10) && a <= 4;
  }

  /** An encoded code point is recognised as one character, whatever follows, and its bits are the code point. */
  lemma EncodedIsRune(cp: nat, rest: bytes)
    requires ScalarValue(cp)
    ensures var t := Utf8(cp) + rest;
            RuneLen(t) == |Utf8(cp)| && t[|Utf8(cp)|..] == rest && Decoded(t) == cp
  {
    if cp < 0x80 {
      assert RuneLen(Utf8(cp)) == 1;
    } else if cp < 0x800 {
      TwoBytes(cp);
    } else if cp < 0x1_0000 {
      ThreeBytes(cp);
    } else {
      FourBytes(cp);
    }
    assert |Utf8(cp)| > 0;
    hide Utf8, RuneLen, Decoded;
    DecodedLocal(Utf8(cp), rest);
  }

  lemma ThreeBytesEncode(s: bytes)
    requires RuneLen(s) == 3
    ensures ScalarValue(Decoded(s)) && Utf8(Decoded(s)) == s[..3]
  {
    var a, b, c := (s[0] - 0xE0) as nat, (s[1] - 0x80) as nat, (s[2] - 0x80) as nat;
    var cp := Decoded(s);
    assert cp == a * 0x1000 + b * 0x40 + c && b < 0x40 && c < 0x40 && a < 0x10;
    assert (a == 0 ==> b >= 0x20) && (a == 13 ==> b < 0x20);
    hide RuneLen, Decoded;
    assert cp / 0x40 == a * 0x40 + b && cp / 0x1000 == a;
  }

  lemma FourBytesEncode(s: bytes)
    requires RuneLen(s) == 4
    ensures ScalarValue(Decoded(s)) && Utf8(Decoded(s)) == s[..4]
  {
    var a, b, c, d := (s[0] - 0xF0) as nat, (s[1] - 0x80) as nat, (s[2] - 0x80) as nat, (s[3] - 0x80) as nat;
    var cp := Decoded(s);
    assert cp == a * 0x4_0000 + b * 0x1000 + c * 0x40 + d && b < 0x40 && c < 0x40 && d < 0x40;
    assert (a == 0 ==> b >= 0x10) && (a == 4 ==> b < 0x10) && a <= 4;
    hide RuneLen, Decoded;
    assert cp / 0x40 == a * 0x1000 + b * 0x40 + c && cp / 0x1000 == a * 0x40 + b && cp / 0x4_0000 == a;
  }

  /** A character that is recognised encodes some code point. */
  lemma RuneIsEncoded(s: bytes)
    requires RuneLen(s) > 0
    ensures ScalarValue(Decoded(s)) && Utf8(Decoded(s)) == s[..RuneLen(s)]
  {
    if RuneLen(s) == 3 {
      ThreeBytesEncode(s);
      hide *;
    } else if RuneLen(s) == 4 {
      FourBytesEncode(s);
      hide *;
    } else {
      assert RuneLen(s) == 1 || RuneLen(s) == 2;
    }
  }

  lemma {:induction false} EncodedIsValid(cps: seq<nat>)
    requires forall i :: 0 <= i < |cps| ==> ScalarValue(cps[i])
    ensures ValidUtf8(EncodedAll(cps))
  {
    if cps != [] {
      EncodedIsValid(cps[1..]);
      EncodedIsRune(cps[0], EncodedAll(cps[1..]));
    }
  }

  lemma {:induction false} ValidIsEncoded(s: bytes) returns (cps: seq<nat>)
    requires ValidUtf8(s)
    ensures Encodes(cps, s)
    decreases |s|
  {
    cps := [];
    if s != [] {
      var n := RuneLen(s);
      var rest := ValidIsEncoded(s[n..]);
      RuneIsEncoded(s);
      Cut(s, n);
      cps := [Decoded(s)] + rest;
      assert cps[1..] == rest;
    }
  }

  /** The byte tests accept exactly the encodings of code points. */
  lemma ValidUtf8Iff(s: bytes)
    ensures ValidUtf8(s) <==> exists cps :: Encodes(cps, s)
  {
    if ValidUtf8(s) {
      var cps := ValidIsEncoded(s);
    }
    if cps :| Encodes(cps, s) {
      EncodedIsValid(cps);
    }
  }

  // ---- `\u` escapes ----

  /** Four hexadecimal digits. */
  function Hex4(u: nat): bytes
    requires u < 0x1_0000
  {
    [HexLower(u / 0x1000), HexLower(u / 0x100 % 0x10), HexLower(u / 0x10 % 0x10), HexLower(u % 0x10)]
  }

  function UnicodeText(u: nat): bytes
    requires u < 0x1_0000
  {
    Ascii("\\u") + Hex4(u)
  }

  lemma HexBack(n: nat)
    requires n < 16
    ensures HexDigit(HexLower(n)) && HexValue(HexLower(n)) == n
  {
  }

  lemma FourDigits(u: nat)
    requires u < 0x1_0000
    ensures ((u / 0x1000 * 16 + u / 0x100 % 0x10) * 16 + u / 0x10 % 0x10) * 16 + u % 0x10 == u
  {
    var a, b := u / 0x10, u / 0x100;
    assert u == a * 0x10 + u % 0x10 && a == b * 0x10 + a % 0x10 && b == u / 0x1000 * 0x10 + b % 0x10;
  }

  lemma Hex4Back(u: nat, rest: bytes)
    requires u < 0x1_0000
    ensures var t := UnicodeText(u) + rest; UnicodeEscape(t) && CodeUnit(t) == u && t[6..] == rest
  {
    var t := UnicodeText(u) + rest;
    HexBack(u / 0x1000);
    HexBack(u / 0x100 % 0x10);
    HexBack(u / 0x10 % 0x10);
    HexBack(u % 0x10);
    FourDigits(u);
    assert UnicodeText(u)[0] == BACKSLASH && UnicodeText(u)[1] == 0x75;
    assert forall i :: 0 <= i < 6 ==> t[i] == UnicodeText(u)[i];
    hide HexLower, HexDigit, HexValue;
  }

  /** The escape of a code point: one unit, or a pair of surrogates (RFC 8259, section 7). */
  function EscapedPoint(cp: nat): bytes
    requires ScalarValue(cp)
  {
    if cp < 0x1_0000 then UnicodeText(cp)
    else UnicodeText(0xD800 + (cp - 0x1_0000) / 0x400) + UnicodeText(0xDC00 + (cp - 0x1_0000) % 0x400)
  }

  /** It reads back as the UTF-8 of the code point. */
  lemma EscapedPointRead(cp: nat, rest: bytes)
    requires ScalarValue(cp)
    ensures var e := EscapedPoint(cp);
            UnquoteFirst(e + rest) == (Utf8(cp), |e|) && (e + rest)[|e|..] == rest
  {
    var e := EscapedPoint(cp);
    if cp < 0x1_0000 {
      Hex4Back(cp, rest);
    } else {
      var hi, lo := 0xD800 + (cp - 0x1_0000) / 0x400, 0xDC00 + (cp - 0x1_0000) % 0x400;
      Hex4Back(lo, rest);
      Hex4Back(hi, UnicodeText(lo) + rest);
      Append3(UnicodeText(hi), UnicodeText(lo), rest);
      assert 0x1_0000 + (hi - 0xD800) * 0x400 + (lo - 0xDC00) == cp;
      assert (e + rest)[12..] == rest;
    }
    hide Utf8, Hex4;
  }

  /** Half of a pair of surrogates stands for U+FFFD. */
  lemma LoneSurrogateRead(u: nat, rest: bytes)
    requires Low(u) || (High(u) && !(UnicodeEscape(rest) && Low(CodeUnit(rest))))
    ensures UnquoteFirst(UnicodeText(u) + rest) == (Utf8(0xFFFD), 6)
  {
    Hex4Back(u, rest);
    assert Utf8(0xFFFD) == REPLACEMENT;
    hide Utf8, Hex4, UnicodeText;
  }

  /** The escapes of one letter that Marshal writes (RFC 8259, section 7). */
  function ShortForm(cp: nat): Option<bytes> {
    if cp == 0x22 then Some(Ascii("\\\""))
    else if cp == 0x5C then Some(Ascii("\\\\"))
    else if cp == 0x08 then Some(Ascii("\\b"))
    else if cp == 0x0C then Some(Ascii("\\f"))
    else if cp == 0x0A then Some(Ascii("\\n"))
    else if cp == 0x0D then Some(Ascii("\\r"))
    else if cp == 0x09 then Some(Ascii("\\t"))
    else None
  }

  /** The code points Marshal never writes as they are: control characters, and those unsafe in HTML or JavaScript. */
  predicate Hazardous(cp: nat) { cp < 0x20 || cp in {0x3C, 0x3E, 0x26, 0x2028, 0x2029} }

  /** The rule Marshal writes by, code point by code point; a byte of no character becomes U+FFFD. */
  lemma EscapeFirstIs(s: bytes)
    requires s != []
    ensures RuneLen(s) == 0 ==> EscapeFirst(s) == UnicodeText(0xFFFD)
    ensures RuneLen(s) > 0 ==>
              var cp := Decoded(s);
              EscapeFirst(s) == if ShortForm(cp).Some? then ShortForm(cp).value
                                else if Hazardous(cp) then UnicodeText(cp) else Utf8(cp)
  {
    var n := RuneLen(s);
    if n == 0 {
      assert UnicodeText(0xFFFD) == [BACKSLASH, 0x75, 0x66, 0x66, 0x66, 0x64];
    } else {
      RuneIsEncoded(s);
      if n == 1 {
        EscapeAsciiIs(s[0]);
        assert s[..1] == [s[0]];
      } else {
        WideEscape(s);
      }
    }
  }

  lemma EscapeAsciiIs(b: byte)
    requires b < 0x80
    ensures var cp := b as nat;
            EscapeAscii(b) == if ShortForm(cp).Some? then ShortForm(cp).value
                              else if Hazardous(cp) then UnicodeText(cp) else [b]
  {
    var cp := b as nat;
    assert Ascii("\\u") == [BACKSLASH, 0x75];
    if ShortForm(cp).None? && Hazardous(cp) {
      assert cp / 0x1000 == 0 && cp / 0x100 == 0 && cp / 0x10 % 0x10 == cp / 16;
    }
  }

  /** Of the longer characters only the two line separators are written as escapes. */
  lemma WideEscape(s: bytes)
    requires RuneLen(s) >= 2
    ensures var cp := Decoded(s);
            Decoded(s) >= 0x80 && EscapeFirst(s) == if cp in {0x2028, 0x2029} then UnicodeText(cp) else s[..RuneLen(s)]
  {
    var n, cp := RuneLen(s), Decoded(s);
    RuneIsEncoded(s);
    LineSeparators();
    assert Announced(s[0]) == n;
    hide UnicodeText, RuneLen, Decoded;
    if s[..n] == Utf8(0x2028) || s[..n] == Utf8(0x2029) {
      assert forall i :: 0 <= i < 3 ==> s[i] == s[..n][i];
      assert cp == 0x2028 || cp == 0x2029 by { assert Decoded(s) == cp; }
    }
  }

  lemma LineSeparators()
    ensures Utf8(0x2028) == [0xE2, 0x80, 0xA8] && UnicodeText(0x2028) == [BACKSLASH, 0x75, 0x32, 0x30, 0x32, 0x38]
    ensures Utf8(0x2029) == [0xE2, 0x80, 0xA9] && UnicodeText(0x2029) == [BACKSLASH, 0x75, 0x32, 0x30, 0x32, 0x39]
  {
    assert Ascii("\\u") == [BACKSLASH, 0x75];
  }

  /** An escape of one letter reads back as the character it names; `\/` is a slash. */
  lemma ShortFormRead(cp: nat, rest: bytes)
    requires ShortForm(cp).Some?
    ensures UnquoteFirst(ShortForm(cp).value + rest) == (Utf8(cp), 2) && UnquoteFirst(Ascii("\\/") + rest) == (Ascii("/"), 2)
  {
    var e, slash := ShortForm(cp).value, Ascii("\\/");
    assert (e + rest)[0] == e[0] == BACKSLASH && (e + rest)[1] == e[1];
    assert (slash + rest)[0] == slash[0] == BACKSLASH && (slash + rest)[1] == slash[1] == 0x2F;
    assert Ascii("/") == [0x2F as byte];
  }
}
