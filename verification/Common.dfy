/** Bytes, optional values and results: the vocabulary shared by every model. */
module Common {
  newtype byte = b: int | 0 <= b < 256
  type bytes = seq<byte>

  datatype Option<+T> = None | Some(value: T)

  datatype Result<+T, +E> = Ok(value: T) | Err(error: E)

  /** The bytes of an ASCII text. */
  function Ascii(s: string): (r: bytes)
    requires forall i :: 0 <= i < |s| ==> s[i] as int < 128
    ensures |r| == |s| && forall i :: 0 <= i < |s| ==> r[i] as int == s[i] as int
  {
    seq(|s|, i requires 0 <= i < |s| => s[i] as int as byte)
  }

  const QUOTE: byte := 0x22
  const BACKSLASH: byte := 0x5C
  const COMMA: byte := 0x2C
  const COLON: byte := 0x3A

  lemma Cut(s: bytes, n: nat)
    requires n <= |s|
    ensures s == s[..n] + s[n..]
  {
  }

  lemma CutAt(s: bytes, n: nat)
    requires n < |s|
    ensures s == s[..n] + ([s[n]] + s[n + 1..])
  {
  }

  lemma Append3(a: bytes, b: bytes, c: bytes)
    ensures a + (b + c) == a + b + c
  {
  }

  lemma TakeDrop(a: bytes, b: bytes)
    ensures (a + b)[..|a|] == a && (a + b)[|a|..] == b
  {
  }

  /** Decimal digits of a number, as fmt's `%d` writes them. */
  function Dec(n: nat): (s: bytes)
    ensures s != [] && forall i :: 0 <= i < |s| ==> 0x30 <= s[i] <= 0x39
    ensures s[0] == 0x30 ==> n == 0 && |s| == 1
  {
    if n < 10 then [(0x30 + n) as byte] else Dec(n / 10) + [(0x30 + n % 10) as byte]
  }

  /** The number written by decimal digits. */
  function Undec(s: bytes): nat {
    if s == [] then 0
    else
      var b := s[|s| - 1];
      Undec(s[..|s| - 1]) * 10 + if 0x30 <= b <= 0x39 then (b - 0x30) as nat else 0
  }

  lemma {:induction false} UndecDec(n: nat)
    ensures Undec(Dec(n)) == n
  {
    if n >= 10 {
      UndecDec(n / 10);
      assert Dec(n)[..|Dec(n)| - 1] == Dec(n / 10);
    } else {
      assert Dec(n)[..0] == [];
    }
  }
}
