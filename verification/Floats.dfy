/**
 float64 as it matters to a count: what the integer part of a decimal fraction
 becomes when the fraction is read into the nearest float64.
 */
module Floats {
  const TWO_52: nat := 0x10_0000_0000_0000
  const TWO_53: nat := 0x20_0000_0000_0000

  /** `p * 2^k`. */
  function Shifted(p: nat, k: nat): (r: nat)
    ensures p > 0 ==> r > 0
    decreases k
  {
    if k == 0 then p else Shifted(2 * p, k - 1)
  }

  /** 2^1024 - 2^970, the midpoint between the largest float64 and the next power of two. */
  const FLOAT_LIMIT: nat := Shifted(2 * TWO_53 - 1, 970)

  /** The integer nearest to `p / q`, the even one of two. */
  function HalfEven(p: nat, q: nat): nat
    requires q > 0
  {
    var down, rest := p / q, p % q;
    if 2 * rest < q || (2 * rest == q && down % 2 == 0) then down else down + 1
  }

  /** How many binary places a float64 keeps of `p / q`, from `k` on: 53 significant bits, at most 1074 places. */
  function Places(p: nat, q: nat, k: nat): (r: nat)
    requires k <= 1074
    ensures k <= r <= 1074
    decreases 1074 - k
  {
    if Shifted(p, k) >= q * TWO_52 || k == 1074 then k else Places(p, q, k + 1)
  }

  /** How many low bits it loses of a large `p / q`. */
  function Dropped(p: nat, q: nat, k: nat): (r: nat)
    requires k <= 971
    ensures k <= r <= 971
    decreases 971 - k
  {
    if p < Shifted(q * TWO_53, k) || k == 971 then k else Dropped(p, q, k + 1)
  }

  /** The float64 nearest to `p / q`, truncated to an integer. */
  function FloatPart(p: nat, q: nat): nat
    requires q > 0
  {
    if p < q * TWO_53 then
      var k := Places(p, q, 0);
      HalfEven(Shifted(p, k), q) / Shifted(1, k)
    else
      var k := Dropped(p, q, 1);
      Shifted(HalfEven(p, Shifted(q, k)), k)
  }

  /** Whether rounding `p / q` does not overflow. */
  predicate FloatFits(p: nat, q: nat) { p < q * FLOAT_LIMIT }

  // ---- powers of two ----

  function Two(k: nat): (r: nat)
    ensures r > 0
  {
    Shifted(1, k)
  }

  lemma {:induction false} ShiftBack(p: nat, k: nat)
    ensures Shifted(p, k) == p * Two(k)
    decreases k
  {
    if k > 0 {
      ShiftBack(2 * p, k - 1);
      ShiftBack(2, k - 1);
    }
  }

  lemma TwoSucc(k: nat)
    ensures Two(k + 1) == 2 * Two(k)
  {
    ShiftBack(2, k);
  }

  lemma MulMul(a: int, b: int, c: int)
    ensures a * (b * c) == a * b * c
  {
  }

  lemma {:induction false} TwoAdd(a: nat, b: nat)
    ensures Two(a + b) == Two(a) * Two(b)
  {
    if b > 0 {
      TwoAdd(a, b - 1);
      TwoSucc(a + b - 1);
      TwoSucc(b - 1);
      MulMul(Two(a), 2, Two(b - 1));
    }
  }

  // ---- products ----

  lemma MulSub(b: int, x: int, y: int)
    ensures b * (x - y) == b * x - b * y
  {
  }

  lemma MulAtLeast(b: nat, x: int)
    requires x >= 1
    ensures b * x >= b
  {
  }

  lemma MulMono(b: nat, x: int, y: int)
    requires x <= y
    ensures b * x <= b * y
  {
  }

  lemma QuotientIsUnique(a: nat, b: nat, q: int, r: int)
    requires a * b == b * q + r && 0 <= r < b
    ensures q == a
  {
    var ab, bq := a * b, b * q;
    assert b * a == ab;
    MulSub(b, a, q);
    MulSub(b, q, a);
    if q < a { MulAtLeast(b, a - q); }
    if q > a { MulAtLeast(b, q - a); }
  }

  lemma MulDiv(a: nat, b: nat)
    requires b > 0
    ensures (a * b) / b == a
  {
    var m := a * b;
    QuotientIsUnique(a, b, m / b, m % b);
  }

  // ---- the nearest integer ----

  function Distance(a: int, b: int): (d: nat)
    ensures d == 0 <==> a == b
  {
    if a < b then b - a else a - b
  }

  /** Where a multiple of `q` lies, given where its factor lies. */
  lemma Multiple(q: nat, d: int, n: int)
    ensures n <= d - 1 ==> q * n <= q * d - q
    ensures n == d ==> q * n == q * d
    ensures n == d + 1 ==> q * n == q * d + q
    ensures n >= d + 2 ==> q * n >= q * d + 2 * q
  {
    assert q * (d - 1) == q * d - q && q * (d + 1) == q * d + q && q * (d + 2) == q * d + 2 * q;
    if n <= d - 1 { MulMono(q, n, d - 1); }
    if n >= d + 2 { MulMono(q, d + 2, n); }
  }

  /** The two candidates against any other multiple, as linear arithmetic. */
  lemma NearestOf(q: nat, p: nat, d: int, below: int, h: int, qh: int, n: int, qn: int)
    requires below <= p < below + q
    requires (h == d && qh == below && 2 * (p - below) <= q) || (h == d + 1 && qh == below + q && 2 * (p - below) >= q)
    requires (2 * (p - below) == q ==> h % 2 == 0)
    requires n <= d - 1 ==> qn <= below - q
    requires n == d ==> qn == below
    requires n == d + 1 ==> qn == below + q
    requires n >= d + 2 ==> qn >= below + 2 * q
    ensures 2 * Distance(qh, p) <= q && Distance(qh, p) <= Distance(qn, p)
    ensures Distance(qh, p) == Distance(qn, p) && n != h ==> h % 2 == 0
  {
  }

  /** No integer is nearer to `p / q`, and where two are as near the even one is taken. */
  lemma HalfEvenIsNearest(p: nat, q: nat, n: int)
    requires q > 0
    ensures var h := HalfEven(p, q);
            && 2 * Distance(q * h, p) <= q && Distance(q * h, p) <= Distance(q * n, p)
            && (Distance(q * h, p) == Distance(q * n, p) && n != h ==> h % 2 == 0)
  {
    var h, d, rest := HalfEven(p, q), p / q, p % q;
    var below := q * d;
    assert p == below + rest;
    Multiple(q, d, n);
    Multiple(q, d, h);
    NearestOf(q, p, d, below, h, q * h, n, q * n);
  }

  // ---- the nearest float64 ----

  /** `n / 2^1074` is a float64: 53 significant bits, the last one worth 2^-1074 to 2^971. */
  ghost predicate IsFloat(n: nat) { exists m: nat, j: nat :: FloatBits(n, m, j) }

  predicate FloatBits(n: nat, m: nat, j: nat) { m < TWO_53 && j <= 2045 && n == m * Two(j) }

  /** How far `n / 2^1074` is from `p / q`, in units of `1 / (q * 2^1074)`. */
  function Away(n: nat, p: nat, q: nat): nat { Distance(q * n, p * Two(1074)) }

  lemma {:induction false} PlacesIs(p: nat, q: nat, k: nat)
    requires k <= 1074 && Shifted(p, k) < q * TWO_53
    ensures var r := Places(p, q, k);
            k <= r <= 1074 && Shifted(p, r) < q * TWO_53 && (r < 1074 ==> Shifted(p, r) >= q * TWO_52)
    decreases 1074 - k
  {
    if Shifted(p, k) < q * TWO_52 && k < 1074 {
      ShiftBack(p, k);
      ShiftBack(p, k + 1);
      TwoSucc(k);
      MulMul(p, 2, Two(k));
      assert Shifted(p, k + 1) == 2 * Shifted(p, k);
      PlacesIs(p, q, k + 1);
    }
  }

  lemma {:induction false} DroppedIs(p: nat, q: nat, k: nat)
    requires 1 <= k <= 971 && p >= Shifted(q * TWO_53, k - 1)
    ensures var r := Dropped(p, q, k);
            k <= r <= 971 && p >= Shifted(q * TWO_53, r - 1) && (r < 971 ==> p < Shifted(q * TWO_53, r))
    decreases 971 - k
  {
    if p >= Shifted(q * TWO_53, k) && k < 971 { DroppedIs(p, q, k + 1); }
  }

  lemma DistanceScaled(a: int, b: int, u: nat)
    ensures Distance(a * u, b * u) == Distance(a, b) * u
  {
    MulSub(u, a, b);
    MulSub(u, b, a);
  }

  lemma Swap3(a: int, b: int, c: int)
    ensures a * (b * c) == b * (a * c)
  {
  }

  /** The grid the rounding uses: `p / q` is `P / Q` steps, and a step is `2^g` units. */
  ghost predicate Grid(p: nat, q: nat, P: nat, Q: nat, u: nat, g: nat) {
    Q > 0 && u > 0 && P * u == p * Two(1074) && q * Two(g) == Q * u && (P >= Q * TWO_52 || g == 0)
  }

  /** `h` steps of the grid. */
  lemma OnGrid(p: nat, q: nat, P: nat, Q: nat, u: nat, g: nat, h: nat)
    requires Grid(p, q, P, Q, u, g)
    ensures Away(h * Two(g), p, q) == Distance(Q * h, P) * u
  {
    Swap3(q, h, Two(g));
    Swap3(h, Q, u);
    MulMul(Q, h, u);
    DistanceScaled(Q * h, P, u);
    hide Shifted, Distance;
  }

  /** A float64 that is a whole number of steps. */
  lemma CoarseFloat(p: nat, q: nat, P: nat, Q: nat, u: nat, g: nat, m: nat, j: nat)
    requires Grid(p, q, P, Q, u, g) && j >= g
    ensures Away(HalfEven(P, Q) * Two(g), p, q) <= Away(m * Two(j), p, q)
  {
    hide *;
    assert Q > 0 by { GridPositive(p, q, P, Q, u, g); }
    var h, n := HalfEven(P, Q), m * Two(j - g);
    TwoAdd(j - g, g);
    MulMul(m, Two(j - g), Two(g));
    OnGrid(p, q, P, Q, u, g, h);
    OnGrid(p, q, P, Q, u, g, n);
    HalfEvenIsNearest(P, Q, n);
    MulMono(u, Distance(Q * h, P), Distance(Q * n, P));
  }

  lemma GridPositive(p: nat, q: nat, P: nat, Q: nat, u: nat, g: nat)
    requires Grid(p, q, P, Q, u, g)
    ensures Q > 0
  {
  }

  lemma {:induction false} TwoMono(a: nat, b: nat)
    requires a <= b
    ensures Two(a) <= Two(b)
  {
    if a < b {
      TwoMono(a, b - 1);
      TwoSucc(b - 1);
    }
  }

  /** A float64 on a finer grid is smaller than every number of 53 bits on this one. */
  lemma SmallFloat(m: nat, j: nat, g: nat)
    requires m < TWO_53 && j < g
    ensures m * Two(j) <= TWO_52 * Two(g)
  {
    TwoSucc(j);
    TwoMono(j + 1, g);
    MulMono(Two(j), m, TWO_53);
    MulMul(TWO_52, 2, Two(j));
    MulMono(TWO_52, Two(j + 1), Two(g));
    hide Shifted, Two;
  }

  /** Such a number is farther away. */
  lemma FineFloat(p: nat, q: nat, P: nat, Q: nat, u: nat, g: nat, n: nat)
    requires Grid(p, q, P, Q, u, g) && P >= Q * TWO_52 && n <= TWO_52 * Two(g)
    ensures Away(HalfEven(P, Q) * Two(g), p, q) <= Away(n, p, q)
  {
    var h := HalfEven(P, Q);
    OnGrid(p, q, P, Q, u, g, h);
    OnGrid(p, q, P, Q, u, g, TWO_52);
    HalfEvenIsNearest(P, Q, TWO_52);
    MulMono(u, Distance(Q * h, P), Distance(Q * TWO_52, P));
    MulMono(q, n, TWO_52 * Two(g));
    GridBelow(p, q, P, Q, u, g);
    hide Grid, HalfEven, Two;
  }

  lemma GridBelow(p: nat, q: nat, P: nat, Q: nat, u: nat, g: nat)
    requires Grid(p, q, P, Q, u, g) && P >= Q * TWO_52
    ensures q * (TWO_52 * Two(g)) <= p * Two(1074)
  {
    Swap3(q, TWO_52, Two(g));
    Swap3(TWO_52, Q, u);
    MulMul(Q, TWO_52, u);
    MulMono(u, Q * TWO_52, P);
    hide Two;
  }

  /** No float64 is nearer than the multiple of the step that is taken. */
  lemma GridIsNearest(p: nat, q: nat, P: nat, Q: nat, u: nat, g: nat, n: nat)
    requires Grid(p, q, P, Q, u, g) && IsFloat(n)
    ensures Away(HalfEven(P, Q) * Two(g), p, q) <= Away(n, p, q)
  {
    var m: nat, j: nat :| FloatBits(n, m, j);
    if j >= g {
      CoarseFloat(p, q, P, Q, u, g, m, j);
    } else {
      SmallFloat(m, j, g);
      FineFloat(p, q, P, Q, u, g, n);
    }
  }

  // ---- the integer part of the nearest float64 ----

  /** The float64 `FloatPart` truncates, in units of 2^-1074. */
  function Rounded(p: nat, q: nat): nat
    requires q > 0
  {
    if p < q * TWO_53 then
      var k := Places(p, q, 0);
      HalfEven(Shifted(p, k), q) * Two(1074 - k)
    else
      var k := Dropped(p, q, 1);
      HalfEven(p, Shifted(q, k)) * Two(1074 + k)
  }

  lemma HalfEvenBound(p: nat, q: nat, b: nat)
    requires q > 0 && p < q * b
    ensures HalfEven(p, q) <= b
    ensures b >= 1 && 2 * p < q * (2 * b - 1) ==> HalfEven(p, q) < b
  {
    var d, rest := p / q, p % q;
    assert p == q * d + rest;
    if d >= b { MulMono(q, b, d); }
    if d == b - 1 {
      MulSub(q, 2 * b - 1, 2 * d);
      MulMul(q, 2, d);
      assert q * 2 * d == 2 * (q * d);
    }
  }

  lemma HasBits(h: nat, j: nat)
    requires (h < TWO_53 && j <= 2045) || (h == TWO_53 && j < 2045)
    ensures IsFloat(h * Two(j))
  {
    if h < TWO_53 {
      assert FloatBits(h * Two(j), h, j);
    } else {
      TwoSucc(j);
      MulMul(TWO_52, 2, Two(j));
      assert FloatBits(h * Two(j), TWO_52, j + 1);
    }
  }

  lemma CancelDiv(a: nat, b: nat, c: nat)
    requires b > 0 && c > 0
    ensures b * c > 0 && (a * c) / (b * c) == a / b
  {
    var d, r := a / b, a % b;
    assert a == b * d + r;
    assert a * c == (b * c) * d + r * c by { assert (b * d + r) * c == (b * c) * d + r * c; }
    MulMono(c, r + 1, b);
    assert 0 <= r * c < b * c by { assert c * (r + 1) == r * c + c; }
    DivIs(a * c, b * c, d, r * c);
  }

  lemma DivIs(x: nat, y: nat, d: nat, r: nat)
    requires y > 0 && x == y * d + r && r < y
    ensures x / y == d
  {
    var e, s := x / y, x % y;
    assert x == y * e + s;
    MulSub(y, d, e);
    MulSub(y, e, d);
    if e < d { MulAtLeast(y, d - e); }
    if e > d { MulAtLeast(y, e - d); }
  }

  /** A number below 2^53: the binary places kept. */
  lemma SmallRounded(p: nat, q: nat, n: nat)
    requires q > 0 && p < q * TWO_53 && IsFloat(n)
    ensures IsFloat(Rounded(p, q)) && FloatPart(p, q) == Rounded(p, q) / Two(1074)
    ensures Away(Rounded(p, q), p, q) <= Away(n, p, q)
  {
    var k := Places(p, q, 0);
    PlacesIs(p, q, 0);
    var P, g := Shifted(p, k), 1074 - k;
    var h := HalfEven(P, q);
    assert Rounded(p, q) == h * Two(g) && FloatPart(p, q) == h / Two(k);
    TwoAdd(k, g);
    ShiftBack(p, k);
    hide *;
    HalfEvenBound(P, q, TWO_53);
    HasBits(h, g);
    MulMul(p, Two(k), Two(g));
    GridOf(p, q, P, q, Two(g), g);
    GridIsNearest(p, q, P, q, Two(g), g, n);
    CancelDiv(h, Two(k), Two(g));
  }

  lemma GridOf(p: nat, q: nat, P: nat, Q: nat, u: nat, g: nat)
    requires Q > 0 && u > 0 && P * u == p * Two(1074) && q * Two(g) == Q * u && (P >= Q * TWO_52 || g == 0)
    ensures Grid(p, q, P, Q, u, g)
  {
  }

  /** The largest step: below the limit rounding stays within 53 bits. */
  lemma LastStep(p: nat, q: nat)
    requires FloatFits(p, q)
    ensures 2 * p < Shifted(q, 971) * (2 * TWO_53 - 1) && p < Shifted(q, 971) * TWO_53
  {
    var odd := 2 * TWO_53 - 1;
    ShiftBack(odd, 970);
    ShiftBack(q, 971);
    TwoSucc(970);
    hide Shifted, Two;
    var t := Two(970);
    assert q * (odd * t) == odd * (q * t) && q * (2 * t) == 2 * (q * t) by {
      Swap3(q, odd, t);
      Swap3(q, 2, t);
    }
    assert Shifted(q, 971) == 2 * (q * t) && p < odd * (q * t);
  }

  /** A number from 2^53 on: the low bits dropped. */
  lemma LargeRounded(p: nat, q: nat, n: nat)
    requires q > 0 && p >= q * TWO_53 && FloatFits(p, q) && IsFloat(n)
    ensures IsFloat(Rounded(p, q)) && FloatPart(p, q) == Rounded(p, q) / Two(1074)
    ensures Away(Rounded(p, q), p, q) <= Away(n, p, q)
  {
    var k := Dropped(p, q, 1);
    var Q, g := Shifted(q, k), 1074 + k;
    var h := HalfEven(p, Q);
    assert Rounded(p, q) == h * Two(g) && FloatPart(p, q) == Shifted(h, k);
    hide *;
    DroppedBounds(p, q);
    ShiftBack(q, k);
    ShiftBack(h, k);
    TwoAdd(k, 1074);
    HalfEvenBound(p, Q, TWO_53);
    HasBits(h, g);
    MulMul(q, Two(k), Two(1074));
    GridOf(p, q, p, Q, Two(1074), g);
    GridIsNearest(p, q, p, Q, Two(1074), g, n);
    MulMul(h, Two(k), Two(1074));
    MulDiv(h * Two(k), Two(1074));
  }

  /** With the bits dropped 53 are left. */
  lemma DroppedBounds(p: nat, q: nat)
    requires q > 0 && p >= q * TWO_53 && FloatFits(p, q)
    ensures var k := Dropped(p, q, 1); var Q := Shifted(q, k);
            k >= 1 && Q * TWO_52 <= p < Q * TWO_53 && (k == 971 ==> 2 * p < Q * (2 * TWO_53 - 1))
  {
    var k := Dropped(p, q, 1);
    DroppedIs(p, q, 1);
    LastStep(p, q);
    hide *;
    ShiftBack(q, k);
    ShiftBack(q * TWO_53, k);
    ShiftBack(q * TWO_53, k - 1);
    TwoSucc(k - 1);
    Halves(p, q, k);
  }

  /** The bounds of `Dropped` in steps. */
  lemma Halves(p: nat, q: nat, k: nat)
    requires k >= 1 && p >= q * TWO_53 * Two(k - 1) && Two(k) == 2 * Two(k - 1)
    requires p < q * TWO_53 * Two(k) || (k == 971 && p < q * Two(k) * TWO_53)
    ensures p < q * Two(k) * TWO_53 && p >= q * Two(k) * TWO_52
  {
    hide Two;
    var t := Two(k - 1);
    assert q * TWO_53 * t == TWO_53 * (q * t) && q * TWO_53 * (2 * t) == TWO_53 * (2 * (q * t));
    assert q * (2 * t) == 2 * (q * t);
  }

  /**
   `FloatPart` is the integer part of a float64 than which none is nearer to
   `p / q`, whatever the fraction, as long as it does not overflow.
   */
  lemma FloatPartIsNearest(p: nat, q: nat)
    requires q > 0 && FloatFits(p, q)
    ensures var r := Rounded(p, q);
            IsFloat(r) && FloatPart(p, q) == r / Two(1074) && forall n :: IsFloat(n) ==> Away(r, p, q) <= Away(n, p, q)
  {
    assert FloatBits(0, 0, 0);
    hide *;
    forall n | IsFloat(n)
      ensures var r := Rounded(p, q); IsFloat(r) && FloatPart(p, q) == r / Two(1074) && Away(r, p, q) <= Away(n, p, q)
    {
      if p < q * TWO_53 { SmallRounded(p, q, n); } else { LargeRounded(p, q, n); }
    }
    ZeroIsFloat();
  }

  lemma ZeroIsFloat()
    ensures IsFloat(0)
  {
    assert FloatBits(0, 0, 0);
  }

  /** Every int64 is within the limit. */
  lemma CountFits(n: nat)
    requires n <= 0x7FFF_FFFF_FFFF_FFFF
    ensures FloatFits(n, 1)
  {
    ShiftBack(2 * TWO_53 - 1, 970);
    TwoMono(10, 970);
    assert Two(10) == 1024;
    MulMono(2 * TWO_53 - 1, 1024, Two(970));
    hide Shifted, Two;
  }

  /** The limit is the midpoint between the largest float64, 2^1024 - 2^971, and the next power of two. */
  lemma LimitIs()
    ensures 2 * FLOAT_LIMIT == (Two(1024) - Two(971)) + Two(1024)
  {
    ShiftBack(2 * TWO_53 - 1, 970);
    TwoSucc(970);
    TwoAdd(54, 970);
    FiftyFour();
    hide Shifted, Two;
    assert (2 * TWO_53 - 1) * Two(970) == 2 * TWO_53 * Two(970) - Two(970);
  }

  lemma FiftyFour()
    ensures Two(54) == 2 * TWO_53
  {
    assert Two(9) == 512;
    hide *;
    TwoAdd(9, 9);
    TwoAdd(18, 9);
    TwoAdd(27, 27);
  }
}
