/** 64-bit division built from shifts and subtractions. */
module Division {
  const U64_LIMIT: nat := 0x1_0000_0000_0000_0000
  const I64_MIN: int := -0x8000_0000_0000_0000

  function Pow2(i: nat): (r: nat)
    ensures r > 0
  {
    if i == 0 then 1 else 2 * Pow2(i - 1)
  }

  predicate IsI64(v: int) {
    I64_MIN <= v < -I64_MIN
  }

  /** The unsigned reading of a signed word, and back. */
  function AsU64(v: int): (u: nat)
    requires IsI64(v)
    ensures u < U64_LIMIT
  {
    if v < 0 then v + U64_LIMIT else v
  }

  function AsI64(u: nat): (v: int)
    requires u < U64_LIMIT
    ensures IsI64(v) && AsU64(v) == u
  {
    if u >= -I64_MIN then u - U64_LIMIT else u
  }

  /** `(~u) + 1` in 64 bits. */
  function Negated(u: nat): (r: nat)
    requires u < U64_LIMIT
    ensures r < U64_LIMIT
  {
    (U64_LIMIT - u) % U64_LIMIT
  }

  function Abs(v: int): nat {
    if v < 0 then -v else v
  }

  function AbsToU64(v: int): (u: nat)
    requires IsI64(v)
    ensures u == Abs(v)
  {
    var uv := AsU64(v);
    if v < 0 then Negated(uv) else uv
  }

  /** One more bit of the dividend. */
  lemma NextBit(n: nat, i: nat)
    ensures n / Pow2(i) == 2 * (n / Pow2(i + 1)) + n / Pow2(i) % 2
  {
    Halved(n, Pow2(i));
  }

  lemma Halved(n: nat, p: nat)
    requires p > 0
    ensures n / p / 2 == n / (2 * p)
  {
    var a := n / p / 2;
    assert n == n / p * p + n % p;
    assert n / p == 2 * a + n / p % 2;
    assert n == a * (2 * p) + (n / p % 2 * p + n % p);
    Quotient(n, 2 * p, a, n / p % 2 * p + n % p);
  }

  lemma Quotient(n: nat, d: nat, q: nat, r: nat)
    requires d > 0 && n == q * d + r && r < d
    ensures n / d == q && n % d == r
  {
    assert n == n / d * d + n % d;
    var k := n / d - q;
    assert k * d == r - n % d;
    assert k >= 1 ==> k * d >= d;
    assert k <= -1 ==> k * d <= -1 * d;
  }

  lemma {:induction false} Pow64()
    ensures Pow2(64) == U64_LIMIT
  {
    assert Pow2(4) == 16;
    hide Pow2;
    PowAdd(4, 4);
    PowAdd(8, 8);
    PowAdd(16, 16);
    PowAdd(32, 32);
  }

  lemma {:induction false} PowAdd(a: nat, b: nat)
    ensures Pow2(a + b) == Pow2(a) * Pow2(b)
  {
    if b > 0 {
      PowAdd(a, b - 1);
      assert Pow2(a) * (2 * Pow2(b - 1)) == 2 * (Pow2(a) * Pow2(b - 1));
    }
  }

  /** The bits above position `i`, with `i` at least 1, make a number below 2^63, so shifting it left loses nothing. */
  lemma TopBits(n: nat, i: nat)
    requires n < U64_LIMIT && i >= 1
    ensures n / Pow2(i) < U64_LIMIT / 2
  {
    assert Pow2(i) == 2 * Pow2(i - 1);
    hide Pow2;
    Halved(n, Pow2(i - 1));
    DivLess(n, Pow2(i - 1));
  }

  lemma DivLess(n: nat, p: nat)
    requires p > 0
    ensures n / p <= n
  {
    QuotientParts(n, p);
    AtLeast(n / p, p);
  }

  lemma AtLeast(h: nat, p: nat)
    requires p > 0
    ensures h * p >= h
  {
    assert h * p == h * (p - 1) + h;
  }

  /** With `i` bits still to come: the bits seen make `quot * d + r`, and `q` is `quot` in its place. */
  ghost predicate Dividing(n: nat, d: nat, i: nat, quot: nat, r: nat, q: nat) {
    r < d && r <= n / Pow2(i) && n / Pow2(i) == quot * d + r && q == quot * Pow2(i)
  }

  lemma DividingStart(n: nat, d: nat)
    requires n < U64_LIMIT && d > 0
    ensures Dividing(n, d, 64, 0, 0, 0)
  {
    Pow64();
    Quotient(n, Pow2(64), 0, n);
  }

  lemma DividingStep(n: nat, d: nat, i: nat, quot: nat, r: nat, q: nat)
    requires n < U64_LIMIT && d > 0 && Dividing(n, d, i + 1, quot, r, q)
    ensures var r2 := r * 2 % U64_LIMIT + n / Pow2(i) % 2;
            if r2 >= d then Dividing(n, d, i, 2 * quot + 1, r2 - d, q + Pow2(i)) else Dividing(n, d, i, 2 * quot, r2, q)
  {
    hide Pow2;
    Step(n, d, i, quot, r, q);
    Small(r * 2);
  }

  lemma Small(x: nat)
    requires x < U64_LIMIT
    ensures x % U64_LIMIT == x
  {
  }

  lemma DividingEnd(n: nat, d: nat, quot: nat, r: nat, q: nat)
    requires Dividing(n, d, 0, quot, r, q)
    ensures n == q * d + r && r < d
  {
    assert Pow2(0) == 1;
    Quotient(n, 1, n, 0);
    assert q == quot;
  }

  /** Restoring division; 0 for a zero divisor. */
  method UDivCore(n: nat, d: nat) returns (q: nat, r: nat)
    requires n < U64_LIMIT && d < U64_LIMIT
    ensures d == 0 ==> q == 0 && r == 0
    ensures d != 0 ==> n == q * d + r && r < d
  {
    hide Pow2, Dividing;
    q, r := 0, 0;
    if d == 0 {
      return;
    }
    ghost var quot: nat := 0;
    DividingStart(n, d);
    var i := 63;
    while i >= 0
      invariant -1 <= i <= 63 && Dividing(n, d, i + 1, quot, r, q)
    {
      DividingStep(n, d, i, quot, r, q);
      r := r * 2 % U64_LIMIT + n / Pow2(i) % 2;
      quot := 2 * quot;
      if r >= d {
        r := r - d;
        q := q + Pow2(i);
        quot := quot + 1;
      }
      i := i - 1;
    }
    DividingEnd(n, d, quot, r, q);
  }

  lemma Step(n: nat, d: nat, i: nat, quot: nat, r: nat, q: nat)
    requires n < U64_LIMIT && d > 0 && r < d && r <= n / Pow2(i + 1)
    requires n / Pow2(i + 1) == quot * d + r && q == quot * Pow2(i + 1)
    ensures var bit := n / Pow2(i) % 2;
            && r * 2 < U64_LIMIT && 2 * r + bit <= n / Pow2(i)
            && n / Pow2(i) == 2 * quot * d + (2 * r + bit) && n / Pow2(i) == (2 * quot + 1) * d + (2 * r + bit - d)
            && q == 2 * quot * Pow2(i) && q + Pow2(i) == (2 * quot + 1) * Pow2(i)
  {
    NextBit(n, i);
    TopBits(n, i + 1);
    assert Pow2(i + 1) == 2 * Pow2(i);
    hide Pow2;
    assert quot * (2 * Pow2(i)) == 2 * quot * Pow2(i);
  }

  /** Division that drops the fraction. */
  function Trunc(a: int, b: int): int
    requires b != 0
  {
    if (a < 0) != (b < 0) then -(Abs(a) / Abs(b)) else Abs(a) / Abs(b)
  }

  /** The remainder, with the sign of the dividend. */
  function Rem(a: int, b: int): int
    requires b != 0
  {
    if a < 0 then -(Abs(a) % Abs(b)) else Abs(a) % Abs(b)
  }

  predicate Overflows(a: int, b: int) {
    a == I64_MIN && b == -1
  }

  /** A magnitude as a signed word, and that word negated. */
  lemma Words(u: nat)
    requires u <= -I64_MIN
    ensures (u == -I64_MIN ==> AsI64(u) == I64_MIN) && (u < -I64_MIN ==> AsI64(u) == u)
    ensures AsI64(Negated(u)) + u == 0
  {
  }

  method DivDi3(a: int, b: int) returns (q: int)
    requires IsI64(a) && IsI64(b)
    ensures IsI64(q) && (b == 0 ==> q == 0)
    ensures b != 0 ==> q == if Overflows(a, b) then I64_MIN else Trunc(a, b)
  {
    hide AsI64, AsU64, Negated, AbsToU64;
    if b == 0 {
      return 0;
    }
    var neg := (a < 0) != (b < 0);
    var uq, ur := UDivCore(AbsToU64(a), AbsToU64(b));
    Quotient(Abs(a), Abs(b), uq, ur);
    QuotientBound(Abs(a), Abs(b), uq, ur);
    Words(uq);
    q := AsI64(uq);
    if neg {
      q := AsI64(Negated(AsU64(q)));
    }
  }

  method ModDi3(a: int, b: int) returns (r: int)
    requires IsI64(a) && IsI64(b)
    ensures IsI64(r) && (b == 0 ==> r == 0) && (b != 0 ==> r == Rem(a, b))
  {
    hide AsI64, AsU64, Negated, AbsToU64;
    if b == 0 {
      return 0;
    }
    var uq, ur := UDivCore(AbsToU64(a), AbsToU64(b));
    Quotient(Abs(a), Abs(b), uq, ur);
    Words(ur);
    r := AsI64(ur);
    if a < 0 {
      r := AsI64(Negated(AsU64(r)));
    }
  }

  lemma QuotientBound(a: nat, b: nat, q: nat, r: nat)
    requires b > 0 && a == q * b + r
    ensures q <= a && (b >= 2 ==> 2 * q <= a)
  {
    assert q * b >= q;
    assert b >= 2 ==> q * b >= q * 2;
  }

  /** The two signed operations fit together: a = q*b + r with |r| < |b| and the sign of a, for every pair but the
      most negative value over -1, where the identity holds modulo 2^64. */
  lemma TruncRem(a: int, b: int)
    requires IsI64(a) && IsI64(b) && b != 0
    ensures a == Trunc(a, b) * b + Rem(a, b)
    ensures Abs(Rem(a, b)) < Abs(b) && (Rem(a, b) != 0 ==> (Rem(a, b) < 0 <==> a < 0))
    ensures IsI64(Trunc(a, b)) <==> !Overflows(a, b)
    ensures Overflows(a, b) ==> I64_MIN * b + Rem(a, b) == a + U64_LIMIT
  {
    var x, y := Abs(a), Abs(b);
    var q, r := Parts(x, y);
    Signed(x, y, q, r, a < 0, b < 0);
  }

  lemma Parts(x: nat, y: nat) returns (q: nat, r: nat)
    requires y > 0
    ensures q == x / y && r == x % y && x == q * y + r && r < y && q <= x && (y >= 2 ==> 2 * q <= x)
  {
    QuotientParts(x, y);
    q, r := x / y, x % y;
    QuotientBound(x, y, q, r);
  }

  lemma Signed(x: int, y: int, q: int, r: int, sa: bool, sb: bool)
    requires x == q * y + r
    ensures (if sa then -x else x) == (if sa != sb then -q else q) * (if sb then -y else y) + (if sa then -r else r)
  {
    Signs(q, y);
  }

  lemma QuotientParts(x: nat, y: nat)
    requires y > 0
    ensures x == x / y * y + x % y && x % y < y
  {
  }

  lemma Signs(q: int, y: int)
    ensures (-q) * (-y) == q * y && (-q) * y == -(q * y) && q * (-y) == -(q * y)
  {
  }
}
