/**
  Exact arithmetic of primitives.c: 32-bit integers and rationals of a sign, a
  16-bit numerator and a 16-bit denominator, with results that do not fit going
  to a floating-point number whose value is not modelled.
*/
module Rationals {
  import opened Options
  import opened Words

  // The number a / b.
  ghost function Ratio(a: int, b: int): real
    requires b != 0
  {
    (a as real) / (b as real)
  }

  lemma RatioEqual(a: int, b: int, c: int, d: int)
    requires b != 0 && d != 0
    ensures Ratio(a, b) == Ratio(c, d) <==> a * d == c * b
  {
    var x, y, p, q := Ratio(a, b), Ratio(c, d), b as real, d as real;
    assert x * p == a as real && y * q == c as real;
    assert (a * d) as real == x * p * q && (c * b) as real == y * q * p;
    if x != y {
      Cancel(x, y, p * q);
    }
  }

  lemma Cancel(x: real, y: real, p: real)
    requires p != 0.0 && x != y
    ensures x * p != y * p
  {
  }

  lemma RatioSum(a: int, b: int, c: int, d: int)
    requires b != 0 && d != 0
    ensures b * d != 0 && Ratio(a, b) + Ratio(c, d) == Ratio(a * d + c * b, b * d)
  {
  }

  lemma RatioProduct(a: int, b: int, c: int, d: int)
    requires b != 0 && d != 0
    ensures b * d != 0 && Ratio(a, b) * Ratio(c, d) == Ratio(a * c, b * d)
  {
  }

  // Greatest common divisors, for all but (0, 0).
  function Gcd(a: nat, b: nat): (g: nat)
    ensures g == 0 <==> a == 0 && b == 0
    decreases b
  {
    if b == 0 then a else Gcd(b, a % b)
  }

  predicate Divides(k: int, n: int) {
    k != 0 && n % k == 0
  }

  // Integer algebra, one step each.
  lemma Positive(g: int, m: int, k: int)
    requires g == m * k && g > 0 && k > 0
    ensures m > 0 && k <= g
  {
  }

  lemma Combine(s: int, x: int, t: int, y: int, k: int)
    ensures s * (x * k) + t * (y * k) == (s * x + t * y) * k
  {
  }

  lemma EuclidStep(u: int, v: int, q: int, b: int, r: int)
    ensures v * (q * b + r) + (u - v * q) * b == u * b + v * r
  {
  }

  lemma SameFactor(m: int, n: int, k: int)
    requires k > 0 && m * k == n * k
    ensures m == n
  {
  }

  lemma SameSide(m: int, k: int)
    requires m > 0 && k > 0
    ensures m * k >= k && m * k >= m
  {
  }

  lemma DividesBy(k: int, n: int, q: int)
    requires k > 0 && n == q * k
    ensures Divides(k, n) && n / k == q
  {
    assert n == n / k * k + n % k;
    Squeeze(q - n / k, n % k, k);
  }

  lemma Squeeze(m: int, r: int, k: int)
    requires m * k == r && 0 <= r < k
    ensures m == 0
  {
  }

  // The identity of Bezout.
  lemma {:induction false} Bezout(a: nat, b: nat) returns (s: int, t: int)
    ensures s * a + t * b == Gcd(a, b)
    decreases b
  {
    if b == 0 {
      s, t := 1, 0;
    } else {
      var u, v := Bezout(b, a % b);
      s, t := v, u - v * (a / b);
      EuclidStep(u, v, a / b, b, a % b);
    }
  }

  // Gcd (a, b) divides both.
  lemma {:induction false} GcdDivides(a: nat, b: nat) returns (p: nat, q: nat)
    requires a != 0 || b != 0
    ensures a == p * Gcd(a, b) && b == q * Gcd(a, b)
    decreases b
  {
    if b == 0 {
      p, q := 1, 0;
    } else {
      var u, v := GcdDivides(b, a % b);
      p, q := a / b * u + v, u;
      Combine(a / b, u, 1, v, Gcd(a, b));
    }
  }

  // g is the greatest common divisor of a and b.
  ghost predicate IsGcd(g: nat, a: nat, b: nat) {
    Divides(g, a) && Divides(g, b) && forall k: nat :: Divides(k, a) && Divides(k, b) ==> k <= g
  }

  // A common divisor divides every combination.
  lemma DividesCombination(k: nat, a: int, b: int, s: int, t: int) returns (m: int)
    requires Divides(k, a) && Divides(k, b)
    ensures s * a + t * b == m * k
  {
    m := s * (a / k) + t * (b / k);
    Combine(s, a / k, t, b / k, k);
    assert a == a / k * k && b == b / k * k;
  }

  lemma GcdIsGreatest(a: nat, b: nat)
    requires a != 0 || b != 0
    ensures IsGcd(Gcd(a, b), a, b)
  {
    var g := Gcd(a, b);
    var p, q := GcdDivides(a, b);
    DividesBy(g, a, p);
    DividesBy(g, b, q);
    forall k: nat | Divides(k, a) && Divides(k, b)
      ensures k <= g
    {
      NotAbove(a, b, k);
    }
  }

  lemma NotAbove(a: nat, b: nat, k: nat)
    requires (a != 0 || b != 0) && Divides(k, a) && Divides(k, b)
    ensures k <= Gcd(a, b)
  {
    var s, t := Bezout(a, b);
    var m := DividesCombination(k, a, b, s, t);
    Positive(Gcd(a, b), m, k);
  }

  ghost predicate Coprime(a: int, b: int) {
    forall k: nat :: k > 1 ==> !(Divides(k, a) && Divides(k, b))
  }

  lemma CoprimeOne(a: int)
    ensures Coprime(a, 1)
  {
    BezoutCoprime(a, 1, 0, 1);
  }

  lemma BezoutCoprime(a: int, b: int, s: int, t: int)
    requires s * a + t * b == 1
    ensures Coprime(a, b)
  {
    forall k: nat | k > 1
      ensures !(Divides(k, a) && Divides(k, b))
    {
      if Divides(k, a) && Divides(k, b) {
        var m := DividesCombination(k, a, b, s, t);
        DividesBy(k, 1, m);
      }
    }
  }

  // Dividing by the greatest common divisor gives lowest terms.
  lemma Reduced(a: nat, b: nat)
    requires a != 0 || b != 0
    ensures var g := Gcd(a, b); g > 0 && a == a / g * g && b == b / g * g && Coprime(a / g, b / g)
  {
    var g := Gcd(a, b);
    var p, q := GcdDivides(a, b);
    DividesBy(g, a, p);
    DividesBy(g, b, q);
    var s, t := Bezout(a, b);
    Combine(s, p, t, q, g);
    SameFactor(s * p + t * q, 1, g);
    BezoutCoprime(p, q, s, t);
  }

  // Lowest terms are the smallest: every other form is a multiple.
  lemma LowestIsSmallest(p: nat, q: nat, n: nat, d: nat) returns (k: nat)
    requires Coprime(p, q) && q > 0 && d > 0 && p * d == n * q
    ensures k > 0 && n == k * p && d == k * q
  {
    GcdIsGreatest(p, q);
    assert Gcd(p, q) == 1;
    var s, t := Bezout(p, q);
    var m := s * n + t * d;
    Combine(s, n, t, d, q);
    Combine(s, p, t, q, d);
    assert m * q == d by {
      assert s * (n * q) + t * (d * q) == s * (p * d) + t * (q * d);
    }
    Positive(d, m, q);
    k := m;
    Rearranged(p, m, q, n);
    SameFactor(m * p, n, q);
  }

  lemma Rearranged(p: int, m: int, q: int, n: int)
    ensures p * (m * q) == m * p * q
  {
  }

  // What fits a rational object: sixteen bits each way.
  ghost predicate Representable(r: real) {
    exists n: int, d: nat :: 0 < d <= 0xFFFF && -0xFFFF <= n <= 0xFFFF && r == Ratio(n, d)
  }

  lemma RatioReduced(sign: int, n: int, d: int, g: int)
    requires d != 0 && g != 0
    ensures d * g != 0 && Ratio(sign * (n * g), d * g) == Ratio(sign * n, d)
  {
    RatioEqual(sign * (n * g), d * g, sign * n, d);
  }

  lemma LowestFits(sign: int, p: nat, q: nat)
    requires Coprime(p, q) && q > 0 && (sign == 1 || sign == -1)
    ensures Representable(Ratio(sign * p, q)) <==> p <= 0xFFFF && q <= 0xFFFF
  {
    var r := Ratio(sign * p, q);
    if Representable(r) {
      var n: int, d: nat :| 0 < d <= 0xFFFF && -0xFFFF <= n <= 0xFFFF && r == Ratio(n, d);
      RatioEqual(sign * p, q, n, d);
      Signs(sign, p, d, n, q);
      var k := LowestIsSmallest(p, q, sign * n, d);
      SameSide(k, q);
      if p > 0 {
        SameSide(k, p);
      }
    }
  }

  lemma Signs(sign: int, p: nat, d: nat, n: int, q: nat)
    requires (sign == 1 || sign == -1) && sign * p * d == n * q && q > 0
    ensures p * d == sign * n * q && sign * n >= 0
  {
  }

  const MIN_INT32 := -0x8000_0000

  // The value word of an object.
  type Bits = x: nat | x < 0x1_0000_0000

  function ToBits(x: int): Bits {
    x % 0x1_0000_0000
  }

  lemma BitsKeep(x: int)
    requires IsInt32(x)
    ensures ToInt32(ToBits(x)) == x && ToInt32(x) == x
  {
  }

  lemma OutOfRange(x: int)
    ensures ToInt32(x) == x <==> IsInt32(x)
  {
  }

  predicate IsInt32(n: int) {
    -0x8000_0000 <= n < 0x8000_0000
  }

  function Abs(x: int): nat {
    if x < 0 then -x else x
  }

  // The loop of gcd and gcd64.
  method Remainders(u: nat, v: nat) returns (g: nat)
    requires v != 0
    ensures g == Gcd(u, v)
  {
    var uu, vv := u, v;
    while true
      invariant vv != 0 && Gcd(uu, vv) == Gcd(u, v)
      decreases vv
    {
      uu := uu % vv;
      assert Gcd(vv, uu) == Gcd(u, v);
      if uu == 0 {
        break;
      }
      vv := vv % uu;
      if vv == 0 {
        assert Gcd(uu, vv) == Gcd(u, v);
        break;
      }
    }
    g := uu + vv;
  }

  // gcd: a zero second argument is a division by zero, and abs has no result
  // for the smallest integer.
  method Gcd32(u: Int32, v: Int32) returns (g: Option<nat>)
    ensures g == None <==> v == 0 || u == MIN_INT32 || v == MIN_INT32
    ensures g.Some? ==> g.value == Gcd(Abs(u), Abs(v)) && IsGcd(g.value, Abs(u), Abs(v))
  {
    if v == 0 || u == MIN_INT32 || v == MIN_INT32 {
      return None;
    }
    var r := Remainders(Abs(u), Abs(v));
    GcdIsGreatest(Abs(u), Abs(v));
    g := Some(r);
  }

  // gcd64
  method Gcd64(u: int, v: int) returns (g: Option<nat>)
    ensures g == None <==> v == 0
    ensures g.Some? ==> g.value == Gcd(Abs(u), Abs(v)) && IsGcd(g.value, Abs(u), Abs(v))
  {
    if v == 0 {
      return None;
    }
    var r := Remainders(Abs(u), Abs(v));
    GcdIsGreatest(Abs(u), Abs(v));
    g := Some(r);
  }

  // What becomes of a fraction: lowest terms, terms that need more than
  // sixteen bits, or a fault in the gcd.
  datatype Fraction = Terms(n: nat, d: nat) | TooWide | Fault

  function DividedBy(g: nat, n: nat, d: nat): Fraction
    requires g != 0
  {
    if n / g <= 0xFFFF && d / g <= 0xFFFF then Terms(n / g, d / g) else TooWide
  }

  // only_16_bit_signed, or the bounds of _int_div, on the quotients.
  method Divide(g: nat, numerator: nat, denominator: nat) returns (f: Fraction)
    requires g != 0
    ensures f == DividedBy(g, numerator, denominator)
    ensures f.Terms? ==> f.n <= 0xFFFF && f.d <= 0xFFFF
  {
    var n, d := numerator / g, denominator / g;
    f := if n <= 0xFFFF && d <= 0xFFFF then Terms(n, d) else TooWide;
  }

  // With the 64-bit gcd.
  function ReduceWide(d: nat, n: nat): Fraction {
    if n == 0 then Fault else DividedBy(Gcd(d, n), n, d)
  }

  // With the 32-bit gcd, as in _int_add.
  function ReduceNarrow(d: nat, n: nat): Fraction {
    var u, v := ToInt32(d), ToInt32(n);
    if v == 0 || u == MIN_INT32 || v == MIN_INT32 then Fault else DividedBy(Gcd(Abs(u), Abs(v)), n, d)
  }

  // f is the outcome for the number r that is sign * n / d.
  ghost predicate Right(f: Fraction, sign: int, r: real) {
    match f
    case Terms(p, q) => 0 < q <= 0xFFFF && p <= 0xFFFF && Coprime(p, q) && r == Ratio(sign * p, q) && Representable(r)
    case TooWide => !Representable(r)
    case Fault => false
  }

  lemma DividedRight(sign: int, n: nat, d: nat, g: nat)
    requires (sign == 1 || sign == -1) && d != 0 && (g == Gcd(n, d) || g == Gcd(d, n))
    ensures Right(DividedBy(g, n, d), sign, Ratio(sign * n, d))
  {
    hide Gcd, Coprime, Representable, Ratio;
    var p, q := n / g, d / g;
    ReducedEither(n, d, g);
    RatioReduced(sign, p, q, g);
    LowestFits(sign, p, q);
  }

  lemma ReducedEither(n: nat, d: nat, g: nat)
    requires d != 0 && (g == Gcd(n, d) || g == Gcd(d, n))
    ensures g != 0 && n == n / g * g && d == d / g * g && d / g != 0 && Coprime(n / g, d / g)
  {
    hide Gcd;
    if g == Gcd(n, d) {
      Reduced(n, d);
    } else {
      Reduced(d, n);
      assert forall k: nat :: !(Divides(k, n / g) && Divides(k, d / g)) <== !(Divides(k, d / g) && Divides(k, n / g));
    }
    NonZero(d / g, g);
  }

  lemma NonZero(q: int, g: int)
    ensures q == 0 ==> q * g == 0
  {
  }

  // The wide reduction is right for every number but zero.
  lemma WideRight(sign: int, n: nat, d: nat)
    requires (sign == 1 || sign == -1) && d != 0
    ensures Right(ReduceWide(d, n), sign, Ratio(sign * n, d)) <==> n != 0
  {
    if n != 0 {
      DividedRight(sign, n, d, Gcd(d, n));
    }
  }

  // Only one outcome is right for a number.
  lemma OneRight(e: Fraction, f: Fraction, sign: int, r: real)
    requires (sign == 1 || sign == -1) && Right(e, sign, r) && Right(f, sign, r)
    ensures e == f
  {
    hide Ratio, Coprime, Representable;
    if e.Terms? && f.Terms? {
      RatioEqual(sign * e.n, e.d, sign * f.n, f.d);
      SignsCancel(sign, e.n, f.d, f.n, e.d);
      SameLowest(e.n, e.d, f.n, f.d);
    }
  }

  lemma SignsCancel(sign: int, a: int, b: int, c: int, d: int)
    requires (sign == 1 || sign == -1) && sign * a * b == sign * c * d
    ensures a * b == c * d
  {
  }

  lemma SameLowest(p: nat, q: nat, n: nat, d: nat)
    requires q > 0 && d > 0 && Coprime(p, q) && Coprime(n, d) && p * d == n * q
    ensures p == n && q == d
  {
    var k := LowestIsSmallest(p, q, n, d);
    if k != 1 {
      SameSide(d, 1);
      assert k != 0;
      DividesBy(k, n, p);
      DividesBy(k, d, q);
      assert false;
    }
  }

  predicate TooBig(n: nat, d: nat) {
    n > 0xFFFF || d > 0xFFFF
  }

  // The low 32 bits of the terms lead to a divisor, and it reduces the terms as
  // their own divisor does, or leaves them as wide.
  predicate BitsSuffice(d: nat, n: nat) {
    var u, v := ToInt32(d), ToInt32(n);
    && d != 0 && v != 0 && u != MIN_INT32 && v != MIN_INT32
    && SameReduction(Gcd(d, n), Gcd(Abs(u), Abs(v)), d, n)
  }

  predicate SameReduction(g: nat, h: nat, d: nat, n: nat)
    requires g != 0 && h != 0
  {
    || (n / h == n / g && d / h == d / g)
    || (TooBig(n / h, d / h) && TooBig(n / g, d / g))
  }

  // The narrow one is right for exactly these terms,
  lemma NarrowRight(sign: int, n: nat, d: nat)
    requires (sign == 1 || sign == -1) && d != 0
    ensures Right(ReduceNarrow(d, n), sign, Ratio(sign * n, d)) <==> BitsSuffice(d, n)
  {
    hide Gcd, Right, Ratio, ToInt32;
    var f, r := ReduceNarrow(d, n), Ratio(sign * n, d);
    DividedRight(sign, n, d, Gcd(d, n));
    if f.Fault? {
      FaultIsWrong(sign, r);
    } else if Right(f, sign, r) {
      OneRight(f, DividedBy(Gcd(d, n), n, d), sign, r);
    }
  }

  lemma FaultIsWrong(sign: int, r: real)
    ensures !Right(Fault, sign, r)
  {
  }

  // among them all of at most 31 bits but zero.
  lemma SmallSuffice(n: nat, d: nat)
    requires 0 < d < 0x8000_0000 && n < 0x8000_0000
    ensures BitsSuffice(d, n) <==> n != 0
  {
    hide Gcd;
    assert ToInt32(d) == d && ToInt32(n) == n;
  }

  // Beyond them it can fault or give the wrong number: 65537 + 1/65535 and
  // 31879/63488 - 30997/63488.
  lemma NarrowWrong()
    ensures ReduceNarrow(0xFFFF, 65537 * 0xFFFF + 1) == Fault
    ensures var d, n := 63488 * 63488, (31879 - 30997) * 63488;
      ReduceNarrow(d, n) == Terms(217, 15620) && Ratio(217, 15620) != Ratio(n, d)
  {
    var d, n := 63488 * 63488, (31879 - 30997) * 63488;
    assert ToInt32(d) == -264241152 && ToInt32(n) == 55996416;
    RatioEqual(217, 15620, n, d);
  }

  // The types of objects the arithmetic distinguishes.
  datatype Kind = ImmInt | RationalPos | RationalNeg | Real | ComplexExact | ComplexInexact | Other

  // Undefined: a division by zero or an overflow of a signed integer inside
  // the arithmetic, on which C puts no meaning.
  datatype Outcome = Done | Panicked | Undefined

  class Number {
    var kind: Kind
    var bits: Bits

    constructor (kind: Kind, bits: Bits)
      ensures this.kind == kind && this.bits == bits
    {
      this.kind, this.bits := kind, bits;
    }

    function Signed(): Int32
      reads this
    {
      ToInt32(bits)
    }

    predicate IsRational()
      reads this
    {
      kind == RationalPos || kind == RationalNeg
    }

    function Numerator(): (n: nat)
      reads this
      ensures n <= 0xFFFF
    {
      bits / 0x1_0000
    }

    function Denominator(): (d: nat)
      reads this
      ensures d <= 0xFFFF
    {
      bits % 0x1_0000
    }

    // An integer or a rational with a denominator: what has an exact value.
    predicate Exact()
      reads this
    {
      kind == ImmInt || (IsRational() && Denominator() != 0)
    }

    // The value as sign, numerator and denominator.
    function Sign(): (s: int)
      reads this
      ensures s == 1 || s == -1
    {
      if kind == ImmInt then (if Signed() > 0 then 1 else -1) else if kind == RationalPos then 1 else -1
    }

    function Top(): nat
      reads this
    {
      if kind == ImmInt then Abs(Signed()) else Numerator()
    }

    function Bottom(): nat
      reads this
    {
      if kind == ImmInt then 1 else Denominator()
    }

    ghost function Value(): real
      requires Exact()
      reads this
    {
      Ratio(Sign() * Top(), Bottom())
    }

    // The object is the number r, an integer or in lowest terms.
    ghost predicate Holds(r: real)
      reads this
    {
      && Exact() && Value() == r
      && (IsRational() ==> Coprime(Numerator(), Denominator()) && Denominator() != 1)
    }

    // The object is what a right computation of r leaves.
    ghost predicate Gives(r: real)
      reads this
    {
      if Representable(r) then Holds(r) else kind == Real
    }

    // cast_rational_to_imm_int_if_denominator_is_1
    method CastIfDenominatorIs1()
      requires IsRational()
      modifies this
      ensures old(Denominator()) != 1 ==> kind == old(kind) && bits == old(bits)
      ensures old(Denominator()) == 1 ==> kind == ImmInt && Signed() == old(Sign() * Numerator())
    {
      hide ToInt32, ToBits;
      var n, d := Numerator(), Denominator();
      if d != 1 {
        return;
      }
      var sign: int := if kind == RationalPos then 1 else -1;
      BitsKeep(sign * n);
      kind := ImmInt;
      bits := ToBits(sign * n);
    }

    // A floating-point result; which one is not modelled.
    method SetReal(f: Bits)
      modifies this
      ensures kind == Real
    {
      kind := Real;
      bits := f;
    }

    // A reduced fraction, or the way out to floating point.
    method Set(f: Fraction, sign: int, float: Bits) returns (out: Outcome)
      requires sign == 1 || sign == -1
      requires f.Terms? ==> f.n <= 0xFFFF && f.d <= 0xFFFF
      modifies this
      ensures out == Undefined <==> f.Fault?
      ensures out == Done || out == Undefined
      ensures f.TooWide? ==> kind == Real
      ensures forall r :: Right(f, sign, r) <==> out == Done && Gives(r)
    {
      match f
      case Fault => out := Undefined;
      case TooWide =>
        SetReal(float);
        out := Done;
      case Terms(n, d) =>
        SetTerms(n, d, sign);
        out := Done;
    }

    method SetTerms(n: nat, d: nat, sign: int)
      requires (sign == 1 || sign == -1) && n <= 0xFFFF && d <= 0xFFFF
      modifies this
      ensures d != 0 ==> Exact() && Value() == Ratio(sign * n, d)
      ensures d != 0 ==> (Holds(Ratio(sign * n, d)) <==> Coprime(n, d))
      ensures d == 0 ==> IsRational() && !Exact()
    {
      hide Ratio, Coprime, ToInt32;
      bits := ToBits(n * 0x1_0000 + d);
      kind := if sign > 0 then RationalPos else RationalNeg;
      assert Numerator() == n && Denominator() == d;
      CoprimeOne(n);
      CastIfDenominatorIs1();
    }

    predicate IsMin()
      reads this
    {
      kind == ImmInt && Signed() == MIN_INT32
    }

    predicate IsComplex()
      reads this
    {
      kind == ComplexExact || kind == ComplexInexact
    }

    predicate IsNumber()
      reads this
    {
      kind != Other && !IsComplex()
    }
  }

  // A result is an integer object exactly when the number is whole.
  lemma WholeIsInteger(o: Number, r: real)
    requires o.Holds(r)
    ensures o.kind == ImmInt <==> exists k: int :: r == Ratio(k, 1)
  {
    if o.kind == ImmInt {
      assert r == Ratio(o.Sign() * o.Top(), 1);
    } else if exists k: int :: r == Ratio(k, 1) {
      var k: int :| r == Ratio(k, 1);
      RatioEqual(o.Sign() * o.Top(), o.Bottom(), k, 1);
      Signs(o.Sign(), o.Top(), 1, k, o.Bottom());
      var m := LowestIsSmallest(o.Top(), o.Bottom(), o.Sign() * k, 1);
      SameSide(m, o.Bottom());
      assert false;
    }
  }

  // The sum and the product over the product of the denominators.
  function SumTop(x: Number, y: Number): int
    reads x, y
  {
    x.Top() * y.Bottom() * x.Sign() + y.Top() * x.Bottom() * y.Sign()
  }

  function BothTops(x: Number, y: Number): nat
    reads x, y
  {
    x.Top() * y.Top()
  }

  function BothSigns(x: Number, y: Number): (s: int)
    reads x, y
    ensures s == 1 || s == -1
  {
    x.Sign() * y.Sign()
  }

  function BothBottoms(x: Number, y: Number): nat
    reads x, y
  {
    x.Bottom() * y.Bottom()
  }

  lemma SumValue(x: Number, y: Number)
    requires x.Exact() && y.Exact()
    ensures BothBottoms(x, y) != 0 && x.Value() + y.Value() == Ratio(SumTop(x, y), BothBottoms(x, y))
    ensures SumTop(x, y) == 0 <==> x.Value() + y.Value() == 0.0
  {
    hide Ratio;
    RatioSum(x.Sign() * x.Top(), x.Bottom(), y.Sign() * y.Top(), y.Bottom());
    SignsLast(x.Sign(), x.Top(), y.Bottom());
    SignsLast(y.Sign(), y.Top(), x.Bottom());
    RatioZero(SumTop(x, y), BothBottoms(x, y));
  }

  lemma SignsLast(sign: int, t: int, b: int)
    ensures sign * t * b == t * b * sign
  {
  }

  lemma RatioZero(a: int, b: int)
    requires b != 0
    ensures Ratio(a, b) == 0.0 <==> a == 0
  {
    RatioEqual(a, b, 0, 1);
  }

  // The sizes _int_add needs to be right.
  predicate NarrowSum(x: Number, y: Number)
    reads x, y
  {
    BothBottoms(x, y) < 0x8000_0000 && Abs(SumTop(x, y)) < 0x8000_0000
  }

  // cast_int_or_fractal_to_float on both operands and an operation on the
  // results, all that happens at the labels _int_add_float_add_float and
  // _int_mul_float_mul_float.
  method ToFloat(ret: Number, x: Number, y: Number, float: Bits) returns (out: Outcome)
    modifies ret
    ensures old(x.IsNumber() && y.IsNumber()) ==> out == Done && ret.kind == Real
    ensures !old(x.IsNumber() && y.IsNumber()) ==> out == Panicked
  {
    if !(x.IsNumber() && y.IsNumber()) {
      return Panicked;
    }
    ret.SetReal(float);
    out := Done;
  }

  // The result of two integers, in floating point if 32 bits do not hold it.
  method SetInt(ret: Number, x: Number, y: Number, result: int, float: Bits) returns (out: Outcome)
    requires x.IsNumber() && y.IsNumber()
    modifies ret
    ensures out == Done
    ensures if IsInt32(result) then ret.kind == ImmInt && ret.Signed() == result else ret.kind == Real
  {
    hide ToInt32, ToBits;
    OutOfRange(result);
    if IsInt32(result) {
      BitsKeep(result);
    }
    if ToInt32(result) != result {
      out := ToFloat(ret, x, y, float);
    } else {
      ret.bits := ToBits(result);
      ret.kind := ImmInt;
      out := Done;
    }
  }

  // _int_add.  float is the sum in floating point, should it be asked for.
  method IntAdd(ret: Number, x: Number, y: Number, float: Bits) returns (out: Outcome)
    modifies ret
    ensures old(x.IsComplex() || y.IsComplex()) ==> out == Panicked
    ensures old(x.IsNumber() && y.IsNumber() && (x.kind == Real || y.kind == Real)) ==> out == Done && ret.kind == Real
    ensures old(x.kind == y.kind == ImmInt) ==>
      && out == Done
      && if IsInt32(old(x.Signed() + y.Signed())) then
           ret.kind == ImmInt && ret.Signed() == old(x.Signed() + y.Signed())
         else
           ret.kind == Real
    ensures old(x.Exact() && y.Exact() && !(x.kind == y.kind == ImmInt)) ==>
      && (out == Undefined <==> old(ReduceNarrow(BothBottoms(x, y), Abs(SumTop(x, y)))).Fault?)
      && (out == Done || out == Undefined)
      && (out == Done && ret.Gives(old(x.Value() + y.Value())) <==> old(BitsSuffice(BothBottoms(x, y), Abs(SumTop(x, y)))))
    ensures old(x.Exact() && y.Exact() && !(x.kind == y.kind == ImmInt) && NarrowSum(x, y)) ==>
      var sum := old(x.Value() + y.Value());
      if sum == 0.0 then out == Undefined else out == Done && ret.Gives(sum)
  {
    hide Representable, Ratio, Gcd, Coprime, BitsSuffice;
    if x.IsComplex() || y.IsComplex() {
      return Panicked;
    } else if x.kind == Real || y.kind == Real {
      out := ToFloat(ret, x, y, float);
    } else if x.IsRational() || y.IsRational() {
      if x.kind == Other || y.kind == Other {
        return Panicked;
      }
      out := AddRational(ret, x, y, float);
    } else if x.kind == ImmInt && y.kind == ImmInt {
      out := SetInt(ret, x, y, x.Signed() + y.Signed(), float);
    } else {
      out := Panicked;
    }
  }

  ghost function Sum(x: Number, y: Number): real
    requires x.Exact() && y.Exact()
    reads x, y
  {
    x.Value() + y.Value()
  }

  function SumSign(x: Number, y: Number): (s: int)
    reads x, y
    ensures s == 1 || s == -1
  {
    if SumTop(x, y) > 0 then 1 else -1
  }

  lemma SumRight(x: Number, y: Number)
    requires x.Exact() && y.Exact()
    ensures Right(ReduceNarrow(BothBottoms(x, y), Abs(SumTop(x, y))), SumSign(x, y), Sum(x, y))
      <==> BitsSuffice(BothBottoms(x, y), Abs(SumTop(x, y)))
    ensures NarrowSum(x, y) ==> (BitsSuffice(BothBottoms(x, y), Abs(SumTop(x, y))) <==> Sum(x, y) != 0.0)
    ensures NarrowSum(x, y) && Sum(x, y) == 0.0 ==> ReduceNarrow(BothBottoms(x, y), Abs(SumTop(x, y))) == Fault
  {
    hide Ratio, BothBottoms, SumTop, Number.Value, Right, DividedBy, Gcd, Number.Exact, BitsSuffice;
    SumValue(x, y);
    assert SumSign(x, y) * Abs(SumTop(x, y)) == SumTop(x, y);
    NarrowRight(SumSign(x, y), Abs(SumTop(x, y)), BothBottoms(x, y));
    if NarrowSum(x, y) {
      SmallSuffice(Abs(SumTop(x, y)), BothBottoms(x, y));
    }
  }

  method AddRational(ret: Number, x: Number, y: Number, float: Bits) returns (out: Outcome)
    modifies ret
    ensures out == Done || out == Undefined
    ensures out == Undefined <==> old(ReduceNarrow(BothBottoms(x, y), Abs(SumTop(x, y)))).Fault?
    ensures old(x.Exact() && y.Exact()) ==>
      && (out == Done && ret.Gives(old(Sum(x, y))) <==> old(BitsSuffice(BothBottoms(x, y), Abs(SumTop(x, y)))))
      && (old(NarrowSum(x, y)) ==> if old(Sum(x, y)) == 0.0 then out == Undefined else out == Done && ret.Gives(old(Sum(x, y))))
  {
    hide Gcd, SumTop, SumSign, BothBottoms, Sum, Number.Gives, Number.Exact, DividedBy, NarrowSum, BitsSuffice, Right;
    if x.Exact() && y.Exact() {
      SumRight(x, y);
    }
    var f := ReduceByGcd32(BothBottoms(x, y), Abs(SumTop(x, y)));
    out := ret.Set(f, SumSign(x, y), float);
  }

  // Division of both parts by their greatest common divisor.
  method ReduceByGcd32(denominator: nat, numerator: nat) returns (f: Fraction)
    ensures f == ReduceNarrow(denominator, numerator)
    ensures f.Terms? ==> f.n <= 0xFFFF && f.d <= 0xFFFF
  {
    hide ToInt32, Gcd, IsGcd;
    var g := Gcd32(ToInt32(denominator), ToInt32(numerator));
    if g == None {
      return Fault;
    }
    f := Divide(g.value, numerator, denominator);
  }

  function DifferenceTop(x: Number, y: Number): int
    reads x, y
  {
    x.Top() * y.Bottom() * x.Sign() - y.Top() * x.Bottom() * y.Sign()
  }

  predicate NarrowDifference(x: Number, y: Number)
    reads x, y
  {
    BothBottoms(x, y) < 0x8000_0000 && Abs(DifferenceTop(x, y)) < 0x8000_0000
  }

  // The change of sign at the start of _int_sub; the smallest integer becomes a
  // floating-point number.
  method Negated(y: Number, float: Bits) returns (z: Number)
    requires y.IsNumber()
    ensures fresh(z) && z.IsNumber()
    ensures y.kind == Real || y.IsMin() ==> z.kind == Real
    ensures y.kind == ImmInt && y.Signed() != MIN_INT32 ==> z.kind == ImmInt && z.Signed() == -(y.Signed() as int)
    ensures y.IsRational() ==> z.IsRational() && z.Top() == y.Top() && z.Bottom() == y.Bottom() && z.Sign() == -y.Sign()
  {
    hide ToInt32, ToBits;
    z := new Number(y.kind, y.bits);
    if z.kind == Real {
      z.bits := float;
    } else if z.kind == RationalPos {
      z.kind := RationalNeg;
    } else if z.kind == RationalNeg {
      z.kind := RationalPos;
    } else if z.Signed() == MIN_INT32 {
      z.SetReal(float);
    } else {
      BitsKeep(-z.Signed());
      z.bits := ToBits(-z.Signed());
    }
  }

  lemma NegatedTerms(x: Number, y: Number, z: Number)
    requires y.Exact() && (y.kind == ImmInt ==> z.kind == ImmInt && z.Signed() == -(y.Signed() as int))
    requires y.IsRational() ==> z.IsRational() && z.Top() == y.Top() && z.Bottom() == y.Bottom() && z.Sign() == -y.Sign()
    ensures z.Exact() && BothBottoms(x, z) == BothBottoms(x, y) && SumTop(x, z) == DifferenceTop(x, y)
    ensures z.Value() == -y.Value()
  {
    hide Ratio, ToInt32;
    RatioNegated(y.Sign() * y.Top(), y.Bottom());
    Opposite(y.Top() * x.Bottom(), y.Sign(), z.Sign());
  }

  lemma RatioNegated(a: int, b: int)
    requires b != 0
    ensures Ratio(-a, b) == -Ratio(a, b)
  {
  }

  lemma Opposite(u: int, s: int, t: int)
    ensures s == -t ==> u * s == -(u * t)
  {
  }

  // _int_sub
  method IntSub(ret: Number, x: Number, y: Number, float: Bits) returns (out: Outcome)
    modifies ret
    ensures old(x.IsComplex() || y.IsComplex()) ==> out == Panicked
    ensures old(x.IsNumber() && y.IsNumber() && (x.kind == Real || y.kind == Real)) ==> out == Done && ret.kind == Real
    ensures old(x.kind == y.kind == ImmInt) ==>
      && out == Done
      && if IsInt32(old(x.Signed() - y.Signed())) && old(y.Signed()) != MIN_INT32 then
           ret.kind == ImmInt && ret.Signed() == old(x.Signed() - y.Signed())
         else
           ret.kind == Real
    ensures old(x.IsRational() && y.IsMin()) ==> out == Done && ret.kind == Real
    ensures old(x.Exact() && y.Exact() && !(x.kind == y.kind == ImmInt) && !y.IsMin()) ==>
      && (out == Undefined <==> old(ReduceNarrow(BothBottoms(x, y), Abs(DifferenceTop(x, y)))).Fault?)
      && (out == Done || out == Undefined)
      && (out == Done && ret.Gives(old(x.Value() - y.Value())) <==> old(BitsSuffice(BothBottoms(x, y), Abs(DifferenceTop(x, y)))))
    ensures old(x.Exact() && y.Exact() && !(x.kind == y.kind == ImmInt) && !y.IsMin() && NarrowDifference(x, y)) ==>
      var difference := old(x.Value() - y.Value());
      if difference == 0.0 then out == Undefined else out == Done && ret.Gives(difference)
  {
    hide Representable, Ratio, Gcd, Coprime, SumTop, DifferenceTop, BothBottoms, BitsSuffice, ReduceNarrow;
    if x.IsComplex() || y.IsComplex() || y.kind == Other {
      return Panicked;
    }
    var z := Negated(y, float);
    if y.Exact() && !y.IsMin() {
      NegatedTerms(x, y, z);
    }
    out := IntAdd(ret, x, z, float);
  }

  lemma ProductValue(x: Number, y: Number)
    requires x.Exact() && y.Exact()
    ensures BothBottoms(x, y) != 0
    ensures x.Value() * y.Value() == Ratio(BothSigns(x, y) * BothTops(x, y), BothBottoms(x, y))
    ensures BothTops(x, y) == 0 <==> x.Value() * y.Value() == 0.0
  {
    hide Ratio;
    var sign, t := BothSigns(x, y), BothTops(x, y);
    RatioProduct(x.Sign() * x.Top(), x.Bottom(), y.Sign() * y.Top(), y.Bottom());
    FourFactors(x.Sign(), x.Top(), y.Sign(), y.Top());
    RatioZero(sign * t, BothBottoms(x, y));
    OneSign(sign, t);
  }

  lemma FourFactors(a: int, b: int, c: int, d: int)
    ensures a * b * (c * d) == a * c * (b * d)
  {
  }

  lemma OneSign(sign: int, t: int)
    requires sign == 1 || sign == -1
    ensures sign * t == 0 <==> t == 0
  {
  }

  // _int_mul
  method IntMul(ret: Number, x: Number, y: Number, float: Bits) returns (out: Outcome)
    modifies ret
    ensures old(x.IsComplex() || y.IsComplex()) ==> out == Panicked
    ensures old(x.IsNumber() && y.IsNumber() && (x.kind == Real || y.kind == Real)) ==> out == Done && ret.kind == Real
    ensures old(x.kind == y.kind == ImmInt) ==>
      && out == Done
      && if IsInt32(old(x.Signed() * y.Signed())) then
           ret.kind == ImmInt && ret.Signed() == old(x.Signed() * y.Signed())
         else
           ret.kind == Real
    ensures old(x.Exact() && y.Exact() && !(x.kind == y.kind == ImmInt)) ==>
      var product := old(x.Value() * y.Value());
      if product == 0.0 then out == Undefined else out == Done && ret.Gives(product)
  {
    hide Representable, Ratio, Gcd, Coprime;
    if x.IsComplex() || y.IsComplex() {
      return Panicked;
    } else if x.kind == Real || y.kind == Real {
      out := ToFloat(ret, x, y, float);
    } else if x.IsRational() || y.IsRational() {
      if x.kind == Other || y.kind == Other {
        return Panicked;
      }
      out := MulRational(ret, x, y, float);
    } else if x.kind == ImmInt && y.kind == ImmInt {
      out := SetInt(ret, x, y, x.Signed() * y.Signed(), float);
    } else {
      out := Panicked;
    }
  }

  ghost function Product(x: Number, y: Number): real
    requires x.Exact() && y.Exact()
    reads x, y
  {
    x.Value() * y.Value()
  }

  lemma ProductRight(x: Number, y: Number)
    requires x.Exact() && y.Exact()
    ensures Product(x, y) == 0.0 ==> ReduceWide(BothBottoms(x, y), BothTops(x, y)) == Fault
    ensures Product(x, y) != 0.0 ==>
      Right(ReduceWide(BothBottoms(x, y), BothTops(x, y)), BothSigns(x, y), Product(x, y))
  {
    hide Ratio, BothBottoms, BothTops, BothSigns, Number.Value, Right, DividedBy, Gcd, Number.Exact;
    ProductValue(x, y);
    WideRight(BothSigns(x, y), BothTops(x, y), BothBottoms(x, y));
  }

  method MulRational(ret: Number, x: Number, y: Number, float: Bits) returns (out: Outcome)
    modifies ret
    ensures old(x.Exact() && y.Exact()) ==>
      if old(Product(x, y)) == 0.0 then out == Undefined else out == Done && ret.Gives(old(Product(x, y)))
  {
    hide Gcd, BothTops, BothSigns, BothBottoms, Product, Number.Gives, Number.Exact, DividedBy;
    if x.Exact() && y.Exact() {
      ProductRight(x, y);
    }
    var f := ReduceByGcd64(BothBottoms(x, y), BothTops(x, y));
    out := ret.Set(f, BothSigns(x, y), float);
  }

  // Division of both parts by their greatest common divisor.
  method ReduceByGcd64(denominator: nat, numerator: nat) returns (f: Fraction)
    ensures f == ReduceWide(denominator, numerator)
    ensures f.Terms? ==> f.n <= 0xFFFF && f.d <= 0xFFFF
  {
    var g := Gcd64(denominator, numerator);
    if g == None {
      return Fault;
    }
    f := Divide(g.value, numerator, denominator);
  }

  // The zero of either sign that the divisor would be in floating point.
  predicate IsFloatZero(y: Number)
    reads y
  {
    if y.kind == Real then y.bits == 0 || y.bits == 0x8000_0000 else y.Top() == 0 && y.Bottom() != 0
  }

  // The way out at _int_div_float_div_float.
  method DivFloat(ret: Number, x: Number, y: Number, float: Bits) returns (out: Outcome)
    requires x.IsNumber() && y.IsNumber()
    modifies ret
    ensures if old(IsFloatZero(y)) then out == Panicked else out == Done && ret.kind == Real
  {
    if IsFloatZero(y) {
      return Panicked;
    }
    ret.SetReal(float);
    out := Done;
  }

  // The cross products of a division and the size they need.
  function QuotientTop(x: Number, y: Number): nat
    reads x, y
  {
    x.Top() * y.Bottom()
  }

  function QuotientBottom(x: Number, y: Number): nat
    reads x, y
  {
    x.Bottom() * y.Top()
  }

  predicate NarrowQuotient(x: Number, y: Number)
    reads x, y
  {
    QuotientTop(x, y) < 0x8000_0000 && QuotientBottom(x, y) < 0x8000_0000
  }

  ghost function Quotient(x: Number, y: Number): real
    requires x.Exact() && y.Exact() && y.Value() != 0.0
    reads x, y
  {
    x.Value() / y.Value()
  }

  // The signs of a division count zero as positive.
  function QuotientSign(x: Number, y: Number): (s: int)
    reads x, y
    ensures s == 1 || s == -1
  {
    var a := if x.kind == ImmInt && x.Signed() == 0 then 1 else x.Sign();
    var b := if y.kind == ImmInt && y.Signed() == 0 then 1 else y.Sign();
    a * b
  }

  lemma RatioQuotient(a: int, b: int, c: int, d: int)
    requires b != 0 && c != 0 && d != 0
    ensures Ratio(c, d) != 0.0 && b * c != 0 && Ratio(a, b) / Ratio(c, d) == Ratio(a * d, b * c)
  {
  }

  lemma QuotientValue(x: Number, y: Number)
    requires x.Exact() && y.Exact()
    ensures y.Value() == 0.0 <==> QuotientBottom(x, y) == 0
    ensures y.Value() != 0.0 ==> Quotient(x, y) == Ratio(QuotientSign(x, y) * QuotientTop(x, y), QuotientBottom(x, y))
  {
    hide Ratio, ToInt32;
    RatioZero(y.Sign() * y.Top(), y.Bottom());
    if y.Top() != 0 {
      SignedQuotient(x.Sign(), x.Top(), x.Bottom(), y.Sign(), y.Top(), y.Bottom(), QuotientSign(x, y));
    }
  }

  lemma SignedQuotient(s: int, a: nat, b: nat, t: int, c: nat, d: nat, sign: int)
    requires (s == 1 || s == -1) && (t == 1 || t == -1) && b != 0 && c != 0 && d != 0
    requires a != 0 ==> sign == s * t
    ensures Ratio(t * c, d) != 0.0 && b * c != 0 && Ratio(s * a, b) / Ratio(t * c, d) == Ratio(sign * (a * d), b * c)
  {
    hide Ratio;
    RatioQuotient(s * a, b, t * c, d);
    RatioEqual(s * a * d, b * (t * c), sign * (a * d), b * c);
    if a != 0 {
      CrossSigns(s, t, a * d, b * c);
      Regroup(s, a, d);
      Regroup(b, t, c);
    }
  }

  lemma Regroup(a: int, b: int, c: int)
    ensures a * b * c == a * (b * c) == b * (a * c)
  {
  }

  lemma CrossSigns(s: int, t: int, p: int, q: int)
    requires t == 1 || t == -1
    ensures s * p * q == s * t * p * (t * q)
  {
  }

  // The reduction in _int_div.
  function ReduceQuotient(n: nat, d: nat): Fraction {
    if d == 0 then Fault else DividedBy(Gcd(n, d), n, d)
  }

  lemma QuotientRight(x: Number, y: Number)
    requires x.Exact() && y.Exact()
    ensures y.Value() == 0.0 <==> QuotientBottom(x, y) == 0
    ensures y.Value() == 0.0 ==> ReduceQuotient(QuotientTop(x, y), QuotientBottom(x, y)) == Fault
    ensures y.Value() != 0.0 ==>
      Right(ReduceQuotient(QuotientTop(x, y), QuotientBottom(x, y)), QuotientSign(x, y), Quotient(x, y))
  {
    hide Ratio, QuotientTop, QuotientBottom, QuotientSign, Quotient, Number.Value, Right, DividedBy, Gcd, Number.Exact;
    QuotientValue(x, y);
    if QuotientBottom(x, y) != 0 {
      DividedRight(QuotientSign(x, y), QuotientTop(x, y), QuotientBottom(x, y),
        Gcd(QuotientTop(x, y), QuotientBottom(x, y)));
    }
  }

  // The branch of _int_div for a rational operand.  A zero divisor divides by
  // zero in gcd64, before the test for it.
  method DivRational(ret: Number, x: Number, y: Number, float: Bits) returns (out: Outcome)
    requires x.IsNumber() && y.IsNumber()
    modifies ret
    ensures old(x.IsMin() || y.IsMin()) ==> if old(IsFloatZero(y)) then out == Panicked else out == Done && ret.kind == Real
    ensures !old(x.IsMin() || y.IsMin()) && !old(NarrowQuotient(x, y)) ==> out == Undefined
    ensures old(x.Exact() && y.Exact() && !x.IsMin() && !y.IsMin() && NarrowQuotient(x, y)) ==>
      if old(y.Value()) == 0.0 then out == Undefined else out == Done && ret.Gives(old(Quotient(x, y)))
  {
    hide Gcd, QuotientTop, QuotientBottom, QuotientSign, Quotient, ReduceQuotient, NarrowQuotient, Number.Gives, Number.Value;
    if x.IsMin() || y.IsMin() {
      out := DivFloat(ret, x, y, float);
      return;
    }
    if !NarrowQuotient(x, y) {
      return Undefined;
    }
    if x.Exact() && y.Exact() {
      QuotientRight(x, y);
    }
    var f := ReduceCross(QuotientTop(x, y), QuotientBottom(x, y));
    out := ret.Set(f, QuotientSign(x, y), float);
  }

  method ReduceCross(nn: nat, dd: nat) returns (f: Fraction)
    ensures f == ReduceQuotient(nn, dd)
    ensures f.Terms? ==> f.n <= 0xFFFF && f.d <= 0xFFFF
  {
    var g := Gcd64(nn, dd);
    if g == None {
      return Fault;
    }
    f := Divide(g.value, nn, dd);
  }

  // The branch for two integers.
  method DivIntegers(ret: Number, x: Number, y: Number, float: Bits) returns (out: Outcome)
    requires x.kind == y.kind == ImmInt
    modifies ret
    ensures old(y.Signed()) == 0 ==> out == Panicked
    ensures old(y.Signed()) != 0 && old(x.IsMin() || y.IsMin()) ==> out == Done && ret.kind == Real
    ensures old(y.Signed()) != 0 && !old(x.IsMin() || y.IsMin()) ==>
      out == Done && old(y.Value()) != 0.0 && ret.Gives(old(Quotient(x, y)))
  {
    hide Gcd, QuotientSign, Quotient, Number.Gives, Number.Value, DividedBy, ToInt32;
    if x.IsMin() || y.IsMin() {
      out := DivFloat(ret, x, y, float);
      return;
    }
    var n, d := Abs(x.Signed()), Abs(y.Signed());
    if d == 0 {
      return Panicked;
    }
    QuotientRight(x, y);
    assert QuotientTop(x, y) == n && QuotientBottom(x, y) == d;
    var g := Gcd32(n, d);
    var f := Divide(g.value, n, d);
    out := ret.Set(f, QuotientSign(x, y), float);
  }

  // _int_div
  method IntDiv(ret: Number, x: Number, y: Number, float: Bits) returns (out: Outcome)
    modifies ret
    ensures old(x.IsComplex() || y.IsComplex()) ==> out == Panicked
    ensures old(x.IsNumber() && y.IsNumber() && (x.kind == Real || y.kind == Real || x.IsMin() || y.IsMin())) ==>
      if old(IsFloatZero(y)) then out == Panicked else out == Done && ret.kind == Real
    ensures old(x.Exact() && y.Exact() && !x.IsMin() && !y.IsMin() && y.Value() == 0.0) ==>
      out == if old(x.kind == y.kind == ImmInt) then Panicked else Undefined
    ensures old(x.Exact() && y.Exact() && !x.IsMin() && !y.IsMin() && y.Value() != 0.0) ==>
      if old(NarrowQuotient(x, y)) then
        out == Done && ret.Gives(old(x.Value() / y.Value()))
      else
        out == Undefined
  {
    hide Gcd, Ratio, Number.Gives, ToInt32;
    if x.IsComplex() || y.IsComplex() {
      return Panicked;
    } else if x.kind == Other || y.kind == Other {
      return Panicked;
    } else if x.kind == Real || y.kind == Real {
      out := DivFloat(ret, x, y, float);
    } else if x.IsRational() || y.IsRational() {
      out := DivRational(ret, x, y, float);
    } else {
      QuotientValue(x, y);
      out := DivIntegers(ret, x, y, float);
    }
  }

  // cast_imm_int_to_rational
  method CastToRational(v: Number) returns (out: Outcome)
    modifies v
    ensures old(v.IsRational()) ==> out == Done && v.kind == old(v.kind) && v.bits == old(v.bits)
    ensures old(v.kind == ImmInt) ==> (out == Done <==> -0xFFFF <= old(v.Signed()) <= 0xFFFF)
    ensures old(v.Exact()) && out == Done ==>
      && v.IsRational() && v.Exact() && v.Value() == old(v.Value())
    ensures out == Done || (out == Panicked && v.kind == old(v.kind) && v.bits == old(v.bits))
  {
    if v.IsRational() {
      return Done;
    }
    if v.kind != ImmInt {
      return Panicked;
    }
    var n := v.Signed();
    if n > 0xFFFF || n < -0xFFFF {
      return Panicked;
    }
    v.kind := if n > 0 then RationalPos else RationalNeg;
    v.bits := ToBits(Abs(n) * 0x1_0000 + 1);
    assert v.Top() == Abs(n) && v.Bottom() == 1;
    out := Done;
  }

  lemma Compared(a: int, b: int, c: int, d: int)
    requires b > 0 && d > 0
    ensures Ratio(a, b) > Ratio(c, d) <==> a * d > c * b
  {
    var x, y, p, q := Ratio(a, b), Ratio(c, d), b as real, d as real;
    assert x * p == a as real && y * q == c as real;
    assert (a * d) as real == x * (p * q) && (c * b) as real == y * (p * q);
    Scaled(x, y, p * q);
  }

  lemma Scaled(x: real, y: real, p: real)
    requires p > 0.0
    ensures x * p > y * p <==> x > y
  {
  }

  // _int_gt.  Comparing turns an integer operand beside a rational one into a
  // rational in place; a large one is a panic.  floatGreater is the comparison
  // of the floating-point numbers, should it be asked for.
  method IntGt(x: Number, y: Number, floatGreater: bool, fx: Bits, fy: Bits) returns (out: Outcome, greater: bool)
    modifies x, y
    ensures out == Done || out == Panicked
    ensures old(!x.IsNumber() || !y.IsNumber()) ==> out == Panicked
    ensures old(x.IsNumber() && y.IsNumber() && (x.kind == Real || y.kind == Real)) ==>
      out == Done && greater == floatGreater && x.kind == y.kind == Real
    ensures old(x.Exact() && y.Exact()) ==>
      (out == Done <==> old(x.kind == y.kind == ImmInt || (x.Top() <= 0xFFFF && y.Top() <= 0xFFFF)))
    ensures old(x.Exact() && y.Exact()) && out == Done ==>
      && greater == (old(x.Value()) > old(y.Value()))
      && x.Exact() && y.Exact() && x.Value() == old(x.Value()) && y.Value() == old(y.Value())
  {
    hide Ratio, ToBits, ToInt32, Number.Value;
    greater := true;
    if !x.IsNumber() || !y.IsNumber() {
      return Panicked, greater;
    }
    if x.kind == Real || y.kind == Real {
      x.SetReal(if x.kind == Real then x.bits else fx);
      y.SetReal(if y.kind == Real then y.bits else fy);
      return Done, floatGreater;
    }
    if x.kind == y.kind == ImmInt {
      greater := x.Signed() > y.Signed();
      GreaterValue(x, y);
      return Done, greater;
    }
    out := CastToRational(x);
    if out != Done {
      return;
    }
    out := CastToRational(y);
    if out != Done {
      return;
    }
    GreaterValue(x, y);
    greater := x.Sign() * x.Top() * y.Bottom() > y.Sign() * y.Top() * x.Bottom();
  }

  lemma GreaterValue(x: Number, y: Number)
    ensures x.Exact() && y.Exact() ==>
      (x.Value() > y.Value() <==> x.Sign() * x.Top() * y.Bottom() > y.Sign() * y.Top() * x.Bottom())
  {
    hide Ratio, ToInt32;
    if x.Exact() && y.Exact() {
      Compared(x.Sign() * x.Top(), x.Bottom(), y.Sign() * y.Top(), y.Bottom());
    }
  }

  // x % y in C, truncated towards zero.
  function Remainder(x: int, y: int): int
    requires y != 0
  {
    if x >= 0 then x % y else -(-x % y)
  }

  // _int_modulo
  function Modulo(x: int, y: int): int
    requires y != 0
  {
    var m := Remainder(x, y);
    if y < 0 then (if m <= 0 then m else m + y) else (if m >= 0 then m else m + y)
  }

  // The modulus of R7RS: congruent to the dividend, with the sign of the divisor.
  lemma ModuloOfDivisor(x: int, y: int)
    requires y != 0
    ensures (x - Modulo(x, y)) % y == 0
    ensures if y < 0 then y < Modulo(x, y) <= 0 else 0 <= Modulo(x, y) < y
  {
    var a := Abs(x);
    var q, r := a / y, a % y;
    assert a == q * y + r;
    var k := if x >= 0 then q else -q;
    assert x - Remainder(x, y) == k * y by {
      if x < 0 {
        assert -q * y == -(q * y);
      }
    }
    var l := if Modulo(x, y) == Remainder(x, y) then k else k - 1;
    Regrouped(k, y);
    Multiple(l, y);
  }

  lemma Regrouped(k: int, y: int)
    ensures (k - 1) * y == k * y - y
  {
  }

  lemma Multiple(l: int, y: int)
    requires y != 0
    ensures (l * y) % y == 0
  {
    if y > 0 {
      DividesBy(y, l * y, l);
    } else {
      assert l * y == -l * -y;
      DividesBy(-y, l * y, -l);
      assert (l * y) % y == (l * y) % -y;
    }
  }
}
