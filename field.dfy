/**
 * The scalar field FF of the proof system: integers modulo a prime P, kept in
 * normal form 0 <= x < P.  The library never fixes which prime it works over
 * (in the prover it is the BN254 scalar field), so the model takes P to be an
 * arbitrary prime.  Inversion follows the field library's convention that the
 * inverse of zero is zero.
 */
module Field {

  /** d is a nonzero divisor of n. */
  predicate Divides(d: int, n: int)
  {
    d != 0 && n % d == 0
  }

  ghost predicate IsPrime(p: int)
  {
    p > 1 && forall d :: 1 < d < p ==> !Divides(d, p)
  }

  type Prime = p: int | IsPrime(p) witness 2

  /** The field modulus. */
  const P: Prime

  /** A field element in normal form. */
  type Fe = x: int | 0 <= x < P witness 0

  /** Addition of reduced operands: one conditional subtraction of P. */
  function Add(a: Fe, b: Fe): Fe { if a + b < P then a + b else a + b - P }

  /** Subtraction of reduced operands: one conditional addition of P. */
  function Sub(a: Fe, b: Fe): Fe { if a >= b then a - b else a - b + P }

  function Mul(a: Fe, b: Fe): Fe { (a * b) % P }

  /* ---------- integer facts about Euclidean division ---------- */

  lemma MulAtLeast(k: int, m: int)
    requires k >= 1 && m > 0
    ensures k * m >= m
  {
    assert k * m == (k - 1) * m + m;
  }

  /** Quotient and remainder are unique. */
  lemma DivModUnique(a: int, m: int, q: int, r: int)
    requires m > 0 && a == q * m + r && 0 <= r < m
    ensures a % m == r && a / m == q
  {
    var q0, r0 := a / m, a % m;
    assert (q - q0) * m == r0 - r;
    if q > q0 {
      MulAtLeast(q - q0, m);
    } else if q < q0 {
      MulAtLeast(q0 - q, m);
    }
  }

  lemma ModMulLeft(a: int, b: int, m: int)
    requires m > 0
    ensures (a % m) * b % m == a * b % m
  {
    var q, r := a / m, a % m;
    var q2, r2 := (r * b) / m, (r * b) % m;
    assert a * b == (q * b + q2) * m + r2 by {
      assert a == q * m + r;
      assert a * b == q * b * m + r * b;
      assert r * b == q2 * m + r2;
    }
    DivModUnique(a * b, m, q * b + q2, r2);
  }

  /* ---------- ring laws of Z_P ---------- */

  lemma MulOne(a: Fe)
    ensures Mul(a, 1) == a && Mul(1, a) == a
  {
    DivModUnique(a, P, 0, a);
  }

  lemma MulZero(a: Fe)
    ensures Mul(a, 0) == 0 && Mul(0, a) == 0
  {
  }

  lemma AddZero(a: Fe)
    ensures Add(a, 0) == a && Sub(a, 0) == a
  {
    DivModUnique(a, P, 0, a);
  }

  lemma MulComm(a: Fe, b: Fe)
    ensures Mul(a, b) == Mul(b, a)
  {
    assert a * b == b * a;
  }

  lemma MulAssoc(a: Fe, b: Fe, c: Fe)
    ensures Mul(Mul(a, b), c) == Mul(a, Mul(b, c))
  {
    ModMulLeft(a * b, c, P);
    ModMulLeft(b * c, a, P);
    assert (b * c % P) * a == a * (b * c % P);
    assert (a * b) * c == (b * c) * a;
  }

  /** Mul(a, Mul(b, c)) == Mul(b, Mul(a, c)): factors may be moved across. */
  lemma MulSwap(a: Fe, b: Fe, c: Fe)
    ensures Mul(a, Mul(b, c)) == Mul(b, Mul(a, c))
  {
    MulAssoc(a, b, c);
    MulAssoc(b, a, c);
    assert Mul(a, b) == Mul(b, a);
  }

  lemma AddAssoc(a: Fe, b: Fe, c: Fe)
    ensures Add(Add(a, b), c) == Add(a, Add(b, c))
  {
  }

  /** Subtracting twice is subtracting the sum. */
  lemma SubSub(a: Fe, b: Fe, c: Fe)
    ensures Sub(Sub(a, b), c) == Sub(a, Add(b, c))
  {
  }

  /** Add and Sub are addition and subtraction modulo P. */
  lemma AddSubAreModular(a: Fe, b: Fe)
    ensures Add(a, b) == (a + b) % P
    ensures Sub(a, b) == (a - b) % P
  {
    if a + b < P {
      DivModUnique(a + b, P, 0, a + b);
    } else {
      DivModUnique(a + b, P, 1, a + b - P);
    }
    if a >= b {
      DivModUnique(a - b, P, 0, a - b);
    } else {
      DivModUnique(a - b, P, -1, a - b + P);
    }
  }

  /** A difference vanishes exactly when the two elements are equal. */
  lemma SubZero(a: Fe, b: Fe)
    ensures Sub(a, b) == 0 <==> a == b
  {
  }

  /* ---------- inversion ---------- */

  /** Bezout data for a and b: g = s*a + t*b, a = ka*g, b = kb*g. */
  datatype Bezout = Bezout(g: nat, s: int, t: int, ka: int, kb: int)

  /** One step of the extended Euclidean algorithm: Bezout data for (b, a mod b) lifts to (a, b). */
  lemma ExtGcdStep(a: nat, b: nat, e: Bezout)
    requires b > 0
    requires e.s * b + e.t * (a % b) == e.g
    requires b == e.ka * e.g && a % b == e.kb * e.g
    ensures e.t * a + (e.s - (a / b) * e.t) * b == e.g
    ensures a == ((a / b) * e.ka + e.kb) * e.g
  {
    var q, r := a / b, a % b;
    assert a == q * b + r;
    assert q * b == q * e.ka * e.g;
    assert e.t * a == e.t * (q * b) + e.t * r;
    assert (e.s - q * e.t) * b == e.s * b - e.t * (q * b);
  }

  /** Extended Euclidean algorithm. */
  function ExtGcd(a: nat, b: nat): (r: Bezout)
    ensures r.s * a + r.t * b == r.g
    ensures a == r.ka * r.g && b == r.kb * r.g
    decreases b
  {
    if b == 0 then Bezout(a, 1, 0, 1, 0)
    else
      var e := ExtGcd(b, a % b);
      ExtGcdStep(a, b, e);
      Bezout(e.g, e.t, e.s - (a / b) * e.t, (a / b) * e.ka + e.kb, e.ka)
  }

  /** A nonzero element below a prime is coprime to it. */
  lemma CoprimeToModulus(x: int, e: Bezout)
    requires 0 < x < P
    requires x == e.ka * e.g && P == e.kb * e.g
    ensures e.g == 1
  {
    assert e.g != 0;
    assert e.ka >= 1;
    MulAtLeast(e.ka, e.g);
    assert e.g <= x;
    if e.g > 1 {
      DivModUnique(P, e.g, e.kb, 0);
      assert Divides(e.g, P);
    }
  }

  /** The field inverse; zero is mapped to zero. */
  function Inv(x: Fe): (r: Fe)
    ensures x != 0 ==> Mul(x, r) == 1
    ensures x == 0 ==> r == 0
  {
    if x == 0 then 0
    else
      var e := ExtGcd(x, P);
      CoprimeToModulus(x, e);
      assert x * e.s == (-e.t) * P + 1;
      DivModUnique(x * e.s, P, -e.t, 1);
      ModMulLeft(e.s, x, P);
      assert (e.s % P) * x == x * (e.s % P);
      e.s % P
  }

  /** If y times x is 1, then x is nonzero and y is exactly the inverse of x. */
  lemma InvUnique(x: Fe, y: Fe)
    requires Mul(y, x) == 1
    ensures x != 0 && y == Inv(x)
  {
    if x == 0 {
      MulZero(y);
    } else {
      calc {
        y;
        { MulOne(y); }
        Mul(y, Mul(x, Inv(x)));
        { MulAssoc(y, x, Inv(x)); }
        Mul(Mul(y, x), Inv(x));
        { MulOne(Inv(x)); }
        Inv(x);
      }
    }
  }

  /** Z_P has no zero divisors. */
  lemma {:induction false} NoZeroDivisors(a: Fe, b: Fe)
    ensures Mul(a, b) == 0 <==> a == 0 || b == 0
  {
    MulZero(a);
    MulZero(b);
    if a != 0 && Mul(a, b) == 0 {
      calc {
        b;
        { MulOne(b); }
        Mul(Mul(Inv(a), a), b);
        { MulAssoc(Inv(a), a, b); }
        Mul(Inv(a), Mul(a, b));
        { MulZero(Inv(a)); }
        0;
      }
    }
  }

  /** after is what batch inversion leaves for before: zero stays zero, otherwise after times before is 1. */
  predicate InvertedEntry(before: Fe, after: Fe)
  {
    if before == 0 then after == 0 else Mul(after, before) == 1
  }

  /**
   * FF::batch_invert: inverts a column in place.  The field library's
   * algorithm is not part of this model; only its contract is: every nonzero
   * entry is replaced by its inverse and every zero entry stays zero.
   */
  method BatchInvert(a: array<Fe>)
    modifies a
    ensures forall i :: 0 <= i < a.Length ==> InvertedEntry(old(a[i]), a[i])
    ensures forall i :: 0 <= i < a.Length ==> a[i] == Inv(old(a[i]))
  {
    for i := 0 to a.Length
      invariant forall j :: 0 <= j < i ==> a[j] == Inv(old(a[j]))
      invariant forall j :: i <= j < a.Length ==> a[j] == old(a[j])
    {
      a[i] := Inv(a[i]);
    }
    forall i | 0 <= i < a.Length
      ensures InvertedEntry(old(a[i]), a[i])
    {
      assert Mul(a[i], old(a[i])) == Mul(old(a[i]), a[i]);
    }
  }
}
