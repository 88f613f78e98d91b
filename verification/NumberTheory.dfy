/** Divisibility, primes, greatest common divisors and unique factorisation:
    the arithmetic on which the `factor` command rests. */
module NumberTheory {

  predicate Divides(d: nat, n: nat)
    requires d > 0
  {
    n % d == 0
  }

  predicate IsPrime(n: nat) {
    n >= 2 && forall d :: 2 <= d < n ==> !Divides(d, n)
  }

  predicate AllPrime(s: seq<nat>) {
    forall i :: 0 <= i < |s| ==> IsPrime(s[i])
  }

  predicate Sorted(s: seq<nat>) {
    forall i, j :: 0 <= i < j < |s| ==> s[i] <= s[j]
  }

  function Product(s: seq<nat>): nat {
    if s == [] then 1 else s[0] * Product(s[1..])
  }

  // ---------- Divisibility ----------

  /** Quotient and remainder are unique, stated without division. */
  lemma QuotientUnique(d: nat, q: nat, r: nat, q': nat, r': nat)
    requires r < d && r' < d && d * q + r == d * q' + r'
    ensures q == q' && r == r'
  {
    if q > q' {
      assert d * q == d * q' + d * (q - q');
      MultipleAtLeast(d, q - q');
    } else if q < q' {
      assert d * q' == d * q + d * (q' - q);
      MultipleAtLeast(d, q' - q);
    }
  }

  lemma MultipleAtLeast(d: nat, q: nat)
    requires q >= 1
    ensures d * q >= d
  {
    assert d * q == d * (q - 1) + d;
  }

  lemma ModUnique(d: nat, q: nat, r: nat)
    requires r < d
    ensures (d * q + r) % d == r && (d * q + r) / d == q
  {
    var n := d * q + r;
    QuotientUnique(d, q, r, n / d, n % d);
  }

  lemma Multiple(d: nat, q: nat)
    requires d > 0
    ensures Divides(d, d * q) && d * q / d == q
  {
    ModUnique(d, q, 0);
  }

  lemma DividesProduct(d: nat, a: nat, b: nat)
    requires d > 0 && (Divides(d, a) || Divides(d, b))
    ensures Divides(d, a * b)
  {
    if Divides(d, a) {
      assert a * b == d * (a / d * b);
      Multiple(d, a / d * b);
    } else {
      assert a * b == d * (b / d * a);
      Multiple(d, b / d * a);
    }
  }

  lemma DividesSum(d: nat, a: nat, b: nat)
    requires d > 0 && Divides(d, a)
    ensures Divides(d, a + b) <==> Divides(d, b)
  {
    assert (a + b) % d == b % d by {
      assert a + b == d * (a / d + b / d) + b % d;
      ModUnique(d, a / d + b / d, b % d);
    }
  }

  /** A divisor of the modulus cannot tell a number from its remainder. */
  lemma DividesMod(d: nat, n: nat, v: nat)
    requires d > 0 && n > 0 && (Divides(d, n) || d == n)
    ensures Divides(d, v % n) <==> Divides(d, v)
  {
    DividesProduct(d, n, v / n);
    assert v == n * (v / n) + v % n;
    DividesSum(d, n * (v / n), v % n);
  }

  lemma DividesTransitive(a: nat, b: nat, c: nat)
    requires a > 0 && b > 0 && Divides(a, b) && Divides(b, c)
    ensures Divides(a, c)
  {
    DividesProduct(a, b, c / b);
  }

  /** A divisor of a positive number is at most that number, and the quotient is positive. */
  lemma DivisorBound(d: nat, n: nat)
    requires d > 0 && n > 0 && Divides(d, n)
    ensures d <= n && n / d >= 1 && n == d * (n / d)
    ensures d > 1 ==> n / d < n
  {
    var q := n / d;
    assert n == d * q;
    assert q != 0;
    MultipleAtLeast(d, q);
    if d > 1 {
      assert d * q == (d - 1) * q + q;
      MultipleAtLeast(q, d - 1);
    }
  }

  /** Reducing one factor modulo m changes a product by a multiple of m. */
  lemma ReduceFactor(m: nat, a: nat, b: nat)
    requires m > 0
    ensures a * b == m * (a / m * b) + a % m * b
  {
    var q, r := a / m, a % m;
    assert a == m * q + r;
    assert (m * q + r) * b == m * q * b + r * b;
    assert m * q * b == m * (q * b);
  }

  /** Euclid's lemma, by descent on the factor that p does not divide. */
  lemma {:induction false} Euclid(p: nat, a: nat, b: nat)
    requires IsPrime(p) && Divides(p, a * b)
    ensures Divides(p, a) || Divides(p, b)
    decreases a
  {
    assert Divides(p, 0);
    hide Divides, IsPrime;
    if a == 1 {
      assert a * b == b;
    } else if a >= p {
      EuclidReduce(p, a, b);
      Euclid(p, a % p, b);
      DividesMod(p, p, a);
    } else if a > 0 {
      EuclidStep(p, a, b);
      Euclid(p, p % a, b);
      PrimeRemainder(p, a);
    }
  }

  lemma PrimeRemainder(p: nat, a: nat)
    requires IsPrime(p) && 2 <= a < p
    ensures !Divides(p, p % a)
  {
    assert !Divides(a, p);
    var r := p % a;
    assert 0 < r < p;
  }

  lemma EuclidReduce(p: nat, a: nat, b: nat)
    requires p > 0 && Divides(p, a * b)
    ensures Divides(p, a % p * b)
  {
    ReduceFactor(p, a, b);
    Multiple(p, a / p * b);
    DividesSum(p, p * (a / p * b), a % p * b);
  }

  lemma EuclidStep(p: nat, a: nat, b: nat)
    requires p > 0 && a > 0 && Divides(p, a * b)
    ensures Divides(p, p % a * b)
  {
    ReduceFactor(a, p, b);
    var q := p / a;
    assert a * (q * b) == q * (a * b);
    DividesProduct(p, q, a * b);
    Multiple(p, b);
    DividesSum(p, a * (q * b), p % a * b);
  }

  // ---------- Greatest common divisor ----------

  function Gcd(a: nat, b: nat): nat
    decreases b
  {
    if b == 0 then a else Gcd(b, a % b)
  }

  lemma {:induction false} GcdDivides(a: nat, b: nat)
    requires b > 0
    ensures Gcd(a, b) > 0 && Divides(Gcd(a, b), a) && Divides(Gcd(a, b), b)
    decreases b
  {
    if a % b == 0 {
      assert Gcd(a, b) == b;
    } else {
      GcdDivides(b, a % b);
      DividesMod(Gcd(a, b), b, a);
    }
  }

  lemma {:induction false} GcdGreatest(d: nat, a: nat, b: nat)
    requires d > 0 && b > 0 && Divides(d, a) && Divides(d, b)
    ensures Gcd(a, b) > 0 && Divides(d, Gcd(a, b))
    decreases b
  {
    if a % b == 0 {
      assert Gcd(a, b) == b;
    } else {
      DividesMod(d, b, a);
      GcdGreatest(d, b, a % b);
    }
  }

  /** What the gcd with a prime can be. */
  lemma GcdWithPrime(n: nat, p: nat)
    requires IsPrime(p)
    ensures Gcd(n, p) == if Divides(p, n) then p else 1
  {
    var g := Gcd(n, p);
    GcdDivides(n, p);
    DivisorBound(g, p);
    if Divides(p, n) {
      GcdGreatest(p, n, p);
      DivisorBound(p, g);
    }
  }

  // ---------- Least prime factor and the reference factorisation ----------

  function LeastFactorFrom(n: nat, d: nat): (l: nat)
    requires 2 <= d <= n
    requires forall e :: 2 <= e < d ==> !Divides(e, n)
    ensures d <= l <= n && Divides(l, n)
    ensures forall e :: 2 <= e < l ==> !Divides(e, n)
    decreases n - d
  {
    SelfDivides(n);
    hide Divides;
    if Divides(d, n) then d else LeastFactorFrom(n, d + 1)
  }

  lemma SelfDivides(n: nat)
    requires n > 0
    ensures Divides(n, n)
  {
    Multiple(n, 1);
  }

  function LeastFactor(n: nat): nat
    requires n >= 2
  {
    LeastFactorFrom(n, 2)
  }

  lemma LeastFactorIsPrime(n: nat)
    requires n >= 2
    ensures IsPrime(LeastFactor(n))
  {
    var l := LeastFactor(n);
    forall d | 2 <= d < l
      ensures !Divides(d, l)
    {
      if Divides(d, l) {
        DividesTransitive(d, l, n);
      }
    }
  }

  /** A composite number has a prime factor whose square does not exceed it. */
  lemma LeastFactorSquare(n: nat)
    requires n >= 2 && !IsPrime(n)
    ensures LeastFactor(n) * LeastFactor(n) <= n
  {
    var l := LeastFactor(n);
    DivisorBound(l, n);
    var q := n / l;
    if q < l {
      Multiple(q, l);
    } else {
      assert l * l <= l * q;
    }
  }

  /** The prime factors of n in nondecreasing order, by always splitting off the least one. */
  function PrimeFactors(n: nat): (s: seq<nat>)
    requires n >= 1
    decreases n
  {
    if n == 1 then []
    else
      var l := LeastFactor(n);
      DivisorBound(l, n);
      [l] + PrimeFactors(n / l)
  }

  lemma {:induction false} PrimeFactorsCorrect(n: nat)
    requires n >= 1
    ensures AllPrime(PrimeFactors(n)) && Sorted(PrimeFactors(n)) && Product(PrimeFactors(n)) == n
    decreases n
  {
    if n != 1 {
      var l := LeastFactor(n);
      LeastFactorIsPrime(n);
      DivisorBound(l, n);
      var rest := PrimeFactors(n / l);
      PrimeFactorsCorrect(n / l);
      assert PrimeFactors(n)[1..] == rest;
      if rest != [] {
        LeastComesFirst(n);
        assert rest[0] == LeastFactor(n / l);
      }
    }
  }

  /** Splitting off the least factor leaves nothing smaller to split off. */
  lemma LeastComesFirst(n: nat)
    requires n >= 2 && n / LeastFactor(n) >= 2
    ensures LeastFactor(n) <= LeastFactor(n / LeastFactor(n))
  {
    hide Divides;
    var l := LeastFactor(n);
    var q := n / l;
    DivisorBound(l, n);
    Multiple(q, l);
    var m := LeastFactor(q);
    DividesTransitive(m, q, n);
    assert m >= l;
  }

  // ---------- Unique factorisation ----------

  /** A prime dividing a product of primes is one of them. */
  lemma {:induction false} PrimeInProduct(p: nat, s: seq<nat>) returns (i: nat)
    requires IsPrime(p) && AllPrime(s) && Divides(p, Product(s))
    ensures i < |s| && s[i] == p
  {
    if s == [] {
      assert false;
    } else {
      Euclid(p, s[0], Product(s[1..]));
      if Divides(p, s[0]) {
        DivisorBound(p, s[0]);
        i := 0;
      } else {
        i := PrimeInProduct(p, s[1..]);
        i := i + 1;
      }
    }
  }

  /** Any nondecreasing list of primes is the reference factorisation of its product. */
  lemma {:induction false} UniqueFactorisation(s: seq<nat>)
    requires AllPrime(s) && Sorted(s)
    ensures Product(s) >= 1 && s == PrimeFactors(Product(s))
  {
    if s != [] {
      UniqueFactorisation(s[1..]);
      var n, p, q := Product(s), s[0], Product(s[1..]);
  
      Multiple(p, q);
      var l := LeastFactor(n);
      assert l <= p;
      LeastFactorIsPrime(n);
      var i := PrimeInProduct(l, s);
      assert s[0] <= s[i];
      assert l == p && n / l == q;
    }
  }

  lemma {:induction false} ProductAppend(s: seq<nat>, t: seq<nat>)
    ensures Product(s + t) == Product(s) * Product(t)
  {
    if s == [] {
      assert s + t == t;
    } else {
      assert (s + t)[1..] == s[1..] + t;
      ProductAppend(s[1..], t);
    }
  }
}
