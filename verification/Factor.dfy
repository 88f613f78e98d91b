/** The `factor` command: trial division by a table of small odd primes, then Pollard's rho,
    recursively, and a final sort. */
module Factor {
  import opened NumberTheory
  import opened PollardRho

  /** A run that is still retrying rho when its random draws are used up has not finished. */
  datatype Run<+T> = Finished(value: T) | OutOfDraws

  /** The table of small primes: odd primes in increasing order. */
  predicate PrimeTable(primes: seq<nat>) {
    && (forall i :: 0 <= i < |primes| ==> primes[i] > 2 && IsPrime(primes[i]))
    && (forall i, j :: 0 <= i < j < |primes| ==> primes[i] < primes[j])
  }

  // ---------- Trial division ----------

  function OddPart(n: nat): (m: nat)
    requires n >= 1
    ensures m >= 1 && m % 2 == 1
  {
    if n % 2 == 0 then OddPart(n / 2) else n
  }

  function TwosOf(n: nat): seq<nat>
    requires n >= 1
  {
    if n % 2 == 0 then [2] + TwosOf(n / 2) else []
  }

  /** The primes of the table that divide n, one copy of each. */
  function TableDivisors(n: nat, primes: seq<nat>): seq<nat> {
    if primes == [] then []
    else (if primes[0] > 0 && Divides(primes[0], n) then [primes[0]] else []) + TableDivisors(n, primes[1..])
  }

  lemma {:induction false} TableDivisorsAppend(n: nat, s: seq<nat>, t: seq<nat>)
    ensures TableDivisors(n, s + t) == TableDivisors(n, s) + TableDivisors(n, t)
  {
    if s == [] {
      assert s + t == t;
    } else {
      assert (s + t)[1..] == s[1..] + t;
      TableDivisorsAppend(n, s[1..], t);
    }
  }

  lemma {:induction false} NoTableDivisors(n: nat, primes: seq<nat>)
    requires forall i :: 0 <= i < |primes| && primes[i] > 0 ==> !Divides(primes[i], n)
    ensures TableDivisors(n, primes) == []
  {
    if primes != [] {
      NoTableDivisors(n, primes[1..]);
    }
  }

  lemma {:induction false} TableDivisorsPrime(n: nat, primes: seq<nat>)
    requires AllPrime(primes)
    ensures AllPrime(TableDivisors(n, primes))
  {
    if primes != [] {
      TableDivisorsPrime(n, primes[1..]);
    }
  }

  /** Dividing out one prime does not change which other primes divide. */
  lemma OtherPrimes(n: nat, p: nat, q: nat)
    requires n >= 1 && IsPrime(p) && IsPrime(q) && p != q && Divides(p, n)
    ensures Divides(q, n / p) <==> Divides(q, n)
  {
    DivisorBound(p, n);
    if Divides(q, n) {
      Euclid(q, p, n / p);
      if Divides(q, p) {
        DivisorBound(q, p);
      }
    } else if Divides(q, n / p) {
      DividesProduct(q, p, n / p);
    }
  }

  lemma TableDivisorsStep(m: nat, primes: seq<nat>, j: nat)
    requires j < |primes| && primes[j] > 0
    ensures TableDivisors(m, primes[..j + 1])
         == TableDivisors(m, primes[..j]) + if Divides(primes[j], m) then [primes[j]] else []
  {
    assert primes[..j + 1] == primes[..j] + [primes[j]];
    TableDivisorsAppend(m, primes[..j], [primes[j]]);
    assert TableDivisors(m, [primes[j]]) == if Divides(primes[j], m) then [primes[j]] else [];
  }

  lemma ProductEmpty()
    ensures Product([]) == 1
    ensures forall m :: TableDivisors(m, []) == []
  {
  }

  lemma PushTwo(n: nat, factors: seq<nat>, total: nat)
    requires n >= 1 && n % 2 == 0 && Product(factors) * n == total
    ensures Product(factors + [2]) * (n / 2) == total && IsPrime(2)
  {
    ProductAppend(factors, [2]);
    var f, q := Product(factors), n / 2;
    assert Product([2]) == 2;
    assert f * (2 * q) == f * 2 * q;
  }

  lemma DivideOut(n: nat, p: nat, factors: seq<nat>, total: nat)
    requires n >= 1 && n % 2 == 1 && IsPrime(p) && Divides(p, n) && Product(factors) * n == total
    ensures n / p >= 1 && n / p % 2 == 1
    ensures Product(factors + [p]) * (n / p) == total
  {
    DivisorBound(p, n);
    ProductAppend(factors, [p]);
    var f, q := Product(factors), n / p;
    assert Product([p]) == p;
    assert f * (p * q) == f * p * q;
    if q % 2 == 0 {
      DividesProduct(2, p, q);
    }
  }

  /** From number j on, the primes that divide n are those that divide m. */
  predicate SameDivisors(n: nat, m: nat, primes: seq<nat>, j: nat)
    requires PrimeTable(primes)
  {
    forall i :: j <= i < |primes| ==> (Divides(primes[i], n) <==> Divides(primes[i], m))
  }

  lemma AllTheSame(n: nat, primes: seq<nat>)
    requires PrimeTable(primes)
    ensures SameDivisors(n, n, primes, 0)
  {
  }

  /** Whether the j-th prime is divided out or not, the later ones divide as before. */
  lemma LaterPrimes(n: nat, m: nat, primes: seq<nat>, j: nat)
    requires PrimeTable(primes) && j < |primes| && n >= 1 && SameDivisors(n, m, primes, j)
    ensures Divides(primes[j], n) <==> Divides(primes[j], m)
    ensures SameDivisors(if Divides(primes[j], n) then n / primes[j] else n, m, primes, j + 1)
  {
    hide IsPrime, Divides;
    if Divides(primes[j], n) {
      forall i | j < i < |primes|
        ensures Divides(primes[i], n / primes[j]) <==> Divides(primes[i], m)
      {
        OtherPrimes(n, primes[j], primes[i]);
      }
    }
  }

  /** Stopping the scan once the remaining number is below the next prime misses nothing. */
  lemma NoneBeyond(n: nat, m: nat, primes: seq<nat>, j: nat)
    requires PrimeTable(primes) && j <= |primes| && n >= 1 && (j < |primes| ==> n < primes[j])
    requires SameDivisors(n, m, primes, j)
    ensures TableDivisors(m, primes) == TableDivisors(m, primes[..j])
  {
    forall i | 0 <= i < |primes| - j
      ensures !Divides(primes[j..][i], m)
    {
      assert primes[j] <= primes[j + i];
      ModUnique(primes[j + i], 0, n);
    }
    hide Divides, PrimeTable;
    NoTableDivisors(m, primes[j..]);
    assert primes == primes[..j] + primes[j..];
    TableDivisorsAppend(m, primes[..j], primes[j..]);
  }

  /** The inner loop that pushes the prime once for each copy in the gcd; the gcd with a prime
      holds at most one. */
  method PushCopies(g: nat, prime: nat, factors: seq<nat>) returns (fs: seq<nat>)
    requires g == prime > 1
    ensures fs == factors + [prime]
  {
    var x := g;
    fs := factors;
    Multiple(prime, 1);
    while x != 1
      invariant (x == g && fs == factors) || (x == 1 && fs == factors + [prime])
    {
      x := x / prime;
      fs := fs + [prime];
    }
  }

  /** `remove_small_factors`: strips every 2, then for each prime of the table that divides
      what is left exactly one copy of it. */
  method RemoveSmallFactors(n_in: nat, primes: seq<nat>) returns (n: nat, factors: seq<nat>)
    requires n_in >= 1 && PrimeTable(primes)
    ensures factors == TwosOf(n_in) + TableDivisors(OddPart(n_in), primes)
    ensures Product(factors) * n == n_in
    ensures n >= 1 && n % 2 == 1 && AllPrime(factors)
    ensures n == Rest(n_in, primes)
  {
    hide IsPrime, Divides, Gcd, Product, TableDivisors, Rest, SameDivisors;
    n, factors := n_in, [];
    ProductEmpty();
    while n % 2 == 0
      invariant n >= 1 && OddPart(n) == OddPart(n_in)
      invariant factors + TwosOf(n) == TwosOf(n_in)
      invariant Product(factors) * n == n_in && AllPrime(factors)
      decreases n
    {
      PushTwo(n, factors, n_in);
      factors := factors + [2];
      n := n / 2;
    }
    ghost var twos, m := factors, n;
    AllTheSame(n, primes);
    var j := 0;
    while j != |primes|
      invariant 0 <= j <= |primes|
      invariant n >= 1 && n % 2 == 1
      invariant factors == twos + TableDivisors(m, primes[..j])
      invariant Product(factors) * n == n_in && AllPrime(factors)
      invariant SameDivisors(n, m, primes, j)
    {
      var prime := primes[j];
      if n < prime {
        break;
      }
      var x := Gcd(n, prime);
      GcdWithPrime(n, prime);
      TableDivisorsStep(m, primes, j);
      LaterPrimes(n, m, primes, j);
      if x != 1 {
        DivideOut(n, prime, factors, n_in);
        n := n / x;
        factors := PushCopies(x, prime, factors);
      }
      j := j + 1;
    }
    NoneBeyond(n, m, primes, j);
    RestIs(n_in, primes, n, factors);
  }

  // ---------- What trial division leaves ----------

  lemma PrimeTableTail(primes: seq<nat>)
    requires PrimeTable(primes) && primes != []
    ensures PrimeTable(primes[1..]) && AllPrime(primes) && primes[0] !in primes[1..]
  {
  }

  lemma {:induction false} TableDivisorsIn(n: nat, primes: seq<nat>, p: nat)
    requires p in TableDivisors(n, primes)
    ensures p in primes && p > 0 && Divides(p, n)
  {
    if p !in TableDivisors(n, primes[1..]) {
      assert p == primes[0];
    } else {
      TableDivisorsIn(n, primes[1..], p);
    }
  }

  /** A prime that the list does not hold does not divide its product. */
  lemma NotInProduct(p: nat, s: seq<nat>)
    requires IsPrime(p) && AllPrime(s) && p !in s
    ensures !Divides(p, Product(s))
  {
    if Divides(p, Product(s)) {
      var i := PrimeInProduct(p, s);
      assert false;
    }
  }

  lemma TableDivisorsHead(n: nat, primes: seq<nat>)
    requires PrimeTable(primes) && primes != []
    ensures Product(TableDivisors(n, primes))
         == (if Divides(primes[0], n) then primes[0] else 1) * Product(TableDivisors(n, primes[1..]))
    ensures !Divides(primes[0], Product(TableDivisors(n, primes[1..])))
  {
    var rest := TableDivisors(n, primes[1..]);
    PrimeTableTail(primes);
    TableDivisorsPrime(n, primes[1..]);
    if primes[0] in rest {
      TableDivisorsIn(n, primes[1..], primes[0]);
    }
    hide IsPrime, Divides;
    NotInProduct(primes[0], rest);
    if Divides(primes[0], n) {
      assert ([primes[0]] + rest)[1..] == rest;
    } else {
      assert [] + rest == rest;
    }
  }

  /** Pairwise different primes that divide m one by one divide it together. */
  lemma {:induction false} TableProductDivides(m: nat, primes: seq<nat>)
    requires m >= 1 && PrimeTable(primes)
    ensures Product(TableDivisors(m, primes)) >= 1 && Divides(Product(TableDivisors(m, primes)), m)
  {
    hide IsPrime, Divides;
    if primes == [] {
      Multiple(1, m);
    } else {
      PrimeTableTail(primes);
      TableProductDivides(m, primes[1..]);
      TableDivisorsHead(m, primes);
      var q, f := primes[0], Product(TableDivisors(m, primes[1..]));
      if Divides(q, m) {
        BothDivide(q, f, m);
      } else {
        assert 1 * f == f;
      }
    }
  }

  lemma BothDivide(q: nat, f: nat, m: nat)
    requires IsPrime(q) && f >= 1 && m >= 1 && Divides(q, m) && Divides(f, m) && !Divides(q, f)
    ensures q * f >= 1 && Divides(q * f, m)
  {
    DivisorBound(f, m);
    var k := m / f;
    hide IsPrime;
    Euclid(q, f, k);
    DivisorBound(q, k);
    var l := k / q;
    hide Divides;
    assert m == f * (q * l) == (q * f) * l;
    MultipleAtLeast(q, f);
    Multiple(q * f, l);
  }

  /** The product of the table primes that divide m holds p once or not at all. */
  lemma {:induction false} OnceInProduct(m: nat, primes: seq<nat>, p: nat) returns (others: nat)
    requires PrimeTable(primes) && IsPrime(p)
    ensures Product(TableDivisors(m, primes)) == (if p in primes && Divides(p, m) then p else 1) * others
    ensures !Divides(p, others)
  {
    hide IsPrime, Divides;
    if primes == [] {
      others := 1;
      NotInProduct(p, []);
    } else {
      PrimeTableTail(primes);
      TableDivisorsHead(m, primes);
      var q, rest := primes[0], Product(TableDivisors(m, primes[1..]));
      var before := OnceInProduct(m, primes[1..], p);
      if p == q {
        others := rest;
      } else {
        var f := if Divides(q, m) then q else 1;
        others := f * before;
        OtherFactor(p, q, before);
        SwapFactors(f, if p in primes && Divides(p, m) then p else 1, before);
        assert 1 * before == before;
      }
    }
  }

  lemma OtherFactor(p: nat, q: nat, v: nat)
    requires IsPrime(p) && IsPrime(q) && p != q && !Divides(p, v)
    ensures !Divides(p, q * v)
  {
    PrimeDividesPrime(p, q);
    NonzeroProduct(p, q, v);
  }

  /** What is left of n after `remove_small_factors`. */
  function Rest(n: nat, primes: seq<nat>): (r: nat)
    requires n >= 1 && PrimeTable(primes)
    ensures 1 <= r <= n && r % 2 == 1
    ensures OddPart(n) == Product(TableDivisors(OddPart(n), primes)) * r
  {
    var m := OddPart(n);
    var f := Product(TableDivisors(m, primes));
    TableProductDivides(m, primes);
    TwosProduct(n);
    RestBounds(Product(TwosOf(n)), f, m, n);
    m / f
  }

  lemma RestBounds(t: nat, f: nat, m: nat, n: nat)
    requires t >= 1 && f >= 1 && m >= 1 && m % 2 == 1 && t * m == n && Divides(f, m)
    ensures m == f * (m / f) && 1 <= m / f <= n && m / f % 2 == 1
  {
    DivisorBound(f, m);
    var r := m / f;
    assert m == f * r;
    assert r >= 1;
    MultipleAtLeast(r, f);
    MultipleAtLeast(m, t);
    assert r * f == f * r && m * t == t * m;
    if r % 2 == 0 {
      DividesProduct(2, f, r);
    }
  }

  lemma {:induction false} TwosProduct(n: nat)
    requires n >= 1
    ensures Product(TwosOf(n)) >= 1 && Product(TwosOf(n)) * OddPart(n) == n
  {
    if n % 2 == 0 {
      TwosProduct(n / 2);
      assert TwosOf(n)[1..] == TwosOf(n / 2);
      var f, m := Product(TwosOf(n / 2)), OddPart(n);
      assert 2 * f * m == 2 * (f * m);
    }
  }

  /** The remainder the loop arrives at is this one. */
  lemma RestIs(n: nat, primes: seq<nat>, r: nat, factors: seq<nat>)
    requires n >= 1 && PrimeTable(primes) && r >= 1
    requires factors == TwosOf(n) + TableDivisors(OddPart(n), primes) && Product(factors) * r == n
    ensures Rest(n, primes) == r
  {
    hide Product, TableDivisors, TwosOf, IsPrime, Rest;
    var t, w := TableDivisors(OddPart(n), primes), TwosOf(n);
    ProductAppend(w, t);
    TwosProduct(n);
    TableProductDivides(OddPart(n), primes);
    SameRest(Product(w), Product(t), r, Rest(n, primes), OddPart(n), n);
  }

  lemma SameRest(a: nat, b: nat, r: nat, r': nat, m: nat, n: nat)
    requires a >= 1 && b >= 1 && a * b * r == n && a * m == n && m == b * r'
    ensures r' == r
  {
    assert a * b * r == a * (b * r);
    CancelFactor(a, b * r, m);
    CancelFactor(b, r, r');
  }

  lemma CancelFactor(a: nat, b: nat, c: nat)
    requires a >= 1 && a * b == a * c
    ensures b == c
  {
    QuotientUnique(a, b, 0, c, 0);
  }

  /** A prime of the table is left over exactly when its square divides the number. */
  lemma LeftOver(n: nat, primes: seq<nat>, p: nat)
    requires n >= 1 && PrimeTable(primes) && p in primes
    ensures p > 0 && (Divides(p, Rest(n, primes)) <==> Divides(p * p, n))
  {
    var m, r := OddPart(n), Rest(n, primes);
    var i :| 0 <= i < |primes| && primes[i] == p;
    assert p > 2 && IsPrime(p);
    hide PrimeTable, IsPrime, Divides, Rest;
    var others := OnceInProduct(m, primes, p);
    SquareOfOdd(n, p);
    if Divides(p, m) {
      Regroup(p, others, r);
      SquareDivides(p, others * r);
      FactorOfProduct(p, others, r);
    } else {
      NotLeft(p, m, r, Product(TableDivisors(m, primes)));
    }
  }

  lemma Regroup(a: nat, b: nat, c: nat)
    ensures a * b * c == a * (b * c)
  {
  }

  lemma NotLeft(p: nat, m: nat, r: nat, f: nat)
    requires p > 0 && m == f * r && !Divides(p, m)
    ensures !Divides(p, r) && !Divides(p * p, m)
  {
    if Divides(p, r) {
      DividesProduct(p, f, r);
    }
    if Divides(p * p, m) {
      Multiple(p, p);
      DividesTransitive(p, p * p, m);
    }
  }

  lemma FactorOfProduct(p: nat, a: nat, b: nat)
    requires IsPrime(p) && !Divides(p, a)
    ensures Divides(p, a * b) <==> Divides(p, b)
  {
    if Divides(p, a * b) {
      Euclid(p, a, b);
    } else if Divides(p, b) {
      DividesProduct(p, a, b);
    }
  }

  lemma SquareDivides(p: nat, v: nat)
    requires p > 0
    ensures Divides(p * p, p * v) <==> Divides(p, v)
  {
    MultipleAtLeast(p, p);
    if Divides(p * p, p * v) {
      var k := p * v / (p * p);
      assert p * v == p * p * k;
      assert p * p * k == p * (p * k);
      CancelFactor(p, v, p * k);
      Multiple(p, k);
    } else if Divides(p, v) {
      var k := v / p;
      assert p * v == p * (p * k);
      assert p * (p * k) == p * p * k;
      Multiple(p * p, k);
    }
  }

  lemma {:induction false} SquareOfOdd(n: nat, p: nat)
    requires n >= 1 && IsPrime(p) && p > 2
    ensures Divides(p * p, n) <==> Divides(p * p, OddPart(n))
  {
    if n % 2 == 0 {
      SquareOfOdd(n / 2, p);
      SquareOfHalf(n / 2, p);
    }
  }

  lemma SquareOfHalf(v: nat, p: nat)
    requires v >= 1 && IsPrime(p) && p > 2
    ensures Divides(p * p, 2 * v) <==> Divides(p * p, v)
  {
    MultipleAtLeast(p, p);
    TwoIsPrime();
    hide IsPrime;
    Multiple(p, p);
    if Divides(p * p, v) {
      DividesProduct(p * p, 2, v);
    }
    if Divides(p * p, 2 * v) {
      PrimeDividesPrime(p, 2);
      DividesTransitive(p, p * p, 2 * v);
      FactorOfProduct(p, 2, v);
      var k := v / p;
      assert 2 * v == p * (2 * k) by {
        assert v == p * k;
        assert 2 * (p * k) == p * (2 * k);
      }
      SquareDivides(p, 2 * k);
      FactorOfProduct(p, 2, k);
      SquareDivides(p, k);
    }
  }

  lemma TwoIsPrime()
    ensures IsPrime(2)
  {
  }

  /** So every table prime is removed for good exactly when no square of one divides n. */
  lemma AllRemoved(n: nat, primes: seq<nat>)
    requires n >= 1 && PrimeTable(primes)
    ensures (forall p :: p in primes ==> !Divides(p, Rest(n, primes)))
       <==> (forall p :: p in primes ==> !Divides(p * p, n))
  {
    hide Rest, Divides;
    forall p | p in primes
      ensures p > 0 && (Divides(p, Rest(n, primes)) <==> Divides(p * p, n))
    {
      LeftOver(n, primes, p);
    }
  }

  /** 27 leaves 9. */
  lemma RestOf27(primes: seq<nat>)
    requires PrimeTable(primes) && 3 in primes
    ensures Rest(27, primes) == 9
  {
    ThreeIsPrime();
    assert 27 == 3 * 3 * 3;
    forall i | 0 <= i < |primes|
      ensures Divides(primes[i], 27) <==> primes[i] == 3
    {
      PrimeDivisorOfCube(primes[i], 3);
    }
    OnlyDivisor(27, primes, 3);
    assert Product([3]) == 3;
  }

  lemma ThreeIsPrime()
    ensures IsPrime(3)
  {
  }

  // ---------- The recursive driver ----------

  /** What rho answers on n from the start x0, with the program's limit. */
  function Answer(n: nat, x0: nat): (d: nat)
    requires x0 < n
    ensures d != 0 ==> 1 < d < n && Divides(d, n)
    ensures d != 0 && n % 2 == 1 ==> d % 2 == 1 && 1 <= n / d < n && n / d % 2 == 1
  {
    var d := RhoAnswer(n, x0, LIMIT);
    AnswerDivides(n, x0, LIMIT);
    if d != 0 && n % 2 == 1 then
      OddParts(n, d);
      d
    else d
  }

  lemma AnswerDivides(n: nat, x0: nat, limit: nat)
    requires x0 < n && limit >= 2
    ensures var d := RhoAnswer(n, x0, limit); d != 0 ==> 1 < d < n && Divides(d, n)
  {
    var h := FirstHit(n, x0, limit, 2);
    LeavesOnce(n, x0, limit, h);
    RhoValueDivides(n, x0, limit, h);
  }

  lemma OddParts(n: nat, d: nat)
    requires n % 2 == 1 && 1 < d < n && Divides(d, n)
    ensures d % 2 == 1 && 1 <= n / d < n && n / d % 2 == 1
  {
    DivisorBound(d, n);
    var q := n / d;
    assert n == d * q;
    if d % 2 == 0 || q % 2 == 0 {
      DividesProduct(2, d, q);
    }
  }

  function Prepend(factors: seq<nat>, run: Run<seq<nat>>): Run<seq<nat>> {
    match run
    case Finished(more) => Finished(factors + more)
    case OutOfDraws => OutOfDraws
  }

  /** `factorize` as a function of the random draws: its outcome, and the draws it leaves. */
  function FactorizeRun(n: nat, primes: seq<nat>, draws: seq<nat>): (Run<seq<nat>>, seq<nat>)
    requires n >= 1 && PrimeTable(primes)
    decreases n, 2, 0
  {
    var (run, left) := Drive(Rest(n, primes), primes, draws);
    (Prepend(TwosOf(n) + TableDivisors(OddPart(n), primes), run), left)
  }

  /** The driver's loop on the remainder n. */
  function Drive(n: nat, primes: seq<nat>, draws: seq<nat>): (Run<seq<nat>>, seq<nat>)
    requires n % 2 == 1 && PrimeTable(primes)
    decreases n, 1, |draws|
  {
    if n == 1 then (Finished([]), draws)
    else if IsPrime(n) then (Finished([n]), draws)
    else if draws == [] then (OutOfDraws, [])
    else
      OddComposite(n);
      var d := Answer(n, StartFor(n, draws[0]));
      if d == 0 then Drive(n, primes, draws[1..]) else Split(n, d, primes, draws[1..])
  }

  /** A uniform choice from [2, n - 3). */
  function StartFor(n: nat, draw: nat): (x0: nat)
    requires n > 5
    ensures 2 <= x0 < n - 3
  {
    2 + draw % (n - 5)
  }

  /** The driver once rho has answered d. */
  function Split(n: nat, d: nat, primes: seq<nat>, draws: seq<nat>): (Run<seq<nat>>, seq<nat>)
    requires n % 2 == 1 && PrimeTable(primes) && 1 < d < n && 1 <= n / d < n && n / d % 2 == 1
    decreases n, 0, 0
  {
    var (run, left) := FactorizeRun(d, primes, draws);
    if run.OutOfDraws? then (OutOfDraws, left)
    else
      var (more, left') := Drive(n / d, primes, left);
      (Prepend(run.value, more), left')
  }

  // ---------- Which numbers can be finished ----------

  /** `factorize` can finish on n when its loop can on what trial division leaves. */
  predicate CanFinish(n: nat, primes: seq<nat>)
    requires n >= 1 && PrimeTable(primes)
    decreases n, 1
  {
    Settles(Rest(n, primes), primes)
  }

  /** The loop can finish on 1, on a prime, and on a number that rho splits, from some start,
      into two parts that can be finished: the one it returns after a trial division of its
      own, the other without. */
  predicate Settles(n: nat, primes: seq<nat>)
    requires n % 2 == 1 && PrimeTable(primes)
    decreases n, 0
  {
    n == 1 || IsPrime(n) || exists x0: nat | 2 <= x0 < n - 3 :: SettlesFrom(n, x0, primes)
  }

  predicate SettlesFrom(n: nat, x0: nat, primes: seq<nat>)
    requires n % 2 == 1 && PrimeTable(primes) && x0 < n
    decreases n, 0, 0
  {
    var d := Answer(n, x0);
    d != 0 && CanFinish(d, primes) && Settles(n / d, primes)
  }

  /** A run that finishes was on a number that can be finished ... */
  lemma {:induction false} FinishedCan(n: nat, primes: seq<nat>, draws: seq<nat>)
    requires n >= 1 && PrimeTable(primes) && FactorizeRun(n, primes, draws).0.Finished?
    ensures CanFinish(n, primes)
    decreases n, 1, 0
  {
    DrivenSettles(Rest(n, primes), primes, draws);
  }

  lemma {:induction false} DrivenSettles(n: nat, primes: seq<nat>, draws: seq<nat>)
    requires n % 2 == 1 && PrimeTable(primes) && Drive(n, primes, draws).0.Finished?
    ensures Settles(n, primes)
    decreases n, 0, |draws|
  {
    hide IsPrime, Answer, Rest, StartFor;
    if n != 1 && !IsPrime(n) {
      OddComposite(n);
      var x0 := StartFor(n, draws[0]);
      var d := Answer(n, x0);
      if d == 0 {
        DrivenSettles(n, primes, draws[1..]);
      } else {
        var (run, left) := FactorizeRun(d, primes, draws[1..]);
        FinishedCan(d, primes, draws[1..]);
        DrivenSettles(n / d, primes, left);
        assert SettlesFrom(n, x0, primes);
      }
    }
  }

  /** ... and on every such number some draws finish, leaving the rest of them alone. */
  lemma {:induction false} FinishingDraws(n: nat, primes: seq<nat>, more: seq<nat>) returns (draws: seq<nat>)
    requires n >= 1 && PrimeTable(primes) && CanFinish(n, primes)
    ensures FactorizeRun(n, primes, draws + more).0.Finished? && FactorizeRun(n, primes, draws + more).1 == more
    decreases n, 1
  {
    draws := SettlingDraws(Rest(n, primes), primes, more);
  }

  lemma {:induction false} SettlingDraws(n: nat, primes: seq<nat>, more: seq<nat>) returns (draws: seq<nat>)
    requires n % 2 == 1 && PrimeTable(primes) && Settles(n, primes)
    ensures Drive(n, primes, draws + more).0.Finished? && Drive(n, primes, draws + more).1 == more
    decreases n, 0
  {
    hide IsPrime, Answer, Rest;
    if n == 1 || IsPrime(n) {
      draws := [];
      assert draws + more == more;
    } else {
      OddComposite(n);
      var x0: nat :| 2 <= x0 < n - 3 && SettlesFrom(n, x0, primes);
      var d := Answer(n, x0);
      var second := SettlingDraws(n / d, primes, more);
      var first := FinishingDraws(d, primes, second + more);
      draws := [x0 - 2] + (first + second);
      DrawOf(n, x0);
      var all := draws + more;
      assert all[0] == x0 - 2 && all[1..] == first + (second + more);
    }
  }

  lemma DrawOf(n: nat, x0: nat)
    requires n > 5 && 2 <= x0 < n - 3
    ensures StartFor(n, x0 - 2) == x0
  {
  }

  /** `factor n` finishes on some draws if and only if n can be finished; on any other n it
      retries for ever, whatever the draws. */
  lemma FinishesIff(n: nat, primes: seq<nat>)
    requires n >= 1 && PrimeTable(primes)
    ensures CanFinish(n, primes) <==> exists draws :: FactorizeRun(n, primes, draws).0.Finished?
  {
    hide FactorizeRun, CanFinish;
    if CanFinish(n, primes) {
      var draws := FinishingDraws(n, primes, []);
      assert FactorizeRun(n, primes, draws + []).0.Finished?;
    }
    if draws :| FactorizeRun(n, primes, draws).0.Finished? {
      FinishedCan(n, primes, draws);
    }
  }

  // ---------- On which numbers no draw can lose the run ----------

  /** No draws can lead `factorize` on n into a loop it can never leave. */
  predicate Safe(n: nat, primes: seq<nat>)
    requires n >= 1 && PrimeTable(primes)
    decreases n, 1
  {
    SafeLoop(Rest(n, primes), primes)
  }

  /** Some start makes rho split n, and whichever split it finds leaves two safe parts. */
  predicate SafeLoop(n: nat, primes: seq<nat>)
    requires n % 2 == 1 && PrimeTable(primes)
    decreases n, 0
  {
    n == 1 || IsPrime(n) ||
    (&& (exists x0: nat | 2 <= x0 < n - 3 :: Answer(n, x0) != 0)
     && (forall x0: nat | 2 <= x0 < n - 3 :: SafeFrom(n, x0, primes)))
  }

  predicate SafeFrom(n: nat, x0: nat, primes: seq<nat>)
    requires n % 2 == 1 && PrimeTable(primes) && x0 < n
    decreases n, 0, 0
  {
    var d := Answer(n, x0);
    d != 0 ==> Safe(d, primes) && SafeLoop(n / d, primes)
  }

  /** What is safe can be finished. */
  lemma {:induction false} SafeSettles(n: nat, primes: seq<nat>)
    requires n % 2 == 1 && PrimeTable(primes) && SafeLoop(n, primes)
    ensures Settles(n, primes)
    decreases n, 0
  {
    hide IsPrime, Answer, Rest;
    if n != 1 && !IsPrime(n) {
      var x0: nat :| 2 <= x0 < n - 3 && Answer(n, x0) != 0;
      assert SafeFrom(n, x0, primes);
      SafeCanFinish(Answer(n, x0), primes);
      SafeSettles(n / Answer(n, x0), primes);
      assert SettlesFrom(n, x0, primes);
    }
  }

  lemma {:induction false} SafeCanFinish(n: nat, primes: seq<nat>)
    requires n >= 1 && PrimeTable(primes) && Safe(n, primes)
    ensures CanFinish(n, primes)
    decreases n, 1
  {
    SafeSettles(Rest(n, primes), primes);
  }

  /** A run that has finished leaves further draws alone. */
  lemma {:induction false} FinishedStays(n: nat, primes: seq<nat>, draws: seq<nat>, more: seq<nat>)
    requires n >= 1 && PrimeTable(primes) && FactorizeRun(n, primes, draws).0.Finished?
    ensures var (run, left) := FactorizeRun(n, primes, draws);
      FactorizeRun(n, primes, draws + more) == (run, left + more)
    decreases n, 1, 0
  {
    hide Drive, Rest, TwosOf, TableDivisors, OddPart;
    DrivenStays(Rest(n, primes), primes, draws, more);
  }

  lemma {:induction false} DrivenStays(n: nat, primes: seq<nat>, draws: seq<nat>, more: seq<nat>)
    requires n % 2 == 1 && PrimeTable(primes) && Drive(n, primes, draws).0.Finished?
    ensures var (run, left) := Drive(n, primes, draws); Drive(n, primes, draws + more) == (run, left + more)
    decreases n, 0, |draws|
  {
    hide IsPrime, Answer, StartFor;
    if n != 1 && !IsPrime(n) {
      OddComposite(n);
      var d := Answer(n, StartFor(n, draws[0]));
      var tail := draws[1..];
      assert (draws + more)[0] == draws[0] && (draws + more)[1..] == tail + more;
      if d == 0 {
        DrivenStays(n, primes, tail, more);
      } else {
        SplitStays(n, d, primes, tail, more);
      }
    }
  }

  lemma {:induction false} SplitStays(n: nat, d: nat, primes: seq<nat>, draws: seq<nat>, more: seq<nat>)
    requires n % 2 == 1 && PrimeTable(primes) && 1 < d < n && 1 <= n / d < n && n / d % 2 == 1
    requires Split(n, d, primes, draws).0.Finished?
    ensures var (run, left) := Split(n, d, primes, draws); Split(n, d, primes, draws + more) == (run, left + more)
    decreases n, 0, 0
  {
    hide FactorizeRun, Drive;
    var (run, left) := FactorizeRun(d, primes, draws);
    FinishedStays(d, primes, draws, more);
    DrivenStays(n / d, primes, left, more);
  }

  /** On a safe number whatever has been drawn so far can be continued to a finish. */
  lemma {:induction false} SafeContinues(n: nat, primes: seq<nat>, draws: seq<nat>) returns (more: seq<nat>)
    requires n >= 1 && PrimeTable(primes) && Safe(n, primes)
    ensures FactorizeRun(n, primes, draws + more).0.Finished?
    decreases n, 1, 0
  {
    more := SafeLoopContinues(Rest(n, primes), primes, draws);
  }

  lemma {:induction false} SafeLoopContinues(n: nat, primes: seq<nat>, draws: seq<nat>) returns (more: seq<nat>)
    requires n % 2 == 1 && PrimeTable(primes) && SafeLoop(n, primes)
    ensures Drive(n, primes, draws + more).0.Finished?
    decreases n, 0, |draws|
  {
    hide IsPrime, Answer, StartFor, Split;
    if n == 1 || IsPrime(n) {
      more := [];
    } else if draws == [] {
      SafeSettles(n, primes);
      more := SettlingDraws(n, primes, []);
      assert draws + more == more == more + [];
    } else {
      OddComposite(n);
      var x0 := StartFor(n, draws[0]);
      assert SafeFrom(n, x0, primes);
      var d := Answer(n, x0);
      var tail := draws[1..];
      if d == 0 {
        more := SafeLoopContinues(n, primes, tail);
      } else {
        more := SafeSplitContinues(n, d, primes, tail);
      }
      assert (draws + more)[0] == draws[0] && (draws + more)[1..] == tail + more;
    }
  }

  lemma {:induction false} SafeSplitContinues(n: nat, d: nat, primes: seq<nat>, draws: seq<nat>)
      returns (more: seq<nat>)
    requires n % 2 == 1 && PrimeTable(primes) && 1 < d < n && 1 <= n / d < n && n / d % 2 == 1
    requires Safe(d, primes) && SafeLoop(n / d, primes)
    ensures Split(n, d, primes, draws + more).0.Finished?
    decreases n, 0, 0
  {
    hide FactorizeRun, Drive, Safe, SafeLoop;
    var first := SafeContinues(d, primes, draws);
    var (run, left) := FactorizeRun(d, primes, draws + first);
    var second := SafeLoopContinues(n / d, primes, left);
    FinishedStays(d, primes, draws + first, second);
    more := first + second;
    assert draws + first + second == draws + more;
  }

  /** On any other number some draws lose the run: nothing that follows them finishes. */
  lemma {:induction false} LosingDraws(n: nat, primes: seq<nat>) returns (draws: seq<nat>)
    requires n >= 1 && PrimeTable(primes) && !Safe(n, primes)
    ensures forall more :: FactorizeRun(n, primes, draws + more).0.OutOfDraws?
    decreases n, 1
  {
    hide Rest, TwosOf, TableDivisors, OddPart, Drive;
    draws := LosingLoop(Rest(n, primes), primes);
  }

  lemma {:induction false} LosingLoop(n: nat, primes: seq<nat>) returns (draws: seq<nat>)
    requires n % 2 == 1 && PrimeTable(primes) && !SafeLoop(n, primes)
    ensures forall more :: Drive(n, primes, draws + more).0.OutOfDraws?
    decreases n, 0
  {
    hide IsPrime, Answer, Drive, Rest;
    OddComposite(n);
    if x0: nat :| 2 <= x0 < n - 3 && !SafeFrom(n, x0, primes) {
      var tail := LosingSplit(n, Answer(n, x0), primes);
      draws := [x0 - 2] + tail;
      forall more
        ensures Drive(n, primes, draws + more).0.OutOfDraws?
      {
        DrawnSplit(n, x0, primes, tail + more);
        assert draws + more == [x0 - 2] + (tail + more);
      }
    } else {
      draws := [];
      NoSplitNoSettling(n, primes);
      forall more
        ensures Drive(n, primes, draws + more).0.OutOfDraws?
      {
        if Drive(n, primes, draws + more).0.Finished? {
          DrivenSettles(n, primes, draws + more);
        }
      }
    }
  }

  /** The driver draws the start x0 first. */
  lemma DrawnSplit(n: nat, x0: nat, primes: seq<nat>, draws: seq<nat>)
    requires n % 2 == 1 && n > 5 && PrimeTable(primes) && !IsPrime(n) && 2 <= x0 < n - 3 && Answer(n, x0) != 0
    ensures Drive(n, primes, [x0 - 2] + draws) == Split(n, Answer(n, x0), primes, draws)
  {
    hide IsPrime, Answer, Split;
    DrawOf(n, x0);
    hide StartFor;
    var all := [x0 - 2] + draws;
    assert all[0] == x0 - 2 && all[1..] == draws;
  }

  lemma NoSplitNoSettling(n: nat, primes: seq<nat>)
    requires n % 2 == 1 && PrimeTable(primes) && n != 1 && !IsPrime(n)
    requires forall x0: nat :: 2 <= x0 < n - 3 ==> Answer(n, x0) == 0
    ensures !Settles(n, primes)
  {
    hide IsPrime, Answer, CanFinish;
    forall x0: nat | 2 <= x0 < n - 3
      ensures !SettlesFrom(n, x0, primes)
    {
    }
  }

  lemma {:induction false} LosingSplit(n: nat, d: nat, primes: seq<nat>) returns (draws: seq<nat>)
    requires n % 2 == 1 && PrimeTable(primes) && 1 < d < n && 1 <= n / d < n && n / d % 2 == 1
    requires !Safe(d, primes) || !SafeLoop(n / d, primes)
    ensures forall more :: Split(n, d, primes, draws + more).0.OutOfDraws?
    decreases n, 0, 0
  {
    hide FactorizeRun, Drive, Safe, SafeLoop, CanFinish;
    if !Safe(d, primes) {
      draws := LosingDraws(d, primes);
    } else {
      SafeCanFinish(d, primes);
      var first := FinishingDraws(d, primes, []);
      assert first + [] == first;
      var second := LosingLoop(n / d, primes);
      draws := first + second;
      forall more
        ensures Split(n, d, primes, draws + more).0.OutOfDraws?
      {
        FinishedStays(d, primes, first, second + more);
        assert draws + more == first + (second + more);
        assert [] + (second + more) == second + more;
      }
    }
  }

  /** After these draws there are further ones with which the run finishes. */
  ghost predicate CanContinue(n: nat, primes: seq<nat>, draws: seq<nat>)
    requires n >= 1 && PrimeTable(primes)
  {
    exists more :: FactorizeRun(n, primes, draws + more).0.Finished?
  }

  /** `factor n` can be finished after any draws whatever if and only if n is safe; on any
      other n some draws lose it for ever. */
  lemma NeverLostIff(n: nat, primes: seq<nat>)
    requires n >= 1 && PrimeTable(primes)
    ensures Safe(n, primes) <==> forall draws :: CanContinue(n, primes, draws)
  {
    hide FactorizeRun, Safe;
    if Safe(n, primes) {
      forall draws
        ensures CanContinue(n, primes, draws)
      {
        var more := SafeContinues(n, primes, draws);
      }
    } else {
      var draws := LosingDraws(n, primes);
      assert !CanContinue(n, primes, draws);
    }
  }

  // ---------- The driver ----------

  lemma DivisorAtMost(total: nat, factors: seq<nat>, n: nat)
    requires total >= 1 && Product(factors) * n == total
    ensures n <= total
  {
    var f := Product(factors);
    assert f != 0;
    assert f * n == (f - 1) * n + n;
  }

  lemma PushPrime(factors: seq<nat>, n: nat)
    requires AllPrime(factors) && IsPrime(n)
    ensures AllPrime(factors + [n]) && Product(factors + [n]) == Product(factors) * n
  {
    ProductAppend(factors, [n]);
    assert Product([n]) == n;
  }

  /** An odd composite is at least 9, so rho's modulus and random range are in order. */
  lemma OddComposite(n: nat)
    requires n % 2 == 1 && n > 1 && !IsPrime(n)
    ensures n > 5
  {
    assert n == 3 ==> IsPrime(n);
    assert n == 5 ==> IsPrime(n);
  }

  lemma Combine(factors: seq<nat>, more: seq<nat>, d: nat, n: nat, total: nat)
    requires AllPrime(factors) && AllPrime(more) && Product(more) == d
    requires Product(factors) * n == total && n % 2 == 1 && 1 < d < n && Divides(d, n)
    ensures 1 <= n / d < n && n / d % 2 == 1
    ensures AllPrime(factors + more) && Product(factors + more) * (n / d) == total
  {
    hide IsPrime, Product;
    DivisorBound(d, n);
    ProductAppend(factors, more);
    var f, q := Product(factors), n / d;
    assert f * (d * q) == f * d * q;
    if q % 2 == 0 {
      DividesProduct(2, d, q);
    }
  }

  lemma PrependTwice(f: seq<nat>, g: seq<nat>, run: Run<seq<nat>>)
    ensures Prepend(f, Prepend(g, run)) == Prepend(f + g, run)
    ensures Prepend(f, Finished([])) == Finished(f)
  {
    if run.Finished? {
      assert f + (g + run.value) == f + g + run.value;
    }
    assert f + [] == f;
  }

  /** The outcome when `factors` have been found and n remains. */
  function Continued(factors: seq<nat>, n: nat, primes: seq<nat>, left: seq<nat>): (Run<seq<nat>>, seq<nat>)
    requires n % 2 == 1 && PrimeTable(primes)
  {
    var (run, left') := Drive(n, primes, left);
    (Prepend(factors, run), left')
  }

  /** The outcome when moreover rho has just answered d. */
  function SplitOff(factors: seq<nat>, n: nat, d: nat, primes: seq<nat>, left: seq<nat>): (Run<seq<nat>>, seq<nat>)
    requires n % 2 == 1 && PrimeTable(primes) && 1 < d < n && 1 <= n / d < n && n / d % 2 == 1
  {
    var (run, left') := Split(n, d, primes, left);
    (Prepend(factors, run), left')
  }

  lemma FactorizeStart(n: nat, primes: seq<nat>, draws: seq<nat>)
    requires n >= 1 && PrimeTable(primes)
    ensures FactorizeRun(n, primes, draws)
         == Continued(TwosOf(n) + TableDivisors(OddPart(n), primes), Rest(n, primes), primes, draws)
    ensures Rest(n, primes) == 1 || IsPrime(Rest(n, primes)) ==>
      FactorizeRun(n, primes, draws).0.Finished? && FactorizeRun(n, primes, draws).1 == draws
  {
    hide Rest, TwosOf, TableDivisors, OddPart, IsPrime;
  }

  lemma DriveEnds(factors: seq<nat>, n: nat, primes: seq<nat>, left: seq<nat>)
    requires n % 2 == 1 && PrimeTable(primes) && (n == 1 || IsPrime(n))
    ensures Continued(factors, n, primes, left) == (Finished(if n == 1 then factors else factors + [n]), left)
  {
    hide IsPrime;
    assert factors + [] == factors;
  }

  lemma DriveStep(factors: seq<nat>, n: nat, primes: seq<nat>, left: seq<nat>)
    requires n % 2 == 1 && n > 5 && PrimeTable(primes) && !IsPrime(n)
    ensures left == [] ==> Continued(factors, n, primes, left) == (OutOfDraws, [])
    ensures left != [] ==> var d := Answer(n, StartFor(n, left[0]));
      Continued(factors, n, primes, left)
      == if d == 0 then Continued(factors, n, primes, left[1..]) else SplitOff(factors, n, d, primes, left[1..])
  {
    hide IsPrime, Answer, StartFor, Split;
  }

  lemma AnswerIs(n: nat, x0: nat, limit: nat)
    requires x0 < n && limit == LIMIT
    ensures Answer(n, x0) == RhoAnswer(n, x0, limit)
  {
    hide RhoAnswer;
  }

  lemma SplitStep(factors: seq<nat>, n: nat, d: nat, primes: seq<nat>, left: seq<nat>)
    requires n % 2 == 1 && PrimeTable(primes) && 1 < d < n && 1 <= n / d < n && n / d % 2 == 1
    ensures var (run, left') := FactorizeRun(d, primes, left);
      SplitOff(factors, n, d, primes, left)
      == if run.OutOfDraws? then (OutOfDraws, left') else Continued(factors + run.value, n / d, primes, left')
  {
    hide FactorizeRun, Drive;
    var (run, left') := FactorizeRun(d, primes, left);
    if run.Finished? {
      PrependTwice(factors, run.value, Drive(n / d, primes, left').0);
    }
  }

  lemma FinishedMeans(n: nat, primes: seq<nat>, draws: seq<nat>)
    requires n >= 1 && PrimeTable(primes)
    ensures FactorizeRun(n, primes, draws).0.Finished? ==> CanFinish(n, primes)
  {
    if FactorizeRun(n, primes, draws).0.Finished? {
      FinishedCan(n, primes, draws);
    }
  }

  /** `factorize`.  Each element of `draws` is one answer of the random generator; the
      recursion consumes them in order and hands back the remaining ones. */
  method Factorize(n_in: nat, primes: seq<nat>, draws: seq<nat>) returns (run: Run<seq<nat>>, left: seq<nat>)
    requires n_in >= 1 && PrimeTable(primes)
    ensures (run, left) == FactorizeRun(n_in, primes, draws)
    ensures run.Finished? ==> AllPrime(run.value) && Product(run.value) == n_in && CanFinish(n_in, primes)
    ensures Rest(n_in, primes) == 1 || IsPrime(Rest(n_in, primes)) ==> run.Finished? && left == draws
    decreases n_in
  {
    hide IsPrime, Divides, Product, Rest, LeavesAt, RhoValue, RhoAnswer, Answer, FactorizeRun, Drive, Split, Prepend,
         CanFinish, StartFor, OddPart, TwosOf, TableDivisors;
    left := draws;
    var n: nat, factors: seq<nat> := RemoveSmallFactors(n_in, primes);
    DivisorAtMost(n_in, factors, n);
    FactorizeStart(n_in, primes, draws);
    ghost var all := FactorizeRun(n_in, primes, draws);
    while n != 1
      invariant 1 <= n <= n_in && n % 2 == 1
      invariant Product(factors) * n == n_in && AllPrime(factors)
      invariant all == Continued(factors, n, primes, left)
      decreases n
    {
      if IsPrime(n) {
        PushPrime(factors, n);
        DriveEnds(factors, n, primes, left);
        FinishedMeans(n_in, primes, draws);
        return Finished(factors + [n]), left;
      }
      OddComposite(n);
      var a_factor := 0;
      while a_factor == 0
        invariant a_factor != 0 ==> 1 < a_factor < n && Divides(a_factor, n)
        invariant a_factor != 0 ==> 1 <= n / a_factor < n && n / a_factor % 2 == 1
        invariant a_factor == 0 ==> all == Continued(factors, n, primes, left)
        invariant a_factor != 0 ==> all == SplitOff(factors, n, a_factor, primes, left)
        decreases |left|, a_factor == 0
      {
        DriveStep(factors, n, primes, left);
        if left == [] {
          FinishedMeans(n_in, primes, draws);
          return OutOfDraws, left;
        }
        var x0 := StartFor(n, left[0]);
        left := left[1..];
        var i;
        a_factor, i := Rho(n, x0, LIMIT);
        AnswerIs(n, x0, LIMIT);
      }
      SplitStep(factors, n, a_factor, primes, left);
      var rhoFactored: Run<seq<nat>>;
      rhoFactored, left := Factorize(a_factor, primes, left);
      if rhoFactored.OutOfDraws? {
        FinishedMeans(n_in, primes, draws);
        return OutOfDraws, left;
      }
      Combine(factors, rhoFactored.value, a_factor, n, n_in);
      factors := factors + rhoFactored.value;
      n := n / a_factor;
    }
    DriveEnds(factors, n, primes, left);
    FinishedMeans(n_in, primes, draws);
    run := Finished(factors);
  }

  // ---------- The command ----------

  lemma PrependSorted(a: nat, t: seq<nat>)
    requires Sorted(t) && forall y :: y in multiset(t) ==> a <= y
    ensures Sorted([a] + t)
  {
    forall i | 0 <= i < |t|
      ensures a <= t[i]
    {
      assert t[i] in multiset(t);
    }
  }

  function InsertSorted(x: nat, s: seq<nat>): (r: seq<nat>)
    requires Sorted(s)
    ensures Sorted(r) && multiset(r) == multiset(s) + multiset{x}
  {
    if s == [] || x <= s[0] then [x] + s
    else
      assert s == [s[0]] + s[1..];
      var t := InsertSorted(x, s[1..]);
      PrependSorted(s[0], t);
      [s[0]] + t
  }

  /** The library sort: any sorted permutation of the input is this list. */
  function Sort(s: seq<nat>): (r: seq<nat>)
    ensures Sorted(r) && multiset(r) == multiset(s)
  {
    if s == [] then []
    else
      assert s == [s[0]] + s[1..];
      InsertSorted(s[0], Sort(s[1..]))
  }

  lemma {:induction false} InsertProduct(x: nat, s: seq<nat>)
    requires Sorted(s)
    ensures Product(InsertSorted(x, s)) == x * Product(s)
  {
    if s == [] || x <= s[0] {
      assert ([x] + s)[1..] == s;
    } else {
      InsertProduct(x, s[1..]);
      assert InsertSorted(x, s)[1..] == InsertSorted(x, s[1..]);
      SwapFactors(s[0], x, Product(s[1..]));
    }
  }

  lemma SwapFactors(a: nat, x: nat, b: nat)
    ensures a * (x * b) == x * (a * b)
  {
  }

  lemma {:induction false} SortProduct(s: seq<nat>)
    ensures Product(Sort(s)) == Product(s)
  {
    if s != [] {
      SortProduct(s[1..]);
      InsertProduct(s[0], Sort(s[1..]));
    }
  }

  /** `factor n`: whatever the random generator answers, a run that finishes prints the one
      nondecreasing list of primes whose product is n. */
  method Go(n: nat, primes: seq<nat>, draws: seq<nat>) returns (output: Run<seq<nat>>)
    requires n >= 1 && PrimeTable(primes)
    ensures output.Finished? ==> output.value == PrimeFactors(n) && CanFinish(n, primes)
    ensures output.Finished? <==> FactorizeRun(n, primes, draws).0.Finished?
    ensures Rest(n, primes) == 1 || IsPrime(Rest(n, primes)) ==> output.Finished?
  {
    hide CanFinish, FactorizeRun, Rest;
    var run, left := Factorize(n, primes, draws);
    if run.OutOfDraws? {
      return OutOfDraws;
    }
    var sorted := Sort(run.value);
    SortProduct(run.value);
    assert AllPrime(sorted) by {
      forall i | 0 <= i < |sorted|
        ensures IsPrime(sorted[i])
      {
        assert sorted[i] in multiset(run.value);
      }
    }
    UniqueFactorisation(sorted);
    output := Finished(sorted);
  }

  // ---------- Numbers the command never finishes ----------

  lemma {:induction false} OnlyDivisor(n: nat, primes: seq<nat>, p: nat)
    requires PrimeTable(primes)
    requires forall i :: 0 <= i < |primes| ==> (Divides(primes[i], n) <==> primes[i] == p)
    ensures TableDivisors(n, primes) == if p in primes then [p] else []
  {
    if primes != [] {
      OnlyDivisor(n, primes[1..], p);
      assert primes == [primes[0]] + primes[1..];
    }
  }

  lemma PrimeDividesPrime(q: nat, p: nat)
    requires IsPrime(q) && IsPrime(p)
    ensures Divides(q, p) <==> q == p
  {
    if Divides(q, p) {
      DivisorBound(q, p);
    }
  }

  lemma PrimeDivisorOfCube(q: nat, p: nat)
    requires IsPrime(q) && IsPrime(p)
    ensures Divides(q, p * p * p) <==> q == p
  {
    PrimeDividesPrime(q, p);
    hide Divides, IsPrime;
    var s := p * p;
    if Divides(q, s * p) {
      Euclid(q, s, p);
      if Divides(q, s) {
        Euclid(q, p, p);
      }
    } else {
      if Divides(q, p) {
        DividesProduct(q, s, p);
      }
    }
  }

  /** The loop can never finish on 25. */
  lemma NeverSettles25(n: nat, primes: seq<nat>)
    requires n == 25 && PrimeTable(primes)
    ensures !Settles(n, primes)
  {
    assert !IsPrime(n) by {
      assert Divides(5, n);
    }
    hide IsPrime, Divides, RhoAnswer, CanFinish;
    forall x0: nat | 2 <= x0 < n - 3
      ensures !SettlesFrom(n, x0, primes)
    {
      LeavesOnce(n, x0, LIMIT, FirstHit(n, x0, LIMIT, 2));
      NeverSplits25(n, x0, LIMIT, FirstHit(n, x0, LIMIT, 2));
      AnswerIs(n, x0, LIMIT);
    }
  }

  /** Nor on 75: all that rho finds there is the 3. */
  lemma NeverSettles75(n: nat, primes: seq<nat>)
    requires n == 75 && PrimeTable(primes)
    ensures !Settles(n, primes)
  {
    assert !IsPrime(n) by {
      assert Divides(5, n);
    }
    hide IsPrime, Divides, RhoAnswer, CanFinish;
    NeverSettles25(25, primes);
    forall x0: nat | 2 <= x0 < n - 3
      ensures !SettlesFrom(n, x0, primes)
    {
      LeavesOnce(n, x0, LIMIT, FirstHit(n, x0, LIMIT, 2));
      OnlyThreeOutOf75(n, x0, LIMIT, FirstHit(n, x0, LIMIT, 2));
      AnswerIs(n, x0, LIMIT);
      assert 75 / 3 == 25;
    }
  }

  /** Trial division takes one 5 out of 125, and rho can never split the 25 that is left: on
      125 times any power of two no run finishes. */
  lemma StuckOn125(n: nat, primes: seq<nat>)
    requires n >= 1 && PrimeTable(primes) && 5 in primes && OddPart(n) == 125
    ensures Rest(n, primes) == 25 && !CanFinish(n, primes)
  {
    FiveIsPrime();
    assert 125 == 5 * 5 * 5;
    forall i | 0 <= i < |primes|
      ensures Divides(primes[i], 125) <==> primes[i] == 5
    {
      PrimeDivisorOfCube(primes[i], 5);
    }
    OnlyDivisor(125, primes, 5);
    assert Product([5]) == 5;
    NeverSettles25(25, primes);
    hide Settles;
  }

  lemma {:induction false} TwoDivisors(n: nat, primes: seq<nat>, p: nat, q: nat)
    requires PrimeTable(primes) && p != q
    requires forall i :: 0 <= i < |primes| ==> (Divides(primes[i], n) <==> primes[i] == p || primes[i] == q)
    ensures Product(TableDivisors(n, primes)) == (if p in primes then p else 1) * (if q in primes then q else 1)
  {
    hide IsPrime, Divides;
    if primes != [] {
      PrimeTableTail(primes);
      assert forall i :: 0 <= i < |primes[1..]| ==> primes[1..][i] == primes[i + 1];
      TwoDivisors(n, primes[1..], p, q);
      TableDivisorsHead(n, primes);
      assert Divides(primes[0], n) <==> primes[0] == p || primes[0] == q;
      var p', q' := if p in primes[1..] then p else 1, if q in primes[1..] then q else 1;
      assert primes[0] == p ==> p' == 1;
      assert primes[0] == q ==> q' == 1;
      OneFactor(p', q', primes[0]);
    }
  }

  lemma OneFactor(a: nat, b: nat, c: nat)
    ensures 1 * (a * b) == a * b
    ensures a == 1 ==> c * (a * b) == c * b
    ensures b == 1 ==> c * (a * b) == a * c
  {
  }

  lemma PrimeDivisorOf1125(q: nat)
    requires IsPrime(q)
    ensures Divides(q, 1125) <==> q == 3 || q == 5
  {
    ThreeIsPrime();
    FiveIsPrime();
    assert 1125 == 9 * 125 && 9 == 3 * 3 && 125 == 5 * 5 * 5;
    PrimeDivisorOfCube(q, 5);
    PrimeDividesPrime(q, 3);
    if Divides(q, 1125) {
      Euclid(q, 9, 125);
      if Divides(q, 9) {
        Euclid(q, 3, 3);
      }
    }
  }

  /** The same happens one level deeper on 1125 = 9 * 125: rho splits the 75 that trial
      division leaves, but only ever into 3 and 25. */
  lemma StuckOn1125(n: nat, primes: seq<nat>)
    requires n >= 1 && PrimeTable(primes) && 3 in primes && 5 in primes && OddPart(n) == 1125
    ensures Rest(n, primes) == 75 && !CanFinish(n, primes)
  {
    hide IsPrime, Divides, Settles, CanFinish;
    forall i | 0 <= i < |primes|
      ensures Divides(primes[i], 1125) <==> primes[i] == 3 || primes[i] == 5
    {
      PrimeDivisorOf1125(primes[i]);
    }
    TwoDivisors(1125, primes, 3, 5);
    NeverSettles75(75, primes);
    assert CanFinish(n, primes) == Settles(Rest(n, primes), primes) by {
      CanFinishIs(n, primes);
    }
  }

  lemma CanFinishIs(n: nat, primes: seq<nat>)
    requires n >= 1 && PrimeTable(primes)
    ensures CanFinish(n, primes) == Settles(Rest(n, primes), primes)
  {
    hide Settles, Rest;
  }

  // ---------- A number on which the draws decide ----------

  lemma PrimeDivisorOf15125(q: nat)
    requires IsPrime(q)
    ensures Divides(q, 15125) <==> q == 5 || q == 11
  {
    FiveIsPrime();
    ElevenIsPrime();
    assert 15125 == 125 * 121 && 121 == 11 * 11 && 125 == 5 * 5 * 5;
    PrimeDivisorOfCube(q, 5);
    PrimeDividesPrime(q, 11);
    if Divides(q, 15125) {
      Euclid(q, 125, 121);
      if Divides(q, 121) {
        Euclid(q, 11, 11);
      }
    }
  }

  lemma ElevenIsPrime()
    ensures IsPrime(11)
  {
  }

  lemma PrimeDivisorOf25(q: nat)
    requires IsPrime(q)
    ensures Divides(q, 25) <==> q == 5
  {
    FiveIsPrime();
    PrimeDividesPrime(q, 5);
    assert 25 == 5 * 5;
    if Divides(q, 25) {
      Euclid(q, 5, 5);
    }
  }

  lemma RestOf25(primes: seq<nat>)
    requires PrimeTable(primes) && 5 in primes
    ensures Rest(25, primes) == 5 && CanFinish(25, primes)
  {
    forall i | 0 <= i < |primes|
      ensures Divides(primes[i], 25) <==> primes[i] == 5
    {
      PrimeDivisorOf25(primes[i]);
    }
    OnlyDivisor(25, primes, 5);
    assert Product([5]) == 5;
    FiveIsPrime();
    hide IsPrime;
  }

  /** On 275 the loop can finish, from start 3; from start 4 it takes the 11 and is lost. */
  lemma DrawsDecideOn275(n: nat, primes: seq<nat>)
    requires n == 275 && PrimeTable(primes) && 5 in primes
    ensures Settles(n, primes) && !SafeLoop(n, primes)
    ensures forall more :: Drive(n, primes, [2] + more).0.OutOfDraws?
  {
    assert !IsPrime(n) by {
      assert Divides(5, n);
    }
    ElevenIsPrime();
    RestOf25(primes);
    StartDecidesOn275(n, LIMIT);
    AnswerIs(n, 3, LIMIT);
    AnswerIs(n, 4, LIMIT);
    NeverSettles25(25, primes);
    hide IsPrime, Divides, RhoAnswer, CanFinish, Answer;
    assert 275 / 25 == 11 && 275 / 11 == 25;
    assert SettlesFrom(n, 3, primes) by {
      assert Settles(11, primes);
    }
    if SafeLoop(25, primes) {
      SafeSettles(25, primes);
    }
    assert !SafeFrom(n, 4, primes);
    forall more
      ensures Drive(n, primes, [2] + more).0.OutOfDraws?
    {
      LostAfter11(n, primes, more);
    }
  }

  lemma LostAfter11(n: nat, primes: seq<nat>, more: seq<nat>)
    requires n == 275 && PrimeTable(primes) && !IsPrime(n) && Answer(n, 4) == 11 && !Settles(25, primes)
    ensures Drive(n, primes, [2] + more).0.OutOfDraws?
  {
    hide IsPrime, Answer, Settles, FactorizeRun, Drive;
    assert 275 / 11 == 25;
    DrawnSplit(n, 4, primes, more);
    var (run, left) := FactorizeRun(11, primes, more);
    if run.Finished? && Drive(25, primes, left).0.Finished? {
      DrivenSettles(25, primes, left);
    }
  }

  /** 15125 = 125 * 121 leaves 275: it can be finished, and is lost for ever when the first
      draw is 2. */
  lemma DrawsDecideOn15125(n: nat, primes: seq<nat>)
    requires n >= 1 && PrimeTable(primes) && 5 in primes && 11 in primes && OddPart(n) == 15125
    ensures Rest(n, primes) == 275 && CanFinish(n, primes) && !Safe(n, primes)
    ensures forall more :: FactorizeRun(n, primes, [2] + more).0.OutOfDraws?
  {
    hide IsPrime, Divides, Settles, CanFinish, SafeLoop, Drive, TwosOf;
    forall i | 0 <= i < |primes|
      ensures Divides(primes[i], 15125) <==> primes[i] == 5 || primes[i] == 11
    {
      PrimeDivisorOf15125(primes[i]);
    }
    TwoDivisors(15125, primes, 5, 11);
    DrawsDecideOn275(275, primes);
    CanFinishIs(n, primes);
  }
}
