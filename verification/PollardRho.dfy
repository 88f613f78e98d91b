/** Pollard's rho with Brent's cycle finding and batched gcds: the specification of the
    loop, and the proof of when it must detect a factor. */
module PollardRho {
  import opened NumberTheory

  /** The loop gives up when its counter reaches this value. */
  const LIMIT: nat := 0xFFFF0000

  /** Arithmetic on residues, as the Montgomery representation provides it. */
  function MulMod(n: nat, a: nat, b: nat): (r: nat)
    requires n > 0
    ensures r < n
  {
    a * b % n
  }

  function SubMod(n: nat, a: nat, b: nat): (r: nat)
    requires a < n && b < n
    ensures r < n
  {
    (a + n - b) % n
  }

  function AddMod(n: nat, a: nat, b: nat): (r: nat)
    requires n > 0
    ensures r < n
  {
    (a + b) % n
  }

  /** One step of the pseudo-random walk, x -> x^2 + 1 mod n. */
  function Step(n: nat, x: nat): nat
    requires n > 0
  {
    AddMod(n, MulMod(n, x, x), 1)
  }

  /** The walk itself: x0 after j steps. */
  function Walk(n: nat, x0: nat, j: nat): (x: nat)
    requires x0 < n
    ensures x < n
  {
    if j == 0 then x0 else Step(n, Walk(n, x0, j - 1))
  }

  /** For loop counter i, the greatest power of two below i: the anchor y was taken when
      the counter had this value. */
  function Block(i: nat): (b: nat)
    requires i >= 2
    ensures 1 <= b < i <= 2 * b
  {
    if i == 2 then 1 else if i - 1 == 2 * Block(i - 1) then i - 1 else Block(i - 1)
  }

  /** The counters at which a gcd is taken: the powers of two and the multiples of 128. */
  predicate IsCheck(i: nat)
    requires i >= 2
  {
    i == 2 * Block(i) || i % 128 == 0
  }

  /** The difference y - x mod n multiplied into the batch at counter i. */
  function Difference(n: nat, x0: nat, i: nat): (t: nat)
    requires x0 < n && i >= 2
    ensures t < n
  {
    SubMod(n, Walk(n, x0, Block(i) - 1), Walk(n, x0, i - 1))
  }

  /** The product mod n of the differences since the last gcd, up to and including counter i. */
  function Batch(n: nat, x0: nat, i: nat): nat
    requires x0 < n && i >= 2
  {
    MulMod(n, if i == 2 || IsCheck(i - 1) then 1 else Batch(n, x0, i - 1), Difference(n, x0, i))
  }

  /** The gcd at counter i reveals something: it is not 1. */
  predicate Hit(n: nat, x0: nat, i: nat)
    requires x0 < n && i >= 2
  {
    IsCheck(i) && Gcd(Batch(n, x0, i), n) != 1
  }

  /** No hit below counter i. */
  ghost predicate Quiet(n: nat, x0: nat, i: nat)
    requires x0 < n
  {
    forall c :: 2 <= c < i ==> !Hit(n, x0, c)
  }

  /** The loop leaves with its counter at h: the first hit, or the limit when there is none
      below it. */
  ghost predicate LeavesAt(n: nat, x0: nat, limit: nat, h: nat)
    requires x0 < n
  {
    2 <= h <= limit && (h < limit ==> Hit(n, x0, h)) && Quiet(n, x0, h)
  }

  /** What a call that leaves at h returns: the gcd there, or 0 for "failed" when that gcd is
      n itself or the limit was reached. */
  function RhoValue(n: nat, x0: nat, limit: nat, h: nat): nat
    requires x0 < n && h >= 2
  {
    if h == limit || Gcd(Batch(n, x0, h), n) == n then 0 else Gcd(Batch(n, x0, h), n)
  }

  /** The running product z as it stands after counter i: reset by a gcd. */
  function Running(n: nat, x0: nat, i: nat): nat
    requires x0 < n && i >= 1
  {
    if i == 1 || IsCheck(i) then 1 else Batch(n, x0, i)
  }

  /** Brent's invariant: after the pass with counter i, x is the walk after i - 1 steps, y the
      walk where the block of i + 1 is anchored, z the running product, and k the end of that
      block; and no gcd has revealed anything. */
  ghost predicate InStep(n: nat, x0: nat, i: nat, x: nat, y: nat, z: nat, k: nat) {
    && x0 < n && i >= 1 && k == 2 * Block(i + 1)
    && x == Walk(n, x0, i - 1) && y == Walk(n, x0, Block(i + 1) - 1)
    && z == Running(n, x0, i) && Quiet(n, x0, i + 1)
  }

  lemma OnePass(n: nat, x0: nat, i: nat)
    requires x0 < n && i >= 2
    ensures var w := Walk(n, x0, i - 2);
      Walk(n, x0, i - 1) == AddMod(n, MulMod(n, w, w), 1)
    ensures Batch(n, x0, i) ==
      MulMod(n, Running(n, x0, i - 1), SubMod(n, Walk(n, x0, Block(i) - 1), Walk(n, x0, i - 1)))
    ensures Block(i + 1) == if i == 2 * Block(i) then i else Block(i)
  {
    hide MulMod, AddMod, SubMod;
  }

  /** One pass of the loop keeps the invariant, unless its gcd is a hit. */
  lemma Turn(n: nat, x0: nat, i: nat, x: nat, y: nat, z: nat, k: nat, x': nat, z': nat)
    requires i >= 2 && InStep(n, x0, i - 1, x, y, z, k)
    requires x < n && y < n && x' == AddMod(n, MulMod(n, x, x), 1) && z' == MulMod(n, z, SubMod(n, y, x'))
    ensures Quiet(n, x0, i) && z' == Batch(n, x0, i)
    ensures Hit(n, x0, i) <==> (i == k || i % 128 == 0) && Gcd(z', n) != 1
    ensures !Hit(n, x0, i) ==>
      InStep(n, x0, i, x', if i == k then x' else y, if i == k || i % 128 == 0 then 1 else z',
             if i == k then 2 * k else k)
  {
    OnePass(n, x0, i);
    hide Walk, Batch, Block, Gcd, MulMod, AddMod, SubMod;
    assert x' == Walk(n, x0, i - 1) && z' == Batch(n, x0, i);
  }

  lemma GcdRange(z: nat, n: nat)
    requires n > 0
    ensures 1 <= Gcd(z, n) <= n && Divides(Gcd(z, n), n)
  {
    GcdDivides(z, n);
    DivisorBound(Gcd(z, n), n);
  }

  lemma Start(n: nat, x0: nat)
    requires x0 < n
    ensures InStep(n, x0, 1, x0, x0, 1, 2)
  {
  }

  /** What the ways out of the loop amount to: the limit, and a gcd that is not 1. */
  lemma LeaveAtLimit(n: nat, x0: nat, limit: nat, x: nat, y: nat, z: nat, k: nat)
    requires x0 < n && 2 <= limit && InStep(n, x0, limit - 1, x, y, z, k)
    ensures LeavesAt(n, x0, limit, limit) && RhoValue(n, x0, limit, limit) == RhoAnswer(n, x0, limit) == 0
  {
    LeavesOnce(n, x0, limit, limit);
  }

  lemma LeaveAtHit(n: nat, x0: nat, limit: nat, i: nat, g: nat)
    requires x0 < n && 2 <= i < limit && Quiet(n, x0, i) && Hit(n, x0, i) && g == Gcd(Batch(n, x0, i), n)
    ensures LeavesAt(n, x0, limit, i)
    ensures RhoValue(n, x0, limit, i) == RhoAnswer(n, x0, limit) == if g == n then 0 else g
  {
    LeavesOnce(n, x0, limit, i);
  }

  /** A call returns 0 or a proper divisor. */
  lemma RhoValueDivides(n: nat, x0: nat, limit: nat, h: nat)
    requires x0 < n && LeavesAt(n, x0, limit, h)
    ensures var d := RhoValue(n, x0, limit, h); d != 0 ==> 1 < d < n && Divides(d, n)
  {
    GcdRange(Batch(n, x0, h), n);
  }

  /** The first hit from counter i on, or the limit. */
  function FirstHit(n: nat, x0: nat, limit: nat, i: nat): (h: nat)
    requires x0 < n && 2 <= i <= limit
    ensures i <= h <= limit
    decreases limit - i
  {
    if i == limit || Hit(n, x0, i) then i else FirstHit(n, x0, limit, i + 1)
  }

  lemma {:induction false} FirstHitIs(n: nat, x0: nat, limit: nat, i: nat)
    requires x0 < n && 2 <= i <= limit
    ensures var h := FirstHit(n, x0, limit, i);
      (h < limit ==> Hit(n, x0, h)) && forall c :: i <= c < h ==> !Hit(n, x0, c)
    decreases limit - i
  {
    hide Hit;
    if i < limit && !Hit(n, x0, i) {
      FirstHitIs(n, x0, limit, i + 1);
    }
  }

  /** The answer of a call, as a function of the modulus and the random start. */
  function RhoAnswer(n: nat, x0: nat, limit: nat): nat
    requires x0 < n && limit >= 2
  {
    RhoValue(n, x0, limit, FirstHit(n, x0, limit, 2))
  }

  /** A call leaves at one counter only, so its answer is this one. */
  lemma LeavesOnce(n: nat, x0: nat, limit: nat, h: nat)
    requires x0 < n && limit >= 2
    ensures LeavesAt(n, x0, limit, h) <==> h == FirstHit(n, x0, limit, 2)
    ensures LeavesAt(n, x0, limit, h) ==> RhoValue(n, x0, limit, h) == RhoAnswer(n, x0, limit)
  {
    FirstHitIs(n, x0, limit, 2);
    hide Hit, FirstHit, RhoValue;
    var f := FirstHit(n, x0, limit, 2);
    assert LeavesAt(n, x0, limit, f);
    if LeavesAt(n, x0, limit, h) {
      if h < f {
        assert false;
      }
      if f < h {
        assert false;
      }
    }
  }

  /** The loop as written.  `x0` is the random start; `i` reports the loop counter at exit. */
  method Rho(n: nat, x0: nat, limit: nat) returns (d: nat, i: nat)
    requires n > 5 && n % 2 == 1  // Montgomery needs an odd modulus, the random range n > 5
    requires 2 <= x0 < n - 3
    requires limit >= 2
    ensures LeavesAt(n, x0, limit, i) && d == RhoValue(n, x0, limit, i) == RhoAnswer(n, x0, limit)
  {
    Start(n, x0);
    hide *;
    var x: nat, y: nat, z: nat, k: nat := x0, x0, 1, 2;
    i := 1;
    while true
      invariant 1 <= i < limit && x < n && y < n && InStep(n, x0, i, x, y, z, k)
      decreases limit - i
    {
      i := i + 1;
      if i >= limit {
        LeaveAtLimit(n, x0, limit, x, y, z, k);
        break;
      }
      ghost var before, product := x, z;
      x := MulMod(n, x, x);
      x := AddMod(n, x, 1);
      var t := SubMod(n, y, x);
      z := MulMod(n, z, t);
      Turn(n, x0, i, before, y, product, k, x, z);
      if i == k || i % 128 == 0 {
        d := Gcd(z, n);
        if d != 1 {
          LeaveAtHit(n, x0, limit, i, d);
        }
        z := 1;
        if d == n {
          break;
        }
        if d != 1 {
          return;
        }
      }
      if i == k {
        y := x;
        k := 2 * k;
      }
    }
    d := 0;
  }

  // ---------- What a batch is ----------

  /** The last counter below i at which a gcd was taken, or 1. */
  function LastCheck(i: nat): (c: nat)
    requires i >= 2
    ensures 1 <= c < i && (c == 1 || IsCheck(c))
    ensures forall j :: c < j < i ==> !IsCheck(j)
  {
    if i == 2 || IsCheck(i - 1) then i - 1 else LastCheck(i - 1)
  }

  /** The differences at the counters above `from`, up to and including `last`. */
  function Differences(n: nat, x0: nat, from: nat, last: nat): seq<nat>
    requires x0 < n && 1 <= from <= last
    decreases last
  {
    if from == last then [] else Differences(n, x0, from, last - 1) + [Difference(n, x0, last)]
  }

  lemma MulModReduces(n: nat, a: nat, b: nat)
    requires n > 0
    ensures MulMod(n, a % n, b) == a * b % n
  {
    ReduceFactor(n, a, b);
    var k, v := a / n * b, a % n * b;
    Multiple(n, k);
    AddMultiple(n, n * k, v);
  }

  /** The batch at counter i is the product, modulo n, of all differences y - x since the last
      gcd. */
  lemma {:induction false} BatchIsProduct(n: nat, x0: nat, i: nat)
    requires x0 < n && i >= 2
    ensures Batch(n, x0, i) == Product(Differences(n, x0, LastCheck(i), i)) % n
  {
    hide Difference, IsCheck;
    var d := Difference(n, x0, i);
    assert Product([d]) == d;
    if i == 2 || IsCheck(i - 1) {
      assert Differences(n, x0, i - 1, i - 1) == [];
      assert Differences(n, x0, i - 1, i) == [] + [d] == [d];
      assert 1 * d == d;
    } else {
      BatchIsProduct(n, x0, i - 1);
      var before := Differences(n, x0, LastCheck(i), i - 1);
      ProductAppend(before, [d]);
      MulModReduces(n, Product(before), d);
    }
  }

  /** No more than 128 differences go into one gcd. */
  lemma BatchSize(n: nat, x0: nat, i: nat)
    requires x0 < n && i >= 2
    ensures |Differences(n, x0, LastCheck(i), i)| == i - LastCheck(i) <= 128
  {
    hide Differences, Block;
    DifferencesLength(n, x0, LastCheck(i), i);
    var c := MultipleBelow(i);
    assert c >= 2 ==> IsCheck(c);
    assert c <= LastCheck(i);
  }

  /** The last multiple of 128 below i. */
  lemma MultipleBelow(i: nat) returns (c: nat)
    requires i >= 2
    ensures c % 128 == 0 && c < i <= c + 128 && (c == 0 || c >= 2)
  {
    c := i - 1 - (i - 1) % 128;
  }

  lemma {:induction false} DifferencesLength(n: nat, x0: nat, from: nat, last: nat)
    requires x0 < n && 1 <= from <= last
    ensures |Differences(n, x0, from, last)| == last - from
    decreases last
  {
    if from < last {
      DifferencesLength(n, x0, from, last - 1);
    }
  }

  /** Between two powers of two above 128 the batches are that large: the gcds are taken at the
      multiples of 128 and nowhere else. */
  lemma ChecksBetweenPowers(e: nat, i: nat)
    requires Pow2(e) < i < 2 * Pow2(e)
    ensures IsCheck(i) <==> i % 128 == 0
  {
    BlockOfPower(e, i);
  }

  lemma GcdModulo(a: nat, n: nat)
    requires n > 0
    ensures Gcd(a % n, n) == Gcd(a, n)
  {
    ModTwice(n, a);
    hide Gcd;
    GcdUnfold(a % n, n);
    GcdUnfold(a, n);
  }

  lemma GcdUnfold(a: nat, b: nat)
    requires b > 0
    ensures Gcd(a, b) == Gcd(b, a % b)
  {
  }

  /** The product of the differences since the last gcd. */
  function ProductAt(n: nat, x0: nat, i: nat): nat
    requires x0 < n && i >= 2
  {
    Product(Differences(n, x0, LastCheck(i), i))
  }

  lemma HitMeaning(n: nat, x0: nat, i: nat)
    requires x0 < n && i >= 2
    ensures Gcd(Batch(n, x0, i), n) == Gcd(ProductAt(n, x0, i), n)
    ensures Hit(n, x0, i) <==> IsCheck(i) && Gcd(ProductAt(n, x0, i), n) != 1
  {
    hide Batch, Gcd, IsCheck, Product, Differences, LastCheck;
    BatchIsProduct(n, x0, i);
    GcdModulo(ProductAt(n, x0, i), n);
  }

  /** What a call answers: at the first gcd other than 1 before the limit, the greatest common
      divisor of n and the product of the differences since the last gcd, if that is less than
      n; and 0 in every other case. */
  lemma AnswerMeaning(n: nat, x0: nat, limit: nat)
    requires x0 < n && limit >= 2
    ensures var h := FirstHit(n, x0, limit, 2); var g := Gcd(ProductAt(n, x0, h), n);
      && (forall c :: 2 <= c < h && IsCheck(c) ==> Gcd(ProductAt(n, x0, c), n) == 1)
      && (h < limit ==> IsCheck(h) && g != 1)
      && RhoAnswer(n, x0, limit) == if h < limit && g < n then g else 0
  {
    var h := FirstHit(n, x0, limit, 2);
    FirstHitIs(n, x0, limit, 2);
    GcdRange(Batch(n, x0, h), n);
    hide Batch, Gcd, IsCheck, ProductAt, FirstHit, Divides;
    HitMeaning(n, x0, h);
    forall c | 2 <= c < h && IsCheck(c)
      ensures Gcd(ProductAt(n, x0, c), n) == 1
    {
      HitMeaning(n, x0, c);
    }
  }

  // ---------- The detection bound ----------

  function Pow2(e: nat): (m: nat)
    ensures m >= 1
  {
    if e == 0 then 1 else 2 * Pow2(e - 1)
  }

  /** The blocks really are delimited by the powers of two. */
  lemma {:induction false} BlockOfPower(e: nat, i: nat)
    requires Pow2(e) < i <= 2 * Pow2(e)
    ensures Block(i) == Pow2(e)
    decreases i
  {
    if i > Pow2(e) + 1 {
      BlockOfPower(e, i - 1);
    } else if e > 0 {
      BlockOfPower(e - 1, i - 1);
    }
  }

  /** Congruent points stay congruent after a step. */
  lemma StepCongruent(n: nat, p: nat, x: nat, y: nat)
    requires n > 0 && p > 0 && Divides(p, n) && x % p == y % p
    ensures Step(n, x) % p == Step(n, y) % p
  {
    SquareModulo(p, x);
    SquareModulo(p, y);
    StepResidue(n, p, x * x);
    StepResidue(n, p, y * y);
  }

  lemma ModOfMod(n: nat, p: nat, v: nat)
    requires n > 0 && p > 0 && Divides(p, n)
    ensures v % n % p == v % p
  {
    hide Divides;
    var m, r := n * (v / n), v % n;
    DividesProduct(p, n, v / n);
    assert v == m + r;
    AddMultiple(p, m, r);
  }

  lemma AddMultiple(p: nat, m: nat, v: nat)
    requires p > 0 && Divides(p, m)
    ensures (m + v) % p == v % p
  {
    assert m == p * (m / p);
    assert p * (m / p) + p * (v / p) == p * (m / p + v / p);
    ModUnique(p, m / p + v / p, v % p);
  }

  lemma SquareExpand(p: nat, x: nat, q: nat, r: nat)
    requires x == p * q + r
    ensures x * x == p * (q * x + r * q) + r * r
  {
    assert x * x == p * q * x + r * x;
    assert r * x == r * (p * q) + r * r;
    assert p * q * x == p * (q * x);
    assert r * (p * q) == p * (r * q);
    assert p * (q * x) + p * (r * q) == p * (q * x + r * q);
  }

  lemma SquareModulo(p: nat, x: nat)
    requires p > 0
    ensures (x * x + 1) % p == (x % p * (x % p) + 1) % p
  {
    var r, q := x % p, x / p;
    SquareExpand(p, x, q, r);
    var k, v, w := q * x + r * q, x * x + 1, r * r + 1;
    assert v == p * k + w;
    Multiple(p, k);
    AddMultiple(p, p * k, w);
  }

  lemma StepResidue(n: nat, p: nat, v: nat)
    requires n > 0 && p > 0 && Divides(p, n)
    ensures (v % n + 1) % n % p == (v + 1) % p
  {
    ModOfMod(n, p, v % n + 1);
    var m, w := n * (v / n), v % n + 1;
    assert v + 1 == m + w;
    DividesProduct(p, n, v / n);
    AddMultiple(p, m, w);
  }

  lemma {:induction false} WalkCongruent(n: nat, x0: nat, p: nat, a: nat, b: nat, j: nat)
    requires x0 < n && p > 0 && Divides(p, n)
    requires Walk(n, x0, a) % p == Walk(n, x0, b) % p
    ensures Walk(n, x0, a + j) % p == Walk(n, x0, b + j) % p
  {
    if j > 0 {
      WalkCongruent(n, x0, p, a, b, j - 1);
      StepCongruent(n, p, Walk(n, x0, a + j - 1), Walk(n, x0, b + j - 1));
    }
  }

  /** More values than residues: two of them coincide. */
  lemma Pigeonhole(s: seq<nat>, p: nat) returns (a: nat, b: nat)
    requires |s| > p && forall i :: 0 <= i < |s| ==> s[i] < p
    ensures a < b < |s| && s[a] == s[b]
  {
    if a', b' :| 0 <= a' < b' < |s| && s[a'] == s[b'] {
      a, b := a', b';
    } else {
      DistinctBelow(s, p);
      assert false;
    }
  }

  lemma {:induction false} DistinctBelow(s: seq<nat>, p: nat)
    requires forall i :: 0 <= i < |s| ==> s[i] < p
    requires forall i, j :: 0 <= i < j < |s| ==> s[i] != s[j]
    ensures |s| <= p
    decreases p
  {
    if s != [] {
      assert s[0] < p;
      if p - 1 in s {
        var i :| 0 <= i < |s| && s[i] == p - 1;
        DistinctBelow(s[..i] + s[i + 1..], p - 1);
      } else {
        DistinctBelow(s, p - 1);
      }
    }
  }

  /** Modulo p the walk meets the anchor of the block after M within that block,
      for any power of two M >= p. */
  lemma MeetsAnchor(n: nat, x0: nat, p: nat, e: nat) returns (i: nat)
    requires x0 < n && 0 < p <= Pow2(e) && Divides(p, n)
    ensures Pow2(e) < i <= 2 * Pow2(e) && Divides(p, Difference(n, x0, i))
  {
    var m := Pow2(e);
    var a, b := Pigeonhole(seq(p + 1, j requires 0 <= j => Walk(n, x0, j) % p), p);
    WalkCongruent(n, x0, p, a, b, m - 1 - a);
    i := m + (b - a);
    BlockOfPower(e, i);
    DifferenceResidue(n, p, Walk(n, x0, m - 1), Walk(n, x0, i - 1));
  }

  lemma DifferenceResidue(n: nat, p: nat, y: nat, x: nat)
    requires p > 0 && x < n && y < n && Divides(p, n) && y % p == x % p
    ensures Divides(p, (y + n - x) % n)
  {
    var v := y + n - x;
    assert v + p * (x / p) == n + p * (y / p);
    Multiple(p, y / p);
    Multiple(p, x / p);
    DividesSum(p, n, p * (y / p));
    DividesSum(p, p * (x / p), v);
    DividesMod(p, n, v);
  }

  /** Once p divides the batch it does so until the next gcd, which is then a hit. */
  lemma {:induction false} BatchKeeps(n: nat, x0: nat, p: nat, i: nat, top: nat) returns (c: nat)
    requires x0 < n && p > 1 && Divides(p, n) && 2 <= i <= top && IsCheck(top)
    requires Divides(p, Batch(n, x0, i))
    ensures i <= c <= top && Hit(n, x0, c)
    decreases top - i
  {
    if IsCheck(i) {
      GcdGreatest(p, Batch(n, x0, i), n);
      assert Gcd(Batch(n, x0, i), n) != 1;
      c := i;
    } else {
      BatchProduct(n, p, Batch(n, x0, i), Difference(n, x0, i + 1));
      c := BatchKeeps(n, x0, p, i + 1, top);
    }
  }

  lemma BatchProduct(n: nat, p: nat, z: nat, t: nat)
    requires n > 0 && p > 0 && Divides(p, n) && (Divides(p, z) || Divides(p, t))
    ensures Divides(p, z * t % n)
  {
    DividesProduct(p, z, t);
    DividesMod(p, n, z * t);
  }

  /** Detection bound: if n has a divisor 1 < p <= M for a power of two M, then the loop has
      left through a gcd by the time its counter is 2M. */
  lemma Detects(n: nat, x0: nat, p: nat, e: nat, limit: nat, h: nat)
    requires x0 < n && 1 < p <= Pow2(e) && Divides(p, n) && LeavesAt(n, x0, limit, h)
    ensures h <= 2 * Pow2(e)
  {
    var i := MeetsAnchor(n, x0, p, e);
    var top := 2 * Pow2(e);
    BlockOfPower(e, top);
    BatchProduct(n, p, if i == 2 || IsCheck(i - 1) then 1 else Batch(n, x0, i - 1), Difference(n, x0, i));
    var c := BatchKeeps(n, x0, p, i, top);
  }

  lemma {:induction false} PowerAbove(p: nat) returns (e: nat)
    requires p > 0
    ensures p <= Pow2(e) < 2 * p
  {
    if p == 1 {
      e := 0;
    } else {
      e := PowerAbove(p - 1);
      if Pow2(e) < p {
        e := e + 1;
      }
    }
  }

  /** ... and so before it reaches 4p. */
  lemma LeavesBefore4p(n: nat, x0: nat, p: nat, limit: nat, h: nat)
    requires x0 < n && p > 1 && Divides(p, n) && LeavesAt(n, x0, limit, h)
    ensures h < 4 * p
  {
    var e := PowerAbove(p);
    Detects(n, x0, p, e, limit, h);
  }

  lemma {:induction false} Pow2Sum(a: nat, b: nat)
    ensures Pow2(a + b) == Pow2(a) * Pow2(b)
  {
    if a > 0 {
      Pow2Sum(a - 1, b);
      var u, v := Pow2(a - 1), Pow2(b);
      assert 2 * u * v == 2 * (u * v);
    }
  }

  lemma Pow2Of30()
    ensures Pow2(30) == 0x4000_0000
  {
    assert Pow2(5) == 32;
    Pow2Sum(5, 5);
    Pow2Sum(10, 10);
    Pow2Sum(20, 10);
  }

  /** The limit is never reached when n has a divisor up to 2^30 ... */
  lemma NoBailOut(n: nat, x0: nat, p: nat, h: nat)
    requires x0 < n && 1 < p <= 0x4000_0000 && Divides(p, n) && LeavesAt(n, x0, LIMIT, h)
    ensures h < LIMIT
  {
    Pow2Of30();
    Detects(n, x0, p, 30, LIMIT, h);
  }

  lemma SquareGrows(a: nat, b: nat)
    requires a <= b
    ensures a * a <= b * b
  {
    assert a * a <= a * b <= b * b;
  }

  /** ... in particular for every composite n below 2^60. */
  lemma NoBailOutBelow2To60(n: nat, x0: nat, h: nat)
    requires x0 < n && 2 <= n < 0x1000_0000_0000_0000 && !IsPrime(n) && LeavesAt(n, x0, LIMIT, h)
    ensures h < LIMIT
  {
    var l := LeastFactor(n);
    LeastFactorSquare(n);
    if l > 0x4000_0000 {
      SquareGrows(0x4000_0000, l);
    }
    NoBailOut(n, x0, l, h);
  }

  // ---------- Walks modulo a divisor of the modulus ----------

  lemma StepReduces(n: nat, m: nat, x: nat)
    requires n > 0 && m > 0 && Divides(m, n)
    ensures Step(n, x) % m == Step(m, x % m)
  {
    var y := x % m;
    var v, w := x * x, y * y;
    SelfDivides(m);
    SquareModulo(m, x);
    hide Divides;
    StepIs(n, x);
    StepIs(m, y);
    StepResidue(n, m, v);
    StepResidue(m, m, w);
    ModTwice(m, w % m + 1);
  }

  lemma StepIs(n: nat, x: nat)
    requires n > 0
    ensures Step(n, x) == (x * x % n + 1) % n
  {
  }

  lemma ModTwice(m: nat, v: nat)
    requires m > 0
    ensures v % m % m == v % m
  {
  }

  /** Modulo m the walk is the walk modulo m ... */
  lemma {:induction false} WalkReduces(n: nat, m: nat, x0: nat, j: nat)
    requires x0 < n && m > 0 && Divides(m, n)
    ensures Walk(n, x0, j) % m == Walk(m, x0 % m, j)
  {
    if j > 0 {
      WalkReduces(n, m, x0, j - 1);
      StepReduces(n, m, Walk(n, x0, j - 1));
    }
  }

  lemma DifferenceResidues(n: nat, m: nat, y: nat, x: nat)
    requires m > 0 && x < n && y < n && Divides(m, n)
    ensures SubMod(n, y, x) % m == SubMod(m, y % m, x % m)
  {
    ModOfMod(n, m, y + n - x);
    Residues(n, m, y, x, n / m, y / m, y % m, x / m, x % m);
  }

  lemma Residues(n: nat, m: nat, y: nat, x: nat, q: nat, qy: nat, ry: nat, qx: nat, rx: nat)
    requires n == m * q && y == m * qy + ry && x == m * qx + rx
    requires rx < m && ry < m && x < n && y < n
    ensures (y + n - x) % m == (ry + m - rx) % m
  {
    var v: nat, w: nat := y + n - x, ry + m - rx;
    var a, b := m * (qx + 1), m * (qy + q);
    assert a == m * qx + m && b == m * qy + m * q;
    Multiple(m, qx + 1);
    Multiple(m, qy + q);
    AddMultiple(m, a, v);
    AddMultiple(m, b, w);
    assert a + v == b + w;
  }

  lemma DifferenceReduces(n: nat, m: nat, x0: nat, i: nat)
    requires x0 < n && m > 0 && Divides(m, n) && i >= 2
    ensures Difference(n, x0, i) % m == Difference(m, x0 % m, i)
  {
    hide Step, Walk, SubMod;
    WalkReduces(n, m, x0, Block(i) - 1);
    WalkReduces(n, m, x0, i - 1);
    DifferenceResidues(n, m, Walk(n, x0, Block(i) - 1), Walk(n, x0, i - 1));
  }

  lemma ProductReduces(n: nat, m: nat, z: nat, t: nat)
    requires n > 0 && m > 0 && Divides(m, n)
    ensures MulMod(n, z, t) % m == MulMod(m, z % m, t % m)
  {
    ModOfMod(n, m, z * t);
    MulModReduces(m, z, t % m);
    MulModReduces(m, t, z);
    assert t * z == z * t && t % m * z == z * (t % m);
  }

  /** ... and so is every batch. */
  lemma {:induction false} BatchReduces(n: nat, m: nat, x0: nat, i: nat)
    requires x0 < n && m > 0 && Divides(m, n) && i >= 2
    ensures Batch(n, x0, i) % m == Batch(m, x0 % m, i)
  {
    hide Difference, IsCheck, MulMod;
    var t := Difference(n, x0, i);
    DifferenceReduces(n, m, x0, i);
    if i == 2 || IsCheck(i - 1) {
      ProductReduces(n, m, 1, t);
      OneTimes(m, t % m);
    } else {
      BatchReduces(n, m, x0, i - 1);
      ProductReduces(n, m, Batch(n, x0, i - 1), t);
    }
  }

  lemma OneTimes(m: nat, t: nat)
    requires m > 0
    ensures MulMod(m, 1 % m, t) == MulMod(m, 1, t)
  {
    MulModReduces(m, 1, t);
  }

  // ---------- A modulus that rho can never split ----------

  /** How the walk modulo 25 moves modulo 5. */
  function NextModulo5(r: nat): nat {
    if r == 0 then 1 else if r == 1 || r == 4 then 2 else 0
  }

  /** The walk modulo 25 follows this map, and leaves a multiple of 5 for 1 itself. */
  lemma WalkModulo5(n: nat, x0: nat, j: nat)
    requires n == 25 && x0 < n
    ensures Walk(n, x0, j + 1) % 5 == NextModulo5(Walk(n, x0, j) % 5)
    ensures Walk(n, x0, j) % 5 == 0 ==> Walk(n, x0, j + 1) == 1
  {
    StepModulo5(n, Walk(n, x0, j));
  }

  lemma StepModulo5(n: nat, x: nat)
    requires n == 25
    ensures Step(n, x) % 5 == NextModulo5(x % 5)
    ensures x % 5 == 0 ==> Step(n, x) == 1
  {
    var v, r := x * x, x % 5;
    assert Divides(5, n);
    SquareModulo(5, x);
    StepResidue(n, 5, v);
    SquaresModulo5(r);
    if r == 0 {
      ZeroModulo25(x);
    }
  }

  lemma ZeroModulo25(x: nat)
    requires x % 5 == 0
    ensures x * x % 25 == 0
  {
    var a := x / 5;
    assert x * x == 25 * (a * a);
  }

  lemma SquaresModulo5(r: nat)
    requires r < 5
    ensures (r * r + 1) % 5 == NextModulo5(r)
  {
    assert r == 0 || r == 1 || r == 2 || r == 3 || r == 4;
  }

  lemma {:induction false} WalkInCycle(n: nat, x0: nat, j: nat)
    requires n == 25 && x0 < n && j >= 3
    ensures var x := Walk(n, x0, j); x == 1 || x == 2 || x == 5
  {
    assert Step(n, 1) == 2 && Step(n, 2) == 5 && Step(n, 5) == 1;
    if j == 3 {
      WalkModulo5(n, x0, j - 3);
      WalkModulo5(n, x0, j - 2);
      WalkModulo5(n, x0, j - 1);
    } else {
      WalkInCycle(n, x0, j - 1);
    }
  }

  lemma WalkPeriod(n: nat, x0: nat, j: nat)
    requires n == 25 && x0 < n && j >= 3
    ensures Walk(n, x0, j + 3) == Walk(n, x0, j)
  {
    assert Step(n, 1) == 2 && Step(n, 2) == 5 && Step(n, 5) == 1;
    WalkInCycle(n, x0, j);
    assert Walk(n, x0, j + 1) == Step(n, Walk(n, x0, j));
    assert Walk(n, x0, j + 2) == Step(n, Walk(n, x0, j + 1));
    assert Walk(n, x0, j + 3) == Step(n, Walk(n, x0, j + 2));
  }

  /** Neighbours, and neighbours but one, differ modulo 5. */
  lemma WalkApart(n: nat, x0: nat, j: nat)
    requires n == 25 && x0 < n
    ensures Walk(n, x0, j) % 5 != Walk(n, x0, j + 1) % 5
    ensures Walk(n, x0, j) % 5 != Walk(n, x0, j + 2) % 5
  {
    WalkModulo5(n, x0, j);
    WalkModulo5(n, x0, j + 1);
  }

  lemma CoprimeToSquare(p: nat, n: nat, v: nat)
    requires IsPrime(p) && n == p * p && !Divides(p, v)
    ensures Gcd(v % n, n) == 1
  {
    var g := Gcd(v % n, n);
    MultipleAtLeast(p, p);
    GcdDivides(v % n, n);
    Multiple(p, p);
    if g != 1 {
      var l := LeastFactor(g);
      LeastFactorIsPrime(g);
      DividesTransitive(l, g, n);
      Euclid(l, p, p);
      DivisorBound(l, p);
      DividesTransitive(p, g, v % n);
      DividesMod(p, n, v);
    }
  }

  lemma NonzeroProduct(p: nat, a: nat, b: nat)
    requires IsPrime(p) && !Divides(p, a) && !Divides(p, b)
    ensures !Divides(p, a * b)
  {
    if Divides(p, a * b) {
      Euclid(p, a, b);
    }
  }

  lemma DifferenceApart(n: nat, y: nat, x: nat)
    requires n == 25 && y < n && x < n && y % 5 != x % 5
    ensures !Divides(5, (y + n - x) % n)
  {
  }

  /** The batch at 2, 3 and 5 is a single difference; at 4 it is a product of two. */
  lemma BatchFirst(n: nat, x0: nat, i: nat)
    requires x0 < n && i >= 2 && (i == 2 || IsCheck(i - 1))
    ensures Batch(n, x0, i) == Difference(n, x0, i)
  {
    hide Difference, Walk, Step;
    var t := Difference(n, x0, i);
    assert 1 * t % n == t;
  }

  lemma FiveIsPrime()
    ensures IsPrime(5)
  {
  }

  lemma QuietAt2(n: nat, x0: nat)
    requires n == 25 && x0 < n
    ensures !Hit(n, x0, 2)
  {
    hide Step, Walk, Gcd, IsPrime, Divides;
    FiveIsPrime();
    WalkApart(n, x0, 0);
    DifferenceApart(n, Walk(n, x0, 0), Walk(n, x0, 1));
    var d := Difference(n, x0, 2);
    CoprimeToSquare(5, n, d);
    BatchFirst(n, x0, 2);
    assert d % n == d;
  }

  lemma QuietAt4(n: nat, x0: nat)
    requires n == 25 && x0 < n
    ensures !Hit(n, x0, 4)
  {
    hide Step, Walk, Gcd, IsPrime, Divides;
    FiveIsPrime();
    assert Block(3) == 2 && Block(4) == 2;
    WalkApart(n, x0, 1);
    DifferenceApart(n, Walk(n, x0, 1), Walk(n, x0, 2));
    DifferenceApart(n, Walk(n, x0, 1), Walk(n, x0, 3));
    var d3, d4 := Difference(n, x0, 3), Difference(n, x0, 4);
    NonzeroProduct(5, d3, d4);
    CoprimeToSquare(5, n, d3 * d4);
    BatchFirst(n, x0, 3);
    assert Batch(n, x0, 4) == d3 * d4 % n;
  }

  lemma BatchOf8(n: nat, x0: nat)
    requires n == 25 && x0 < n
    ensures Batch(n, x0, 8) == 0
  {
    hide Step, Walk, Batch;
    WalkPeriod(n, x0, 3);
    assert Block(7) == 4 && Block(6) == 4 && Block(8) == 4;
    assert Difference(n, x0, 7) == 0;
    BatchZero(n, x0, 7);
    BatchZero(n, x0, 8);
  }

  lemma BatchZero(n: nat, x0: nat, i: nat)
    requires x0 < n && i > 2 && !IsCheck(i - 1)
    requires Batch(n, x0, i - 1) == 0 || Difference(n, x0, i) == 0
    ensures Batch(n, x0, i) == 0
  {
    hide Difference, Walk, Step, Block, IsCheck;
    var z, t := Batch(n, x0, i - 1), Difference(n, x0, i);
    assert z * t == 0;
  }

  // ---------- Moduli in which the two fives stay together ----------

  lemma NotBothFives(x0: nat, i: nat)
    requires x0 < 25 && (i == 2 || i == 4)
    ensures !Divides(5, Batch(25, x0, i))
  {
    QuietAt2(25, x0);
    QuietAt4(25, x0);
    hide Batch;
    assert Block(3) == 2 && IsCheck(i);
    if Divides(5, Batch(25, x0, i)) {
      assert Divides(5, 25);
      GcdGreatest(5, Batch(25, x0, i), 25);
    }
  }

  lemma ChecksUpTo8(h: nat)
    requires 2 <= h <= 8 && IsCheck(h)
    ensures h == 2 || h == 4 || h == 8
  {
    assert Block(3) == 2 && Block(5) == 4 && Block(6) == 4 && Block(7) == 4;
  }

  /** When 25 divides n, the gcd that ends the loop holds either no 5 or both of them. */
  lemma FivesTogether(n: nat, x0: nat, limit: nat, h: nat)
    requires x0 < n && Divides(25, n) && limit > 8 && LeavesAt(n, x0, limit, h)
    ensures h <= 8 && IsCheck(h)
    ensures h < 8 ==> !Divides(5, Batch(n, x0, h))
    ensures h == 8 ==> Divides(25, Batch(n, x0, h))
  {
    var m := 25;
    hide Walk, Step, Batch, Difference, Gcd;
    BatchReduces(n, m, x0, 8);
    BatchOf8(m, x0 % m);
    assert Divides(m, Batch(n, x0, 8));
    GcdGreatest(m, Batch(n, x0, 8), n);
    assert Block(8) == 4;
    HitByDivisor(n, x0, 8, m);
    assert h <= 8;
    assert Hit(n, x0, h);
    ChecksUpTo8(h);
    if h < 8 {
      BatchReduces(n, m, x0, h);
      NotBothFives(x0 % m, h);
      FiveOrTwentyFive(Batch(n, x0, h));
    }
  }

  lemma HitByDivisor(n: nat, x0: nat, i: nat, m: nat)
    requires x0 < n && i >= 2 && IsCheck(i) && m > 1 && Divides(m, n) && Divides(m, Batch(n, x0, i))
    ensures Hit(n, x0, i)
  {
    hide Batch, IsCheck, Gcd;
    GcdGreatest(m, Batch(n, x0, i), n);
    DivisorBound(m, Gcd(Batch(n, x0, i), n));
  }

  lemma FiveOrTwentyFive(v: nat)
    ensures Divides(5, v) <==> Divides(5, v % 25)
  {
    assert Divides(5, 25);
    DividesMod(5, 25, v);
  }

  lemma GcdParts(n: nat, x0: nat, h: nat, d: nat)
    requires x0 < n && h >= 2 && d > 0 && Divides(d, n)
    ensures Gcd(Batch(n, x0, h), n) > 0
    ensures Divides(d, Gcd(Batch(n, x0, h), n)) <==> Divides(d, Batch(n, x0, h))
  {
    hide Batch;
    var b := Batch(n, x0, h);
    var g := Gcd(b, n);
    GcdDivides(b, n);
    if Divides(d, b) {
      GcdGreatest(d, b, n);
    } else if Divides(d, g) {
      DividesTransitive(d, g, b);
    }
  }

  /** From every start, the first hit modulo 25 is the useless gcd 25: the call fails. */
  lemma NeverSplits25(n: nat, x0: nat, limit: nat, h: nat)
    requires n == 25 && x0 < n && limit > 8 && LeavesAt(n, x0, limit, h)
    ensures RhoValue(n, x0, limit, h) == 0
  {
    hide Walk, Step, Batch, Difference, Gcd;
    FivesTogether(n, x0, limit, h);
    var g := Gcd(Batch(n, x0, h), n);
    GcdParts(n, x0, h, 5);
    GcdParts(n, x0, h, 25);
    GcdRange(Batch(n, x0, h), n);
    DivisorsOf25(g);
  }

  lemma DivisorsOf25(g: nat)
    requires 0 < g && Divides(g, 25)
    ensures g == 1 || g == 25 || Divides(5, g)
    ensures Divides(25, g) ==> g == 25
  {
    DivisorBound(g, 25);
  }

  lemma StepModulo3(x: nat)
    requires x < 3
    ensures Step(3, x) == if x == 0 then 1 else 2
  {
    assert x == 0 || x == 1 || x == 2;
  }

  lemma {:induction false} WalkModulo3(x0: nat, j: nat)
    requires x0 < 3 && j >= 2
    ensures Walk(3, x0, j) == 2
  {
    hide Step;
    if j == 2 {
      StepModulo3(x0);
      assert Walk(3, x0, 1) == Step(3, x0);
      StepModulo3(Walk(3, x0, 1));
    } else {
      WalkModulo3(x0, j - 1);
      StepModulo3(2);
    }
  }

  lemma BatchOf8Modulo3(x0: nat)
    requires x0 < 3
    ensures Batch(3, x0, 8) == 0
  {
    assert Block(5) == 4 && Block(6) == 4 && Block(7) == 4 && Block(8) == 4;
    WalkModulo3(x0, 3);
    WalkModulo3(x0, 4);
    hide Walk, Step, Batch;
    assert Difference(3, x0, 5) == 0;
    BatchFirst(3, x0, 5);
    BatchZero(3, x0, 6);
    BatchZero(3, x0, 7);
    BatchZero(3, x0, 8);
  }

  /** From every start, a call on 75 returns 3 or fails: it leaves 25 behind. */
  lemma OnlyThreeOutOf75(n: nat, x0: nat, limit: nat, h: nat)
    requires n == 75 && x0 < n && limit > 8 && LeavesAt(n, x0, limit, h)
    ensures RhoValue(n, x0, limit, h) == 0 || RhoValue(n, x0, limit, h) == 3
  {
    var m := 3;
    BatchReduces(n, m, x0, 8);
    BatchOf8Modulo3(x0 % m);
    hide Walk, Step, Batch, Difference, Gcd;
    FivesTogether(n, x0, limit, h);
    GcdParts(n, x0, h, 5);
    GcdParts(n, x0, h, 25);
    GcdParts(n, x0, h, m);
    var g := Gcd(Batch(n, x0, h), n);
    GcdRange(Batch(n, x0, h), n);
    DivisorsOf75(g);
  }

  lemma DivisorsOf75(g: nat)
    requires 0 < g && Divides(g, 75)
    ensures g == 1 || g == 3 || Divides(5, g)
    ensures Divides(25, g) && Divides(3, g) ==> g == 75
  {
    DivisorBound(g, 75);
  }

  // ---------- A modulus on which the start decides ----------

  lemma WalkNext(n: nat, x0: nat, j: nat, x: nat, x': nat)
    requires x0 < n && Walk(n, x0, j) == x && x' == (x * x % n + 1) % n
    ensures Walk(n, x0, j + 1) == x'
  {
  }

  lemma DifferenceIs(n: nat, x0: nat, i: nat, b: nat, y: nat, x: nat)
    requires x0 < n && i >= 2 && Block(i) == b && Walk(n, x0, b - 1) == y && Walk(n, x0, i - 1) == x
    ensures Difference(n, x0, i) == (y + n - x) % n
  {
  }

  lemma BatchNext(n: nat, x0: nat, i: nat, z: nat, t: nat, q: nat, r: nat)
    requires x0 < n && i > 2 && !IsCheck(i - 1) && Batch(n, x0, i - 1) == z && Difference(n, x0, i) == t
    requires z * t == q * n + r && r < n
    ensures Batch(n, x0, i) == r
  {
    hide Difference, IsCheck;
    ModUnique(n, q, r);
  }

  lemma BlocksUpTo8()
    ensures Block(2) == 1 && Block(3) == 2 && Block(4) == 2
    ensures Block(5) == 4 && Block(6) == 4 && Block(7) == 4 && Block(8) == 4
    ensures IsCheck(2) && !IsCheck(3) && IsCheck(4) && !IsCheck(5) && !IsCheck(6) && !IsCheck(7) && IsCheck(8)
  {
    assert Block(3) == 2 && Block(5) == 4 && Block(6) == 4 && Block(7) == 4;
  }

  lemma WalkFrom3(n: nat)
    requires n == 275
    ensures Walk(n, 3, 0) == 3 && Walk(n, 3, 1) == 10 && Walk(n, 3, 2) == 101 && Walk(n, 3, 3) == 27
    ensures Walk(n, 3, 4) == 180 && Walk(n, 3, 5) == 226 && Walk(n, 3, 6) == 202 && Walk(n, 3, 7) == 105
  {
    assert Walk(n, 3, 0) == 3;
    hide Walk;
    WalkNext(n, 3, 0, 3, 10);
    WalkNext(n, 3, 1, 10, 101);
    WalkNext(n, 3, 2, 101, 27);
    WalkNext(n, 3, 3, 27, 180);
    WalkNext(n, 3, 4, 180, 226);
    WalkNext(n, 3, 5, 226, 202);
    WalkNext(n, 3, 6, 202, 105);
  }

  lemma DifferencesFrom3(n: nat)
    requires n == 275
    ensures Difference(n, 3, 2) == 268 && Difference(n, 3, 3) == 184 && Difference(n, 3, 4) == 258
    ensures Difference(n, 3, 5) == 122 && Difference(n, 3, 6) == 76
    ensures Difference(n, 3, 7) == 100 && Difference(n, 3, 8) == 197
  {
    WalkFrom3(n);
    BlocksUpTo8();
    hide Walk, Block, IsCheck, Difference;
    DifferenceIs(n, 3, 2, 1, 3, 10);
    DifferenceIs(n, 3, 3, 2, 10, 101);
    DifferenceIs(n, 3, 4, 2, 10, 27);
    DifferenceIs(n, 3, 5, 4, 27, 180);
    DifferenceIs(n, 3, 6, 4, 27, 226);
    DifferenceIs(n, 3, 7, 4, 27, 202);
    DifferenceIs(n, 3, 8, 4, 27, 105);
  }

  lemma BatchesFrom3(n: nat)
    requires n == 275
    ensures Batch(n, 3, 2) == 268 && Batch(n, 3, 4) == 172 && Batch(n, 3, 8) == 100
  {
    DifferencesFrom3(n);
    BlocksUpTo8();
    hide Walk, Block, IsCheck, Batch, Difference;
    BatchFirst(n, 3, 2);
    BatchFirst(n, 3, 3);
    BatchNext(n, 3, 4, 184, 258, 172, 172);
    LastBatchFrom3(n);
  }

  lemma LastBatchFrom3(n: nat)
    requires n == 275
    ensures Batch(n, 3, 8) == 100
  {
    DifferencesFrom3(n);
    BlocksUpTo8();
    hide Walk, Block, IsCheck, Batch, Difference;
    BatchFirst(n, 3, 5);
    BatchNext(n, 3, 6, 122, 76, 33, 197);
    BatchNext(n, 3, 7, 197, 100, 71, 175);
    BatchNext(n, 3, 8, 175, 197, 125, 100);
  }

  lemma BatchesFrom4(n: nat)
    requires n == 275
    ensures Batch(n, 4, 2) == 262 && Batch(n, 4, 4) == 132
  {
    BlocksUpTo8();
    assert Walk(n, 4, 0) == 4;
    hide Walk, Block, IsCheck, Batch, Difference;
    WalkNext(n, 4, 0, 4, 17);
    WalkNext(n, 4, 1, 17, 15);
    WalkNext(n, 4, 2, 15, 226);
    DifferenceIs(n, 4, 2, 1, 4, 17);
    DifferenceIs(n, 4, 3, 2, 17, 15);
    DifferenceIs(n, 4, 4, 2, 17, 226);
    BatchFirst(n, 4, 2);
    BatchFirst(n, 4, 3);
    BatchNext(n, 4, 4, 2, 66, 0, 132);
  }

  lemma GcdsFrom3()
    ensures Gcd(268, 275) == 1 && Gcd(172, 275) == 1 && Gcd(100, 275) == 25
  {
    assert Gcd(7, 2) == 1 && Gcd(34, 1) == 1 && Gcd(75, 25) == 25;
    assert Gcd(275, 268) == 1 && Gcd(103, 69) == 1;
    assert Gcd(275, 172) == 1 && Gcd(275, 100) == 25;
  }

  lemma GcdsFrom4()
    ensures Gcd(262, 275) == 1 && Gcd(132, 275) == 11
  {
    assert Gcd(13, 2) == 1 && Gcd(132, 11) == 11;
    assert Gcd(275, 262) == 1 && Gcd(275, 132) == 11;
  }

  /** On 275 the start decides what is found: from 3 it is the 25, from 4 the 11. */
  lemma StartDecidesOn275(n: nat, limit: nat)
    requires n == 275 && limit > 8
    ensures RhoAnswer(n, 3, limit) == 25 && RhoAnswer(n, 4, limit) == 11
  {
    BatchesFrom3(n);
    BatchesFrom4(n);
    BlocksUpTo8();
    GcdsFrom3();
    GcdsFrom4();
    hide Batch, Gcd, IsCheck, RhoAnswer, FirstHit;
    forall c | 2 <= c < 8
      ensures !Hit(n, 3, c)
    {
      assert c == 2 || c == 3 || c == 4 || c == 5 || c == 6 || c == 7;
    }
    assert LeavesAt(n, 3, limit, 8);
    LeavesOnce(n, 3, limit, 8);
    forall c | 2 <= c < 4
      ensures !Hit(n, 4, c)
    {
      assert c == 2 || c == 3;
    }
    assert LeavesAt(n, 4, limit, 4);
    LeavesOnce(n, 4, limit, 4);
  }
}
