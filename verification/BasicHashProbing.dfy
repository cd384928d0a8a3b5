/** The two probing styles of CFBasicHashFindBucket.m that take a second hash: each visits every bucket once. */
module BasicHashProbing {
  import opened Bytes
  import opened BasicHashTable
  import opened BasicHashStores

  ghost predicate Prime(n: nat) {
    n >= 2 && forall d: nat :: 1 < d < n ==> n % d != 0
  }

  // ------------------------------------------------------- arithmetic modulo a prime

  lemma {:induction false} NoZeroProduct(n: nat, j: nat, h: nat)
    requires Prime(n) && 0 < j < n && 0 < h < n
    ensures j * h % n != 0
    decreases j
  {
    if j > 1 {
      var q, r := n / j, n % j;
      DivMod(n, j);
      NoZeroProduct(n, r, h);
      if j * h % n == 0 {
        var m := j * h / n;
        DivMod(j * h, n);
        LessOfBoth(n, h, q, j, r, m);
        Remainder(r * h, n, h - q * m, 0);
      }
    } else {
      Remainder(h, n, 0, h);
    }
  }

  lemma LessOfBoth(n: nat, h: nat, q: nat, j: nat, r: nat, m: nat)
    requires n == q * j + r && j * h == m * n
    ensures r * h == (h - q * m) * n
  {
    assert n * h == q * (j * h) + r * h;
    assert q * (m * n) == (q * m) * n;
    assert (h - q * m) * n == h * n - (q * m) * n;
  }

  lemma SameRemainder(a: nat, b: nat, n: nat)
    requires n > 0 && a <= b && a % n == b % n
    ensures (b - a) % n == 0
  {
    DivMod(a, n);
    DivMod(b, n);
    assert b - a == (b / n - a / n) * n;
    Remainder(b - a, n, b / n - a / n, 0);
  }

  lemma Cancel(n: nat, a: nat, b: nat, c: nat)
    requires Prime(n) && a < n && b < n && 0 < c < n && a * c % n == b * c % n
    ensures a == b
  {
    if a < b {
      Apart(n, a, b, c);
    } else if b < a {
      Apart(n, b, a, c);
    }
  }

  lemma Apart(n: nat, a: nat, b: nat, c: nat)
    requires Prime(n) && a < b < n && 0 < c < n
    ensures a * c % n != b * c % n
  {
    assert b * c - a * c == (b - a) * c;
    Sign(b - a, c);
    if a * c % n == b * c % n {
      SameRemainder(a * c, b * c, n);
    }
    NoZeroProduct(n, b - a, c);
  }

  // -------------------------------------------------------------- distinct buckets

  ghost predicate Distinct(p: seq<nat>) {
    forall i: nat, j: nat :: i < j < |p| ==> p[i] != p[j]
  }

  /** As many different buckets as there are make a tour of all. */
  lemma DistinctPermutes(p: seq<nat>, n: nat)
    requires |p| == n && Distinct(p) && forall j: nat :: j < n ==> p[j] < n
    ensures Permutes(p, n)
  {
    Visited(p);
    forall i: nat | i < n
      ensures i in p
    {
      if i !in p {
        SubsetSize(Buckets(p), Below(n) - {i});
      }
    }
  }

  lemma FirstOnce(p: seq<nat>)
    requires Distinct(p) && p != []
    ensures Distinct(p[1..]) && p[0] !in p[1..]
  {
    assert forall i: nat :: i < |p[1..]| ==> p[1..][i] == p[i + 1];
  }

  lemma {:induction false} Visited(p: seq<nat>)
    requires Distinct(p)
    ensures |Buckets(p)| == |p|
  {
    hide Distinct;
    if p != [] {
      FirstOnce(p);
      Visited(p[1..]);
    }
  }

  /** A tour of all meets none twice. */
  lemma PermutesDistinct(p: seq<nat>, n: nat)
    requires Permutes(p, n)
    ensures Distinct(p)
  {
    forall i: nat, j: nat | i < j < n
      ensures p[i] != p[j]
    {
      if p[i] == p[j] {
        var rest := p[..j] + p[j + 1..];
        Without(p, j, i);
        forall b: nat | b < n
          ensures b in Buckets(rest)
        {
          assert b in p;
        }
        SubsetSize(Below(n), Buckets(rest));
        AtMostOnce(rest);
      }
    }
  }

  /** A bucket met again can be left out. */
  lemma Without(p: seq<nat>, j: nat, i: nat)
    requires i < j < |p| && p[i] == p[j]
    ensures forall b :: b in p ==> b in p[..j] + p[j + 1..]
  {
    var rest := p[..j] + p[j + 1..];
    forall b | b in p
      ensures b in rest
    {
      var k: nat :| k < |p| && p[k] == b;
      if k < j {
        assert rest[k] == b;
      } else if k == j {
        assert rest[i] == b;
      } else {
        assert rest[k - 1] == b;
      }
    }
  }

  lemma {:induction false} AtMostOnce(p: seq<nat>)
    ensures |Buckets(p)| <= |p|
  {
    if p != [] {
      AtMostOnce(p[1..]);
    }
  }

  // ------------------------------------------------------------------ the two styles

  /** h2: never 0. */
  function SecondHash(hash: nat, n: nat): nat
    requires n > 0
  {
    var h2 := hash / n % n;
    if h2 == 0 then n - 1 else h2
  }

  lemma SecondHashRange(hash: nat, n: nat)
    requires n > 1
    ensures 0 < SecondHash(hash, n) < n
  {
    DivMod(hash / n, n);
  }

  /** The buckets double hashing visits. */
  function DoubleProbe(hash: nat, n: nat): seq<nat>
    requires n > 0
  {
    Steps(hash, SecondHash(hash, n), n)
  }

  /** Steps of the same width from a hash on. */
  function Steps(hash: nat, h2: nat, n: nat): seq<nat>
    requires n > 0
  {
    seq(n, i requires 0 <= i < n => DoubleStep(hash, h2, n, i))
  }

  function DoubleStep(hash: nat, h2: nat, n: nat, i: nat): nat
    requires n > 0
  {
    Sign(i, h2);
    (hash % n + i * h2) % n
  }

  /** Its step is the code's step, and if the number of buckets is a prime, it goes everywhere. */
  lemma DoubleVisitsAll(hash: nat, n: nat)
    requires Prime(n)
    ensures Permutes(DoubleProbe(hash, n), n)
    ensures DoubleProbe(hash, n)[0] == hash % n
    ensures var h2 := if hash / n % n == 0 then n - 1 else hash / n % n;
      forall j: nat :: j + 1 < n ==>
        DoubleProbe(hash, n)[j + 1] == (var q := DoubleProbe(hash, n)[j] + h2; if n <= q then q - n else q)
  {
    var p, h2 := DoubleProbe(hash, n), SecondHash(hash, n);
    SecondHashRange(hash, n);
    StepsVisitAll(hash, h2, n);
    hide DoubleStep, Prime, Permutes, SecondHash;
    forall j: nat | j + 1 < n
      ensures p[j + 1] == if n <= p[j] + h2 then p[j] + h2 - n else p[j] + h2
    {
      DoubleNext(hash, h2, n, j);
    }
    DoubleStart(hash, h2, n);
  }

  lemma StepsVisitAll(hash: nat, h2: nat, n: nat)
    requires Prime(n) && 0 < h2 < n
    ensures Permutes(Steps(hash, h2, n), n)
  {
    var p := Steps(hash, h2, n);
    hide DoubleStep, Prime, Permutes;
    forall i: nat, j: nat | i < j < n
      ensures p[i] != p[j]
    {
      DoubleStepsDiffer(hash, h2, n, i, j);
    }
    forall j: nat | j < n
      ensures p[j] < n
    {
      DoubleNext(hash, h2, n, j);
    }
    DistinctPermutes(p, n);
  }

  lemma DoubleStart(hash: nat, h2: nat, n: nat)
    requires n > 0
    ensures DoubleStep(hash, h2, n, 0) == hash % n
  {
    DivMod(hash, n);
    Remainder(hash % n, n, 0, hash % n);
  }

  lemma DoubleNext(hash: nat, h2: nat, n: nat, i: nat)
    requires h2 < n
    ensures var b := DoubleStep(hash, h2, n, i);
      b < n && DoubleStep(hash, h2, n, i + 1) == if n <= b + h2 then b + h2 - n else b + h2
  {
    Sign(i, h2);
    var a := hash % n + i * h2;
    OneMore(i, h2);
    hide *;
    WrapAround(a, h2, n);
    DivMod(a, n);
  }

  lemma OneMore(i: nat, h2: nat)
    ensures (i + 1) * h2 == i * h2 + h2
  {
  }

  lemma DoubleStepsDiffer(hash: nat, h2: nat, n: nat, i: nat, j: nat)
    requires Prime(n) && 0 < h2 < n && i < j < n
    ensures DoubleStep(hash, h2, n, i) != DoubleStep(hash, h2, n, j)
  {
    Sign(i, h2);
    Sign(j - i, h2);
    assert j * h2 == i * h2 + (j - i) * h2;
    NoZeroProduct(n, j - i, h2);
    if DoubleStep(hash, h2, n, i) == DoubleStep(hash, h2, n, j) {
      SameRemainder(hash % n + i * h2, hash % n + j * h2, n);
    }
  }

  function Power(b: nat, k: nat): nat {
    if k == 0 then 1 else b * Power(b, k - 1)
  }

  /** Its powers below the last are not 1. */
  ghost predicate PrimitiveRoot(pr: nat, n: nat) {
    1 < pr < n && forall k: nat :: 0 < k < n - 1 ==> Power(pr, k) % n != 1
  }

  /** `acc` after `k - 1` rounds. */
  function Acc(pr: nat, n: nat, k: nat): nat
    requires n > 0
  {
    if k <= 1 then pr
    else
      Sign(Acc(pr, n, k - 1), pr);
      Acc(pr, n, k - 1) * pr % n
  }

  /** It is a power of the root, and no multiple of the prime. */
  lemma {:induction false} AccIsPower(pr: nat, n: nat, k: nat)
    requires Prime(n) && 0 < pr < n && k > 0
    ensures 0 < Acc(pr, n, k) < n && Acc(pr, n, k) == Power(pr, k) % n
  {
    if k == 1 {
      assert Power(pr, 1) == pr * Power(pr, 0) == pr;
      Remainder(pr, n, 0, pr);
    } else {
      AccIsPower(pr, n, k - 1);
      NoZeroProduct(n, Acc(pr, n, k - 1), pr);
      TimesRemainder(Power(pr, k - 1), pr, n);
      DivMod(Acc(pr, n, k - 1) * pr, n);
    }
  }

  /** Whether a factor is reduced before or after. */
  lemma TimesRemainder(a: nat, b: nat, n: nat)
    requires n > 0
    ensures a % n * b % n == b * a % n
  {
    var q, r := a / n, a % n;
    DivMod(a, n);
    Sign(r, b);
    DivMod(r * b, n);
    assert b * (q * n + r) == (b * q) * n + r * b;
    assert (b * q) * n + (r * b / n) * n == (b * q + r * b / n) * n;
    Sign(b, a);
    Remainder(b * a, n, b * q + r * b / n, r * b % n);
  }

  lemma {:induction false} AccsDiffer(pr: nat, n: nat, i: nat, k: nat)
    requires Prime(n) && PrimitiveRoot(pr, n) && 0 < i < k < n
    ensures Acc(pr, n, i) != Acc(pr, n, k)
  {
    AccIsPower(pr, n, k - 1);
    if Acc(pr, n, i) == Acc(pr, n, k) {
      if i == 1 {
        Remainder(pr, n, 0, pr);
        Cancel(n, 1, Acc(pr, n, k - 1), pr);
      } else {
        AccIsPower(pr, n, i - 1);
        AccsDiffer(pr, n, i - 1, k - 1);
        Cancel(n, Acc(pr, n, i - 1), Acc(pr, n, k - 1), pr);
      }
    }
  }

  // ------------------------------------------------------------- exponential hashing

  /** The code's `acc` after `k - 1` rounds, in 64 bits. */
  function CodeAcc(pr: nat, n: nat, k: nat): nat
    requires n > 0
  {
    if k <= 1 then pr else CodeAcc(pr, n, k - 1) * pr % TWO_64 % n
  }

  /** The buckets exponential hashing visits. */
  function ExponentialProbe(hash: nat, pr: nat, n: nat): seq<nat>
    requires n > 0
  {
    seq(n, i requires 0 <= i < n => ExponentialStep(hash, SecondHash(hash, n), pr, n, i))
  }

  /** The sum and the product wrap around in 64 bits before they are reduced. */
  function ExponentialStep(hash: nat, h2: nat, pr: nat, n: nat, i: nat): nat
    requires n > 0
  {
    if i == 0 then hash % n
    else
      Sign(h2, CodeAcc(pr, n, i));
      (hash % n + h2 * CodeAcc(pr, n, i)) % TWO_64 % n
  }

  /** A prime number of buckets with a root, small enough for one wrap at most and none in `acc`. */
  ghost predicate Suited(pr: nat, n: nat) {
    Prime(n) && PrimitiveRoot(pr, n) && pr * n <= TWO_64 && n * n < 2 * TWO_64
  }

  lemma {:induction false} CodeAccIsAcc(pr: nat, n: nat, k: nat)
    requires Suited(pr, n) && k > 0
    ensures CodeAcc(pr, n, k) == Acc(pr, n, k) && 0 < Acc(pr, n, k) < n
  {
    hide Suited;
    SuitedRoot(pr, n);
    AccIsPower(pr, n, k);
    if k > 1 {
      CodeAccIsAcc(pr, n, k - 1);
      hide Prime, PrimitiveRoot, Power;
      NoWrap(Acc(pr, n, k - 1), pr, n);
    }
  }

  /** As long as nothing wraps, the buckets are those of the formula the code documents. */
  lemma ExponentialFormula(hash: nat, pr: nat, n: nat, i: nat)
    requires Suited(pr, n) && i < n && n * n + n <= TWO_64
    ensures var h2 := if hash / n % n == 0 then n - 1 else hash / n % n;
      ExponentialProbe(hash, pr, n)[i] == if i == 0 then hash % n else (hash % n + h2 * (Power(pr, i) % n)) % n
  {
    SuitedRoot(pr, n);
    var h2, f := SecondHash(hash, n), CodeAcc(pr, n, i);
    if i > 0 {
      CodeAccIsAcc(pr, n, i);
      AccIsPower(pr, n, i);
      SecondHashRange(hash, n);
      DivMod(hash, n);
      hide CodeAcc, Acc, Power, Prime, PrimitiveRoot, Suited, SecondHash;
      assert f == Power(pr, i) % n;
      NoOverflow(hash % n, h2, f, n);
    }
  }

  lemma NoOverflow(a: nat, b: nat, c: nat, n: nat)
    requires a < n && b < n && c < n && n * n + n <= TWO_64
    ensures 0 <= b * c && a + b * c < TWO_64 && (a + b * c) % TWO_64 == a + b * c
  {
    LessProduct(b, c, n);
  }

  lemma {:induction false} LessProduct(b: nat, c: nat, n: nat)
    requires b < n && c < n
    ensures 0 <= b * c <= n * n
  {
    Sign(b, c);
    Sign(n - b, c);
    Sign(n, n - c);
    assert n * c == b * c + (n - b) * c;
    assert n * n == n * c + n * (n - c);
  }

  lemma SuitedRoot(pr: nat, n: nat)
    requires Suited(pr, n)
    ensures Prime(n) && PrimitiveRoot(pr, n) && 1 < pr < n && pr * n <= TWO_64
  {
  }

  lemma NoWrap(acc: nat, pr: nat, n: nat)
    requires acc < n && 0 < pr && pr * n <= TWO_64
    ensures 0 <= acc * pr && acc * pr % TWO_64 == acc * pr
  {
    Sign(acc, pr);
    Sign(n - acc - 1, pr);
    assert pr * n == acc * pr + (n - acc - 1) * pr + pr;
    Remainder(acc * pr, TWO_64, 0, acc * pr);
  }

  /** How many steps of width h2 a step of exponential hashing is worth. */
  function Factor(pr: nat, n: nat, i: nat): nat
    requires n > 0
  {
    if i == 0 then 0 else Acc(pr, n, i)
  }

  lemma FactorsDiffer(pr: nat, n: nat, i: nat, j: nat)
    requires Suited(pr, n) && i < j < n
    ensures Factor(pr, n, i) != Factor(pr, n, j) && Factor(pr, n, j) < n && Factor(pr, n, i) < n
  {
    AccIsPower(pr, n, j);
    if i > 0 {
      AccIsPower(pr, n, i);
      AccsDiffer(pr, n, i, j);
    }
  }

  /** The powers of the root are all the numbers of steps there are. */
  lemma FactorTakes(pr: nat, n: nat, v: nat) returns (i: nat)
    requires Suited(pr, n) && v < n
    ensures i < n && Factor(pr, n, i) == v
  {
    PrimeSize(n);
    var p: seq<nat> := seq(n, i requires 0 <= i < n => Factor(pr, n, i));
    forall i: nat, j: nat | i < j < n
      ensures p[i] != p[j]
    {
      FactorsDiffer(pr, n, i, j);
    }
    forall j: nat | j < n
      ensures p[j] < n
    {
      if j > 0 {
        FactorsDiffer(pr, n, 0, j);
      }
    }
    DistinctPermutes(p, n);
    assert v in p;
    i :| i < |p| && p[i] == v;
  }

  lemma PrimeSize(n: nat)
    requires Prime(n)
    ensures n > 1
  {
  }

  /** What is reduced to a bucket, before it wraps around. */
  function Reach(hash: nat, h2: nat, pr: nat, n: nat, i: nat): nat
    requires n > 0
  {
    Sign(Factor(pr, n, i), h2);
    hash % n + Factor(pr, n, i) * h2
  }

  /** One number and another in the place of its remainder, one turn after `n`. */
  function Plus(b: nat, c: nat, n: nat): nat
    requires c < n
  {
    if n <= b + c then b + c - n else b + c
  }

  /** The width of 64 bits, in steps back. */
  function WordShift(n: nat): nat
    requires n > 0
  {
    n - TWO_64 % n
  }

  /** A step that wraps around lands the width of 64 bits off. */
  lemma StepLands(hash: nat, h2: nat, pr: nat, n: nat, i: nat)
    requires Suited(pr, n) && 0 < h2 < n && i < n
    ensures 0 < WordShift(n) < n && DoubleStep(hash, h2, n, Factor(pr, n, i)) < n
    ensures ExponentialStep(hash, h2, pr, n, i) ==
      var b := DoubleStep(hash, h2, n, Factor(pr, n, i));
      if Reach(hash, h2, pr, n, i) < TWO_64 then b else Plus(b, WordShift(n), n)
  {
    hide Suited, Prime, PrimitiveRoot, CodeAcc, Acc, WordShift, Plus;
    SuitedRoot(pr, n);
    NoPowerOfTwo(pr, n);
    ReachBound(hash, h2, pr, n, i);
    var x := Reach(hash, h2, pr, n, i);
    if i > 0 {
      CodeAccIsAcc(pr, n, i);
      assert Acc(pr, n, i) * h2 == h2 * Acc(pr, n, i);
    } else {
      DivMod(hash, n);
      Remainder(hash % n, n, 0, hash % n);
    }
    DivMod(x, n);
    Landing(x, n);
  }

  lemma Landing(x: nat, n: nat)
    requires n > 0 && x < 2 * TWO_64 && TWO_64 % n != 0
    ensures 0 < WordShift(n) < n
    ensures x % TWO_64 % n == if x < TWO_64 then x % n else Plus(x % n, WordShift(n), n)
  {
    DivMod(TWO_64, n);
    if x < TWO_64 {
      Remainder(x, TWO_64, 0, x);
    } else {
      Remainder(x, TWO_64, 1, x - TWO_64);
      OneWrap(x, n);
    }
    hide WordShift, Plus;
  }

  lemma ReachBound(hash: nat, h2: nat, pr: nat, n: nat, i: nat)
    requires Suited(pr, n) && 0 < h2 < n && i < n
    ensures Reach(hash, h2, pr, n, i) < 2 * TWO_64 && (i == 0 ==> Reach(hash, h2, pr, n, i) == hash % n < TWO_64)
    ensures Reach(hash, h2, pr, n, i) <= hash % n + h2 * (n - 1)
  {
    hide Suited, Prime, PrimitiveRoot, Acc, Power;
    SuitedRoot(pr, n);
    PrimeSquare(pr, n);
    if i > 0 {
      AccIsPower(pr, n, i);
    }
    DivMod(hash, n);
    FarthestSum(hash % n, Factor(pr, n, i), h2, n);
  }

  lemma FarthestSum(h1: nat, f: nat, h2: nat, n: nat)
    requires h1 < n && f < n && 0 < h2 < n
    ensures h1 + f * h2 <= h1 + h2 * (n - 1) < n * n
  {
    Grows(f, n - 1, h2);
    Grows(h2, n - 1, n - 1);
    assert (n - 1) * (n - 1) + (n - 1) == n * n - n;
  }

  lemma PrimeSquare(pr: nat, n: nat)
    requires Suited(pr, n)
    ensures n * n < 2 * TWO_64 && 1 < n < TWO_64
  {
    if n >= TWO_64 {
      Grows(TWO_64, n, n);
    }
  }

  lemma OneWrap(x: nat, n: nat)
    requires n > 0 && TWO_64 <= x && TWO_64 % n != 0
    ensures (x - TWO_64) % n == Plus(x % n, WordShift(n), n)
  {
    DivMod(x, n);
    DivMod(TWO_64, n);
    var q, b, w := x / n - TWO_64 / n, x % n, TWO_64 % n;
    assert x - TWO_64 == q * n + (b - w);
    if b >= w {
      Remainder(x - TWO_64, n, q, b - w);
    } else {
      assert x - TWO_64 == (q - 1) * n + (b - w + n);
      Remainder(x - TWO_64, n, q - 1, b - w + n);
    }
  }

  /** A prime with a root other than 1 is odd, and no divisor of 2^64. */
  lemma NoPowerOfTwo(pr: nat, n: nat)
    requires Prime(n) && PrimitiveRoot(pr, n)
    ensures TWO_64 % n != 0 && 0 < WordShift(n) < n
  {
    AccIsPower(2, n, 64);
    TwoTo64();
    DivMod(TWO_64, n);
  }

  lemma {:induction false} PowerSum(b: nat, i: nat, j: nat)
    ensures Power(b, i + j) == Power(b, i) * Power(b, j)
  {
    if i > 0 {
      PowerSum(b, i - 1, j);
      assert Power(b, i + j) == b * Power(b, i - 1 + j);
      assert b * (Power(b, i - 1) * Power(b, j)) == (b * Power(b, i - 1)) * Power(b, j);
    }
  }

  lemma TwoTo64()
    ensures Power(2, 64) == TWO_64
  {
    assert Power(2, 4) == 16;
    PowerSum(2, 4, 4);
    PowerSum(2, 8, 8);
    PowerSum(2, 16, 16);
    PowerSum(2, 32, 32);
  }

  /** Nothing wraps around: the steps are those of double hashing in another order. */
  lemma UnwrappedVisitsAll(hash: nat, pr: nat, n: nat)
    requires Suited(pr, n) && hash % n + SecondHash(hash, n) * (n - 1) < TWO_64
    ensures Permutes(ExponentialProbe(hash, pr, n), n)
  {
    PrimeSize(n);
    SecondHashRange(hash, n);
    var p, h2 := ExponentialProbe(hash, pr, n), SecondHash(hash, n);
    hide Suited, DoubleStep, ExponentialStep, SecondHash, Reach, Factor, Permutes;
    forall i: nat | i < n
      ensures p[i] == DoubleStep(hash, h2, n, Factor(pr, n, i)) < n
    {
      ReachBound(hash, h2, pr, n, i);
      StepLands(hash, h2, pr, n, i);
    }
    forall i: nat, j: nat | i < j < n
      ensures p[i] != p[j]
    {
      LandingsDiffer(hash, h2, pr, n, i, j);
    }
    DistinctPermutes(p, n);
  }

  lemma LandingsDiffer(hash: nat, h2: nat, pr: nat, n: nat, i: nat, j: nat)
    requires Suited(pr, n) && 0 < h2 < n && i < n && j < n && i != j
    ensures DoubleStep(hash, h2, n, Factor(pr, n, i)) != DoubleStep(hash, h2, n, Factor(pr, n, j))
  {
    var k, l := Factor(pr, n, i), Factor(pr, n, j);
    hide Factor, DoubleStep, Prime, PrimitiveRoot;
    if i < j {
      FactorsDiffer(pr, n, i, j);
    } else {
      FactorsDiffer(pr, n, j, i);
    }
    if k < l {
      DoubleStepsDiffer(hash, h2, n, k, l);
    } else {
      DoubleStepsDiffer(hash, h2, n, l, k);
    }
  }

  /** A step that wraps around belongs to bucket `b`, had it not. */
  ghost predicate WrappedAt(hash: nat, h2: nat, pr: nat, n: nat, b: nat)
    requires n > 0
  {
    exists i: nat :: i < n && WrapsAt(hash, h2, pr, n, b, i)
  }

  ghost predicate WrapsAt(hash: nat, h2: nat, pr: nat, n: nat, b: nat, i: nat)
    requires n > 0
  {
    Reach(hash, h2, pr, n, i) >= TWO_64 && DoubleStep(hash, h2, n, Factor(pr, n, i)) == b
  }

  /** In a tour of all, the bucket a wrapped step lands in must have been left by another wrapped step. */
  lemma WrapsPropagate(hash: nat, pr: nat, n: nat, b: nat)
    requires Suited(pr, n) && n > 0 && Permutes(ExponentialProbe(hash, pr, n), n)
    requires WrappedAt(hash, SecondHash(hash, n), pr, n, b)
    ensures 0 < WordShift(n) < n && WrappedAt(hash, SecondHash(hash, n), pr, n, Plus(b, WordShift(n), n))
  {
    PrimeSize(n);
    SecondHashRange(hash, n);
    var p, h2 := ExponentialProbe(hash, pr, n), SecondHash(hash, n);
    PermutesDistinct(p, n);
    hide Suited, DoubleStep, ExponentialStep, SecondHash, Reach, Factor, Permutes, WordShift;
    var i: nat :| i < n && WrapsAt(hash, h2, pr, n, b, i);
    StepLands(hash, h2, pr, n, i);
    var c := Plus(b, WordShift(n), n);
    assert p[i] == c < n;
    var j := LandsIn(hash, h2, pr, n, c);
    StepLands(hash, h2, pr, n, j);
    var again := p[j];
    if Reach(hash, h2, pr, n, j) < TWO_64 {
      assert false;
    }
    assert WrapsAt(hash, h2, pr, n, c, j);
  }

  /** Without wrapping, every bucket would be landed in. */
  lemma LandsIn(hash: nat, h2: nat, pr: nat, n: nat, b: nat) returns (i: nat)
    requires Suited(pr, n) && 0 < h2 < n && b < n
    ensures i < n && DoubleStep(hash, h2, n, Factor(pr, n, i)) == b
  {
    StepsVisitAll(hash, h2, n);
    assert b in Steps(hash, h2, n);
    var v: nat :| v < n && Steps(hash, h2, n)[v] == b;
    i := FactorTakes(pr, n, v);
  }

  lemma {:induction false} WrapsSpread(hash: nat, pr: nat, n: nat, b: nat, k: nat)
    requires Suited(pr, n) && n > 0 && Permutes(ExponentialProbe(hash, pr, n), n) && b < n
    requires WrappedAt(hash, SecondHash(hash, n), pr, n, b)
    ensures WrappedAt(hash, SecondHash(hash, n), pr, n, DoubleStep(b, WordShift(n), n, k))
  {
    NoPowerOfTwo(pr, n);
    hide Suited, SecondHash, Permutes, WordShift, WrappedAt, DoubleStep;
    if k == 0 {
      DoubleStart(b, WordShift(n), n);
      Remainder(b, n, 0, b);
    } else {
      WrapsSpread(hash, pr, n, b, k - 1);
      DoubleNext(b, WordShift(n), n, k - 1);
      WrapsPropagate(hash, pr, n, DoubleStep(b, WordShift(n), n, k - 1));
    }
  }

  /** But the first step of all does not wrap around. */
  lemma WrappedMisses(hash: nat, pr: nat, n: nat, i: nat)
    requires Suited(pr, n) && i < n && Reach(hash, SecondHash(hash, n), pr, n, i) >= TWO_64
    ensures !Permutes(ExponentialProbe(hash, pr, n), n)
  {
    PrimeSize(n);
    SecondHashRange(hash, n);
    NoPowerOfTwo(pr, n);
    DivMod(hash, n);
    var h1, h2, c := hash % n, SecondHash(hash, n), WordShift(n);
    if Permutes(ExponentialProbe(hash, pr, n), n) {
      var b := DoubleStep(hash, h2, n, Factor(pr, n, i));
      StepLands(hash, h2, pr, n, i);
      assert WrapsAt(hash, h2, pr, n, b, i);
      StepsVisitAll(b, c, n);
      assert h1 in Steps(b, c, n);
      var k: nat :| k < n && Steps(b, c, n)[k] == h1;
      WrapsSpread(hash, pr, n, b, k);
      var j: nat :| j < n && WrapsAt(hash, h2, pr, n, h1, j);
      ReachBound(hash, h2, pr, n, 0);
      DoubleStart(hash, h2, n);
      LandingsDiffer(hash, h2, pr, n, 0, j);
    }
  }

  /**
   * With a prime number of buckets and a primitive root of it, the tour goes everywhere exactly if the farthest step
   * does not wrap around in 64 bits.
   */
  lemma ExponentialVisitsAll(hash: nat, pr: nat, n: nat)
    requires Suited(pr, n)
    ensures n > 0
    ensures Permutes(ExponentialProbe(hash, pr, n), n) <==> hash % n + SecondHash(hash, n) * (n - 1) < TWO_64
    ensures ExponentialProbe(hash, pr, n)[0] == hash % n
  {
    PrimeSize(n);
    SecondHashRange(hash, n);
    var h2 := SecondHash(hash, n);
    if hash % n + h2 * (n - 1) < TWO_64 {
      UnwrappedVisitsAll(hash, pr, n);
    } else {
      var i := FactorTakes(pr, n, n - 1);
      assert Factor(pr, n, i) * h2 == h2 * (n - 1);
      WrappedMisses(hash, pr, n, i);
    }
  }

  lemma Grows(a: nat, b: nat, c: nat)
    requires a <= b
    ensures a * c <= b * c
  {
    Sign(b - a, c);
    assert b * c == a * c + (b - a) * c;
  }

  // ---------------------------------------------------------- the tables of the code

  /** __CFBasicHashPrimitiveRoots. */
  function Root(idx: nat): nat {
    match idx
    case 1 => 2
    case 2 => 3
    case 3 => 2
    case 4 => 5
    case 5 => 6
    case 6 => 7
    case 7 => 3
    case 8 => 19
    case 9 => 6
    case 10 => 5
    case 11 => 3
    case 12 => 3
    case 13 => 3
    case 14 => 2
    case 15 => 5
    case 16 => 6
    case 17 => 3
    case 18 => 3
    case 19 => 6
    case 20 => 2
    case 21 => 3
    case 22 => 3
    case 23 => 3
    case 24 => 5
    case 25 => 10
    case 26 => 3
    case 27 => 3
    case 28 => 22
    case 29 => 3
    case 30 => 3
    case 31 => 3
    case 32 => 5
    case 33 => 2
    case 34 => 22
    case 35 => 2
    case 36 => 11
    case 37 => 5
    case 38 => 5
    case 39 => 2
    case 40 => 3
    case 41 => 10
    case 42 => 2
    case 43 => 3
    case 44 => 10
    case _ => 0
  }

  /** What the comments on the two tables of the code say. */
  ghost predicate RootOfPrime(idx: nat) {
    Prime(TableSize(idx)) && PrimitiveRoot(Root(idx), TableSize(idx))
  }

  lemma RootSuits(idx: nat)
    requires 0 < idx < 45 && RootOfPrime(idx)
    ensures Suited(Root(idx), TableSize(idx))
  {
    var pr, n := Root(idx), TableSize(idx);
    TableBounds(idx);
    hide TableSize, Root, Prime, PrimitiveRoot;
    Grows(pr, 22, n);
    Grows(n, 5244622819, n);
    Grows(n, 5244622819, 5244622819);
  }

  lemma TableBounds(idx: nat)
    requires 0 < idx < 45
    ensures Root(idx) <= 22 && TableSize(idx) <= 5244622819 && (idx < 44 ==> TableSize(idx) < TWO_32)
    ensures TableCapacity(idx) <= TableSize(idx) && TableCapacity(idx) < TWO_32
  {
  }

  /** With all numbers of buckets but the last, nothing wraps around. */
  lemma ProductFits(idx: nat, hash: nat)
    requires 0 < idx < 44 && TableSize(idx) > 1
    ensures hash % TableSize(idx) + SecondHash(hash, TableSize(idx)) * (TableSize(idx) - 1) < TWO_64
  {
    var n := TableSize(idx);
    TableBounds(idx);
    SecondHashRange(hash, n);
    DivMod(hash, n);
    hide TableSize, SecondHash;
    var h2 := SecondHash(hash, n);
    Grows(h2, n - 1, n - 1);
    Grows(n - 1, TWO_32 - 2, n - 1);
  }

  /** So with these the tour goes everywhere. */
  lemma TableVisitsAll(idx: nat, hash: nat)
    requires 0 < idx < 44 && RootOfPrime(idx)
    ensures TableSize(idx) > 0 && Permutes(ExponentialProbe(hash, Root(idx), TableSize(idx)), TableSize(idx))
  {
    hide TableSize, Root, Permutes, SecondHash;
    RootSuits(idx);
    PrimeSize(TableSize(idx));
    ProductFits(idx, hash);
    ExponentialVisitsAll(hash, Root(idx), TableSize(idx));
  }

  /** With the last it does not: at hash 0 two values of `acc` lead to the same bucket, and some bucket is never met. */
  lemma LastTableMisses()
    ensures var n := TableSize(44);
      && n > 0 && SecondHash(0, n) == n - 1
      && (0 + (n - 1) * (n - 1)) % TWO_64 % n == 2564414213
      && (0 + (n - 1) * 2680208606) % TWO_64 % n == 2564414213
    ensures RootOfPrime(44) ==> !Permutes(ExponentialProbe(0, Root(44), TableSize(44)), TableSize(44))
  {
    if RootOfPrime(44) {
      RootSuits(44);
      ExponentialVisitsAll(0, Root(44), TableSize(44));
    }
  }

  /** Still it meets more different buckets than the table may hold entries. */
  lemma ExponentialCovers(idx: nat, hash: nat)
    requires 0 < idx < 45 && RootOfPrime(idx)
    ensures TableSize(idx) > 0
    ensures Covers(ExponentialProbe(hash, Root(idx), TableSize(idx)), TableSize(idx), TableCapacity(idx))
  {
    RootSuits(idx);
    FarthestFits(idx);
    TableBounds(idx);
    hide TableSize, TableCapacity, Root, Suited, SecondHash;
    NearSteps(hash, Root(idx), TableSize(idx), TableCapacity(idx));
  }

  lemma FarthestFits(idx: nat)
    requires 0 < idx < 45
    ensures TableCapacity(idx) * (TableSize(idx) - 1) < TWO_64
  {
    TableBounds(idx);
    if idx < 44 {
      hide TableSize, TableCapacity;
      Grows(TableCapacity(idx), TWO_32 - 1, TableSize(idx) - 1);
      Grows(TableSize(idx) - 1, TWO_32 - 1, TWO_32 - 1);
    }
  }

  /** The steps that are worth the least do not wrap around, so they lead to different buckets. */
  lemma NearSteps(hash: nat, pr: nat, n: nat, capacity: nat)
    requires Suited(pr, n) && n > 0 && capacity <= n && capacity * (n - 1) < TWO_64
    ensures Covers(ExponentialProbe(hash, pr, n), n, capacity)
  {
    PrimeSize(n);
    SecondHashRange(hash, n);
    var p, h2 := ExponentialProbe(hash, pr, n), SecondHash(hash, n);
    var near := Steps(hash, h2, n)[..capacity];
    hide Suited, Prime, PrimitiveRoot, DoubleStep, ExponentialStep, SecondHash, Reach, Factor, WordShift;
    SuitedRoot(pr, n);
    forall b | b in Buckets(near)
      ensures b in Buckets(p)
    {
      var v: nat :| v < capacity && near[v] == b;
      NearStep(hash, pr, n, capacity, v);
    }
    forall j: nat | j < n
      ensures p[j] < n
    {
      StepLands(hash, h2, pr, n, j);
    }
    forall i: nat, j: nat | i < j < capacity
      ensures near[i] != near[j]
    {
      DoubleStepsDiffer(hash, h2, n, i, j);
    }
    Visited(near);
    SubsetSize(Buckets(near), Buckets(p));
  }

  lemma NearStep(hash: nat, pr: nat, n: nat, capacity: nat, v: nat)
    requires Suited(pr, n) && n > 0 && v < capacity <= n && capacity * (n - 1) < TWO_64
    ensures DoubleStep(hash, SecondHash(hash, n), n, v) in ExponentialProbe(hash, pr, n)
  {
    PrimeSize(n);
    SecondHashRange(hash, n);
    DivMod(hash, n);
    var h2 := SecondHash(hash, n);
    var i := FactorTakes(pr, n, v);
    Grows(h2, n - 1, v);
    Grows(v, capacity - 1, n - 1);
    assert capacity * (n - 1) == (capacity - 1) * (n - 1) + (n - 1);
    assert Reach(hash, h2, pr, n, i) < TWO_64;
    StepLands(hash, h2, pr, n, i);
    assert ExponentialProbe(hash, pr, n)[i] == DoubleStep(hash, h2, n, v);
  }

  // ---------------------------------------------------------------- the three styles

  datatype Style = Linear | Double | Exponential

  /** The index of a number of buckets. */
  function SizeIndex(n: nat, from: nat := 0): nat
    decreases 45 - from
  {
    if from >= 45 || TableSize(from) == n then from else SizeIndex(n, from + 1)
  }

  lemma {:induction false} SizeIndexOf(idx: nat, from: nat)
    requires from <= idx < 45
    ensures SizeIndex(TableSize(idx), from) == idx
    decreases idx - from
  {
    hide TableSize;
    if from < idx {
      SizesGrow(from, idx);
      SizeIndexOf(idx, from + 1);
    }
  }

  lemma {:induction false} SizesGrow(i: nat, j: nat)
    requires i < j < 45
    ensures TableSize(i) < TableSize(j)
    decreases j - i
  {
    NextSize(j - 1);
    hide TableSize;
    if i < j - 1 {
      SizesGrow(i, j - 1);
    }
  }

  lemma NextSize(i: nat)
    requires i < 44
    ensures TableSize(i) < TableSize(i + 1)
  {
  }

  /** The tours of a table, by the style it was created with. */
  function StyledProbe(style: Style, hash: Class -> nat): ProbeFn {
    (c: Class, n: nat) =>
      if n == 0 then []
      else
        match style
        case Linear => LinearProbe(hash(c), n)
        case Double => DoubleProbe(hash(c), n)
        case Exponential => ExponentialProbe(hash(c), Root(SizeIndex(n)), n)
  }

  /** Whatever the style, and whatever the keys hash to, a search meets enough buckets. */
  lemma StyleProbes(cfg: Config, style: Style, hash: Class -> nat)
    requires cfg.probe == StyledProbe(style, hash)
    requires style.Linear? || forall idx: nat :: 0 < idx < 45 ==> RootOfPrime(idx)
    ensures cfg.Probes()
  {
    hide LinearProbe, DoubleProbe, ExponentialProbe, Covers, TableSize, TableCapacity, Root, Prime, PrimitiveRoot, SizeIndex;
    forall c: Class, idx: nat | 0 < idx < 45
      ensures Covers(cfg.probe(c, TableSize(idx)), TableSize(idx), TableCapacity(idx))
    {
      var n := TableSize(idx);
      CapacityFits(idx);
      match style {
        case Linear =>
          LinearVisitsAll(hash(c), n);
          PermutesCovers(LinearProbe(hash(c), n), idx);
        case Double =>
          assert RootOfPrime(idx);
          DoubleVisitsAll(hash(c), n);
          PermutesCovers(DoubleProbe(hash(c), n), idx);
        case Exponential =>
          assert RootOfPrime(idx);
          SizeIndexOf(idx, 0);
          ExponentialCovers(idx, hash(c));
      }
    }
  }
}
