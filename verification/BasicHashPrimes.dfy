/** The smallest numbers of buckets are primes, and the roots listed for them primitive. */
module BasicHashPrimes {
  import opened BasicHashTable
  import opened BasicHashProbing

  // ------------------------------------------------------------------------ primes

  /** Nothing from `d` up to the square root divides `n`. */
  predicate NoDivisor(n: nat, d: nat)
    requires d > 0
    decreases n - d
  {
    d * d > n || (d < n && n % d != 0 && NoDivisor(n, d + 1))
  }

  /** Trial division up to the square root is enough. */
  lemma TrialDivision(n: nat)
    requires n >= 2 && NoDivisor(n, 2)
    ensures Prime(n)
  {
    forall d: nat | 1 < d < n
      ensures n % d != 0
    {
      if n % d == 0 {
        DivMod(n, d);
        var e := n / d;
        if d * d > n {
          SmallerFactor(n, d, e);
          Remainder(n, e, d, 0);
          Tried(n, 2, e);
        } else {
          Tried(n, 2, d);
        }
      }
    }
  }

  lemma SmallerFactor(n: nat, d: nat, e: nat)
    requires n == e * d && 1 < d < n && d * d > n
    ensures 1 < e < n && e * e <= n
  {
    if e >= d {
      Grows(d, e, d);
    } else {
      Grows(e, d, e);
    }
    if e <= 1 {
      Grows(e, 1, d);
    }
  }

  lemma {:induction false} Tried(n: nat, from: nat, d: nat)
    requires 0 < from <= d < n && NoDivisor(n, from) && d * d <= n
    ensures n % d != 0
    decreases d - from
  {
    Grows(from, d, from);
    Grows(from, d, d);
    if from < d {
      Tried(n, from + 1, d);
    }
  }

  lemma {:induction false} PrimeDivisor(m: nat) returns (r: nat)
    requires m > 1
    ensures Prime(r) && m % r == 0
  {
    if Prime(m) {
      r := m;
      Remainder(m, m, 1, 0);
    } else {
      var d: nat :| 1 < d < m && m % d == 0;
      r := PrimeDivisor(d);
      DivMod(m, d);
      DivMod(d, r);
      assert m / d * (d / r * r) == (m / d * (d / r)) * r;
      Remainder(m, r, m / d * (d / r), 0);
    }
  }

  function Product(ps: seq<nat>): nat {
    if ps == [] then 1 else ps[0] * Product(ps[1..])
  }

  ghost predicate Primes(ps: seq<nat>) {
    forall i: nat :: i < |ps| ==> Prime(ps[i])
  }

  /** A prime that divides a product of primes is one of them. */
  lemma {:induction false} PrimeInProduct(r: nat, ps: seq<nat>)
    requires Prime(r) && Primes(ps) && Product(ps) % r == 0
    ensures r in ps
  {
    if ps == [] {
      Remainder(1, r, 0, 1);
    } else {
      var a, b := ps[0], Product(ps[1..]);
      if b % r == 0 {
        PrimeInProduct(r, ps[1..]);
      } else if a % r == 0 {
        assert Prime(a);
        if a < r {
          Remainder(a, r, 0, a);
        }
      } else {
        DivMod(a, r);
        DivMod(b, r);
        NoZeroProduct(r, a % r, b % r);
        TimesRemainder(b, a % r, r);
        TimesRemainder(a, b, r);
      }
    }
  }

  // ------------------------------------------------------------- orders of powers

  /** Whole orders do not matter. */
  lemma {:induction false} WholeOrders(b: nat, n: nat, o: nat, q: nat, r: nat)
    requires n > 1 && Power(b, o) % n == 1
    ensures q * o + r >= 0 && Power(b, q * o + r) % n == Power(b, r) % n
  {
    if q > 0 {
      WholeOrders(b, n, o, q - 1, r);
      var rest: nat := (q - 1) * o + r;
      assert q * o + r == o + rest;
      PowerSum(b, o, rest);
      TimesRemainder(Power(b, o), Power(b, rest), n);
      assert Power(b, rest) * Power(b, o) == Power(b, o) * Power(b, rest);
    }
  }

  lemma {:induction false} LeastOrder(b: nat, n: nat, k: nat) returns (o: nat)
    requires n > 0 && k > 0 && Power(b, k) % n == 1
    ensures 0 < o <= k && Power(b, o) % n == 1 && forall j: nat :: 0 < j < o ==> Power(b, j) % n != 1
  {
    if j: nat :| 0 < j < k && Power(b, j) % n == 1 {
      o := LeastOrder(b, n, j);
    } else {
      o := k;
    }
  }

  /** The least order divides every other. */
  lemma OrderDivides(b: nat, n: nat, o: nat, e: nat)
    requires n > 1 && o > 0 && Power(b, o) % n == 1 && Power(b, e) % n == 1
    requires forall j: nat :: 0 < j < o ==> Power(b, j) % n != 1
    ensures e % o == 0
  {
    DivMod(e, o);
    hide Power;
    WholeOrders(b, n, o, e / o, e % o);
  }

  /**
   * A number whose power n - 1 is 1 modulo a prime n is a primitive root if none of its powers (n - 1) / p, for the
   * prime factors p of n - 1, is 1.
   */
  lemma RootByFactors(pr: nat, n: nat, ps: seq<nat>)
    requires Prime(n) && 1 < pr < n && Primes(ps) && Product(ps) == n - 1 && Power(pr, n - 1) % n == 1
    requires forall i: nat :: i < |ps| ==> Power(pr, (n - 1) / ps[i]) % n != 1
    ensures PrimitiveRoot(pr, n)
  {
    hide Power, Product;
    forall k: nat | 0 < k < n - 1
      ensures Power(pr, k) % n != 1
    {
      if Power(pr, k) % n == 1 {
        var o := LeastOrder(pr, n, k);
        OrderDivides(pr, n, o, n - 1);
        var r := SomeFactor(n - 1, o);
        PrimeInProduct(r, ps);
        var m := (n - 1) / r / o;
        WholeOrders(pr, n, o, m, 0);
        WholeOrders(pr, n, o, 0, 0);
        ZerothPower(pr, n);
      }
    }
  }

  lemma ZerothPower(b: nat, n: nat)
    requires n > 1
    ensures Power(b, 0) % n == 1
  {
    Remainder(1, n, 0, 1);
  }

  /** A proper divisor still divides after one prime factor has been taken out. */
  lemma SomeFactor(e: nat, o: nat) returns (r: nat)
    requires 0 < o < e && e % o == 0
    ensures Prime(r) && e % r == 0 && e / r == e / r / o * o + 0
  {
    DivMod(e, o);
    var m := e / o;
    if m <= 1 {
      Grows(m, 1, o);
    }
    r := PrimeDivisor(m);
    DivMod(m, r);
    var x := m / r;
    assert m * o == (x * r) * o == (x * o) * r;
    Remainder(e, r, x * o, 0);
    Exact(e, r, x * o);
    Exact(x * o, o, x);
  }

  lemma Exact(a: nat, b: nat, q: nat)
    requires b > 0 && a == q * b
    ensures a / b == q
  {
    DivMod(a, b);
    Remainder(a, b, q, 0);
    assert (a / b - q) * b == 0;
    Multiples(a / b - q, b);
  }

  // ------------------------------------------------------------- the smallest tables

  predicate PowerIs(b: nat, n: nat, k: nat, a: nat)
    requires n > 0
  {
    Power(b, k) % n == a
  }

  /** Twice a power, by squaring. */
  lemma Twice(b: nat, n: nat, k: nat, a: nat)
    requires n > 0 && PowerIs(b, n, k, a)
    ensures PowerIs(b, n, 2 * k, a * a % n)
  {
    PowerSum(b, k, k);
    var x := Power(b, k);
    TimesRemainder(x, x, n);
    TimesRemainder(x, a, n);
    assert a * x == x * a;
  }

  /** And one more. */
  lemma OneMorePower(b: nat, n: nat, k: nat, a: nat)
    requires n > 0 && PowerIs(b, n, k, a)
    ensures PowerIs(b, n, k + 1, a * b % n)
  {
    TimesRemainder(Power(b, k), b, n);
  }

  lemma FirstPower(b: nat, n: nat)
    requires b < n
    ensures PowerIs(b, n, 1, b)
  {
    assert Power(b, 1) == b * Power(b, 0);
    Remainder(b, n, 0, b);
  }

  lemma FirstPrimes()
    ensures Prime(2) && Prime(3) && Prime(5) && Prime(7) && Prime(11) && Prime(19)
  {
    hide Prime;
    TrialDivision(2);
    TrialDivision(3);
    TrialDivision(5);
    TrialDivision(7);
    TrialDivision(11);
    TrialDivision(19);
  }

  lemma SizePrimes()
    ensures Prime(3) && Prime(7) && Prime(13) && Prime(23) && Prime(41) && Prime(71)
    ensures Prime(127) && Prime(191) && Prime(251)
  {
    hide Prime;
    TrialDivision(3);
    TrialDivision(7);
    TrialDivision(13);
    TrialDivision(23);
    TrialDivision(41);
    TrialDivision(71);
    TrialDivision(127);
    TrialDivision(191);
    TrialDivision(251);
  }

  lemma PowersOf2Modulo3()
    ensures PowerIs(2, 3, 1, 2) && PowerIs(2, 3, 2, 1)
  {
    hide PowerIs;
    FirstPower(2, 3);
    Twice(2, 3, 1, 2);
  }

  lemma RootOf3()
    ensures RootOfPrime(1)
  {
    hide Power, Prime;
    FirstPrimes();
    SizePrimes();
    PowersOf2Modulo3();
    var ps: seq<nat> := [2];
    assert Product(ps) == 2;
    RootByFactors(2, 3, ps);
  }

  lemma PowersOf3Modulo7()
    ensures PowerIs(3, 7, 2, 2) && PowerIs(3, 7, 3, 6) && PowerIs(3, 7, 6, 1)
  {
    hide PowerIs;
    FirstPower(3, 7);
    Twice(3, 7, 1, 3);
    OneMorePower(3, 7, 2, 2);
    Twice(3, 7, 3, 6);
  }

  lemma RootOf7()
    ensures RootOfPrime(2)
  {
    hide Power, Prime;
    FirstPrimes();
    SizePrimes();
    PowersOf3Modulo7();
    var ps: seq<nat> := [2, 3];
    assert Product(ps) == 6;
    RootByFactors(3, 7, ps);
  }

  lemma PowersOf2Modulo13()
    ensures PowerIs(2, 13, 4, 3) && PowerIs(2, 13, 6, 12) && PowerIs(2, 13, 12, 1)
  {
    hide PowerIs;
    FirstPower(2, 13);
    Twice(2, 13, 1, 2);
    OneMorePower(2, 13, 2, 4);
    Twice(2, 13, 3, 8);
    Twice(2, 13, 2, 4);
    Twice(2, 13, 6, 12);
  }

  lemma RootOf13()
    ensures RootOfPrime(3)
  {
    hide Power, Prime;
    FirstPrimes();
    SizePrimes();
    PowersOf2Modulo13();
    var ps: seq<nat> := [2, 2, 3];
    assert Product(ps) == 12;
    RootByFactors(2, 13, ps);
  }

  lemma PowersOf5Modulo23()
    ensures PowerIs(5, 23, 2, 2) && PowerIs(5, 23, 11, 22) && PowerIs(5, 23, 22, 1)
  {
    hide PowerIs;
    FirstPower(5, 23);
    Twice(5, 23, 1, 5);
    Twice(5, 23, 2, 2);
    OneMorePower(5, 23, 4, 4);
    Twice(5, 23, 5, 20);
    OneMorePower(5, 23, 10, 9);
    Twice(5, 23, 11, 22);
  }

  lemma RootOf23()
    ensures RootOfPrime(4)
  {
    hide Power, Prime;
    FirstPrimes();
    SizePrimes();
    PowersOf5Modulo23();
    var ps: seq<nat> := [2, 11];
    assert Product(ps) == 22;
    RootByFactors(5, 23, ps);
  }

  lemma PowersOf6Modulo41()
    ensures PowerIs(6, 41, 8, 10) && PowerIs(6, 41, 20, 40) && PowerIs(6, 41, 40, 1)
  {
    hide PowerIs;
    FirstPower(6, 41);
    Twice(6, 41, 1, 6);
    Twice(6, 41, 2, 36);
    OneMorePower(6, 41, 4, 25);
    Twice(6, 41, 5, 27);
    Twice(6, 41, 10, 32);
    Twice(6, 41, 4, 25);
    Twice(6, 41, 20, 40);
  }

  lemma RootOf41()
    ensures RootOfPrime(5)
  {
    hide Power, Prime;
    FirstPrimes();
    SizePrimes();
    PowersOf6Modulo41();
    var ps: seq<nat> := [2, 2, 2, 5];
    assert Product(ps) == 40;
    RootByFactors(6, 41, ps);
  }

  lemma PowersOf7Modulo71()
    ensures PowerIs(7, 71, 10, 45) && PowerIs(7, 71, 14, 54) && PowerIs(7, 71, 35, 70)
    ensures PowerIs(7, 71, 70, 1)
  {
    hide PowerIs;
    FirstPower(7, 71);
    Twice(7, 71, 1, 7);
    Twice(7, 71, 2, 49);
    Twice(7, 71, 4, 58);
    Twice(7, 71, 8, 27);
    OneMorePower(7, 71, 16, 19);
    Twice(7, 71, 17, 62);
    OneMorePower(7, 71, 34, 10);
    OneMorePower(7, 71, 2, 49);
    Twice(7, 71, 3, 59);
    OneMorePower(7, 71, 6, 2);
    Twice(7, 71, 7, 14);
    OneMorePower(7, 71, 4, 58);
    Twice(7, 71, 5, 51);
    Twice(7, 71, 35, 70);
  }

  lemma RootOf71()
    ensures RootOfPrime(6)
  {
    hide Power, Prime;
    FirstPrimes();
    SizePrimes();
    PowersOf7Modulo71();
    var ps: seq<nat> := [2, 5, 7];
    assert Product(ps) == 70;
    RootByFactors(7, 71, ps);
  }

  lemma PowersOf3Modulo127()
    ensures PowerIs(3, 127, 18, 4) && PowerIs(3, 127, 42, 107) && PowerIs(3, 127, 63, 126)
    ensures PowerIs(3, 127, 126, 1)
  {
    hide PowerIs;
    HalfWay127();
    Twice(3, 127, 63, 126);
    FirstPower(3, 127);
    Twice(3, 127, 1, 3);
    Twice(3, 127, 2, 9);
    OneMorePower(3, 127, 4, 81);
    Twice(3, 127, 5, 116);
    Twice(3, 127, 10, 121);
    OneMorePower(3, 127, 20, 36);
    Twice(3, 127, 21, 108);
    Twice(3, 127, 4, 81);
    OneMorePower(3, 127, 8, 84);
    Twice(3, 127, 9, 125);
  }

  lemma HalfWay127()
    ensures PowerIs(3, 127, 63, 126)
  {
    hide PowerIs;
    FirstPower(3, 127);
    Twice(3, 127, 1, 3);
    OneMorePower(3, 127, 2, 9);
    Twice(3, 127, 3, 27);
    OneMorePower(3, 127, 6, 94);
    Twice(3, 127, 7, 28);
    OneMorePower(3, 127, 14, 22);
    Twice(3, 127, 15, 66);
    OneMorePower(3, 127, 30, 38);
    Twice(3, 127, 31, 114);
    OneMorePower(3, 127, 62, 42);
  }

  lemma RootOf127()
    ensures RootOfPrime(7)
  {
    hide Power, Prime;
    FirstPrimes();
    SizePrimes();
    PowersOf3Modulo127();
    var ps: seq<nat> := [2, 3, 3, 7];
    assert Product(ps) == 126;
    RootByFactors(3, 127, ps);
  }

  lemma PowersOf19Modulo191()
    ensures PowerIs(19, 191, 10, 52) && PowerIs(19, 191, 38, 39) && PowerIs(19, 191, 95, 190)
    ensures PowerIs(19, 191, 190, 1)
  {
    hide PowerIs;
    FirstPower(19, 191);
    Twice(19, 191, 1, 19);
    Twice(19, 191, 2, 170);
    OneMorePower(19, 191, 4, 59);
    Twice(19, 191, 5, 166);
    OneMorePower(19, 191, 10, 52);
    Twice(19, 191, 11, 33);
    OneMorePower(19, 191, 22, 134);
    Twice(19, 191, 23, 63);
    OneMorePower(19, 191, 46, 149);
    Twice(19, 191, 47, 157);
    OneMorePower(19, 191, 94, 10);
    Twice(19, 191, 4, 59);
    OneMorePower(19, 191, 8, 43);
    Twice(19, 191, 9, 53);
    OneMorePower(19, 191, 18, 135);
    Twice(19, 191, 19, 82);
    Twice(19, 191, 95, 190);
  }

  lemma RootOf191()
    ensures RootOfPrime(8)
  {
    hide Power, Prime;
    FirstPrimes();
    SizePrimes();
    PowersOf19Modulo191();
    var ps: seq<nat> := [2, 5, 19];
    assert Product(ps) == 190;
    RootByFactors(19, 191, ps);
  }

  lemma PowersOf6Modulo251()
    ensures PowerIs(6, 251, 50, 219) && PowerIs(6, 251, 125, 250) && PowerIs(6, 251, 250, 1)
  {
    hide PowerIs;
    FirstPower(6, 251);
    Twice(6, 251, 1, 6);
    OneMorePower(6, 251, 2, 36);
    Twice(6, 251, 3, 216);
    OneMorePower(6, 251, 6, 221);
    Twice(6, 251, 7, 71);
    OneMorePower(6, 251, 14, 21);
    Twice(6, 251, 15, 126);
    OneMorePower(6, 251, 30, 63);
    Twice(6, 251, 31, 127);
    Twice(6, 251, 62, 65);
    OneMorePower(6, 251, 124, 209);
    Twice(6, 251, 6, 221);
    Twice(6, 251, 12, 147);
    OneMorePower(6, 251, 24, 23);
    Twice(6, 251, 25, 138);
    Twice(6, 251, 125, 250);
  }

  lemma RootOf251()
    ensures RootOfPrime(9)
  {
    hide Power, Prime;
    FirstPrimes();
    SizePrimes();
    PowersOf6Modulo251();
    var ps: seq<nat> := [2, 5, 5, 5];
    assert Product(ps) == 250;
    RootByFactors(6, 251, ps);
  }

  /** The nine smallest tables are what the comments of the code say. */
  lemma SmallestTables(idx: nat)
    requires 0 < idx < 10
    ensures RootOfPrime(idx)
  {
    hide RootOfPrime;
    match idx
    case 1 => RootOf3();
    case 2 => RootOf7();
    case 3 => RootOf13();
    case 4 => RootOf23();
    case 5 => RootOf41();
    case 6 => RootOf71();
    case 7 => RootOf127();
    case 8 => RootOf191();
    case _ => RootOf251();
  }
}
