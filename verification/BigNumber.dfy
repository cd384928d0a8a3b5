/** Signed numbers of five base-10^9 digits: CFBigNumber.c. */
module BigNumber {
  import opened Bytes

  const LIMIT: nat := 1_000_000_000
  const LIMIT_2: nat := 1_000_000_000_000_000_000
  const LIMIT_3: nat := 1_000_000_000_000_000_000_000_000_000
  const LIMIT_4: nat := 1_000_000_000_000_000_000_000_000_000_000_000_000
  const LIMIT_5: nat := 1_000_000_000_000_000_000_000_000_000_000_000_000_000_000_000

  const TWO_127: int := 0x8000_0000_0000_0000_0000_0000_0000_0000
  const TWO_128: int := 0x1_0000_0000_0000_0000_0000_0000_0000_0000

  type i128 = x: int | -TWO_127 <= x < TWO_127
  type u128 = x: int | 0 <= x < TWO_128

  // ----------------------------------------------------------------------- value

  function Weight(i: nat): nat {
    match i
    case 0 => 1
    case 1 => LIMIT
    case 2 => LIMIT_2
    case 3 => LIMIT_3
    case 4 => LIMIT_4
    case _ => LIMIT_5
  }

  /** The number that the lowest `n` digits make. */
  function Low(digits: seq<u32>, n: nat): nat
    requires n <= |digits| <= 5
  {
    if n == 0 then 0 else Low(digits, n - 1) + digits[n - 1] * Weight(n - 1)
  }

  function Value(digits: seq<u32>): nat
    requires |digits| == 5
  {
    Low(digits, 5)
  }

  lemma ValueIs(digits: seq<u32>)
    requires |digits| == 5
    ensures Value(digits)
         == digits[0] + digits[1] * LIMIT + digits[2] * LIMIT_2 + digits[3] * LIMIT_3 + digits[4] * LIMIT_4
  {
    assert Low(digits, 1) == digits[0];
    assert Low(digits, 2) == digits[0] + digits[1] * LIMIT;
    assert Low(digits, 3) == Low(digits, 2) + digits[2] * LIMIT_2;
    assert Low(digits, 4) == Low(digits, 3) + digits[3] * LIMIT_3;
  }

  predicate Small(digits: seq<u32>) {
    |digits| == 5 && forall i: nat :: i < 5 ==> digits[i] < LIMIT
  }

  /** Digits below the base, and a zero without sign. */
  ghost predicate Normal(digits: seq<u32>, sign: int) {
    Small(digits) && (sign == 0 || (sign == -1 && Value(digits) != 0))
  }

  function Signed(digits: seq<u32>, sign: int): int
    requires |digits| == 5
  {
    var v: int := Value(digits);
    if sign < 0 then -v else v
  }

  lemma {:induction false} LowBound(digits: seq<u32>, n: nat)
    requires Small(digits) && n <= 5
    ensures Low(digits, n) < Weight(n)
  {
    if n > 0 {
      LowBound(digits, n - 1);
      Scaled(n - 1, digits[n - 1]);
    }
  }

  /** One digit more weighs less than the next weight. */
  lemma Scaled(i: nat, d: u32)
    requires i < 5 && d < LIMIT
    ensures d * Weight(i) + Weight(i) <= Weight(i + 1)
  {
  }

  lemma {:induction false} LowFrame(a: seq<u32>, b: seq<u32>, n: nat)
    requires n <= |a| <= 5 && n <= |b| <= 5 && a[..n] == b[..n]
    ensures Low(a, n) == Low(b, n)
  {
    if n > 0 {
      assert a[..n - 1] == a[..n][..n - 1] && b[..n - 1] == b[..n][..n - 1];
      assert a[n - 1] == a[..n][n - 1] && b[n - 1] == b[..n][n - 1];
      LowFrame(a, b, n - 1);
    }
  }

  /** A number has one form. */
  lemma {:induction false} SameValueSameDigits(a: seq<u32>, b: seq<u32>, n: nat)
    requires Small(a) && Small(b) && n <= 5 && Low(a, n) == Low(b, n)
    ensures a[..n] == b[..n]
  {
    if n > 0 {
      LowBound(a, n - 1);
      LowBound(b, n - 1);
      TopDigit(n - 1, a[n - 1], Low(a, n - 1), b[n - 1], Low(b, n - 1));
      SameValueSameDigits(a, b, n - 1);
      assert a[..n] == a[..n - 1] + [a[n - 1]] && b[..n] == b[..n - 1] + [b[n - 1]];
    }
  }

  /** The higher digit decides. */
  lemma TopDigit(i: nat, x: u32, lowX: nat, y: u32, lowY: nat)
    requires i < 5 && lowX < Weight(i) && lowY < Weight(i)
    ensures x < y ==> lowX + x * Weight(i) < lowY + y * Weight(i)
    ensures x > y ==> lowX + x * Weight(i) > lowY + y * Weight(i)
  {
  }

  datatype Comparison = LessThan | EqualTo | GreaterThan

  class BigNum {
    var digits: seq<u32>
    var sign: int

    ghost predicate Valid()
      reads this
    {
      Small(digits) && (sign == 0 || sign == -1)
    }

    constructor ()
      ensures digits == [0, 0, 0, 0, 0] && sign == 0
    {
      digits, sign := [0, 0, 0, 0, 0], 0;
    }
  }

  lemma NoDigits(digits: seq<u32>)
    requires |digits| == 5
    ensures Low(digits, 0) == 0 && Value(digits) == Low(digits, 5)
  {
  }

  /** With the higher digits the same, the first digit that differs decides. */
  lemma DigitDecides(a: seq<u32>, b: seq<u32>, i: nat)
    requires Small(a) && Small(b) && i < 5 && Value(a) - Low(a, i + 1) == Value(b) - Low(b, i + 1)
    ensures a[i] < b[i] ==> Value(a) < Value(b)
    ensures a[i] > b[i] ==> Value(a) > Value(b)
    ensures a[i] == b[i] ==> Value(a) - Low(a, i) == Value(b) - Low(b, i)
  {
    LowBound(a, i);
    LowBound(b, i);
    TopDigit(i, a[i], Low(a, i), b[i], Low(b, i));
    hide Weight;
  }

  /** _CFBigNumCompare: the order of the integers. */
  method Compare(a: BigNum, b: BigNum) returns (r: Comparison)
    requires Normal(a.digits, a.sign) && Normal(b.digits, b.sign)
    ensures var x, y := Signed(a.digits, a.sign), Signed(b.digits, b.sign);
      (r == LessThan <==> x < y) && (r == EqualTo <==> x == y) && (r == GreaterThan <==> x > y)
  {
    hide Low;
    NoDigits(a.digits);
    NoDigits(b.digits);
    if a.sign == b.sign {
      var negative := a.sign < 0;
      var i: nat := 5;
      while i > 0
        invariant i <= 5 && Value(a.digits) - Low(a.digits, i) == Value(b.digits) - Low(b.digits, i)
      {
        i := i - 1;
        DigitDecides(a.digits, b.digits, i);
        if a.digits[i] < b.digits[i] {
          return if negative then GreaterThan else LessThan;
        }
        if a.digits[i] > b.digits[i] {
          return if negative then LessThan else GreaterThan;
        }
      }
      return EqualTo;
    }
    return if a.sign < b.sign then LessThan else GreaterThan;
  }

  /** _CFBigNumAbsoluteLessThan. */
  method AbsoluteLessThan(a: BigNum, b: BigNum) returns (r: bool)
    requires Small(a.digits) && Small(b.digits)
    ensures r <==> Value(a.digits) < Value(b.digits)
  {
    hide Low;
    NoDigits(a.digits);
    NoDigits(b.digits);
    var i: nat := 5;
    while i > 0
      invariant i <= 5 && Value(a.digits) - Low(a.digits, i) == Value(b.digits) - Low(b.digits, i)
    {
      i := i - 1;
      DigitDecides(a.digits, b.digits, i);
      if a.digits[i] < b.digits[i] {
        return true;
      }
      if a.digits[i] > b.digits[i] {
        return false;
      }
    }
    return false;
  }

  lemma ZeroValue(digits: seq<u32>)
    requires |digits| == 5
    ensures Value(digits) == 0 <==> digits == [0, 0, 0, 0, 0]
  {
    ValueIs(digits);
  }

  /** A zero keeps its sign. */
  function OppositeSign(digits: seq<u32>, sign: int): int
    requires |digits| == 5
  {
    if Value(digits) == 0 then sign else -1 - sign
  }

  /** _CFBigNumNeg: the opposite number, in normal form if the operand is. */
  method Neg(r: BigNum, a: BigNum)
    requires Small(a.digits) && (a.sign == 0 || a.sign == -1)
    modifies r
    ensures r.digits == old(a.digits) && (r.sign == 0 || r.sign == -1)
    ensures Signed(r.digits, r.sign) == -Signed(old(a.digits), old(a.sign))
    ensures r.sign == OppositeSign(old(a.digits), old(a.sign))
    ensures Normal(old(a.digits), old(a.sign)) ==> Normal(r.digits, r.sign)
  {
    r.digits, r.sign := a.digits, a.sign;
    ZeroValue(a.digits);
    var aIsZero := true;
    for i := 0 to 5
      invariant aIsZero && forall j: nat :: j < i ==> r.digits[j] == 0
      invariant r.digits == old(a.digits) && r.sign == old(a.sign) && a.digits == old(a.digits)
    {
      if a.digits[i] != 0 {
        aIsZero := false;
        break;
      }
    }
    if !aIsZero {
      r.sign := r.sign * r.sign - 1;
    }
  }

  // ------------------------------------------------------------- adding digits

  /** The carry into digit `i`, which the code only makes when a sum exceeds the base. */
  function CarryInto(a: seq<u32>, b: seq<u32>, i: nat): nat
    requires |a| == |b| == 5 && i <= 5
  {
    if i > 0 && a[i - 1] + b[i - 1] + CarryInto(a, b, i - 1) > LIMIT then 1 else 0
  }

  /** Some digit sum is the base itself: it stays where it is, as a digit out of range. */
  ghost predicate HitsLimit(a: seq<u32>, b: seq<u32>) {
    |a| == |b| == 5 && exists i: nat :: i < 5 && SumIsLimit(a, b, i)
  }

  predicate SumIsLimit(a: seq<u32>, b: seq<u32>, i: nat)
    requires |a| == |b| == 5 && i < 5
  {
    a[i] + b[i] + CarryInto(a, b, i) == LIMIT
  }

  /** One column: what is written and carried weighs what was read and carried in. */
  lemma Column(i: nat, z: int, carryOut: int, x: int, y: int, carryIn: int)
    requires i < 5 && z + carryOut * LIMIT == x + y + carryIn
    ensures z * Weight(i) + carryOut * Weight(i + 1) == x * Weight(i) + y * Weight(i) + carryIn * Weight(i)
  {
  }

  /** The sums of the first `i` digits are in `r`, which may be the same array of digits as `a` or `b`. */
  ghost predicate SumTo(r: seq<u32>, a: seq<u32>, b: seq<u32>, i: nat) {
    |r| == |a| == |b| == 5 && i <= 5
    && Low(r, i) + CarryInto(a, b, i) * Weight(i) == Low(a, i) + Low(b, i)
    && forall j: nat :: j < i ==> r[j] == SumDigit(a, b, j)
  }

  /** What column `i` leaves behind. */
  function SumDigit(a: seq<u32>, b: seq<u32>, i: nat): int
    requires |a| == |b| == 5 && i < 5
  {
    a[i] + b[i] + CarryInto(a, b, i) - CarryInto(a, b, i + 1) * LIMIT
  }

  lemma SumDigitRange(a: seq<u32>, b: seq<u32>, i: nat)
    requires Small(a) && Small(b) && i < 5
    ensures 0 <= SumDigit(a, b, i) <= LIMIT && (SumDigit(a, b, i) == LIMIT <==> SumIsLimit(a, b, i))
    ensures SumDigit(a, b, i) == 0 && CarryInto(a, b, i) == 0 ==> CarryInto(a, b, i + 1) == 0
  {
  }

  /** A sum of zeros only carries nothing. */
  lemma {:induction false} ZerosCarryNothing(a: seq<u32>, b: seq<u32>, n: nat)
    requires Small(a) && Small(b) && n <= 5 && forall j: nat :: j < n ==> SumDigit(a, b, j) == 0
    ensures CarryInto(a, b, n) == 0
  {
    if n > 0 {
      ZerosCarryNothing(a, b, n - 1);
      SumDigitRange(a, b, n - 1);
    }
  }

  lemma SumStart(r: seq<u32>, a: seq<u32>, b: seq<u32>)
    requires |r| == |a| == |b| == 5
    ensures SumTo(r, a, b, 0) && CarryInto(a, b, 0) == 0
  {
  }

  lemma SumNext(r: seq<u32>, a: seq<u32>, b: seq<u32>, i: nat, z: u32)
    requires SumTo(r, a, b, i) && i < 5 && Small(a) && Small(b)
    requires z == SumDigit(a, b, i)
    ensures |r| == 5 && SumTo(r[i := z], a, b, i + 1)
  {
    hide Weight;
    LowFrame(r, r[i := z], i);
    Column(i, z, CarryInto(a, b, i + 1), a[i], b[i], CarryInto(a, b, i));
  }

  /** The same with a borrow, the lesser number from the greater. */
  function BorrowInto(a: seq<u32>, b: seq<u32>, i: nat): nat
    requires |a| == |b| == 5 && i <= 5
  {
    if i > 0 && a[i - 1] - b[i - 1] - BorrowInto(a, b, i - 1) < 0 then 1 else 0
  }

  ghost predicate DifferenceTo(r: seq<u32>, a: seq<u32>, b: seq<u32>, i: nat) {
    |r| == |a| == |b| == 5 && i <= 5
    && Low(r, i) - BorrowInto(a, b, i) * Weight(i) == Low(a, i) - Low(b, i)
    && (forall j: nat :: j < i ==> r[j] < LIMIT)
  }

  lemma DifferenceStart(r: seq<u32>, a: seq<u32>, b: seq<u32>)
    requires |r| == |a| == |b| == 5
    ensures DifferenceTo(r, a, b, 0) && BorrowInto(a, b, 0) == 0
  {
  }

  lemma LowNext(digits: seq<u32>, n: nat)
    requires n < |digits| == 5
    ensures Low(digits, n + 1) == Low(digits, n) + digits[n] * Weight(n)
  {
  }

  lemma BorrowDigit(a: seq<u32>, b: seq<u32>, i: nat)
    requires Small(a) && Small(b) && i < 5
    ensures 0 <= a[i] - b[i] - BorrowInto(a, b, i) + BorrowInto(a, b, i + 1) * LIMIT < LIMIT
  {
  }

  lemma DifferenceNext(r: seq<u32>, a: seq<u32>, b: seq<u32>, i: nat, z: u32)
    requires DifferenceTo(r, a, b, i) && i < 5 && Small(a) && Small(b)
    requires z == a[i] - b[i] - BorrowInto(a, b, i) + BorrowInto(a, b, i + 1) * LIMIT
    ensures |r| == 5 && DifferenceTo(r[i := z], a, b, i + 1)
  {
    hide Weight, BorrowInto, Low;
    BorrowDigit(a, b, i);
    LowFrame(r, r[i := z], i);
    LowNext(r[i := z], i);
    LowNext(a, i);
    LowNext(b, i);
    var y: int := b[i];
    Column(i, z, 0 - BorrowInto(a, b, i + 1), a[i], -y, 0 - BorrowInto(a, b, i));
  }

  /** Nothing is borrowed in the end if the difference is not negative. */
  lemma NoBorrowLeft(r: seq<u32>, a: seq<u32>, b: seq<u32>)
    requires DifferenceTo(r, a, b, 5) && Value(b) <= Value(a)
    ensures BorrowInto(a, b, 5) == 0 && Value(r) == Value(a) - Value(b) && Small(r)
  {
    LowBound(r, 5);
  }

  method AddDigits(r: BigNum, a: BigNum, b: BigNum) returns (carry: nat)
    requires Small(a.digits) && Small(b.digits) && |r.digits| == 5
    modifies r`digits
    ensures SumTo(r.digits, old(a.digits), old(b.digits), 5) && carry == CarryInto(old(a.digits), old(b.digits), 5)
  {
    hide Low, SumTo;
    ghost var x, y := a.digits, b.digits;
    carry := 0;
    SumStart(r.digits, x, y);
    for i := 0 to 5
      invariant |r.digits| == 5 && SumTo(r.digits, x, y, i) && carry == CarryInto(x, y, i) && Small(x) && Small(y)
      invariant |a.digits| == |b.digits| == 5 && a.digits[i..] == x[i..] && b.digits[i..] == y[i..]
    {
      var result: int := a.digits[i] + b.digits[i] + carry;
      assert a.digits[i..][0] == x[i..][0] && b.digits[i..][0] == y[i..][0];
      if result > LIMIT {
        carry := 1;
        result := result - LIMIT;
      } else {
        carry := 0;
      }
      SumNext(r.digits, x, y, i, result);
      r.digits := r.digits[i := result];
    }
  }

  method SubtractDigits(r: BigNum, bigNum: BigNum, smallNum: BigNum) returns (carry: nat)
    requires Small(bigNum.digits) && Small(smallNum.digits) && |r.digits| == 5
    requires Value(smallNum.digits) <= Value(bigNum.digits)
    modifies r`digits
    ensures Small(r.digits) && Value(r.digits) == Value(old(bigNum.digits)) - Value(old(smallNum.digits)) && carry == 0
  {
    hide Low, DifferenceTo;
    ghost var x, y := bigNum.digits, smallNum.digits;
    carry := 0;
    DifferenceStart(r.digits, x, y);
    for i := 0 to 5
      invariant |r.digits| == 5 && DifferenceTo(r.digits, x, y, i) && carry == BorrowInto(x, y, i) && Small(x) && Small(y)
      invariant |bigNum.digits| == |smallNum.digits| == 5 && bigNum.digits[i..] == x[i..] && smallNum.digits[i..] == y[i..]
    {
      var result: int := bigNum.digits[i] - smallNum.digits[i] - carry;
      assert bigNum.digits[i..][0] == x[i..][0] && smallNum.digits[i..][0] == y[i..][0];
      if result < 0 {
        carry := 1;
        result := result + LIMIT;
      } else {
        carry := 0;
      }
      DifferenceNext(r.digits, x, y, i, result);
      r.digits := r.digits[i := result];
    }
    NoBorrowLeft(r.digits, x, y);
  }

  /**
   * _CFBigNumAdd. The signed result and the signed carry make the exact sum, also when the result is one of the
   * operands. Of the cases that leave a normal form, the ones that fail are a digit sum of exactly the base and a
   * negative number plus its opposite.
   */
  method Add(r: BigNum, a: BigNum, b: BigNum) returns (carry: nat)
    requires a.Valid() && b.Valid() && |r.digits| == 5
    modifies r
    ensures |r.digits| == 5 && (r.sign == 0 || r.sign == -1) && (old(a.sign) != old(b.sign) ==> carry == 0)
    ensures Signed(r.digits, r.sign) + (if r.sign < 0 then -1 else 1) * carry * LIMIT_5
         == Signed(old(a.digits), old(a.sign)) + Signed(old(b.digits), old(b.sign))
    ensures Normal(old(a.digits), old(a.sign)) && Normal(old(b.digits), old(b.sign)) ==>
      (Normal(r.digits, r.sign) <==> StaysNormal(old(a.digits), old(a.sign), old(b.digits), old(b.sign)))
  {
    ghost var x, y, sx, sy := a.digits, b.digits, a.sign, b.sign;
    if a.sign == b.sign {
      carry := AddDigits(r, a, b);
      r.sign := a.sign;
      SumNormal(r.digits, x, y, sx);
    } else {
      var bigNum, smallNum := a, b;
      var less := AbsoluteLessThan(a, b);
      if less {
        bigNum, smallNum := b, a;
      }
      carry := SubtractDigits(r, bigNum, smallNum);
      r.sign := if bigNum.sign < 0 then -1 else 0;
      if Value(x) == Value(y) {
        SameValueSameDigits(x, y, 5);
        assert x[..5] == x && y[..5] == y;
      }
    }
  }

  /** When the sum of two normal forms is one. */
  ghost predicate StaysNormal(a: seq<u32>, signA: int, b: seq<u32>, signB: int)
    requires |a| == |b| == 5
  {
    if signA == signB then !HitsLimit(a, b) else !(signA < 0 && a == b)
  }

  /** 999999999 plus 1 is left as one digit of 10^9, and -1 plus 1 as a zero with a sign. */
  lemma SumLeavesNormal(big: seq<u32>, one: seq<u32>)
    requires big == [999_999_999, 0, 0, 0, 0] && one == [1, 0, 0, 0, 0]
    ensures Normal(big, 0) && Normal(one, 0) && Normal(one, -1)
    ensures !StaysNormal(big, 0, one, 0) && SumDigit(big, one, 0) == LIMIT && CarryInto(big, one, 1) == 0
    ensures !StaysNormal(one, -1, one, 0)
  {
    assert SumIsLimit(big, one, 0);
    ZeroValue(one);
  }

  lemma SumNormal(r: seq<u32>, a: seq<u32>, b: seq<u32>, sign: int)
    requires SumTo(r, a, b, 5) && Small(a) && Small(b)
    ensures Normal(a, sign) && Normal(b, sign) ==> (Normal(r, sign) <==> !HitsLimit(a, b))
    ensures Value(r) + CarryInto(a, b, 5) * LIMIT_5 == Value(a) + Value(b)
  {
    forall j: nat | j < 5
      ensures r[j] == SumDigit(a, b, j) && (r[j] == LIMIT <==> SumIsLimit(a, b, j)) && r[j] <= LIMIT
    {
      SumDigitRange(a, b, j);
    }
    ZeroValue(r);
    if Value(r) == 0 {
      ZerosCarryNothing(a, b, 5);
    }
  }

  /** _CFBigNumSub: the same for the difference, by way of a negated copy. */
  method Sub(r: BigNum, a: BigNum, b: BigNum) returns (carry: nat)
    requires a.Valid() && b.Valid() && |r.digits| == 5
    modifies r
    ensures |r.digits| == 5 && (r.sign == 0 || r.sign == -1)
    ensures Value(old(b.digits)) != 0 && old(a.sign) == old(b.sign) ==> carry == 0
    ensures Signed(r.digits, r.sign) + (if r.sign < 0 then -1 else 1) * carry * LIMIT_5
         == Signed(old(a.digits), old(a.sign)) - Signed(old(b.digits), old(b.sign))
    ensures Normal(old(a.digits), old(a.sign)) && Normal(old(b.digits), old(b.sign)) ==>
      (Normal(r.digits, r.sign) <==>
        StaysNormal(old(a.digits), old(a.sign), old(b.digits), OppositeSign(old(b.digits), old(b.sign))))
  {
    ZeroValue(b.digits);
    var nb := new BigNum();
    Neg(nb, b);
    carry := Add(r, a, nb);
  }

  // --------------------------------------------------- machine integers and back

  /** Signed arithmetic of 64 and 128 bits wraps. */
  function Wrap64(x: int): i64 {
    var m := x % TWO_64;
    if m < TWO_63 then m else m - TWO_64
  }

  function Wrap128(x: int): i128 {
    var m := x % TWO_128;
    if m < TWO_127 then m else m - TWO_128
  }

  /** A wrapped number is the one in range that differs by whole turns. */
  lemma WrapsTurns(x: int)
    ensures (Wrap64(x) - x) % TWO_64 == 0 && (Wrap128(x) - x) % TWO_128 == 0
  {
    var k, h := x / TWO_64, x / TWO_128;
    assert x == k * TWO_64 + x % TWO_64 && x == h * TWO_128 + x % TWO_128;
    assert Wrap64(x) - x == (if x % TWO_64 < TWO_63 then -k else -k - 1) * TWO_64;
    assert Wrap128(x) - x == (if x % TWO_128 < TWO_127 then -h else -h - 1) * TWO_128;
  }

  /** Whole turns do not matter to a wrapped number. */
  lemma Turns64(x: int, k: int)
    ensures Wrap64(x + k * TWO_64) == Wrap64(x)
  {
    assert (x + k * TWO_64) % TWO_64 == x % TWO_64;
  }

  /** Wrapping on the way makes no difference in the end. */
  lemma WrapLate64(x: int, y: int)
    ensures Wrap64(Wrap64(x) + y) == Wrap64(x + y) && Wrap64(-1 * Wrap64(x)) == Wrap64(-x)
  {
    var k := if x % TWO_64 < TWO_63 then -(x / TWO_64) else -(x / TWO_64) - 1;
    assert Wrap64(x) == x + k * TWO_64;
    Turns64(x + y, k);
    Turns64(-x, -k);
  }

  lemma Turns128(x: int, k: int)
    ensures Wrap128(x + k * TWO_128) == Wrap128(x)
  {
    assert (x + k * TWO_128) % TWO_128 == x % TWO_128;
  }

  lemma WrapLate128(x: int, y: int)
    ensures Wrap128(Wrap128(x) + y) == Wrap128(x + y) && Wrap128(-1 * Wrap128(x)) == Wrap128(-x)
  {
    var k := if x % TWO_128 < TWO_127 then -(x / TWO_128) else -(x / TWO_128) - 1;
    assert Wrap128(x) == x + k * TWO_128;
    Turns128(x + y, k);
    Turns128(-x, -k);
  }

  /** _CFBigNumInitWithUInt64. */
  method InitWithUInt64(r: BigNum, inNum: u64)
    modifies r
    ensures Normal(r.digits, r.sign) && Signed(r.digits, r.sign) == inNum && r.sign == 0
    ensures r.digits[3] == 0 && r.digits[4] == 0
  {
    var unsignInNum: nat := inNum;
    var dig2 := unsignInNum / LIMIT_2;
    unsignInNum := unsignInNum - dig2 * LIMIT_2;
    var dig1 := unsignInNum / LIMIT;
    r.digits, r.sign := [unsignInNum - dig1 * LIMIT, dig1, dig2, 0, 0], 0;
    ValueIs(r.digits);
  }

  /** _CFBigNumInitWithInt64: the magnitude of the least value only exists modulo 2^64. */
  method InitWithInt64(r: BigNum, inNum: i64)
    modifies r
    ensures Normal(r.digits, r.sign) && Signed(r.digits, r.sign) == inNum
    ensures r.digits[3] == 0 && r.digits[4] == 0
  {
    var unsignInNum: u64 := inNum % TWO_64;
    if inNum < 0 {
      unsignInNum := Wrap64(-1 * inNum) % TWO_64;
    }
    InitWithUInt64(r, unsignInNum);
    if inNum < 0 {
      r.sign := -1;
    }
  }

  /** _CFBigNumGetInt64, which looks at three digits. */
  method GetInt64(num: BigNum) returns (result: i64)
    requires |num.digits| == 5
    ensures result == Wrap64((if num.sign < 0 then -1 else 1) * Low(num.digits, 3))
  {
    LowThree(num.digits);
    var d: int, e: int, f: int := num.digits[0], num.digits[1] * LIMIT, num.digits[2] * LIMIT_2;
    WrapLate64(d + e, f);
    WrapLate64(d + e + f, 0);
    hide Wrap64, Low;
    result := num.digits[0];
    result := Wrap64(result + num.digits[1] * LIMIT);
    result := Wrap64(result + num.digits[2] * LIMIT_2);
    if num.sign < 0 {
      result := Wrap64(-1 * result);
    }
  }

  lemma LowThree(digits: seq<u32>)
    requires |digits| == 5
    ensures Low(digits, 3) == digits[0] + digits[1] * LIMIT + digits[2] * LIMIT_2
    ensures digits[3] == 0 && digits[4] == 0 ==> Low(digits, 3) == Value(digits)
  {
    assert Low(digits, 1) == digits[0];
    assert Low(digits, 2) == digits[0] + digits[1] * LIMIT;
    ValueIs(digits);
  }

  /** _CFBigNumGetUInt64. */
  method GetUInt64(num: BigNum) returns (result: u64)
    requires |num.digits| == 5
    ensures result == Low(num.digits, 3) % TWO_64
  {
    result := num.digits[0];
    result := (result + num.digits[1] * LIMIT) % TWO_64;
    result := (result + num.digits[2] * LIMIT_2) % TWO_64;
    LowThree(num.digits);
  }

  /** Every 64-bit integer, the least one included, comes back. */
  method Int64ThereAndBack(n: i64) returns (back: i64)
    ensures back == n
  {
    var r := new BigNum();
    InitWithInt64(r, n);
    LowThree(r.digits);
    back := GetInt64(r);
  }

  method UInt64ThereAndBack(n: u64) returns (back: u64)
    ensures back == n
  {
    var r := new BigNum();
    InitWithUInt64(r, n);
    LowThree(r.digits);
    back := GetUInt64(r);
  }

  /** _CFBigNumInitWithUInt128. */
  method InitWithUInt128(r: BigNum, inNum: u128)
    modifies r
    ensures Normal(r.digits, r.sign) && Signed(r.digits, r.sign) == inNum && r.sign == 0
  {
    var unsignInNum: nat := inNum;
    var dig4 := unsignInNum / LIMIT_4;
    unsignInNum := unsignInNum - dig4 * LIMIT_4;
    var dig3 := unsignInNum / LIMIT_3;
    unsignInNum := unsignInNum - dig3 * LIMIT_3;
    var dig2 := unsignInNum / LIMIT_2;
    unsignInNum := unsignInNum - dig2 * LIMIT_2;
    var dig1 := unsignInNum / LIMIT;
    r.digits, r.sign := [unsignInNum - dig1 * LIMIT, dig1, dig2, dig3, dig4], 0;
    ValueIs(r.digits);
  }

  /** The magnitude of the least value only exists modulo 2^128. */
  lemma Magnitude128(n: i128)
    ensures n < 0 ==> Wrap128(-1 * n) % TWO_128 == -1 * n
    ensures n >= 0 ==> n % TWO_128 == n
  {
  }

  /** _CFBigNumInitWithInt128. */
  method InitWithInt128(r: BigNum, inNum: i128)
    modifies r
    ensures Normal(r.digits, r.sign) && Signed(r.digits, r.sign) == inNum
  {
    Magnitude128(inNum);
    hide Wrap128;
    var unsignInNum: u128 := inNum % TWO_128;
    if inNum < 0 {
      unsignInNum := Wrap128(-1 * inNum) % TWO_128;
    }
    InitWithUInt128(r, unsignInNum);
    if inNum < 0 {
      r.sign := -1;
    }
  }

  lemma WrapFive(d: int, e: int, f: int, g: int, h: int)
    ensures Wrap128(Wrap128(Wrap128(Wrap128(d + e) + f) + Wrap128(g)) + Wrap128(h)) == Wrap128(d + e + f + g + h)
  {
    WrapLate128(d + e, f);
    WrapLate128(d + e + f, Wrap128(g));
    WrapLate128(g, d + e + f);
    WrapLate128(d + e + f + g, Wrap128(h));
    WrapLate128(h, d + e + f + g);
    hide Wrap128;
  }

  /** _CFBigNumGetInt128. */
  method GetInt128(num: BigNum) returns (result: i128)
    requires |num.digits| == 5
    ensures result == Wrap128(Signed(num.digits, num.sign))
  {
    hide Wrap128, Value;
    ValueIs(num.digits);
    ghost var d: int, e: int, f: int := num.digits[0], num.digits[1] * LIMIT, num.digits[2] * LIMIT_2;
    WrapFive(d, e, f, num.digits[3] * LIMIT_3, num.digits[4] * LIMIT_4);
    WrapLate128(Value(num.digits), 0);
    result := num.digits[0];
    result := Wrap128(result + num.digits[1] * LIMIT);
    result := Wrap128(result + num.digits[2] * LIMIT_2);
    result := Wrap128(result + Wrap128(num.digits[3] * LIMIT_3));
    result := Wrap128(result + Wrap128(num.digits[4] * LIMIT_4));
    if num.sign < 0 {
      result := Wrap128(-1 * result);
    }
  }

  method Int128ThereAndBack(n: i128) returns (back: i128)
    ensures back == n
  {
    var r := new BigNum();
    InitWithInt128(r, n);
    back := GetInt128(r);
  }

  /** _CFBigNumGetUInt128. */
  method GetUInt128(num: BigNum) returns (result: u128)
    requires |num.digits| == 5
    ensures result == Mod128(Value(num.digits))
  {
    hide Mod128, Value;
    ValueIs(num.digits);
    ghost var d: nat, e: nat, f: nat := num.digits[0], num.digits[1] * LIMIT, num.digits[2] * LIMIT_2;
    ghost var g: nat, h: nat := num.digits[3] * LIMIT_3, num.digits[4] * LIMIT_4;
    ModLate128(d + e, f);
    ModLate128(d + e + f, g);
    ModLate128(d + e + f + g, h);
    result := num.digits[0];
    result := Mod128(result + num.digits[1] * LIMIT);
    result := Mod128(result + num.digits[2] * LIMIT_2);
    result := Mod128(result + num.digits[3] * LIMIT_3);
    result := Mod128(result + num.digits[4] * LIMIT_4);
  }

  /** Unsigned arithmetic of 128 bits wraps, too. */
  function Mod128(x: nat): u128 {
    x % TWO_128
  }

  lemma ModLate128(x: nat, y: nat)
    ensures Mod128(Mod128(x) + y) == Mod128(x + y)
  {
    var k := -(x / TWO_128);
    assert Mod128(x) == x + k * TWO_128;
    assert (x + y + k * TWO_128) % TWO_128 == (x + y) % TWO_128;
  }

  method UInt128ThereAndBack(n: u128) returns (back: u128)
    ensures back == n
  {
    var r := new BigNum();
    InitWithUInt128(r, n);
    back := GetUInt128(r);
  }
}
