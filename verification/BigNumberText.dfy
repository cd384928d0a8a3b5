/** Printing and parsing of CFBigNumber.c. */
module BigNumberText {
  import opened Bytes
  import opened BigNumber

  const NUL: char := '\0'

  predicate IsDigits(s: string) {
    forall i: nat :: i < |s| ==> '0' <= s[i] <= '9'
  }

  /** What a string of digits says. */
  function Decimal(s: string): nat
    requires IsDigits(s)
  {
    if s == [] then 0 else Decimal(s[..|s| - 1]) * 10 + (s[|s| - 1] as int - '0' as int)
  }

  function Pow10(n: nat): (p: nat)
    ensures p > 0
  {
    if n == 0 then 1 else 10 * Pow10(n - 1)
  }

  lemma {:induction false} DecimalConcat(a: string, b: string)
    requires IsDigits(a) && IsDigits(b)
    ensures IsDigits(a + b) && Decimal(a + b) == Decimal(a) * Pow10(|b|) + Decimal(b)
  {
    if b == [] {
      assert a + b == a;
    } else {
      var front := b[..|b| - 1];
      DecimalConcat(a, front);
      assert (a + b)[..|a + b| - 1] == a + front;
      assert Decimal(a) * Pow10(|b|) == Decimal(a) * Pow10(|front|) * 10;
    }
  }

  lemma {:induction false} DecimalBound(s: string)
    requires IsDigits(s)
    ensures Decimal(s) < Pow10(|s|)
  {
    if s != [] {
      DecimalBound(s[..|s| - 1]);
    }
  }

  lemma Pow10Of9()
    ensures Pow10(9) == LIMIT
  {
    assert Pow10(3) == 1000;
    assert Pow10(6) == 1000 * Pow10(3);
    assert Pow10(9) == 1000 * Pow10(6);
  }

  function Zeros(n: nat): (s: string)
    ensures |s| == n && IsDigits(s) && forall i: nat :: i < n ==> s[i] == '0'
  {
    seq(n, _ => '0')
  }

  /** Leading zeros say nothing. */
  lemma {:induction false} LeadingZeros(n: nat, s: string)
    requires IsDigits(s)
    ensures IsDigits(Zeros(n) + s) && Decimal(Zeros(n) + s) == Decimal(s)
  {
    hide Decimal, Pow10, IsDigits, Zeros;
    FirstZero(n, s);
    if n > 0 {
      LeadingZeros(n - 1, s);
      DecimalConcat("0", Zeros(n - 1) + s);
      assert Zeros(n) + s == "0" + (Zeros(n - 1) + s);
    }
  }

  lemma FirstZero(n: nat, s: string)
    ensures IsDigits("0") && Decimal("0") == 0
    ensures if n == 0 then Zeros(n) + s == s else Zeros(n) == "0" + Zeros(n - 1)
  {
    assert "0"[..0] == "";
  }

  // -------------------------------------------------------------------- printing

  /** `%09u` and its like: `n` digits. */
  function Padded(d: nat, n: nat): (s: string)
    requires d < Pow10(n)
    ensures |s| == n && IsDigits(s) && Decimal(s) == d
  {
    if n == 0 then ""
    else
      var front := Padded(d / 10, n - 1);
      var s := front + [(d % 10 + '0' as int) as char];
      assert s[..n - 1] == front;
      s
  }

  /** `%09u`: a tenth character for 10^9 and more. */
  function NineOrTen(d: u32): (s: string)
    ensures |s| == (if d < LIMIT then 9 else 10) && IsDigits(s) && Decimal(s) == d
  {
    Pow10Of9();
    if d < LIMIT then Padded(d, 9) else Padded(d, 10)
  }

  /** The highest `n` digits one after the other. */
  function Joined(digits: seq<u32>, n: nat): string
    requires n <= |digits| == 5
  {
    if n == 0 then "" else Joined(digits, n - 1) + NineOrTen(digits[5 - n])
  }

  function High(digits: seq<u32>, n: nat): nat
    requires n <= |digits| == 5
  {
    if n == 0 then 0 else High(digits, n - 1) * LIMIT + digits[5 - n]
  }

  /** How many of them take ten characters. */
  function Wide(digits: seq<u32>, n: nat): nat
    requires n <= |digits| == 5
  {
    if n == 0 then 0 else Wide(digits, n - 1) + if digits[5 - n] < LIMIT then 0 else 1
  }

  /** Ten characters move what stands before them up by one place too many. */
  lemma {:induction false} JoinedValue(digits: seq<u32>, n: nat)
    requires n <= |digits| == 5
    ensures IsDigits(Joined(digits, n)) && |Joined(digits, n)| == 9 * n + Wide(digits, n)
    ensures Wide(digits, n) == 0 ==> Decimal(Joined(digits, n)) == High(digits, n)
    ensures Wide(digits, n) > 0 ==> Decimal(Joined(digits, n)) < Pow10(Wide(digits, n)) * High(digits, n)
  {
    hide Decimal, Pow10, IsDigits, NineOrTen;
    NoText();
    if n > 0 {
      JoinedValue(digits, n - 1);
      var front, d := Joined(digits, n - 1), digits[5 - n];
      DecimalConcat(front, NineOrTen(d));
      Pow10Of9();
      TenTimes(9);
      TenTimes(Wide(digits, n - 1));
      OneMoreDigit(Decimal(front), Pow10(Wide(digits, n - 1)), High(digits, n - 1), d, Wide(digits, n - 1) == 0);
    }
  }

  lemma NoText()
    ensures IsDigits("") && Decimal("") == 0 && Pow10(0) == 1
  {
  }

  lemma TenTimes(k: nat)
    ensures Pow10(k + 1) == 10 * Pow10(k)
  {
  }

  lemma OneMoreDigit(front: nat, m: nat, high: nat, d: nat, exact: bool)
    requires m > 0 && if exact then front == high && m == 1 else front < m * high
    ensures d < LIMIT && exact ==> front * LIMIT + d == high * LIMIT + d
    ensures d < LIMIT && !exact ==> front * LIMIT + d < m * (high * LIMIT + d)
    ensures d >= LIMIT ==> front * (10 * LIMIT) + d < 10 * m * (high * LIMIT + d)
  {
    var t := m * high;
    assert m * (high * LIMIT + d) == t * LIMIT + m * d;
    Product(m, d);
    if !exact {
      assert front * LIMIT <= (t - 1) * LIMIT;
    }
  }

  /** The 45 characters there is room for. */
  function AllDigits(digits: seq<u32>): (s: string)
    requires |digits| == 5
    ensures |s| == 45 && IsDigits(s)
  {
    JoinedValue(digits, 5);
    Joined(digits, 5)[..45]
  }

  /** They say the number if its digits are below the base, and too little otherwise. */
  lemma AllDigitsExact(digits: seq<u32>)
    requires |digits| == 5
    ensures Decimal(AllDigits(digits)) <= Value(digits)
    ensures Decimal(AllDigits(digits)) == Value(digits) <==> Small(digits)
  {
    hide Decimal, Pow10, Joined, Wide, High, Value, Small;
    JoinedValue(digits, 5);
    HighIsValue(digits);
    WideDigits(digits);
    var all, m := Joined(digits, 5), Wide(digits, 5);
    if m == 0 {
      assert all[..45] == all;
    } else {
      assert all == all[..45] + all[45..];
      DecimalConcat(all[..45], all[45..]);
      LessThanShare(Decimal(all[..45]), Pow10(m), Value(digits));
    }
  }

  lemma LessThanShare(a: nat, m: nat, v: nat)
    requires a * m < m * v
    ensures a < v
  {
    if a >= v {
      assert a * m == m * v + (a - v) * m;
      NotNegative(a - v, m);
    }
  }

  lemma NotNegative(a: nat, b: nat)
    ensures a * b >= 0
  {
  }

  lemma HighIsValue(digits: seq<u32>)
    requires |digits| == 5
    ensures High(digits, 5) == Value(digits)
  {
    ValueIs(digits);
    assert High(digits, 1) == digits[4];
    assert High(digits, 2) == digits[4] * LIMIT + digits[3];
    assert High(digits, 3) == High(digits, 2) * LIMIT + digits[2];
    assert High(digits, 4) == High(digits, 3) * LIMIT + digits[1];
  }

  lemma WideDigits(digits: seq<u32>)
    requires |digits| == 5
    ensures Wide(digits, 5) == 0 <==> Small(digits)
  {
    assert Wide(digits, 1) == if digits[4] < LIMIT then 0 else 1;
    assert Wide(digits, 2) == Wide(digits, 1) + if digits[3] < LIMIT then 0 else 1;
    assert Wide(digits, 3) == Wide(digits, 2) + if digits[2] < LIMIT then 0 else 1;
    assert Wide(digits, 4) == Wide(digits, 3) + if digits[1] < LIMIT then 0 else 1;
  }

  function SignText(sign: int, leadingPlus: bool): string {
    if sign < 0 then "-" else if leadingPlus then "+" else ""
  }

  /** `body` is a way to write `value`: no more zeros than asked for, but at least one digit. */
  ghost predicate Writes(body: string, value: nat, leadingZeros: bool) {
    && IsDigits(body) && body != [] && Decimal(body) == value
    && (leadingZeros || |body| == 1 || body[0] != '0')
  }

  /**
   * What room for `n` characters makes of that: with leading zeros the last `n` digits, otherwise the first `n`
   * characters of the form without any.
   */
  ghost predicate Printed(body: string, value: nat, leadingZeros: bool, n: nat) {
    IsDigits(body) &&
    if leadingZeros then |body| == n && Decimal(body) == value % Pow10(n)
    else exists full: string :: Writes(full, value, false) && body == Cut(full, n)
  }

  function Cut(s: string, n: nat): string {
    if |s| <= n then s else s[..n]
  }

  /** The text says the number exactly if the number has no more digits than there is room for. */
  lemma PrintedExact(body: string, value: nat, leadingZeros: bool, n: nat)
    requires Printed(body, value, leadingZeros, n)
    ensures Decimal(body) <= value && (Decimal(body) == value <==> value < Pow10(n))
    ensures Writes(body, value, leadingZeros) <==> value < Pow10(n) && n > 0
  {
    hide Decimal, Pow10;
    if leadingZeros {
      DecimalBound(body);
      Remainder(value, Pow10(n));
    } else {
      var full: string :| Writes(full, value, false) && body == Cut(full, n);
      PrefixExact(full, n);
    }
  }

  lemma Remainder(a: nat, b: nat)
    requires b > 0
    ensures 0 <= a % b <= a && a % b < b && (a % b == a <==> a < b)
  {
    var q, r := a / b, a % b;
    assert a == q * b + r;
    if q > 0 {
      Product(q, b);
    }
  }

  /** The digits that are cut off count, unless the number is 0. */
  lemma PrefixExact(full: string, n: nat)
    requires IsDigits(full) && Writes(full, Decimal(full), false)
    ensures var body := if |full| <= n then full else full[..n];
      && Decimal(body) <= Decimal(full) && (Decimal(body) == Decimal(full) <==> Decimal(full) < Pow10(n))
      && (Writes(body, Decimal(full), false) <==> Decimal(full) < Pow10(n) && n > 0)
  {
    hide Decimal, Pow10;
    if |full| <= n {
      DecimalBound(full);
      Pow10Monotone(|full|, n);
    } else {
      DecimalConcat(full[..n], full[n..]);
      assert full == full[..n] + full[n..];
      Tenfold(Decimal(full[..n]), |full| - n);
      DecimalStart(full);
      if n > 0 {
        Pow10Monotone(n, |full| - 1);
        PrefixPositive(full, n);
      } else {
        assert full[..n] == "";
        NoDigits();
      }
    }
  }

  lemma NoDigits()
    ensures Decimal("") == 0 && Pow10(0) == 1
  {
  }

  lemma Tenfold(a: nat, k: nat)
    requires k > 0
    ensures a * Pow10(k) >= 10 * a
  {
    assert a * Pow10(k) == 10 * (a * Pow10(k - 1));
    if a > 0 {
      Product(Pow10(k - 1), a);
    }
  }

  lemma PrefixPositive(full: string, n: nat)
    requires IsDigits(full) && 0 < n < |full| && full[0] != '0'
    ensures Decimal(full[..n]) > 0
  {
    DecimalStart(full[..n]);
    hide Decimal;
  }

  /** A first digit other than 0 gives a number its size. */
  lemma DecimalStart(s: string)
    requires IsDigits(s) && s != []
    ensures s[0] != '0' ==> Decimal(s) >= Pow10(|s| - 1)
  {
    assert s == s[..1] + s[1..];
    DecimalConcat(s[..1], s[1..]);
    if s[0] != '0' {
      assert Decimal(s[..1]) >= 1 by {
        assert s[..1][..0] == "";
      }
      Product(Decimal(s[..1]), Pow10(|s| - 1));
    }
  }

  /**
   * _CFBigNumToCString, into any buffer with room for the sign: as much of the number in decimal as there is room
   * for, without leading zeros, or with as many as fill the buffer. Without room for the end of a string there is
   * none.
   */
  method ToCString(vp: BigNum, leadingZeros: bool, leadingPlus: bool, buffer: array<char>) returns (ghost body: string)
    requires |vp.digits| == 5 && buffer.Length >= |SignText(vp.sign, leadingPlus)|
    modifies buffer
    ensures var sign := SignText(vp.sign, leadingPlus);
      if buffer.Length == |sign| then buffer[..] == sign
      else
        && Printed(body, Decimal(AllDigits(vp.digits)), leadingZeros, buffer.Length - 1 - |sign|)
        && |sign + body| < buffer.Length && buffer[..|sign + body|] == sign + body && buffer[|sign + body|] == NUL
    ensures buffer.Length > 0 ==>
      (buffer[0] == '-' <==> vp.sign < 0) && (buffer[0] == '+' <==> vp.sign >= 0 && leadingPlus)
    ensures buffer.Length > 0 && vp.sign >= 0 && !leadingPlus ==>
      if buffer.Length == 1 then buffer[0] == NUL else '0' <= buffer[0] <= '9'
    ensures var room := buffer.Length - if vp.sign < 0 || leadingPlus then 2 else 1;
      room > 0 ==> if leadingZeros then |body| == room else 0 < |body| <= room && (body[0] != '0' || body == "0")
  {
    hide AllDigits, Decimal, Printed, IsDigits, SignText;
    var tmp := AllDigits(vp.digits);
    var at := PutSign(vp.sign, leadingPlus, buffer);
    body := PutDigits(leadingZeros, buffer, at, tmp);
    if at < buffer.Length {
      JoinedText(buffer[..at + |body|], SignText(vp.sign, leadingPlus), body);
      FirstDigit(body, Decimal(tmp), leadingZeros, buffer.Length - 1 - at);
    }
    TextStarts(buffer[..], vp.sign, leadingPlus, body);
  }

  /** With room for a digit there is one, and it is no superfluous zero unless zeros were asked for. */
  lemma FirstDigit(body: string, value: nat, leadingZeros: bool, n: nat)
    requires Printed(body, value, leadingZeros, n)
    ensures IsDigits(body)
    ensures if leadingZeros then |body| == n else n > 0 ==> 0 < |body| <= n && (body[0] != '0' || body == "0")
  {
    hide Decimal, Pow10;
    if !leadingZeros {
      var full: string :| Writes(full, value, false) && body == Cut(full, n);
      assert n > 0 && full[0] == '0' ==> body == full == ['0'];
    }
  }

  lemma TextStarts(text: string, sign: int, leadingPlus: bool, body: string)
    requires var s := SignText(sign, leadingPlus);
      if |text| == |s| then text == s
      else |s + body| < |text| && text[..|s + body|] == s + body && text[|s + body|] == NUL
    requires |text| > |SignText(sign, leadingPlus)| ==>
      IsDigits(body) && (body == "" ==> |text| == |SignText(sign, leadingPlus)| + 1)
    ensures |text| > 0 ==> (text[0] == '-' <==> sign < 0) && (text[0] == '+' <==> sign >= 0 && leadingPlus)
    ensures |text| > 0 && sign >= 0 && !leadingPlus ==> if |text| == 1 then text[0] == NUL else '0' <= text[0] <= '9'
  {
    var s := SignText(sign, leadingPlus);
    if |text| > |s| {
      assert text[0] == text[..|s + body| + 1][0];
      assert s + body != "" ==> text[0] == (s + body)[0];
    }
  }

  method PutDigits(leadingZeros: bool, buffer: array<char>, at: nat, tmp: string) returns (ghost body: string)
    requires IsDigits(tmp) && |tmp| == 45 && at <= buffer.Length
    modifies buffer
    ensures buffer[..at] == old(buffer[..at])
    ensures at < buffer.Length ==>
      && Printed(body, Decimal(tmp), leadingZeros, buffer.Length - 1 - at) && at + |body| < buffer.Length
      && buffer[at..at + |body|] == body && buffer[at + |body|] == NUL
  {
    hide Decimal, Printed, IsDigits;
    if leadingZeros {
      body := PutPadded(buffer, at, tmp);
    } else {
      body := PutStripped(buffer, at, tmp);
    }
  }

  method PutPadded(buffer: array<char>, at: nat, tmp: string) returns (ghost body: string)
    requires IsDigits(tmp) && |tmp| == 45 && at <= buffer.Length
    modifies buffer
    ensures buffer[..at] == old(buffer[..at])
    ensures at < buffer.Length ==>
      && Printed(body, Decimal(tmp), true, buffer.Length - 1 - at) && at + |body| == buffer.Length - 1
      && buffer[at..at + |body|] == body && buffer[at + |body|] == NUL
  {
    hide Decimal, Printed;
    var buflen: nat := buffer.Length - at;
    FillZeros(buffer, at);
    var toCopy := if 46 < buflen then 46 else buflen;
    body := "";
    if buflen > 0 {
      LastDigits(tmp, buflen - 1);
      body := Zeros(buflen - toCopy) + tmp[46 - toCopy..];
      ghost var filled := buffer[..buffer.Length - toCopy];
      CopyText(buffer, buffer.Length - toCopy, tmp[46 - toCopy..]);
      assert filled[at..] == Zeros(buflen - toCopy);
      assert buffer[..at] == filled[..at] && buffer[at..buffer.Length - toCopy] == filled[at..];
      assert buffer[buffer.Length - toCopy..buffer.Length - 1] == tmp[46 - toCopy..];
      assert buffer[at..at + |body|]
          == buffer[at..buffer.Length - toCopy] + buffer[buffer.Length - toCopy..buffer.Length - 1];
    }
  }

  /** The last `n` of 45 digits, or all of them behind zeros. */
  lemma LastDigits(tmp: string, n: nat)
    requires IsDigits(tmp) && |tmp| == 45
    ensures var cut := if 45 < n then 45 else n;
      Printed(Zeros(n - cut) + tmp[45 - cut..], Decimal(tmp), true, n)
  {
    hide Decimal, Pow10;
    var cut := if 45 < n then 45 else n;
    var high, low := tmp[..45 - cut], tmp[45 - cut..];
    assert tmp == high + low;
    DecimalConcat(high, low);
    DecimalBound(low);
    LeadingZeros(n - cut, low);
    if 45 < n {
      assert low == tmp;
      Pow10Monotone(45, n);
      Remainder(Decimal(tmp), Pow10(n));
    } else {
      Turns(Decimal(high), Pow10(n), Decimal(low));
    }
  }

  lemma Turns(q: nat, b: nat, r: nat)
    requires r < b
    ensures (q * b + r) % b == r
  {
    var a := q * b + r;
    var q', r' := a / b, a % b;
    assert a == q' * b + r' && 0 <= r' < b;
    if q' < q {
      Product(q - q', b);
    } else if q < q' {
      Product(q' - q, b);
    }
  }

  method PutStripped(buffer: array<char>, at: nat, tmp: string) returns (ghost body: string)
    requires IsDigits(tmp) && |tmp| == 45 && at <= buffer.Length
    modifies buffer
    ensures buffer[..at] == old(buffer[..at])
    ensures at < buffer.Length ==>
      && Printed(body, Decimal(tmp), false, buffer.Length - 1 - at) && at + |body| < buffer.Length
      && buffer[at..at + |body|] == body && buffer[at + |body|] == NUL
  {
    hide Decimal;
    var s := SkipZeros(tmp);
    var buflen: nat := buffer.Length - at;
    body := "";
    if buflen > 0 {
      var full := tmp[s..];
      assert Writes(full, Decimal(tmp), false);
      assert |Cut(full, buflen - 1)| < buflen;
      hide Cut, Writes;
      CopyText(buffer, at, Cut(full, buflen - 1));
      body := Cut(full, buflen - 1);
    }
  }

  method PutSign(sign: int, leadingPlus: bool, buffer: array<char>) returns (at: nat)
    requires buffer.Length >= |SignText(sign, leadingPlus)|
    modifies buffer
    ensures at == |SignText(sign, leadingPlus)| && buffer[..at] == SignText(sign, leadingPlus)
    ensures at == if sign < 0 || leadingPlus then 1 else 0
  {
    at := 0;
    if sign < 0 {
      buffer[0], at := '-', 1;
    } else if leadingPlus {
      buffer[0], at := '+', 1;
    }
  }

  /** memset. */
  method FillZeros(buffer: array<char>, at: nat)
    requires at <= buffer.Length
    modifies buffer
    ensures buffer[..at] == old(buffer[..at]) && forall i: nat :: at <= i < buffer.Length ==> buffer[i] == '0'
  {
    forall i | at <= i < buffer.Length {
      buffer[i] := '0';
    }
  }

  /** A copy of a string with its end. */
  method CopyText(buffer: array<char>, at: nat, text: string)
    requires at + |text| < buffer.Length
    modifies buffer
    ensures buffer[..at] == old(buffer[..at]) && buffer[at..at + |text|] == text && buffer[at + |text|] == NUL
  {
    forall i | 0 <= i < |text| {
      buffer[at + i] := text[i];
    }
    buffer[at + |text|] := NUL;
  }

  lemma JoinedText(all: string, a: string, b: string)
    requires |all| == |a| + |b| && all[..|a|] == a && all[|a|..] == b
    ensures all == a + b
  {
  }

  /** How many leading zeros may go; the last digit stays. */
  method SkipZeros(tmp: string) returns (s: nat)
    requires IsDigits(tmp) && tmp != []
    ensures s < |tmp| && IsDigits(tmp[s..]) && Decimal(tmp[s..]) == Decimal(tmp)
    ensures s == |tmp| - 1 || tmp[s] != '0'
  {
    s := 0;
    while s < |tmp| && tmp[s] == '0'
      invariant s <= |tmp| && forall i: nat :: i < s ==> tmp[i] == '0'
    {
      s := s + 1;
    }
    if s == |tmp| {
      s := s - 1;
    }
    assert tmp == Zeros(s) + tmp[s..];
    LeadingZeros(s, tmp[s..]);
  }

  // --------------------------------------------------------------------- parsing

  /** A sign, if any, and digits. */
  ghost predicate Numeral(text: string, sign: string, body: string) {
    text == sign + body && IsDigits(body) && (sign == "" || sign == "+" || sign == "-")
  }

  /** Nine more digits in their place. */
  lemma Group(c: nat, high: nat, d: nat)
    requires c < 4
    ensures (high * LIMIT + d) * Weight(c) == high * Weight(c + 1) + d * Weight(c)
  {
  }

  /** atol, which stops at the largest long. */
  function Atol(s: string): nat
    requires IsDigits(s)
  {
    if Decimal(s) < TWO_63 then Decimal(s) else TWO_63 - 1
  }

  /**
   * _CFBigNumFromCString, on a sign and digits: the number they say, exactly if what its last 36 digits leave over
   * fits 32 bits, and with digits below the base if it has at most 45. A zero keeps a minus sign.
   */
  method FromCString(r: BigNum, text: string, ghost sign: string, ghost body: string)
    requires Numeral(text, sign, body)
    modifies r
    ensures |r.digits| == 5 && r.sign == if sign == "-" then -1 else 0
    ensures Value(r.digits) == Decimal(body) <==> Decimal(body) < TWO_32 * LIMIT_4
    ensures Decimal(body) < LIMIT_5 ==> Small(r.digits)
  {
    hide Decimal;
    r.digits, r.sign := [0, 0, 0, 0, 0], 0;
    var working := text;
    if working != "" && working[0] == '-' {
      r.sign := -1;
      working := working[1..];
    } else if working != "" && working[0] == '+' {
      working := working[1..];
    }
    assert working == body;
    working := DropZeros(working);
    ParseGroups(r, working);
  }

  method DropZeros(working: string) returns (rest: string)
    requires IsDigits(working)
    ensures IsDigits(rest) && Decimal(rest) == Decimal(working) && (rest == "" || rest[0] != '0')
  {
    hide Decimal;
    var s := 0;
    while s < |working| && working[s] == '0'
      invariant s <= |working| && forall i: nat :: i < s ==> working[i] == '0'
    {
      s := s + 1;
    }
    rest := working[s..];
    assert working == Zeros(s) + rest;
    LeadingZeros(s, rest);
  }

  lemma Product(a: nat, b: nat)
    requires a >= 1
    ensures a * b >= b
  {
    if a > 1 {
      assert a * b == b + (a - 1) * b;
    }
  }

  lemma {:induction false} Pow10Monotone(m: nat, n: nat)
    requires m <= n
    ensures Pow10(m) <= Pow10(n)
  {
    if m < n {
      Pow10Monotone(m, n - 1);
    }
  }

  /** The groups of nine digits, from the last. */
  method ParseGroups(r: BigNum, working: string)
    requires IsDigits(working) && r.digits == [0, 0, 0, 0, 0]
    modifies r`digits
    ensures |r.digits| == 5 && (Value(r.digits) == Decimal(working) <==> Decimal(working) < TWO_32 * LIMIT_4)
    ensures Decimal(working) < LIMIT_5 ==> Small(r.digits)
  {
    var length := |working|;
    ZeroValue(r.digits);
    if length == 0 {
      return;
    }
    var curDigit: nat := 0;
    assert working[..length] == working;
    while curDigit + 1 < 5 && 9 < length
      invariant curDigit < 5 && 0 < length <= |working| && length + 9 * curDigit == |working|
      invariant Small(r.digits) && forall j: nat :: curDigit <= j < 5 ==> r.digits[j] == 0
      invariant Low(r.digits, curDigit) + Decimal(working[..length]) * Weight(curDigit) == Decimal(working)
    {
      r.digits := ParseGroup(r.digits, working, length, curDigit);
      length := length - 9;
      curDigit := curDigit + 1;
    }
    LastGroup(r.digits, working[..length], curDigit);
    r.digits := r.digits[curDigit := Atol(working[..length]) % TWO_32];
  }

  method ParseGroup(digits: seq<u32>, working: string, length: nat, curDigit: nat) returns (r: seq<u32>)
    requires IsDigits(working) && 9 < length <= |working| && curDigit < 4 && Small(digits)
    requires forall j: nat :: curDigit <= j < 5 ==> digits[j] == 0
    ensures Small(r) && forall j: nat :: curDigit + 1 <= j < 5 ==> r[j] == 0
    ensures Low(r, curDigit + 1) + Decimal(working[..length - 9]) * Weight(curDigit + 1)
         == Low(digits, curDigit) + Decimal(working[..length]) * Weight(curDigit)
  {
    var group := working[length - 9..length];
    DecimalBound(group);
    Pow10Of9();
    assert working[..length] == working[..length - 9] + group;
    DecimalConcat(working[..length - 9], group);
    Group(curDigit, Decimal(working[..length - 9]), Decimal(group));
    r := digits[curDigit := Decimal(group)];
    hide Decimal, Weight;
    LowFrame(r, digits, curDigit);
  }

  /** What is left over: nine digits at most, or all there are above the lowest four groups. */
  lemma LastGroup(digits: seq<u32>, group: string, curDigit: nat)
    requires IsDigits(group) && curDigit < 5 && Small(digits) && (curDigit < 4 ==> |group| <= 9)
    requires forall j: nat :: curDigit <= j < 5 ==> digits[j] == 0
    ensures var r := digits[curDigit := Atol(group) % TWO_32];
      var number := Low(digits, curDigit) + Decimal(group) * Weight(curDigit);
      && (Value(r) == number <==> number < TWO_32 * LIMIT_4)
      && (number < LIMIT_5 ==> Small(r))
  {
    hide Decimal, Pow10, Atol, IsDigits, Value, Low;
    AtolExact(group);
    var digit := Atol(group) % TWO_32;
    var r := digits[curDigit := digit];
    LowBound(digits, curDigit);
    LowFrame(r, digits, curDigit);
    HighZeros(r, curDigit + 1);
    LowNext(r, curDigit);
    if curDigit < 4 {
      LowBound(r, 5);
      HighZeros(r, 5);
    }
  }

  /** A long in 32 bits. */
  lemma AtolExact(group: string)
    requires IsDigits(group)
    ensures Atol(group) % TWO_32 == Decimal(group) <==> Decimal(group) < TWO_32
    ensures |group| <= 9 ==> Decimal(group) < LIMIT
  {
    if |group| <= 9 {
      DecimalBound(group);
      Pow10Of9();
      Pow10Monotone(|group|, 9);
    }
    hide Decimal, Pow10;
  }

  lemma {:induction false} HighZeros(digits: seq<u32>, n: nat)
    requires |digits| == 5 && n <= 5 && forall j: nat :: n <= j < 5 ==> digits[j] == 0
    ensures Value(digits) == Low(digits, n)
    decreases 5 - n
  {
    if n < 5 {
      HighZeros(digits, n + 1);
    }
  }

  /**
   * Whatever the flags, printing into a buffer with room for a string and parsing that give a normal form back
   * exactly if the number has no more digits than the buffer has room for beside the sign and the end.
   */
  method ThereAndBack(v: BigNum, leadingZeros: bool, leadingPlus: bool, buffer: array<char>) returns (back: BigNum)
    requires Normal(v.digits, v.sign) && buffer.Length > |SignText(v.sign, leadingPlus)|
    modifies buffer
    ensures back.digits == v.digits && back.sign == v.sign
      <==> Value(v.digits) < Pow10(buffer.Length - 1 - |SignText(v.sign, leadingPlus)|)
  {
    hide Printed, Writes, Decimal, Pow10, AllDigits;
    AllDigitsExact(v.digits);
    ghost var sign := SignText(v.sign, leadingPlus);
    ghost var body := ToCString(v, leadingZeros, leadingPlus, buffer);
    PrintedDigits(body, Value(v.digits), leadingZeros, buffer.Length - 1 - |sign|);
    PrintedExact(body, Value(v.digits), leadingZeros, buffer.Length - 1 - |sign|);
    NoNul(sign + body, sign, body);
    var n := StringLength(buffer, sign + body);
    back := new BigNum();
    LowBound(v.digits, 5);
    FromCString(back, buffer[..n], sign, body);
    if Value(back.digits) == Value(v.digits) {
      SameValueSameDigits(v.digits, back.digits, 5);
      assert v.digits[..5] == v.digits && back.digits[..5] == back.digits;
    }
  }

  lemma PrintedDigits(body: string, value: nat, leadingZeros: bool, n: nat)
    requires Printed(body, value, leadingZeros, n)
    ensures IsDigits(body)
  {
  }

  /** strlen. */
  method StringLength(buffer: array<char>, ghost text: string) returns (n: nat)
    requires |text| < buffer.Length && buffer[..|text|] == text && buffer[|text|] == NUL
    requires forall i: nat :: i < |text| ==> text[i] != NUL
    ensures n == |text|
  {
    n := 0;
    while buffer[n] != NUL
      invariant n <= |text| && |text| < buffer.Length && buffer[|text|] == NUL
      invariant forall i: nat :: i < |text| ==> buffer[i] == text[i]
      decreases |text| - n
    {
      n := n + 1;
    }
  }

  lemma NoNul(text: string, sign: string, body: string)
    requires Numeral(text, sign, body)
    ensures forall i: nat :: i < |text| ==> text[i] != NUL
  {
  }
}
