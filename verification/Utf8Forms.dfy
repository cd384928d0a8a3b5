/** The encoding forms of Unicode: section 3 and 4 of RFC 3629 for UTF-8, section 2.1 of RFC 2781 for UTF-16. */
module Utf8Forms {
  import opened Bytes

  type Scalar = c: int | 0 <= c <= 0x10_FFFF && !(0xD800 <= c <= 0xDFFF)

  // ------------------------------------------------------------- the two forms

  function Utf8(c: Scalar): (s: seq<u8>)
    ensures 1 <= |s| <= 4
  {
    if c < 0x80 then [c]
    else if c < 0x800 then [0xC0 + c / 64, 0x80 + c % 64]
    else if c < 0x1_0000 then [0xE0 + c / 4096, 0x80 + c / 64 % 64, 0x80 + c % 64]
    else [0xF0 + c / 262144, 0x80 + c / 4096 % 64, 0x80 + c / 64 % 64, 0x80 + c % 64]
  }

  function Utf16(c: Scalar): (s: seq<u16>)
    ensures 1 <= |s| <= 2
  {
    if c < 0x1_0000 then [c] else [0xD800 + (c - 0x1_0000) / 0x400, 0xDC00 + (c - 0x1_0000) % 0x400]
  }

  function Utf8All(ss: seq<Scalar>): seq<u8> {
    if ss == [] then [] else Utf8All(ss[..|ss| - 1]) + Utf8(ss[|ss| - 1])
  }

  function Utf16All(ss: seq<Scalar>): seq<u16> {
    if ss == [] then [] else Utf16All(ss[..|ss| - 1]) + Utf16(ss[|ss| - 1])
  }

  /** The examples in section 7 of RFC 3629 and in section 5 of RFC 2781. */
  lemma StandardExamples()
    ensures Utf8(0x41) == [0x41] && Utf8(0x2262) == [0xE2, 0x89, 0xA2] && Utf8(0x391) == [0xCE, 0x91]
    ensures Utf8(0xD55C) == [0xED, 0x95, 0x9C] && Utf8(0x65E5) == [0xE6, 0x97, 0xA5]
    ensures Utf8(0x233B4) == [0xF0, 0xA3, 0x8E, 0xB4]
    ensures Utf16(0x12345) == [0xD808, 0xDF45] && Utf16(0x3D) == [0x3D]
  {
  }

  lemma AppendOne(ss: seq<Scalar>, c: Scalar)
    ensures Utf8All(ss + [c]) == Utf8All(ss) + Utf8(c) && Utf16All(ss + [c]) == Utf16All(ss) + Utf16(c)
  {
    assert (ss + [c])[..|ss|] == ss;
  }

  lemma {:induction false} PrependOne(c: Scalar, ss: seq<Scalar>)
    ensures Utf8All([c] + ss) == Utf8(c) + Utf8All(ss) && Utf16All([c] + ss) == Utf16(c) + Utf16All(ss)
  {
    if ss == [] {
      hide Utf8, Utf16;
      assert [c] + ss == [c];
      assert [c][..0] == [];
    } else {
      hide *;
      var front, last := ss[..|ss| - 1], ss[|ss| - 1];
      PrependOne(c, front);
      assert [c] + ss == ([c] + front) + [last];
      AppendOne([c] + front, last);
      assert ss == front + [last];
      AppendOne(front, last);
      Concat(Utf8(c), Utf8All(front), Utf8(last));
      Concat(Utf16(c), Utf16All(front), Utf16(last));
    }
  }

  // -------------------------------------------------------------- reading UTF-16

  predicate HighSurrogate(u: u16) {
    0xD800 <= u <= 0xDBFF
  }

  predicate LowSurrogate(u: u16) {
    0xDC00 <= u <= 0xDFFF
  }

  function Pair(high: u16, low: u16): Scalar
    requires HighSurrogate(high) && LowSurrogate(low)
  {
    var h: int, l: int := high, low;
    (h - 0xD800) * 0x400 + (l - 0xDC00) + 0x1_0000
  }

  lemma PairInverse(c: Scalar, high: u16, low: u16)
    ensures c >= 0x1_0000 ==>
      HighSurrogate(Utf16(c)[0]) && LowSurrogate(Utf16(c)[1]) && Pair(Utf16(c)[0], Utf16(c)[1]) == c
    ensures HighSurrogate(high) && LowSurrogate(low) ==> Utf16(Pair(high, low)) == [high, low]
  {
  }

  /** The characters before the first unit that is a surrogate out of place. */
  function Parse16(u: seq<u16>): seq<Scalar> {
    if u == [] then []
    else if HighSurrogate(u[0]) then
      if |u| > 1 && LowSurrogate(u[1]) then [Pair(u[0], u[1])] + Parse16(u[2..]) else []
    else if LowSurrogate(u[0]) then []
    else [u[0]] + Parse16(u[1..])
  }

  lemma Parse16Front(c: Scalar, rest: seq<u16>)
    ensures Parse16(Utf16(c) + rest) == [c] + Parse16(rest)
  {
    var u := Utf16(c) + rest;
    assert u[|Utf16(c)|..] == rest;
    if c >= 0x1_0000 {
      PairInverse(c, 0, 0);
      assert u[0] == Utf16(c)[0] && u[1] == Utf16(c)[1];
    }
  }

  lemma Concat<T>(a: seq<T>, b: seq<T>, c: seq<T>)
    ensures (a + b) + c == a + (b + c)
  {
  }

  lemma {:induction false} Parse16Inverse(ss: seq<Scalar>, rest: seq<u16>)
    ensures Parse16(Utf16All(ss) + rest) == ss + Parse16(rest)
  {
    if ss == [] {
      assert Utf16All(ss) + rest == rest;
    } else {
      hide *;
      var c, tail := ss[0], ss[1..];
      assert ss == [c] + tail;
      PrependOne(c, tail);
      Parse16Inverse(tail, rest);
      Concat(Utf16(c), Utf16All(tail), rest);
      Concat([c], tail, Parse16(rest));
      Parse16Front(c, Utf16All(tail) + rest);
    }
  }

  lemma {:induction false} Parse16Prefix(u: seq<u16>)
    ensures Utf16All(Parse16(u)) <= u
  {
    if u != [] && HighSurrogate(u[0]) && |u| > 1 && LowSurrogate(u[1]) {
      Parse16Prefix(u[2..]);
      PairInverse(0, u[0], u[1]);
      hide Utf16, Utf16All, Pair;
      assert u == [u[0], u[1]] + u[2..];
      PrefixStep(Pair(u[0], u[1]), Parse16(u[2..]), u[2..]);
    } else if u != [] && !HighSurrogate(u[0]) && !LowSurrogate(u[0]) {
      Parse16Prefix(u[1..]);
      assert Utf16(u[0]) == [u[0]];
      hide Utf16, Utf16All;
      assert u == [u[0]] + u[1..];
      PrefixStep(u[0], Parse16(u[1..]), u[1..]);
    }
  }

  lemma PrefixStep(c: Scalar, ss: seq<Scalar>, rest: seq<u16>)
    requires Utf16All(ss) <= rest
    ensures Utf16All([c] + ss) <= Utf16(c) + rest
  {
    hide Utf8, Utf16;
    PrependOne(c, ss);
  }

  ghost predicate WellFormed16(u: seq<u16>) {
    exists ss :: Utf16All(ss) == u
  }

  /** The reading goes all the way exactly on well-formed text. */
  lemma WellFormed16Exact(u: seq<u16>)
    ensures WellFormed16(u) <==> Utf16All(Parse16(u)) == u
  {
    if WellFormed16(u) {
      var ss :| Utf16All(ss) == u;
      Parse16Inverse(ss, []);
      assert u + [] == u;
      assert ss + [] == ss;
    }
  }

  // --------------------------------------------------------------- reading UTF-8

  predicate Tail(b: u8) {
    0x80 <= b <= 0xBF
  }

  /** The length of the well-formed sequence at the front of `b`, by the syntax of RFC 3629; 0 if there is none. */
  function SequenceLength(b: seq<u8>): (n: nat)
    ensures n <= |b| && n <= 4
  {
    if |b| >= 1 && b[0] <= 0x7F then 1
    else if |b| >= 2 && 0xC2 <= b[0] <= 0xDF && Tail(b[1]) then 2
    else if |b| >= 3 && ThreeBytes(b[0], b[1]) && Tail(b[2]) then 3
    else if |b| >= 4 && FourBytes(b[0], b[1]) && Tail(b[2]) && Tail(b[3]) then 4
    else 0
  }

  predicate ThreeBytes(b0: u8, b1: u8) {
    || (b0 == 0xE0 && 0xA0 <= b1 <= 0xBF)
    || (0xE1 <= b0 <= 0xEC && Tail(b1))
    || (b0 == 0xED && 0x80 <= b1 <= 0x9F)
    || (0xEE <= b0 <= 0xEF && Tail(b1))
  }

  predicate FourBytes(b0: u8, b1: u8) {
    || (b0 == 0xF0 && 0x90 <= b1 <= 0xBF)
    || (0xF1 <= b0 <= 0xF3 && Tail(b1))
    || (b0 == 0xF4 && 0x80 <= b1 <= 0x8F)
  }

  /** The character that sequence stands for. */
  function ScalarOf(b: seq<u8>): Scalar
    requires SequenceLength(b) > 0
  {
    var b0: int := b[0];
    match SequenceLength(b)
    case 1 => b0
    case 2 => Six(b0 - 0xC0, b[1])
    case 3 => Six(Six(b0 - 0xE0, b[1]), b[2])
    case _ => Six(Six(Six(b0 - 0xF0, b[1]), b[2]), b[3])
  }

  /** Six more bits from a trailing byte. */
  function Six(high: int, b: u8): int {
    var l: int := b;
    high * 64 + l - 0x80
  }

  /** Every character has one well-formed sequence, its encoding. */
  lemma SequenceIsUtf8(b: seq<u8>)
    requires SequenceLength(b) > 0
    ensures Utf8(ScalarOf(b)) == b[..SequenceLength(b)]
  {
    var b0: int := b[0];
    match SequenceLength(b)
    case 1 =>
    case 2 => TwoByteForm(b0 - 0xC0, b[1]);
    case 3 => ThreeByteForm(b0 - 0xE0, b[1], b[2]);
    case _ => FourByteForm(b0 - 0xF0, b[1], b[2], b[3]);
  }

  lemma TwoByteForm(h: nat, b1: u8)
    requires 2 <= h < 0x20 && Tail(b1)
    ensures var c := Six(h, b1); 0x80 <= c < 0x800 && Utf8(c) == [0xC0 + h, b1]
  {
    SixBack(h, b1);
  }

  lemma ThreeByteForm(h: nat, b1: u8, b2: u8)
    requires h < 0x10 && ThreeBytes(0xE0 + h, b1) && Tail(b2)
    ensures var c := Six(Six(h, b1), b2);
      0x800 <= c < 0x1_0000 && !(0xD800 <= c <= 0xDFFF) && Utf8(c) == [0xE0 + h, b1, b2]
  {
    SixBack(h, b1);
    SixBack(Six(h, b1), b2);
    Shifts(Six(Six(h, b1), b2));
  }

  lemma FourByteForm(h: nat, b1: u8, b2: u8, b3: u8)
    requires h < 8 && FourBytes(0xF0 + h, b1) && Tail(b2) && Tail(b3)
    ensures var c := Six(Six(Six(h, b1), b2), b3);
      0x1_0000 <= c <= 0x10_FFFF && Utf8(c) == [0xF0 + h, b1, b2, b3]
  {
    FourByteRange(h, b1, b2, b3);
    hide Six, FourBytes;
    SixBack(h, b1);
    SixBack(Six(h, b1), b2);
    SixBack(Six(Six(h, b1), b2), b3);
    Shifts(Six(Six(Six(h, b1), b2), b3));
  }

  lemma FourByteRange(h: nat, b1: u8, b2: u8, b3: u8)
    requires h < 8 && FourBytes(0xF0 + h, b1) && Tail(b2) && Tail(b3)
    ensures 0x1_0000 <= Six(Six(Six(h, b1), b2), b3) <= 0x10_FFFF && Tail(b1)
  {
  }

  lemma SixBack(high: int, b: u8)
    requires Tail(b) && high >= 0
    ensures Six(high, b) >= 0 && Six(high, b) / 64 == high && Six(high, b) % 64 == b - 0x80
  {
  }

  lemma Shifts(c: nat)
    ensures c / 4096 == c / 64 / 64 && c / 262144 == c / 64 / 64 / 64
  {
  }

  lemma Utf8IsSequence(c: Scalar, rest: seq<u8>)
    ensures SequenceLength(Utf8(c) + rest) == |Utf8(c)| && ScalarOf(Utf8(c) + rest) == c
  {
    Utf8Alone(c);
    hide Utf8;
    SequenceBefore(Utf8(c), rest);
  }

  lemma Utf8Alone(c: Scalar)
    ensures SequenceLength(Utf8(c)) == |Utf8(c)| && ScalarOf(Utf8(c)) == c
  {
    SixForth(c);
    if 0x800 <= c < 0x1_0000 {
      ThreeByteHead(c);
    } else if 0x1_0000 <= c {
      FourByteHead(c);
    }
    hide Six, ThreeBytes, FourBytes;
  }

  lemma ThreeByteHead(c: Scalar)
    requires 0x800 <= c < 0x1_0000
    ensures 0 <= c / 4096 < 0x10 && ThreeBytes(0xE0 + c / 4096, 0x80 + c / 64 % 64)
  {
    Shifts(c);
  }

  lemma FourByteHead(c: Scalar)
    requires 0x1_0000 <= c
    ensures 0 <= c / 262144 < 8 && FourBytes(0xF0 + c / 262144, 0x80 + c / 4096 % 64)
  {
    Shifts(c);
  }

  lemma SixForth(c: Scalar)
    ensures Six(c / 64, 0x80 + c % 64) == c
    ensures Six(c / 4096, 0x80 + c / 64 % 64) == c / 64
    ensures Six(c / 262144, 0x80 + c / 4096 % 64) == c / 4096
  {
    Shifts(c);
  }

  /** What follows a sequence makes no difference. */
  lemma SequenceBefore(s: seq<u8>, rest: seq<u8>)
    requires SequenceLength(s) == |s| > 0
    ensures SequenceLength(s + rest) == |s| && ScalarOf(s + rest) == ScalarOf(s)
  {
    hide ThreeBytes, FourBytes, Tail, Six;
  }
}
