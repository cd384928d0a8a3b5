/** The UTF-8 converters of CFBuiltinConverters.c, with default flags. */
module Utf8Converter {
  import opened Bytes
  import opened Utf8Forms

  // -------------------------------------------------------------------- encoding

  /** `(ch | 0x80) & 0xBF`, the low six bits of a code in a trailing byte. */
  function TrailingByte(ch: nat): u8 {
    0x80 + ch % 64
  }

  /** __CFUTF8BytesToWriteForCharacter, on a code below 2^21. */
  function BytesToWrite(ch: nat): nat {
    if ch < 0x80 then 1
    else if ch < 0x800 then 2
    else if ch < 0x1_0000 then 3
    else 4
  }

  /** The bytes of a code, by the shifts that make them. */
  lemma CoreBytes(code: Scalar)
    ensures |Utf8(code)| == BytesToWrite(code)
    ensures var c: nat, u := code, Utf8(code);
      match BytesToWrite(code)
      case 1 => u[0] == c
      case 2 => u[1] == TrailingByte(c) && u[0] == c / 64 + 0xC0
      case 3 => u[2] == TrailingByte(c) && u[1] == TrailingByte(c / 64) && u[0] == c / 64 / 64 + 0xE0
      case _ =>
        && u[3] == TrailingByte(c) && u[2] == TrailingByte(c / 64) && u[1] == TrailingByte(c / 64 / 64)
        && u[0] == c / 64 / 64 / 64 + 0xF0
  {
    Shifts(code);
  }

  /** __CFToUTF8Core: trailing bytes from the last to the first, then the marked head. */
  method ToUtf8Core(code: Scalar, bytes: array<u8>, at: nat, maxByteLen: u32) returns (n: nat)
    requires at + maxByteLen <= bytes.Length
    modifies bytes
    ensures n == if maxByteLen < |Utf8(code)| then 0 else |Utf8(code)|
    ensures bytes[..at] == old(bytes[..at]) && n <= maxByteLen
    ensures n > 0 ==> bytes[at..at + n] == Utf8(code)
  {
    CoreBytes(code);
    hide Utf8, TrailingByte;
    n := BytesToWrite(code);
    if maxByteLen < n {
      return 0;
    }
    var ch: nat := code;
    if n >= 4 {
      bytes[at + 3] := TrailingByte(ch);
      ch := ch / 64;
    }
    if n >= 3 {
      bytes[at + 2] := TrailingByte(ch);
      ch := ch / 64;
    }
    if n >= 2 {
      bytes[at + 1] := TrailingByte(ch);
      ch := ch / 64;
    }
    bytes[at] := ch + if n == 1 then 0 else if n == 2 then 0xC0 else if n == 3 then 0xE0 else 0xF0;
  }

  /** There is no room for character `k` behind those before it; the core is told the room left modulo 2^32. */
  ghost predicate OutOfRoom(ss: seq<Scalar>, k: nat, maxByteLen: nat) {
    && k < |ss| && 0 < maxByteLen
    && var used := |Utf8All(ss[..k])|;
    && used <= maxByteLen
    && (used == maxByteLen || (ss[k] >= 0x80 && (maxByteLen - used) % TWO_32 < |Utf8(ss[k])|))
  }

  /** The encoder gets as far as the first character it has no room for. */
  ghost predicate StopsAt(ss: seq<Scalar>, k: nat, maxByteLen: nat) {
    && (k == |ss| || OutOfRoom(ss, k, maxByteLen))
    && forall j: nat :: j < k ==> !OutOfRoom(ss, j, maxByteLen)
  }

  /** Where an encoding of `u` stands after its first `k` characters. */
  ghost predicate Encoded(u: seq<u16>, k: nat, read: nat, used: nat) {
    var ss := Parse16(u);
    k <= |ss| && read == |Utf16All(ss[..k])| <= |u| && used == |Utf8All(ss[..k])|
    && Parse16(u[read..]) == ss[k..]
  }

  lemma StartEncoding(u: seq<u16>)
    ensures Encoded(u, 0, 0, 0)
  {
    assert u[0..] == u;
  }

  /** The next character, if there is one. */
  lemma NextCharacter(u: seq<u16>, k: nat, read: nat, used: nat)
    requires Encoded(u, k, read, used) && k < |Parse16(u)|
    ensures var c := Parse16(u)[k];
      && Encoded(u, k + 1, read + |Utf16(c)|, used + |Utf8(c)|) && read < |u|
      && Utf8All(Parse16(u)[..k + 1]) == Utf8All(Parse16(u)[..k]) + Utf8(c)
      && u[read..] == Utf16(c) + u[read + |Utf16(c)|..]
  {
    hide Utf8, Utf16, Utf8All, Utf16All, Parse16;
    var ss, rest := Parse16(u), u[read..];
    var c := ss[k];
    assert ss[..k + 1] == ss[..k] + [c];
    AppendOne(ss[..k], c);
    FirstCharacter(rest);
    assert ss[k..][0] == c && ss[k..][1..] == ss[k + 1..];
    assert rest[|Utf16(c)|..] == u[read + |Utf16(c)|..];
  }

  lemma FirstCharacter(u: seq<u16>)
    requires Parse16(u) != []
    ensures var c := Parse16(u)[0]; Utf16(c) <= u && Parse16(u[|Utf16(c)|..]) == Parse16(u)[1..]
  {
    if HighSurrogate(u[0]) {
      PairInverse(0, u[0], u[1]);
      assert u[..2] == [u[0], u[1]];
    }
  }

  /** What the encoder sees at the front of the rest of its text. */
  lemma FrontTells(u: seq<u16>)
    requires u != []
    ensures Parse16(u) == [] <==>
      (HighSurrogate(u[0]) && !(|u| > 1 && LowSurrogate(u[1]))) || LowSurrogate(u[0])
    ensures Parse16(u) != [] ==>
      Parse16(u)[0] == if HighSurrogate(u[0]) && |u| > 1 && LowSurrogate(u[1]) then Pair(u[0], u[1]) else u[0]
  {
  }

  /**
   * __CFToUTF8: the bytes written are the encoding of exactly the units read, up to a surrogate out of place
   * or the first character without room; a limit of 0 only counts. `k` is the number of characters encoded.
   */
  method ToUtf8(characters: seq<u16>, bytes: array<u8>, maxByteLen: nat) returns (read: nat, used: nat, ghost k: nat)
    requires maxByteLen <= bytes.Length
    modifies bytes
    ensures Encoded(characters, k, read, used) && (maxByteLen > 0 ==> used <= maxByteLen)
    ensures maxByteLen > 0 ==> bytes[..used] == Utf8All(Parse16(characters)[..k])
    ensures StopsAt(Parse16(characters), k, maxByteLen)
  {
    hide Utf8, Utf16, Utf8All, Utf16All, Parse16, Encoded;
    ghost var ss := Parse16(characters);
    read, used, k := 0, 0, 0;
    StartEncoding(characters);
    NothingEncoded(ss);
    while read < |characters| && (maxByteLen == 0 || used < maxByteLen)
      invariant Encoded(characters, k, read, used) && k <= |ss| && read <= |characters|
      invariant maxByteLen > 0 ==> used <= maxByteLen && bytes[..used] == Utf8All(ss[..k])
      invariant forall j: nat :: j < k ==> !OutOfRoom(ss, j, maxByteLen)
      decreases |characters| - read
    {
      EncodedRest(characters, k, read, used);
      EncodedLength(characters, k, read, used);
      FrontTells(characters[read..]);
      var ch: int := characters[read];
      if 0xD800 <= ch <= 0xDBFF {
        if read + 1 < |characters| && 0xDC00 <= characters[read + 1] <= 0xDFFF {
          ch := Pair(characters[read], characters[read + 1]);
        } else {
          return;
        }
      } else if 0xDC00 <= ch <= 0xDFFF {
        return;
      }
      assert ss[k] == ch;
      NextCharacter(characters, k, read, used);
      Utf16Length(ch);
      var written := WriteCharacter(ch, bytes, used, maxByteLen);
      if written == 0 {
        return;
      }
      read, used, k := read + if ch < 0x1_0000 then 1 else 2, used + written, k + 1;
    }
    EncodedRest(characters, k, read, used);
    EncodedLength(characters, k, read, used);
  }

  lemma Utf16Length(c: Scalar)
    ensures |Utf16(c)| == if c < 0x1_0000 then 1 else 2
  {
  }

  lemma NothingEncoded(ss: seq<Scalar>)
    ensures Utf8All(ss[..0]) == []
  {
  }

  lemma EncodedRest(u: seq<u16>, k: nat, read: nat, used: nat)
    requires Encoded(u, k, read, used)
    ensures k <= |Parse16(u)| && read <= |u| && Parse16(u[read..]) == Parse16(u)[k..]
    ensures read == |u| ==> k == |Parse16(u)|
  {
  }

  /** One character's bytes, or their number; 0 if there is no room. */
  method WriteCharacter(ch: Scalar, bytes: array<u8>, used: nat, maxByteLen: nat) returns (written: nat)
    requires maxByteLen <= bytes.Length && (maxByteLen > 0 ==> used < maxByteLen)
    modifies bytes
    ensures if maxByteLen > 0 && ch >= 0x80 && (maxByteLen - used) % TWO_32 < |Utf8(ch)| then written == 0
      else written == |Utf8(ch)|
    ensures maxByteLen > 0 ==> used + written <= maxByteLen && bytes[..used] == old(bytes[..used])
    ensures maxByteLen > 0 && written > 0 ==> bytes[..used + written] == old(bytes[..used]) + Utf8(ch)
  {
    if ch < 0x80 {
      if maxByteLen > 0 {
        bytes[used] := ch;
      }
      return 1;
    }
    if maxByteLen > 0 {
      written := ToUtf8Core(ch, bytes, used, (maxByteLen - used) % TWO_32);
      assert bytes[..used + written] == bytes[..used] + bytes[used..used + written];
    } else {
      written := BytesToWrite(ch);
    }
  }

  /**
   * The encoder gets to the end of the well-formed start of a text exactly if no character is out of room; that is
   * if there is room for all its bytes and, since the room left is passed in 32 bits, no character but ASCII meets
   * one that leaves less than its own bytes modulo 2^32.
   */
  lemma ReachesEnd(ss: seq<Scalar>, k: nat, maxByteLen: nat)
    requires StopsAt(ss, k, maxByteLen)
    ensures k == |ss| <==> forall j: nat :: j < |ss| ==> !OutOfRoom(ss, j, maxByteLen)
    ensures k == |ss| <==> maxByteLen == 0 || (|Utf8All(ss)| <= maxByteLen && RoomInLowBits(ss, maxByteLen))
  {
    hide Utf8, Utf16, Utf8All, Utf16All;
    if k == |ss| && maxByteLen > 0 {
      RoomToTheEnd(ss, |ss|, maxByteLen);
      assert ss[..|ss|] == ss;
    } else if k < |ss| && |Utf8All(ss)| <= maxByteLen {
      RoomAt(ss, k, maxByteLen);
    }
  }

  ghost predicate RoomInLowBits(ss: seq<Scalar>, maxByteLen: nat) {
    forall j: nat :: j < |ss| && ss[j] >= 0x80 ==> |Utf8(ss[j])| <= (maxByteLen - |Utf8All(ss[..j])|) % TWO_32
  }

  lemma {:induction false} RoomToTheEnd(ss: seq<Scalar>, k: nat, maxByteLen: nat)
    requires k <= |ss| && maxByteLen > 0 && forall j: nat :: j < k ==> !OutOfRoom(ss, j, maxByteLen)
    ensures |Utf8All(ss[..k])| <= maxByteLen
    ensures forall j: nat :: j < k && ss[j] >= 0x80 ==>
      |Utf8(ss[j])| <= (maxByteLen - |Utf8All(ss[..j])|) % TWO_32
  {
    hide Utf16, Utf8All, Utf16All;
    if k == 0 {
      NothingEncoded(ss);
    } else {
      RoomToTheEnd(ss, k - 1, maxByteLen);
      assert ss[..k] == ss[..k - 1] + [ss[k - 1]];
      AppendOne(ss[..k - 1], ss[k - 1]);
      assert !OutOfRoom(ss, k - 1, maxByteLen);
    }
  }

  /** What is left before a character is at least its own bytes. */
  lemma RoomAt(ss: seq<Scalar>, k: nat, maxByteLen: nat)
    requires k < |ss| && |Utf8All(ss)| <= maxByteLen
    ensures |Utf8All(ss[..k])| + |Utf8(ss[k])| <= maxByteLen
  {
    hide Utf8, Utf16, Utf8All, Utf16All;
    Utf8AllMonotone(ss, k + 1);
    assert ss[..k + 1] == ss[..k] + [ss[k]];
    AppendOne(ss[..k], ss[k]);
  }

  /** With room for all of it, less than 2^32 bytes, the well-formed start of a text is encoded to the end. */
  lemma EnoughRoom(ss: seq<Scalar>, k: nat, maxByteLen: nat)
    requires StopsAt(ss, k, maxByteLen) && |Utf8All(ss)| <= maxByteLen < TWO_32
    ensures k == |ss|
  {
    hide Utf8, Utf16, Utf8All, Utf16All;
    if k < |ss| {
      RoomAt(ss, k, maxByteLen);
    }
  }

  /** The two bytes of U+0080 do not get into a buffer of 2^32 bytes: the room passed on is 0. */
  lemma RoomLost(u: seq<u16>, k: nat, read: nat, used: nat)
    requires u == [0x80] && Encoded(u, k, read, used) && StopsAt(Parse16(u), k, TWO_32)
    ensures |Utf8All(Parse16(u))| == 2 && k == 0 && read == 0 && used == 0
  {
    assert u[1..] == [] && Parse16([]) == [];
    var ss := Parse16(u);
    assert ss == [0x80];
    assert ss[..0] == [] && Utf8All(ss) == Utf8All(ss[..0]) + Utf8(0x80);
    assert OutOfRoom(ss, 0, TWO_32);
  }

  /** All the text has been read exactly if it is well-formed and the encoder got to the end. */
  lemma ReadsAll(u: seq<u16>, k: nat, read: nat, used: nat)
    requires Encoded(u, k, read, used)
    ensures read == |u| <==> k == |Parse16(u)| && WellFormed16(u)
  {
    WellFormed16Exact(u);
    Parse16Prefix(u);
    EncodedRest(u, k, read, used);
    var ss := Parse16(u);
    assert k == |ss| ==> ss[..k] == ss;
  }

  lemma {:induction false} Utf8AllMonotone(ss: seq<Scalar>, k: nat)
    requires k <= |ss|
    ensures |Utf8All(ss[..k])| <= |Utf8All(ss)|
    decreases |ss|
  {
    hide Utf8;
    if k < |ss| {
      var front := ss[..|ss| - 1];
      Utf8AllMonotone(front, k);
      assert front[..k] == ss[..k];
    } else {
      assert ss[..k] == ss;
    }
  }

  /** The codes __CFToUTF8Len counts: as in UTF-16, with each surrogate out of place for itself. */
  function Codes(u: seq<u16>): seq<nat> {
    if u == [] then []
    else if HighSurrogate(u[0]) && |u| > 1 && LowSurrogate(u[1]) then [Pair(u[0], u[1]) as nat] + Codes(u[2..])
    else [u[0] as nat] + Codes(u[1..])
  }

  function TotalBytes(codes: seq<nat>): nat {
    if codes == [] then 0 else BytesToWrite(codes[0]) + TotalBytes(codes[1..])
  }

  /** __CFToUTF8Len, as a 32-bit count: a surrogate out of place counts for three bytes. */
  method ToUtf8Len(characters: seq<u16>) returns (r: u32)
    ensures r == TotalBytes(Codes(characters)) % TWO_32
  {
    hide TotalBytes, Codes;
    r := 0;
    var at: nat := 0;
    ghost var left := TotalBytes(Codes(characters));
    assert characters[0..] == characters;
    while at < |characters|
      invariant at <= |characters| && left == TotalBytes(Codes(characters[at..]))
      invariant (r + left) % TWO_32 == TotalBytes(Codes(characters)) % TWO_32
    {
      NextCode(characters, at);
      var ch: int := characters[at];
      at := at + 1;
      if 0xD800 <= ch <= 0xDBFF && at < |characters| && 0xDC00 <= characters[at] <= 0xDFFF {
        ch := Pair(ch, characters[at]);
        at := at + 1;
      }
      r := (r + BytesToWrite(ch)) % TWO_32;
      left := left - BytesToWrite(ch);
    }
    NoCodes(characters);
  }

  lemma NextCode(u: seq<u16>, at: nat)
    requires at < |u|
    ensures if HighSurrogate(u[at]) && at + 1 < |u| && LowSurrogate(u[at + 1]) then
      TotalBytes(Codes(u[at..])) == BytesToWrite(Pair(u[at], u[at + 1])) + TotalBytes(Codes(u[at + 2..]))
      else TotalBytes(Codes(u[at..])) == BytesToWrite(u[at]) + TotalBytes(Codes(u[at + 1..]))
  {
    var rest := u[at..];
    if HighSurrogate(u[at]) && at + 1 < |u| && LowSurrogate(u[at + 1]) {
      assert rest[2..] == u[at + 2..];
    } else {
      assert rest[1..] == u[at + 1..];
    }
  }

  lemma NoCodes(u: seq<u16>)
    ensures TotalBytes(Codes(u[|u|..])) == 0
  {
  }

  /** What a unit adds to the count: three bytes, but two for each half of a pair, and less for small ones. */
  function UnitBytes(u: seq<u16>, i: nat): nat
    requires i < |u|
  {
    if u[i] <= 0x7F then 1
    else if u[i] <= 0x7FF then 2
    else if 0xD800 <= u[i] <= 0xDBFF && i + 1 < |u| && 0xDC00 <= u[i + 1] <= 0xDFFF then 2
    else if 0xDC00 <= u[i] <= 0xDFFF && i > 0 && 0xD800 <= u[i - 1] <= 0xDBFF then 2
    else 3
  }

  function BytesFrom(u: seq<u16>, at: nat): nat
    requires at <= |u|
    decreases |u| - at
  {
    if at == |u| then 0 else UnitBytes(u, at) + BytesFrom(u, at + 1)
  }

  /** On any text, the count from anywhere but the middle of a pair is the sum over the units. */
  lemma {:induction false} CodesExact(u: seq<u16>, at: nat)
    requires at <= |u| && (0 < at < |u| ==> !(HighSurrogate(u[at - 1]) && LowSurrogate(u[at])))
    ensures TotalBytes(Codes(u[at..])) == BytesFrom(u, at)
    decreases |u| - at
  {
    if at == |u| {
      NoCodes(u);
    } else {
      NextCode(u, at);
      if HighSurrogate(u[at]) && at + 1 < |u| && LowSurrogate(u[at + 1]) {
        CodesExact(u, at + 2);
        assert BytesFrom(u, at + 1) == UnitBytes(u, at + 1) + BytesFrom(u, at + 2);
      } else {
        CodesExact(u, at + 1);
      }
      hide Codes, TotalBytes;
    }
  }

  /** Surrogates out of place: three bytes each. */
  lemma LoneSurrogates()
    ensures TotalBytes(Codes([0xD800])) == 3 && TotalBytes(Codes([0xDC00, 0xD800])) == 6
    ensures TotalBytes(Codes([0xD800, 0xDC00])) == 4
  {
    forall u: seq<u16> | u in {[0xD800], [0xDC00, 0xD800], [0xD800, 0xDC00]}
      ensures TotalBytes(Codes(u)) == BytesFrom(u, 0)
    {
      assert u[0..] == u;
      CodesExact(u, 0);
    }
    hide TotalBytes, Codes;
    assert BytesFrom([0xDC00, 0xD800], 1) == 3 && BytesFrom([0xD800, 0xDC00], 1) == 2;
  }

  /** On well-formed text that is the real length of its encoding. */
  lemma {:induction false} CodesOfText(u: seq<u16>)
    requires WellFormed16(u)
    ensures TotalBytes(Codes(u)) == |Utf8All(Parse16(u))|
  {
    WellFormed16Exact(u);
    if u != [] {
      var ss := Parse16(u);
      FrontTells(u);
      CodesStart(u);
      var c, rest := ss[0], u[|Utf16(ss[0])|..];
      hide Codes;
      FirstCharacter(u);
      assert ss == [c] + ss[1..];
      PrependOne(c, ss[1..]);
      assert Utf16All(ss[1..]) == rest;
      CodesOfText(rest);
      Utf8Length(c);
    }
  }

  lemma CodesStart(u: seq<u16>)
    requires Utf16All(Parse16(u)) == u && u != []
    ensures Parse16(u) != [] && |Utf16(Parse16(u)[0])| <= |u|
    ensures TotalBytes(Codes(u)) == BytesToWrite(Parse16(u)[0]) + TotalBytes(Codes(u[|Utf16(Parse16(u)[0])|..]))
  {
    FrontTells(u);
  }

  lemma Utf8Length(c: Scalar)
    ensures |Utf8(c)| == BytesToWrite(c)
  {
  }

  lemma EncodedLength(u: seq<u16>, k: nat, read: nat, used: nat)
    requires Encoded(u, k, read, used)
    ensures k <= |Parse16(u)| && used == |Utf8All(Parse16(u)[..k])|
  {
  }

  // -------------------------------------------------------------------- decoding

  /** What the decoder makes of its bytes: characters, and copyright bytes standing alone. */
  datatype Piece = Character(c: Scalar) | Stray

  function PieceBytes(p: Piece): (s: seq<u8>)
    ensures 1 <= |s| <= 4
  {
    match p
    case Character(c) => Utf8(c)
    case Stray => [0xA9]
  }

  function PieceUnits(p: Piece): (s: seq<u16>)
    ensures 1 <= |s| <= 2
  {
    match p
    case Character(c) => Utf16(c)
    case Stray => [0xFFFD]
  }

  function BytesOf(ps: seq<Piece>): seq<u8> {
    if ps == [] then [] else BytesOf(ps[..|ps| - 1]) + PieceBytes(ps[|ps| - 1])
  }

  function UnitsOf(ps: seq<Piece>): seq<u16> {
    if ps == [] then [] else UnitsOf(ps[..|ps| - 1]) + PieceUnits(ps[|ps| - 1])
  }

  function PieceAt(b: seq<u8>): Option<Piece> {
    if SequenceLength(b) > 0 then Some(Character(ScalarOf(b)))
    else if b != [] && b[0] == 0xA9 then Some(Stray)
    else None
  }

  lemma PieceAtPrefix(b: seq<u8>)
    ensures PieceAt(b).Some? ==> PieceBytes(PieceAt(b).value) <= b
  {
    if SequenceLength(b) > 0 {
      SequenceIsUtf8(b);
    }
  }

  /** The pieces at the front of `b`, as many as there are. */
  function Parse(b: seq<u8>): seq<Piece>
    decreases |b|
  {
    match PieceAt(b)
    case None => []
    case Some(p) =>
      PieceAtPrefix(b);
      [p] + Parse(b[|PieceBytes(p)|..])
  }

  lemma PieceFront(p: Piece, rest: seq<u8>)
    ensures PieceAt(PieceBytes(p) + rest) == Some(p)
  {
    if p.Character? {
      Utf8IsSequence(p.c, rest);
    }
  }

  lemma AppendPiece(ps: seq<Piece>, p: Piece)
    ensures BytesOf(ps + [p]) == BytesOf(ps) + PieceBytes(p) && UnitsOf(ps + [p]) == UnitsOf(ps) + PieceUnits(p)
  {
    assert (ps + [p])[..|ps|] == ps;
  }

  lemma {:induction false} PrependPiece(p: Piece, ps: seq<Piece>)
    ensures BytesOf([p] + ps) == PieceBytes(p) + BytesOf(ps)
  {
    if ps == [] {
      hide PieceBytes;
      assert [p] + ps == [p];
      assert [p][..0] == [];
    } else {
      hide *;
      var front, last := ps[..|ps| - 1], ps[|ps| - 1];
      PrependPiece(p, front);
      assert [p] + ps == ([p] + front) + [last];
      AppendPiece([p] + front, last);
      assert ps == front + [last];
      AppendPiece(front, last);
      Concat(PieceBytes(p), BytesOf(front), PieceBytes(last));
    }
  }

  lemma ParseFront(p: Piece, rest: seq<u8>)
    ensures Parse(PieceBytes(p) + rest) == [p] + Parse(rest)
  {
    PieceFront(p, rest);
    hide PieceBytes, PieceAt;
    assert (PieceBytes(p) + rest)[|PieceBytes(p)|..] == rest;
  }

  /** A copyright byte that starts no character decodes to the replacement character; any other such byte ends it. */
  lemma StrayBytes(b: seq<u8>)
    requires b != [] && SequenceLength(b) == 0
    ensures b[0] == 0xA9 ==> UnitsOf(Parse(b)) == [0xFFFD] + UnitsOf(Parse(b[1..]))
    ensures b[0] != 0xA9 ==> Parse(b) == []
  {
    if b[0] == 0xA9 {
      UnitsFront(Stray, Parse(b[1..]));
    }
  }

  lemma {:induction false} UnitsFront(p: Piece, ps: seq<Piece>)
    ensures UnitsOf([p] + ps) == PieceUnits(p) + UnitsOf(ps)
  {
    if ps == [] {
      hide PieceUnits;
      assert [p] + ps == [p] && [p][..0] == [];
    } else {
      hide *;
      var front, last := ps[..|ps| - 1], ps[|ps| - 1];
      UnitsFront(p, front);
      assert [p] + ps == ([p] + front) + [last] && ps == front + [last];
      AppendPiece([p] + front, last);
      AppendPiece(front, last);
      Concat(PieceUnits(p), UnitsOf(front), PieceUnits(last));
    }
  }

  lemma {:induction false} ParseInverse(ps: seq<Piece>, rest: seq<u8>)
    ensures Parse(BytesOf(ps) + rest) == ps + Parse(rest)
  {
    if ps == [] {
      assert BytesOf(ps) + rest == rest;
    } else {
      hide *;
      var p, tail := ps[0], ps[1..];
      assert ps == [p] + tail;
      PrependPiece(p, tail);
      ParseInverse(tail, rest);
      Concat(PieceBytes(p), BytesOf(tail), rest);
      Concat([p], tail, Parse(rest));
      ParseFront(p, BytesOf(tail) + rest);
    }
  }

  lemma {:induction false} ParsePrefix(b: seq<u8>)
    ensures BytesOf(Parse(b)) <= b
    decreases |b|
  {
    PieceAtPrefix(b);
    if PieceAt(b).Some? {
      var p := PieceAt(b).value;
      var rest := b[|PieceBytes(p)|..];
      ParsePrefix(rest);
      hide BytesOf, PieceBytes, PieceAt;
      PrependPiece(p, Parse(rest));
      assert b == PieceBytes(p) + rest;
    }
  }

  /** No prefix of `b` made of well-formed sequences and stray bytes is longer than what Parse takes. */
  lemma LongestPrefix(b: seq<u8>, ps: seq<Piece>)
    requires BytesOf(ps) <= b
    ensures BytesOf(Parse(b)) <= b && |BytesOf(ps)| <= |BytesOf(Parse(b))| && ps <= Parse(b)
  {
    var rest := b[|BytesOf(ps)|..];
    assert b == BytesOf(ps) + rest;
    ParseInverse(ps, rest);
    ParsePrefix(b);
    BytesMonotone(ps + Parse(rest), |ps|);
    assert (ps + Parse(rest))[..|ps|] == ps;
  }

  lemma {:induction false} BytesMonotone(ps: seq<Piece>, k: nat)
    requires k <= |ps|
    ensures |BytesOf(ps[..k])| <= |BytesOf(ps)| && |UnitsOf(ps[..k])| <= |UnitsOf(ps)|
    decreases |ps|
  {
    hide PieceBytes, PieceUnits;
    if k < |ps| {
      var front := ps[..|ps| - 1];
      BytesMonotone(front, k);
      assert front[..k] == ps[..k];
    } else {
      assert ps[..k] == ps;
    }
  }

  // ------------------------------------------------------------------ round trip

  function Characters(ss: seq<Scalar>): seq<Piece> {
    seq(|ss|, i requires 0 <= i < |ss| => Character(ss[i]))
  }

  lemma {:induction false} CharactersForms(ss: seq<Scalar>)
    ensures BytesOf(Characters(ss)) == Utf8All(ss) && UnitsOf(Characters(ss)) == Utf16All(ss)
  {
    if ss != [] {
      var front := ss[..|ss| - 1];
      CharactersForms(front);
      assert Characters(ss)[..|ss| - 1] == Characters(front);
      hide Utf8, Utf16;
    }
  }

  /** What the encoder makes of well-formed text, the decoder takes to the end and turns back into that text. */
  lemma RoundTrip(u: seq<u16>)
    requires WellFormed16(u)
    ensures var b := Utf8All(Parse16(u)); BytesOf(Parse(b)) == b && UnitsOf(Parse(b)) == u
  {
    var ss := Parse16(u);
    WellFormed16Exact(u);
    CharactersForms(ss);
    ParseInverse(Characters(ss), []);
    assert Utf8All(ss) + [] == Utf8All(ss) && Characters(ss) + Parse([]) == Characters(ss);
  }

  /** And well-formed bytes without strays are the encoding of the text they decode to. */
  lemma RoundTripBytes(b: seq<u8>, ss: seq<Scalar>)
    requires Parse(b) == Characters(ss) && BytesOf(Parse(b)) == b
    ensures Utf8All(Parse16(UnitsOf(Parse(b)))) == b
  {
    CharactersForms(ss);
    Parse16Inverse(ss, []);
    assert Utf16All(ss) + [] == Utf16All(ss) && ss + Parse16([]) == ss;
  }

  // ----------------------------------------------------------- the decoder's loops

  /** trailingBytesForUTF8. */
  function TrailingBytes(head: u8): nat {
    if head < 0xC0 then 0
    else if head < 0xE0 then 1
    else if head < 0xF0 then 2
    else if head < 0xF8 then 3
    else if head < 0xFC then 4
    else 5
  }

  /** __CFIsLegalUTF8: exactly the syntax of section 4 of RFC 3629, for the length the head calls for. */
  method IsLegalUTF8(source: seq<u8>, length: nat) returns (r: bool)
    requires source != [] && length == TrailingBytes(source[0]) + 1 <= |source|
    ensures r <==> SequenceLength(source) == length
  {
    if length > 4 {
      return false;
    }
    var srcptr := length;
    var head := source[0];
    srcptr := srcptr - 1;
    while srcptr > 0
      invariant 0 <= srcptr < length
      invariant forall i: nat :: srcptr < i < length ==> Tail(source[i])
    {
      if !Tail(source[srcptr]) {
        return false;
      }
      srcptr := srcptr - 1;
    }
    if (0x80 <= head < 0xC2) || head > 0xF4 {
      return false;
    }
    if (head == 0xE0 && source[1] < 0xA0) || (head == 0xED && source[1] > 0x9F)
      || (head == 0xF0 && source[1] < 0x90) || (head == 0xF4 && source[1] > 0x8F) {
      return false;
    }
    return true;
  }

  /** offsetsFromUTF8, for up to three trailing bytes. */
  function Offset(extra: nat): nat {
    if extra == 0 then 0 else if extra == 1 then 0x3080 else if extra == 2 then 0xE2080 else 0x3C82080
  }

  /** The shifts and additions over the bytes of a sequence, and the subtraction at the end. */
  method Accumulate(source: seq<u8>, extra: nat) returns (ch: int)
    requires extra <= 3 && SequenceLength(source) == extra + 1
    ensures ch == ScalarOf(source)
  {
    ch := 0;
    var at: nat := 0;
    if extra >= 3 {
      ch := (ch + source[at]) * 64;
      at := at + 1;
    }
    if extra >= 2 {
      ch := (ch + source[at]) * 64;
      at := at + 1;
    }
    if extra >= 1 {
      ch := (ch + source[at]) * 64;
      at := at + 1;
    }
    ch := ch + source[at];
    ch := ch - Offset(extra);
  }

  /** Where a decoding of `b` stands after its first `k` pieces. */
  ghost predicate Decoded(b: seq<u8>, k: nat, at: nat, used: nat) {
    var ps := Parse(b);
    k <= |ps| && at == |BytesOf(ps[..k])| <= |b| && used == |UnitsOf(ps[..k])| && Parse(b[at..]) == ps[k..]
  }

  lemma StartDecoding(b: seq<u8>)
    ensures Decoded(b, 0, 0, 0) && UnitsOf(Parse(b)[..0]) == []
  {
    assert b[0..] == b;
  }

  lemma NextPiece(b: seq<u8>, k: nat, at: nat, used: nat)
    requires Decoded(b, k, at, used)
    ensures k <= |Parse(b)| && at <= |b|
    ensures PieceAt(b[at..]).None? <==> k == |Parse(b)|
    ensures k < |Parse(b)| ==>
      var p := Parse(b)[k];
      && PieceAt(b[at..]) == Some(p) && Decoded(b, k + 1, at + |PieceBytes(p)|, used + |PieceUnits(p)|)
      && UnitsOf(Parse(b)[..k + 1]) == UnitsOf(Parse(b)[..k]) + PieceUnits(p)
  {
    hide PieceBytes, PieceUnits, PieceAt, BytesOf, UnitsOf, Parse;
    var ps, rest := Parse(b), b[at..];
    ParseTells(rest);
    if k < |ps| {
      var p := ps[k];
      assert ps[..k + 1] == ps[..k] + [p];
      AppendPiece(ps[..k], p);
      assert ps[k..][0] == p && ps[k..][1..] == ps[k + 1..];
      assert rest[|PieceBytes(p)|..] == b[at + |PieceBytes(p)|..];
    }
  }

  lemma ParseTells(b: seq<u8>)
    ensures PieceAt(b).None? <==> Parse(b) == []
    ensures Parse(b) != [] ==>
      var p := Parse(b)[0]; PieceAt(b) == Some(p) && PieceBytes(p) <= b && Parse(b)[1..] == Parse(b[|PieceBytes(p)|..])
  {
    PieceAtPrefix(b);
    hide PieceBytes, PieceAt;
  }

  /** The one case in which bytes are taken that nothing is written for: two units, with room for one. */
  ghost predicate CutCharacter(ps: seq<Piece>, k: nat, maxCharLen: nat) {
    k < |ps| && ps[k].Character? && ps[k].c >= 0x1_0000 && |UnitsOf(ps[..k])| + 1 == maxCharLen
  }

  /** Where the decoder stops: at the end of the pieces, with the buffer full, or cutting a character. */
  ghost predicate DecoderStopsAt(ps: seq<Piece>, k: nat, maxCharLen: nat) {
    && k <= |ps| && (0 < maxCharLen ==> |UnitsOf(ps[..k])| <= maxCharLen)
    && (k == |ps| || (0 < maxCharLen && (|UnitsOf(ps[..k])| == maxCharLen || CutCharacter(ps, k, maxCharLen))))
  }

  /** What a step finds out about the front of its bytes. */
  lemma LegalTells(b: seq<u8>)
    requires b != []
    ensures var extra := TrailingBytes(b[0]);
      && (extra >= |b| || extra > 3 ==> SequenceLength(b) == 0)
      && (SequenceLength(b) > 0 ==> SequenceLength(b) == extra + 1)
      && (SequenceLength(b) == 0 && b[0] == 0xA9 ==> PieceAt(b) == Some(Stray))
      && (SequenceLength(b) == 0 && b[0] != 0xA9 ==> PieceAt(b) == None)
      && (extra >= |b| ==> b[0] != 0xA9)
  {
  }

  lemma PieceSizes(b: seq<u8>)
    requires SequenceLength(b) > 0
    ensures PieceAt(b) == Some(Character(ScalarOf(b)))
    ensures |PieceBytes(Character(ScalarOf(b)))| == SequenceLength(b)
    ensures |PieceUnits(Character(ScalarOf(b)))| == if ScalarOf(b) < 0x1_0000 then 1 else 2
  {
    SequenceIsUtf8(b);
  }

  /**
   * __CFFromUTF8: the units written are those of exactly the pieces taken; a limit of 0 only counts. It goes on
   * until nothing well-formed or stray follows or the buffer is full. In one case, a character of two units with
   * room for one, the four bytes of a character that is not written are taken too. The legality test leaves
   * nothing for the later tests for surrogates and for codes beyond the last.
   */
  method FromUtf8(bytes: seq<u8>, characters: array<u16>, maxCharLen: nat) returns (taken: nat, used: nat, ghost k: nat)
    requires maxCharLen <= characters.Length
    modifies characters
    ensures var ps := Parse(bytes);
      && DecoderStopsAt(ps, k, maxCharLen) && used == |UnitsOf(ps[..k])|
      && taken == |BytesOf(ps[..k])| + (if CutCharacter(ps, k, maxCharLen) then 4 else 0)
      && (0 < maxCharLen ==> characters[..used] == UnitsOf(ps[..k]))
  {
    hide Parse, BytesOf, UnitsOf, SequenceLength, ScalarOf, PieceBytes, PieceUnits, PieceAt, Decoded, Utf16;
    ghost var ps := Parse(bytes);
    taken, used, k := 0, 0, 0;
    StartDecoding(bytes);
    var numBytes := |bytes|;
    while numBytes > 0 && (maxCharLen == 0 || used < maxCharLen)
      invariant Decoded(bytes, k, taken, used) && taken <= |bytes| && numBytes == |bytes| - taken && k <= |ps|
      invariant maxCharLen > 0 ==> used <= maxCharLen && characters[..used] == UnitsOf(ps[..k])
      decreases numBytes
    {
      DecodedLength(bytes, k, taken, used);
      NextPiece(bytes, k, taken, used);
      LegalTells(bytes[taken..]);
      var extra := TrailingBytes(bytes[taken]);
      numBytes := numBytes - 1;
      if extra > numBytes {
        return;
      }
      numBytes := numBytes - extra;
      var legal := false;
      if extra <= 3 {
        legal := IsLegalUTF8(bytes[taken..], extra + 1);
      }
      if !legal {
        if bytes[taken] != 0xA9 {
          return;
        }
        numBytes := numBytes + extra;
        taken := taken + 1;
        used := WriteOne(characters, used, maxCharLen, 0xFFFD);
        StrayUnits();
      } else {
        PieceSizes(bytes[taken..]);
        var ch := Accumulate(bytes[taken..], extra);
        if ch >= 0x1_0000 && maxCharLen > 0 && used + 2 > maxCharLen {
          taken := taken + extra + 1;
          SupplementaryLength(ch);
          return;
        }
        taken := taken + extra + 1;
        used := WriteCode(characters, used, maxCharLen, ch);
      }
      k := k + 1;
    }
    DecodedLength(bytes, k, taken, used);
    NextPiece(bytes, k, taken, used);
    NothingLeft();
  }

  lemma DecodedLength(b: seq<u8>, k: nat, at: nat, used: nat)
    requires Decoded(b, k, at, used)
    ensures k <= |Parse(b)| && at == |BytesOf(Parse(b)[..k])| && used == |UnitsOf(Parse(b)[..k])|
  {
  }

  lemma StrayUnits()
    ensures PieceBytes(Stray) == [0xA9] && PieceUnits(Stray) == [0xFFFD]
  {
  }

  lemma NothingLeft()
    ensures PieceAt([]) == None
  {
  }

  lemma SupplementaryLength(c: Scalar)
    ensures c >= 0x1_0000 ==> |PieceBytes(Character(c))| == 4
  {
  }

  method WriteOne(characters: array<u16>, used: nat, maxCharLen: nat, unit: u16) returns (now: nat)
    requires maxCharLen <= characters.Length && (maxCharLen > 0 ==> used < maxCharLen)
    modifies characters
    ensures now == used + 1
    ensures maxCharLen > 0 ==> characters[..now] == old(characters[..used]) + [unit]
  {
    if maxCharLen > 0 {
      characters[used] := unit;
    }
    now := used + 1;
  }

  method WriteCode(characters: array<u16>, used: nat, maxCharLen: nat, ch: Scalar) returns (now: nat)
    requires maxCharLen <= characters.Length
    requires maxCharLen > 0 ==> used < maxCharLen && (ch >= 0x1_0000 ==> used + 2 <= maxCharLen)
    modifies characters
    ensures now == used + |PieceUnits(Character(ch))|
    ensures maxCharLen > 0 ==> now <= maxCharLen && characters[..now] == old(characters[..used]) + PieceUnits(Character(ch))
  {
    if ch <= 0xFFFF {
      now := WriteOne(characters, used, maxCharLen, ch);
    } else {
      if maxCharLen > 0 {
        var code: int := ch - 0x1_0000;
        characters[used] := code / 0x400 + 0xD800;
        characters[used + 1] := code % 0x400 + 0xDC00;
      }
      now := used + 2;
    }
  }

  /** __CFFromUTF8Len: the number of units the decoder would write with room for all. */
  method FromUtf8Len(source: seq<u8>) returns (used: nat)
    ensures used == |UnitsOf(Parse(source))|
  {
    hide Parse, BytesOf, UnitsOf, SequenceLength, ScalarOf, PieceBytes, PieceUnits, PieceAt, Decoded, Utf16;
    ghost var ps := Parse(source);
    used := 0;
    var at: nat, numBytes: nat := 0, |source|;
    ghost var k: nat := 0;
    StartDecoding(source);
    while numBytes > 0
      invariant Decoded(source, k, at, used) && at <= |source| && numBytes == |source| - at && k <= |ps|
      decreases numBytes
    {
      DecodedLength(source, k, at, used);
      NextPiece(source, k, at, used);
      LegalTells(source[at..]);
      var extra := TrailingBytes(source[at]);
      numBytes := numBytes - 1;
      if extra > numBytes {
        assert ps[..k] == ps;
        return;
      }
      numBytes := numBytes - extra;
      var legal := false;
      if extra <= 3 {
        legal := IsLegalUTF8(source[at..], extra + 1);
      }
      if !legal {
        if source[at] != 0xA9 {
          assert ps[..k] == ps;
          return;
        }
        numBytes := numBytes + extra;
        at, used := at + 1, used + 1;
        StrayUnits();
      } else {
        PieceSizes(source[at..]);
        var ch := Accumulate(source[at..], extra);
        at, used := at + extra + 1, used + if ch < 0x1_0000 then 1 else 2;
      }
      k := k + 1;
    }
    DecodedLength(source, k, at, used);
    NextPiece(source, k, at, used);
    NothingLeft();
    assert source[at..] == [];
    assert ps[..k] == ps;
  }

  /** The decoder gets to the end of the pieces exactly if there is room for all their units. */
  lemma EnoughUnits(ps: seq<Piece>, k: nat, maxCharLen: nat)
    requires DecoderStopsAt(ps, k, maxCharLen)
    ensures k == |ps| <==> maxCharLen == 0 || |UnitsOf(ps)| <= maxCharLen
  {
    hide PieceBytes, BytesOf, UnitsOf;
    if k < |ps| {
      UnitsUpTo(ps, k, |ps|);
    } else {
      assert ps[..k] == ps;
    }
    assert ps[..|ps|] == ps;
  }

  /** The units of a piece come on top of those before it. */
  lemma UnitsUpTo(ps: seq<Piece>, j: nat, k: nat)
    requires j < k <= |ps|
    ensures |UnitsOf(ps[..j])| + |PieceUnits(ps[j])| <= |UnitsOf(ps[..k])|
  {
    hide PieceBytes, PieceUnits, BytesOf, UnitsOf;
    BytesMonotone(ps[..k], j + 1);
    assert ps[..k][..j + 1] == ps[..j] + [ps[j]];
    AppendPiece(ps[..j], ps[j]);
  }

  /** A character is cut exactly if some character of two units begins one unit before the limit. */
  lemma CutExact(ps: seq<Piece>, k: nat, maxCharLen: nat)
    requires DecoderStopsAt(ps, k, maxCharLen)
    ensures CutCharacter(ps, k, maxCharLen) <==> exists j: nat :: CutCharacter(ps, j, maxCharLen)
  {
    hide PieceBytes, BytesOf, UnitsOf;
    if j: nat :| CutCharacter(ps, j, maxCharLen) {
      if j < k {
        UnitsUpTo(ps, j, k);
      } else if k < j {
        UnitsUpTo(ps, k, j);
      }
    }
  }

  /** The four bytes of U+10000, decoded into a buffer of one unit, are taken without any unit being written. */
  lemma CutHappens()
    ensures CutCharacter(Parse([0xF0, 0x90, 0x80, 0x80]), 0, 1)
  {
    var b: seq<u8> := [0xF0, 0x90, 0x80, 0x80];
    assert SequenceLength(b) == 4 && ScalarOf(b) == 0x1_0000;
    assert PieceAt(b) == Some(Character(0x1_0000));
  }

  /** Both converters in a row, with buffers large enough, give well-formed text back. */
  method ThereAndBack(text: seq<u16>) returns (back: seq<u16>)
    requires WellFormed16(text) && |Utf8All(Parse16(text))| < TWO_32 && text != []
    ensures back == text
  {
    hide Parse, BytesOf, UnitsOf, Parse16, Utf8All, WellFormed16;
    var length := ToUtf8Len(text);
    CodesOfText(text);
    SomeBytes(text);
    var bytes := new u8[length];
    var read, used, k := ToUtf8(text, bytes, length);
    EnoughRoom(Parse16(text), k, length);
    EncodedLength(text, k, read, used);
    assert Parse16(text)[..k] == Parse16(text);
    RoundTrip(text);
    var encoding := bytes[..used];
    var units := FromUtf8Len(encoding);
    var characters := new u16[units];
    var taken, made, j := FromUtf8(encoding, characters, units);
    EnoughUnits(Parse(encoding), j, units);
    assert Parse(encoding)[..j] == Parse(encoding);
    return characters[..made];
  }

  lemma SomeBytes(text: seq<u16>)
    requires WellFormed16(text) && text != []
    ensures |Utf8All(Parse16(text))| > 0
  {
    WellFormed16Exact(text);
  }
}
