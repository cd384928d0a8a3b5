/** Whatever the writer puts into a file, the reader gets out of it. */
module PlistRoundTrip {
  import opened Bytes
  import opened PlistModel
  import opened PlistWriter
  import opened PlistDecoding
  import opened PlistReader

  // ---------------------------------------------------------- bytes in place

  ghost predicate At(d: seq<u8>, p: nat, bytes: seq<u8>) {
    p + |bytes| <= |d| && d[p..p + |bytes|] == bytes
  }

  lemma AtSplit(d: seq<u8>, p: nat, a: seq<u8>, b: seq<u8>)
    requires At(d, p, a + b)
    ensures At(d, p, a) && At(d, p + |a|, b)
  {
    var whole := d[p..p + |a| + |b|];
    assert d[p..p + |a|] == whole[..|a|] == a;
    assert d[p + |a|..p + |a| + |b|] == whole[|a|..] == b;
  }

  lemma AtByte(d: seq<u8>, p: nat, bytes: seq<u8>, i: nat)
    requires At(d, p, bytes) && i < |bytes|
    ensures d[p + i] == bytes[i]
  {
    assert d[p..p + |bytes|][i] == bytes[i];
  }

  lemma SizedIntAt(d: seq<u8>, p: nat, v: nat, n: nat)
    requires At(d, p, ToBigEndian(v, n)) && v < Pow256(n) && v < TWO_64
    ensures SizedInt(d, p, n) == v
  {
    BigEndianInverse(v, n);
  }

  lemma IntWidthHolds(v: u64)
    ensures v < Pow256(IntWidth(v)) && Pow2(IntLog(v)) == IntWidth(v) <= 8
  {
    Pow256Values();
    assert Pow2(0) == 1 && Pow2(1) == 2 && Pow2(2) == 4 && Pow2(3) == 8;
  }

  lemma IntAtHolds(d: seq<u8>, off: nat, v: u64)
    requires At(d, off, EncodeInt(v))
    ensures d[off] == MARKER_INT + IntLog(v) && off + 1 + IntWidth(v) <= |d|
    ensures SizedInt(d, off + 1, IntWidth(v)) == v
  {
    AtSplit(d, off, [MARKER_INT + IntLog(v)], ToBigEndian(v, IntWidth(v)));
    AtByte(d, off, [MARKER_INT + IntLog(v)], 0);
    IntWidthHolds(v);
    SizedIntAt(d, off + 1, v, IntWidth(v));
  }

  lemma ReadIntBack(d: seq<u8>, p: nat, end: nat, v: u64)
    requires At(d, p, EncodeInt(v)) && p + |EncodeInt(v)| <= end + 1 <= |d|
    ensures ReadInt(d, p, end) == Some((v, p + |EncodeInt(v)|))
  {
    IntAtHolds(d, p, v);
    IntForm(v);
    hide At, SizedInt, EncodeInt, IntLog, IntWidth, Pow2;
  }

  lemma IntForm(v: u64)
    ensures |EncodeInt(v)| == 1 + IntWidth(v) && Pow2(IntLog(v)) == IntWidth(v) == IntWidth(v) % 256
    ensures var marker := MARKER_INT + IntLog(v); marker % 16 == IntLog(v) && marker / 16 * 16 == MARKER_INT
  {
    IntWidthHolds(v);
    hide Pow2, ToBigEndian;
  }

  lemma ReadCountBack(d: seq<u8>, off: nat, end: nat, marker: u8, n: u64)
    requires marker <= 0xF0 && marker % 16 == 0 && n < TWO_63
    requires At(d, off, EncodeCount(marker, n)) && off + |EncodeCount(marker, n)| <= end + 1 <= |d|
    ensures ReadCount(d, off, end) == Some((n, off + |EncodeCount(marker, n)|))
    ensures d[off] / 16 * 16 == marker
  {
    AtByte(d, off, EncodeCount(marker, n), 0);
    if 15 <= n {
      AtSplit(d, off, [marker + 15], EncodeInt(n));
      ReadIntBack(d, off + 1, end, n);
    }
  }

  lemma CountedBack(d: seq<u8>, off: nat, end: nat, marker: u8, n: u64, width: nat, body: seq<u8>)
    requires marker <= 0xF0 && marker % 16 == 0 && n < TWO_63 && |body| == n * width
    requires At(d, off, EncodeCount(marker, n) + body) && off + |EncodeCount(marker, n) + body| <= end + 1 <= |d|
    ensures CountedAt(d, off, end, width) == Some((n, off + |EncodeCount(marker, n)|))
    ensures At(d, off + |EncodeCount(marker, n)|, body) && d[off] / 16 * 16 == marker
  {
    AtSplit(d, off, EncodeCount(marker, n), body);
    ReadCountBack(d, off, end, marker, n);
  }

  lemma {:induction false} EncodeUnitsAt(chars: seq<u16>, i: nat)
    requires i < |chars|
    ensures 256 * EncodeUnits(chars)[2 * i] as int + EncodeUnits(chars)[2 * i + 1] == chars[i]
  {
    assert ToBigEndian(chars[0], 2) == [chars[0] / 256, chars[0] % 256] by {
      assert ToBigEndian(chars[0] / 256, 1) == [chars[0] / 256];
    }
    if i > 0 {
      EncodeUnitsAt(chars[1..], i - 1);
      assert EncodeUnits(chars)[2 * i] == EncodeUnits(chars[1..])[2 * (i - 1)];
    }
  }

  lemma UnitBack(d: seq<u8>, p: nat, bytes: seq<u8>, k: nat)
    requires At(d, p, bytes) && k + 1 < |bytes|
    ensures UnitAt(d, p + k) == 256 * bytes[k] as int + bytes[k + 1]
  {
    AtByte(d, p, bytes, k);
    AtByte(d, p, bytes, k + 1);
  }

  lemma UnitsBack(d: seq<u8>, p: nat, chars: seq<u16>)
    requires At(d, p, EncodeUnits(chars))
    ensures UnitsAt(d, p, |chars|) == chars
  {
    hide EncodeUnits, UnitAt, At;
    var bytes, n := EncodeUnits(chars), |chars|;
    AtFits(d, p, bytes);
    var units := UnitsAt(d, p, n);
    forall i | 0 <= i < n
      ensures units[i] == chars[i]
    {
      UnitBack(d, p, bytes, 2 * i);
      EncodeUnitsAt(chars, i);
    }
  }

  lemma AtFits(d: seq<u8>, p: nat, bytes: seq<u8>)
    requires At(d, p, bytes)
    ensures p + |bytes| <= |d|
  {
  }

  // ------------------------------------------------------- one object's bytes

  /** What the reader should find where the writer put node `n`. */
  ghost function Expected(n: Node, off: nat): Header
    requires n.WellFormed()
  {
    match n
    case StringNode(chars) => Object(PString(chars), true)
    case IntNode(v) => Object(PInt(v), true)
    case RealNode(bits) => Object(PReal(bits), true)
    case BoolNode(b) => Object(PBool(b), false)
    case DateNode(bits) => Object(PDate(bits), true)
    case DataNode(bytes) => Object(PData(bytes), true)
    case UidNode(v) => Object(PUid(v), true)
    case ArrayNode(items) => Children(ArrayKind, |items|, off + |EncodeCount(MARKER_ARRAY, |items|)|)
    case DictNode(keys, _) => Children(DictKind, 2 * |keys|, off + |EncodeCount(MARKER_DICT, |keys|)|)
    case OtherNode => NoObject
  }

  lemma StringBack(d: seq<u8>, off: nat, end: nat, chars: seq<u16>)
    requires |chars| < TWO_63 && At(d, off, EncodeString(chars)) && off + |EncodeString(chars)| <= end + 1 <= |d|
    ensures if IsAscii(chars) then d[off] / 16 * 16 == MARKER_ASCII && StringAt(d, off, end, 1) == Object(PString(chars), true)
            else d[off] / 16 * 16 == MARKER_UTF16 && StringAt(d, off, end, 2) == Object(PString(chars), true)
  {
    hide At, CountedAt, EncodeCount, EncodeUnits, UnitsAt;
    if IsAscii(chars) {
      AsciiBack(d, off, end, chars);
    } else {
      CountedBack(d, off, end, MARKER_UTF16, |chars|, 2, EncodeUnits(chars));
      UnitsBack(d, off + |EncodeCount(MARKER_UTF16, |chars|)|, chars);
    }
  }

  lemma AsciiBack(d: seq<u8>, off: nat, end: nat, chars: seq<u16>)
    requires |chars| < TWO_63 && IsAscii(chars)
    requires At(d, off, EncodeString(chars)) && off + |EncodeString(chars)| <= end + 1 <= |d|
    ensures d[off] / 16 * 16 == MARKER_ASCII && StringAt(d, off, end, 1) == Object(PString(chars), true)
  {
    hide At, CountedAt, EncodeCount, EncodeUnits, UnitsAt;
    var body: seq<u8> := seq(|chars|, i requires 0 <= i < |chars| => chars[i]);
    CountedBack(d, off, end, MARKER_ASCII, |chars|, 1, body);
    var p := off + |EncodeCount(MARKER_ASCII, |chars|)|;
    AtFits(d, p, body);
    forall i | 0 <= i < |chars|
      ensures d[p + i] == chars[i]
    {
      AtByte(d, p, body, i);
    }
    var got: seq<u16> := seq(|chars|, i requires 0 <= i < |chars| => d[p + i]);
    assert got == chars;
  }

  lemma IntBack(d: seq<u8>, off: nat, end: nat, v: i64)
    requires At(d, off, EncodeInt(Unsigned64(v))) && off + |EncodeInt(Unsigned64(v))| <= end + 1 <= |d|
    ensures d[off] / 16 * 16 == MARKER_INT && IntAt(d, off, end) == Object(PInt(v), true)
  {
    var u := Unsigned64(v);
    IntAtHolds(d, off, u);
    IntWidthHolds(u);
    assert d[off] % 16 == IntLog(u);
    assert Signed64(u) == v;
    hide SizedInt, Pow2;
  }

  lemma UidBack(d: seq<u8>, off: nat, end: nat, v: u32)
    requires var n := UidNode(v); At(d, off, EncodeNode(n, map[], 0)) && off + |EncodeNode(n, map[], 0)| <= end + 1 <= |d|
    ensures d[off] / 16 * 16 == MARKER_UID && UidAt(d, off, end) == Object(PUid(v), true)
  {
    hide SizedInt, ToBigEndian, At, Pow2;
    var width := IntWidth(v);
    IntWidthHolds(v);
    AtSplit(d, off, [MARKER_UID + width - 1], ToBigEndian(v, width));
    AtByte(d, off, [MARKER_UID + width - 1], 0);
    SizedIntAt(d, off + 1, v, width);
    assert d[off] % 16 + 1 == width;
  }

  lemma BitsBack(d: seq<u8>, off: nat, end: nat, marker: u8, bits: seq<u8>)
    requires At(d, off, [marker] + bits) && off + 1 + |bits| <= end + 1 <= |d|
    requires if |bits| == 4 then marker == MARKER_REAL + 2 else |bits| == 8 && marker in {MARKER_REAL + 3, MARKER_DATE}
    ensures d[off] == marker
    ensures marker == MARKER_DATE ==> DateAt(d, off, end) == Object(PDate(bits), true)
    ensures marker != MARKER_DATE ==> RealAt(d, off, end) == Object(PReal(bits), true)
  {
    AtSplit(d, off, [marker], bits);
    AtByte(d, off, [marker], 0);
  }

  lemma ContainerBack(d: seq<u8>, t: Trailer, off: nat, marker: u8, kind: Kind, perEntry: nat, n: u64, refs: seq<u8>)
    requires Trusted(d, t) && marker <= 0xF0 && marker % 16 == 0 && n < TWO_63 && 8 * (perEntry * n) < TWO_64
    requires |refs| == n * (perEntry * t.objectRefSize)
    requires At(d, off, EncodeCount(marker, n) + refs) && off + |EncodeCount(marker, n) + refs| <= t.offsetTableOffset
    ensures off < t.offsetTableOffset && d[off] / 16 * 16 == marker
    ensures RefsAt(d, t, off, kind, perEntry) == Children(kind, perEntry * n, off + |EncodeCount(marker, n)|)
  {
    hide ReadCount, CountedAt, At;
    AtFits(d, off, EncodeCount(marker, n) + refs);
    CountedBack(d, off, t.offsetTableOffset - 1, marker, n, perEntry * t.objectRefSize, refs);
  }

  lemma TrustedEnd(d: seq<u8>, t: Trailer)
    requires Trusted(d, t)
    ensures 9 <= t.offsetTableOffset <= |d|
  {
  }

  lemma LeafBack(d: seq<u8>, t: Trailer, off: nat, n: Node)
    requires Trusted(d, t) && n.WellFormed() && !n.OtherNode? && !n.ArrayNode? && !n.DictNode?
    requires At(d, off, EncodeNode(n, map[], 0)) && off + |EncodeNode(n, map[], 0)| <= t.offsetTableOffset
    ensures off < t.offsetTableOffset && HeaderAt(d, t, off) == Expected(n, off)
  {
    hide SizedInt, EncodeInt, EncodeCount, EncodeUnits, UnitsAt, EncodeString, At;
    hide IntAt, RealAt, DateAt, DataAt, StringAt, UidAt, RefsAt, Trusted;
    TrustedEnd(d, t);
    var end := t.offsetTableOffset - 1;
    match n {
      case StringNode(chars) => StringBack(d, off, end, chars);
      case IntNode(v) => IntBack(d, off, end, v);
      case UidNode(v) => UidBack(d, off, end, v);
      case RealNode(bits) => BitsBack(d, off, end, MARKER_REAL + (if |bits| == 4 then 2 else 3), bits);
      case DateNode(bits) => BitsBack(d, off, end, MARKER_DATE, bits);
      case BoolNode(b) => AtByte(d, off, [if b then MARKER_TRUE else MARKER_FALSE], 0);
      case DataNode(bytes) => DataBack(d, off, end, bytes);
    }
  }

  lemma DataBack(d: seq<u8>, off: nat, end: nat, bytes: seq<u8>)
    requires |bytes| < TWO_63
    requires At(d, off, EncodeCount(MARKER_DATA, |bytes|) + bytes)
    requires off + |EncodeCount(MARKER_DATA, |bytes|) + bytes| <= end + 1 <= |d|
    ensures d[off] / 16 * 16 == MARKER_DATA && DataAt(d, off, end) == Object(PData(bytes), true)
  {
    CountedBack(d, off, end, MARKER_DATA, |bytes|, 1, bytes);
    hide EncodeCount, CountedAt;
  }

  /** The bytes of one object, wherever they lie, read back as that object. */
  lemma HeaderBack(d: seq<u8>, t: Trailer, off: nat, n: Node, table: map<nat, nat>)
    requires Trusted(d, t) && n.WellFormed() && !n.OtherNode?
    requires At(d, off, EncodeNode(n, table, t.objectRefSize))
    requires off + |EncodeNode(n, table, t.objectRefSize)| <= t.offsetTableOffset
    requires 8 * |n.Kids()| < TWO_64
    ensures off < t.offsetTableOffset && HeaderAt(d, t, off) == Expected(n, off)
  {
    hide At, SizedInt, EncodeCount, EncodeInt, EncodeString, EncodeUnits, EncodeRefs, RefsAt, IntAt, RealAt, DateAt, DataAt, StringAt, UidAt;
    if n.ArrayNode? {
      ContainerBack(d, t, off, MARKER_ARRAY, ArrayKind, 1, |n.items|, EncodeRefs(n.items, table, t.objectRefSize));
    } else if n.DictNode? {
      ContainerBack(d, t, off, MARKER_DICT, DictKind, 2, |n.keys|, EncodeRefs(n.keys + n.vals, table, t.objectRefSize));
    } else {
      LeafBack(d, t, off, n);
    }
  }

  // --------------------------------------------------------- the whole file

  lemma AtFront(front: seq<u8>, last: seq<u8>, p: nat, bytes: seq<u8>)
    requires At(front, p, bytes)
    ensures At(front + last, p, bytes)
  {
  }

  lemma AtBack(front: seq<u8>, last: seq<u8>)
    ensures At(front + last, |front|, last)
  {
  }

  lemma {:induction false} ObjectsSlice(g: Graph, s: Flat, refSize: nat, n: nat, i: nat)
    requires Lists(g, s) && i < n <= |s.objlist|
    ensures At(EncodeObjects(g, s, refSize, n), |EncodeObjects(g, s, refSize, i)|, EncodeNode(g.nodes[s.objlist[i]], s.objtable, refSize))
  {
    hide EncodeNode, At;
    var last := EncodeNode(g.nodes[s.objlist[n - 1]], s.objtable, refSize);
    var front := EncodeObjects(g, s, refSize, n - 1);
    if i < n - 1 {
      ObjectsSlice(g, s, refSize, n - 1, i);
      AtFront(front, last, |EncodeObjects(g, s, refSize, i)|, EncodeNode(g.nodes[s.objlist[i]], s.objtable, refSize));
    } else {
      AtBack(front, last);
    }
  }

  lemma {:induction false} OffsetsSlice(g: Graph, s: Flat, refSize: nat, intSize: nat, n: nat, i: nat)
    requires Lists(g, s) && i < n <= |s.objlist|
    ensures At(EncodeOffsets(g, s, refSize, intSize, n), i * intSize, ToBigEndian(ObjectOffset(g, s, refSize, i), intSize))
  {
    hide ObjectOffset, At, ToBigEndian, Lists;
    var last := ToBigEndian(ObjectOffset(g, s, refSize, n - 1), intSize);
    var front := EncodeOffsets(g, s, refSize, intSize, n - 1);
    if i < n - 1 {
      OffsetsSlice(g, s, refSize, intSize, n - 1, i);
      AtFront(front, last, i * intSize, ToBigEndian(ObjectOffset(g, s, refSize, i), intSize));
    } else {
      AtBack(front, last);
    }
  }

  lemma {:induction false} ObjectsGrow(g: Graph, s: Flat, refSize: nat, i: nat, n: nat)
    requires Lists(g, s) && AllWritable(g, s) && i < n <= |s.objlist|
    ensures ObjectOffset(g, s, refSize, i) < ObjectOffset(g, s, refSize, n)
  {
    if i < n - 1 {
      ObjectsGrow(g, s, refSize, i, n - 1);
    }
  }

  /** A file the writer can produce and the reader's signed 64-bit limits admit. */
  ghost predicate GoodFile(g: Graph, s: Flat) {
    && Lists(g, s) && AllWritable(g, s) && 1 <= |s.objlist| && Fits(g, s)
    && |EncodeFile(g, s)| < TWO_63
  }

  ghost function FileTrailer(g: Graph, s: Flat): Trailer
    requires Lists(g, s) && Fits(g, s)
  {
    var refSize := ByteCountOf(|s.objlist|);
    var tableOffset := ObjectOffset(g, s, refSize, |s.objlist|);
    Trailer(ByteCountOf(tableOffset), refSize, |s.objlist|, 0, tableOffset)
  }

  lemma FilePieces(g: Graph, s: Flat)
    requires GoodFile(g, s)
    ensures var d, t := EncodeFile(g, s), FileTrailer(g, s);
      && |d| == t.offsetTableOffset + t.numObjects * t.offsetIntSize + TRAILER_SIZE
      && Trusted(d, t) && d[..7] == HEADER[..7]
      && t.numObjects < Pow256(t.objectRefSize) && t.offsetTableOffset < Pow256(t.offsetIntSize)
      && At(d, 8, EncodeObjects(g, s, t.objectRefSize, t.numObjects))
      && At(d, t.offsetTableOffset, EncodeOffsets(g, s, t.objectRefSize, t.offsetIntSize, t.numObjects))
      && At(d, |d| - TRAILER_SIZE, EncodeTrailer(t.offsetIntSize, t.objectRefSize, t.numObjects, t.offsetTableOffset))
  {
    ObjectsGrow(g, s, ByteCountOf(|s.objlist|), 0, |s.objlist|);
    NoObjects(g, s, ByteCountOf(|s.objlist|));
    hide EncodeTrailer, EncodeObjects, EncodeOffsets, At, ByteCountOf, AllWritable;
    var d, t := EncodeFile(g, s), FileTrailer(g, s);
    var objects := EncodeObjects(g, s, t.objectRefSize, t.numObjects);
    var offsets := EncodeOffsets(g, s, t.objectRefSize, t.offsetIntSize, t.numObjects);
    var trailer := EncodeTrailer(t.offsetIntSize, t.objectRefSize, t.numObjects, t.offsetTableOffset);
    FourPieces(HEADER, objects, offsets, trailer);
    assert d == HEADER + objects + offsets + trailer;
  }

  lemma NoObjects(g: Graph, s: Flat, refSize: nat)
    requires Lists(g, s)
    ensures ObjectOffset(g, s, refSize, 0) == 8
  {
  }

  lemma FourPieces(a: seq<u8>, b: seq<u8>, c: seq<u8>, e: seq<u8>)
    ensures var d := a + b + c + e;
      && |d| == |a| + |b| + |c| + |e| && (|a| >= 7 ==> d[..7] == a[..7])
      && At(d, |a|, b) && At(d, |a| + |b|, c) && At(d, |d| - |e|, e)
  {
  }

  lemma TrailerFields(d: seq<u8>, t: Trailer)
    requires TRAILER_SIZE <= |d| && t.topObject == 0
    requires At(d, |d| - TRAILER_SIZE, EncodeTrailer(t.offsetIntSize, t.objectRefSize, t.numObjects, t.offsetTableOffset))
    ensures TrailerAt(d) == t
  {
    TrailerParts(d, |d| - TRAILER_SIZE, t);
    hide SizedInt, At, EncodeTrailer;
  }

  lemma TrailerParts(d: seq<u8>, b: nat, t: Trailer)
    requires At(d, b, EncodeTrailer(t.offsetIntSize, t.objectRefSize, t.numObjects, t.offsetTableOffset))
    ensures b + 32 <= |d| && d[b + 6] == t.offsetIntSize && d[b + 7] == t.objectRefSize
    ensures SizedInt(d, b + 8, 8) == t.numObjects && SizedInt(d, b + 16, 8) == 0
    ensures SizedInt(d, b + 24, 8) == t.offsetTableOffset
  {
    hide SizedInt, At, ToBigEndian, Pow256;
    var sizes: seq<u8> := [0, 0, 0, 0, 0, 0, t.offsetIntSize, t.objectRefSize];
    var n, top, off := ToBigEndian(t.numObjects, 8), ToBigEndian(0, 8), ToBigEndian(t.offsetTableOffset, 8);
    AtSplit(d, b, sizes + n + top, off);
    AtSplit(d, b, sizes + n, top);
    AtSplit(d, b, sizes, n);
    AtByte(d, b, sizes, 6);
    AtByte(d, b, sizes, 7);
    AtFits(d, b + 24, off);
    Pow256Values();
    SizedIntAt(d, b + 8, t.numObjects, 8);
    SizedIntAt(d, b + 16, 0, 8);
    SizedIntAt(d, b + 24, t.offsetTableOffset, 8);
  }

  lemma TrailerBack(g: Graph, s: Flat)
    requires GoodFile(g, s)
    ensures var d := EncodeFile(g, s); TrailerShapeOk(d) && TrailerAt(d) == FileTrailer(g, s)
  {
    hide EncodeFile, EncodeObjects, EncodeOffsets, EncodeTrailer, At, TrailerAt;
    FilePieces(g, s);
    var d, t := EncodeFile(g, s), FileTrailer(g, s);
    TrailerFields(d, t);
  }

  lemma OffsetEntryBack(g: Graph, s: Flat, i: nat)
    requires GoodFile(g, s) && i < |s.objlist|
    ensures var d, t := EncodeFile(g, s), FileTrailer(g, s);
      Trusted(d, t) && OffsetEntry(d, t, i) == ObjectOffset(g, s, t.objectRefSize, i) < t.offsetTableOffset
  {
    hide EncodeFile, EncodeObjects, EncodeOffsets, EncodeTrailer, TrailerAt, SizedInt;
    FilePieces(g, s);
    var d, t := EncodeFile(g, s), FileTrailer(g, s);
    var entry := ToBigEndian(ObjectOffset(g, s, t.objectRefSize, i), t.offsetIntSize);
    OffsetsSlice(g, s, t.objectRefSize, t.offsetIntSize, t.numObjects, i);
    ObjectsGrow(g, s, t.objectRefSize, i, t.numObjects);
    TableRoom(t, i);
    AtWithin(d, t.offsetTableOffset, EncodeOffsets(g, s, t.objectRefSize, t.offsetIntSize, t.numObjects), i * t.offsetIntSize, entry);
    SizedIntAt(d, t.offsetTableOffset + i * t.offsetIntSize, ObjectOffset(g, s, t.objectRefSize, i), t.offsetIntSize);
  }

  lemma AtWithin(d: seq<u8>, p: nat, outer: seq<u8>, q: nat, inner: seq<u8>)
    requires At(d, p, outer) && At(outer, q, inner)
    ensures At(d, p + q, inner)
  {
    forall k | 0 <= k < |inner|
      ensures d[p + q + k] == inner[k]
    {
      AtByte(d, p, outer, q + k);
      AtByte(outer, q, inner, k);
    }
  }

  lemma ObjectBytes(g: Graph, s: Flat, i: nat)
    requires GoodFile(g, s) && i < |s.objlist|
    ensures var d, t := EncodeFile(g, s), FileTrailer(g, s);
      var off := ObjectOffset(g, s, t.objectRefSize, i);
      var bytes := EncodeNode(g.nodes[s.objlist[i]], s.objtable, t.objectRefSize);
      At(d, off, bytes) && off + |bytes| <= t.offsetTableOffset
  {
    hide EncodeFile, EncodeOffsets, EncodeTrailer, EncodeNode;
    FilePieces(g, s);
    var d, t := EncodeFile(g, s), FileTrailer(g, s);
    ObjectsSlice(g, s, t.objectRefSize, t.numObjects, i);
    AtWithin(d, 8, EncodeObjects(g, s, t.objectRefSize, t.numObjects), |EncodeObjects(g, s, t.objectRefSize, i)|,
             EncodeNode(g.nodes[s.objlist[i]], s.objtable, t.objectRefSize));
  }

  // ---------------------------------------------------- references and trees

  /** Where node `x` ends up. */
  ghost function Place(g: Graph, s: Flat, refSize: nat, x: nat): nat
    requires Lists(g, s) && s.Consistent() && x in s.objtable
  {
    ObjectOffset(g, s, refSize, s.objtable[x])
  }

  ghost function Places(g: Graph, s: Flat, refSize: nat, xs: seq<nat>): (r: seq<nat>)
    requires Lists(g, s) && s.Consistent() && forall x :: x in xs ==> x in s.objtable
    ensures |r| == |xs|
  {
    if xs == [] then [] else [Place(g, s, refSize, xs[0])] + Places(g, s, refSize, xs[1..])
  }

  /** The offset table and the object bytes of the written file, as the reader sees them. */
  ghost predicate Written(g: Graph, s: Flat, d: seq<u8>, t: Trailer) {
    && Lists(g, s) && AllWritable(g, s) && Trusted(d, t)
    && t.numObjects == |s.objlist| && t.numObjects < Pow256(t.objectRefSize)
    && (forall i: nat :: i < |s.objlist| ==> OffsetEntry(d, t, i) == ObjectOffset(g, s, t.objectRefSize, i) < t.offsetTableOffset)
    && (forall i: nat :: i < |s.objlist| ==> ObjectAt(g, s, d, t, i))
  }

  ghost predicate ObjectAt(g: Graph, s: Flat, d: seq<u8>, t: Trailer, i: nat)
    requires Lists(g, s) && i < |s.objlist|
  {
    var off := ObjectOffset(g, s, t.objectRefSize, i);
    var bytes := EncodeNode(g.nodes[s.objlist[i]], s.objtable, t.objectRefSize);
    At(d, off, bytes) && off + |bytes| <= t.offsetTableOffset
  }

  lemma FileWritten(g: Graph, s: Flat)
    requires GoodFile(g, s)
    ensures Written(g, s, EncodeFile(g, s), FileTrailer(g, s))
  {
    hide EncodeFile, OffsetEntry, EncodeNode;
    var d, t := EncodeFile(g, s), FileTrailer(g, s);
    FilePieces(g, s);
    hide ObjectOffset, Trusted;
    forall i: nat | i < |s.objlist|
      ensures OffsetEntry(d, t, i) == ObjectOffset(g, s, t.objectRefSize, i) < t.offsetTableOffset
      ensures ObjectAt(g, s, d, t, i)
    {
      OffsetEntryBack(g, s, i);
      ObjectBytes(g, s, i);
    }
  }

  lemma RefBack(g: Graph, s: Flat, d: seq<u8>, t: Trailer, ptr: nat, x: nat)
    requires Written(g, s, d, t) && s.Consistent() && x in s.objtable
    requires 8 <= ptr && ptr + t.objectRefSize <= t.offsetTableOffset
    requires At(d, ptr, ToBigEndian(Reference(s.objtable, x), t.objectRefSize))
    ensures RefOffset(d, t, ptr) == Place(g, s, t.objectRefSize, x)
  {
    hide SizedInt, OffsetEntry, ObjectOffset, ObjectAt;
    SizedIntAt(d, ptr, s.objtable[x], t.objectRefSize);
  }

  lemma {:induction false} RefsBack(g: Graph, s: Flat, d: seq<u8>, t: Trailer, ptr: nat, xs: seq<nat>)
    requires Written(g, s, d, t) && s.Consistent() && forall x :: x in xs ==> x in s.objtable
    requires 8 <= ptr && ptr + |xs| * t.objectRefSize <= t.offsetTableOffset
    requires At(d, ptr, EncodeRefs(xs, s.objtable, t.objectRefSize))
    ensures KidsAt(d, t, ptr, |xs|) == Places(g, s, t.objectRefSize, xs)
    decreases |xs|
  {
    hide RefOffset, Place, At, ToBigEndian, Reference, Written;
    assert Lists(g, s) && Trusted(d, t) by {
      WrittenBasics(g, s, d, t);
    }
    if xs != [] {
      RefsSplit(d, ptr, xs, s.objtable, t.objectRefSize);
      RefBack(g, s, d, t, ptr, xs[0]);
      assert forall x :: x in xs[1..] ==> x in xs;
      RefsBack(g, s, d, t, ptr + t.objectRefSize, xs[1..]);
    }
  }

  lemma WrittenBasics(g: Graph, s: Flat, d: seq<u8>, t: Trailer)
    requires Written(g, s, d, t)
    ensures Lists(g, s) && Trusted(d, t)
  {
  }

  lemma RefsSplit(d: seq<u8>, ptr: nat, xs: seq<nat>, table: map<nat, nat>, refSize: nat)
    requires xs != [] && At(d, ptr, EncodeRefs(xs, table, refSize))
    ensures At(d, ptr, ToBigEndian(Reference(table, xs[0]), refSize))
    ensures At(d, ptr + refSize, EncodeRefs(xs[1..], table, refSize))
    ensures |xs| * refSize == refSize + |xs[1..]| * refSize && refSize <= |xs| * refSize
  {
    AtSplit(d, ptr, ToBigEndian(Reference(table, xs[0]), refSize), EncodeRefs(xs[1..], table, refSize));
  }

  /** What the store should hold for node `x`. */
  ghost function ExpectedItem(g: Graph, s: Flat, refSize: nat, x: nat): Item
    requires Lists(g, s) && s.Consistent() && x < |g.nodes|
    requires forall k :: k in g.nodes[x].Kids() ==> k in s.objtable
  {
    match g.nodes[x]
    case ArrayNode(items) => Refs(ArrayKind, Places(g, s, refSize, items))
    case DictNode(keys, vals) => Refs(DictKind, Places(g, s, refSize, keys + vals))
    case n => var h := Expected(n, 0); if h.Object? then Leaf(h.value) else Bad
  }

  lemma ItemBack(g: Graph, s: Flat, d: seq<u8>, t: Trailer, x: nat)
    requires Written(g, s, d, t) && s.Consistent() && x in s.objtable && KidsListed(g, s, x)
    ensures var off := Place(g, s, t.objectRefSize, x);
      8 <= off < t.offsetTableOffset && StoreOf(d, t).items[off] == ExpectedItem(g, s, t.objectRefSize, x)
  {
    hide HeaderAt, At, Places, EncodeRefs, KidsAt, ObjectOffset, EncodeCount, Node.WellFormed;
    WrittenObject(g, s, d, t, s.objtable[x]);
    var n, off := g.nodes[x], Place(g, s, t.objectRefSize, x);
    hide Written;
    KidsFit(n);
    HeaderBack(d, t, off, n, s.objtable);
    ItemsUpToAt(d, t, t.offsetTableOffset, off);
    if n.ArrayNode? {
      AtSplit(d, off, EncodeCount(MARKER_ARRAY, |n.items|), EncodeRefs(n.items, s.objtable, t.objectRefSize));
      RefsBack(g, s, d, t, off + |EncodeCount(MARKER_ARRAY, |n.items|)|, n.items);
    } else if n.DictNode? {
      AtSplit(d, off, EncodeCount(MARKER_DICT, |n.keys|), EncodeRefs(n.keys + n.vals, s.objtable, t.objectRefSize));
      RefsBack(g, s, d, t, off + |EncodeCount(MARKER_DICT, |n.keys|)|, n.keys + n.vals);
    }
  }

  lemma WrittenObject(g: Graph, s: Flat, d: seq<u8>, t: Trailer, i: nat)
    requires Written(g, s, d, t) && i < |s.objlist|
    ensures Lists(g, s) && Trusted(d, t) && s.objlist[i] < |g.nodes|
    ensures g.nodes[s.objlist[i]].WellFormed() && !g.nodes[s.objlist[i]].OtherNode?
    ensures 8 <= ObjectOffset(g, s, t.objectRefSize, i) && ObjectAt(g, s, d, t, i)
  {
  }

  lemma KidsFit(n: Node)
    requires n.WellFormed()
    ensures 8 * |n.Kids()| < TWO_64
  {
  }

  ghost predicate Holds(g: Graph, s: Flat, refSize: nat, store: Store) {
    && Lists(g, s) && s.Consistent() && s.ClosedFrom(g, 0)
    && (forall x :: x in s.objtable ==> KidsListed(g, s, x))
    && (forall x :: x in s.objtable ==>
        store.Has(Place(g, s, refSize, x)) && store.items[Place(g, s, refSize, x)] == ExpectedItem(g, s, refSize, x))
  }

  ghost predicate KidsListed(g: Graph, s: Flat, x: nat) {
    x < |g.nodes| && forall k :: k in g.nodes[x].Kids() ==> k in s.objtable
  }

  ghost predicate NodesOf(g: Graph, xs: seq<nat>) {
    g.WellFormed() && forall i :: 0 <= i < |xs| ==> xs[i] < |g.nodes|
  }

  /** The first `keys` of the nodes `xs` unfold to primitive values, and all have good keys below. */
  ghost predicate KeysGood(g: Graph, xs: seq<nat>, keys: nat)
    requires NodesOf(g, xs)
  {
    && (forall i :: 0 <= i < |xs| ==> KeysPrimitive(g, xs[i]))
    && (forall i :: 0 <= i < |xs| && i < keys ==> Unfold(g, xs[i]).IsPrimitive())
  }

  ghost function UnfoldAll(g: Graph, xs: seq<nat>): (r: seq<Plist>)
    requires NodesOf(g, xs)
    ensures |r| == |xs| && forall i :: 0 <= i < |xs| ==> r[i] == Unfold(g, xs[i])
  {
    if xs == [] then [] else [Unfold(g, xs[0])] + UnfoldAll(g, xs[1..])
  }

  /** A node's place unfolds to the node's own tree, or to nothing when some key is a container. */
  lemma {:induction false} TreeBack(g: Graph, s: Flat, refSize: nat, store: Store, x: nat, n: nat)
    requires Holds(g, s, refSize, store) && x in s.objtable && x < |g.nodes| && AllWritable(g, s)
    requires g.rank[x] < n
    ensures Tree(store, Place(g, s, refSize, x), n) == if KeysPrimitive(g, x) then Some(Unfold(g, x)) else None
    decreases g.rank[x], 1, 0
  {
    hide Place, Places, Tree, TreeBelow, TreeKids, UnfoldAll, UnfoldKids, Unfold, KeysPrimitive, KeysGood;
    var node, off := g.nodes[x], Place(g, s, refSize, x);
    assert KidsListed(g, s, x);
    assert s.objlist[s.objtable[x]] == x;
    TreeIs(store, off, n);
    ItemIs(g, s, refSize, x);
    if node.ArrayNode? || node.DictNode? {
      assert g.KidsBelow(x);
      var kids, keys := node.Kids(), if node.DictNode? then |node.keys| else 0;
      KidsTreeBack(g, s, refSize, store, x, kids, n - 1, keys);
      NodeKeys(g, x, keys);
    }
  }

  /** A leaf's item holds its value; a container's item finishes to its value. */
  lemma ItemIs(g: Graph, s: Flat, refSize: nat, x: nat)
    requires Lists(g, s) && s.Consistent() && x < |g.nodes| && KidsListed(g, s, x) && !g.nodes[x].OtherNode?
    ensures var n, item := g.nodes[x], ExpectedItem(g, s, refSize, x);
      if n.ArrayNode? || n.DictNode? then
        item.Refs? && item.kids == Places(g, s, refSize, n.Kids()) && Finish(item, None) == None
        && Finish(item, Some(UnfoldKids(g, x))) == Some(Unfold(g, x))
        && KeyCount(item) == if n.DictNode? then |n.keys| else 0
      else item == Leaf(Unfold(g, x)) && KeysPrimitive(g, x)
  {
    hide Places, UnfoldKids;
  }

  lemma TreeIs(store: Store, off: nat, n: nat)
    requires store.Has(off) && n > 0
    ensures Tree(store, off, n)
      == Finish(store.items[off], TreeKids(store, store.Kids(off), n - 1, KeyCount(store.items[off])))
  {
    assert Tree(store, off, n) == Finish(store.items[off], TreeBelow(store, off, n - 1));
  }

  lemma NodeKeys(g: Graph, x: nat, keys: nat)
    requires g.WellFormed() && x < |g.nodes| && NodesOf(g, g.nodes[x].Kids())
    requires keys == if g.nodes[x].DictNode? then |g.nodes[x].keys| else 0
    ensures KeysGood(g, g.nodes[x].Kids(), keys) <==> KeysPrimitive(g, x)
    ensures UnfoldAll(g, g.nodes[x].Kids()) == UnfoldKids(g, x)
  {
    assert g.KidsBelow(x);
  }

  lemma {:induction false} KidsTreeBack(g: Graph, s: Flat, refSize: nat, store: Store, x: nat, xs: seq<nat>, n: nat, keys: nat)
    requires Holds(g, s, refSize, store) && AllWritable(g, s) && x < |g.nodes|
    requires NodesOf(g, xs) && forall i :: 0 <= i < |xs| ==> xs[i] in s.objtable && g.rank[xs[i]] < n && g.rank[xs[i]] < g.rank[x]
    requires forall k :: k in xs ==> k in s.objtable
    ensures TreeKids(store, Places(g, s, refSize, xs), n, keys)
      == if KeysGood(g, xs, keys) then Some(UnfoldAll(g, xs)) else None
    decreases g.rank[x], 0, |xs|
  {
    hide Place, Holds, KeysPrimitive, Unfold, Tree;
    if xs != [] {
      var fewer := if keys > 0 then keys - 1 else 0;
      TreeBack(g, s, refSize, store, xs[0], n);
      KidsTreeBack(g, s, refSize, store, x, xs[1..], n, fewer);
      KeysGoodStep(g, xs, keys);
    }
  }

  lemma KeysGoodStep(g: Graph, xs: seq<nat>, keys: nat)
    requires xs != [] && NodesOf(g, xs)
    ensures KeysGood(g, xs, keys) <==>
      && KeysPrimitive(g, xs[0]) && (keys > 0 ==> Unfold(g, xs[0]).IsPrimitive())
      && KeysGood(g, xs[1..], if keys > 0 then keys - 1 else 0)
  {
    hide KeysPrimitive, Unfold;
    var fewer := if keys > 0 then keys - 1 else 0;
    if KeysGood(g, xs[1..], fewer) && KeysPrimitive(g, xs[0]) && (keys > 0 ==> Unfold(g, xs[0]).IsPrimitive()) {
      forall i | 0 <= i < |xs|
        ensures KeysPrimitive(g, xs[i]) && (i < keys ==> Unfold(g, xs[i]).IsPrimitive())
      {
        assert i > 0 ==> xs[i] == xs[1..][i - 1];
      }
    }
    if KeysGood(g, xs, keys) {
      forall i | 0 <= i < |xs[1..]|
        ensures KeysPrimitive(g, xs[1..][i]) && (i < fewer ==> Unfold(g, xs[1..][i]).IsPrimitive())
      {
        assert xs[1..][i] == xs[i + 1];
      }
    }
  }

  lemma TopIsFirst(g: Graph, top: nat)
    requires g.WellFormed() && top < |g.nodes|
    ensures var s := Flattened(g, top); top in s.objtable && s.objtable[top] == 0 && s.objlist != []
  {
    FlattenKidsSound(g, top, 0, EMPTY.Listed(top, g.nodes[top].Uniqued()), false);
  }

  /**
   * The round trip. A written graph passes the trailer check and reads back as its own tree
   * unfolding, however its nodes are shared, if and only if no dictionary at or below the top
   * has a container among its keys; otherwise the reader rejects it.
   */
  lemma RoundTrip(g: Graph, top: nat)
    requires g.WellFormed() && top < |g.nodes| && Fits(g, Flattened(g, top))
    requires Writable(g, top) && |EncodeFile(g, Flattened(g, top))| < TWO_63
    ensures Encode(g, top).Some?
    ensures ReadBack(Encode(g, top).value) == if KeysPrimitive(g, top) then Some(Unfold(g, top)) else None
    ensures TopLevelInfo(Encode(g, top).value).Some?
  {
    EncodeDefined(g, top);
    TopIsFirst(g, top);
    var s := Flattened(g, top);
    var d, t := EncodeFile(g, s), FileTrailer(g, s);
    InfoBack(g, s);
    FileWritten(g, s);
    FileHolds(g, s, d, t);
    assert Place(g, s, t.objectRefSize, top) == 8;
    hide KeysPrimitive, Unfold, EncodeFile, TopLevelInfo, Holds, Flattened, Place, Tree, Decode, StoreOf, Fits, Writable;
    var store, n, result := StoreOf(d, t), g.rank[top] + 1, if KeysPrimitive(g, top) then Some(Unfold(g, top)) else None;
    forall m: nat | m >= n
      ensures Tree(store, 8, m) == result
    {
      TreeBack(g, s, t.objectRefSize, store, top, m);
    }
    DecodedAsTree(store, 8, n, result);
  }

  /** A dictionary whose one key is an empty array can be written but not read back. */
  lemma ContainerKey()
    ensures var g := KeyedByArray();
      && g.WellFormed() && Fits(g, Flattened(g, 0)) && Writable(g, 0)
      && Encode(g, 0).Some? && |Encode(g, 0).value| < TWO_63 && ReadBack(Encode(g, 0).value).None?
  {
    hide KeyedByArray, KeysPrimitive, Unfold, EncodeFile, Flattened, Fits, Writable, ReadBack, Graph.WellFormed, AllWritable, Lists;
    KeyedByArrayGraph();
    KeyedByArraySize();
    NodeCount();
    RoundTrip(KeyedByArray(), 0);
  }

  function KeyedByArray(): Graph {
    Graph([DictNode([1], [2]), ArrayNode([]), BoolNode(true)], [1, 0, 0])
  }

  lemma NodeCount()
    ensures |KeyedByArray().nodes| == 3
  {
  }

  lemma KeyedByArrayGraph()
    ensures var g := KeyedByArray(); g.WellFormed() && Writable(g, 0) && !KeysPrimitive(g, 0)
  {
    var g := KeyedByArray();
    var n := g.nodes[0];
    assert n.Kids() == [1, 2] && g.KidsBelow(0);
    assert g.nodes[1].Kids() == [] && g.nodes[2].Kids() == [];
    assert g.WellFormed();
    assert Writable(g, 1) && Writable(g, 2);
    assert Unfold(g, n.Kids()[0]).PArray?;
  }

  lemma KeyedByArraySize()
    ensures var g := KeyedByArray();
      g.WellFormed() && Fits(g, Flattened(g, 0)) && |EncodeFile(g, Flattened(g, 0))| < TWO_63
  {
    KeyedByArrayGraph();
    KeyedByArrayList();
    var g, s := KeyedByArray(), Flattened(KeyedByArray(), 0);
    NodeSizes(s.objtable);
    hide EncodeNode, Flattened, EncodeTrailer, EncodeOffsets;
    assert |EncodeObjects(g, s, 1, 1)| == 3 by {
      assert EncodeObjects(g, s, 1, 0) == [];
    }
    assert |EncodeObjects(g, s, 1, 2)| == 4;
    assert |EncodeObjects(g, s, 1, 3)| == 5;
  }

  lemma NodeSizes(table: map<nat, nat>)
    ensures |EncodeNode(DictNode([1], [2]), table, 1)| == 3
    ensures |EncodeNode(ArrayNode([]), table, 1)| == |EncodeNode(BoolNode(true), table, 1)| == 1
  {
    hide Reference, ToBigEndian;
    assert [1] + [2] == [1, 2];
  }

  lemma KeyedByArrayList()
    ensures var g := KeyedByArray(); g.WellFormed() && Flattened(g, 0).objlist == [0, 1, 2]
  {
    KeyedByArrayGraph();
    KeyedByArrayShape();
    hide *;
    PairOfLeaves(KeyedByArray());
  }

  lemma KeyedByArrayShape()
    ensures var nodes := KeyedByArray().nodes;
      && |nodes| == 3 && !nodes[0].Uniqued() && !nodes[1].Uniqued() && !nodes[2].Uniqued()
      && nodes[0].Kids() == [1, 2] && nodes[1].Kids() == nodes[2].Kids() == []
  {
    assert [1] + [2] == [1, 2];
  }

  lemma PairOfLeaves(g: Graph)
    requires g.WellFormed() && |g.nodes| == 3
    requires !g.nodes[0].Uniqued() && !g.nodes[1].Uniqued() && !g.nodes[2].Uniqued()
    requires g.nodes[0].Kids() == [1, 2] && g.nodes[1].Kids() == g.nodes[2].Kids() == []
    ensures Flattened(g, 0).objlist == [0, 1, 2]
  {
    hide Graph.WellFormed, Flatten, FlattenKids, Lists, Extends, Node.Kids, Node.Uniqued;
    PairListed(g, 0, 1, 2, EMPTY);
    var s0 := EMPTY.Listed(0, false);
    LeafListed(g, 1, s0);
    LeafListed(g, 2, s0.Listed(1, false));
  }

  lemma LeafListed(g: Graph, x: nat, s: Flat)
    requires g.WellFormed() && x < |g.nodes| && g.nodes[x].Kids() == [] && !g.nodes[x].Uniqued()
    ensures Flatten(g, x, s) == s.Listed(x, false)
  {
  }

  lemma PairListed(g: Graph, x: nat, a: nat, b: nat, s: Flat)
    requires g.WellFormed() && x < |g.nodes| && g.nodes[x].Kids() == [a, b] && !g.nodes[x].Uniqued()
    ensures a < |g.nodes| && b < |g.nodes|
    ensures Flatten(g, x, s) == Flatten(g, b, Flatten(g, a, s.Listed(x, false)))
  {
    assert g.KidsBelow(x);
    assert g.nodes[x].Kids()[0] == a && g.nodes[x].Kids()[1] == b;
    var s0 := s.Listed(x, false);
    var s1 := Flatten(g, a, s0);
    assert FlattenKids(g, x, 1, s1) == FlattenKids(g, x, 2, Flatten(g, b, s1));
  }

  lemma DecodedAsTree(store: Store, off: nat, n: nat, result: Option<Plist>)
    requires forall m: nat :: m >= n ==> Tree(store, off, m) == result
    ensures Decode(store, off, None, 0) == result
  {
    hide Tree, Decode;
    var got := Decode(store, off, None, 0);
    if got.Some? {
      CycleCheckExact(store, off, got.value);
      var m: nat :| Tree(store, off, m) == got;
      TreeMonotone(store, off, m, m + n);
    } else if result.Some? {
      assert Tree(store, off, n) == Some(result.value);
      CycleCheckExact(store, off, result.value);
    }
  }

  lemma InfoBack(g: Graph, s: Flat)
    requires GoodFile(g, s)
    ensures TopLevelInfo(EncodeFile(g, s)) == Some((FileTrailer(g, s), 8))
  {
    hide EncodeFile, TrailerShapeOk, OffsetEntry, TrailerAt;
    var d, t := EncodeFile(g, s), FileTrailer(g, s);
    TrailerBack(g, s);
    forall i: nat | i < t.numObjects
      ensures OffsetEntry(d, t, i) == ObjectOffset(g, s, t.objectRefSize, i) < t.offsetTableOffset
    {
      OffsetEntryBack(g, s, i);
    }
    assert ObjectOffset(g, s, t.objectRefSize, 0) == 8;
  }

  lemma FileHolds(g: Graph, s: Flat, d: seq<u8>, t: Trailer)
    requires Written(g, s, d, t) && s.Consistent() && s.ClosedFrom(g, 0)
    ensures Holds(g, s, t.objectRefSize, StoreOf(d, t))
  {
    hide Written, Place, ExpectedItem, Trusted;
    WrittenBasics(g, s, d, t);
    forall x | x in s.objtable
      ensures KidsListed(g, s, x) && StoreOf(d, t).Has(Place(g, s, t.objectRefSize, x))
      ensures StoreOf(d, t).items[Place(g, s, t.objectRefSize, x)] == ExpectedItem(g, s, t.objectRefSize, x)
    {
      assert s.objlist[s.objtable[x]] == x;
      ItemBack(g, s, d, t, x);
    }
  }
}
