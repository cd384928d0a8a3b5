/** The reading half of CFBinaryPList.c, for a whole immutable property list. */
module PlistReader {
  import opened Bytes
  import opened PlistModel
  import opened PlistWriter
  import opened PlistDecoding

  const MARKER_SET: u8 := 0xC0

  /** The trailer fields the reader uses. */
  datatype Trailer = Trailer(offsetIntSize: u8, objectRefSize: u8, numObjects: u64, topObject: u64, offsetTableOffset: u64)

  // ---------------------------------------------------------------- integers

  /** The unsigned 64-bit value of `n` bytes from `p` on: only the last 64 bits count. */
  function SizedInt(d: seq<u8>, p: nat, n: nat): u64
    requires p + n <= |d|
  {
    BigEndian(d[p..p + n]) % TWO_64
  }

  method GetSizedInt(d: seq<u8>, p: nat, valSize: u8) returns (res: u64)
    requires p + valSize <= |d|
    ensures res == SizedInt(d, p, valSize)
  {
    res := 0;
    for idx := 0 to valSize
      invariant res == SizedInt(d, p, idx)
    {
      assert d[p..p + idx + 1][..idx] == d[p..p + idx];
      ShiftIn(BigEndian(d[p..p + idx]), d[p + idx]);
      res := (res * 256 % TWO_64 + d[p + idx]) % TWO_64;
    }
  }

  lemma ShiftIn(v: nat, b: u8)
    ensures (256 * v + b) % TWO_64 == (v % TWO_64 * 256 % TWO_64 + b) % TWO_64
  {
    var q, r := v / TWO_64, v % TWO_64;
    assert v == TWO_64 * q + r;
    assert 256 * v + b == TWO_64 * (256 * q) + (256 * r + b);
    ModAdd(256 * q, 256 * r + b);
    var q', r' := 256 * r / TWO_64, 256 * r % TWO_64;
    assert 256 * r + b == TWO_64 * q' + (r' + b);
    ModAdd(q', r' + b);
  }

  lemma {:induction false} ModAdd(k: nat, x: nat)
    ensures (TWO_64 * k + x) % TWO_64 == x % TWO_64
  {
    if k > 0 {
      ModAdd(k - 1, x);
      assert (TWO_64 * (k - 1) + x) % TWO_64 == (TWO_64 * k + x) % TWO_64;
    }
  }

  /** A length integer at `ptr`: its value and the position after it. The width reaches
      _getSizedInt as an 8-bit number, so a width of 256 bytes or more reads as 0. */
  function ReadInt(d: seq<u8>, ptr: nat, end: nat): (r: Option<(u64, nat)>)
    requires end < |d|
    ensures r.Some? ==> ptr < r.value.1 <= end + 1
  {
    if end < ptr then None
    else
      var marker := d[ptr];
      if marker / 16 * 16 != MARKER_INT then None
      else
        var cnt := Pow2(marker % 16);
        var p := ptr + 1;
        if end < p + cnt - 1 then None
        else
          assert cnt % 256 <= cnt;
          Some((SizedInt(d, p, cnt % 256), p + cnt))
  }

  /**
   * There is a length integer exactly if its marker and all its bytes lie before the end, and its value is the
   * number its bytes stand for, modulo 2^64, exactly if there are fewer than 256 of them or that number is 0.
   */
  lemma ReadIntExact(d: seq<u8>, ptr: nat, end: nat)
    requires end < |d|
    ensures ReadInt(d, ptr, end).Some? <==>
      ptr <= end && d[ptr] / 16 * 16 == MARKER_INT && ptr + Pow2(d[ptr] % 16) <= end
    ensures ReadInt(d, ptr, end).Some? ==>
      var cnt, (value, next) := Pow2(d[ptr] % 16), ReadInt(d, ptr, end).value;
      && next == ptr + 1 + cnt <= |d|
      && var meant := BigEndian(d[ptr + 1..ptr + 1 + cnt]) % TWO_64;
      value == meant <==> d[ptr] % 16 < 8 || meant == 0
  {
    hide BigEndian;
    if ptr <= end {
      WidthCast(d[ptr] % 16);
      assert d[ptr + 1..ptr + 1] == [];
      NoBytes();
    }
  }

  /** The width in 8 bits. */
  lemma WidthCast(k: nat)
    requires k < 16
    ensures Pow2(k) % 256 == if k < 8 then Pow2(k) else 0
  {
    if k >= 8 {
      Pow2Factor(k - 8);
    } else {
      Pow2Small(k);
    }
  }

  lemma {:induction false} Pow2Factor(k: nat)
    ensures Pow2(k + 8) == 256 * Pow2(k)
  {
    if k > 0 {
      Pow2Factor(k - 1);
    } else {
      Pow2Small(7);
    }
  }

  lemma {:induction false} Pow2Small(k: nat)
    requires k < 8
    ensures Pow2(k) <= 128 && (k == 7 ==> Pow2(k) == 128)
  {
    assert Pow2(3) == 8 && Pow2(5) == 4 * Pow2(3) && Pow2(7) == 4 * Pow2(5);
    assert Pow2(4) == 16 && Pow2(6) == 64;
  }

  lemma NoBytes()
    ensures BigEndian([]) == 0
  {
  }

  /** The number 1, written in 256 bytes behind the marker 0x18, reads as 0. */
  lemma WideIntegerLost(zeros: seq<u8>, d: seq<u8>)
    requires |zeros| == 255 && (forall i :: 0 <= i < 255 ==> zeros[i] == 0) && d == [0x18] + zeros + [1]
    ensures BigEndian(d[1..257]) == 1 && ReadInt(d, 0, 256) == Some((0, 257))
  {
    assert d[1..257][..255] == zeros;
    assert d[1..257] == zeros + [1];
    Zeros(zeros);
    Pow2Factor(0);
    hide BigEndian;
    assert d[1..1] == [];
    NoBytes();
  }

  lemma {:induction false} Zeros(s: seq<u8>)
    requires forall i :: 0 <= i < |s| ==> s[i] == 0
    ensures BigEndian(s) == 0
  {
    if s != [] {
      Zeros(s[..|s| - 1]);
    }
  }

  /** The element count after a marker, inline or as an integer, and where the elements start. */
  function ReadCount(d: seq<u8>, off: nat, end: nat): (r: Option<(nat, nat)>)
    requires off <= end < |d|
    ensures r.Some? ==> off < r.value.1 <= end + 1 && r.value.0 < TWO_63
  {
    if d[off] % 16 != 15 then Some((d[off] % 16, off + 1))
    else
      match ReadInt(d, off + 1, end)
      case None => None
      case Some((n, p)) => if TWO_63 - 1 < n then None else Some((n, p))
  }

  // ----------------------------------------------------------------- trailer

  /** What the reader may rely on once the trailer was accepted. */
  ghost predicate Trusted(d: seq<u8>, t: Trailer) {
    && 9 <= t.offsetTableOffset
    && 1 <= t.offsetIntSize && 1 <= t.objectRefSize && 1 <= t.numObjects
    && t.offsetTableOffset + t.numObjects * t.offsetIntSize + TRAILER_SIZE == |d|
  }

  lemma TableRoom(t: Trailer, ref: nat)
    requires ref < t.numObjects
    ensures ref * t.offsetIntSize + t.offsetIntSize <= t.numObjects * t.offsetIntSize
  {
    assert (ref + 1) * t.offsetIntSize <= t.numObjects * t.offsetIntSize;
  }

  function OffsetEntry(d: seq<u8>, t: Trailer, ref: nat): u64
    requires Trusted(d, t) && ref < t.numObjects
  {
    TableRoom(t, ref);
    SizedInt(d, t.offsetTableOffset + ref * t.offsetIntSize, t.offsetIntSize)
  }

  function TrailerAt(d: seq<u8>): Trailer
    requires TRAILER_SIZE <= |d|
  {
    var b := |d| - TRAILER_SIZE;
    Trailer(d[b + 6], d[b + 7], SizedInt(d, b + 8, 8), SizedInt(d, b + 16, 8), SizedInt(d, b + 24, 8))
  }

  /** Everything __CFBinaryPlistGetTopLevelInfo checks before it looks at the offset table. */
  predicate TrailerShapeOk(d: seq<u8>)
    requires |d| < TWO_64
    ensures TrailerShapeOk(d) ==> TRAILER_SIZE <= |d| && Trusted(d, TrailerAt(d))
  {
    && TRAILER_SIZE + 8 + 1 <= |d|
    && d[..7] == HEADER[..7]
    && var t := TrailerAt(d);
    && t.numObjects <= TWO_63 - 1 && t.offsetTableOffset <= TWO_63 - 1
    && 1 <= t.numObjects
    && t.topObject < t.numObjects
    && 9 <= t.offsetTableOffset
    && t.offsetTableOffset < |d| - TRAILER_SIZE
    && 1 <= t.offsetIntSize && 1 <= t.objectRefSize
    && t.numObjects * t.offsetIntSize < TWO_64
    && t.offsetTableOffset + t.numObjects * t.offsetIntSize + TRAILER_SIZE < TWO_64
    && |d| == t.offsetTableOffset + t.numObjects * t.offsetIntSize + TRAILER_SIZE
    && (t.objectRefSize < 8 ==> t.numObjects < Pow256(t.objectRefSize))
    && (t.offsetIntSize < 8 ==> t.offsetTableOffset < Pow256(t.offsetIntSize))
  }

  /** No entry of the offset table points at or past the table. */
  ghost predicate OffsetsOk(d: seq<u8>, t: Trailer)
    requires Trusted(d, t)
  {
    forall i: nat :: i < t.numObjects ==> OffsetEntry(d, t, i) < t.offsetTableOffset
  }

  method CheckOffsets(d: seq<u8>, t: Trailer) returns (ok: bool)
    requires Trusted(d, t)
    ensures ok == OffsetsOk(d, t)
  {
    var bytesptr: nat := t.offsetTableOffset;
    var maxOffset := t.offsetTableOffset - 1;
    for idx := 0 to t.numObjects
      invariant bytesptr == t.offsetTableOffset + idx * t.offsetIntSize
      invariant forall i: nat :: i < idx ==> OffsetEntry(d, t, i) < t.offsetTableOffset
    {
      TableRoom(t, idx);
      var off := GetSizedInt(d, bytesptr, t.offsetIntSize);
      assert off == OffsetEntry(d, t, idx);
      if maxOffset < off {
        return false;
      }
      assert (idx + 1) * t.offsetIntSize == idx * t.offsetIntSize + t.offsetIntSize;
      bytesptr := bytesptr + t.offsetIntSize;
    }
    return true;
  }

  /** The trailer and the offset of the top object of an acceptable file. */
  ghost function TopLevelInfo(d: seq<u8>): (r: Option<(Trailer, nat)>)
    requires |d| < TWO_64
    ensures r.Some? ==> Trusted(d, r.value.0) && 8 <= r.value.1 < r.value.0.offsetTableOffset
  {
    if !TrailerShapeOk(d) || !OffsetsOk(d, TrailerAt(d)) then None
    else
      var t := TrailerAt(d);
      var off := OffsetEntry(d, t, t.topObject);
      if off < 8 || t.offsetTableOffset <= off then None else Some((t, off))
  }

  /** The `i`-th entry of a table of numbers of `size` bytes each, modulo 2^64. */
  function EntryAt(d: seq<u8>, table: nat, size: nat, i: nat): nat {
    var at := table + i * size;
    if at + size <= |d| then BigEndian(d[at..at + size]) % TWO_64 else 0
  }

  /** Header, objects and an offset table of `count` entries, none of which points past the objects. */
  ghost predicate Laid(d: seq<u8>, size: nat, refSize: nat, count: nat, top: nat, table: nat) {
    && 41 <= |d| && d[..7] == [0x62, 0x70, 0x6C, 0x69, 0x73, 0x74, 0x30]  // "bplist0"
    && 9 <= table < TWO_63 && 1 <= size && 1 <= refSize && 1 <= count < TWO_63 && table + count * size + 32 == |d|
    && (refSize < 8 ==> count < Pow256(refSize)) && (size < 8 ==> table < Pow256(size))
    && (forall i: nat :: i < count ==> EntryAt(d, table, size, i) < table)
    && top < count && 8 <= EntryAt(d, table, size, top)
  }

  /** The five numbers of a trailer, from the last 26 bytes of a file. */
  lemma TrailerBytes(d: seq<u8>)
    requires 41 <= |d|
    ensures var t, n := TrailerAt(d), |d|;
      && t.offsetIntSize == d[n - 26] && t.objectRefSize == d[n - 25] && t.numObjects == BigEndian(d[n - 24..n - 16])
      && t.topObject == BigEndian(d[n - 16..n - 8]) && t.offsetTableOffset == BigEndian(d[n - 8..])
  {
    hide BigEndian;
    EightBytes(d, |d| - 24);
    EightBytes(d, |d| - 16);
    EightBytes(d, |d| - 8);
    assert d[|d| - 8..] == d[|d| - 8..|d|];
  }

  lemma EightBytes(d: seq<u8>, p: nat)
    requires p + 8 <= |d|
    ensures SizedInt(d, p, 8) == BigEndian(d[p..p + 8])
  {
    Pow256Values();
    hide Pow256, BigEndian;
    BigEndianBound(d[p..p + 8]);
    Whole(BigEndian(d[p..p + 8]));
  }

  lemma Whole(v: nat)
    requires v < TWO_64
    ensures v % TWO_64 == v
  {
  }

  /** The entries the reader looks at are those of the table. */
  lemma EntriesAgree(d: seq<u8>, t: Trailer, i: nat)
    requires Trusted(d, t) && i < t.numObjects
    ensures var at := t.offsetTableOffset + i * t.offsetIntSize;
      at + t.offsetIntSize <= |d| && OffsetEntry(d, t, i) == BigEndian(d[at..at + t.offsetIntSize]) % TWO_64
    ensures EntryAt(d, t.offsetTableOffset, t.offsetIntSize, i) == OffsetEntry(d, t, i)
  {
    hide BigEndian;
    TableRoom(t, i);
  }

  /** The checks, in the numbers of the trailer. */
  lemma LaidOut(d: seq<u8>, t: Trailer)
    requires 41 <= |d| < TWO_64 && t == TrailerAt(d)
    ensures TopLevelInfo(d).Some? <==>
      Laid(d, t.offsetIntSize, t.objectRefSize, t.numObjects, t.topObject, t.offsetTableOffset)
    ensures TopLevelInfo(d).Some? ==>
      && t.topObject < t.numObjects
      && TopLevelInfo(d).value == (t, EntryAt(d, t.offsetTableOffset, t.offsetIntSize, t.topObject))
  {
    hide Pow256, TrailerAt, OffsetEntry, EntryAt;
    if Trusted(d, t) {
      forall i: nat | i < t.numObjects
        ensures EntryAt(d, t.offsetTableOffset, t.offsetIntSize, i) == OffsetEntry(d, t, i)
      {
        EntriesAgree(d, t, i);
      }
    }
  }

  /**
   * On the bytes: which files are accepted, what their trailer says, and that the top object is where the entry of
   * the offset table that the trailer names says it is.
   */
  lemma TopLevelInfoExact(d: seq<u8>)
    requires |d| < TWO_64
    ensures |d| < 41 ==> TopLevelInfo(d).None?
    ensures 41 <= |d| ==>
      var n, size, refSize := |d|, d[|d| - 26], d[|d| - 25];
      var count, top, table := BigEndian(d[n - 24..n - 16]), BigEndian(d[n - 16..n - 8]), BigEndian(d[n - 8..]);
      && (TopLevelInfo(d).Some? <==> Laid(d, size, refSize, count, top, table))
      && (TopLevelInfo(d).Some? ==>
            var (t, off) := TopLevelInfo(d).value;
            && t.offsetIntSize == size && t.objectRefSize == refSize
            && t.numObjects == count && t.topObject == top && t.offsetTableOffset == table
            && table + top * size + size <= n && off == EntryAt(d, table, size, top))
  {
    if 41 <= |d| {
      TrailerBytes(d);
      var t := TrailerAt(d);
      LaidOut(d, t);
      if TopLevelInfo(d).Some? {
        EntriesAgree(d, t, t.topObject);
      }
    }
    hide BigEndian, TrailerAt, OffsetEntry, TopLevelInfo, Laid, EntryAt;
  }

  method GetTopLevelInfo(d: seq<u8>) returns (r: Option<(Trailer, nat)>)
    requires |d| < TWO_64
    ensures r == TopLevelInfo(d)
  {
    hide SizedInt, OffsetsOk;
    if !TrailerShapeOk(d) {
      return None;
    }
    hide TrailerShapeOk;
    var t := TrailerAt(d);
    var ok := CheckOffsets(d, t);
    if !ok {
      return None;
    }
    TableRoom(t, t.topObject);
    var off := GetSizedInt(d, t.offsetTableOffset + t.topObject * t.offsetIntSize, t.offsetIntSize);
    if off < 8 || t.offsetTableOffset <= off {
      return None;
    }
    return Some((t, off));
  }

  // ----------------------------------------------------------- single objects

  /** What the bytes at an offset say, before any reference is followed. */
  datatype Header =
    | NoObject
    | Object(value: Plist, cached: bool)
    | Children(kind: Kind, count: nat, ptr: nat)

  function UnitAt(d: seq<u8>, p: nat): u16
    requires p + 2 <= |d|
  {
    var high: int := d[p];
    256 * high + d[p + 1]
  }

  function UnitsAt(d: seq<u8>, p: nat, n: nat): seq<u16>
    requires p + 2 * n <= |d|
  {
    seq(n, i requires 0 <= i < n => UnitAt(d, p + 2 * i))
  }

  /** A counted object of `width` bytes an element that ends inside the object area. */
  function CountedAt(d: seq<u8>, off: nat, end: nat, width: nat): (r: Option<(nat, nat)>)
    requires off <= end < |d|
    ensures r.Some? ==> off < r.value.1 && r.value.1 + r.value.0 * width <= end + 1 && r.value.0 < TWO_63
  {
    match ReadCount(d, off, end)
    case None => None
    case Some((n, p)) => if end < p + n * width - 1 then None else Some((n, p))
  }

  /** A container's header; `perEntry` references belong to each counted entry. */
  function RefsAt(d: seq<u8>, t: Trailer, off: nat, kind: Kind, perEntry: nat): Header
    requires Trusted(d, t) && off < t.offsetTableOffset
  {
    match CountedAt(d, off, t.offsetTableOffset - 1, perEntry * t.objectRefSize)
    case None => NoObject
    case Some((n, p)) => if TWO_64 <= 8 * (perEntry * n) then NoObject else Children(kind, perEntry * n, p)
  }

  function StringAt(d: seq<u8>, off: nat, end: nat, width: nat): Header
    requires off <= end < |d| && (width == 1 || width == 2)
  {
    match CountedAt(d, off, end, width)
    case None => NoObject
    case Some((n, p)) =>
      Object(PString(if width == 1 then seq(n, i requires 0 <= i < n => d[p + i]) else UnitsAt(d, p, n)), true)
  }

  function DataAt(d: seq<u8>, off: nat, end: nat): Header
    requires off <= end < |d|
  {
    match CountedAt(d, off, end, 1)
    case None => NoObject
    case Some((n, p)) => Object(PData(d[p..p + n]), true)
  }

  function IntAt(d: seq<u8>, off: nat, end: nat): Header
    requires off <= end < |d|
  {
    var cnt := Pow2(d[off] % 16);
    if end < off + cnt || 16 < cnt then NoObject
    else
      var bigint := SizedInt(d, off + 1, cnt);
      Object(if 8 < cnt then PInt128(bigint) else PInt(Signed64(bigint)), true)
  }

  function RealAt(d: seq<u8>, off: nat, end: nat): Header
    requires off <= end < |d|
  {
    var cnt := if d[off] % 16 == 2 then 4 else 8;
    if (d[off] % 16 != 2 && d[off] % 16 != 3) || end < off + cnt then NoObject
    else Object(PReal(d[off + 1..off + 1 + cnt]), true)
  }

  function DateAt(d: seq<u8>, off: nat, end: nat): Header
    requires off <= end < |d|
  {
    if d[off] != MARKER_DATE || end < off + 8 then NoObject
    else Object(PDate(d[off + 1..off + 9]), true)
  }

  function UidAt(d: seq<u8>, off: nat, end: nat): Header
    requires off <= end < |d|
  {
    var cnt := d[off] % 16 + 1;
    if end < off + cnt then NoObject
    else
      var bigint := SizedInt(d, off + 1, cnt);
      if 0xFFFF_FFFF < bigint then NoObject else Object(PUid(bigint), true)
  }

  function SingletonAt(marker: u8): Header {
    if marker == 0 then Object(PNull, false)
    else if marker == MARKER_FALSE then Object(PBool(false), false)
    else if marker == MARKER_TRUE then Object(PBool(true), false)
    else NoObject
  }

  function HeaderAt(d: seq<u8>, t: Trailer, off: nat): (h: Header)
    requires Trusted(d, t) && off < t.offsetTableOffset
  {
    var end := t.offsetTableOffset - 1;
    var high := d[off] / 16 * 16;
    if high == 0x00 then SingletonAt(d[off])
    else if high == MARKER_INT then IntAt(d, off, end)
    else if high == MARKER_REAL then RealAt(d, off, end)
    else if high == 0x30 then DateAt(d, off, end)
    else if high == MARKER_DATA then DataAt(d, off, end)
    else if high == MARKER_ASCII then StringAt(d, off, end, 1)
    else if high == MARKER_UTF16 then StringAt(d, off, end, 2)
    else if high == MARKER_UID then UidAt(d, off, end)
    else if high == MARKER_ARRAY then RefsAt(d, t, off, ArrayKind, 1)
    else if high == MARKER_SET then RefsAt(d, t, off, SetKind, 1)
    else if high == MARKER_DICT then RefsAt(d, t, off, DictKind, 2)
    else NoObject
  }

  /** The offset a reference stands for, or 2^64 - 1 when it names no object. */
  function RefOffset(d: seq<u8>, t: Trailer, ptr: nat): u64
    requires Trusted(d, t)
  {
    if ptr < 8 || t.offsetTableOffset < t.objectRefSize + ptr then TWO_64 - 1
    else
      var ref := SizedInt(d, ptr, t.objectRefSize);
      if t.numObjects <= ref then TWO_64 - 1 else OffsetEntry(d, t, ref)
  }

  /** The offsets that `count` references from `ptr` on stand for. */
  ghost function KidsAt(d: seq<u8>, t: Trailer, ptr: nat, count: nat): (r: seq<nat>)
    requires Trusted(d, t)
    ensures |r| == count
    decreases count
  {
    if count == 0 then [] else [RefOffset(d, t, ptr)] + KidsAt(d, t, ptr + t.objectRefSize, count - 1)
  }

  ghost function ItemAt(d: seq<u8>, t: Trailer, off: nat): Item
    requires Trusted(d, t)
  {
    if off < 8 || t.offsetTableOffset <= off then Bad
    else
      match HeaderAt(d, t, off)
      case NoObject => Bad
      case Object(v, _) => Leaf(v)
      case Children(kind, count, ptr) => Refs(kind, KidsAt(d, t, ptr, count))
  }

  ghost function ItemsUpTo(d: seq<u8>, t: Trailer, n: nat): (r: seq<Item>)
    requires Trusted(d, t)
    ensures |r| == n
  {
    if n == 0 then [] else ItemsUpTo(d, t, n - 1) + [ItemAt(d, t, n - 1)]
  }

  lemma {:induction false} ItemsUpToAt(d: seq<u8>, t: Trailer, n: nat, off: nat)
    requires Trusted(d, t) && off < n
    ensures ItemsUpTo(d, t, n)[off] == ItemAt(d, t, off)
  {
    if off < n - 1 {
      ItemsUpToAt(d, t, n - 1, off);
    }
  }

  /** The file as a store of objects that refer to each other. */
  ghost function StoreOf(d: seq<u8>, t: Trailer): (s: Store)
    requires Trusted(d, t)
    ensures |s.items| == t.offsetTableOffset
  {
    Store(ItemsUpTo(d, t, t.offsetTableOffset))
  }

  // ------------------------------------------------------------- the reader

  /** A CFMutableSet of offsets, shared by the calls it is passed to. */
  class OffsetSet {
    var elems: set<nat>

    constructor ()
      ensures elems == {}
    {
      elems := {};
    }
  }

  ghost function PathOf(path: OffsetSet?): Option<set<nat>>
    reads path
  {
    if path == null then None else Some(path.elems)
  }

  predicate Remembered(v: Plist, objects: map<nat, Plist>, off: nat) {
    !v.PNull? && !v.PBool? ==> off in objects && objects[off] == v
  }

  ghost function Resume(list: seq<Plist>, rest: Option<seq<Plist>>): Option<seq<Plist>> {
    if rest.Some? then Some(list + rest.value) else None
  }

  class Decoder {
    const d: seq<u8>
    const t: Trailer
    const caching: bool            // false when no table of finished objects is passed in
    var objects: map<nat, Plist>   // finished objects by offset

    /** Only finite unfoldings are ever cached. */
    ghost predicate Valid()
      reads this
    {
      Trusted(d, t) && forall off :: off in objects ==> exists n: nat :: Tree(StoreOf(d, t), off, n) == Some(objects[off])
    }

    constructor (d: seq<u8>, t: Trailer, caching: bool)
      requires Trusted(d, t)
      ensures Valid() && this.d == d && this.t == t && this.caching == caching
    {
      this.d, this.t, this.caching, objects := d, t, caching, map[];
    }

    /**
     * With or without the table of finished objects, the result is that of plain decoding. With one, everything
     * but null and booleans is entered into it.
     */
    method CreateObject(off: nat, path: OffsetSet?, depth: nat) returns (r: Option<Plist>)
      requires Valid() && Leads(StoreOf(d, t), OnPath(PathOf(path)), off)
      modifies this`objects, path
      ensures Valid()
      ensures r == Decode(StoreOf(d, t), off, old(PathOf(path)), depth)
      ensures r.Some? ==> PathOf(path) == old(PathOf(path))
      ensures if caching then r.Some? ==> Remembered(r.value, objects, off) else objects == old(objects)
      decreases Level(StoreOf(d, t), PathOf(path), depth), 1
    {
      ghost var s := StoreOf(d, t);
      if caching && off in objects {
        ghost var n: nat :| Tree(s, off, n) == Some(objects[off]);
        TreeIsDecoded(s, off, n, PathOf(path), depth, objects[off]);
        return Some(objects[off]);
      }
      if path != null && off in path.elems {
        return None;
      }
      if off < 8 || t.offsetTableOffset - 1 < off {
        return None;
      }
      ItemsUpToAt(d, t, t.offsetTableOffset, off);
      match HeaderAt(d, t, off) {
        case NoObject => return None;
        case Object(v, cached) =>
          if caching && cached {
            assert Tree(s, off, 1) == Some(v);
            objects := objects[off := v];
          }
          return Some(v);
        case Children(kind, count, ptr) =>
          r := CreateContainer(off, path, depth, kind, count, ptr);
      }
    }

    method CreateContainer(off: nat, path: OffsetSet?, depth: nat, kind: Kind, count: nat, ptr: nat) returns (r: Option<Plist>)
      requires Valid() && Leads(StoreOf(d, t), OnPath(PathOf(path)), off)
      requires 8 <= off < t.offsetTableOffset
      requires StoreOf(d, t).items[off] == Refs(kind, KidsAt(d, t, ptr, count))
      requires off !in OnPath(PathOf(path))
      modifies this`objects, path
      ensures Valid()
      ensures r == Decode(StoreOf(d, t), off, old(PathOf(path)), depth)
      ensures r.Some? ==> PathOf(path) == old(PathOf(path))
      ensures if caching then r.Some? ==> Remembered(r.value, objects, off) else objects == old(objects)
      decreases Level(StoreOf(d, t), PathOf(path), depth), 0
    {
      hide Leads, StoreOf, KidsAt, Tree, Decode, DecodeKids, Level;
      ghost var s, path0 := StoreOf(d, t), PathOf(path);
      ContainerDecodes(s, off, path0, depth, kind, KidsAt(d, t, ptr, count));
      var set_ := path;
      if set_ == null && 15 < depth {
        set_ := new OffsetSet();
      }
      if set_ != null {
        assert path == null ==> set_.elems + {off} == {off};
        set_.elems := set_.elems + {off};
      }
      assert PathOf(set_) == Enter(path0, depth, off);
      var keyCount := if kind == DictKind then count / 2 else 0;
      var list := CreateList(ptr, count, keyCount, set_, depth + 1);
      if list.None? {
        return None;
      }
      var plist := Build(kind, list.value);
      assert Decode(s, off, path0, depth) == Some(plist);
      if set_ != null {
        set_.elems := set_.elems - {off};
      }
      assert PathOf(path) == path0;
      if caching {
        DecodedIsTree(s, off, path0, depth, plist);
        objects := objects[off := plist];
      }
      return Some(plist);
    }

    /** The children, decoded in order; the first `keyCount` of them must be primitive. */
    method CreateList(ptr: nat, count: nat, keyCount: nat, path: OffsetSet?, depth: nat) returns (r: Option<seq<Plist>>)
      requires Valid()
      requires forall kid :: kid in KidsAt(d, t, ptr, count) ==> Leads(StoreOf(d, t), OnPath(PathOf(path)), kid)
      modifies this`objects, path
      ensures Valid()
      ensures r == DecodeKids(StoreOf(d, t), KidsAt(d, t, ptr, count), old(PathOf(path)), depth, keyCount)
      ensures r.Some? ==> PathOf(path) == old(PathOf(path))
      ensures !caching ==> objects == old(objects)
      decreases Level(StoreOf(d, t), PathOf(path), depth), 2
    {
      hide Leads, RefOffset, StoreOf, ItemsUpTo, Decode, KidsAt, DecodeKids, Resume;
      ghost var s, path' := StoreOf(d, t), PathOf(path);
      ghost var whole := DecodeKids(s, KidsAt(d, t, ptr, count), path', depth, keyCount);
      var list: seq<Plist> := [];
      var p: nat := ptr;
      ResumeStart(whole);
      for idx := 0 to count
        invariant Valid() && PathOf(path) == path' && (!caching ==> objects == old(objects))
        invariant forall kid :: kid in KidsAt(d, t, p, count - idx) ==> Leads(s, OnPath(path'), kid)
        invariant whole == Resume(list, DecodeKids(s, KidsAt(d, t, p, count - idx), path', depth, KeysLeft(keyCount, idx)))
      {
        var kid := RefOffset(d, t, p);
        ghost var later := KidsAt(d, t, p + t.objectRefSize, count - idx - 1);
        KidsNext(d, t, p, count - idx);
        assert forall q :: q in later ==> q in [kid] + later;
        ResumeKid(s, kid, later, path', depth, KeysLeft(keyCount, idx), list);
        var pl := CreateObject(kid, path, depth);
        if pl.None? || (idx < keyCount && !pl.value.IsPrimitive()) {
          return None;
        }
        list := list + [pl.value];
        p := p + t.objectRefSize;
      }
      ResumeEnd(d, t, p, s, path', depth, KeysLeft(keyCount, count), list);
      return Some(list);
    }
  }

  function KeysLeft(keyCount: nat, idx: nat): nat {
    if idx < keyCount then keyCount - idx else 0
  }

  lemma KidsNext(d: seq<u8>, t: Trailer, p: nat, n: nat)
    requires Trusted(d, t) && n > 0
    ensures KidsAt(d, t, p, n) == [RefOffset(d, t, p)] + KidsAt(d, t, p + t.objectRefSize, n - 1)
  {
  }

  lemma ResumeEnd(d: seq<u8>, t: Trailer, p: nat, s: Store, path: Option<set<nat>>, depth: nat, keys: nat, list: seq<Plist>)
    requires Trusted(d, t)
    ensures Resume(list, DecodeKids(s, KidsAt(d, t, p, 0), path, depth, keys)) == Some(list)
  {
    assert list + [] == list;
  }

  lemma ResumeStart(rest: Option<seq<Plist>>)
    ensures Resume([], rest) == rest
  {
    if rest.Some? {
      assert [] + rest.value == rest.value;
    }
  }

  /** Decoding one more child either fails the whole list or extends its decoded part. */
  lemma ResumeKid(s: Store, kid: nat, later: seq<nat>, path: Option<set<nat>>, depth: nat, keys: nat, list: seq<Plist>)
    ensures var v := Decode(s, kid, path, depth);
      Resume(list, DecodeKids(s, [kid] + later, path, depth, keys)) ==
      if v.None? || (keys > 0 && !v.value.IsPrimitive()) then None
      else Resume(list + [v.value], DecodeKids(s, later, path, depth, if keys > 0 then keys - 1 else 0))
  {
    var v := Decode(s, kid, path, depth);
    var rest := DecodeKids(s, later, path, depth, if keys > 0 then keys - 1 else 0);
    assert ([kid] + later)[1..] == later;
    if v.Some? && rest.Some? {
      assert list + ([v.value] + rest.value) == list + [v.value] + rest.value;
    }
  }

  /** What entering a container comes down to. */
  lemma ContainerDecodes(s: Store, off: nat, path: Option<set<nat>>, depth: nat, kind: Kind, kids: seq<nat>)
    requires s.Has(off) && s.items[off] == Refs(kind, kids)
    requires off !in OnPath(path) && Leads(s, OnPath(path), off)
    ensures Level(s, Enter(path, depth, off), depth + 1) < Level(s, path, depth)
    ensures forall kid :: kid in kids ==> Leads(s, OnPath(Enter(path, depth, off)), kid)
    ensures Decode(s, off, path, depth)
      == Finish(Refs(kind, kids), DecodeKids(s, kids, Enter(path, depth, off), depth + 1, KeyCount(Refs(kind, kids))))
  {
    EnterDescends(s, path, depth, off);
    assert Decode(s, off, path, depth) == Finish(s.items[off], DecodeBelow(s, off, path, depth));
    forall kid | kid in kids
      ensures Leads(s, OnPath(Enter(path, depth, off)), kid)
    {
      LeadsOn(s, OnPath(path), off, kid);
    }
  }

  /** What a file reads as: trailer check, then decoding from the top object. */
  ghost function ReadBack(file: seq<u8>): Option<Plist>
    requires |file| < TWO_64
  {
    match TopLevelInfo(file)
    case None => None
    case Some((t, off)) => Decode(StoreOf(file, t), off, None, 0)
  }

  /** __CFTryParseBinaryPlist, with a table of finished objects, reads exactly that. */
  method TryParse(d: seq<u8>) returns (r: Option<Plist>)
    requires |d| < TWO_64
    ensures r == ReadBack(d)
  {
    if |d| < 8 {
      return None;
    }
    var info := GetTopLevelInfo(d);
    match info {
      case None => return None;
      case Some((t, off)) =>
        var decoder := new Decoder(d, t, true);
        r := decoder.CreateObject(off, null, 0);
    }
  }
}
