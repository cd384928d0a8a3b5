/** The object formats of a binary property list, byte by byte: what the writer puts and what the reader takes. */
module PlistFormat {
  import opened Bytes
  import opened PlistModel
  import opened PlistWriter
  import opened PlistDecoding
  import opened PlistReader

  // ------------------------------------------------------------------ writing

  /** An integer object: 1, 2, 4 or 8 bytes, big-endian; a negative one takes 8, in two's complement. */
  lemma WritesInt(v: i64, table: map<nat, nat>, refSize: nat)
    ensures EncodeNode(IntNode(v), table, refSize) ==
      if v < 0 then [0x13] + ToBigEndian(v + TWO_64, 8)
      else if v < 0x100 then [0x10, v]
      else if v < 0x1_0000 then [0x11, v / 0x100, v % 0x100]
      else if v < TWO_32 then [0x12] + ToBigEndian(v, 4)
      else [0x13] + ToBigEndian(v, 8)
  {
    if 0 <= v < 0x1_0000 {
      TwoBytes(v);
    }
  }

  lemma LastByte(v: nat, n: nat)
    ensures ToBigEndian(v, n + 1) == ToBigEndian(v / 256, n) + [v % 256] && ToBigEndian(v, 0) == []
  {
  }

  lemma TwoBytes(v: nat)
    requires v < 0x1_0000
    ensures ToBigEndian(v, 2) == [v / 0x100, v % 0x100] && (v < 0x100 ==> ToBigEndian(v, 1) == [v])
  {
    LastByte(v, 1);
    LastByte(v, 0);
    LastByte(v / 256, 0);
    Small(v);
    hide ToBigEndian;
  }

  lemma Small(v: nat)
    requires v < 0x1_0000
    ensures v / 256 < 256 && v / 256 % 256 == v / 256 && (v < 256 ==> v % 256 == v)
  {
  }

  /** Objects of a fixed size. */
  lemma WritesFixed(n: Node, table: map<nat, nat>, refSize: nat)
    requires n.WellFormed()
    ensures n.BoolNode? ==> EncodeNode(n, table, refSize) == [if n.flag then 0x09 else 0x08]
    ensures n.RealNode? ==> EncodeNode(n, table, refSize) == [if |n.bits| == 4 then 0x22 else 0x23] + n.bits
    ensures n.DateNode? ==> EncodeNode(n, table, refSize) == [0x33] + n.bits
    ensures n.UidNode? ==>
      EncodeNode(n, table, refSize) ==
        if n.uid < 0x100 then [0x80, n.uid]
        else if n.uid < 0x1_0000 then [0x81, n.uid / 0x100, n.uid % 0x100]
        else [0x83] + ToBigEndian(n.uid, 4)
  {
    if n.UidNode? && n.uid < 0x1_0000 {
      TwoBytes(n.uid);
    }
  }

  /** A marker with the number of elements in its low nibble, or 15 there and an integer object behind it. */
  ghost function Counted(kind: nat, count: nat): seq<u8>
    requires kind < 16 && count < TWO_63
  {
    if count < 15 then [16 * kind + count] else [16 * kind + 15] + EncodeNode(IntNode(count), map[], 0)
  }

  /** Data: its bytes, counted. */
  lemma WritesData(n: Node, table: map<nat, nat>, refSize: nat)
    requires n.WellFormed() && n.DataNode?
    ensures EncodeNode(n, table, refSize) == Counted(0x4, |n.bytes|) + n.bytes
  {
  }

  /** Strings all ASCII: a byte for each unit. */
  lemma WritesAscii(n: Node, table: map<nat, nat>, refSize: nat)
    requires n.WellFormed() && n.StringNode? && forall j: nat :: j < |n.chars| ==> n.chars[j] < 0x80
    ensures var r, head := EncodeNode(n, table, refSize), Counted(0x5, |n.chars|);
      && head <= r && |r| == |head| + |n.chars|
      && forall i: nat :: i < |n.chars| ==> r[|head| + i] == n.chars[i]
  {
    StringHead(n.chars);
    assert IsAscii(n.chars);
    hide EncodeCount, Counted;
  }

  /** Other strings: two bytes for each unit, the high one first. */
  lemma WritesUnits(n: Node, table: map<nat, nat>, refSize: nat)
    requires n.WellFormed() && n.StringNode? && exists j: nat :: j < |n.chars| && n.chars[j] >= 0x80
    ensures var r, head := EncodeNode(n, table, refSize), Counted(0x6, |n.chars|);
      && head <= r && |r| == |head| + 2 * |n.chars|
      && forall i: nat :: i < |n.chars| ==>
           r[|head| + 2 * i] == n.chars[i] / 0x100 && r[|head| + 2 * i + 1] == n.chars[i] % 0x100
  {
    StringHead(n.chars);
    UnitBytes(n.chars);
    assert !IsAscii(n.chars);
    hide EncodeUnits, EncodeCount, Counted, IsAscii;
  }

  lemma StringHead(chars: seq<u16>)
    requires |chars| < TWO_63
    ensures EncodeCount(MARKER_ASCII, |chars|) == Counted(0x5, |chars|)
    ensures EncodeCount(MARKER_UTF16, |chars|) == Counted(0x6, |chars|)
  {
    hide EncodeInt;
  }

  lemma {:induction false} UnitBytes(chars: seq<u16>)
    ensures forall i: nat :: i < |chars| ==>
      EncodeUnits(chars)[2 * i] == chars[i] / 0x100 && EncodeUnits(chars)[2 * i + 1] == chars[i] % 0x100
  {
    if chars != [] {
      TwoBytes(chars[0]);
      UnitBytes(chars[1..]);
      var first, rest, all := ToBigEndian(chars[0], 2), EncodeUnits(chars[1..]), EncodeUnits(chars);
      assert all == first + rest;
      hide ToBigEndian, EncodeUnits;
      forall i: nat | 0 < i < |chars|
        ensures all[2 * i] == chars[i] / 0x100 && all[2 * i + 1] == chars[i] % 0x100
      {
        assert chars[1..][i - 1] == chars[i];
        assert all[2 * i] == rest[2 * (i - 1)] && all[2 * i + 1] == rest[2 * (i - 1) + 1];
      }
    }
  }

  /** Containers: the number of every child, those of a dictionary's keys before those of its values. */
  lemma WritesRefs(n: Node, table: map<nat, nat>, refSize: nat)
    requires n.WellFormed() && (n.ArrayNode? || n.DictNode?)
    requires forall k :: k in n.Kids() ==> k in table
    ensures var r, kids := EncodeNode(n, table, refSize), if n.ArrayNode? then n.items else n.keys + n.vals;
      var head := if n.ArrayNode? then Counted(0xA, |n.items|) else Counted(0xD, |n.keys|);
      head <= r && Numbers(r[|head|..], kids, table, refSize)
  {
    var kids := n.Kids();
    var refs := EncodeRefs(kids, table, refSize);
    var head := if n.ArrayNode? then Counted(0xA, |n.items|) else Counted(0xD, |n.keys|);
    assert EncodeNode(n, table, refSize) == head + refs by {
      hide EncodeInt, EncodeRefs;
    }
    assert (head + refs)[|head|..] == refs;
    hide EncodeNode, EncodeRefs, ToBigEndian, Counted;
    forall i: nat | i < |kids|
      ensures NumberAt(refs, kids, table, refSize, i)
    {
      RefBytes(kids, table, refSize, i);
    }
  }

  /** The object numbers of some objects, `refSize` bytes each, and nothing else. */
  ghost predicate Numbers(refs: seq<u8>, kids: seq<nat>, table: map<nat, nat>, refSize: nat) {
    |refs| == |kids| * refSize && forall i: nat :: i < |kids| ==> NumberAt(refs, kids, table, refSize, i)
  }

  ghost predicate NumberAt(refs: seq<u8>, kids: seq<nat>, table: map<nat, nat>, refSize: nat, i: nat)
    requires i < |kids|
  {
    && kids[i] in table && i * refSize + refSize <= |refs|
    && refs[i * refSize..i * refSize + refSize] == ToBigEndian(table[kids[i]], refSize)
  }

  lemma {:induction false} RefBytes(xs: seq<nat>, table: map<nat, nat>, refSize: nat, i: nat)
    requires i < |xs| && xs[i] in table
    ensures NumberAt(EncodeRefs(xs, table, refSize), xs, table, refSize, i)
  {
    var first, rest := ToBigEndian(Reference(table, xs[0]), refSize), EncodeRefs(xs[1..], table, refSize);
    assert EncodeRefs(xs, table, refSize) == first + rest;
    hide ToBigEndian, EncodeRefs;
    if i == 0 {
      assert (first + rest)[..refSize] == first;
    } else {
      hide NumberAt;
      RefBytes(xs[1..], table, refSize, i - 1);
      NextNumber(first, rest, xs, table, refSize, i);
    }
  }

  lemma NextNumber(first: seq<u8>, rest: seq<u8>, xs: seq<nat>, table: map<nat, nat>, refSize: nat, i: nat)
    requires 0 < i < |xs| && |first| == refSize && NumberAt(rest, xs[1..], table, refSize, i - 1)
    ensures NumberAt(first + rest, xs, table, refSize, i)
  {
    var at := (i - 1) * refSize;
    assert i * refSize == refSize + at;
    Shift(first, rest, at, at + refSize);
    hide ToBigEndian;
  }

  lemma Shift(a: seq<u8>, b: seq<u8>, i: nat, j: nat)
    requires i <= j <= |b|
    ensures (a + b)[|a| + i..|a| + j] == b[i..j]
  {
  }

  // ------------------------------------------------------------------ reading

  /** The markers the reader has no format for. */
  predicate NoFormat(b: u8) {
    0x01 <= b <= 0x07 || 0x0A <= b <= 0x0F || 0x15 <= b <= 0x21 || 0x24 <= b <= 0x32 || 0x34 <= b <= 0x3F
    || 0x70 <= b <= 0x7F || 0x90 <= b <= 0x9F || 0xB0 <= b <= 0xBF || 0xE0 <= b
  }

  /** Null and booleans, and what is no object at all. */
  lemma ReadsSingletons(d: seq<u8>, t: Trailer, off: nat)
    requires Trusted(d, t) && off < t.offsetTableOffset
    ensures d[off] == 0x00 ==> HeaderAt(d, t, off) == Object(PNull, false)
    ensures d[off] == 0x08 ==> HeaderAt(d, t, off) == Object(PBool(false), false)
    ensures d[off] == 0x09 ==> HeaderAt(d, t, off) == Object(PBool(true), false)
    ensures NoFormat(d[off]) ==> HeaderAt(d, t, off) == NoObject
  {
    var high := d[off] / 16;
    if 0x15 <= d[off] <= 0x1F {
      Powers(d[off] % 16);
    }
  }

  lemma {:induction false} Powers(k: nat)
    ensures Pow2(0) == 1 && Pow2(1) == 2 && Pow2(2) == 4 && Pow2(3) == 8 && Pow2(4) == 16
    ensures k > 4 ==> Pow2(k) > 16
  {
    assert Pow2(2) == 2 * Pow2(1) && Pow2(3) == 2 * Pow2(2);
    if k > 4 {
      Powers(k - 1);
    }
  }

  /** What follows is told by the high nibble. */
  lemma FixedKinds(d: seq<u8>, t: Trailer, off: nat)
    requires Trusted(d, t) && off < t.offsetTableOffset
    ensures var b, h, end := d[off], HeaderAt(d, t, off), t.offsetTableOffset - 1;
      && (0x10 <= b <= 0x1F ==> h == IntAt(d, off, end))
      && (0x20 <= b <= 0x2F ==> h == RealAt(d, off, end))
      && (0x30 <= b <= 0x3F ==> h == DateAt(d, off, end))
      && (0x80 <= b <= 0x8F ==> h == UidAt(d, off, end))
  {
    hide DataAt, StringAt, RefsAt, IntAt, RealAt, DateAt, UidAt, SingletonAt;
  }

  /** Integers, read with their sign only from 8 bytes; of 16 bytes the last 8 count. */
  lemma ReadsInt(d: seq<u8>, off: nat, end: nat)
    requires off <= end < |d| && 0x10 <= d[off] <= 0x14
    ensures var b := d[off];
      var n := if b == 0x10 then 1 else if b == 0x11 then 2 else if b == 0x12 then 4 else if b == 0x13 then 8 else 16;
      if end < off + n then IntAt(d, off, end) == NoObject
      else
        var v := BigEndian(d[off + 1..off + 1 + n]) % TWO_64;
        IntAt(d, off, end) == Object(if n == 16 then PInt128(v) else PInt(if v < TWO_63 then v else v - TWO_64), true)
  {
    Powers(0);
    hide BigEndian, Pow2;
  }

  /** Reals and dates: their bytes. */
  lemma ReadsBits(d: seq<u8>, off: nat, end: nat)
    requires off <= end < |d|
    ensures d[off] == 0x22 ==>
      RealAt(d, off, end) == if end < off + 4 then NoObject else Object(PReal(d[off + 1..off + 5]), true)
    ensures d[off] == 0x23 ==>
      RealAt(d, off, end) == if end < off + 8 then NoObject else Object(PReal(d[off + 1..off + 9]), true)
    ensures d[off] == 0x33 ==>
      DateAt(d, off, end) == if end < off + 8 then NoObject else Object(PDate(d[off + 1..off + 9]), true)
  {
  }

  /** UIDs: one byte to sixteen, of which the value must fit 32 bits. */
  lemma ReadsUid(d: seq<u8>, off: nat, end: nat)
    requires off <= end < |d| && 0x80 <= d[off] <= 0x8F
    ensures var n := d[off] - 0x80 + 1;
      if end < off + n then UidAt(d, off, end) == NoObject
      else
        var v := BigEndian(d[off + 1..off + 1 + n]) % TWO_64;
        UidAt(d, off, end) == if v < TWO_32 then Object(PUid(v), true) else NoObject
  {
    hide BigEndian;
  }

  /** A counted object up to `end`: how many elements, and where they start. */
  ghost predicate Elements(d: seq<u8>, off: nat, end: nat, n: nat, p: nat)
    requires off <= end < |d|
  {
    if d[off] % 16 < 15 then n == d[off] % 16 && p == off + 1
    else ReadInt(d, off + 1, end) == Some((n, p)) && n < TWO_63
  }

  lemma ReadsElements(d: seq<u8>, off: nat, end: nat, n: nat, p: nat, width: nat)
    requires off <= end < |d| && Elements(d, off, end, n, p)
    ensures CountedAt(d, off, end, width) == if end + 1 < p + n * width then None else Some((n, p))
  {
    hide ReadInt;
  }

  /** What follows is told by the high nibble. */
  lemma CountedKinds(d: seq<u8>, t: Trailer, off: nat)
    requires Trusted(d, t) && off < t.offsetTableOffset
    ensures var b, h, end := d[off], HeaderAt(d, t, off), t.offsetTableOffset - 1;
      && (0x40 <= b <= 0x4F ==> h == DataAt(d, off, end))
      && (0x50 <= b <= 0x5F ==> h == StringAt(d, off, end, 1))
      && (0x60 <= b <= 0x6F ==> h == StringAt(d, off, end, 2))
      && (0xA0 <= b <= 0xAF ==> h == RefsAt(d, t, off, ArrayKind, 1))
      && (0xC0 <= b <= 0xCF ==> h == RefsAt(d, t, off, SetKind, 1))
      && (0xD0 <= b <= 0xDF ==> h == RefsAt(d, t, off, DictKind, 2))
  {
    hide DataAt, StringAt, RefsAt, IntAt, RealAt, DateAt, UidAt, SingletonAt;
  }

  /** Data: its bytes. */
  lemma ReadsData(d: seq<u8>, off: nat, end: nat, n: nat, p: nat)
    requires off <= end < |d| && Elements(d, off, end, n, p)
    ensures DataAt(d, off, end) == if end + 1 < p + n then NoObject else Object(PData(d[p..p + n]), true)
  {
    hide Elements, CountedAt;
    ReadsElements(d, off, end, n, p, 1);
  }

  /** ASCII strings: a byte for each character. */
  lemma ReadsAscii(d: seq<u8>, off: nat, end: nat, n: nat, p: nat)
    requires off <= end < |d| && Elements(d, off, end, n, p)
    ensures var h := StringAt(d, off, end, 1);
      if end + 1 < p + n then h == NoObject
      else
        && h.Object? && h.cached && h.value.PString? && |h.value.chars| == n
        && forall i: nat :: i < n ==> h.value.chars[i] == d[p + i]
  {
    hide Elements, CountedAt;
    ReadsElements(d, off, end, n, p, 1);
  }

  /** Other strings: two bytes for each UTF-16 unit, the high one first. */
  lemma ReadsUnits(d: seq<u8>, off: nat, end: nat, n: nat, p: nat)
    requires off <= end < |d| && Elements(d, off, end, n, p)
    ensures var h := StringAt(d, off, end, 2);
      if end + 1 < p + n * 2 then h == NoObject
      else
        && h.Object? && h.cached && h.value.PString? && |h.value.chars| == n
        && forall i: nat :: i < n ==> h.value.chars[i] == d[p + 2 * i] as int * 0x100 + d[p + 2 * i + 1]
  {
    hide Elements, CountedAt;
    ReadsElements(d, off, end, n, p, 2);
  }

  /** Arrays, sets and dictionaries: one reference an element, or two. */
  lemma ReadsRefs(d: seq<u8>, t: Trailer, off: nat, n: nat, p: nat)
    requires Trusted(d, t) && off < t.offsetTableOffset && Elements(d, off, t.offsetTableOffset - 1, n, p)
    requires 0xA0 <= d[off] <= 0xAF || 0xC0 <= d[off] <= 0xDF
    ensures var per := if d[off] < 0xD0 then 1 else 2;
      HeaderAt(d, t, off) ==
        if t.offsetTableOffset < p + n * (per * t.objectRefSize) || TWO_64 <= 8 * (per * n) then NoObject
        else Children(if d[off] < 0xB0 then ArrayKind else if d[off] < 0xD0 then SetKind else DictKind, per * n, p)
  {
    hide HeaderAt, Elements, CountedAt;
    CountedKinds(d, t, off);
    ReadsElements(d, off, t.offsetTableOffset - 1, n, p, (if d[off] < 0xD0 then 1 else 2) * t.objectRefSize);
  }

  /** Without an element count in the bytes there is no such object. */
  lemma ReadsNoCount(d: seq<u8>, t: Trailer, off: nat, end: nat)
    requires Trusted(d, t) && off <= end && end + 1 == t.offsetTableOffset <= |d|
    requires 0x40 <= d[off] <= 0x6F || 0xA0 <= d[off] <= 0xAF || 0xC0 <= d[off] <= 0xDF
    requires forall n: nat, p: nat :: !Elements(d, off, end, n, p)
    ensures HeaderAt(d, t, off) == NoObject
  {
    hide HeaderAt, ReadInt;
    CountedKinds(d, t, off);
    CountTells(d, off, end);
  }

  lemma CountTells(d: seq<u8>, off: nat, end: nat)
    requires off <= end < |d|
    ensures var count := ReadCount(d, off, end);
      count.Some? ==> Elements(d, off, end, count.value.0, count.value.1)
  {
    hide ReadInt;
  }

  /**
   * A reference is a big-endian object number; it stands for the offset in that entry of the offset table, or for
   * none at all if there is no such object.
   */
  lemma ReadsNumbers(d: seq<u8>, t: Trailer, p: nat, count: nat, i: nat)
    requires Trusted(d, t) && 8 <= p && p + count * t.objectRefSize <= t.offsetTableOffset && i < count
    ensures p + i * t.objectRefSize + t.objectRefSize <= |d|
    ensures var at := p + i * t.objectRefSize;
      var number := BigEndian(d[at..at + t.objectRefSize]) % TWO_64;
      KidsAt(d, t, p, count)[i] ==
        if number < t.numObjects then EntryAt(d, t.offsetTableOffset, t.offsetIntSize, number) else TWO_64 - 1
  {
    hide BigEndian, KidsAt, EntryAt, RefOffset, Trusted;
    InFile(d, t);
    Inside(i, count, t.objectRefSize);
    NumberPlace(d, t, p, count, i);
    OneNumber(d, t, p + i * t.objectRefSize);
  }

  lemma InFile(d: seq<u8>, t: Trailer)
    requires Trusted(d, t)
    ensures t.offsetTableOffset <= |d|
  {
  }

  lemma {:induction false} Inside(i: nat, count: nat, size: nat)
    requires i < count
    ensures 0 <= i * size && i * size + size <= count * size
    decreases count
  {
    if i < count - 1 {
      Inside(i, count - 1, size);
      assert count * size == (count - 1) * size + size;
    } else if i > 0 {
      Inside(0, i, size);
    }
  }

  lemma {:induction false} NumberPlace(d: seq<u8>, t: Trailer, p: nat, count: nat, i: nat)
    requires Trusted(d, t) && i < count
    ensures 0 <= i * t.objectRefSize && KidsAt(d, t, p, count)[i] == RefOffset(d, t, p + i * t.objectRefSize)
    decreases count
  {
    hide RefOffset;
    if i > 0 {
      NumberPlace(d, t, p + t.objectRefSize, count - 1, i - 1);
      assert (i - 1) * t.objectRefSize + t.objectRefSize == i * t.objectRefSize;
    }
  }

  lemma OneNumber(d: seq<u8>, t: Trailer, p: nat)
    requires Trusted(d, t) && 8 <= p && p + t.objectRefSize <= t.offsetTableOffset
    ensures var number := BigEndian(d[p..p + t.objectRefSize]) % TWO_64;
      RefOffset(d, t, p) ==
        if number < t.numObjects then EntryAt(d, t.offsetTableOffset, t.offsetIntSize, number) else TWO_64 - 1
  {
    hide BigEndian, EntryAt, OffsetEntry;
    var number := SizedInt(d, p, t.objectRefSize);
    if number < t.numObjects {
      EntriesAgree(d, t, number);
    }
  }

  // ------------------------------------------------------------- what it is

  /** The values the unfoldings of some offsets have. */
  ghost predicate ValuesOf(s: Store, kids: seq<nat>, n: nat, vals: seq<Plist>) {
    |vals| == |kids| && forall i: nat :: i < |kids| ==> Tree(s, kids[i], n) == Some(vals[i])
  }

  lemma {:induction false} TreeKidsMean(s: Store, kids: seq<nat>, n: nat, keys: nat)
    ensures TreeKids(s, kids, n, keys).Some? <==>
      forall i: nat :: i < |kids| ==> Tree(s, kids[i], n).Some? && (i < keys ==> Tree(s, kids[i], n).value.IsPrimitive())
    ensures TreeKids(s, kids, n, keys).Some? ==> ValuesOf(s, kids, n, TreeKids(s, kids, n, keys).value)
  {
    if kids != [] {
      var less := if keys > 0 then keys - 1 else 0;
      TreeKidsMean(s, kids[1..], n, less);
      var all, rest := TreeKids(s, kids, n, keys), TreeKids(s, kids[1..], n, less);
      assert forall i: nat :: i < |kids| - 1 ==> kids[1..][i] == kids[i + 1];
      if all.Some? {
        forall i: nat | i < |kids|
          ensures Tree(s, kids[i], n) == Some(all.value[i]) && (i < keys ==> Tree(s, kids[i], n).value.IsPrimitive())
        {
          assert i > 0 ==> kids[i] == kids[1..][i - 1];
        }
      }
    }
  }

  /**
   * A container has a value exactly if all its children have, and the keys of a dictionary no containers. It is an
   * array, a set or a dictionary of theirs, in their order, the keys of a dictionary first.
   */
  lemma ContainerMeans(s: Store, off: nat, n: nat)
    requires n > 0 && s.Has(off) && s.items[off].Refs?
    ensures var kind, kids, v := s.items[off].kind, s.items[off].kids, Tree(s, off, n);
      && (v.Some? <==> forall i: nat :: i < |kids| ==>
            Tree(s, kids[i], n - 1).Some?
            && var key := Tree(s, kids[i], n - 1).value;
            kind == DictKind && i < |kids| / 2 ==> !key.PArray? && !key.PSet? && !key.PDict?)
      && (v.Some? && kind == ArrayKind ==> v.value.PArray? && ValuesOf(s, kids, n - 1, v.value.items))
      && (v.Some? && kind == SetKind ==> v.value.PSet? && ValuesOf(s, kids, n - 1, v.value.items))
      && (v.Some? && kind == DictKind ==>
            && v.value.PDict? && |v.value.keys| == |kids| / 2
            && ValuesOf(s, kids, n - 1, v.value.keys + v.value.vals))
  {
    hide ValuesOf;
    var kids := s.items[off].kids;
    TreeKidsMean(s, kids, n - 1, KeyCount(s.items[off]));
    var below := TreeBelow(s, off, n - 1);
    if below.Some? {
      HalfOf(s, kids, n - 1, below.value);
      assert below.value[..|kids| / 2] + below.value[|kids| / 2..] == below.value;
    }
  }

  lemma HalfOf(s: Store, kids: seq<nat>, n: nat, vals: seq<Plist>)
    requires ValuesOf(s, kids, n, vals)
    ensures |vals| == |kids|
  {
  }
}
