/** The parts of a written file: header, objects one behind the other, offset table, trailer. */
module PlistLayout {
  import opened Bytes
  import opened PlistModel
  import opened PlistWriter
  import opened PlistReader
  import opened PlistRoundTrip

  /** As many bytes as a number needs, of 1, 2, 4 and 8. */
  ghost predicate LeastSize(size: nat, v: nat) {
    size in {1, 2, 4, 8} && v < Pow256(size) && forall less :: less in {1, 2, 4, 8} && less < size ==> Pow256(less) <= v
  }

  /** Header and trailer of a file of `count` objects, the first of which is the top one. */
  ghost predicate Framed(d: seq<u8>, count: nat) {
    var n := |d|;
    && 41 <= n && d[..8] == [0x62, 0x70, 0x6C, 0x69, 0x73, 0x74, 0x30, 0x30]  // "bplist00"
    && d[n - 32..n - 26] == [0, 0, 0, 0, 0, 0] && d[n - 16..n - 8] == [0, 0, 0, 0, 0, 0, 0, 0]
    && var size, refSize, table := d[n - 26], d[n - 25], BigEndian(d[n - 8..]);
    && LeastSize(size, table) && LeastSize(refSize, count)
    && BigEndian(d[n - 24..n - 16]) == count && table + count * size + 32 == n
  }

  /** The listed objects follow each other from the header to the table, and the table says where each is. */
  ghost predicate InOrder(g: Graph, s: Flat, d: seq<u8>, table: nat, size: nat, refSize: nat)
    requires Lists(g, s)
  {
    && (s.objlist != [] ==> EntryAt(d, table, size, 0) == 8)
    && forall i: nat :: i < |s.objlist| ==> Placed(g, s, d, table, size, refSize, i)
  }

  ghost predicate Placed(g: Graph, s: Flat, d: seq<u8>, table: nat, size: nat, refSize: nat, i: nat)
    requires Lists(g, s) && i < |s.objlist|
  {
    var at, bytes := EntryAt(d, table, size, i), EncodeNode(g.nodes[s.objlist[i]], s.objtable, refSize);
    var end := at + |bytes|;
    end <= |d| && d[at..end] == bytes && end == if i + 1 < |s.objlist| then EntryAt(d, table, size, i + 1) else table
  }

  /** Every file the writer makes within the sizes it is made for. */
  lemma WrittenFile(g: Graph, top: nat)
    requires g.WellFormed() && top < |g.nodes| && Fits(g, Flattened(g, top))
    requires Writable(g, top) && |EncodeFile(g, Flattened(g, top))| < TWO_63
    ensures Encode(g, top).Some?
    ensures var s, d := Flattened(g, top), Encode(g, top).value;
      Framed(d, |s.objlist|) && InOrder(g, s, d, BigEndian(d[|d| - 8..]), d[|d| - 26], d[|d| - 25])
  {
    hide Flattened, EncodeFile, Writable, Framed, InOrder, ObjectOffset, Flat.Consistent, Extends;
    EncodeDefined(g, top);
    TopIsFirst(g, top);
    FileFramed(g, Flattened(g, top));
    FileInOrder(g, Flattened(g, top));
  }

  lemma FileFramed(g: Graph, s: Flat)
    requires GoodFile(g, s)
    ensures Framed(EncodeFile(g, s), |s.objlist|)
  {
    HeaderWritten(g, s);
    TrailerWritten(g, s);
    SizesChosen(|s.objlist|, FileTrailer(g, s).offsetTableOffset);
    hide EncodeFile, ObjectOffset, BigEndian, LeastSize;
  }

  lemma TrailerWritten(g: Graph, s: Flat)
    requires GoodFile(g, s)
    ensures var d, t := EncodeFile(g, s), FileTrailer(g, s);
      41 <= |d| && TrailerSays(d, t) && t.offsetTableOffset + |s.objlist| * t.offsetIntSize + 32 == |d|
  {
    FilePieces(g, s);
    TrailerBack(g, s);
    hide EncodeFile, EncodeObjects, EncodeOffsets, EncodeTrailer, At, TrailerAt, ObjectOffset, Trusted, TrailerSays;
    TrailerIs(EncodeFile(g, s), FileTrailer(g, s));
  }

  ghost predicate TrailerSays(d: seq<u8>, t: Trailer)
    requires 41 <= |d|
  {
    && d[|d| - 32..|d| - 26] == [0, 0, 0, 0, 0, 0] && d[|d| - 16..|d| - 8] == [0, 0, 0, 0, 0, 0, 0, 0]
    && d[|d| - 26] == t.offsetIntSize && d[|d| - 25] == t.objectRefSize
    && BigEndian(d[|d| - 24..|d| - 16]) == t.numObjects && BigEndian(d[|d| - 8..]) == t.offsetTableOffset
  }

  lemma TrailerIs(d: seq<u8>, t: Trailer)
    requires 41 <= |d| && t.topObject == 0
    requires At(d, |d| - 32, EncodeTrailer(t.offsetIntSize, t.objectRefSize, t.numObjects, t.offsetTableOffset))
    ensures TrailerSays(d, t)
  {
    hide EncodeTrailer, At, TrailerAt, BigEndian;
    TrailerFields(d, t);
    TrailerFilled(d, t.offsetIntSize, t.objectRefSize, t.numObjects, t.offsetTableOffset);
    TrailerBytes(d);
  }

  lemma HeaderWritten(g: Graph, s: Flat)
    requires Lists(g, s) && Fits(g, s)
    ensures 8 <= |EncodeFile(g, s)| && EncodeFile(g, s)[..8] == [0x62, 0x70, 0x6C, 0x69, 0x73, 0x74, 0x30, 0x30]
  {
    hide EncodeObjects, EncodeOffsets, EncodeTrailer, ByteCountOf;
  }

  /** What of a trailer does not depend on the file. */
  lemma TrailerFilled(d: seq<u8>, size: u8, refSize: u8, count: nat, table: nat)
    requires 32 <= |d| && At(d, |d| - 32, EncodeTrailer(size, refSize, count, table))
    ensures d[|d| - 32..|d| - 26] == [0, 0, 0, 0, 0, 0] && d[|d| - 16..|d| - 8] == [0, 0, 0, 0, 0, 0, 0, 0]
  {
    var t, b := EncodeTrailer(size, refSize, count, table), |d| - 32;
    ZeroBytes();
    hide ToBigEndian;
    Inner(d, b, t, 0, 6);
    Inner(d, b, t, 16, 24);
    assert t[..6] == [0, 0, 0, 0, 0, 0] && t[16..24] == ToBigEndian(0, 8);
  }

  lemma Inner(d: seq<u8>, b: nat, t: seq<u8>, i: nat, j: nat)
    requires b + |t| <= |d| && d[b..b + |t|] == t && i <= j <= |t|
    ensures d[b + i..b + j] == t[i..j]
  {
    forall k: nat | k < j - i
      ensures d[b + i..b + j][k] == t[i..j][k]
    {
      assert d[b..b + |t|][i + k] == t[i + k];
    }
  }

  lemma ZeroBytes()
    ensures ToBigEndian(0, 8) == [0, 0, 0, 0, 0, 0, 0, 0]
  {
    assert ToBigEndian(0, 2) == [0, 0];
    assert ToBigEndian(0, 4) == ToBigEndian(0, 2) + [0, 0];
    assert ToBigEndian(0, 6) == ToBigEndian(0, 4) + [0, 0];
  }

  lemma SizesChosen(count: u64, table: u64)
    ensures LeastSize(ByteCountOf(count), count) && LeastSize(ByteCountOf(table), table)
  {
    hide ByteCountOf;
  }

  lemma FileInOrder(g: Graph, s: Flat)
    requires GoodFile(g, s)
    ensures var d := EncodeFile(g, s);
      33 <= |d| && InOrder(g, s, d, BigEndian(d[|d| - 8..]), d[|d| - 26], d[|d| - 25])
  {
    TrailerWritten(g, s);
    ObjectsInOrder(g, s);
    hide EncodeFile, BigEndian, ObjectOffset, InOrder;
  }

  lemma ObjectsInOrder(g: Graph, s: Flat)
    requires GoodFile(g, s)
    ensures var d, t := EncodeFile(g, s), FileTrailer(g, s);
      InOrder(g, s, d, t.offsetTableOffset, t.offsetIntSize, t.objectRefSize)
  {
    var d, t := EncodeFile(g, s), FileTrailer(g, s);
    NoObjects(g, s, t.objectRefSize);
    EntryIs(g, s, 0);
    hide EncodeFile, ObjectOffset, EntryAt, Placed, AllWritable;
    forall i: nat | i < |s.objlist|
      ensures Placed(g, s, d, t.offsetTableOffset, t.offsetIntSize, t.objectRefSize, i)
    {
      ObjectPlaced(g, s, i);
    }
  }

  lemma EntryIs(g: Graph, s: Flat, i: nat)
    requires GoodFile(g, s) && i < |s.objlist|
    ensures var d, t := EncodeFile(g, s), FileTrailer(g, s);
      EntryAt(d, t.offsetTableOffset, t.offsetIntSize, i) == ObjectOffset(g, s, t.objectRefSize, i)
  {
    hide EncodeFile, EntryAt, OffsetEntry, ObjectOffset;
    OffsetEntryBack(g, s, i);
    EntriesAgree(EncodeFile(g, s), FileTrailer(g, s), i);
  }

  lemma ObjectPlaced(g: Graph, s: Flat, i: nat)
    requires GoodFile(g, s) && i < |s.objlist|
    ensures var d, t := EncodeFile(g, s), FileTrailer(g, s);
      Placed(g, s, d, t.offsetTableOffset, t.offsetIntSize, t.objectRefSize, i)
  {
    hide EncodeFile, EntryAt, EncodeNode;
    ObjectBytes(g, s, i);
    EntryIs(g, s, i);
    if i + 1 < |s.objlist| {
      EntryIs(g, s, i + 1);
    }
    NextOffset(g, s, FileTrailer(g, s).objectRefSize, i);
    hide ObjectOffset;
  }

  lemma NextOffset(g: Graph, s: Flat, refSize: nat, i: nat)
    requires Lists(g, s) && i < |s.objlist|
    ensures ObjectOffset(g, s, refSize, i + 1)
         == ObjectOffset(g, s, refSize, i) + |EncodeNode(g.nodes[s.objlist[i]], s.objtable, refSize)|
  {
    hide EncodeNode;
  }
}
