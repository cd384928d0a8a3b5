/** The packed bit vector of CFBitVector.c; bit 0 of a bucket is the most significant. */
module BitVector {

  // ------------------------------------------------------------- bits of a bucket

  function UnitMask(j: nat): bv8 {
    match j
    case 0 => 0x80
    case 1 => 0x40
    case 2 => 0x20
    case 3 => 0x10
    case 4 => 0x08
    case 5 => 0x04
    case 6 => 0x02
    case _ => 0x01
  }

  function Bit(b: bv8, j: nat): bool {
    b & UnitMask(j) != 0
  }

  /** __CFBitBucketMask. */
  function BucketMask(bottomBit: nat, topBit: nat): bv8
    requires bottomBit <= topBit < 8
  {
    var shiftL := 8 - topBit + bottomBit - 1;
    var result: bv8 := 0xFF;
    (result << shiftL) >> bottomBit
  }

  /** The mask holds the bits from the bottom to the top one, and no others. */
  lemma BucketMaskBit(bottomBit: nat, topBit: nat, j: nat)
    requires bottomBit <= topBit < 8 && j < 8
    ensures Bit(BucketMask(bottomBit, topBit), j) <==> bottomBit <= j <= topBit
  {
  }

  /** One bit and no other. */
  predicate Single(u: bv8) {
    u != 0 && u & (u - 1) == 0
  }

  lemma UnitIsSingle(j: nat)
    requires j < 8
    ensures Single(UnitMask(j)) && UnitMask(j) == 1 << (8 - 1 - j)
  {
  }

  lemma UnitsDiffer(j: nat, k: nat)
    requires j < 8 && k < 8
    ensures UnitMask(j) == UnitMask(k) <==> j == k
  {
  }

  /** The masked bits of one word in another. */
  function Merged(x: bv8, y: bv8, mask: bv8): bv8 {
    (x & !mask) | (y & mask)
  }

  function WithBit(b: bv8, j: nat, value: bool): bv8
    requires j < 8
  {
    if value then b | (1 << (8 - 1 - j)) else b & !(1 << (8 - 1 - j))
  }

  function WithFlippedBit(b: bv8, j: nat): bv8
    requires j < 8
  {
    b ^ (1 << (8 - 1 - j))
  }

  lemma MergedUnit(x: bv8, y: bv8, mask: bv8, u: bv8)
    requires Single(u)
    ensures ((x & !mask) | (y & mask)) & u != 0 <==> if mask & u != 0 then y & u != 0 else x & u != 0
  {
  }

  /** The word written back has the mapped bits where the mask is set and the old ones elsewhere. */
  lemma MergedBit(x: bv8, y: bv8, mask: bv8, j: nat)
    requires j < 8
    ensures Bit(Merged(x, y, mask), j) == if Bit(mask, j) then Bit(y, j) else Bit(x, j)
  {
    UnitIsSingle(j);
    MergedUnit(x, y, mask, UnitMask(j));
    hide UnitMask, Single;
  }

  lemma SetUnit(b: bv8, u: bv8, v: bv8)
    requires Single(u) && Single(v)
    ensures (b | u) & v != 0 <==> u == v || b & v != 0
    ensures (b & !u) & v != 0 <==> u != v && b & v != 0
    ensures (b ^ u) & v != 0 <==> if u == v then b & v == 0 else b & v != 0
  {
  }

  /** What setting, clearing and flipping bit `j` do to bit `k`. */
  lemma OneBitChanged(b: bv8, j: nat, k: nat)
    requires j < 8 && k < 8
    ensures Bit(WithBit(b, j, true), k) == (k == j || Bit(b, k))
    ensures Bit(WithBit(b, j, false), k) == (k != j && Bit(b, k))
    ensures Bit(WithFlippedBit(b, j), k) == if k == j then !Bit(b, k) else Bit(b, k)
  {
    UnitIsSingle(j);
    UnitIsSingle(k);
    UnitsDiffer(j, k);
    hide UnitMask, Single;
    SetUnit(b, UnitMask(j), UnitMask(k));
  }

  // ------------------------------------------------------------- bits of a vector

  predicate BitAt(buckets: seq<bv8>, i: nat)
    requires i / 8 < |buckets|
  {
    Bit(buckets[i / 8], i % 8)
  }

  function NumBuckets(capacity: nat): nat {
    capacity / 8 + 1
  }

  /** The least positive multiple of 64 that is enough. */
  function RoundUpCapacity(capacity: nat): (c: nat)
    ensures c >= capacity && c % 64 == 0 && 0 < c && (c > 64 ==> c - 64 < capacity)
  {
    var n := if capacity == 0 then 1 else capacity;
    (n + 63) / 64 * 64
  }

  /** The functions the bucket walk is called with. */
  datatype Mapper = ZeroBits | OneBits | FlipBits | CountBits(value: bool)

  function MapBucket(m: Mapper, b: bv8): bv8 {
    match m
    case ZeroBits => 0
    case OneBits => 0xFF
    case FlipBits => 0xFF ^ b
    case CountBits(_) => b
  }

  /** What each does to one bit. */
  function MapBit(m: Mapper, b: bool): bool {
    match m
    case ZeroBits => false
    case OneBits => true
    case FlipBits => !b
    case CountBits(_) => b
  }

  lemma MapBucketBit(m: Mapper, b: bv8, j: nat)
    requires j < 8
    ensures Bit(MapBucket(m, b), j) == MapBit(m, Bit(b, j))
  {
  }

  // -------------------------------------------------------------------- counting

  function NibbleBitCount(n: bv8): nat {
    if n == 0 then 0
    else if n == 1 || n == 2 || n == 4 || n == 8 then 1
    else if n == 7 || n == 11 || n == 13 || n == 14 then 3
    else if n == 15 then 4
    else 2
  }

  /** __CFBitVectorCountBits: the nibbles of the masked word, looked up in a table. */
  method CountBucket(value: bool, bucketValue: bv8, mask: bv8) returns (count: nat)
    ensures count == MaskedOnes(if value then bucketValue else !bucketValue, mask, 8)
  {
    var val := if value then bucketValue & mask else !bucketValue & mask;
    OnesByNibbles(if value then bucketValue else !bucketValue, mask);
    ghost var all := val;
    count := 0;
    for idx := 0 to 2
      invariant idx == 0 ==> val == all && count == 0
      invariant idx == 1 ==> val == all >> 4 && count == NibbleBitCount(all & 0xF)
      invariant idx == 2 ==> count == NibbleBitCount(all & 0xF) + NibbleBitCount((all >> 4) & 0xF)
    {
      count := count + NibbleBitCount(val & 0xF);
      val := val >> 4;
    }
  }

  /** How many of the first `n` bits are set in both words. */
  function MaskedOnes(b: bv8, mask: bv8, n: nat): nat
    requires n <= 8
  {
    if n == 0 then 0 else MaskedOnes(b, mask, n - 1) + if Bit(b, n - 1) && Bit(mask, n - 1) then 1 else 0
  }

  lemma OnesByNibbles(b: bv8, mask: bv8)
    ensures MaskedOnes(b, mask, 8) == NibbleBitCount(b & mask & 0xF) + NibbleBitCount(((b & mask) >> 4) & 0xF)
  {
    var val := b & mask;
    forall j: nat | j < 8
      ensures Bit(val, j) <==> Bit(b, j) && Bit(mask, j)
    {
      MaskedBit(b, mask, j);
    }
    HighNibble(b, mask, val);
    LowNibble(b, mask, val);
  }

  lemma MaskedBit(b: bv8, mask: bv8, j: nat)
    requires j < 8
    ensures Bit(b & mask, j) <==> Bit(b, j) && Bit(mask, j)
  {
  }

  function One(b: bool): nat {
    if b then 1 else 0
  }

  lemma HighNibble(b: bv8, mask: bv8, val: bv8)
    requires forall j: nat :: j < 8 ==> (Bit(val, j) <==> Bit(b, j) && Bit(mask, j))
    ensures MaskedOnes(b, mask, 4) == NibbleBitCount((val >> 4) & 0xF)
  {
    NibbleSum(val);
    assert MaskedOnes(b, mask, 1) == One(Bit(val, 0));
    assert MaskedOnes(b, mask, 2) == One(Bit(val, 0)) + One(Bit(val, 1));
    assert MaskedOnes(b, mask, 3) == One(Bit(val, 0)) + One(Bit(val, 1)) + One(Bit(val, 2));
  }

  lemma LowNibble(b: bv8, mask: bv8, val: bv8)
    requires forall j: nat :: j < 8 ==> (Bit(val, j) <==> Bit(b, j) && Bit(mask, j))
    ensures MaskedOnes(b, mask, 8) == MaskedOnes(b, mask, 4) + NibbleBitCount(val & 0xF)
  {
    NibbleSum(val);
    assert MaskedOnes(b, mask, 5) == MaskedOnes(b, mask, 4) + One(Bit(val, 4));
    assert MaskedOnes(b, mask, 6) == MaskedOnes(b, mask, 5) + One(Bit(val, 5));
    assert MaskedOnes(b, mask, 7) == MaskedOnes(b, mask, 6) + One(Bit(val, 6));
  }

  lemma NibbleSum(val: bv8)
    ensures NibbleBitCount((val >> 4) & 0xF) == One(Bit(val, 0)) + One(Bit(val, 1)) + One(Bit(val, 2)) + One(Bit(val, 3))
    ensures NibbleBitCount(val & 0xF) == One(Bit(val, 4)) + One(Bit(val, 5)) + One(Bit(val, 6)) + One(Bit(val, 7))
  {
  }

  /** How many of the `n` bits from `lo` on have the value, bit by bit. */
  function CountOf(s: seq<bv8>, lo: nat, n: nat, value: bool): nat
    requires n > 0 ==> (lo + n - 1) / 8 < |s|
  {
    if n == 0 then 0 else CountOf(s, lo, n - 1, value) + One(BitAt(s, lo + n - 1) == value)
  }

  lemma NegatedBit(b: bv8, j: nat)
    requires j < 8
    ensures Bit(!b, j) == !Bit(b, j)
  {
  }

  lemma CountNext(s: seq<bv8>, lo: nat, n: nat, i: nat, value: bool)
    requires 0 < n && i == lo + n - 1 && i / 8 < |s|
    ensures CountOf(s, lo, n, value) == CountOf(s, lo, n - 1, value) + One(BitAt(s, i) == value)
  {
  }

  lemma CountNone(s: seq<bv8>, lo: nat, value: bool)
    ensures CountOf(s, lo, 0, value) == 0
  {
  }

  /** How many of the first `n` bits of a bucket lie between the bounds. */
  function Clipped(lo: nat, hi: nat, n: nat): nat
    requires lo <= hi < 8
  {
    if n <= lo then 0 else if n <= hi then n - lo else hi + 1 - lo
  }

  /** The masked word counts the bits between the bounds of the mask. */
  lemma {:induction false} BucketCount(s: seq<bv8>, b: nat, lo: nat, hi: nat, value: bool, n: nat)
    requires b < |s| && lo <= hi < 8 && n <= 8
    ensures MaskedOnes(if value then s[b] else !s[b], BucketMask(lo, hi), n)
         == CountOf(s, 8 * b + lo, Clipped(lo, hi, n), value)
  {
    hide Bit, BucketMask, BitAt, CountOf;
    if n > 0 {
      BucketCount(s, b, lo, hi, value, n - 1);
      BucketMaskBit(lo, hi, n - 1);
      NegatedBit(s[b], n - 1);
      if lo <= n - 1 <= hi {
        BitOfBucket(s, b, n - 1);
        CountNext(s, 8 * b + lo, n - lo, 8 * b + n - 1, value);
      }
    } else {
      CountNone(s, 8 * b + lo, value);
    }
  }

  lemma BitOfBucket(s: seq<bv8>, b: nat, j: nat)
    requires b < |s| && j < 8
    ensures (8 * b + j) / 8 == b && BitAt(s, 8 * b + j) == Bit(s[b], j)
  {
    assert (8 * b + j) / 8 == b && (8 * b + j) % 8 == j;
  }

  // -------------------------------------------------------------- the bucket walk

  /** The bits from `lo` up to `hi` are mapped and the others as they were. */
  ghost predicate Mapped(was: seq<bv8>, now: seq<bv8>, lo: nat, hi: nat, m: Mapper) {
    |now| == |was| &&
    forall i: nat :: i / 8 < |was| ==> BitAt(now, i) == if lo <= i < hi then MapBit(m, BitAt(was, i)) else BitAt(was, i)
  }

  lemma MappedOn(a: seq<bv8>, b: seq<bv8>, c: seq<bv8>, lo: nat, mid: nat, hi: nat, m: Mapper)
    requires lo <= mid <= hi && Mapped(a, b, lo, mid, m) && Mapped(b, c, mid, hi, m)
    ensures Mapped(a, c, lo, hi, m)
  {
  }

  lemma {:induction false} CountOn(a: seq<bv8>, b: seq<bv8>, lo: nat, mid: nat, n: nat, m: Mapper, value: bool)
    requires lo <= mid && Mapped(a, b, lo, mid, m) && (mid + n > lo ==> (mid + n - 1) / 8 < |a|)
    ensures CountOf(a, lo, mid - lo + n, value) == CountOf(a, lo, mid - lo, value) + CountOf(b, mid, n, value)
  {
    hide Mapped, BitAt, One, CountOf;
    if n > 0 {
      CountOn(a, b, lo, mid, n - 1, m, value);
      Beyond(a, b, lo, mid, m, mid + n - 1);
      CountNext(a, lo, mid - lo + n, mid + n - 1, value);
      CountNext(b, mid, n, mid + n - 1, value);
    } else {
      CountNone(b, mid, value);
    }
  }

  lemma Beyond(a: seq<bv8>, b: seq<bv8>, lo: nat, mid: nat, m: Mapper, i: nat)
    requires Mapped(a, b, lo, mid, m) && mid <= i && i / 8 < |a|
    ensures |b| == |a| && BitAt(b, i) == BitAt(a, i)
  {
    hide Bit, MapBit;
  }

  lemma OneBucketMapped(was: seq<bv8>, b: nat, lo: nat, hi: nat, m: Mapper, word: bv8)
    requires b < |was| && lo <= hi < 8
    requires forall j: nat :: j < 8 ==>
      Bit(word, j) == if lo <= j <= hi then MapBit(m, Bit(was[b], j)) else Bit(was[b], j)
    ensures Mapped(was, was[b := word], 8 * b + lo, 8 * b + hi + 1, m)
  {
    hide Bit, MapBit;
    forall i: nat | i / 8 < |was|
      ensures BitAt(was[b := word], i)
           == if 8 * b + lo <= i < 8 * b + hi + 1 then MapBit(m, BitAt(was, i)) else BitAt(was, i)
    {
      assert i == 8 * (i / 8) + i % 8;
    }
  }

  /** Part of a bucket: the mapped word goes in under the mask. */
  method MapPart(buckets: array<bv8>, b: nat, lo: nat, hi: nat, m: Mapper) returns (count: nat)
    requires b < buckets.Length && lo <= hi < 8
    modifies buckets
    ensures Mapped(old(buckets[..]), buckets[..], 8 * b + lo, 8 * b + hi + 1, m)
    ensures count == if m.CountBits? then CountOf(old(buckets[..]), 8 * b + lo, hi + 1 - lo, m.value) else 0
  {
    hide Bit, MapBucket, BucketMask, MapBit, Mapped, CountOf, MaskedOnes, Merged;
    ghost var was := buckets[..];
    var mask := BucketMask(lo, hi);
    count := 0;
    if m.CountBits? {
      count := CountBucket(m.value, buckets[b], mask);
      BucketCount(was, b, lo, hi, m.value, 8);
    }
    var newBucketVal := MapBucket(m, buckets[b]);
    var word := Merged(buckets[b], newBucketVal, mask);
    PartWord(was[b], lo, hi, m);
    buckets[b] := word;
    OneBucketMapped(was, b, lo, hi, m, word);
    assert buckets[..] == was[b := word];
  }

  lemma WholeMask()
    ensures BucketMask(0, 7) == 0xFF
  {
  }

  lemma WholeWord(b: bv8, m: Mapper)
    ensures forall j: nat :: j < 8 ==> Bit(MapBucket(m, b), j) == MapBit(m, Bit(b, j))
  {
    forall j: nat | j < 8
      ensures Bit(MapBucket(m, b), j) == MapBit(m, Bit(b, j))
    {
      MapBucketBit(m, b, j);
    }
  }

  /** A whole bucket: the mapped word replaces it. */
  method MapWhole(buckets: array<bv8>, b: nat, m: Mapper) returns (count: nat)
    requires b < buckets.Length
    modifies buckets
    ensures Mapped(old(buckets[..]), buckets[..], 8 * b, 8 * b + 8, m)
    ensures count == if m.CountBits? then CountOf(old(buckets[..]), 8 * b, 8, m.value) else 0
  {
    hide Bit, MapBucket, BucketMask, MapBit, Mapped, CountOf, MaskedOnes;
    WholeMask();
    ghost var was := buckets[..];
    count := 0;
    if m.CountBits? {
      count := CountBucket(m.value, buckets[b], 0xFF);
      BucketCount(was, b, 0, 7, m.value, 8);
    }
    var word := MapBucket(m, buckets[b]);
    WholeWord(was[b], m);
    buckets[b] := word;
    OneBucketMapped(was, b, 0, 7, m, word);
    assert buckets[..] == was[b := word];
  }

  /** A stretch of bits has been walked over. */
  ghost predicate Walked(was: seq<bv8>, now: seq<bv8>, lo: nat, hi: nat, m: Mapper, count: nat) {
    lo <= hi && (hi > lo ==> (hi - 1) / 8 < |was|) && Mapped(was, now, lo, hi, m)
    && count == if m.CountBits? then CountOf(was, lo, hi - lo, m.value) else 0
  }

  lemma WalkedOn(a: seq<bv8>, b: seq<bv8>, c: seq<bv8>, lo: nat, mid: nat, hi: nat, m: Mapper, n: nat, k: nat)
    requires Walked(a, b, lo, mid, m, n) && Walked(b, c, mid, hi, m, k)
    ensures Walked(a, c, lo, hi, m, n + k)
  {
    hide Mapped, CountOf;
    MappedOn(a, b, c, lo, mid, hi, m);
    SameLength(a, b, lo, mid, m);
    if m.CountBits? {
      CountOn(a, b, lo, mid, hi - mid, m, m.value);
      assert mid - lo + (hi - mid) == hi - lo;
    }
  }

  lemma SameLength(a: seq<bv8>, b: seq<bv8>, lo: nat, hi: nat, m: Mapper)
    requires Mapped(a, b, lo, hi, m)
    ensures |b| == |a|
  {
  }

  /**
   * __CFBitVectorInternalMap: ramping up, clipping along and ramping down does to every bit of the range what
   * the mapper does to one bit, to the others nothing, and counts what a bit-by-bit count would.
   */
  method InternalMap(buckets: array<bv8>, location: nat, length: nat, m: Mapper) returns (count: nat)
    requires length > 0 ==> (location + length - 1) / 8 < buckets.Length
    modifies buckets
    ensures Walked(old(buckets[..]), buckets[..], location, location + length, m, count)
  {
    hide Mapped, CountOf, Walked;
    count := 0;
    ghost var was := buckets[..];
    if length == 0 {
      WalkedNothing(was, location, m);
      return;
    }
    var bucketIdx := location / 8;
    var bitOfBucket := location % 8;
    if bitOfBucket + length < 8 {
      count := MapPart(buckets, bucketIdx, bitOfBucket, bitOfBucket + length - 1, m);
      WalkedOne(was, buckets[..], location, location + length, m, count);
    } else {
      count := MapPart(buckets, bucketIdx, bitOfBucket, 7, m);
      WalkedOne(was, buckets[..], location, 8 * bucketIdx + 8, m, count);
      count := WalkOn(was, location, buckets, bucketIdx + 1, length - (8 - bitOfBucket), m, count);
    }
  }

  /** The rest of it, from a bucket boundary on. */
  method WalkOn(ghost was: seq<bv8>, ghost location: nat, buckets: array<bv8>, first: nat, length: nat, m: Mapper, before: nat)
    returns (count: nat)
    requires length > 0 ==> (8 * first + length - 1) / 8 < buckets.Length
    requires Walked(was, buckets[..], location, 8 * first, m, before)
    modifies buckets
    ensures Walked(was, buckets[..], location, 8 * first + length, m, count)
  {
    hide Mapped, CountOf, Walked;
    count := before;
    var bucketIdx := first;
    var nBuckets := length / 8;
    var rest := length % 8;
    while nBuckets > 0
      invariant nBuckets >= 0 && 8 * first + length == 8 * bucketIdx + 8 * nBuckets + rest
      invariant Walked(was, buckets[..], location, 8 * bucketIdx, m, count)
    {
      ghost var now := buckets[..];
      var k := MapWhole(buckets, bucketIdx, m);
      WalkedOne(now, buckets[..], 8 * bucketIdx, 8 * bucketIdx + 8, m, k);
      WalkedOn(was, now, buckets[..], location, 8 * bucketIdx, 8 * bucketIdx + 8, m, count, k);
      count := count + k;
      bucketIdx := bucketIdx + 1;
      nBuckets := nBuckets - 1;
    }
    if rest != 0 {
      ghost var now := buckets[..];
      var k := MapPart(buckets, bucketIdx, 0, rest - 1, m);
      WalkedOne(now, buckets[..], 8 * bucketIdx, 8 * bucketIdx + rest, m, k);
      WalkedOn(was, now, buckets[..], location, 8 * bucketIdx, 8 * bucketIdx + rest, m, count, k);
      count := count + k;
    }
  }

  lemma WalkedNothing(was: seq<bv8>, at: nat, m: Mapper)
    ensures Walked(was, was, at, at, m, 0)
  {
  }

  lemma WalkedOne(was: seq<bv8>, now: seq<bv8>, lo: nat, hi: nat, m: Mapper, count: nat)
    requires lo < hi && (hi - 1) / 8 < |was| && Mapped(was, now, lo, hi, m)
    requires count == if m.CountBits? then CountOf(was, lo, hi - lo, m.value) else 0
    ensures Walked(was, now, lo, hi, m, count)
  {
  }

  // ------------------------------------------------------------------ the vector

  class MutableBitVector {
    var count: nat
    var capacity: nat
    var buckets: array<bv8>

    ghost predicate Valid()
      reads this, buckets
    {
      buckets.Length == NumBuckets(capacity) && count <= capacity
    }

    /** The bits that show. */
    ghost function Bits(): (s: seq<bool>)
      requires Valid()
      reads this, buckets
      ensures |s| == count
    {
      seq(count, i requires 0 <= i < count reads this, buckets requires Valid() => BitAt(buckets[..], i))
    }

    constructor ()
      ensures Valid() && Bits() == [] && fresh(buckets)
    {
      count, capacity := 0, RoundUpCapacity(0);
      buckets := new bv8[NumBuckets(RoundUpCapacity(0))](_ => 0);
    }

    /** A range of visible bits mapped in place. */
    method MapRange(location: nat, length: nat, m: Mapper) returns (n: nat)
      requires Valid() && location + length <= count
      modifies buckets
      ensures Valid() && forall i: nat :: i < count ==>
        Bits()[i] == if location <= i < location + length then MapBit(m, old(Bits())[i]) else old(Bits())[i]
      ensures m.CountBits? ==> n == Occurrences(old(Bits())[location..location + length], m.value)
    {
      ghost var was, before := buckets[..], Bits();
      n := InternalMap(buckets, location, length, m);
      MappedBits(was, buckets[..], location, location + length, m);
      if m.CountBits? {
        CountVisible(was, before, location, length, m.value);
      }
    }

    /** CFBitVectorSetBits. */
    method SetBits(location: nat, length: nat, value: bool)
      requires Valid() && location + length <= count
      modifies buckets
      ensures Valid() && forall i: nat :: i < count ==>
        Bits()[i] == if location <= i < location + length then value else old(Bits())[i]
    {
      if length == 0 {
        return;
      }
      var _ := MapRange(location, length, if value then OneBits else ZeroBits);
    }

    /** CFBitVectorFlipBits. */
    method FlipRange(location: nat, length: nat)
      requires Valid() && location + length <= count
      modifies buckets
      ensures Valid() && forall i: nat :: i < count ==>
        Bits()[i] == if location <= i < location + length then !old(Bits())[i] else old(Bits())[i]
    {
      if length == 0 {
        return;
      }
      var _ := MapRange(location, length, FlipBits);
    }

    /** CFBitVectorGetCountOfBit. */
    method GetCountOfBit(location: nat, length: nat, value: bool) returns (n: nat)
      requires Valid() && location + length <= count
      modifies buckets
      ensures Valid() && Bits() == old(Bits())
      ensures n == Occurrences(Bits()[location..location + length], value)
    {
      if length == 0 {
        return 0;
      }
      n := MapRange(location, length, CountBits(value));
      assert Bits() == old(Bits());
    }

    /** __CFBitVectorGrow: reallocation, to less room than there was if the vector had shrunk. */
    method Grow(numNewValues: nat)
      requires Valid()
      modifies this`capacity, this`buckets
      ensures Valid() && fresh(buckets) && capacity == RoundUpCapacity(count + numNewValues) && Bits() == old(Bits())
    {
      var newCapacity := RoundUpCapacity(count + numNewValues);
      var grown := new bv8[NumBuckets(newCapacity)];
      forall i | 0 <= i < grown.Length && i < buckets.Length {
        grown[i] := buckets[i];
      }
      assert forall i: nat :: i < count ==> grown[i / 8] == buckets[i / 8];
      capacity, buckets := newCapacity, grown;
    }

    /** CFBitVectorSetCount: bits that come into sight are zero, whatever an earlier shrink left there. */
    method SetCount(newCount: nat)
      requires Valid()
      modifies this, buckets
      ensures Valid() && count == newCount && (buckets == old(buckets) || fresh(buckets))
      ensures forall i: nat :: i < newCount ==> Bits()[i] == (i < old(count) && old(Bits())[i])
    {
      var cnt := count;
      if cnt < newCount {
        Grow(newCount - cnt);
        ghost var was := buckets[..];
        assert forall i: nat :: i < cnt ==> BitAt(was, i) == old(Bits())[i];
        var _ := InternalMap(buckets, cnt, newCount - cnt, ZeroBits);
        MappedBits(was, buckets[..], cnt, newCount, ZeroBits);
      }
      count := newCount;
    }

    /** CFBitVectorSetAllBits: the last bits one way, all whole buckets the other. */
    method SetAllBits(value: bool)
      requires Valid()
      modifies buckets
      ensures Valid() && forall i: nat :: i < count ==> Bits()[i] == value
    {
      var nBuckets := count / 8;
      var leftover := count - nBuckets * 8;
      if 0 < leftover {
        SetBits(nBuckets * 8, leftover, value);
      }
      ghost var was, before := buckets[..], Bits();
      assert forall i: nat :: i < count ==> before[i] == BitAt(was, i);
      var word: bv8 := if value then 0xFF else 0;
      forall i | 0 <= i < nBuckets {
        buckets[i] := word;
      }
      forall i: nat | i < count
        ensures BitAt(buckets[..], i) == value
      {
        if i / 8 < nBuckets {
          assert buckets[..][i / 8] == word;
          UniformBit(i % 8);
        } else {
          assert buckets[..][i / 8] == was[i / 8] && before[i] == value;
        }
      }
    }

    /** CFBitVectorGetBitAtIndex. */
    method GetBitAtIndex(idx: nat) returns (b: bool)
      requires Valid() && idx < count
      ensures b == Bits()[idx]
    {
      var bitOfBucket := idx % 8;
      ShiftedBit(buckets[idx / 8], bitOfBucket);
      b := (buckets[idx / 8] >> (8 - 1 - bitOfBucket)) & 0x1 == 1;
    }

    /** CFBitVectorSetBitAtIndex. */
    method SetBitAtIndex(idx: nat, value: bool)
      requires Valid() && idx < count
      modifies buckets
      ensures Valid() && Bits() == old(Bits())[idx := value]
    {
      hide Bit, WithBit;
      ghost var before, was := Bits(), buckets[..];
      var b, j := idx / 8, idx % 8;
      var word := WithBit(buckets[b], j, value);
      SetWord(was[b], j, value);
      buckets[b] := word;
      OtherBits(was, buckets[..], idx);
      BitsDiffer(was, buckets[..], before, Bits(), idx);
    }

    /** CFBitVectorFlipBitAtIndex. */
    method FlipBitAtIndex(idx: nat)
      requires Valid() && idx < count
      modifies buckets
      ensures Valid() && Bits() == old(Bits())[idx := !old(Bits())[idx]]
    {
      hide Bit, WithFlippedBit;
      ghost var before, was := Bits(), buckets[..];
      var b, j := idx / 8, idx % 8;
      var word := WithFlippedBit(buckets[b], j);
      FlipWord(was[b], j);
      buckets[b] := word;
      OtherBits(was, buckets[..], idx);
      BitsDiffer(was, buckets[..], before, Bits(), idx);
    }
  }

  function Occurrences(s: seq<bool>, value: bool): nat {
    if s == [] then 0 else Occurrences(s[..|s| - 1], value) + One(s[|s| - 1] == value)
  }

  lemma NoOccurrences(value: bool)
    ensures Occurrences([], value) == 0
  {
  }

  lemma OccurrencesNext(bits: seq<bool>, lo: nat, n: nat, value: bool)
    requires 0 < n && lo + n <= |bits|
    ensures Occurrences(bits[lo..lo + n], value)
         == Occurrences(bits[lo..lo + n - 1], value) + One(bits[lo + n - 1] == value)
  {
    assert bits[lo..lo + n][..n - 1] == bits[lo..lo + n - 1];
  }

  lemma {:induction false} CountVisible(s: seq<bv8>, bits: seq<bool>, lo: nat, n: nat, value: bool)
    requires lo + n <= |bits| && (n > 0 ==> (lo + n - 1) / 8 < |s|)
    requires forall i: nat :: lo <= i < lo + n ==> i / 8 < |s| && bits[i] == BitAt(s, i)
    ensures CountOf(s, lo, n, value) == Occurrences(bits[lo..lo + n], value)
  {
    hide BitAt, CountOf, Occurrences, One;
    if n > 0 {
      CountVisible(s, bits, lo, n - 1, value);
      CountNext(s, lo, n, lo + n - 1, value);
      assert bits[lo + n - 1] == BitAt(s, lo + n - 1);
      OccurrencesNext(bits, lo, n, value);
    } else {
      CountNone(s, lo, value);
      assert bits[lo..lo] == [];
      NoOccurrences(value);
    }
  }

  lemma MappedBits(was: seq<bv8>, now: seq<bv8>, lo: nat, hi: nat, m: Mapper)
    requires Mapped(was, now, lo, hi, m)
    ensures |now| == |was| && forall i: nat :: i / 8 < |was| ==>
      BitAt(now, i) == if lo <= i < hi then MapBit(m, BitAt(was, i)) else BitAt(was, i)
  {
  }

  lemma BitsDiffer(was: seq<bv8>, now: seq<bv8>, before: seq<bool>, after: seq<bool>, idx: nat)
    requires |was| == |now| && |before| == |after| && idx < |before| && (|before| - 1) / 8 < |was|
    requires forall i: nat :: i < |before| ==> before[i] == BitAt(was, i) && after[i] == BitAt(now, i)
    requires forall i: nat :: i / 8 < |was| && i != idx ==> BitAt(now, i) == BitAt(was, i)
    ensures after == before[idx := BitAt(now, idx)]
  {
    hide BitAt;
  }

  lemma ShiftedBit(b: bv8, j: nat)
    requires j < 8
    ensures (b >> (8 - 1 - j)) & 0x1 == 1 <==> Bit(b, j)
  {
  }

  lemma UniformBit(j: nat)
    requires j < 8
    ensures Bit(0xFF, j) && !Bit(0, j)
  {
  }

  lemma SetWord(b: bv8, j: nat, value: bool)
    requires j < 8
    ensures forall k: nat :: k < 8 ==> Bit(WithBit(b, j, value), k) == if k == j then value else Bit(b, k)
  {
    hide Bit, WithBit, WithFlippedBit;
    forall k: nat | k < 8
      ensures Bit(WithBit(b, j, value), k) == if k == j then value else Bit(b, k)
    {
      OneBitChanged(b, j, k);
    }
  }

  lemma FlipWord(b: bv8, j: nat)
    requires j < 8
    ensures forall k: nat :: k < 8 ==> Bit(WithFlippedBit(b, j), k) == if k == j then !Bit(b, k) else Bit(b, k)
  {
    hide Bit, WithBit, WithFlippedBit;
    forall k: nat | k < 8
      ensures Bit(WithFlippedBit(b, j), k) == if k == j then !Bit(b, k) else Bit(b, k)
    {
      OneBitChanged(b, j, k);
    }
  }

  /** The word that goes into a bucket of which bits `lo` to `hi` are mapped. */
  lemma PartWord(x: bv8, lo: nat, hi: nat, m: Mapper)
    requires lo <= hi < 8
    ensures forall j: nat :: j < 8 ==>
      Bit(Merged(x, MapBucket(m, x), BucketMask(lo, hi)), j) == if lo <= j <= hi then MapBit(m, Bit(x, j)) else Bit(x, j)
  {
    hide Bit, BucketMask, MapBit, MapBucket, Merged;
    forall j: nat | j < 8
      ensures Bit(Merged(x, MapBucket(m, x), BucketMask(lo, hi)), j)
           == if lo <= j <= hi then MapBit(m, Bit(x, j)) else Bit(x, j)
    {
      MergedBit(x, MapBucket(m, x), BucketMask(lo, hi), j);
      BucketMaskBit(lo, hi, j);
      MapBucketBit(m, x, j);
    }
  }

  /** A change to one bit of one bucket leaves the other bits alone. */
  lemma OtherBits(was: seq<bv8>, now: seq<bv8>, idx: nat)
    requires |now| == |was| && idx / 8 < |was| && now == was[idx / 8 := now[idx / 8]]
    requires forall k: nat :: k < 8 && k != idx % 8 ==> Bit(now[idx / 8], k) == Bit(was[idx / 8], k)
    ensures forall i: nat :: i / 8 < |was| && i != idx ==> BitAt(now, i) == BitAt(was, i)
  {
    hide Bit;
  }
}
