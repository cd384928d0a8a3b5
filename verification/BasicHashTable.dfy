/** Open addressing with tombstones, as CFBasicHash.c does it: slots, probe paths and what they keep. */
module BasicHashTable {
  import opened Bytes

  /** Keys that the equality callback takes for equal belong to one class; the hash depends on the class alone. */
  type Class = nat

  datatype Slot = Empty | Deleted | Full(key: u64, value: u64, count: nat)

  datatype Entry = Entry(key: u64, value: u64, count: nat)

  // --------------------------------------------------------- sizes and capacities

  /** Of the 64 entries of either table, those from 45 on are zero. */
  function TableSize(idx: nat): nat {
    match idx
    case 1 => 3
    case 2 => 7
    case 3 => 13
    case 4 => 23
    case 5 => 41
    case 6 => 71
    case 7 => 127
    case 8 => 191
    case 9 => 251
    case 10 => 383
    case 11 => 631
    case 12 => 1087
    case 13 => 1723
    case 14 => 2803
    case 15 => 4523
    case 16 => 7351
    case 17 => 11959
    case 18 => 19447
    case 19 => 31231
    case 20 => 50683
    case 21 => 81919
    case 22 => 132607
    case 23 => 214519
    case 24 => 346607
    case 25 => 561109
    case 26 => 907759
    case 27 => 1468927
    case 28 => 2376191
    case 29 => 3845119
    case 30 => 6221311
    case 31 => 10066421
    case 32 => 16287743
    case 33 => 26354171
    case 34 => 42641881
    case 35 => 68996069
    case 36 => 111638519
    case 37 => 180634607
    case 38 => 292272623
    case 39 => 472907251
    case 40 => 765180413
    case 41 => 1238087663
    case 42 => 2003267557
    case 43 => 3241355263
    case 44 => 5244622819
    case _ => 0
  }

  function TableCapacity(idx: nat): nat {
    match idx
    case 1 => 3
    case 2 => 6
    case 3 => 11
    case 4 => 19
    case 5 => 32
    case 6 => 52
    case 7 => 85
    case 8 => 118
    case 9 => 155
    case 10 => 237
    case 11 => 390
    case 12 => 672
    case 13 => 1065
    case 14 => 1732
    case 15 => 2795
    case 16 => 4543
    case 17 => 7391
    case 18 => 12019
    case 19 => 19302
    case 20 => 31324
    case 21 => 50629
    case 22 => 81956
    case 23 => 132580
    case 24 => 214215
    case 25 => 346784
    case 26 => 561026
    case 27 => 907847
    case 28 => 1468567
    case 29 => 2376414
    case 30 => 3844982
    case 31 => 6221390
    case 32 => 10066379
    case 33 => 16287773
    case 34 => 26354132
    case 35 => 42641916
    case 36 => 68996399
    case 37 => 111638327
    case 38 => 180634415
    case 39 => 292272755
    case 40 => 472907503
    case 41 => 765180257
    case 42 => 1238087439
    case 43 => 2003267722
    case 44 => 3241355160
    case _ => 0
  }

  const MAX_CAPACITY: nat := 3241355160

  lemma CapacityFits(idx: nat)
    ensures TableCapacity(idx) <= TableSize(idx) && TableCapacity(idx) <= MAX_CAPACITY
    ensures 0 < idx < 45 ==> TableSize(idx) > 0
    ensures idx + 1 < 45 ==> TableCapacity(idx) < TableCapacity(idx + 1)
  {
  }

  lemma SmallestTable()
    ensures TableSize(0) == 0 && TableCapacity(0) == 0
  {
  }

  /** The first bucket count whose capacity is enough; there is none for more than the last capacity. */
  function IndexForCapacity(capacity: nat, from: nat := 0): (idx: nat)
    requires from < 45 && capacity <= MAX_CAPACITY
    ensures from <= idx < 45 && capacity <= TableCapacity(idx)
    ensures forall i :: from <= i < idx ==> TableCapacity(i) < capacity
    decreases 45 - from
  {
    if capacity <= TableCapacity(from) then from else IndexForCapacity(capacity, from + 1)
  }

  /** Growing by one, aggressively or not, leads to a table that has room. */
  predicate CanGrow(fastGrow: bool, used: nat) {
    used + 1 <= if fastGrow then TableCapacity(43) else MAX_CAPACITY
  }

  /** Beyond that the code halts, or steps past the last entry of its tables to a size of zero. */
  lemma CanGrowExact(fastGrow: bool, used: nat)
    ensures CanGrow(fastGrow, used) <==>
      used + 1 <= MAX_CAPACITY && used + 1 <= TableCapacity(IndexForCapacity(used + 1) + if fastGrow then 1 else 0)
  {
    LastCapacities();
    hide TableCapacity;
    if used + 1 <= MAX_CAPACITY {
      var idx := IndexForCapacity(used + 1);
      if idx == 44 {
        assert TableCapacity(43) < used + 1;
      } else {
        CapacityUpTo(idx, idx + 1);
        CapacityUpTo(idx, 43);
      }
    }
  }

  /** The index of the new size after a rehash: the same, the least that is enough, or one more. */
  function RehashIndex(fastGrow: bool, used: nat, newItemCount: int, idx: nat): nat
    requires used <= MAX_CAPACITY && used + newItemCount <= MAX_CAPACITY
  {
    if newItemCount == 0 then idx
    else
      IndexForCapacity(used + if newItemCount < 0 then 0 else newItemCount)
      + if newItemCount == 1 && fastGrow then 1 else 0
  }

  lemma RehashIndexFits(fastGrow: bool, used: nat, newItemCount: int, idx: nat)
    requires idx < 45 && used <= TableCapacity(idx) && used <= MAX_CAPACITY && used + newItemCount <= MAX_CAPACITY
    requires newItemCount == 1 && fastGrow ==> CanGrow(true, used)
    ensures var newIdx := RehashIndex(fastGrow, used, newItemCount, idx);
      newIdx < 45 && TableCapacity(newIdx) >= used + if newItemCount > 0 then newItemCount else 0
  {
    hide TableCapacity, IndexForCapacity, CanGrow;
    CanGrowExact(fastGrow, used);
    LastCapacities();
  }

  /**
   * A rehash for more or fewer entries goes to the first size whose capacity is enough, or, to grow by one
   * aggressively, to the size after it: so a full table grows by one size, or by two.
   */
  lemma RehashIndexExact(fastGrow: bool, used: nat, newItemCount: int, idx: nat)
    requires used <= MAX_CAPACITY && used + newItemCount <= MAX_CAPACITY
    ensures var newIdx := RehashIndex(fastGrow, used, newItemCount, idx);
      if newItemCount == 0 then newIdx == idx
      else
        var need := if newItemCount < 0 then used else used + newItemCount;
        var first := if newItemCount == 1 && fastGrow then newIdx - 1 else newIdx;
        0 <= first < 45 && need <= TableCapacity(first) && forall i: nat :: i < first ==> TableCapacity(i) < need
    ensures newItemCount == 1 && idx < 44 && used == TableCapacity(idx) ==>
      RehashIndex(fastGrow, used, 1, idx) == if fastGrow then idx + 2 else idx + 1
  {
    hide TableCapacity;
    if newItemCount == 1 && idx < 44 && used == TableCapacity(idx) {
      CapacityFits(idx);
      var first := IndexForCapacity(used + 1);
      if first <= idx {
        CapacityUpTo(first, idx);
      }
    }
  }

  lemma LastCapacities()
    ensures TableCapacity(43) < TableCapacity(44) == MAX_CAPACITY && TableCapacity(45) == 0
  {
  }

  lemma {:induction false} CapacityUpTo(i: nat, j: nat)
    requires i <= j < 45
    ensures TableCapacity(i) <= TableCapacity(j)
  {
    hide TableCapacity;
    if i < j {
      CapacityUpTo(i, j - 1);
      CapacityFits(j - 1);
    }
  }

  /** No smaller table, two sizes down or five for aggressive growth, would do. */
  predicate NotTooEmpty(fastGrow: bool, idx: nat, used: nat) {
    var steps := if fastGrow then 5 else 2;
    steps < idx ==> TableCapacity(idx - steps) <= used
  }

  /** In all but the smallest tables fewer than a quarter of the buckets are tombstones. */
  predicate NotTooMarked(idx: nat, deleted: nat) {
    TableSize(idx) >= 20 ==> deleted < TableSize(idx) / 4
  }

  lemma ShrinksEnough(fastGrow: bool, used: nat)
    requires used <= MAX_CAPACITY
    ensures NotTooEmpty(fastGrow, IndexForCapacity(used), used)
  {
  }

  lemma FreshlyMarked(idx: nat)
    ensures NotTooMarked(idx, 0)
  {
  }

  // ------------------------------------------------------------------- raw words

  const ALL_ONES: u64 := 0xffff_ffff_ffff_ffff
  const SUB_ZERO: u64 := 0xa7baadb1
  const SUB_ONES: u64 := 0xa5baadb9

  /** 0 marks an empty bucket and ~0 a deleted one, so these two values are stored as stand-ins. */
  function Encode(v: u64): (raw: u64)
    ensures raw != 0 && raw != ALL_ONES
  {
    if v == 0 then SUB_ZERO else if v == ALL_ONES then SUB_ONES else v
  }

  function Decode(raw: u64): (v: u64)
    ensures Storable(v) || raw == 0 || raw == ALL_ONES
  {
    if raw == SUB_ZERO then 0 else if raw == SUB_ONES then ALL_ONES else raw
  }

  predicate Storable(v: u64) {
    v != SUB_ZERO && v != SUB_ONES
  }

  /** A value comes back from its bucket exactly if it is not itself one of the stand-ins. */
  lemma StorableExact(v: u64)
    ensures Decode(Encode(v)) == v <==> Storable(v)
    ensures Storable(v) <==> v != 0xa7baadb1 && v != 0xa5baadb9
    ensures Encode(v) == if v == 0 then 0xa7baadb1 else if v == 0xffff_ffff_ffff_ffff then 0xa5baadb9 else v
  {
  }

  // ---------------------------------------------------------------- probe paths

  ghost predicate Permutes(p: seq<nat>, n: nat) {
    |p| == n && (forall j: nat :: j < n ==> p[j] < n) && (forall i: nat :: i < n ==> i in p)
  }

  /** Nothing empty among the first `j` buckets of a path. */
  ghost predicate Busy(slots: seq<Slot>, p: seq<nat>, j: nat) {
    j <= |p| && forall k: nat :: k < j ==> p[k] < |slots| && !slots[p[k]].Empty?
  }

  ghost predicate ReachedAt(slots: seq<Slot>, p: seq<nat>, i: nat, j: nat) {
    j < |p| && p[j] == i && Busy(slots, p, j)
  }

  /** A search along `p` gets to bucket `i` before any empty one. */
  ghost predicate Reached(slots: seq<Slot>, p: seq<nat>, i: nat) {
    exists j: nat :: ReachedAt(slots, p, i, j)
  }

  /** A bucket a new key with this path may go to. */
  ghost predicate FreeOn(slots: seq<Slot>, p: seq<nat>, i: nat) {
    i < |slots| && !slots[i].Full? && Reached(slots, p, i)
  }

  lemma StillReached(slots: seq<Slot>, slots': seq<Slot>, p: seq<nat>, i: nat)
    requires Reached(slots, p, i) && |slots'| == |slots|
    requires forall k: nat :: k < |slots| && slots'[k].Empty? ==> slots[k].Empty?
    ensures Reached(slots', p, i)
  {
    var j: nat :| ReachedAt(slots, p, i, j);
    assert ReachedAt(slots', p, i, j);
  }

  // ------------------------------------------------------------------ the table

  type ProbeFn = (Class, nat) -> seq<nat>

  function EntryOf(s: Slot): Entry
    requires s.Full?
  {
    Entry(s.key, s.value, s.count)
  }

  /** `place` says where the entry of each class is, and nothing else is in the table. */
  ghost predicate Placed(slots: seq<Slot>, cls: u64 -> Class, contents: map<Class, Entry>, place: map<Class, nat>) {
    && contents.Keys == place.Keys
    && (forall c :: c in place ==> Holds(slots, cls, c, contents[c], place[c]))
    && (forall i: nat :: i < |slots| && slots[i].Full? ==> cls(slots[i].key) in place && place[cls(slots[i].key)] == i)
  }

  ghost predicate Holds(slots: seq<Slot>, cls: u64 -> Class, c: Class, e: Entry, i: nat) {
    i < |slots| && slots[i].Full? && cls(slots[i].key) == c && e == EntryOf(slots[i])
  }

  ghost predicate Reachable(slots: seq<Slot>, probe: ProbeFn, place: map<Class, nat>) {
    forall c :: c in place ==> Reached(slots, probe(c, |slots|), place[c])
  }

  ghost predicate Table(slots: seq<Slot>, cls: u64 -> Class, probe: ProbeFn, contents: map<Class, Entry>,
    place: map<Class, nat>)
  {
    Placed(slots, cls, contents, place) && Reachable(slots, probe, place)
  }

  /** An entry put into a free bucket on its path. */
  lemma Insert(slots: seq<Slot>, cls: u64 -> Class, probe: ProbeFn, contents: map<Class, Entry>, place: map<Class, nat>,
    i: nat, e: Entry)
    requires Table(slots, cls, probe, contents, place) && cls(e.key) !in contents
    requires FreeOn(slots, probe(cls(e.key), |slots|), i)
    ensures var c := cls(e.key);
      && Table(slots[i := Full(e.key, e.value, e.count)], cls, probe, contents[c := e], place[c := i])
      && |contents[c := e]| == |contents| + 1
  {
    hide Placed, Reachable;
    var c := cls(e.key);
    InsertPlaced(slots, cls, contents, place, i, e);
    InsertReachable(slots, probe, place, i, c, Full(e.key, e.value, e.count));
    assert contents[c := e].Keys == contents.Keys + {c};
  }

  lemma InsertReachable(slots: seq<Slot>, probe: ProbeFn, place: map<Class, nat>, i: nat, c: Class, s: Slot)
    requires Reachable(slots, probe, place) && FreeOn(slots, probe(c, |slots|), i) && s.Full?
    ensures Reachable(slots[i := s], probe, place[c := i])
  {
    var slots', place' := slots[i := s], place[c := i];
    forall d | d in place'
      ensures Reached(slots', probe(d, |slots|), place'[d])
    {
      assert d != c ==> Reached(slots, probe(d, |slots|), place[d]);
      StillReached(slots, slots', probe(d, |slots|), place'[d]);
    }
  }

  lemma InsertPlaced(slots: seq<Slot>, cls: u64 -> Class, contents: map<Class, Entry>, place: map<Class, nat>, i: nat, e: Entry)
    requires Placed(slots, cls, contents, place) && cls(e.key) !in contents && i < |slots| && !slots[i].Full?
    ensures Placed(slots[i := Full(e.key, e.value, e.count)], cls, contents[cls(e.key) := e], place[cls(e.key) := i])
  {
    var c, slots' := cls(e.key), slots[i := Full(e.key, e.value, e.count)];
    var place' := place[c := i];
    forall d | d in place'
      ensures Holds(slots', cls, d, contents[c := e][d], place'[d])
    {
      assert d != c ==> Holds(slots, cls, d, contents[d], place[d]);
    }
  }

  /** An entry taken out leaves a tombstone, so that searches go on past it. */
  lemma Remove(slots: seq<Slot>, cls: u64 -> Class, probe: ProbeFn, contents: map<Class, Entry>, place: map<Class, nat>, c: Class)
    requires Table(slots, cls, probe, contents, place) && c in contents
    ensures place[c] < |slots|
    ensures Table(slots[place[c] := Deleted], cls, probe, contents - {c}, place - {c}) && |contents - {c}| == |contents| - 1
  {
    assert Holds(slots, cls, c, contents[c], place[c]);
    var slots' := slots[place[c] := Deleted];
    forall d | d in place - {c}
      ensures Holds(slots', cls, d, contents[d], place[d]) && Reached(slots', probe(d, |slots|), place[d])
    {
      assert Holds(slots, cls, d, contents[d], place[d]);
      StillReached(slots, slots', probe(d, |slots|), place[d]);
    }
    assert (contents - {c}).Keys == contents.Keys - {c};
  }

  /** An entry replaced in its bucket by one of the same class. */
  lemma Replace(slots: seq<Slot>, cls: u64 -> Class, probe: ProbeFn, contents: map<Class, Entry>, place: map<Class, nat>,
    c: Class, e: Entry)
    requires Table(slots, cls, probe, contents, place) && c in contents && cls(e.key) == c
    ensures place[c] < |slots|
    ensures Table(slots[place[c] := Full(e.key, e.value, e.count)], cls, probe, contents[c := e], place)
    ensures |contents[c := e]| == |contents|
  {
    PlacedIn(slots, cls, contents, place, c);
    hide Placed, Reachable;
    ReplacePlaced(slots, cls, contents, place, c, e);
    StaysReachable(slots, probe, place, place[c], Full(e.key, e.value, e.count));
    assert contents[c := e].Keys == contents.Keys;
  }

  lemma PlacedIn(slots: seq<Slot>, cls: u64 -> Class, contents: map<Class, Entry>, place: map<Class, nat>, c: Class)
    requires Placed(slots, cls, contents, place) && c in contents
    ensures c in place && place[c] < |slots| && slots[place[c]].Full?
  {
    assert Holds(slots, cls, c, contents[c], place[c]);
  }

  lemma ReplacePlaced(slots: seq<Slot>, cls: u64 -> Class, contents: map<Class, Entry>, place: map<Class, nat>, c: Class, e: Entry)
    requires Placed(slots, cls, contents, place) && c in contents && c in place && place[c] < |slots| && cls(e.key) == c
    ensures Placed(slots[place[c] := Full(e.key, e.value, e.count)], cls, contents[c := e], place)
  {
    var slots' := slots[place[c] := Full(e.key, e.value, e.count)];
    forall d | d in place
      ensures Holds(slots', cls, d, contents[c := e][d], place[d])
    {
      assert Holds(slots, cls, d, contents[d], place[d]) && Holds(slots, cls, c, contents[c], place[c]);
    }
  }

  lemma StaysReachable(slots: seq<Slot>, probe: ProbeFn, place: map<Class, nat>, i: nat, s: Slot)
    requires Reachable(slots, probe, place) && i < |slots| && !s.Empty?
    ensures Reachable(slots[i := s], probe, place)
  {
    hide Reached;
    forall d | d in place
      ensures Reached(slots[i := s], probe(d, |slots|), place[d])
    {
      StillReached(slots, slots[i := s], probe(d, |slots|), place[d]);
    }
  }

  lemma EmptyTable(slots: seq<Slot>, cls: u64 -> Class, probe: ProbeFn)
    requires forall i: nat :: i < |slots| ==> slots[i].Empty?
    ensures Table(slots, cls, probe, map[], map[])
  {
  }

  /** What a search has learnt after `j` buckets without finding class `c`. */
  ghost predicate Missed(slots: seq<Slot>, cls: u64 -> Class, p: seq<nat>, c: Class, j: nat) {
    Busy(slots, p, j) && forall k: nat :: k < j && slots[p[k]].Full? ==> cls(slots[p[k]].key) != c
  }

  /** A search that meets an empty bucket, or has been everywhere, has found out that the class is not there. */
  lemma NotThere(slots: seq<Slot>, cls: u64 -> Class, probe: ProbeFn, contents: map<Class, Entry>, place: map<Class, nat>,
    c: Class, j: nat)
    requires Table(slots, cls, probe, contents, place)
    requires var p := probe(c, |slots|);
      Missed(slots, cls, p, c, j) && (j == |p| || (j < |p| && p[j] < |slots| && slots[p[j]].Empty?))
    ensures c !in contents
  {
    if c in contents {
      var p := probe(c, |slots|);
      assert Holds(slots, cls, c, contents[c], place[c]) && Reached(slots, p, place[c]);
      var k: nat :| ReachedAt(slots, p, place[c], k);
      if k < j {
      } else if k > j {
        assert false;
      }
    }
  }

  lemma MissedNext(slots: seq<Slot>, cls: u64 -> Class, p: seq<nat>, c: Class, j: nat)
    requires Missed(slots, cls, p, c, j) && j < |p| && p[j] < |slots| && !slots[p[j]].Empty?
    requires slots[p[j]].Full? ==> cls(slots[p[j]].key) != c
    ensures Missed(slots, cls, p, c, j + 1)
  {
  }

  lemma MissedBusy(slots: seq<Slot>, cls: u64 -> Class, p: seq<nat>, c: Class, j: nat)
    requires Missed(slots, cls, p, c, j)
    ensures Busy(slots, p, j)
  {
  }

  lemma FreeHere(slots: seq<Slot>, p: seq<nat>, j: nat)
    requires Busy(slots, p, j) && j < |p| && p[j] < |slots| && !slots[p[j]].Full?
    ensures FreeOn(slots, p, p[j])
  {
    assert ReachedAt(slots, p, p[j], j);
  }

  /** Only live buckets among the first `j` of a path. */
  ghost predicate Crowded(slots: seq<Slot>, p: seq<nat>, j: nat) {
    j <= |p| && forall k: nat :: k < j ==> p[k] < |slots| && slots[p[k]].Full?
  }

  /** Bucket `i` is the `j`-th on the path, holds no entry, and all before it do. */
  ghost predicate FirstFree(slots: seq<Slot>, p: seq<nat>, i: nat, j: nat) {
    j < |p| && p[j] == i && i < |slots| && !slots[i].Full? && Crowded(slots, p, j)
  }

  lemma CrowdedNext(slots: seq<Slot>, p: seq<nat>, j: nat)
    requires j < |p| && p[j] < |slots| && slots[p[j]].Full?
    ensures Crowded(slots, p, j) ==> Crowded(slots, p, j + 1)
  {
  }

  lemma CrowdedBusy(slots: seq<Slot>, p: seq<nat>, j: nat)
    requires Crowded(slots, p, j)
    ensures Busy(slots, p, j)
  {
  }

  lemma StartSearch(slots: seq<Slot>, cls: u64 -> Class, p: seq<nat>, c: Class)
    ensures Missed(slots, cls, p, c, 0) && Crowded(slots, p, 0)
  {
  }

  lemma NothingIn(slots: seq<Slot>, cls: u64 -> Class, probe: ProbeFn, contents: map<Class, Entry>, place: map<Class, nat>)
    requires Table(slots, cls, probe, contents, place)
    ensures slots == [] ==> contents == map[]
  {
  }

  lemma IsThere(slots: seq<Slot>, cls: u64 -> Class, probe: ProbeFn, contents: map<Class, Entry>, place: map<Class, nat>, i: nat)
    requires Table(slots, cls, probe, contents, place) && i < |slots| && slots[i].Full?
    ensures var c := cls(slots[i].key); c in contents && place[c] == i && contents[c] == EntryOf(slots[i])
  {
    assert Holds(slots, cls, cls(slots[i].key), contents[cls(slots[i].key)], i);
  }

  // --------------------------------------------------------------------- tallies

  /** The number of live buckets. */
  function Fulls(slots: seq<Slot>): (n: nat)
    ensures n <= |slots|
  {
    if slots == [] then 0 else Fulls(slots[..|slots| - 1]) + if slots[|slots| - 1].Full? then 1 else 0
  }

  /** The number of tombstones. */
  function Tombstones(slots: seq<Slot>): (n: nat)
    ensures n <= |slots|
  {
    if slots == [] then 0 else Tombstones(slots[..|slots| - 1]) + if slots[|slots| - 1].Deleted? then 1 else 0
  }

  lemma {:induction false} TallyUpdate(slots: seq<Slot>, i: nat, s: Slot)
    requires i < |slots|
    ensures Fulls(slots[i := s]) == Fulls(slots) + (if s.Full? then 1 else 0) - (if slots[i].Full? then 1 else 0)
    ensures Tombstones(slots[i := s])
         == Tombstones(slots) + (if s.Deleted? then 1 else 0) - (if slots[i].Deleted? then 1 else 0)
  {
    var n := |slots| - 1;
    if i < n {
      TallyUpdate(slots[..n], i, s);
      assert slots[i := s][..n] == slots[..n][i := s];
    } else {
      assert slots[i := s][..n] == slots[..n];
    }
  }

  lemma {:induction false} AllFull(slots: seq<Slot>)
    requires forall i: nat :: i < |slots| ==> slots[i].Full?
    ensures Fulls(slots) == |slots|
  {
    if slots != [] {
      AllFull(slots[..|slots| - 1]);
    }
  }

  lemma {:induction false} AllEmpty(slots: seq<Slot>)
    requires forall i: nat :: i < |slots| ==> slots[i].Empty?
    ensures Fulls(slots) == 0 && Tombstones(slots) == 0
  {
    if slots != [] {
      AllEmpty(slots[..|slots| - 1]);
    }
  }

  lemma FreeIsIn(slots: seq<Slot>, p: seq<nat>, i: nat)
    requires FreeOn(slots, p, i)
    ensures i < |slots| && !slots[i].Full?
  {
  }

  lemma TombstoneCounted(slots: seq<Slot>, i: nat)
    requires i < |slots|
    ensures slots[i].Deleted? ==> Tombstones(slots) > 0
  {
    TallyUpdate(slots, i, Empty);
  }

  lemma {:induction false} NoTombstones(slots: seq<Slot>)
    requires Tombstones(slots) == 0
    ensures forall i: nat :: i < |slots| ==> !slots[i].Deleted?
  {
    if slots != [] {
      NoTombstones(slots[..|slots| - 1]);
    }
  }

  lemma {:induction false} FullsPrefix(slots: seq<Slot>, i: nat)
    requires i < |slots|
    ensures Fulls(slots[..i + 1]) == Fulls(slots[..i]) + (if slots[i].Full? then 1 else 0)
    ensures Fulls(slots[..i + 1]) <= Fulls(slots)
    decreases |slots|
  {
    assert slots[..i + 1][..i] == slots[..i];
    var n := |slots| - 1;
    if i < n {
      FullsPrefix(slots[..n], i);
      assert slots[..n][..i + 1] == slots[..i + 1];
    } else {
      assert slots[..i + 1] == slots;
    }
  }

  // ------------------------------------------------------------- sets of buckets

  ghost function Below(n: nat): (r: set<nat>)
    ensures |r| == n && forall i: nat :: i in r <==> i < n
  {
    if n == 0 then {} else Below(n - 1) + {n - 1}
  }

  /** The buckets of a path. */
  ghost function Buckets(p: seq<nat>): (r: set<nat>)
    ensures forall b :: b in r <==> b in p
  {
    if p == [] then {} else Buckets(p[1..]) + {p[0]}
  }

  /** A path through a table meets enough different buckets to hold as many entries as the capacity allows. */
  ghost predicate Covers(p: seq<nat>, n: nat, capacity: nat) {
    |p| == n && (forall j: nat :: j < n ==> p[j] < n) && capacity <= |Buckets(p)|
  }

  /** If it goes everywhere, it does. */
  lemma PermutesCovers(p: seq<nat>, idx: nat)
    requires Permutes(p, TableSize(idx))
    ensures Covers(p, TableSize(idx), TableCapacity(idx))
  {
    CapacityFits(idx);
    SubsetSize(Below(TableSize(idx)), Buckets(p));
  }

  lemma SubsetSize(a: set<nat>, b: set<nat>)
    requires a <= b
    ensures |a| <= |b|
  {
    assert b == a + (b - a);
  }

  /** If a path meets only live buckets, there are as many of these as it visits. */
  lemma SomeFree(slots: seq<Slot>, p: seq<nat>)
    requires Crowded(slots, p, |p|)
    ensures |Buckets(p)| <= Fulls(slots)
  {
    forall b | b in p
      ensures b in FullOnes(slots)
    {
      var k: nat :| k < |p| && p[k] == b;
    }
    SubsetSize(Buckets(p), FullOnes(slots));
  }

  ghost function FullOnes(slots: seq<Slot>): (r: set<nat>)
    ensures |r| == Fulls(slots) && forall i: nat :: i in r <==> i < |slots| && slots[i].Full?
  {
    if slots == [] then {}
    else
      var n := |slots| - 1;
      if slots[n].Full? then FullOnes(slots[..n]) + {n} else FullOnes(slots[..n])
  }

  // -------------------------------------------------------------- linear probing

  /** The buckets the linear style visits, from the hash on. */
  function LinearProbe(hash: nat, n: nat): seq<nat>
    requires n > 0
  {
    seq(n, i requires 0 <= i < n => (hash + i) % n)
  }

  /** Its step is the code's step, and it goes everywhere. */
  lemma LinearVisitsAll(hash: nat, n: nat)
    requires n > 0
    ensures Permutes(LinearProbe(hash, n), n)
    ensures LinearProbe(hash, n)[0] == hash % n
    ensures forall j: nat :: j + 1 < n ==>
      LinearProbe(hash, n)[j + 1] == (var q := LinearProbe(hash, n)[j] + 1; if n <= q then q - n else q)
  {
    var p, h := LinearProbe(hash, n), hash % n;
    forall j: nat | j < n
      ensures p[j] == if h + j < n then h + j else h + j - n
    {
      WrapAround(hash, j, n);
    }
    forall i: nat | i < n
      ensures i in p
    {
      assert p[if h <= i then i - h else i + n - h] == i;
    }
  }

  lemma WrapAround(a: nat, j: nat, n: nat)
    requires j < n
    ensures (a + j) % n == if a % n + j < n then a % n + j else a % n + j - n
  {
    var q, r := a / n, a % n;
    assert a == q * n + r;
    if r + j < n {
      Remainder(a + j, n, q, r + j);
    } else {
      assert a + j == (q + 1) * n + (r + j - n);
      Remainder(a + j, n, q + 1, r + j - n);
    }
  }

  lemma Remainder(a: nat, n: nat, q: int, r: nat)
    requires a == q * n + r && r < n
    ensures a % n == r
  {
    var q', r' := a / n, a % n;
    DivMod(a, n);
    assert (q - q') * n == q * n - q' * n;
    Multiples(q - q', n);
  }

  lemma DivMod(a: nat, n: nat)
    requires n > 0
    ensures a == a / n * n + a % n && 0 <= a % n < n
  {
  }

  lemma Multiples(d: int, n: int)
    requires n >= 0
    ensures d > 0 ==> d * n >= n
    ensures d < 0 ==> d * n <= -n
  {
    if d > 0 {
      NextMultiple(d - 1, n);
    } else if d < 0 {
      NextMultiple(d, n);
    }
  }

  lemma NextMultiple(d: int, n: int)
    requires n >= 0
    ensures d >= 0 ==> (d + 1) * n >= n
    ensures d < 0 ==> d * n <= -n
  {
    if d >= 0 {
      Sign(d, n);
    } else {
      Sign(-d - 1, n);
      assert d * n == -((-d - 1) * n) - n;
    }
  }

  lemma Sign(a: nat, b: nat)
    ensures a * b >= 0
  {
  }
}
