/** The hash table behind dictionaries, sets and bags: CFBasicHash.c. */
module BasicHash {
  import opened Bytes
  import opened BasicHashTable
  import opened BasicHashStores
  import opened BasicHashCallbacks

  class HashTable {
    const cfg: Config
    var numBucketsIdx: nat
    var used: nat
    var deleted: u16
    var values: seq<u64>
    var keys: seq<u64>
    var counts: seq<nat>
    var countsWidth: nat
    var log: seq<Event>                    // the callbacks made so far
    ghost var contents: map<Class, Entry>
    ghost var place: map<Class, nat>

    ghost function Slots(): (s: seq<Slot>)
      requires RawOk(cfg, values, keys, counts, countsWidth)
      reads this`values, this`keys, this`counts, this`countsWidth
    {
      SlotsOf(cfg, values, keys, counts)
    }

    /** The stores are a table of `contents` with the sizes the fields say. */
    ghost predicate Shaped()
      reads this`values, this`keys, this`counts, this`countsWidth, this`numBucketsIdx, this`contents, this`place
    {
      && cfg.Ok() && numBucketsIdx < 45 && |values| == TableSize(numBucketsIdx)
      && RawOk(cfg, values, keys, counts, countsWidth)
      && Table(Slots(), cfg.cls, cfg.probe, contents, place)
    }

    /** `used` is the number of live buckets and of entries, and within the capacity. */
    ghost predicate Loaded()
      reads this`values, this`keys, this`counts, this`countsWidth, this`numBucketsIdx, this`contents, this`place, this`used
    {
      Shaped() && used == Fulls(Slots()) == |contents| && used <= TableCapacity(numBucketsIdx)
    }

    ghost predicate Valid()
      reads this`values, this`keys, this`counts, this`countsWidth, this`numBucketsIdx, this`contents, this`place, this`used,
        this`deleted
    {
      Loaded() && deleted == Tombstones(Slots())
    }

    constructor (cfg: Config)
      requires cfg.Ok()
      ensures Valid() && contents == map[] && this.cfg == cfg && log == [] && Balanced(cfg, log, contents)
    {
      this.cfg, numBucketsIdx, used, deleted := cfg, 0, 0, 0;
      values, keys, counts, countsWidth, log := [], [], [], 0, [];
      contents, place := map[], map[];
    }

    /** The stored word a search compares. */
    function SearchWord(i: nat): u64
      requires i < |values| && (cfg.hasKeys ==> |keys| == |values|)
      reads this
    {
      if cfg.hasKeys then keys[i] else values[i]
    }

    /**
     * The find contract: the bucket of an equal key, with its count; or no count, and the bucket a new
     * key should go to: the first tombstone on its path or else the empty bucket that ends it.
     */
    method FindBucket(key: u64) returns (idx: int, count: nat)
      requires Shaped()
      ensures cfg.cls(key) in contents ==> idx == place[cfg.cls(key)] && count == contents[cfg.cls(key)].count
      ensures cfg.cls(key) !in contents ==>
        count == 0 && (idx == -1 || (idx >= 0 && FreeOn(Slots(), cfg.probe(cfg.cls(key), |values|), idx)))
      ensures cfg.cls(key) !in contents && Fulls(Slots()) < |Buckets(cfg.probe(cfg.cls(key), |values|))| ==>
        numBucketsIdx == 0 || idx >= 0
      ensures cfg.cls(key) !in contents && Fulls(Slots()) < TableCapacity(numBucketsIdx) ==> idx >= 0
      ensures cfg.cls(key) in contents ==> idx >= 0
      ensures var p := cfg.probe(cfg.cls(key), |values|);
        cfg.cls(key) !in contents ==>
          if idx >= 0 then exists j: nat :: FirstFree(Slots(), p, idx, j)
          else numBucketsIdx == 0 || Crowded(Slots(), p, |p|)
    {
      SmallestTable();
      hide Table, TableSize, TableCapacity, RawOk, SlotsOf, Fulls, Missed, Busy, Crowded, FreeOn, Config.Ok, Buckets;
      ghost var slots := Slots();
      var n := TableSize(numBucketsIdx);
      if numBucketsIdx == 0 {
        NothingIn(slots, cfg.cls, cfg.probe, contents, place);
        return -1, 0;
      }
      var path := cfg.probe(cfg.cls(key), n);
      PathOk(cfg, cfg.cls(key), numBucketsIdx);
      ghost var c := cfg.cls(key);
      var deletedIdx: int := -1;
      StartSearch(slots, cfg.cls, path, c);
      for j := 0 to n
        invariant Missed(slots, cfg.cls, path, c, j)
        invariant if deletedIdx == -1 then Crowded(slots, path, j)
          else deletedIdx >= 0 && FreeOn(slots, path, deletedIdx) && exists i: nat :: FirstFree(slots, path, deletedIdx, i)
      {
        var probe := path[j];
        WordTells(cfg, values, keys, counts, countsWidth, probe);
        MissedBusy(slots, cfg.cls, path, c, j);
        var curr := SearchWord(probe);
        if curr == 0 {
          NotThere(slots, cfg.cls, cfg.probe, contents, place, c, j);
          FreeHere(slots, path, j);
          assert deletedIdx == -1 ==> FirstFree(slots, path, probe, j);
          return if deletedIdx == -1 then probe else deletedIdx, 0;
        } else if curr == ALL_ONES {
          if deletedIdx == -1 {
            FreeHere(slots, path, j);
            deletedIdx := probe;
            assert FirstFree(slots, path, deletedIdx, j);
          }
        } else {
          var currKey := Decode(curr);
          if currKey == key || cfg.cls(currKey) == cfg.cls(key) {
            IsThere(slots, cfg.cls, cfg.probe, contents, place, probe);
            return probe, if cfg.hasCounts then counts[probe] else 1;
          }
          CrowdedNext(slots, path, j);
        }
        MissedNext(slots, cfg.cls, path, c, j);
      }
      NotThere(slots, cfg.cls, cfg.probe, contents, place, c, n);
      if deletedIdx == -1 {
        SomeFree(slots, path);
      }
      return deletedIdx, 0;
    }

    /** The variant for tables without tombstones and keys that are not there: the empty bucket that ends the path. */
    method FindBucketNoCollision(key: u64) returns (idx: nat)
      requires Shaped() && cfg.cls(key) !in contents && Fulls(Slots()) < TableCapacity(numBucketsIdx) && Tombstones(Slots()) == 0
      ensures FreeOn(Slots(), cfg.probe(cfg.cls(key), |values|), idx) && idx < |values| && Slots()[idx].Empty?
    {
      SmallestTable();
      hide Table, TableSize, TableCapacity, RawOk, SlotsOf, Fulls, Tombstones, Missed, Busy, Crowded, FreeOn, Config.Ok, Buckets;
      ghost var slots := Slots();
      var n := TableSize(numBucketsIdx);
      var path := cfg.probe(cfg.cls(key), n);
      PathOk(cfg, cfg.cls(key), numBucketsIdx);
      NoTombstones(slots);
      StartSearch(slots, cfg.cls, path, cfg.cls(key));
      for j := 0 to n
        invariant Crowded(slots, path, j)
      {
        var probe := path[j];
        WordTells(cfg, values, keys, counts, countsWidth, probe);
        CrowdedBusy(slots, path, j);
        if SearchWord(probe) == 0 {
          FreeHere(slots, path, j);
          return probe;
        }
        CrowdedNext(slots, path, j);
      }
      SomeFree(slots, path);
      assert false;
    }

    /** One entry of the old stores put into the new ones: no callback is made. */
    method Reinsert(key: u64, value: u64, count: nat)
      requires Shaped() && cfg.cls(key) !in contents && Fulls(Slots()) < TableCapacity(numBucketsIdx) && Tombstones(Slots()) == 0
      requires Storable(key) && Storable(value) && (!cfg.hasKeys ==> key == value)
      requires if cfg.hasCounts then 0 < count <= CountLimit(countsWidth) else count == 1
      modifies this`values, this`keys, this`counts, this`contents, this`place
      ensures Shaped() && |values| == |old(values)|
      ensures contents == old(contents)[cfg.cls(key) := Entry(key, value, count)] && |contents| == |old(contents)| + 1
      ensures Fulls(Slots()) == old(Fulls(Slots())) + 1 && Tombstones(Slots()) == 0
    {
      hide Table, RawOk, SlotsOf, Fulls, Tombstones, Encode, TableSize, FreeOn, Config.Ok;
      var bktIdx := FindBucketNoCollision(key);
      ghost var slots := Slots();
      WordTells(cfg, values, keys, counts, countsWidth, bktIdx);
      WriteSlot(cfg, values, keys, counts, countsWidth, countsWidth, bktIdx, Full(key, value, count));
      Insert(slots, cfg.cls, cfg.probe, contents, place, bktIdx, Entry(key, value, count));
      TallyUpdate(slots, bktIdx, Full(key, value, count));
      values := values[bktIdx := Encode(value)];
      if cfg.hasKeys {
        keys := keys[bktIdx := Encode(key)];
      }
      if cfg.hasCounts {
        counts := counts[bktIdx := count];
      }
      contents := contents[cfg.cls(key) := Entry(key, value, count)];
      place := place[cfg.cls(key) := bktIdx];
    }

    /** What a rehash may be asked for: room for a number of entries that the size tables provide. */
    predicate CanRehash(newItemCount: int)
      reads this
    {
      && used <= MAX_CAPACITY
      && (newItemCount <= 0
          || (used + newItemCount <= MAX_CAPACITY && (newItemCount == 1 && cfg.fastGrow ==> CanGrow(true, used))))
    }

    /** The index of the new size. */
    function NewIndex(newItemCount: int): nat
      requires CanRehash(newItemCount)
      reads this
    {
      RehashIndex(cfg.fastGrow, used, newItemCount, numBucketsIdx)
    }

    /**
     * __CFBasicHashRehash: new stores of the new size, every live bucket carried over, no tombstones left,
     * the same contents, and no callback made.
     */
    method Rehash(newItemCount: int)
      requires Loaded() && CanRehash(newItemCount)
      modifies this`numBucketsIdx, this`deleted, this`values, this`keys, this`counts, this`contents, this`place
      ensures Valid() && contents == old(contents) && deleted == 0
      ensures numBucketsIdx == old(NewIndex(newItemCount))
      ensures TableCapacity(numBucketsIdx) >= used + if newItemCount > 0 then newItemCount else 0
    {
      hide Table, RawOk, SlotsOf, Fulls, Tombstones, TableSize, TableCapacity, Carried, Config.Ok, RehashIndex, CanGrow, EntryOf;
      RehashIndexFits(cfg.fastGrow, used, newItemCount, numBucketsIdx);
      var newIdx := NewIndex(newItemCount);
      var n, oldN := TableSize(newIdx), TableSize(numBucketsIdx);
      CapacityFits(newIdx);
      var oldValues, oldKeys, oldCounts := values, keys, counts;
      ghost var oldSlots, oldPlace := Slots(), place;
      StartCarrying(oldSlots, cfg.cls, place, contents);
      NewStores(newIdx);
      for idx := 0 to oldN
        invariant Shaped() && numBucketsIdx == newIdx && deleted == 0
        invariant Fulls(Slots()) == Fulls(oldSlots[..idx]) == |contents| && Tombstones(Slots()) == 0
        invariant Carried(oldSlots, cfg.cls, oldPlace, old(contents), contents, idx)
      {
        CarryBucket(oldValues, oldKeys, oldCounts, idx, old(contents), oldPlace);
      }
      assert oldSlots[..oldN] == oldSlots;
      CarriedAll(oldSlots, cfg.cls, cfg.probe, oldPlace, old(contents), contents);
    }

    /** One old bucket: its entry, if it has one, goes into the new stores. */
    method CarryBucket(oldValues: seq<u64>, oldKeys: seq<u64>, oldCounts: seq<nat>, idx: nat, ghost was: map<Class, Entry>,
                       ghost oldPlace: map<Class, nat>)
      requires Shaped() && Tombstones(Slots()) == 0
      requires RawOk(cfg, oldValues, oldKeys, oldCounts, countsWidth) && idx < |oldValues|
      requires var old' := SlotsOf(cfg, oldValues, oldKeys, oldCounts);
        && Table(old', cfg.cls, cfg.probe, was, oldPlace) && Carried(old', cfg.cls, oldPlace, was, contents, idx)
        && Fulls(Slots()) == Fulls(old'[..idx]) == |contents| && Fulls(old') <= TableCapacity(numBucketsIdx)
      modifies this`values, this`keys, this`counts, this`contents, this`place
      ensures Shaped() && Tombstones(Slots()) == 0
      ensures var old' := SlotsOf(cfg, oldValues, oldKeys, oldCounts);
        Carried(old', cfg.cls, oldPlace, was, contents, idx + 1) && Fulls(Slots()) == Fulls(old'[..idx + 1]) == |contents|
    {
      hide Table, RawOk, SlotsOf, Fulls, Tombstones, TableSize, TableCapacity, Carried, Config.Ok, Decode, CountLimit;
      RawShape(cfg, oldValues, oldKeys, oldCounts, countsWidth);
      ghost var oldSlots := SlotsOf(cfg, oldValues, oldKeys, oldCounts);
      FullsPrefix(oldSlots, idx);
      CarriedNext(oldSlots, cfg.cls, cfg.probe, oldPlace, was, contents, idx);
      SlotTells(cfg, oldValues, oldKeys, oldCounts, countsWidth, idx);
      var stackValue := oldValues[idx];
      if stackValue != 0 && stackValue != ALL_ONES {
        stackValue := Decode(stackValue);
        var stackKey := if cfg.hasKeys then Decode(oldKeys[idx]) else stackValue;
        Reinsert(stackKey, stackValue, if cfg.hasCounts then oldCounts[idx] else 1);
      }
    }

    method NewStores(idx: nat)
      requires Loaded() && idx < 45
      modifies this`numBucketsIdx, this`deleted, this`values, this`keys, this`counts, this`contents, this`place
      ensures Shaped() && numBucketsIdx == idx && deleted == 0 && contents == map[]
      ensures Fulls(Slots()) == 0 && Tombstones(Slots()) == 0
    {
      hide Table, SlotsOf, Fulls, Tombstones, TableSize, TableCapacity, Config.Ok;
      var n := TableSize(idx);
      BlankStores(cfg, n, countsWidth);
      values := Zeros(n);
      keys := if cfg.hasKeys then Zeros(n) else [];
      counts := if cfg.hasCounts then NoCounts(n) else [];
      numBucketsIdx, deleted := idx, 0;
      contents, place := map[], map[];
    }

    // -------------------------------------------------------------------- counts

    /** Widening the counts moves each to a wider store. */
    method BumpCounts()
      requires cfg.hasCounts && countsWidth < 3
      modifies this`counts, this`countsWidth
      ensures counts == old(counts) && countsWidth == old(countsWidth) + 1
    {
      var wider: seq<nat> := [];
      for idx := 0 to |counts|
        invariant wider == counts[..idx]
      {
        wider := wider + [counts[idx]];
      }
      counts, countsWidth := wider, countsWidth + 1;
    }

    /** One more, in a store wide enough to hold it. */
    method IncSlotCount(idx: nat)
      requires cfg.hasCounts && idx < |counts| && countsWidth < 4 && counts[idx] < LONG_MAX
      requires counts[idx] <= CountLimit(countsWidth)
      modifies this`counts, this`countsWidth
      ensures counts == old(counts)[idx := old(counts)[idx] + 1]
      ensures old(countsWidth) <= countsWidth < 4 && counts[idx] <= CountLimit(countsWidth)
      ensures old(counts)[idx] < CountLimit(old(countsWidth)) ==> countsWidth == old(countsWidth)
      decreases 4 - countsWidth
    {
      if counts[idx] < CountLimit(countsWidth) {
        counts := counts[idx := counts[idx] + 1];
      } else {
        BumpCounts();
        IncSlotCount(idx);
      }
    }

    // ------------------------------------------------- changes to a bucket found

    /** Whether one more entry can be added: always, but for the end of the size tables. */
    predicate CanAdd()
      reads this
    {
      TableCapacity(numBucketsIdx) < used + 1 ==> CanRehash(1)
    }

    /** __CFBasicHashAddValue, at the bucket a search for the key has pointed to. */
    method AddValueAt(bktIdx: int, key: u64, value: u64)
      requires Valid() && CanAdd()
      requires cfg.cls(key) !in contents && Storable(key) && Storable(value) && (!cfg.hasKeys ==> key == value)
      requires used < TableCapacity(numBucketsIdx) ==> bktIdx >= 0 && FreeOn(Slots(), cfg.probe(cfg.cls(key), |values|), bktIdx)
      modifies this
      ensures Valid() && contents == old(contents)[cfg.cls(key) := cfg.Imported(key, value, 1)]
      ensures log == old(log) + cfg.ImportEvents(key, value)
      ensures numBucketsIdx ==
        old(if TableCapacity(numBucketsIdx) < used + 1 then NewIndex(1) else numBucketsIdx)
      ensures old(used < TableCapacity(numBucketsIdx)) ==> place == old(place)[cfg.cls(key) := bktIdx]
      ensures old(Balanced(cfg, log, contents)) ==> Balanced(cfg, log, contents)
    {
      hide Table, RawOk, SlotsOf, Fulls, Tombstones, TableSize, TableCapacity, Config.Ok, FreeOn, Config.ImportEvents;
      hide Balanced;
      if Balanced(cfg, log, contents) {
        BalancedAdd(cfg, log, contents, key, value);
      }
      var bkt := bktIdx;
      CapacityFits(numBucketsIdx);
      if TableCapacity(numBucketsIdx) < used + 1 {
        Rehash(1);
        CapacityFits(numBucketsIdx);
        bkt := FindBucketNoCollision(key);
      } else {
        FreeIsIn(Slots(), cfg.probe(cfg.cls(key), |values|), bkt);
        TombstoneCounted(Slots(), bkt);
        SlotTells(cfg, values, keys, counts, countsWidth, bkt);
        if values[bkt] == ALL_ONES {
          deleted := deleted - 1;
        }
      }
      FillBucket(bkt, key, value);
    }

    /** The rest of it: the entry is imported and written into a free bucket. */
    method FillBucket(bkt: nat, key: u64, value: u64)
      requires Loaded() && used < TableCapacity(numBucketsIdx) && FreeOn(Slots(), cfg.probe(cfg.cls(key), |values|), bkt)
      requires bkt < |values| && deleted == Tombstones(Slots()) - if Slots()[bkt].Deleted? then 1 else 0
      requires cfg.cls(key) !in contents && Storable(key) && Storable(value) && (!cfg.hasKeys ==> key == value)
      modifies this`values, this`keys, this`counts, this`countsWidth, this`used, this`log, this`contents, this`place
      ensures Valid() && contents == old(contents)[cfg.cls(key) := cfg.Imported(key, value, 1)]
      ensures log == old(log) + cfg.ImportEvents(key, value) && place == old(place)[cfg.cls(key) := bkt]
    {
      hide Table, RawOk, SlotsOf, Fulls, Tombstones, TableSize, TableCapacity, FreeOn, Encode, Config.Ok;
      hide Config.ImportEvents, Config.Imported;
      ghost var e, c := cfg.Imported(key, value, 1), cfg.cls(key);
      ImportStorable(cfg, key, value);
      Filled(cfg, values, keys, counts, countsWidth, contents, place, bkt, e);
      FillWords(bkt, key, value);
      used, contents, place := used + 1, contents[c := e], place[c := bkt];
    }

    method FillWords(bkt: nat, key: u64, value: u64)
      requires cfg.Ok() && (!cfg.hasKeys ==> key == value) && bkt < |values| && (cfg.hasKeys ==> |keys| == |values|)
      requires cfg.hasCounts ==> |counts| == |values| && counts[bkt] == 0 && countsWidth < 4
      modifies this`values, this`keys, this`counts, this`countsWidth, this`log
      ensures var e := cfg.Imported(key, value, 1);
        && values == old(values)[bkt := Encode(e.value)]
        && keys == (if cfg.hasKeys then old(keys)[bkt := Encode(e.key)] else old(keys))
      ensures counts == if cfg.hasCounts then old(counts)[bkt := 1] else old(counts)
      ensures countsWidth == old(countsWidth) && log == old(log) + cfg.ImportEvents(key, value)
    {
      hide Encode, Config.Ok, Config.ImportEvents, Config.Imported;
      var stackKey, stackValue := Import(key, value);
      values := values[bkt := Encode(stackValue)];
      if cfg.hasKeys {
        keys := keys[bkt := Encode(stackKey)];
      }
      if cfg.hasCounts {
        IncSlotCount(bkt);
      }
    }

    /** The retain callbacks, value first. */
    method Import(key: u64, value: u64) returns (k: u64, v: u64)
      requires cfg.Ok() && (!cfg.hasKeys ==> key == value)
      modifies this`log
      ensures var e := cfg.Imported(key, value, 1); v == e.value && (cfg.hasKeys ==> k == e.key)
      ensures log == old(log) + cfg.ImportEvents(key, value)
    {
      hide Config.Ok;
      if cfg.retainValue.Some? {
        log := log + [RetainedValue(value)];
      }
      k, v := key, cfg.ImportValue(value);
      if cfg.hasKeys {
        if cfg.retainKey.Some? {
          log := log + [RetainedKey(key)];
        }
        k := cfg.ImportKey(key);
      }
    }

    /** __CFBasicHashReplaceValue: the new pair is imported before the old one is ejected. */
    method ReplaceValueAt(bkt: nat, key: u64, value: u64)
      requires Valid() && cfg.cls(key) in contents && bkt == place[cfg.cls(key)]
      requires Storable(key) && Storable(value) && (!cfg.hasKeys ==> key == value)
      modifies this`values, this`keys, this`log, this`contents
      ensures Valid()
      ensures var c := cfg.cls(key);
        && contents == old(contents)[c := cfg.Imported(key, value, old(contents)[c].count)]
        && log == old(log) + cfg.ImportEvents(key, value) + cfg.EjectEvents(old(contents)[c])
      ensures old(Balanced(cfg, log, contents)) ==> Balanced(cfg, log, contents)
    {
      hide Table, RawOk, SlotsOf, Fulls, Tombstones, TableSize, TableCapacity, Encode, Decode, Config.Ok;
      hide Config.ImportEvents, Balanced;
      if Balanced(cfg, log, contents) {
        BalancedReplace(cfg, log, contents, key, value);
      }
      ghost var c := cfg.cls(key);
      ghost var e := cfg.Imported(key, value, contents[c].count);
      EntryTells(cfg, values, keys, counts, countsWidth, contents, place, c);
      ImportStorable(cfg, key, value);
      Overwritten(cfg, values, keys, counts, countsWidth, countsWidth, contents, place, c, e);
      assert cfg.hasCounts ==> counts[bkt := counts[bkt]] == counts;
      hide Config.EjectEvents;
      ReplaceWords(bkt, key, value, contents[c]);
      contents := contents[c := e];
    }

    method ReplaceWords(bkt: nat, key: u64, value: u64, ghost e: Entry)
      requires cfg.Ok() && (!cfg.hasKeys ==> key == value) && bkt < |values|
      requires values[bkt] != 0 && values[bkt] != ALL_ONES && e.value == Decode(values[bkt])
      requires cfg.hasKeys ==> |keys| == |values| && keys[bkt] != 0 && keys[bkt] != ALL_ONES && e.key == Decode(keys[bkt])
      modifies this`values, this`keys, this`log
      ensures var new' := cfg.Imported(key, value, e.count);
        && values == old(values)[bkt := Encode(new'.value)]
        && keys == (if cfg.hasKeys then old(keys)[bkt := Encode(new'.key)] else old(keys))
      ensures log == old(log) + cfg.ImportEvents(key, value) + cfg.EjectEvents(e)
    {
      hide Encode, Decode, Config.Ok, Config.ImportEvents;
      var stackKey, stackValue := Import(key, value);
      SetValue(bkt, Encode(stackValue));
      if cfg.hasKeys {
        SetKey(bkt, Encode(stackKey));
      }
    }

    /** __CFBasicHashSetValue of a word, ejecting what was there. */
    method SetValue(idx: nat, raw: u64)
      requires idx < |values|
      modifies this`values, this`log
      ensures values == old(values)[idx := raw]
      ensures var was := old(values)[idx];
        log == old(log) + if cfg.releaseValue && was != 0 && was != ALL_ONES then [ReleasedValue(Decode(was))] else []
    {
      var oldValue := values[idx];
      values := values[idx := raw];
      if !(oldValue == 0 || oldValue == ALL_ONES) {
        if cfg.releaseValue {
          log := log + [ReleasedValue(Decode(oldValue))];
        }
      }
    }

    method SetKey(idx: nat, raw: u64)
      requires idx < |keys|
      modifies this`keys, this`log
      ensures keys == old(keys)[idx := raw]
      ensures var was := old(keys)[idx];
        log == old(log) + if cfg.releaseKey && was != 0 && was != ALL_ONES then [ReleasedKey(Decode(was))] else []
    {
      var oldKey := keys[idx];
      keys := keys[idx := raw];
      if !(oldKey == 0 || oldKey == ALL_ONES) {
        if cfg.releaseKey {
          log := log + [ReleasedKey(Decode(oldKey))];
        }
      }
    }

    /**
     * __CFBasicHashRemoveValue: a tombstone, and a rehash if the table has become too empty or too full of them, so
     * that afterwards it is neither.
     */
    method RemoveValueAt(bkt: nat, ghost c: Class)
      requires Valid() && c in contents && bkt == place[c] && contents[c].count == 1
      modifies this
      ensures Valid() && contents == old(contents) - {c} && log == old(log) + cfg.EjectEvents(old(contents)[c])
      ensures NotTooEmpty(cfg.fastGrow, numBucketsIdx, used) && NotTooMarked(numBucketsIdx, deleted)
      ensures used == old(used) - 1
      ensures var was, steps := old(numBucketsIdx), if cfg.fastGrow then 5 else 2;
        if steps < was && used < TableCapacity(was - steps) then
          && deleted == 0 && used <= TableCapacity(numBucketsIdx)
          && forall i: nat :: i < numBucketsIdx ==> TableCapacity(i) < used
        else
          && numBucketsIdx == was
          && deleted == if old(deleted) == 0xffff || (20 <= TableSize(was) && TableSize(was) / 4 <= old(deleted) + 1) then 0
                        else old(deleted) + 1
      ensures old(Balanced(cfg, log, contents)) ==> Balanced(cfg, log, contents)
    {
      hide Table, RawOk, SlotsOf, Fulls, Tombstones, TableSize, TableCapacity, Decode, Config.Ok, IndexForCapacity;
      hide Balanced;
      if Balanced(cfg, log, contents) {
        BalancedRemove(cfg, log, contents, c);
      }
      MarkBucket(bkt, c);
      var doShrink := false;
      if cfg.fastGrow {
        doShrink := 5 < numBucketsIdx && used < TableCapacity(numBucketsIdx - 5);
      } else {
        doShrink := 2 < numBucketsIdx && used < TableCapacity(numBucketsIdx - 2);
      }
      if doShrink {
        CapacityFits(numBucketsIdx);
        ShrinksEnough(cfg.fastGrow, used);
        Rehash(-1);
        FreshlyMarked(numBucketsIdx);
        return;
      }
      doShrink := deleted == 0;
      var numBuckets := TableSize(numBucketsIdx);
      doShrink := doShrink || (20 <= numBuckets && numBuckets / 4 <= deleted);
      if doShrink {
        CapacityFits(numBucketsIdx);
        Rehash(0);
        FreshlyMarked(numBucketsIdx);
      }
    }

    method EjectBucket(bkt: nat, ghost e: Entry)
      requires RawOk(cfg, values, keys, counts, countsWidth) && bkt < |values| && (cfg.hasKeys ==> |keys| == |values|)
      requires values[bkt] != 0 && values[bkt] != ALL_ONES && e.value == Decode(values[bkt])
      requires cfg.hasKeys ==> e.key == Decode(keys[bkt])
      modifies this`values, this`keys, this`log
      ensures values == old(values)[bkt := ALL_ONES]
      ensures keys == if cfg.hasKeys then old(keys)[bkt := ALL_ONES] else old(keys)
      ensures log == old(log) + cfg.EjectEvents(e)
    {
      hide RawOk, Decode;
      if cfg.hasKeys {
        KeyMarkedToo(cfg, values, keys, counts, countsWidth, bkt);
      }
      SetValue(bkt, ALL_ONES);
      if cfg.hasKeys {
        SetKey(bkt, ALL_ONES);
      }
    }

    /** Its first part. The 16-bit number of tombstones may roll over to zero here, and only here. */
    method MarkBucket(bkt: nat, ghost c: Class)
      requires Valid() && c in contents && bkt == place[c] && contents[c].count == 1
      modifies this`values, this`keys, this`counts, this`used, this`deleted, this`log, this`contents, this`place
      ensures Loaded() && contents == old(contents) - {c} && log == old(log) + cfg.EjectEvents(old(contents)[c])
      ensures deleted == (old(deleted) + 1) % 0x1_0000 && Tombstones(Slots()) == old(deleted) + 1
    {
      hide Table, RawOk, SlotsOf, Fulls, Tombstones, TableSize, TableCapacity, Decode, Config.Ok, Config.EjectEvents;
      MarkReady(cfg, values, keys, counts, countsWidth, contents, place, c);
      Marked(cfg, values, keys, counts, countsWidth, contents, place, c);
      MarkWords(bkt, contents[c]);
      used, deleted, contents, place := used - 1, (deleted + 1) % 0x1_0000, contents - {c}, place - {c};
    }

    method MarkWords(bkt: nat, ghost e: Entry)
      requires RawOk(cfg, values, keys, counts, countsWidth) && bkt < |values| && (cfg.hasKeys ==> |keys| == |values|)
      requires values[bkt] != 0 && values[bkt] != ALL_ONES && e.value == Decode(values[bkt])
      requires cfg.hasKeys ==> e.key == Decode(keys[bkt])
      requires cfg.hasCounts ==> |counts| == |values| && counts[bkt] == 1
      modifies this`values, this`keys, this`counts, this`log
      ensures values == old(values)[bkt := ALL_ONES]
      ensures keys == if cfg.hasKeys then old(keys)[bkt := ALL_ONES] else old(keys)
      ensures counts == if cfg.hasCounts then old(counts)[bkt := 0] else old(counts)
      ensures log == old(log) + cfg.EjectEvents(e)
    {
      hide RawOk, Decode, Config.EjectEvents;
      EjectBucket(bkt, e);
      if cfg.hasCounts {
        counts := counts[bkt := counts[bkt] - 1];
      }
    }

    // ----------------------------------------------------------- public operations

    /** CFBasicHashAddValue: a key that is there keeps its value, and in a bag is counted once more. */
    method Add(key: u64, value: u64) returns (r: bool)
      requires Valid() && CanAdd() && Storable(key) && Storable(value) && (!cfg.hasKeys ==> key == value)
      modifies this
      ensures Valid()
      ensures var c := cfg.cls(key);
        if c !in old(contents) then
          && r && contents == old(contents)[c := cfg.Imported(key, value, 1)]
          && log == old(log) + cfg.ImportEvents(key, value)
        else if cfg.hasCounts && old(contents)[c].count < LONG_MAX then
          && r && contents == old(contents)[c := old(contents)[c].(count := old(contents)[c].count + 1)]
          && log == old(log)
        else
          !r && contents == old(contents) && log == old(log)
      ensures old(Balanced(cfg, log, contents)) ==> Balanced(cfg, log, contents)
    {
      hide Table, RawOk, SlotsOf, Fulls, Tombstones, TableSize, TableCapacity, Config.Ok, FreeOn, Balanced;
      var idx, count := FindBucket(key);
      ghost var c := cfg.cls(key);
      if c in contents {
        EntryTells(cfg, values, keys, counts, countsWidth, contents, place, c);
      }
      if 0 < count {
        if cfg.hasCounts && count < LONG_MAX {
          CountUp(idx, c);
          return true;
        }
      } else {
        AddValueAt(idx, key, value);
        return true;
      }
      return false;
    }

    method CountUp(idx: nat, ghost c: Class)
      requires Valid() && cfg.hasCounts && c in contents && idx == place[c] && contents[c].count < LONG_MAX
      modifies this`counts, this`countsWidth, this`contents
      ensures Valid() && contents == old(contents)[c := old(contents)[c].(count := old(contents)[c].count + 1)]
      ensures old(Balanced(cfg, log, contents)) ==> Balanced(cfg, log, contents)
    {
      hide Table, RawOk, SlotsOf, Fulls, Tombstones, TableSize, TableCapacity, Config.Ok, Balanced;
      ghost var e := contents[c].(count := contents[c].count + 1);
      if Balanced(cfg, log, contents) {
        BalancedSame(cfg, log, contents, contents[c := e]);
      }
      EntryTells(cfg, values, keys, counts, countsWidth, contents, place, c);
      ghost var width, was := countsWidth, counts;
      IncSlotCount(idx);
      Overwritten(cfg, values, keys, was, width, countsWidth, contents, place, c, e);
      SameWords(cfg, values, keys, idx, e);
      contents := contents[c := e];
    }

    method CountDown(idx: nat, ghost c: Class)
      requires Valid() && cfg.hasCounts && c in contents && idx == place[c] && contents[c].count > 1
      modifies this`counts, this`contents
      ensures Valid() && contents == old(contents)[c := old(contents)[c].(count := old(contents)[c].count - 1)]
      ensures old(Balanced(cfg, log, contents)) ==> Balanced(cfg, log, contents)
    {
      hide Table, RawOk, SlotsOf, Fulls, Tombstones, TableSize, TableCapacity, Config.Ok, Balanced;
      ghost var e := contents[c].(count := contents[c].count - 1);
      if Balanced(cfg, log, contents) {
        BalancedSame(cfg, log, contents, contents[c := e]);
      }
      EntryTells(cfg, values, keys, counts, countsWidth, contents, place, c);
      Overwritten(cfg, values, keys, counts, countsWidth, countsWidth, contents, place, c, e);
      SameWords(cfg, values, keys, idx, e);
      counts := counts[idx := counts[idx] - 1];
      contents := contents[c := e];
    }

    /** CFBasicHashReplaceValue: only a key that is there. */
    method ReplaceValue(key: u64, value: u64)
      requires Valid() && Storable(key) && Storable(value) && (!cfg.hasKeys ==> key == value)
      modifies this
      ensures Valid()
      ensures var c := cfg.cls(key);
        if c in old(contents) then
          && contents == old(contents)[c := cfg.Imported(key, value, old(contents)[c].count)]
          && log == old(log) + cfg.ImportEvents(key, value) + cfg.EjectEvents(old(contents)[c])
        else
          contents == old(contents) && log == old(log)
      ensures old(Balanced(cfg, log, contents)) ==> Balanced(cfg, log, contents)
    {
      hide Table, RawOk, SlotsOf, Fulls, Tombstones, TableSize, TableCapacity, Config.Ok, FreeOn, Balanced;
      var idx, count := FindBucket(key);
      if cfg.cls(key) in contents {
        EntryTells(cfg, values, keys, counts, countsWidth, contents, place, cfg.cls(key));
      }
      if 0 < count {
        ReplaceValueAt(idx, key, value);
      }
    }

    /** CFBasicHashSetValue: replaces or adds. */
    method Set(key: u64, value: u64)
      requires Valid() && CanAdd() && Storable(key) && Storable(value) && (!cfg.hasKeys ==> key == value)
      modifies this
      ensures Valid()
      ensures var c := cfg.cls(key);
        if c in old(contents) then
          && contents == old(contents)[c := cfg.Imported(key, value, old(contents)[c].count)]
          && log == old(log) + cfg.ImportEvents(key, value) + cfg.EjectEvents(old(contents)[c])
        else
          && contents == old(contents)[c := cfg.Imported(key, value, 1)]
          && log == old(log) + cfg.ImportEvents(key, value)
      ensures old(Balanced(cfg, log, contents)) ==> Balanced(cfg, log, contents)
    {
      hide Table, RawOk, SlotsOf, Fulls, Tombstones, TableSize, TableCapacity, Config.Ok, FreeOn, Balanced;
      var idx, count := FindBucket(key);
      if cfg.cls(key) in contents {
        EntryTells(cfg, values, keys, counts, countsWidth, contents, place, cfg.cls(key));
      }
      if 0 < count {
        ReplaceValueAt(idx, key, value);
      } else {
        AddValueAt(idx, key, value);
      }
    }

    /** CFBasicHashRemoveValue: one occurrence less, or the entry gone; a count at the very top stays. */
    method RemoveValue(key: u64) returns (count: nat)
      requires Valid()
      modifies this
      ensures Valid()
      ensures if Storable(key) && cfg.cls(key) in old(contents) then
          var c := cfg.cls(key);
          && count == old(contents)[c].count > 0
          && contents == (if count == 1 then old(contents) - {c}
                          else if count == LONG_MAX then old(contents)
                          else old(contents)[c := old(contents)[c].(count := count - 1)])
          && log == old(log) + if count == 1 then cfg.EjectEvents(old(contents)[c]) else []
        else count == 0 && contents == old(contents) && log == old(log)
      ensures old(Balanced(cfg, log, contents)) ==> Balanced(cfg, log, contents)
    {
      hide Table, RawOk, SlotsOf, Fulls, Tombstones, TableSize, TableCapacity, Config.Ok, FreeOn, Decode, Config.EjectEvents;
      hide Balanced;
      if key == SUB_ZERO || key == SUB_ONES {
        return 0;
      }
      var idx: int;
      idx, count := FindBucket(key);
      if cfg.cls(key) in contents {
        EntryTells(cfg, values, keys, counts, countsWidth, contents, place, cfg.cls(key));
      }
      if 0 < count {
        RemoveOccurrence(idx, count, cfg.cls(key));
      }
    }

    method RemoveOccurrence(idx: nat, count: nat, ghost c: Class)
      requires Valid() && c in contents && idx == place[c] && count == contents[c].count > 0
      requires (!cfg.hasCounts ==> count == 1) && count <= LONG_MAX
      modifies this
      ensures Valid()
      ensures contents == if count == 1 then old(contents) - {c} else if count == LONG_MAX then old(contents)
                          else old(contents)[c := old(contents)[c].(count := count - 1)]
      ensures log == old(log) + if count == 1 then cfg.EjectEvents(old(contents)[c]) else []
      ensures old(Balanced(cfg, log, contents)) ==> Balanced(cfg, log, contents)
    {
      hide Table, RawOk, SlotsOf, Fulls, Tombstones, TableSize, TableCapacity, Config.Ok, Config.EjectEvents, Balanced;
      if 1 < count {
        if cfg.hasCounts && count < LONG_MAX {
          CountDown(idx, c);
        }
      } else {
        RemoveValueAt(idx, c);
      }
    }

    /** CFBasicHashSetCapacity: room ahead of time, and nothing else. */
    method SetCapacity(capacity: nat)
      requires Valid() && (used < capacity ==> CanRehash(capacity - used))
      modifies this`numBucketsIdx, this`deleted, this`values, this`keys, this`counts, this`contents, this`place
      ensures Valid() && contents == old(contents) && capacity <= TableCapacity(numBucketsIdx)
      ensures numBucketsIdx == old(if used < capacity then NewIndex(capacity - used) else numBucketsIdx)
    {
      hide Table, RawOk, SlotsOf, Fulls, Tombstones, TableSize, TableCapacity, Config.Ok;
      if used < capacity {
        Rehash(capacity - used);
      }
    }

    // ---------------------------------------------------------- integer renumbering

    /**
     * One pass over the buckets that raises, or lowers, the integers from a pivot on, and notes the bucket of the
     * pivot. No callback is made, and live buckets stay live.
     */
    method RenumberValues(intValue: u64, up: bool) returns (bktIdx: int, ghost hit: Class)
      requires Valid() && cfg.hasKeys
      modifies this`values, this`contents
      ensures Valid() && contents == Renumbered(old(contents), intValue, up) && SameMarks(old(values), values)
      ensures bktIdx == -1 ==> NotBelow(old(contents), place, intValue, |values|)
      ensures bktIdx != -1 ==> hit in old(contents) && old(contents)[hit].value == intValue && hit in place && bktIdx == place[hit]
    {
      hide Table, RawOk, SlotsOf, Fulls, Tombstones, TableSize, TableCapacity, Config.Ok, Renumber, RenumberedTo;
      ghost var was := contents;
      bktIdx, hit := -1, 0;
      StartRenumbering(Slots(), cfg.cls, cfg.probe, was, place, intValue, up);
      for idx := 0 to |values|
        invariant Valid() && RenumberedTo(was, contents, place, intValue, up, idx) && SameMarks(old(values), values)
        invariant was.Keys == place.Keys && (bktIdx == -1 ==> NotBelow(was, place, intValue, idx))
        invariant bktIdx != -1 ==> hit in was && was[hit].value == intValue && bktIdx == place[hit]
      {
        PivotHere(cfg, values, keys, counts, countsWidth, was, contents, place, intValue, up, idx);
        if values[idx] != 0 && values[idx] != ALL_ONES && Decode(values[idx]) == intValue {
          bktIdx, hit := idx, cfg.cls(Decode(keys[idx]));
        }
        RenumberBucket(was, intValue, up, idx);
      }
      EntriesInRange(cfg, values, keys, counts, countsWidth, contents, place);
      AllRenumbered(was, contents, place, intValue, up, |values|);
    }

    method RenumberBucket(ghost was: map<Class, Entry>, intValue: u64, up: bool, idx: nat)
      requires Valid() && cfg.hasKeys && idx < |values| && RenumberedTo(was, contents, place, intValue, up, idx)
      modifies this`values, this`contents
      ensures Valid() && SameMarks(old(values), values) && RenumberedTo(was, contents, place, intValue, up, idx + 1)
    {
      hide Table, RawOk, SlotsOf, Fulls, Tombstones, TableSize, TableCapacity, Config.Ok, RenumberedTo, Renumber;
      SlotTells(cfg, values, keys, counts, countsWidth, idx);
      if values[idx] != 0 && values[idx] != ALL_ONES {
        ghost var c := cfg.cls(Decode(keys[idx]));
        IsThere(Slots(), cfg.cls, cfg.probe, contents, place, idx);
        EntryTells(cfg, values, keys, counts, countsWidth, contents, place, c);
        var stackValue := Decode(values[idx]);
        ghost var e := contents[c].(value := Renumber(stackValue, intValue, up));
        RenumberStorable(stackValue, intValue, up);
        Overwritten(cfg, values, keys, counts, countsWidth, countsWidth, contents, place, c, e);
        SameWords(cfg, values, keys, idx, contents[c]);
        assert cfg.hasCounts ==> counts[idx := counts[idx]] == counts;
        RenumberedNext(Slots(), cfg.cls, cfg.probe, was, contents, place, intValue, up, idx);
        RenumberEncodes(values[idx], intValue, up);
        if up && intValue <= stackValue {
          values := values[idx := Encode((stackValue + 1) % TWO_64)];
        } else if !up && intValue < stackValue {
          values := values[idx := Encode(stackValue - 1)];
        }
        contents := contents[c := e];
      } else {
        RenumberedSkip(Slots(), cfg.cls, cfg.probe, was, contents, place, intValue, up, idx);
      }
    }

    /** CFBasicHashAddIntValueAndInc: makes room at an integer, and puts a new key there. */
    method AddIntValueAndInc(key: u64, intValue: u64) returns (r: bool)
      requires Valid() && CanAdd() && cfg.hasKeys && Storable(key) && Storable(intValue)
      modifies this
      ensures Valid() && (r <==> cfg.cls(key) !in old(contents))
      ensures if r then
          && contents == Renumbered(old(contents), intValue, true)[cfg.cls(key) := cfg.Imported(key, intValue, 1)]
          && log == old(log) + cfg.ImportEvents(key, intValue)
        else contents == old(contents) && log == old(log)
      ensures old(Balanced(cfg, log, contents)) && cfg.retainValue.None? ==> Balanced(cfg, log, contents)
    {
      hide Table, RawOk, SlotsOf, Fulls, Tombstones, TableSize, TableCapacity, Config.Ok, FreeOn, Renumbered, Balanced;
      if Balanced(cfg, log, contents) && cfg.retainValue.None? {
        BalancedRenumbered(cfg, log, contents, intValue, true);
      }
      var idx, count := FindBucket(key);
      if cfg.cls(key) in contents {
        EntryTells(cfg, values, keys, counts, countsWidth, contents, place, cfg.cls(key));
      }
      if 0 < count {
        return false;
      }
      idx := FreeBucket(key, idx);
      RenumberedKeys(contents, intValue, true);
      RenumberRoom(key, intValue, idx);
      AddValueAt(idx, key, intValue);
      return true;
    }

    /** The bucket found for a new key, in a table grown if need be. */
    method FreeBucket(key: u64, found: int) returns (idx: int)
      requires Valid() && CanAdd() && cfg.cls(key) !in contents
      requires used < TableCapacity(numBucketsIdx) ==> found >= 0 && FreeOn(Slots(), cfg.probe(cfg.cls(key), |values|), found)
      modifies this`numBucketsIdx, this`deleted, this`values, this`keys, this`counts, this`contents, this`place
      ensures Valid() && CanAdd() && contents == old(contents)
      ensures idx >= 0 && FreeOn(Slots(), cfg.probe(cfg.cls(key), |values|), idx)
    {
      hide Table, RawOk, SlotsOf, Fulls, Tombstones, TableSize, TableCapacity, Config.Ok, FreeOn, RehashIndex;
      idx := found;
      if TableCapacity(numBucketsIdx) < used + 1 {
        Rehash(1);
        CapacityFits(numBucketsIdx);
        idx := FindBucketNoCollision(key);
      }
      CapacityFits(numBucketsIdx);
    }

    /** The pass leaves a free bucket free. */
    method RenumberRoom(key: u64, intValue: u64, ghost idx: nat)
      requires Valid() && cfg.hasKeys && FreeOn(Slots(), cfg.probe(cfg.cls(key), |values|), idx)
      modifies this`values, this`contents
      ensures Valid() && contents == Renumbered(old(contents), intValue, true) && |values| == |old(values)|
      ensures FreeOn(Slots(), cfg.probe(cfg.cls(key), |values|), idx)
    {
      hide Table, RawOk, SlotsOf, Fulls, Tombstones, TableSize, TableCapacity, Config.Ok, Renumbered, FreeOn;
      ghost var was := values;
      var _, _ := RenumberValues(intValue, true);
      StillFree(cfg, was, values, keys, counts, countsWidth, cfg.probe(cfg.cls(key), |values|), idx);
    }

    /**
     * CFBasicHashRemoveIntValueAndDec: takes out the entry of an integer and closes the gap. Unless some entry has
     * the integer the code indexes its stores with ~0.
     */
    method RemoveIntValueAndDec(intValue: u64, ghost c: Class)
      requires Valid() && cfg.hasKeys && Storable(intValue) && c in contents && contents[c].value == intValue
      requires contents[c].count == 1 && forall d :: d in contents && contents[d].value == intValue ==> d == c
      modifies this
      ensures Valid() && contents == Renumbered(old(contents), intValue, false) - {c}
      ensures log == old(log) + cfg.EjectEvents(old(contents)[c])
      ensures old(Balanced(cfg, log, contents)) && cfg.retainValue.None? ==> Balanced(cfg, log, contents)
    {
      hide Table, RawOk, SlotsOf, Fulls, Tombstones, TableSize, TableCapacity, Config.Ok, Config.EjectEvents, Decode, Encode;
      hide Balanced;
      if Balanced(cfg, log, contents) && cfg.retainValue.None? {
        BalancedRenumbered(cfg, log, contents, intValue, false);
      }
      EntriesInRange(cfg, values, keys, counts, countsWidth, contents, place);
      ghost var hit: Class;
      var bktIdx: int;
      bktIdx, hit := RenumberValues(intValue, false);
      RemoveValueAt(bktIdx, c);
    }

    /** CFBasicHashRemoveAllValues: every live bucket is ejected, once, and the stores are given up. */
    method RemoveAllValues()
      requires Valid()
      modifies this
      ensures Valid() && contents == map[]
      ensures log == old(log) + EjectAll(cfg, old(Slots()))
      ensures old(Balanced(cfg, log, contents)) ==> Balanced(cfg, log, contents)
    {
      hide Table, RawOk, SlotsOf, Fulls, Tombstones, TableSize, TableCapacity, Config.Ok, EjectAll, Balanced;
      if Balanced(cfg, log, contents) {
        BalancedEmpty(cfg, log, Slots(), contents, place);
      }
      RawShape(cfg, values, keys, counts, countsWidth);
      EmptyAtFirst(cfg, Slots(), contents, place, numBucketsIdx);
      if numBucketsIdx == 0 {
        return;
      }
      var oldNumBuckets := TableSize(numBucketsIdx);
      var oldValues, oldKeys := values, keys;
      ghost var oldCounts := counts;
      Nullify();
      EjectStores(oldValues, oldKeys, oldCounts, oldNumBuckets);
    }

    method Nullify()
      requires cfg.Ok() && countsWidth < 4
      modifies this`values, this`keys, this`counts, this`numBucketsIdx, this`used, this`deleted, this`contents, this`place
      ensures Valid() && contents == map[]
    {
      hide Table, RawOk, SlotsOf, Fulls, Tombstones, TableCapacity, Config.Ok;
      NothingStored(cfg, countsWidth);
      values, keys, counts, numBucketsIdx, used, deleted := [], [], [], 0, 0, 0;
      contents, place := map[], map[];
    }

    method EjectStores(oldValues: seq<u64>, oldKeys: seq<u64>, ghost oldCounts: seq<nat>, oldNumBuckets: nat)
      requires Valid() && RawOk(cfg, oldValues, oldKeys, oldCounts, countsWidth) && oldNumBuckets == |oldValues|
      modifies this`log
      ensures Valid() && log == old(log) + EjectAll(cfg, SlotsOf(cfg, oldValues, oldKeys, oldCounts))
    {
      hide RawOk, SlotsOf, EjectAll, Decode, Config.EjectEvents;
      RawShape(cfg, oldValues, oldKeys, oldCounts, countsWidth);
      ghost var slots := SlotsOf(cfg, oldValues, oldKeys, oldCounts);
      EjectNothing(cfg, slots);
      for idx := 0 to oldNumBuckets
        invariant log == old(log) + EjectAll(cfg, slots[..idx])
      {
        SlotTells(cfg, oldValues, oldKeys, oldCounts, countsWidth, idx);
        EjectNext(cfg, slots, idx);
        if oldValues[idx] != 0 && oldValues[idx] != ALL_ONES {
          Eject(Decode(oldValues[idx]), if cfg.hasKeys then Decode(oldKeys[idx]) else Decode(oldValues[idx]), slots[idx]);
        }
      }
      assert slots[..oldNumBuckets] == slots;
    }

    method Eject(value: u64, key: u64, ghost s: Slot)
      requires s.Full? && s.value == value && s.key == key
      modifies this`log
      ensures log == old(log) + cfg.EjectEvents(EntryOf(s))
    {
      if cfg.releaseValue {
        log := log + [ReleasedValue(value)];
      }
      if cfg.hasKeys && cfg.releaseKey {
        log := log + [ReleasedKey(key)];
      }
    }

    /** CFBasicHashCreateCopy: the same buckets with every live key and value imported, once, into the copy. */
    method CreateCopy() returns (copy: HashTable)
      requires Valid()
      ensures fresh(copy) && copy.Valid() && copy.cfg == cfg && copy.contents == ImportedContents(cfg, contents)
      ensures copy.log == ImportAll(cfg, Slots()) && Balanced(cfg, copy.log, copy.contents)
    {
      hide Table, RawOk, SlotsOf, Fulls, Tombstones, TableSize, TableCapacity, Config.Ok, ImportedContents, ImportAll;
      hide Config.ImportEvents, BucketCopied, SlotsImported, Balanced;
      copy := new HashTable(cfg);
      var newValues, newKeys: seq<u64> := CopyStores(copy);
      RawShape(cfg, values, keys, counts, countsWidth);
      CopiedStores(cfg, values, keys, counts, countsWidth, newValues, newKeys);
      ImportedTable(cfg, Slots(), SlotsOf(cfg, newValues, newKeys, counts), contents, place);
      BalancedCopy(cfg, Slots(), SlotsOf(cfg, newValues, newKeys, counts), ImportedContents(cfg, contents), place);
      copy.Adopt(numBucketsIdx, used, deleted, newValues, newKeys, counts, countsWidth, ImportedContents(cfg, contents), place);
    }

    /** The header copied, and the new stores put in. */
    method Adopt(idx: nat, used: nat, deleted: u16, values: seq<u64>, keys: seq<u64>, counts: seq<nat>, width: nat,
      ghost contents: map<Class, Entry>, ghost place: map<Class, nat>)
      requires cfg.Ok() && idx < 45 && |values| == TableSize(idx) && RawOk(cfg, values, keys, counts, width)
      requires Table(SlotsOf(cfg, values, keys, counts), cfg.cls, cfg.probe, contents, place)
      requires used == Fulls(SlotsOf(cfg, values, keys, counts)) == |contents| && used <= TableCapacity(idx)
      requires deleted == Tombstones(SlotsOf(cfg, values, keys, counts))
      modifies this
      ensures Valid() && this.contents == contents && log == old(log)
    {
      hide Table, RawOk, SlotsOf, Fulls, Tombstones, TableSize, TableCapacity, Config.Ok;
      numBucketsIdx, this.used, this.deleted := idx, used, deleted;
      this.values, this.keys, this.counts, countsWidth := values, keys, counts, width;
      this.contents, this.place := contents, place;
    }

    method CopyStores(copy: HashTable) returns (newValues: seq<u64>, newKeys: seq<u64>)
      requires Valid() && copy != this && copy.cfg == cfg && copy.log == []
      modifies copy`log
      ensures copy.log == ImportAll(cfg, Slots())
      ensures |newValues| == |values| && (if cfg.hasKeys then |newKeys| == |keys| == |values| else newKeys == [])
      ensures forall i: nat :: i < |values| ==>
        BucketCopied(cfg, values[i], if cfg.hasKeys then keys[i] else 0, newValues[i], if cfg.hasKeys then newKeys[i] else 0)
    {
      hide Table, RawOk, SlotsOf, Fulls, Tombstones, TableSize, TableCapacity, Config.Ok, ImportAll, Encode, Decode;
      hide Config.ImportEvents;
      RawShape(cfg, values, keys, counts, countsWidth);
      ghost var slots := Slots();
      newValues, newKeys := [], [];
      ImportNothing(cfg, slots);
      for idx := 0 to |values|
        invariant |newValues| == idx && (if cfg.hasKeys then |newKeys| == idx else newKeys == [])
        invariant copy.log == ImportAll(cfg, slots[..idx])
        invariant forall i: nat :: i < idx ==>
          BucketCopied(cfg, values[i], if cfg.hasKeys then keys[i] else 0, newValues[i], if cfg.hasKeys then newKeys[i] else 0)
      {
        SlotTells(cfg, values, keys, counts, countsWidth, idx);
        ImportNext(cfg, slots, idx);
        var stackValue := values[idx];
        if stackValue != 0 && stackValue != ALL_ONES {
          var oldValue := Decode(stackValue);
          var k, v := copy.Import(if cfg.hasKeys then Decode(keys[idx]) else oldValue, oldValue);
          newValues := newValues + [Encode(v)];
          if cfg.hasKeys {
            newKeys := newKeys + [Encode(k)];
          }
        } else {
          newValues := newValues + [stackValue];
          if cfg.hasKeys {
            newKeys := newKeys + [stackValue];
          }
        }
      }
      assert slots[..|values|] == slots;
    }
  }

  // ---------------------------------------------- tables that number their keys

  /** The values are the integers below `n`, each once. */
  ghost predicate Numbering(contents: map<Class, Entry>, n: nat) {
    && (forall c :: c in contents ==> contents[c].value < n)
    && (forall c, d :: c in contents && d in contents && contents[c].value == contents[d].value ==> c == d)
    && (forall x: nat :: x < n ==> Numbers(contents, x))
  }

  ghost predicate Numbers(contents: map<Class, Entry>, x: nat) {
    exists c :: c in contents && contents[c].value == x
  }

  /** The contents after AddIntValueAndInc of a new key. */
  function Inserted(contents: map<Class, Entry>, c: Class, e: Entry): map<Class, Entry> {
    Renumbered(contents, e.value, true)[c := e]
  }

  /** And after RemoveIntValueAndDec. */
  function Withdrawn(contents: map<Class, Entry>, c: Class): map<Class, Entry>
    requires c in contents
  {
    Renumbered(contents, contents[c].value, false) - {c}
  }

  /** Raised integers read back as their successors as long as these stay below the stand-in for ~0. */
  lemma RenumberExact(v: u64, pivot: u64)
    requires v < SUB_ONES
    ensures Renumber(v, pivot, true) == (if pivot > v then v else if v + 1 == SUB_ONES then ALL_ONES else v + 1)
    ensures Renumber(v, pivot, false) == if pivot < v then v - 1 else v
  {
  }

  /** Any word: one more or less modulo 2^64, unless that is a stand-in, which reads back as what it stands for. */
  lemma RenumberWords(v: u64, pivot: u64, up: bool)
    ensures var next :=
        if up && pivot <= v then (if v == ALL_ONES then 0 else v + 1) else if !up && pivot < v then v - 1 else v;
      Renumber(v, pivot, up) ==
        if next == v then v else if next == SUB_ZERO then 0 else if next == SUB_ONES then ALL_ONES else next
  {
  }

  /**
   * Inserting a new key at an integer makes a numbering again exactly if the new number of keys is one the stored
   * words can tell from a stand-in.
   */
  lemma InsertedNumbering(contents: map<Class, Entry>, n: nat, c: Class, e: Entry)
    requires Numbering(contents, n) && c !in contents && e.value <= n <= SUB_ONES && Storable(e.value)
    ensures Numbering(Inserted(contents, c, e), n + 1) <==> n < SUB_ONES
  {
    if n < SUB_ONES {
      StillNumbering(contents, n, c, e);
    } else {
      assert Numbers(contents, n - 1);
      var d :| d in contents && contents[d].value == n - 1;
      RenumberExact(n - 1, e.value);
      assert Inserted(contents, c, e)[d].value == ALL_ONES;
    }
  }

  /** As many keys as fit, each numbered with itself. */
  function SelfNumbered(n: nat): map<Class, Entry>
    requires n <= SUB_ONES
  {
    map c: nat | c < n :: Entry(c, c, 1)
  }

  /** One key more than fits: inserting it at 0 raises the last integer to ~0. */
  lemma NumberingBreaks()
    ensures Numbering(SelfNumbered(SUB_ONES), SUB_ONES)
    ensures var after := Inserted(SelfNumbered(SUB_ONES), SUB_ONES, Entry(TWO_32, 0, 1));
      !Numbering(after, SUB_ONES + 1) && after[SUB_ONES - 1].value == ALL_ONES
  {
    var contents, e := SelfNumbered(SUB_ONES), Entry(TWO_32, 0, 1);
    forall x: nat | x < SUB_ONES
      ensures Numbers(contents, x)
    {
      assert x in contents && contents[x].value == x;
    }
    InsertedNumbering(contents, SUB_ONES, SUB_ONES, e);
    RenumberExact(SUB_ONES - 1, 0);
    assert SUB_ONES - 1 in contents;
  }

  /** Every integer from the new one on is raised. */
  lemma InsertedValues(contents: map<Class, Entry>, n: nat, c: Class, e: Entry)
    requires Numbering(contents, n) && c !in contents && e.value <= n < SUB_ONES
    ensures var after := Inserted(contents, c, e);
      && after.Keys == contents.Keys + {c} && after[c] == e
      && forall d :: d in contents ==> after[d] == contents[d].(value := Raised(contents[d].value, e.value))
  {
    RenumberedKeys(contents, e.value, true);
    forall d | d in contents
      ensures Renumber(contents[d].value, e.value, true) == Raised(contents[d].value, e.value)
    {
      RenumberExact(contents[d].value, e.value);
    }
    hide Renumber, Raised;
  }

  function Raised(x: u64, pivot: u64): int {
    if pivot <= x then x + 1 else x
  }

  lemma StillNumbering(contents: map<Class, Entry>, n: nat, c: Class, e: Entry)
    requires Numbering(contents, n) && c !in contents && e.value <= n < SUB_ONES
    ensures Numbering(Inserted(contents, c, e), n + 1)
  {
    hide Inserted;
    InsertedValues(contents, n, c, e);
    var after := Inserted(contents, c, e);
    forall x: nat | x < n + 1
      ensures Numbers(after, x)
    {
      if x == e.value {
        assert c in after && after[c].value == x;
      } else {
        var y := if x < e.value then x else x - 1;
        assert Numbers(contents, y);
        var d :| d in contents && contents[d].value == y;
        assert d in after && after[d].value == x;
      }
    }
    forall a, b | a in after && b in after && after[a].value == after[b].value
      ensures a == b
    {
      assert a in contents && b in contents ==> contents[a].value == contents[b].value;
    }
  }

  /** The other keys keep their order. */
  lemma OrderKept(contents: map<Class, Entry>, n: nat, c: Class, e: Entry, a: Class, b: Class)
    requires Numbering(contents, n) && c !in contents && e.value <= n < SUB_ONES && a in contents && b in contents
    ensures var after := Inserted(contents, c, e);
      contents[a].value < contents[b].value <==> after[a].value < after[b].value
  {
    RenumberExact(contents[a].value, e.value);
    RenumberExact(contents[b].value, e.value);
  }

  /** Removing the integer just inserted restores the table. */
  lemma InsertThenWithdraw(contents: map<Class, Entry>, n: nat, c: Class, e: Entry)
    requires Numbering(contents, n) && c !in contents && e.value <= n < SUB_ONES
    ensures Withdrawn(Inserted(contents, c, e), c) == contents
  {
    hide Inserted, Withdrawn, Raised, Numbering;
    InsertedValues(contents, n, c, e);
    StillNumbering(contents, n, c, e);
    var after := Inserted(contents, c, e);
    WithdrawnValues(after, n + 1, c);
    forall d | d in contents
      ensures Withdrawn(after, c)[d] == contents[d]
    {
      RaisedBack(contents[d].value, e.value);
    }
  }

  lemma RaisedBack(x: u64, pivot: u64)
    ensures Lowered(Raised(x, pivot), pivot) == x
  {
  }

  function Lowered(x: int, pivot: u64): int {
    if pivot < x then x - 1 else x
  }

  /** Every integer behind the one taken out is lowered. */
  lemma WithdrawnValues(contents: map<Class, Entry>, n: nat, c: Class)
    requires Numbering(contents, n) && c in contents && n <= SUB_ONES
    ensures var v, after := contents[c].value, Withdrawn(contents, c);
      && after.Keys == contents.Keys - {c}
      && forall d :: d in after ==> after[d] == contents[d].(value := Lowered(contents[d].value, v))
  {
    var v := contents[c].value;
    RenumberedKeys(contents, v, false);
    forall d | d in contents
      ensures Renumber(contents[d].value, v, false) == Lowered(contents[d].value, v)
    {
      RenumberExact(contents[d].value, v);
    }
    hide Renumber, Lowered;
  }

  /** Removing any integer leaves a numbering of the rest. */
  lemma WithdrawnNumbering(contents: map<Class, Entry>, n: nat, c: Class)
    requires Numbering(contents, n) && c in contents && n <= SUB_ONES
    ensures Numbering(Withdrawn(contents, c), n - 1)
  {
    hide Withdrawn;
    WithdrawnValues(contents, n, c);
    var v, after := contents[c].value, Withdrawn(contents, c);
    forall d | d in after
      ensures contents[d].value != v && after[d].value < n - 1
    {
    }
    forall x: nat | x < n - 1
      ensures Numbers(after, x)
    {
      var y := if x < v then x else x + 1;
      assert Numbers(contents, y);
      var d :| d in contents && contents[d].value == y;
      assert d in after && after[d].value == x;
    }
    forall a, b | a in after && b in after && after[a].value == after[b].value
      ensures a == b
    {
      assert contents[a].value == contents[b].value;
    }
  }
}
