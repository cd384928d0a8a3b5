/** The configuration and the raw stores of a CFBasicHash, and what writing to them does to the table they hold. */
module BasicHashStores {
  import opened Bytes
  import opened BasicHashTable

  datatype Event = RetainedKey(k: u64) | RetainedValue(v: u64) | ReleasedKey(k: u64) | ReleasedValue(v: u64)

  /** What a table is created with; a retain callback may return another pointer. */
  datatype Config = Config(
    hasKeys: bool, hasCounts: bool, fastGrow: bool,
    cls: u64 -> Class, probe: ProbeFn,
    retainKey: Option<u64 -> u64>, retainValue: Option<u64 -> u64>, releaseKey: bool, releaseValue: bool)
  {
    /** Probing meets enough buckets of every table, and retaining gives an equal and storable value. */
    ghost predicate Ok() {
      && Probes()
      && (forall v: u64 :: Storable(v) ==> Storable(ImportValue(v)) && Storable(ImportKey(v)))
      && (forall k: u64 :: cls(if hasKeys then ImportKey(k) else ImportValue(k)) == cls(k))
    }

    ghost predicate Probes() {
      forall c: Class, idx: nat :: 0 < idx < 45 ==> Covers(probe(c, TableSize(idx)), TableSize(idx), TableCapacity(idx))
    }

    function ImportValue(v: u64): u64 {
      if retainValue.Some? then retainValue.value(v) else v
    }

    function ImportKey(k: u64): u64 {
      if retainKey.Some? then retainKey.value(k) else k
    }

    /** The entry stored for a key and a value; a set stores only the value. */
    function Imported(key: u64, value: u64, count: nat): (e: Entry)
      requires Ok()
      requires !hasKeys ==> key == value
      ensures cls(e.key) == cls(key)
    {
      Entry(if hasKeys then ImportKey(key) else ImportValue(value), ImportValue(value), count)
    }

    function ImportEvents(key: u64, value: u64): seq<Event> {
      (if retainValue.Some? then [RetainedValue(value)] else []) +
      (if hasKeys && retainKey.Some? then [RetainedKey(key)] else [])
    }

    function EjectEvents(e: Entry): seq<Event> {
      (if releaseValue then [ReleasedValue(e.value)] else []) +
      (if hasKeys && releaseKey then [ReleasedKey(e.key)] else [])
    }
  }

  // ----------------------------------------------------------------- raw buckets

  /** The words of a bucket read as a slot. */
  function ReadSlot(value: u64, key: u64, count: nat): Slot {
    if value == 0 then Empty
    else if value == ALL_ONES then Deleted
    else Full(Decode(key), Decode(value), count)
  }

  function SlotAt(cfg: Config, values: seq<u64>, keys: seq<u64>, counts: seq<nat>, i: nat): Slot
    requires i < |values| && (cfg.hasKeys ==> |keys| == |values|) && (cfg.hasCounts ==> |counts| == |values|)
  {
    ReadSlot(values[i], if cfg.hasKeys then keys[i] else values[i], if cfg.hasCounts then counts[i] else 1)
  }

  function SlotsOf(cfg: Config, values: seq<u64>, keys: seq<u64>, counts: seq<nat>): (s: seq<Slot>)
    requires (cfg.hasKeys ==> |keys| == |values|) && (cfg.hasCounts ==> |counts| == |values|)
    ensures |s| == |values|
  {
    seq(|values|, i requires 0 <= i < |values| => SlotAt(cfg, values, keys, counts, i))
  }

  /** The largest count a store of this width is made to hold. */
  function CountLimit(width: nat): nat {
    if width == 0 then 0x7f
    else if width == 1 then 0x7fff
    else if width == 2 then 0x7fff_ffff
    else 0x7fff_ffff_ffff_ffff
  }

  const LONG_MAX: nat := 0x7fff_ffff_ffff_ffff

  /** A count of `width` is a signed integer of 1, 2, 4 or 8 bytes. */
  lemma CountWidths(width: nat)
    requires width < 4
    ensures 2 * (CountLimit(width) + 1) == Pow256(Pow2(width))
  {
    Pow256Values();
    hide Pow256;
    assert Pow2(2) == 4 && Pow2(3) == 2 * Pow2(2);
  }

  /** Keys are marked as the values are, and only live buckets have a count. */
  ghost predicate RawOk(cfg: Config, values: seq<u64>, keys: seq<u64>, counts: seq<nat>, width: nat) {
    && width < 4
    && (cfg.hasKeys ==> |keys| == |values| && forall i: nat :: i < |values| ==> SameMark(values[i], keys[i]))
    && (cfg.hasCounts ==> CountsOk(values, counts, width))
  }

  ghost predicate CountsOk(values: seq<u64>, counts: seq<nat>, width: nat) {
    && |counts| == |values|
    && (forall i: nat :: i < |values| ==> CountOk(values[i], counts[i], width))
  }

  ghost predicate SameMark(value: u64, key: u64) {
    (value == 0 <==> key == 0) && (value == ALL_ONES <==> key == ALL_ONES)
  }

  ghost predicate CountOk(value: u64, count: nat, width: nat) {
    if value == 0 || value == ALL_ONES then count == 0 else 0 < count <= CountLimit(width)
  }

  /** A live bucket written: its words read back as the slot meant. */
  lemma WriteSlot(cfg: Config, values: seq<u64>, keys: seq<u64>, counts: seq<nat>, width: nat, width': nat, i: nat, s: Slot)
    requires RawOk(cfg, values, keys, counts, width) && i < |values| && width <= width' < 4
    requires s.Full? && Storable(s.key) && Storable(s.value) && (!cfg.hasKeys ==> s.key == s.value)
    requires if cfg.hasCounts then 0 < s.count <= CountLimit(width') else s.count == 1
    ensures var values' := values[i := Encode(s.value)];
      var keys' := if cfg.hasKeys then keys[i := Encode(s.key)] else keys;
      var counts' := if cfg.hasCounts then counts[i := s.count] else counts;
      && RawOk(cfg, values', keys', counts', width')
      && SlotsOf(cfg, values', keys', counts') == SlotsOf(cfg, values, keys, counts)[i := s]
  {
    var values' := values[i := Encode(s.value)];
    var counts' := if cfg.hasCounts then counts[i := s.count] else counts;
    forall j: nat | cfg.hasCounts && j < |values|
      ensures CountOk(values'[j], counts'[j], width')
    {
      assert CountOk(values[j], counts[j], width);
    }
    forall j: nat | cfg.hasKeys && j < |values|
      ensures SameMark(values'[j], keys[i := Encode(s.key)][j])
    {
      assert SameMark(values[j], keys[j]);
    }
  }

  /** A bucket marked deleted. */
  lemma MarkSlot(cfg: Config, values: seq<u64>, keys: seq<u64>, counts: seq<nat>, width: nat, i: nat)
    requires RawOk(cfg, values, keys, counts, width) && i < |values|
    ensures var values' := values[i := ALL_ONES];
      var keys' := if cfg.hasKeys then keys[i := ALL_ONES] else keys;
      var counts' := if cfg.hasCounts then counts[i := 0] else counts;
      && RawOk(cfg, values', keys', counts', width)
      && SlotsOf(cfg, values', keys', counts') == SlotsOf(cfg, values, keys, counts)[i := Deleted]
  {
    var values' := values[i := ALL_ONES];
    forall j: nat | cfg.hasCounts && j < |values|
      ensures CountOk(values'[j], counts[i := 0][j], width)
    {
      assert CountOk(values[j], counts[j], width);
    }
    forall j: nat | cfg.hasKeys && j < |values|
      ensures SameMark(values'[j], keys[i := ALL_ONES][j])
    {
      assert SameMark(values[j], keys[j]);
    }
  }

  function Zeros(n: nat): (s: seq<u64>)
    ensures |s| == n && forall i: nat :: i < n ==> s[i] == 0
  {
    seq(n, _ => 0)
  }

  function NoCounts(n: nat): (s: seq<nat>)
    ensures |s| == n && forall i: nat :: i < n ==> s[i] == 0
  {
    seq(n, _ => 0)
  }

  lemma BlankStores(cfg: Config, n: nat, width: nat)
    requires width < 4 && cfg.Ok()
    ensures var keys := if cfg.hasKeys then Zeros(n) else [];
      var counts := if cfg.hasCounts then NoCounts(n) else [];
      && RawOk(cfg, Zeros(n), keys, counts, width)
      && Table(SlotsOf(cfg, Zeros(n), keys, counts), cfg.cls, cfg.probe, map[], map[])
      && Fulls(SlotsOf(cfg, Zeros(n), keys, counts)) == 0 && Tombstones(SlotsOf(cfg, Zeros(n), keys, counts)) == 0
  {
    var keys := if cfg.hasKeys then Zeros(n) else [];
    var counts := if cfg.hasCounts then NoCounts(n) else [];
    var slots := SlotsOf(cfg, Zeros(n), keys, counts);
    EmptyTable(slots, cfg.cls, cfg.probe);
    AllEmpty(slots);
    hide Table, Fulls, Tombstones;
  }

  /** The entries of the first `idx` old buckets, and no others, have been put into the new ones. */
  ghost predicate Carried(slots: seq<Slot>, cls: u64 -> Class, place: map<Class, nat>, was: map<Class, Entry>,
    now: map<Class, Entry>, idx: nat)
  {
    && idx <= |slots|
    && (forall c :: c in now ==> c in was && c in place && now[c] == was[c] && place[c] < idx)
    && (forall i: nat :: i < idx && slots[i].Full? ==> cls(slots[i].key) in now)
  }

  lemma CarriedNext(slots: seq<Slot>, cls: u64 -> Class, probe: ProbeFn, place: map<Class, nat>, was: map<Class, Entry>,
    now: map<Class, Entry>, idx: nat)
    requires Table(slots, cls, probe, was, place) && Carried(slots, cls, place, was, now, idx) && idx < |slots|
    ensures if slots[idx].Full? then
        && cls(slots[idx].key) !in now
        && Carried(slots, cls, place, was, now[cls(slots[idx].key) := EntryOf(slots[idx])], idx + 1)
      else Carried(slots, cls, place, was, now, idx + 1)
  {
    if slots[idx].Full? {
      IsThere(slots, cls, probe, was, place, idx);
    }
  }

  lemma CarriedAll(slots: seq<Slot>, cls: u64 -> Class, probe: ProbeFn, place: map<Class, nat>, was: map<Class, Entry>,
    now: map<Class, Entry>)
    requires Table(slots, cls, probe, was, place) && Carried(slots, cls, place, was, now, |slots|)
    ensures now == was
  {
    forall c | c in was
      ensures c in now
    {
      assert Holds(slots, cls, c, was[c], place[c]);
    }
  }

  /** The word a search looks at tells what the bucket is. */
  lemma WordTells(cfg: Config, values: seq<u64>, keys: seq<u64>, counts: seq<nat>, width: nat, i: nat)
    requires RawOk(cfg, values, keys, counts, width) && i < |values|
    ensures (cfg.hasKeys ==> |keys| == |values|) && (cfg.hasCounts ==> |counts| == |values|) && width < 4
    ensures var s, word := SlotsOf(cfg, values, keys, counts)[i], if cfg.hasKeys then keys[i] else values[i];
      && (s.Empty? <==> word == 0) && (s.Deleted? <==> word == ALL_ONES)
      && (s.Full? ==> s.key == Decode(word) && s.count == if cfg.hasCounts then counts[i] else 1)
  {
    if cfg.hasKeys {
      assert SameMark(values[i], keys[i]);
    }
  }

  lemma RawShape(cfg: Config, values: seq<u64>, keys: seq<u64>, counts: seq<nat>, width: nat)
    requires RawOk(cfg, values, keys, counts, width)
    ensures (cfg.hasKeys ==> |keys| == |values|) && (cfg.hasCounts ==> |counts| == |values|) && width < 4
  {
  }

  /** The words of a bucket tell what it is, and what to carry over. */
  lemma SlotTells(cfg: Config, values: seq<u64>, keys: seq<u64>, counts: seq<nat>, width: nat, i: nat)
    requires RawOk(cfg, values, keys, counts, width) && i < |values|
    ensures (cfg.hasKeys ==> |keys| == |values|) && (cfg.hasCounts ==> |counts| == |values|) && width < 4
    ensures var s := SlotsOf(cfg, values, keys, counts)[i];
      && (s.Empty? <==> values[i] == 0) && (s.Deleted? <==> values[i] == ALL_ONES)
      && (s.Full? ==>
            && s.value == Decode(values[i]) && s.key == Decode(if cfg.hasKeys then keys[i] else values[i])
            && s.count == (if cfg.hasCounts then counts[i] else 1) && Storable(s.key) && Storable(s.value)
            && 0 < s.count && (cfg.hasCounts ==> s.count <= CountLimit(width)))
  {
    if cfg.hasKeys {
      assert SameMark(values[i], keys[i]);
    }
    if cfg.hasCounts {
      assert CountOk(values[i], counts[i], width);
    }
  }

  lemma StartCarrying(slots: seq<Slot>, cls: u64 -> Class, place: map<Class, nat>, was: map<Class, Entry>)
    ensures Carried(slots, cls, place, was, map[], 0) && Fulls(slots[..0]) == 0
  {
  }

  /** A free bucket filled, at the level of the words. */
  lemma Filled(cfg: Config, values: seq<u64>, keys: seq<u64>, counts: seq<nat>, width: nat, contents: map<Class, Entry>,
    place: map<Class, nat>, i: nat, e: Entry)
    requires RawOk(cfg, values, keys, counts, width) && i < |values|
    requires Table(SlotsOf(cfg, values, keys, counts), cfg.cls, cfg.probe, contents, place)
    requires cfg.cls(e.key) !in contents && e.count == 1 && Storable(e.key) && Storable(e.value)
    requires !cfg.hasKeys ==> e.key == e.value
    requires FreeOn(SlotsOf(cfg, values, keys, counts), cfg.probe(cfg.cls(e.key), |values|), i)
    ensures (cfg.hasKeys ==> |keys| == |values|) && (cfg.hasCounts ==> |counts| == |values| && counts[i] == 0) && width < 4
    ensures var values' := values[i := Encode(e.value)];
      var keys' := if cfg.hasKeys then keys[i := Encode(e.key)] else keys;
      var counts' := if cfg.hasCounts then counts[i := 1] else counts;
      var slots, slots' := SlotsOf(cfg, values, keys, counts), SlotsOf(cfg, values', keys', counts');
      && RawOk(cfg, values', keys', counts', width)
      && Table(slots', cfg.cls, cfg.probe, contents[cfg.cls(e.key) := e], place[cfg.cls(e.key) := i])
      && |contents[cfg.cls(e.key) := e]| == |contents| + 1
      && Fulls(slots') == Fulls(slots) + 1
      && Tombstones(slots') == Tombstones(slots) - if slots[i].Deleted? then 1 else 0
  {
    var slots, s := SlotsOf(cfg, values, keys, counts), Full(e.key, e.value, 1);
    RawShape(cfg, values, keys, counts, width);
    if cfg.hasCounts {
      assert CountOk(values[i], counts[i], width);
    }
    WriteSlot(cfg, values, keys, counts, width, width, i, s);
    Insert(slots, cfg.cls, cfg.probe, contents, place, i, e);
    TallyUpdate(slots, i, s);
    hide Table, RawOk, Fulls, Tombstones, Encode;
  }

  /** A live bucket overwritten by an equal key, or given another count. */
  lemma Overwritten(cfg: Config, values: seq<u64>, keys: seq<u64>, counts: seq<nat>, width: nat, width': nat,
    contents: map<Class, Entry>, place: map<Class, nat>, c: Class, e: Entry)
    requires RawOk(cfg, values, keys, counts, width) && width <= width' < 4
    requires Table(SlotsOf(cfg, values, keys, counts), cfg.cls, cfg.probe, contents, place)
    requires c in contents && cfg.cls(e.key) == c && Storable(e.key) && Storable(e.value)
    requires if cfg.hasCounts then 0 < e.count <= CountLimit(width') else e.count == 1
    requires !cfg.hasKeys ==> e.key == e.value
    ensures c in place && place[c] < |values|
    ensures (cfg.hasKeys ==> |keys| == |values|) && (cfg.hasCounts ==> |counts| == |values|)
    ensures var i := place[c];
      var values' := values[i := Encode(e.value)];
      var keys' := if cfg.hasKeys then keys[i := Encode(e.key)] else keys;
      var counts' := if cfg.hasCounts then counts[i := e.count] else counts;
      var slots, slots' := SlotsOf(cfg, values, keys, counts), SlotsOf(cfg, values', keys', counts');
      && RawOk(cfg, values', keys', counts', width')
      && Table(slots', cfg.cls, cfg.probe, contents[c := e], place) && |contents[c := e]| == |contents|
      && Fulls(slots') == Fulls(slots) && Tombstones(slots') == Tombstones(slots)
  {
    var slots, s, i := SlotsOf(cfg, values, keys, counts), Full(e.key, e.value, e.count), place[c];
    assert Holds(slots, cfg.cls, c, contents[c], i);
    WriteSlot(cfg, values, keys, counts, width, width', i, s);
    Replace(slots, cfg.cls, cfg.probe, contents, place, c, e);
    TallyUpdate(slots, i, s);
    hide Table, Fulls, Tombstones, Encode;
  }

  /** A live bucket marked deleted. */
  lemma Marked(cfg: Config, values: seq<u64>, keys: seq<u64>, counts: seq<nat>, width: nat,
    contents: map<Class, Entry>, place: map<Class, nat>, c: Class)
    requires RawOk(cfg, values, keys, counts, width)
    requires Table(SlotsOf(cfg, values, keys, counts), cfg.cls, cfg.probe, contents, place) && c in contents
    ensures c in place && place[c] < |values|
    ensures (cfg.hasKeys ==> |keys| == |values|) && (cfg.hasCounts ==> |counts| == |values|)
    ensures var i := place[c];
      var values' := values[i := ALL_ONES];
      var keys' := if cfg.hasKeys then keys[i := ALL_ONES] else keys;
      var counts' := if cfg.hasCounts then counts[i := 0] else counts;
      var slots, slots' := SlotsOf(cfg, values, keys, counts), SlotsOf(cfg, values', keys', counts');
      && RawOk(cfg, values', keys', counts', width)
      && Table(slots', cfg.cls, cfg.probe, contents - {c}, place - {c}) && |contents - {c}| == |contents| - 1
      && Fulls(slots') == Fulls(slots) - 1 && Tombstones(slots') == Tombstones(slots) + 1
  {
    var slots, i := SlotsOf(cfg, values, keys, counts), place[c];
    assert Holds(slots, cfg.cls, c, contents[c], i);
    MarkSlot(cfg, values, keys, counts, width, i);
    Remove(slots, cfg.cls, cfg.probe, contents, place, c);
    TallyUpdate(slots, i, Deleted);
    hide Table, Fulls, Tombstones, RawOk;
  }

  /** What the bucket of a class says. */
  lemma EntryTells(cfg: Config, values: seq<u64>, keys: seq<u64>, counts: seq<nat>, width: nat,
    contents: map<Class, Entry>, place: map<Class, nat>, c: Class)
    requires RawOk(cfg, values, keys, counts, width)
    requires Table(SlotsOf(cfg, values, keys, counts), cfg.cls, cfg.probe, contents, place) && c in contents
    ensures c in place && place[c] < |values|
    ensures (cfg.hasKeys ==> |keys| == |values|) && (cfg.hasCounts ==> |counts| == |values|) && width < 4
    ensures var e, i := contents[c], place[c];
      && values[i] != 0 && values[i] != ALL_ONES && e.value == Decode(values[i])
      && (cfg.hasKeys ==> keys[i] != 0 && keys[i] != ALL_ONES)
      && e.key == Decode(if cfg.hasKeys then keys[i] else values[i]) && cfg.cls(e.key) == c
      && e.count == (if cfg.hasCounts then counts[i] else 1) && Storable(e.key) && Storable(e.value)
      && 0 < e.count && (cfg.hasCounts ==> e.count <= CountLimit(width))
      && (!cfg.hasKeys ==> e.key == e.value)
  {
    assert Holds(SlotsOf(cfg, values, keys, counts), cfg.cls, c, contents[c], place[c]);
    SlotTells(cfg, values, keys, counts, width, place[c]);
    if cfg.hasKeys {
      KeyMarkedToo(cfg, values, keys, counts, width, place[c]);
    }
  }

  /** What the bucket of a class with one occurrence says to the code that takes it out. */
  lemma MarkReady(cfg: Config, values: seq<u64>, keys: seq<u64>, counts: seq<nat>, width: nat,
    contents: map<Class, Entry>, place: map<Class, nat>, c: Class)
    requires RawOk(cfg, values, keys, counts, width)
    requires Table(SlotsOf(cfg, values, keys, counts), cfg.cls, cfg.probe, contents, place) && c in contents
    requires contents[c].count == 1
    ensures c in place && place[c] < |values|
    ensures values[place[c]] != 0 && values[place[c]] != ALL_ONES && contents[c].value == Decode(values[place[c]])
    ensures cfg.hasKeys ==> |keys| == |values| && contents[c].key == Decode(keys[place[c]])
    ensures cfg.hasCounts ==> |counts| == |values| && counts[place[c]] == 1
  {
    EntryTells(cfg, values, keys, counts, width, contents, place, c);
  }

  lemma KeyMarkedToo(cfg: Config, values: seq<u64>, keys: seq<u64>, counts: seq<nat>, width: nat, i: nat)
    requires RawOk(cfg, values, keys, counts, width) && i < |values| && cfg.hasKeys
    ensures |keys| == |values| && SameMark(values[i], keys[i])
  {
  }

  /** Writing the same key and value again changes no word. */
  lemma SameWords(cfg: Config, values: seq<u64>, keys: seq<u64>, i: nat, e: Entry)
    requires i < |values| && (cfg.hasKeys ==> |keys| == |values|) && values[i] != 0 && values[i] != ALL_ONES
    requires e.value == Decode(values[i]) && Storable(e.value)
    requires cfg.hasKeys ==> keys[i] != 0 && keys[i] != ALL_ONES && e.key == Decode(keys[i])
    ensures values[i := Encode(e.value)] == values && (cfg.hasKeys ==> keys[i := Encode(e.key)] == keys)
  {
  }

  // -------------------------------------------------------------- renumbering

  /** What an integer reads as after the pass: the successor or predecessor, as it comes back from its bucket. */
  function Renumber(v: u64, pivot: u64, up: bool): u64 {
    if up && pivot <= v then Decode(Encode((v + 1) % TWO_64))
    else if !up && pivot < v then Decode(Encode(v - 1))
    else v
  }

  function Renumbered(contents: map<Class, Entry>, pivot: u64, up: bool): map<Class, Entry> {
    map c | c in contents :: contents[c].(value := Renumber(contents[c].value, pivot, up))
  }

  lemma RenumberedKeys(contents: map<Class, Entry>, pivot: u64, up: bool)
    ensures Renumbered(contents, pivot, up).Keys == contents.Keys
  {
  }

  /** The pass has renumbered the buckets below `idx`. */
  ghost predicate RenumberedTo(was: map<Class, Entry>, now: map<Class, Entry>, place: map<Class, nat>, pivot: u64, up: bool,
    idx: nat)
  {
    && now.Keys == was.Keys == place.Keys
    && forall c :: c in now ==>
         now[c] == if place[c] < idx then was[c].(value := Renumber(was[c].value, pivot, up)) else was[c]
  }

  /** Live buckets stay live, and the others what they were. */
  ghost predicate SameMarks(values: seq<u64>, values': seq<u64>) {
    |values| == |values'| && forall i: nat :: i < |values| ==> SameMark(values[i], values'[i])
  }

  lemma StillFree(cfg: Config, values: seq<u64>, values': seq<u64>, keys: seq<u64>, counts: seq<nat>, width: nat,
    p: seq<nat>, i: nat)
    requires RawOk(cfg, values, keys, counts, width) && RawOk(cfg, values', keys, counts, width)
    requires SameMarks(values, values') && FreeOn(SlotsOf(cfg, values, keys, counts), p, i)
    ensures FreeOn(SlotsOf(cfg, values', keys, counts), p, i)
  {
    var slots, slots' := SlotsOf(cfg, values, keys, counts), SlotsOf(cfg, values', keys, counts);
    forall k: nat | k < |slots|
      ensures (slots'[k].Empty? <==> slots[k].Empty?) && (slots'[k].Full? <==> slots[k].Full?)
    {
      assert SameMark(values[k], values'[k]);
    }
    StillReached(slots, slots', p, i);
  }

  /** No entry placed below `idx` has the integer. */
  ghost predicate NotBelow(was: map<Class, Entry>, place: map<Class, nat>, pivot: u64, idx: nat) {
    was.Keys == place.Keys && forall c :: c in was && was[c].value == pivot ==> place[c] >= idx
  }

  /** The bucket the pass has come to still has its old integer. */
  lemma PivotHere(cfg: Config, values: seq<u64>, keys: seq<u64>, counts: seq<nat>, width: nat,
    was: map<Class, Entry>, now: map<Class, Entry>, place: map<Class, nat>, pivot: u64, up: bool, idx: nat)
    requires RawOk(cfg, values, keys, counts, width) && cfg.hasKeys && idx < |values|
    requires Table(SlotsOf(cfg, values, keys, counts), cfg.cls, cfg.probe, now, place)
    requires RenumberedTo(was, now, place, pivot, up, idx)
    ensures |keys| == |values|
    ensures if values[idx] != 0 && values[idx] != ALL_ONES then
        var c := cfg.cls(Decode(keys[idx]));
        && c in was && place[c] == idx && was[c].value == Decode(values[idx])
        && forall d :: d in place && place[d] == idx ==> d == c
      else forall d :: d in place ==> place[d] != idx
  {
    var slots := SlotsOf(cfg, values, keys, counts);
    SlotTells(cfg, values, keys, counts, width, idx);
    forall d | d in place && place[d] == idx
      ensures slots[idx].Full? && d == cfg.cls(Decode(keys[idx]))
    {
      assert Holds(slots, cfg.cls, d, now[d], place[d]);
    }
    if slots[idx].Full? {
      IsThere(slots, cfg.cls, cfg.probe, now, place, idx);
    }
  }

  lemma StartRenumbering(slots: seq<Slot>, cls: u64 -> Class, probe: ProbeFn, was: map<Class, Entry>,
    place: map<Class, nat>, pivot: u64, up: bool)
    requires Table(slots, cls, probe, was, place)
    ensures RenumberedTo(was, was, place, pivot, up, 0) && NotBelow(was, place, pivot, 0)
  {
  }

  lemma RenumberStorable(v: u64, pivot: u64, up: bool)
    requires Storable(v)
    ensures Storable(Renumber(v, pivot, up))
  {
  }

  /** The word written by the pass, or left alone by it, is the word of the renumbered value. */
  lemma RenumberEncodes(raw: u64, pivot: u64, up: bool)
    requires raw != 0 && raw != ALL_ONES
    ensures var v := Decode(raw);
      Encode(Renumber(v, pivot, up)) ==
        if up && pivot <= v then Encode((v + 1) % TWO_64) else if !up && pivot < v then Encode(v - 1) else raw
  {
  }

  lemma RenumberedNext(slots: seq<Slot>, cls: u64 -> Class, probe: ProbeFn, was: map<Class, Entry>, now: map<Class, Entry>,
    place: map<Class, nat>, pivot: u64, up: bool, idx: nat)
    requires Table(slots, cls, probe, now, place) && RenumberedTo(was, now, place, pivot, up, idx)
    requires idx < |slots| && slots[idx].Full?
    ensures var c := cls(slots[idx].key);
      c in now && RenumberedTo(was, now[c := now[c].(value := Renumber(now[c].value, pivot, up))], place, pivot, up, idx + 1)
  {
    hide Renumber;
    forall d | d in now
      ensures place[d] == idx ==> d == cls(slots[idx].key)
    {
      assert Holds(slots, cls, d, now[d], place[d]);
    }
  }

  lemma RenumberedSkip(slots: seq<Slot>, cls: u64 -> Class, probe: ProbeFn, was: map<Class, Entry>, now: map<Class, Entry>,
    place: map<Class, nat>, pivot: u64, up: bool, idx: nat)
    requires Table(slots, cls, probe, now, place) && RenumberedTo(was, now, place, pivot, up, idx)
    requires idx < |slots| && !slots[idx].Full?
    ensures RenumberedTo(was, now, place, pivot, up, idx + 1)
  {
    forall d | d in now
      ensures place[d] != idx
    {
      assert Holds(slots, cls, d, now[d], place[d]);
    }
  }

  lemma EntriesInRange(cfg: Config, values: seq<u64>, keys: seq<u64>, counts: seq<nat>, width: nat,
    contents: map<Class, Entry>, place: map<Class, nat>)
    requires RawOk(cfg, values, keys, counts, width)
    requires Table(SlotsOf(cfg, values, keys, counts), cfg.cls, cfg.probe, contents, place)
    ensures forall c :: c in place ==> place[c] < |values|
  {
    forall c | c in place
      ensures place[c] < |values|
    {
      assert Holds(SlotsOf(cfg, values, keys, counts), cfg.cls, c, contents[c], place[c]);
    }
  }

  lemma AllRenumbered(was: map<Class, Entry>, now: map<Class, Entry>, place: map<Class, nat>, pivot: u64, up: bool, n: nat)
    requires RenumberedTo(was, now, place, pivot, up, n) && forall c :: c in place ==> place[c] < n
    ensures now == Renumbered(was, pivot, up)
  {
    hide Renumber;
  }

  lemma ImportStorable(cfg: Config, key: u64, value: u64)
    requires cfg.Ok() && Storable(key) && Storable(value) && (!cfg.hasKeys ==> key == value)
    ensures var e := cfg.Imported(key, value, 1);
      Storable(e.key) && Storable(e.value) && e.count == 1 && (!cfg.hasKeys ==> e.key == e.value)
  {
  }

  lemma PathOk(cfg: Config, c: Class, idx: nat)
    requires cfg.Ok() && 0 < idx < 45
    ensures var n, p := TableSize(idx), cfg.probe(c, TableSize(idx));
      0 < n && |p| == n && (forall j: nat :: j < n ==> p[j] < n) && TableCapacity(idx) <= |Buckets(p)|
  {
    CapacityFits(idx);
  }

  /** The callbacks for emptying the table, bucket by bucket. */
  function EjectAll(cfg: Config, slots: seq<Slot>): seq<Event> {
    if slots == [] then []
    else
      var last := slots[|slots| - 1];
      EjectAll(cfg, slots[..|slots| - 1]) + if last.Full? then cfg.EjectEvents(EntryOf(last)) else []
  }

  lemma EjectNothing(cfg: Config, slots: seq<Slot>)
    ensures EjectAll(cfg, slots[..0]) == []
  {
  }

  lemma EjectNext(cfg: Config, slots: seq<Slot>, i: nat)
    requires i < |slots|
    ensures EjectAll(cfg, slots[..i + 1])
         == EjectAll(cfg, slots[..i]) + if slots[i].Full? then cfg.EjectEvents(EntryOf(slots[i])) else []
  {
    assert slots[..i + 1][..i] == slots[..i];
  }

  /** A table that never had stores has nothing in it. */
  lemma EmptyAtFirst(cfg: Config, slots: seq<Slot>, contents: map<Class, Entry>, place: map<Class, nat>, idx: nat)
    requires Table(slots, cfg.cls, cfg.probe, contents, place) && |slots| == TableSize(idx)
    ensures idx == 0 ==> slots == [] && contents == map[] && EjectAll(cfg, slots) == []
  {
    NothingIn(slots, cfg.cls, cfg.probe, contents, place);
  }

  lemma NothingStored(cfg: Config, width: nat)
    requires width < 4
    ensures RawOk(cfg, [], [], [], width) && Table(SlotsOf(cfg, [], [], []), cfg.cls, cfg.probe, map[], map[])
    ensures Fulls(SlotsOf(cfg, [], [], [])) == 0 && Tombstones(SlotsOf(cfg, [], [], [])) == 0
  {
    EmptyTable([], cfg.cls, cfg.probe);
    assert SlotsOf(cfg, [], [], []) == [];
  }

  // --------------------------------------------------------------------- copying

  /** A slot as its copy has it. */
  function ImportSlot(cfg: Config, s: Slot): Slot {
    if s.Full? then Full(if cfg.hasKeys then cfg.ImportKey(s.key) else cfg.ImportValue(s.value), cfg.ImportValue(s.value), s.count)
    else s
  }

  function ImportEntry(cfg: Config, e: Entry): Entry {
    EntryOf(ImportSlot(cfg, Full(e.key, e.value, e.count)))
  }

  function ImportedContents(cfg: Config, contents: map<Class, Entry>): map<Class, Entry> {
    map c | c in contents :: ImportEntry(cfg, contents[c])
  }

  function ImportAll(cfg: Config, slots: seq<Slot>): seq<Event> {
    if slots == [] then []
    else
      var last := slots[|slots| - 1];
      ImportAll(cfg, slots[..|slots| - 1]) + if last.Full? then cfg.ImportEvents(last.key, last.value) else []
  }

  lemma ImportNothing(cfg: Config, slots: seq<Slot>)
    ensures ImportAll(cfg, slots[..0]) == []
  {
  }

  lemma ImportNext(cfg: Config, slots: seq<Slot>, i: nat)
    requires i < |slots|
    ensures ImportAll(cfg, slots[..i + 1])
         == ImportAll(cfg, slots[..i]) + if slots[i].Full? then cfg.ImportEvents(slots[i].key, slots[i].value) else []
  {
    assert slots[..i + 1][..i] == slots[..i];
  }

  ghost predicate SlotsImported(cfg: Config, slots: seq<Slot>, slots': seq<Slot>) {
    |slots'| == |slots|
    && (forall i: nat :: i < |slots| ==> slots'[i] == ImportSlot(cfg, slots[i]))
    && (forall i: nat :: i < |slots| && slots[i].Full? && !cfg.hasKeys ==> slots[i].key == slots[i].value)
  }

  /** Slots imported where they are make a table of the imported entries, with the same tombstones. */
  lemma ImportedTable(cfg: Config, slots: seq<Slot>, slots': seq<Slot>, contents: map<Class, Entry>, place: map<Class, nat>)
    requires cfg.Ok() && Table(slots, cfg.cls, cfg.probe, contents, place) && SlotsImported(cfg, slots, slots')
    ensures Table(slots', cfg.cls, cfg.probe, ImportedContents(cfg, contents), place)
    ensures |ImportedContents(cfg, contents)| == |contents|
    ensures Fulls(slots') == Fulls(slots) && Tombstones(slots') == Tombstones(slots)
  {
    ImportedPlaced(cfg, slots, slots', contents, place);
    hide Placed, ImportSlot, Config.Ok;
    StillReachable(cfg, slots, slots', place);
    assert ImportedContents(cfg, contents).Keys == contents.Keys;
    SameTallies(cfg, slots, slots', |slots|);
    assert slots[..|slots|] == slots && slots'[..|slots|] == slots';
  }

  lemma ImportedPlaced(cfg: Config, slots: seq<Slot>, slots': seq<Slot>, contents: map<Class, Entry>, place: map<Class, nat>)
    requires cfg.Ok() && Placed(slots, cfg.cls, contents, place) && SlotsImported(cfg, slots, slots')
    ensures Placed(slots', cfg.cls, ImportedContents(cfg, contents), place)
  {
    hide ImportSlot, ImportEntry, Config.Ok, ImportedContents;
    ImportedAt(cfg, contents);
    var contents' := ImportedContents(cfg, contents);
    forall c | c in place
      ensures Holds(slots', cfg.cls, c, contents'[c], place[c])
    {
      assert Holds(slots, cfg.cls, c, contents[c], place[c]);
      ImportedSlot(cfg, slots[place[c]]);
    }
    forall i: nat | i < |slots'| && slots'[i].Full?
      ensures cfg.cls(slots'[i].key) in place && place[cfg.cls(slots'[i].key)] == i
    {
      ImportedSlot(cfg, slots[i]);
    }
  }

  lemma ImportedAt(cfg: Config, contents: map<Class, Entry>)
    ensures var contents' := ImportedContents(cfg, contents);
      contents'.Keys == contents.Keys && forall c :: c in contents ==> contents'[c] == ImportEntry(cfg, contents[c])
  {
  }

  /** Importing keeps the class of a key. */
  lemma ImportedSlot(cfg: Config, s: Slot)
    requires cfg.Ok() && (s.Full? && !cfg.hasKeys ==> s.key == s.value)
    ensures ImportSlot(cfg, s).Full? <==> s.Full?
    ensures s.Full? ==>
      && cfg.cls(ImportSlot(cfg, s).key) == cfg.cls(s.key)
      && ImportEntry(cfg, EntryOf(s)) == EntryOf(ImportSlot(cfg, s))
  {
  }

  lemma StillReachable(cfg: Config, slots: seq<Slot>, slots': seq<Slot>, place: map<Class, nat>)
    requires Reachable(slots, cfg.probe, place) && SlotsImported(cfg, slots, slots')
    ensures Reachable(slots', cfg.probe, place)
  {
    forall c | c in place
      ensures Reached(slots', cfg.probe(c, |slots|), place[c])
    {
      StillReached(slots, slots', cfg.probe(c, |slots|), place[c]);
    }
  }

  lemma {:induction false} SameTallies(cfg: Config, slots: seq<Slot>, slots': seq<Slot>, n: nat)
    requires SlotsImported(cfg, slots, slots') && n <= |slots|
    ensures Fulls(slots'[..n]) == Fulls(slots[..n]) && Tombstones(slots'[..n]) == Tombstones(slots[..n])
  {
    if n > 0 {
      SameTallies(cfg, slots, slots', n - 1);
      assert slots'[n - 1] == ImportSlot(cfg, slots[n - 1]);
      assert slots[..n][..n - 1] == slots[..n - 1] && slots'[..n][..n - 1] == slots'[..n - 1];
    }
  }

  /** A bucket of the copy: marks as they are, live words imported. */
  ghost predicate BucketCopied(cfg: Config, value: u64, key: u64, value': u64, key': u64) {
    if value == 0 || value == ALL_ONES then value' == value && (cfg.hasKeys ==> key' == value)
    else value' == Encode(cfg.ImportValue(Decode(value))) && (cfg.hasKeys ==> key' == Encode(cfg.ImportKey(Decode(key))))
  }

  lemma CopiedStores(cfg: Config, values: seq<u64>, keys: seq<u64>, counts: seq<nat>, width: nat,
    values': seq<u64>, keys': seq<u64>)
    requires cfg.Ok() && RawOk(cfg, values, keys, counts, width) && |values'| == |values|
    requires cfg.hasKeys ==> |keys'| == |values|
    requires forall i: nat :: i < |values| ==>
      BucketCopied(cfg, values[i], if cfg.hasKeys then keys[i] else 0, values'[i], if cfg.hasKeys then keys'[i] else 0)
    ensures RawOk(cfg, values', keys', counts, width)
    ensures SlotsImported(cfg, SlotsOf(cfg, values, keys, counts), SlotsOf(cfg, values', keys', counts))
  {
    var slots, slots' := SlotsOf(cfg, values, keys, counts), SlotsOf(cfg, values', keys', counts);
    forall i: nat | i < |values|
      ensures slots'[i] == ImportSlot(cfg, slots[i]) && (cfg.hasKeys ==> SameMark(values'[i], keys'[i]))
      ensures cfg.hasCounts ==> CountOk(values'[i], counts[i], width)
      ensures slots[i].Full? && !cfg.hasKeys ==> slots[i].key == slots[i].value
    {
      SlotTells(cfg, values, keys, counts, width, i);
      ImportsStorable(cfg, slots[i]);
      if cfg.hasCounts {
        assert CountOk(values[i], counts[i], width);
      }
    }
  }

  lemma ImportsStorable(cfg: Config, s: Slot)
    requires cfg.Ok() && (s.Full? ==> Storable(s.key) && Storable(s.value))
    ensures s.Full? ==> Storable(cfg.ImportValue(s.value)) && Storable(cfg.ImportKey(s.key))
  {
  }
}
