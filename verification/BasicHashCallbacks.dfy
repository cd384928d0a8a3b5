/** Retain and release callbacks come in balance: what a table has retained and not yet released is what it holds. */
module BasicHashCallbacks {
  import opened Bytes
  import opened BasicHashTable
  import opened BasicHashStores

  /** What one callback does to the references the table has to object `x`, as a key or as a value. */
  function Delta(cfg: Config, ev: Event, ofKeys: bool, x: u64): int {
    match ev
    case RetainedValue(v) => if !ofKeys && cfg.ImportValue(v) == x then 1 else 0
    case RetainedKey(k) => if ofKeys && cfg.ImportKey(k) == x then 1 else 0
    case ReleasedValue(v) => if !ofKeys && v == x then -1 else 0
    case ReleasedKey(k) => if ofKeys && k == x then -1 else 0
  }

  /** Retains that gave `x`, less releases of it. */
  function Held(cfg: Config, log: seq<Event>, ofKeys: bool, x: u64): int {
    if log == [] then 0 else Held(cfg, log[..|log| - 1], ofKeys, x) + Delta(cfg, log[|log| - 1], ofKeys, x)
  }

  function Part(e: Entry, ofKeys: bool): u64 {
    if ofKeys then e.key else e.value
  }

  /** The classes whose entry has `x` as its key, or as its value. */
  function With(contents: map<Class, Entry>, ofKeys: bool, x: u64): set<Class> {
    set c | c in contents && Part(contents[c], ofKeys) == x
  }

  predicate Retains(cfg: Config, ofKeys: bool) {
    if ofKeys then cfg.hasKeys && cfg.retainKey.Some? else cfg.retainValue.Some?
  }

  predicate Releases(cfg: Config, ofKeys: bool) {
    if ofKeys then cfg.hasKeys && cfg.releaseKey else cfg.releaseValue
  }

  /** Only callbacks the table was created with are made. */
  predicate Configured(cfg: Config, ev: Event) {
    match ev
    case RetainedValue(_) => cfg.retainValue.Some?
    case RetainedKey(_) => cfg.hasKeys && cfg.retainKey.Some?
    case ReleasedValue(_) => cfg.releaseValue
    case ReleasedKey(_) => cfg.hasKeys && cfg.releaseKey
  }

  /**
   * Every object is retained at least once for each of its places in the table, and if there is a release callback
   * too, exactly so.
   */
  ghost predicate Balanced(cfg: Config, log: seq<Event>, contents: map<Class, Entry>) {
    && (forall ev :: ev in log ==> Configured(cfg, ev))
    && forall ofKeys, x :: Retains(cfg, ofKeys) ==> Owed(cfg, log, contents, ofKeys, x)
  }

  ghost predicate Owed(cfg: Config, log: seq<Event>, contents: map<Class, Entry>, ofKeys: bool, x: u64) {
    && |With(contents, ofKeys, x)| <= Held(cfg, log, ofKeys, x)
    && (Releases(cfg, ofKeys) ==> Held(cfg, log, ofKeys, x) == |With(contents, ofKeys, x)|)
  }

  /** What is stored: what the retain callbacks give, and without one the word itself. A set stores its values as keys. */
  lemma StoredExactly(cfg: Config, key: u64, value: u64, count: nat)
    requires cfg.Ok() && (!cfg.hasKeys ==> key == value)
    ensures var e := cfg.Imported(key, value, count);
      && e.count == count && (!cfg.hasKeys ==> e.key == e.value)
      && e.value == (match cfg.retainValue case Some(f) => f(value) case None => value)
      && (cfg.hasKeys ==> e.key == match cfg.retainKey case Some(f) => f(key) case None => key)
  {
    hide Config.Ok;
  }

  /** Which callbacks are made, and that the one for the value comes first. */
  lemma CalledExactly(cfg: Config, key: u64, value: u64, e: Entry)
    ensures var keyToo := cfg.hasKeys && cfg.retainKey.Some?;
      cfg.ImportEvents(key, value) ==
        if cfg.retainValue.Some? && keyToo then [RetainedValue(value), RetainedKey(key)]
        else if cfg.retainValue.Some? then [RetainedValue(value)]
        else if keyToo then [RetainedKey(key)] else []
    ensures var keyToo := cfg.hasKeys && cfg.releaseKey;
      cfg.EjectEvents(e) ==
        if cfg.releaseValue && keyToo then [ReleasedValue(e.value), ReleasedKey(e.key)]
        else if cfg.releaseValue then [ReleasedValue(e.value)]
        else if keyToo then [ReleasedKey(e.key)] else []
  {
  }

  lemma {:induction false} HeldConcat(cfg: Config, a: seq<Event>, b: seq<Event>, ofKeys: bool, x: u64)
    ensures Held(cfg, a + b, ofKeys, x) == Held(cfg, a, ofKeys, x) + Held(cfg, b, ofKeys, x)
  {
    if b == [] {
      assert a + b == a;
    } else {
      HeldConcat(cfg, a, b[..|b| - 1], ofKeys, x);
      assert (a + b)[..|a + b| - 1] == a + b[..|b| - 1];
    }
  }

  /** The callbacks for a pair coming in retain exactly what is stored. */
  lemma ImportHeld(cfg: Config, key: u64, value: u64, count: nat, ofKeys: bool, x: u64)
    requires cfg.Ok() && (!cfg.hasKeys ==> key == value) && Retains(cfg, ofKeys)
    ensures Held(cfg, cfg.ImportEvents(key, value), ofKeys, x)
         == if Part(cfg.Imported(key, value, count), ofKeys) == x then 1 else 0
  {
    hide Config.Ok;
    var value' := if cfg.retainValue.Some? then [RetainedValue(value)] else [];
    var key' := if cfg.hasKeys && cfg.retainKey.Some? then [RetainedKey(key)] else [];
    HeldConcat(cfg, value', key', ofKeys, x);
    assert value' + key' == cfg.ImportEvents(key, value);
  }

  /** And those for an entry going out release exactly what was stored. */
  lemma EjectHeld(cfg: Config, e: Entry, ofKeys: bool, x: u64)
    ensures Held(cfg, cfg.EjectEvents(e), ofKeys, x) == if Releases(cfg, ofKeys) && Part(e, ofKeys) == x then -1 else 0
  {
    var value' := if cfg.releaseValue then [ReleasedValue(e.value)] else [];
    var key' := if cfg.hasKeys && cfg.releaseKey then [ReleasedKey(e.key)] else [];
    HeldConcat(cfg, value', key', ofKeys, x);
    assert value' + key' == cfg.EjectEvents(e);
  }

  /** An entry is one place. */
  lemma WithOut(contents: map<Class, Entry>, c: Class, ofKeys: bool, x: u64)
    requires c in contents
    ensures |With(contents, ofKeys, x)|
         == |With(contents - {c}, ofKeys, x)| + if Part(contents[c], ofKeys) == x then 1 else 0
  {
    var rest := With(contents - {c}, ofKeys, x);
    assert With(contents, ofKeys, x) == if Part(contents[c], ofKeys) == x then rest + {c} else rest;
  }

  /** A pair added. */
  lemma BalancedAdd(cfg: Config, log: seq<Event>, contents: map<Class, Entry>, key: u64, value: u64)
    requires cfg.Ok() && (!cfg.hasKeys ==> key == value) && Balanced(cfg, log, contents) && cfg.cls(key) !in contents
    ensures Balanced(cfg, log + cfg.ImportEvents(key, value), contents[cfg.cls(key) := cfg.Imported(key, value, 1)])
  {
    hide Held, With, Part;
    var c, events := cfg.cls(key), cfg.ImportEvents(key, value);
    var after := contents[c := cfg.Imported(key, value, 1)];
    assert after - {c} == contents;
    forall ofKeys, x | Retains(cfg, ofKeys)
      ensures Owed(cfg, log + events, after, ofKeys, x)
    {
      assert Owed(cfg, log, contents, ofKeys, x);
      HeldConcat(cfg, log, events, ofKeys, x);
      ImportHeld(cfg, key, value, 1, ofKeys, x);
      WithOut(after, c, ofKeys, x);
    }
  }

  /** A pair put in the place of another. */
  lemma BalancedReplace(cfg: Config, log: seq<Event>, contents: map<Class, Entry>, key: u64, value: u64)
    requires cfg.Ok() && (!cfg.hasKeys ==> key == value) && Balanced(cfg, log, contents) && cfg.cls(key) in contents
    ensures var e := contents[cfg.cls(key)];
      Balanced(cfg, log + cfg.ImportEvents(key, value) + cfg.EjectEvents(e),
               contents[cfg.cls(key) := cfg.Imported(key, value, e.count)])
  {
    hide Held, With, Part;
    var c := cfg.cls(key);
    var e, incoming, outgoing := contents[c], cfg.ImportEvents(key, value), cfg.EjectEvents(contents[c]);
    var after := contents[c := cfg.Imported(key, value, e.count)];
    assert after - {c} == contents - {c};
    forall ofKeys, x | Retains(cfg, ofKeys)
      ensures Owed(cfg, log + incoming + outgoing, after, ofKeys, x)
    {
      assert Owed(cfg, log, contents, ofKeys, x);
      HeldConcat(cfg, log, incoming, ofKeys, x);
      HeldConcat(cfg, log + incoming, outgoing, ofKeys, x);
      ImportHeld(cfg, key, value, e.count, ofKeys, x);
      EjectHeld(cfg, e, ofKeys, x);
      WithOut(after, c, ofKeys, x);
      WithOut(contents, c, ofKeys, x);
    }
  }

  /** An entry taken out. */
  lemma BalancedRemove(cfg: Config, log: seq<Event>, contents: map<Class, Entry>, c: Class)
    requires Balanced(cfg, log, contents) && c in contents
    ensures Balanced(cfg, log + cfg.EjectEvents(contents[c]), contents - {c})
  {
    hide Held, With, Part;
    var events := cfg.EjectEvents(contents[c]);
    forall ofKeys, x | Retains(cfg, ofKeys)
      ensures Owed(cfg, log + events, contents - {c}, ofKeys, x)
    {
      assert Owed(cfg, log, contents, ofKeys, x);
      HeldConcat(cfg, log, events, ofKeys, x);
      EjectHeld(cfg, contents[c], ofKeys, x);
      WithOut(contents, c, ofKeys, x);
    }
  }

  /** The same keys and values with other counts; or other values, in a table that retains none. */
  lemma BalancedSame(cfg: Config, log: seq<Event>, contents: map<Class, Entry>, after: map<Class, Entry>)
    requires Balanced(cfg, log, contents) && after.Keys == contents.Keys
    requires forall c :: c in contents ==> after[c].key == contents[c].key
    requires cfg.retainValue.Some? ==> forall c :: c in contents ==> after[c].value == contents[c].value
    ensures Balanced(cfg, log, after)
  {
    hide Held;
    forall ofKeys, x | Retains(cfg, ofKeys)
      ensures Owed(cfg, log, after, ofKeys, x)
    {
      assert Owed(cfg, log, contents, ofKeys, x);
      assert With(after, ofKeys, x) == With(contents, ofKeys, x);
    }
  }

  /** Integers are renumbered without a callback, in tables that retain only keys. */
  lemma BalancedRenumbered(cfg: Config, log: seq<Event>, contents: map<Class, Entry>, pivot: u64, up: bool)
    requires Balanced(cfg, log, contents) && cfg.retainValue.None?
    ensures Balanced(cfg, log, Renumbered(contents, pivot, up))
  {
    hide Balanced, Renumber;
    BalancedSame(cfg, log, contents, Renumbered(contents, pivot, up));
  }

  // ------------------------------------------------------------ whole tables

  function EntriesIn(slots: seq<Slot>, ofKeys: bool, x: u64): nat {
    if slots == [] then 0
    else
      var last := slots[|slots| - 1];
      EntriesIn(slots[..|slots| - 1], ofKeys, x) + if last.Full? && Part(EntryOf(last), ofKeys) == x then 1 else 0
  }

  /** The entries placed in the first `n` buckets. */
  function Below(contents: map<Class, Entry>, place: map<Class, nat>, n: nat): map<Class, Entry> {
    map c | c in contents && c in place && place[c] < n :: contents[c]
  }

  /** The buckets hold as many entries with an object as the contents. */
  lemma {:induction false} EntriesBelow(slots: seq<Slot>, cls: u64 -> Class, contents: map<Class, Entry>,
    place: map<Class, nat>, n: nat, ofKeys: bool, x: u64)
    requires Placed(slots, cls, contents, place) && n <= |slots|
    ensures EntriesIn(slots[..n], ofKeys, x) == |With(Below(contents, place, n), ofKeys, x)|
  {
    if n > 0 {
      EntriesBelow(slots, cls, contents, place, n - 1, ofKeys, x);
      assert slots[..n][..n - 1] == slots[..n - 1];
      OneMoreBucket(slots, cls, contents, place, n - 1);
      hide Placed, Part, With, Below;
      if slots[n - 1].Full? {
        var c := cls(slots[n - 1].key);
        WithOut(Below(contents, place, n), c, ofKeys, x);
      }
    } else {
      assert slots[..0] == [];
      assert With(Below(contents, place, 0), ofKeys, x) == {};
    }
  }

  lemma OneMoreBucket(slots: seq<Slot>, cls: u64 -> Class, contents: map<Class, Entry>, place: map<Class, nat>, n: nat)
    requires Placed(slots, cls, contents, place) && n < |slots|
    ensures if slots[n].Full? then
        var c := cls(slots[n].key);
        && c in Below(contents, place, n + 1) && Below(contents, place, n + 1)[c] == EntryOf(slots[n])
        && Below(contents, place, n + 1) - {c} == Below(contents, place, n)
      else Below(contents, place, n + 1) == Below(contents, place, n)
  {
    forall c | c in place && place[c] == n
      ensures slots[n].Full? && c == cls(slots[n].key)
    {
      assert Holds(slots, cls, c, contents[c], n);
    }
    if slots[n].Full? {
      var c := cls(slots[n].key);
      assert Holds(slots, cls, c, contents[c], n);
    }
  }

  lemma EntriesAll(slots: seq<Slot>, cls: u64 -> Class, contents: map<Class, Entry>, place: map<Class, nat>,
    ofKeys: bool, x: u64)
    requires Placed(slots, cls, contents, place)
    ensures EntriesIn(slots, ofKeys, x) == |With(contents, ofKeys, x)|
  {
    EntriesBelow(slots, cls, contents, place, |slots|, ofKeys, x);
    assert slots[..|slots|] == slots;
    forall c | c in place
      ensures place[c] < |slots|
    {
      assert Holds(slots, cls, c, contents[c], place[c]);
    }
    assert Below(contents, place, |slots|) == contents;
  }

  lemma {:induction false} EjectAllHeld(cfg: Config, slots: seq<Slot>, n: nat, ofKeys: bool, x: u64)
    requires n <= |slots|
    ensures Held(cfg, EjectAll(cfg, slots[..n]), ofKeys, x)
         == if Releases(cfg, ofKeys) then 0 - EntriesIn(slots[..n], ofKeys, x) else 0
  {
    hide Config.EjectEvents, Part;
    if n == 0 {
      assert slots[..0] == [];
    } else {
      EjectAllHeld(cfg, slots, n - 1, ofKeys, x);
      EjectNext(cfg, slots, n - 1);
      NextBucket(slots, n - 1, ofKeys, x);
      hide Held, EjectAll, EntriesIn;
      var s := slots[n - 1];
      if s.Full? {
        EjectHeld(cfg, EntryOf(s), ofKeys, x);
        HeldConcat(cfg, EjectAll(cfg, slots[..n - 1]), cfg.EjectEvents(EntryOf(s)), ofKeys, x);
      } else {
        assert EjectAll(cfg, slots[..n]) == EjectAll(cfg, slots[..n - 1]);
      }
    }
  }

  lemma NextBucket(slots: seq<Slot>, n: nat, ofKeys: bool, x: u64)
    requires n < |slots|
    ensures var s := slots[n];
      EntriesIn(slots[..n + 1], ofKeys, x)
        == EntriesIn(slots[..n], ofKeys, x) + if s.Full? && Part(EntryOf(s), ofKeys) == x then 1 else 0
  {
    assert slots[..n + 1][..n] == slots[..n];
  }

  lemma {:induction false} EjectsConfigured(cfg: Config, slots: seq<Slot>)
    ensures forall ev :: ev in EjectAll(cfg, slots) ==> Configured(cfg, ev)
  {
    if slots != [] {
      EjectsConfigured(cfg, slots[..|slots| - 1]);
    }
  }

  /** Everything taken out. */
  lemma BalancedEmpty(cfg: Config, log: seq<Event>, slots: seq<Slot>, contents: map<Class, Entry>, place: map<Class, nat>)
    requires Balanced(cfg, log, contents) && Table(slots, cfg.cls, cfg.probe, contents, place)
    ensures Balanced(cfg, log + EjectAll(cfg, slots), map[])
  {
    hide Held, EjectAll, EntriesIn, Part, Placed, Reachable;
    EjectsConfigured(cfg, slots);
    assert slots[..|slots|] == slots;
    forall ofKeys, x | Retains(cfg, ofKeys)
      ensures Owed(cfg, log + EjectAll(cfg, slots), map[], ofKeys, x)
    {
      assert Owed(cfg, log, contents, ofKeys, x);
      HeldConcat(cfg, log, EjectAll(cfg, slots), ofKeys, x);
      EjectAllHeld(cfg, slots, |slots|, ofKeys, x);
      EntriesAll(slots, cfg.cls, contents, place, ofKeys, x);
      assert With(map[], ofKeys, x) == {};
    }
  }

  lemma {:induction false} ImportAllHeld(cfg: Config, slots: seq<Slot>, slots': seq<Slot>, n: nat, ofKeys: bool, x: u64)
    requires cfg.Ok() && SlotsImported(cfg, slots, slots') && n <= |slots| && Retains(cfg, ofKeys)
    ensures Held(cfg, ImportAll(cfg, slots[..n]), ofKeys, x) == EntriesIn(slots'[..n], ofKeys, x)
  {
    hide Config.Ok, Config.ImportEvents;
    if n == 0 {
      assert slots[..0] == [] && slots'[..0] == [];
    } else {
      ImportAllHeld(cfg, slots, slots', n - 1, ofKeys, x);
      ImportNext(cfg, slots, n - 1);
      NextBucket(slots', n - 1, ofKeys, x);
      hide Held, ImportAll, EntriesIn;
      var s := slots[n - 1];
      assert slots'[n - 1] == ImportSlot(cfg, s);
      if s.Full? {
        ImportHeld(cfg, s.key, s.value, s.count, ofKeys, x);
        HeldConcat(cfg, ImportAll(cfg, slots[..n - 1]), cfg.ImportEvents(s.key, s.value), ofKeys, x);
      } else {
        assert ImportAll(cfg, slots[..n]) == ImportAll(cfg, slots[..n - 1]);
      }
    }
  }

  lemma {:induction false} ImportsConfigured(cfg: Config, slots: seq<Slot>)
    ensures forall ev :: ev in ImportAll(cfg, slots) ==> Configured(cfg, ev)
  {
    if slots != [] {
      ImportsConfigured(cfg, slots[..|slots| - 1]);
    }
  }

  /** A copy has retained what it holds. */
  lemma BalancedCopy(cfg: Config, slots: seq<Slot>, slots': seq<Slot>, contents': map<Class, Entry>, place: map<Class, nat>)
    requires cfg.Ok() && SlotsImported(cfg, slots, slots') && Table(slots', cfg.cls, cfg.probe, contents', place)
    ensures Balanced(cfg, ImportAll(cfg, slots), contents')
  {
    hide Held, EntriesIn, Part, Placed, Reachable, Config.Ok, ImportAll, SlotsImported;
    ImportsConfigured(cfg, slots);
    forall ofKeys, x | Retains(cfg, ofKeys)
      ensures Owed(cfg, ImportAll(cfg, slots), contents', ofKeys, x)
    {
      ImportedWhole(cfg, slots, slots', ofKeys, x);
      EntriesAll(slots', cfg.cls, contents', place, ofKeys, x);
    }
  }

  lemma ImportedWhole(cfg: Config, slots: seq<Slot>, slots': seq<Slot>, ofKeys: bool, x: u64)
    requires cfg.Ok() && SlotsImported(cfg, slots, slots') && Retains(cfg, ofKeys)
    ensures Held(cfg, ImportAll(cfg, slots), ofKeys, x) == EntriesIn(slots', ofKeys, x)
  {
    ImportAllHeld(cfg, slots, slots', |slots|, ofKeys, x);
    assert slots[..|slots|] == slots && slots'[..|slots|] == slots';
  }
}
