/** The binary heap of CFBinaryHeap.c. */
module BinaryHeap {
  import opened Bytes
  import opened Comparators
  import opened ArrayDeque

  // ------------------------------------------------------------------ heap order

  function Parent(i: nat): nat
    requires i > 0
  {
    (i - 1) / 2
  }

  ghost predicate Below(cmp: (Ref, Ref) -> int, s: seq<Ref>, i: nat)
    requires i < |s|
  {
    i > 0 ==> cmp(s[Parent(i)], s[i]) <= 0
  }

  ghost predicate HeapOrdered(cmp: (Ref, Ref) -> int, s: seq<Ref>) {
    forall i: nat :: i < |s| ==> Below(cmp, s, i)
  }

  /** No item is greater than its two children, at twice its index plus one and two. */
  lemma HeapChildren(cmp: (Ref, Ref) -> int, s: seq<Ref>)
    ensures HeapOrdered(cmp, s) <==>
      && (forall i: nat :: 2 * i + 1 < |s| ==> cmp(s[i], s[2 * i + 1]) <= 0)
      && (forall i: nat :: 2 * i + 2 < |s| ==> cmp(s[i], s[2 * i + 2]) <= 0)
  {
    if HeapOrdered(cmp, s) {
      forall i: nat | 2 * i + 1 < |s|
        ensures cmp(s[i], s[2 * i + 1]) <= 0 && (2 * i + 2 < |s| ==> cmp(s[i], s[2 * i + 2]) <= 0)
      {
        assert Below(cmp, s, 2 * i + 1) && Parent(2 * i + 1) == i;
        assert 2 * i + 2 < |s| ==> Below(cmp, s, 2 * i + 2) && Parent(2 * i + 2) == i;
      }
    } else {
      var i: nat :| i < |s| && !Below(cmp, s, i);
      assert i == 2 * Parent(i) + 1 || i == 2 * Parent(i) + 2;
    }
  }

  /** The first item is a least one. */
  lemma {:induction false} RootIsLeast(cmp: (Ref, Ref) -> int, s: seq<Ref>, i: nat)
    requires Ordering(cmp) && HeapOrdered(cmp, s) && i < |s|
    ensures cmp(s[0], s[i]) <= 0
  {
    if i == 0 {
      Opposite(cmp, s[0], s[0]);
    } else {
      RootIsLeast(cmp, s, Parent(i));
      assert Below(cmp, s, i);
      Transitive(cmp, s[0], s[Parent(i)], s[i]);
    }
  }

  /** What is in a sequence, in whatever order. */
  ghost function Bag(s: seq<Ref>): multiset<Ref> {
    multiset(s)
  }

  /** A sequence with its gap at `i` filled. */
  function Filled(s: seq<Ref>, i: nat, value: Ref): (r: seq<Ref>)
    requires i < |s|
    ensures |r| == |s| && r[i] == value && forall j: nat :: j < |s| && j != i ==> r[j] == s[j]
  {
    s[i := value]
  }

  function Exchanged(s: seq<Ref>, i: nat, j: nat): seq<Ref>
    requires i < |s| && j < |s|
  {
    s[i := s[j]][j := s[i]]
  }

  lemma ExchangedSame(s: seq<Ref>, i: nat, j: nat)
    requires i < |s| && j < |s|
    ensures Bag(Exchanged(s, i, j)) == Bag(s)
  {
  }

  /** Heap order but for the item at `idx`, which may be less than those above it. */
  ghost predicate Rising(cmp: (Ref, Ref) -> int, s: seq<Ref>, idx: nat) {
    && idx < |s|
    && (forall i: nat :: i < |s| && i != idx ==> Below(cmp, s, i))
    && (forall i: nat :: 0 < i < |s| && Parent(i) == idx && idx > 0 ==> cmp(s[Parent(idx)], s[i]) <= 0)
  }

  lemma Risen(cmp: (Ref, Ref) -> int, s: seq<Ref>, idx: nat)
    requires Rising(cmp, s, idx) && Below(cmp, s, idx)
    ensures HeapOrdered(cmp, s)
  {
  }

  lemma RiseStep(cmp: (Ref, Ref) -> int, s: seq<Ref>, idx: nat)
    requires Ordering(cmp) && Rising(cmp, s, idx) && idx > 0 && cmp(s[Parent(idx)], s[idx]) > 0
    ensures Rising(cmp, Exchanged(s, idx, Parent(idx)), Parent(idx))
  {
    hide Exchanged, Ordering, Below;
    var p := Parent(idx);
    forall i: nat | i < |s| && i != p
      ensures i < |Exchanged(s, idx, p)| && Below(cmp, Exchanged(s, idx, p), i)
    {
      RiseBelow(cmp, s, idx, i);
    }
    forall i: nat | 0 < i < |s| && Parent(i) == p && p > 0
      ensures i < |Exchanged(s, idx, p)| && cmp(Exchanged(s, idx, p)[Parent(p)], Exchanged(s, idx, p)[i]) <= 0
    {
      RiseAbove(cmp, s, idx, i);
    }
    SameSize(s, idx, p);
  }

  lemma SameSize(s: seq<Ref>, i: nat, j: nat)
    requires i < |s| && j < |s|
    ensures |Exchanged(s, i, j)| == |s|
  {
  }

  lemma RiseBelow(cmp: (Ref, Ref) -> int, s: seq<Ref>, idx: nat, i: nat)
    requires Ordering(cmp) && Rising(cmp, s, idx) && idx > 0 && cmp(s[Parent(idx)], s[idx]) > 0
    requires i < |s| && i != Parent(idx)
    ensures i < |Exchanged(s, idx, Parent(idx))| && Below(cmp, Exchanged(s, idx, Parent(idx)), i)
  {
    var p := Parent(idx);
    Opposite(cmp, s[idx], s[p]);
    assert i != idx ==> Below(cmp, s, i);
    if i > 0 && i != idx && Parent(i) == p {
      Transitive(cmp, s[idx], s[p], s[i]);
    }
    hide Ordering;
  }

  lemma RiseAbove(cmp: (Ref, Ref) -> int, s: seq<Ref>, idx: nat, i: nat)
    requires Ordering(cmp) && Rising(cmp, s, idx) && idx > 0 && cmp(s[Parent(idx)], s[idx]) > 0
    requires 0 < i < |s| && Parent(i) == Parent(idx) > 0
    ensures var t := Exchanged(s, idx, Parent(idx)); i < |t| && cmp(t[Parent(Parent(idx))], t[i]) <= 0
  {
    var p := Parent(idx);
    assert Below(cmp, s, p);
    if i != idx {
      assert Below(cmp, s, i);
      Transitive(cmp, s[Parent(p)], s[p], s[i]);
    }
    hide Ordering;
  }

  /** Heap order but for the item at `idx`, which may be greater than those below it. */
  ghost predicate Sinking(cmp: (Ref, Ref) -> int, s: seq<Ref>, idx: nat) {
    && idx < |s|
    && (forall i: nat :: 0 < i < |s| && Parent(i) != idx ==> Below(cmp, s, i))
    && (forall i: nat :: 0 < i < |s| && Parent(i) == idx && idx > 0 ==> cmp(s[Parent(idx)], s[i]) <= 0)
  }

  lemma Sunk(cmp: (Ref, Ref) -> int, s: seq<Ref>, idx: nat)
    requires Sinking(cmp, s, idx) && forall i: nat :: 0 < i < |s| && Parent(i) == idx ==> cmp(s[idx], s[i]) <= 0
    ensures HeapOrdered(cmp, s)
  {
  }

  lemma SinkStep(cmp: (Ref, Ref) -> int, s: seq<Ref>, idx: nat, c: nat)
    requires Ordering(cmp) && Sinking(cmp, s, idx) && 0 < c < |s| && Parent(c) == idx && cmp(s[c], s[idx]) <= 0
    requires forall i: nat :: 0 < i < |s| && Parent(i) == idx ==> cmp(s[c], s[i]) <= 0
    ensures Sinking(cmp, Exchanged(s, idx, c), c)
  {
    hide Ordering;
    var t := Exchanged(s, idx, c);
    forall i: nat | 0 < i < |s| && Parent(i) != c
      ensures Below(cmp, t, i)
    {
      assert Parent(i) != idx ==> Below(cmp, s, i);
    }
    forall i: nat | 0 < i < |s| && Parent(i) == c
      ensures cmp(t[Parent(c)], t[i]) <= 0
    {
      assert Below(cmp, s, i);
    }
  }

  /** An item replaced by an equivalent one. */
  lemma EquivalentItem(cmp: (Ref, Ref) -> int, s: seq<Ref>, idx: nat, x: Ref)
    requires Ordering(cmp) && HeapOrdered(cmp, s) && idx < |s| && cmp(x, s[idx]) == 0
    ensures HeapOrdered(cmp, s[idx := x])
  {
    var t := s[idx := x];
    Opposite(cmp, x, s[idx]);
    forall i: nat | i < |s|
      ensures Below(cmp, t, i)
    {
      assert Below(cmp, s, i);
      if i > 0 {
        Transitive(cmp, s[Parent(i)], s[i], x);
        Transitive(cmp, x, s[idx], s[i]);
        Opposite(cmp, x, x);
      }
    }
  }

  // --------------------------------------------------------------------- the heap

  class Heap {
    const cmp: (Ref, Ref) -> int
    const cb: Callbacks
    var count: nat
    var buckets: array<Ref>      // its length is the capacity
    var log: seq<Event>

    /** The comparison is a total preorder, and retaining gives an equivalent object. */
    ghost predicate Configured() {
      Ordering(cmp) && (cb.retain.Some? ==> forall v :: cmp(cb.retain.value(v), v) == 0)
    }

    ghost predicate Valid()
      reads this, buckets
    {
      && Configured() && count <= buckets.Length <= 0x4000_0000 && buckets.Length % 2 == 0
      && HeapOrdered(cmp, buckets[..count])
    }

    ghost function Items(): multiset<Ref>
      requires count <= buckets.Length
      reads this, buckets
    {
      Bag(buckets[..count])
    }

    constructor (cmp: (Ref, Ref) -> int, cb: Callbacks)
      requires Ordering(cmp) && (cb.retain.Some? ==> forall v :: cmp(cb.retain.value(v), v) == 0)
      ensures Valid() && Items() == multiset{} && fresh(buckets) && this.cmp == cmp && this.cb == cb && log == []
      ensures count == 0
    {
      this.cmp, this.cb, count, log := cmp, cb, 0, [];
      buckets := new Ref[4];
    }

    function Kept(value: Ref): Ref {
      if cb.retain.Some? then cb.retain.value(value) else value
    }

    /** __CFBinaryHeapGrow keeps every item where it is. */
    method Grow()
      requires Valid() && count == buckets.Length && count < 0x4000_0000
      modifies this`buckets
      ensures Valid() && fresh(buckets) && count < buckets.Length && buckets[..count] == old(buckets[..count])
      ensures ShiftDefined(count + 1) && buckets.Length == RoundUpCapacity(count + 1)
    {
      ShiftLimit(count + 1);
      RoundUpEven(count + 1);
      var capacity := RoundUpCapacity(count + 1);
      hide HeapOrdered, Ordering, RoundUpCapacity;
      ghost var s := buckets[..count];
      var grown := new Ref[capacity];
      forall i | 0 <= i < count {
        grown[i] := buckets[i];
      }
      assert grown[..count] == s;
      buckets := grown;
    }

    /** CFBinaryHeapAddValue: the items change by exactly the value added, and the heap order stays. */
    method AddValue(value: Ref)
      requires Valid() && count < 0x4000_0000
      modifies this`count, this`buckets, this`log, buckets
      ensures Valid() && (buckets == old(buckets) || fresh(buckets))
      ensures count == old(count) + 1
      ensures Items() == old(Items()) + multiset{match cb.retain case Some(f) => f(value) case None => value}
      ensures log == old(log) + if cb.retain.Some? then [Retained(value)] else []
    {
      hide HeapOrdered, Configured, Bag, Filled;
      if count == buckets.Length {
        Grow();
      }
      var idx := SiftUp(value);
      EquivalentKept(buckets[..count + 1], idx, value, old(Items()));
      count := count + 1;
      if cb.retain.Some? {
        log := log + [Retained(value)];
      }
      Put(buckets, count, idx, Kept(value));
    }

    lemma EquivalentKept(s: seq<Ref>, idx: nat, value: Ref, before: multiset<Ref>)
      requires Configured() && idx < |s| && HeapOrdered(cmp, Filled(s, idx, value))
      requires Bag(Filled(s, idx, value)) == before + multiset{value}
      ensures HeapOrdered(cmp, Filled(s, idx, Kept(value)))
      ensures Bag(Filled(s, idx, Kept(value))) == before + multiset{Kept(value)}
    {
      Opposite(cmp, value, value);
      EquivalentItem(cmp, Filled(s, idx, value), idx, Kept(value));
      assert Filled(s, idx, Kept(value)) == Filled(s, idx, value)[idx := Kept(value)];
      assert Bag(Filled(s, idx, Kept(value))) == Bag(Filled(s, idx, value)) - multiset{value} + multiset{Kept(value)};
    }

    /** Greater items above the new last place come down, until the value fits into the gap they leave. */
    method SiftUp(value: Ref) returns (idx: nat)
      requires Valid() && count < buckets.Length
      modifies buckets
      ensures idx <= count
      ensures HeapOrdered(cmp, Filled(buckets[..count + 1], idx, value))
      ensures Bag(Filled(buckets[..count + 1], idx, value)) == old(Items()) + multiset{value}
    {
      hide HeapOrdered, Rising, Ordering, Bag, Filled, Exchanged;
      idx := count;
      ghost var bag := Items() + multiset{value};
      StartRising(cmp, buckets[..count], buckets[..count + 1], value);
      while 0 < idx
        invariant idx <= count && Rising(cmp, Filled(buckets[..count + 1], idx, value), idx)
        invariant Bag(Filled(buckets[..count + 1], idx, value)) == bag
      {
        ghost var s := buckets[..count + 1];
        var pidx := (idx - 1) / 2;
        var item := buckets[pidx];
        if cmp(item, value) <= 0 {
          break;
        }
        RiseStep(cmp, Filled(s, idx, value), idx);
        ExchangedSame(Filled(s, idx, value), idx, pidx);
        HoleMoves(s, idx, pidx, value);
        Put(buckets, count + 1, idx, item);
        idx := pidx;
      }
      Risen(cmp, Filled(buckets[..count + 1], idx, value), idx);
    }

    /** CFBinaryHeapGetMinimum: the first item, and nothing is less. */
    method GetMinimum() returns (value: Ref)
      requires Valid() && count > 0
      ensures value == buckets[0] && LeastOf(cmp, value, Items())
    {
      value := buckets[0];
      Least(cmp, buckets[..count]);
    }

    /** CFBinaryHeapRemoveMinimumValue: the items change by exactly one least item, and the heap order stays. */
    method RemoveMinimumValue()
      requires Valid()
      modifies this`count, this`log, buckets
      ensures Valid() && count == if old(count) == 0 then 0 else old(count) - 1
      ensures old(count) == 0 ==> Items() == old(Items()) && log == old(log)
      ensures old(count) > 0 ==>
        && LeastOf(cmp, old(buckets[0]), old(Items()))
        && Items() == old(Items()) - multiset{old(buckets[0])}
        && log == old(log) + if cb.release then [Released(old(buckets[0]))] else []
    {
      hide HeapOrdered, Configured, Bag, Filled, Ordering, Sinking, LeastOf;
      var cnt := count;
      if cnt == 0 {
        return;
      }
      UseConfigured();
      Least(cmp, buckets[..count]);
      WithoutRoot(cmp, buckets[..cnt]);
      count := cnt - 1;
      if cb.release {
        log := log + [Released(buckets[0])];
      }
      var val := buckets[cnt - 1];
      if count > 0 {
        assert buckets[..cnt][..count] == buckets[..count];
        FillRoot(val);
      }
    }

    /** The last item finds its place. */
    method FillRoot(val: Ref)
      requires 0 < count <= buckets.Length && Ordering(cmp) && Sinking(cmp, Filled(buckets[..count], 0, val), 0)
      modifies buckets
      ensures HeapOrdered(cmp, buckets[..count]) && Items() == old(Bag(Filled(buckets[..count], 0, val)))
    {
      hide HeapOrdered, Sinking, Ordering, Bag, Filled;
      var idx := SiftDown(val);
      Put(buckets, count, idx, val);
    }

    /** Lesser items below the root go up, until the value fits into the gap they leave. */
    method SiftDown(val: Ref) returns (idx: nat)
      requires 0 < count <= buckets.Length && Ordering(cmp) && Sinking(cmp, Filled(buckets[..count], 0, val), 0)
      modifies buckets
      ensures idx < count && HeapOrdered(cmp, Filled(buckets[..count], idx, val))
      ensures Bag(Filled(buckets[..count], idx, val)) == old(Bag(Filled(buckets[..count], 0, val)))
    {
      hide HeapOrdered, Sinking, Ordering, Bag, Filled, Exchanged;
      idx := 0;
      var cidx: nat := 1;
      while cidx < count
        invariant idx < count && cidx == 2 * idx + 1 && Sinking(cmp, Filled(buckets[..count], idx, val), idx)
        invariant Bag(Filled(buckets[..count], idx, val)) == old(Bag(Filled(buckets[..count], 0, val)))
        decreases count - idx
      {
        ghost var s := buckets[..count];
        var item := buckets[cidx];
        LesserChild(cmp, Filled(s, idx, val), idx, cidx);
        if cidx + 1 < count {
          var item2 := buckets[cidx + 1];
          if cmp(item, item2) > 0 {
            cidx := cidx + 1;
            item := item2;
          }
        }
        if cmp(item, val) > 0 {
          FitsAbove(cmp, Filled(s, idx, val), idx, cidx);
          return;
        }
        SinkStep(cmp, Filled(s, idx, val), idx, cidx);
        ExchangedSame(Filled(s, idx, val), idx, cidx);
        HoleMoves(s, idx, cidx, val);
        Put(buckets, count, idx, item);
        idx := cidx;
        cidx := 2 * idx + 1;
      }
      Sunk(cmp, Filled(buckets[..count], idx, val), idx);
    }

    /** CFBinaryHeapCreateCopy: another heap with equivalent items, added one by one. */
    method CreateCopy() returns (copy: Heap)
      requires Valid()
      ensures fresh(copy) && fresh(copy.buckets) && copy.Valid() && copy.cmp == cmp && copy.cb == cb
      ensures copy.count == count && (cb.retain.None? ==> copy.Items() == Items())
      ensures copy.Items() == KeptBag(buckets[..count])
    {
      hide HeapOrdered, Configured, Bag, KeptBag, Ordering;
      UseConfigured();
      copy := new Heap(cmp, cb);
      KeptNext([], 0);
      for idx := 0 to count
        invariant fresh(copy) && fresh(copy.buckets) && copy.Valid() && copy.cmp == cmp && copy.cb == cb
        invariant copy.count == idx && copy.Items() == KeptBag(buckets[..idx])
      {
        KeptAt(idx);
        copy.AddValue(buckets[idx]);
      }
      KeptPlain(buckets[..count]);
    }

    lemma UseConfigured()
      requires Configured()
      ensures Ordering(cmp) && (cb.retain.Some? ==> forall v :: cmp(cb.retain.value(v), v) == 0)
    {
    }

    /** The items of a sequence as they are when retained. */
    ghost function KeptBag(s: seq<Ref>): multiset<Ref> {
      if s == [] then multiset{} else KeptBag(s[..|s| - 1]) + multiset{Kept(s[|s| - 1])}
    }

    lemma KeptNext(s: seq<Ref>, x: Ref)
      ensures KeptBag(s + [x]) == KeptBag(s) + multiset{Kept(x)} && KeptBag([]) == multiset{}
    {
      assert (s + [x])[..|s|] == s;
    }

    lemma KeptAt(idx: nat)
      requires idx < count <= buckets.Length
      ensures KeptBag(buckets[..idx + 1]) == KeptBag(buckets[..idx]) + multiset{Kept(buckets[idx])}
    {
      KeptNext(buckets[..idx], buckets[idx]);
      assert buckets[..idx + 1] == buckets[..idx] + [buckets[idx]];
    }

    lemma {:induction false} KeptPlain(s: seq<Ref>)
      ensures cb.retain.None? ==> KeptBag(s) == Bag(s)
    {
      if s != [] {
        KeptPlain(s[..|s| - 1]);
        assert s == s[..|s| - 1] + [s[|s| - 1]];
      }
    }

    /** CFBinaryHeapGetValues: an ascending permutation of the contents. */
    method GetValues() returns (values: seq<Ref>)
      requires Valid()
      ensures SortedBetween(cmp, values, 0, |values|) && Bag(values) == KeptBag(buckets[..count])
      ensures cb.retain.None? ==> Bag(values) == Items()
    {
      hide HeapOrdered, Configured, Bag, Ordering, SortedBetween, KeptBag;
      KeptPlain(buckets[..count]);
      var heapCopy := CreateCopy();
      values := heapCopy.TakeAll();
    }

    /** One least item after another. */
    method TakeAll() returns (values: seq<Ref>)
      requires Valid()
      modifies this`count, this`log, buckets
      ensures SortedBetween(cmp, values, 0, |values|) && Bag(values) == old(Items())
    {
      hide HeapOrdered, Configured, Bag, Ordering, SortedBetween, Ascends;
      values := [];
      NothingYet(cmp);
      assert Bag(values) + Items() == Items();
      while 0 < count
        invariant Valid() && Bag(values) + Items() == old(Items()) && Ascends(cmp, values, Items())
        decreases count
      {
        values := TakeMinimum(values);
      }
      AllOut(cmp, values, buckets[..count]);
    }

    method TakeMinimum(values: seq<Ref>) returns (more: seq<Ref>)
      requires Valid() && count > 0 && Ascends(cmp, values, Items())
      modifies this`count, this`log, buckets
      ensures Valid() && count == old(count) - 1 && Ascends(cmp, more, Items())
      ensures Bag(more) + Items() == old(Bag(values) + Items())
    {
      hide HeapOrdered, Configured, Bag, Ordering, Ascends;
      var value := GetMinimum();
      UseConfigured();
      AscendsNext(cmp, values, Items(), value);
      MovedOut(values, Items(), value);
      RemoveMinimumValue();
      more := values + [value];
    }

    /** CFBinaryHeapRemoveAllValues. */
    method RemoveAllValues()
      requires Valid()
      modifies this`count, this`log
      ensures Valid() && Items() == multiset{}
      ensures log == old(log) + if cb.release then ReleaseAll(old(buckets[..count])) else []
    {
      ghost var s := buckets[..count];
      if cb.release {
        for idx := 0 to count
          invariant count == |s| && log == old(log) + ReleaseAll(s)[..idx]
        {
          ReleaseAllAt(s, idx);
          log := log + [Released(buckets[idx])];
        }
        assert ReleaseAll(s)[..count] == ReleaseAll(s);
      }
      count := 0;
    }
  }

  ghost predicate LeastOf(cmp: (Ref, Ref) -> int, value: Ref, bag: multiset<Ref>) {
    value in bag && forall x :: x in bag ==> cmp(value, x) <= 0
  }

  lemma Least(cmp: (Ref, Ref) -> int, s: seq<Ref>)
    requires Ordering(cmp) && HeapOrdered(cmp, s) && s != []
    ensures LeastOf(cmp, s[0], Bag(s))
  {
    forall x | x in Bag(s)
      ensures cmp(s[0], x) <= 0
    {
      var i: nat :| i < |s| && s[i] == x;
      RootIsLeast(cmp, s, i);
    }
  }

  /** The last item in place of the first. */
  lemma WithoutRoot(cmp: (Ref, Ref) -> int, s: seq<Ref>)
    requires HeapOrdered(cmp, s) && s != []
    ensures |s| > 1 ==>
      && Sinking(cmp, Filled(s[..|s| - 1], 0, s[|s| - 1]), 0)
      && Bag(Filled(s[..|s| - 1], 0, s[|s| - 1])) == Bag(s) - multiset{s[0]}
    ensures |s| == 1 ==> HeapOrdered(cmp, s[..0]) && Bag(s[..0]) == Bag(s) - multiset{s[0]}
  {
    var n := |s| - 1;
    if n > 0 {
      var f := Filled(s[..n], 0, s[n]);
      assert s == [s[0]] + s[1..n] + [s[n]] && f == [s[n]] + s[1..n];
      forall i: nat | 0 < i < n && Parent(i) != 0
        ensures Below(cmp, f, i)
      {
        assert Below(cmp, s, i);
      }
    } else {
      assert s == [s[0]];
    }
  }

  /** Of the one or two children the lesser is no greater than either. */
  lemma LesserChild(cmp: (Ref, Ref) -> int, s: seq<Ref>, idx: nat, c: nat)
    requires Ordering(cmp) && c == 2 * idx + 1 < |s|
    ensures Parent(c) == idx && (c + 1 < |s| ==> Parent(c + 1) == idx)
    ensures var d := if c + 1 < |s| && cmp(s[c], s[c + 1]) > 0 then c + 1 else c;
      forall i: nat :: 0 < i < |s| && Parent(i) == idx ==> cmp(s[d], s[i]) <= 0
  {
    Opposite(cmp, s[c], s[c]);
    if c + 1 < |s| {
      Opposite(cmp, s[c], s[c + 1]);
      Opposite(cmp, s[c + 1], s[c]);
      Opposite(cmp, s[c + 1], s[c + 1]);
    }
  }

  lemma FitsAbove(cmp: (Ref, Ref) -> int, s: seq<Ref>, idx: nat, c: nat)
    requires Ordering(cmp) && Sinking(cmp, s, idx) && c < |s| && cmp(s[c], s[idx]) > 0
    requires forall i: nat :: 0 < i < |s| && Parent(i) == idx ==> cmp(s[c], s[i]) <= 0
    ensures HeapOrdered(cmp, s)
  {
    Opposite(cmp, s[idx], s[c]);
    forall i: nat | 0 < i < |s| && Parent(i) == idx
      ensures cmp(s[idx], s[i]) <= 0
    {
      Transitive(cmp, s[idx], s[c], s[i]);
    }
    Sunk(cmp, s, idx);
  }

  /** What has been taken out is sorted, and no greater than what is left. */
  ghost predicate Ascends(cmp: (Ref, Ref) -> int, out: seq<Ref>, rest: multiset<Ref>) {
    && SortedBetween(cmp, out, 0, |out|)
    && forall i: nat, x :: i < |out| && x in rest ==> cmp(out[i], x) <= 0
  }

  lemma NothingYet(cmp: (Ref, Ref) -> int)
    ensures forall rest :: Ascends(cmp, [], rest)
    ensures Bag([]) == multiset{}
  {
  }

  lemma AscendsNext(cmp: (Ref, Ref) -> int, out: seq<Ref>, rest: multiset<Ref>, value: Ref)
    requires Ordering(cmp) && Ascends(cmp, out, rest) && LeastOf(cmp, value, rest)
    ensures Ascends(cmp, out + [value], rest - multiset{value})
  {
    Opposite(cmp, value, value);
    hide Ordering;
  }

  lemma MovedOut(out: seq<Ref>, rest: multiset<Ref>, value: Ref)
    requires value in rest
    ensures Bag(out + [value]) + (rest - multiset{value}) == Bag(out) + rest
  {
  }

  lemma AllOut(cmp: (Ref, Ref) -> int, out: seq<Ref>, rest: seq<Ref>)
    requires Ascends(cmp, out, Bag(rest)) && rest == []
    ensures SortedBetween(cmp, out, 0, |out|) && Bag(out) + Bag(rest) == Bag(out)
  {
  }

  /** One bucket written, seen in the first `n`. */
  method Put(buckets: array<Ref>, n: nat, idx: nat, item: Ref)
    requires idx < n <= buckets.Length
    modifies buckets
    ensures buckets[..n] == Filled(old(buckets[..n]), idx, item)
  {
    buckets[idx] := item;
  }

  /** Moving the item at `j` into the gap at `i` exchanges it with the value that is to fill the gap. */
  lemma HoleMoves(s: seq<Ref>, i: nat, j: nat, value: Ref)
    requires i < |s| && j < |s| && i != j
    ensures Filled(Filled(s, i, s[j]), j, value) == Exchanged(Filled(s, i, value), i, j)
  {
  }

  lemma RoundUpEven(n: nat)
    requires ShiftDefined(n)
    ensures RoundUpCapacity(n) % 2 == 0
  {
    FlslBounds(n);
  }

  lemma StartRising(cmp: (Ref, Ref) -> int, s: seq<Ref>, t: seq<Ref>, value: Ref)
    requires HeapOrdered(cmp, s) && |t| == |s| + 1 && t[..|s|] == s
    ensures Rising(cmp, Filled(t, |s|, value), |s|) && Bag(Filled(t, |s|, value)) == Bag(s) + multiset{value}
  {
    var f := Filled(t, |s|, value);
    assert f == s + [value];
    forall i: nat | i < |s|
      ensures Below(cmp, f, i)
    {
      assert Below(cmp, s, i);
    }
  }
}
