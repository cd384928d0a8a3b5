/** The gap-centred mutable array of CFArray.c and its retain and release callbacks. */
module ArrayDeque {
  import opened Bytes

  type Ref = nat          // an object address
  const NULL: Ref := 0

  /** A callback the array may have been created with; a retain may return another object. */
  datatype Callbacks = Callbacks(retain: Option<Ref -> Ref>, release: bool)

  datatype Event = Retained(v: Ref) | Released(v: Ref)

  // ------------------------------------------------------------- capacities

  /** The position of the highest set bit, counted from 1. */
  function Flsl(n: nat): nat {
    if n == 0 then 0 else 1 + Flsl(n / 2)
  }

  lemma {:induction false} FlslBounds(n: nat)
    ensures n < Pow2(Flsl(n))
    ensures n > 0 ==> Flsl(n) > 0 && Pow2(Flsl(n) - 1) <= n
  {
    if n > 0 {
      FlslBounds(n / 2);
    }
  }

  lemma {:induction false} Pow2Monotone(m: nat, n: nat)
    requires m <= n
    ensures Pow2(m) <= Pow2(n)
  {
    if m < n {
      Pow2Monotone(m, n - 1);
    }
  }

  lemma Pow2Of30()
    ensures Pow2(30) == 0x4000_0000
  {
    assert Pow2(10) == 1024;
    assert Pow2(20) == 1024 * 1024 by {
      assert Pow2(20) == 1024 * Pow2(10);
    }
    assert Pow2(30) == 1024 * Pow2(20);
  }

  /** The shift is of a 32-bit int, so it is defined up to 30 bits only. */
  predicate ShiftDefined(capacity: nat) {
    Flsl(capacity) <= 30
  }

  lemma ShiftLimit(capacity: nat)
    ensures ShiftDefined(capacity) <==> capacity < 0x4000_0000
  {
    FlslBounds(capacity);
    Pow2Of30();
    if Flsl(capacity) <= 30 {
      Pow2Monotone(Flsl(capacity), 30);
    } else {
      Pow2Monotone(30, Flsl(capacity) - 1);
    }
  }

  function RoundUpCapacity(capacity: nat): (c: nat)
    requires ShiftDefined(capacity)
    ensures capacity < c && 4 <= c <= 0x4000_0000
  {
    FlslBounds(capacity);
    Pow2Of30();
    Pow2Monotone(Flsl(capacity), 30);
    if capacity < 4 then 4 else Pow2(Flsl(capacity))
  }

  /** The capacity is the least power of two above what is asked for, and at least 4. */
  lemma RoundUpLeast(capacity: nat, k: nat)
    requires ShiftDefined(capacity)
    ensures exists j: nat :: Pow2(j) == RoundUpCapacity(capacity)
    ensures Pow2(k) > capacity && Pow2(k) >= 4 ==> RoundUpCapacity(capacity) <= Pow2(k)
  {
    hide Pow2, Flsl;
    FlslBounds(capacity);
    Pow2Of2();
    if capacity >= 4 {
      if k < Flsl(capacity) {
        Pow2Monotone(k, Flsl(capacity) - 1);
      } else {
        Pow2Monotone(Flsl(capacity), k);
      }
    }
    assert Pow2(if capacity < 4 then 2 else Flsl(capacity)) == RoundUpCapacity(capacity);
  }

  lemma Pow2Of2()
    ensures Pow2(2) == 4
  {
  }

  function Wiggle(capacity: nat): nat {
    if capacity / 0x2_0000 < 4 then 4 else capacity / 0x2_0000
  }

  /** The test of __CFArrayRepositionDequeRegions, with its 32-bit cast of the future count. */
  predicate NeedsRealloc(capacity: nat, cnt: nat, futureCnt: nat)
    requires cnt <= capacity
  {
    capacity < futureCnt % TWO_32 || (cnt < futureCnt && capacity - cnt < Wiggle(capacity))
  }

  /** Growing past the present capacity, or into a tight one, stays below 2^30 elements. */
  predicate GrowthOk(capacity: nat, cnt: nat, futureCnt: nat)
    requires cnt <= capacity
  {
    (capacity < futureCnt || (cnt < futureCnt && capacity - cnt < Wiggle(capacity))) ==>
    futureCnt + Wiggle(capacity) < 0x4000_0000
  }

  /** GrowthOk is exactly when the code is safe: its shift is defined, or the result fits. */
  lemma GrowthOkExact(capacity: nat, cnt: nat, futureCnt: nat)
    requires cnt <= capacity <= 0x4000_0000
    ensures GrowthOk(capacity, cnt, futureCnt) <==>
      if NeedsRealloc(capacity, cnt, futureCnt) then ShiftDefined(futureCnt + Wiggle(capacity)) else futureCnt <= capacity
  {
    ShiftLimit(futureCnt + Wiggle(capacity));
  }

  /** Without it the cast can hide that the result does not fit: here 2^32 values go into 8 slots. */
  lemma CastCanOverrun()
    ensures !NeedsRealloc(8, 0, TWO_32) && TWO_32 > 8
  {
  }

  // ----------------------------------------------------------- block moves

  /** `to` with the `n` elements of `from` at `s` moved to `d`. */
  function Moved(to: seq<Ref>, d: nat, from: seq<Ref>, s: nat, n: nat): (r: seq<Ref>)
    requires d + n <= |to| && s + n <= |from|
    ensures |r| == |to|
  {
    seq(|to|, k requires 0 <= k < |to| => if d <= k < d + n then from[s + k - d] else to[k])
  }

  function Zeroed(a: seq<Ref>, i: nat, n: nat): (r: seq<Ref>)
    requires i + n <= |a|
    ensures |r| == |a|
  {
    seq(|a|, k requires 0 <= k < |a| => if i <= k < i + n then NULL else a[k])
  }

  /** memmove: the regions may overlap. */
  method MoveBuckets(dst: array<Ref>, d: nat, src: array<Ref>, s: nat, n: nat)
    requires d + n <= dst.Length && s + n <= src.Length
    modifies dst
    ensures dst[..] == Moved(old(dst[..]), d, old(src[..]), s, n)
  {
    forall i | 0 <= i < n {
      dst[d + i] := src[s + i];
    }
  }

  method ZeroBuckets(a: array<Ref>, i: nat, n: nat)
    requires i + n <= a.Length
    modifies a
    ensures a[..] == Zeroed(old(a[..]), i, n)
  {
    forall k | i <= k < i + n {
      a[k] := NULL;
    }
  }

  /** `now` has from `to` on the `n` elements that `was` has from `from` on. */
  ghost predicate Keeps(was: seq<Ref>, from: nat, now: seq<Ref>, to: nat, n: nat) {
    from + n <= |was| && to + n <= |now| && forall j :: to <= j < to + n ==> now[j] == was[j - to + from]
  }

  lemma MovedKeeps(a: seq<Ref>, d: nat, b: seq<Ref>, s: nat, n: nat)
    requires d + n <= |a| && s + n <= |b|
    ensures Keeps(b, s, Moved(a, d, b, s, n), d, n)
  {
  }

  /** What lies outside the destination of a move stays. */
  lemma MovedSpares(w: seq<Ref>, i: nat, a: seq<Ref>, d: nat, b: seq<Ref>, s: nat, n: nat, from: nat, m: nat)
    requires d + n <= |a| && s + n <= |b| && Keeps(w, i, a, from, m) && (from + m <= d || d + n <= from)
    ensures Keeps(w, i, Moved(a, d, b, s, n), from, m)
  {
  }

  lemma ZeroedSpares(w: seq<Ref>, h: nat, a: seq<Ref>, i: nat, n: nat, from: nat, m: nat)
    requires i + n <= |a| && Keeps(w, h, a, from, m) && (from + m <= i || i + n <= from)
    ensures Keeps(w, h, Zeroed(a, i, n), from, m)
  {
  }

  lemma KeepsNothing(a: seq<Ref>, i: nat, b: seq<Ref>, j: nat)
    requires i <= |a| && j <= |b|
    ensures Keeps(a, i, b, j, 0)
  {
  }

  lemma KeepsTransitive(a: seq<Ref>, i: nat, b: seq<Ref>, j: nat, c: seq<Ref>, k: nat, n: nat)
    requires Keeps(a, i, b, j, n) && Keeps(b, j, c, k, n)
    ensures Keeps(a, i, c, k, n)
  {
  }

  /** A moved piece, on its way from `w` over `b`. */
  lemma MovedCarries(w: seq<Ref>, i: nat, a: seq<Ref>, d: nat, b: seq<Ref>, s: nat, n: nat)
    requires d + n <= |a| && s + n <= |b| && Keeps(w, i, b, s, n)
    ensures Keeps(w, i, Moved(a, d, b, s, n), d, n)
  {
    MovedKeeps(a, d, b, s, n);
    KeepsTransitive(w, i, b, s, Moved(a, d, b, s, n), d, n);
  }

  // ---------------------------------------------------------------- events

  function RetainAll(vs: seq<Ref>): (r: seq<Event>)
    ensures |r| == |vs|
  {
    seq(|vs|, i requires 0 <= i < |vs| => Retained(vs[i]))
  }

  function ReleaseAll(vs: seq<Ref>): (r: seq<Event>)
    ensures |r| == |vs|
  {
    seq(|vs|, i requires 0 <= i < |vs| => Released(vs[i]))
  }

  lemma ReleaseAllAt(vs: seq<Ref>, i: nat)
    requires i < |vs|
    ensures ReleaseAll(vs)[i] == Released(vs[i]) && ReleaseAll(vs)[..i + 1] == ReleaseAll(vs)[..i] + [Released(vs[i])]
  {
  }

  /** What a range replacement asks of the callbacks: every retain before the first release. */
  function ReplaceEvents(cb: Callbacks, gone: seq<Ref>, come: seq<Ref>): seq<Event> {
    (if cb.retain.Some? then RetainAll(come) else []) + (if cb.release then ReleaseAll(gone) else [])
  }

  /** One retain for each new value, then one release for each replaced one, both in order. */
  lemma ReplaceEventsAt(cb: Callbacks, gone: seq<Ref>, come: seq<Ref>)
    ensures var events, n := ReplaceEvents(cb, gone, come), if cb.retain.Some? then |come| else 0;
      && |events| == n + (if cb.release then |gone| else 0)
      && forall i: nat :: i < |events| ==> events[i] == if i < n then Retained(come[i]) else Released(gone[i - n])
  {
  }

  function Stored(cb: Callbacks, vs: seq<Ref>): (r: seq<Ref>)
    ensures |r| == |vs|
  {
    match cb.retain
    case None => vs
    case Some(f) => seq(|vs|, i requires 0 <= i < |vs| => f(vs[i]))
  }

  function Splice(s: seq<Ref>, loc: nat, len: nat, vs: seq<Ref>): seq<Ref>
    requires loc + len <= |s|
  {
    s[..loc] + vs + s[loc + len..]
  }

  lemma SpliceIs(s: seq<Ref>, loc: nat, len: nat, vs: seq<Ref>)
    requires loc + len <= |s|
    ensures Splice(s, loc, len, vs) == s[..loc] + vs + s[loc + len..]
  {
  }

  // ----------------------------------------------------------------- the array

  class MutableArray {
    const cb: Callbacks
    var count: nat
    var store: array?<Ref>     // the deque's buckets; its length is the capacity
    var leftIdx: nat
    var log: seq<Event>        // the callbacks made so far

    ghost predicate Valid()
      reads this, store
    {
      if store == null then count == 0 else 4 <= store.Length <= 0x4000_0000 && leftIdx + count <= store.Length
    }

    ghost function Contents(): (s: seq<Ref>)
      requires Valid()
      reads this, store
      ensures |s| == count
    {
      if store == null then [] else store[leftIdx..leftIdx + count]
    }

    constructor (cb: Callbacks)
      ensures Valid() && Contents() == [] && this.cb == cb && log == []
    {
      this.cb, count, store, leftIdx, log := cb, 0, null, 0, [];
    }

    /** Whether `newCount` values can take the place of `len` of the present ones. */
    predicate CanReplace(len: nat, newCount: nat)
      requires Valid() && len <= count
      reads this, store
    {
      if store == null then newCount < 0x4000_0000
      else len == newCount || GrowthOk(store.Length, count, count - len + newCount)
    }

    /** The store still has the values of `s` before and after a range, `newCount` slots apart. */
    ghost predicate Sides(s: seq<Ref>, loc: nat, len: nat, newCount: nat)
      reads this, store
    {
      && store != null && 4 <= store.Length <= 0x4000_0000 && loc + len <= |s|
      && leftIdx + |s| - len + newCount <= store.Length
      && Keeps(s, 0, store[..], leftIdx, loc)
      && Keeps(s, loc + len, store[..], leftIdx + loc + newCount, |s| - loc - len)
    }

    /** __CFArrayReleaseValues on a mutable array, keeping its store. */
    method ReleaseValues(loc: nat, len: nat)
      requires Valid() && loc + len <= count && store != null
      modifies this`log, store
      ensures Sides(old(Contents()), loc, len, len)
      ensures log == old(log) + if cb.release then ReleaseAll(old(Contents())[loc..loc + len]) else []
    {
      hide ReleaseAll, Keeps;
      ghost var s, gone := Contents(), Contents()[loc..loc + len];
      StartSides(s, loc, len);
      assert log + [] == log;
      for idx := 0 to len
        invariant Sides(s, loc, len, len) && |s| == count
        invariant forall k :: loc + idx <= k < loc + len ==> store[leftIdx + k] == s[k]
        invariant log == old(log) + if cb.release then ReleaseAll(gone)[..idx] else []
      {
        if cb.release {
          ReleaseAllAt(gone, idx);
          assert gone[idx] == s[loc + idx];
        }
        ReleaseSlot(s, loc, len, idx);
      }
      assert ReleaseAll(gone)[..len] == ReleaseAll(gone);
    }

    method ReleaseSlot(ghost s: seq<Ref>, loc: nat, len: nat, idx: nat)
      requires Sides(s, loc, len, len) && idx < len
      modifies this`log, store
      ensures Sides(s, loc, len, len)
      ensures log == old(log) + if cb.release then [Released(old(store[leftIdx + loc + idx]))] else []
      ensures forall k :: 0 <= k < store.Length && k != leftIdx + loc + idx ==> store[k] == old(store[k])
    {
      ghost var now, at := store[..], leftIdx + loc + idx;
      if cb.release {
        log := log + [Released(store[leftIdx + loc + idx])];
      }
      store[leftIdx + loc + idx] := NULL;
      assert store[..] == Zeroed(now, at, 1);
      hide Keeps, Zeroed;
      ZeroedSpares(s, 0, now, at, 1, leftIdx, loc);
      ZeroedSpares(s, loc + len, now, at, 1, leftIdx + loc + len, |s| - loc - len);
    }

    lemma StartSides(s: seq<Ref>, loc: nat, len: nat)
      requires Valid() && store != null && s == Contents() && loc + len <= count
      ensures Sides(s, loc, len, len)
    {
    }

    /** __CFArrayRepositionDequeRegions: new storage, or whichever side is cheaper to move. */
    method RepositionDequeRegions(ghost s: seq<Ref>, loc: nat, len: nat, newCount: nat)
      requires Valid() && Sides(s, loc, len, len) && |s| == count && len != newCount && CanReplace(len, newCount)
      modifies this`store, this`leftIdx, store
      ensures store == old(store) || fresh(store)
      ensures Sides(s, loc, len, newCount)
      ensures var capacity, future := old(store.Length), count - len + newCount;
        var slack := if capacity / 0x2_0000 < 4 then 4 else capacity / 0x2_0000;
        && (store != old(store) <==> capacity < future % TWO_32 || (count < future && capacity - count < slack))
        && (store != old(store) ==>
              && ShiftDefined(future + slack) && store.Length == RoundUpCapacity(future + slack)
              && leftIdx == (store.Length - future) / 2)
      ensures var left, right, more := loc, count - len - loc, newCount - len;
        var roomLeft, roomRight := old(leftIdx), old(store.Length - count - leftIdx);
        store == old(store) ==>
          leftIdx == if right < left && more <= roomRight then old(leftIdx)
                     else if more < 0 || (left <= right && more <= roomLeft) then old(leftIdx) - more
                     else (roomLeft + roomRight - more) / 2 - (roomLeft + roomRight - more) / 2 / 2
    {
      hide RoundUpCapacity, Keeps;
      var cnt := count;
      var futureCnt := cnt - len + newCount;
      var L, A, B := leftIdx, loc, len;
      var C, R := cnt - B - A, store.Length - cnt - L;
      var numNewElems := newCount - B;
      GrowthOkExact(store.Length, cnt, futureCnt);
      if NeedsRealloc(store.Length, cnt, futureCnt) {
        Reallocate(s, loc, len, newCount);
        return;
      }
      if (numNewElems < 0 && C < A) || (numNewElems <= R && C < A) {
        MoveRightPart(s, loc, len, newCount);
      } else if numNewElems < 0 || (numNewElems <= L && A <= C) {
        MoveLeftPart(s, loc, len, newCount);
      } else {
        Recenter(s, loc, len, newCount);
      }
    }

    /** First strategy: move to a larger store, the values centred in it. */
    method Reallocate(ghost s: seq<Ref>, loc: nat, len: nat, newCount: nat)
      requires Valid() && Sides(s, loc, len, len) && |s| == count
      requires ShiftDefined(count - len + newCount + Wiggle(store.Length))
      modifies this`store, this`leftIdx
      ensures fresh(store) && Sides(s, loc, len, newCount)
      ensures store.Length == RoundUpCapacity(count - len + newCount + Wiggle(old(store.Length)))
      ensures leftIdx == (store.Length - (count - len + newCount)) / 2
    {
      hide RoundUpCapacity, Wiggle, ShiftDefined, Moved, Keeps;
      var futureCnt := count - len + newCount;
      var A, C := loc, count - len - loc;
      var capacity := RoundUpCapacity(futureCnt + Wiggle(store.Length));
      var newDeque := new Ref[capacity](_ => NULL);
      var oldL, newL := leftIdx, (capacity - futureCnt) / 2;
      var oldC0, newC0 := oldL + A + len, newL + A + newCount;
      MovedCarries(s, 0, newDeque[..], newL, store[..], oldL, A);
      MoveBuckets(newDeque, newL, store, oldL, A);
      MovedSpares(s, 0, newDeque[..], newC0, store[..], oldC0, C, newL, A);
      MovedCarries(s, A + len, newDeque[..], newC0, store[..], oldC0, C);
      MoveBuckets(newDeque, newC0, store, oldC0, C);
      store, leftIdx := newDeque, newL;
    }

    /** Second strategy: the right side is shorter, and moves towards or away from the left. */
    method MoveRightPart(ghost s: seq<Ref>, loc: nat, len: nat, newCount: nat)
      requires Valid() && Sides(s, loc, len, len) && |s| == count && leftIdx + count - len + newCount <= store.Length
      modifies store
      ensures Sides(s, loc, len, newCount)
    {
      hide Moved, Zeroed, Keeps;
      var C := count - len - loc;
      var oldC0, newC0 := leftIdx + loc + len, leftIdx + loc + newCount;
      MovedSpares(s, 0, store[..], newC0, store[..], oldC0, C, leftIdx, loc);
      MovedCarries(s, loc + len, store[..], newC0, store[..], oldC0, C);
      MoveBuckets(store, newC0, store, oldC0, C);
      if oldC0 > newC0 {
        ZeroedSpares(s, 0, store[..], newC0 + C, oldC0 - newC0, leftIdx, loc);
        ZeroedSpares(s, loc + len, store[..], newC0 + C, oldC0 - newC0, newC0, C);
        ZeroBuckets(store, newC0 + C, oldC0 - newC0);
      }
    }

    /** Third strategy: the left side is shorter or as short, and moves. */
    method MoveLeftPart(ghost s: seq<Ref>, loc: nat, len: nat, newCount: nat)
      requires Valid() && Sides(s, loc, len, len) && |s| == count && newCount <= leftIdx + len
      modifies this`leftIdx, store
      ensures Sides(s, loc, len, newCount) && leftIdx == old(leftIdx) + len - newCount
    {
      hide Moved, Zeroed, Keeps;
      var oldL, newL := leftIdx, leftIdx + len - newCount;
      var C, C0 := count - len - loc, oldL + loc + len;
      leftIdx := newL;
      MovedCarries(s, 0, store[..], newL, store[..], oldL, loc);
      MovedSpares(s, loc + len, store[..], newL, store[..], oldL, loc, C0, C);
      MoveBuckets(store, newL, store, oldL, loc);
      if newL > oldL {
        ZeroedSpares(s, 0, store[..], oldL, newL - oldL, newL, loc);
        ZeroedSpares(s, loc + len, store[..], oldL, newL - oldL, C0, C);
        ZeroBuckets(store, oldL, newL - oldL);
      }
    }

    /** Last strategy: neither side has room for its neighbour alone, so both sides move. */
    method Recenter(ghost s: seq<Ref>, loc: nat, len: nat, newCount: nat)
      requires Valid() && Sides(s, loc, len, len) && |s| == count
      requires len < newCount && count - len + newCount <= store.Length
      modifies this`leftIdx, store
      ensures Sides(s, loc, len, newCount)
      ensures var room := old(store.Length) - count - (newCount - len); leftIdx == room / 2 - room / 2 / 2
    {
      var L, R := leftIdx, store.Length - count - leftIdx;
      var newL := (L + R - (newCount - len)) / 2;
      newL := newL - newL / 2;
      if newL < leftIdx {
        MoveLeftThenRight(s, loc, len, newCount, newL);
      } else {
        MoveRightThenLeft(s, loc, len, newCount, newL);
      }
    }

    method MoveLeftThenRight(ghost s: seq<Ref>, loc: nat, len: nat, newCount: nat, newL: nat)
      requires Valid() && Sides(s, loc, len, len) && |s| == count
      requires len < newCount && newL + count - len + newCount <= store.Length && newL < leftIdx
      modifies this`leftIdx, store
      ensures Sides(s, loc, len, newCount) && leftIdx == newL
    {
      hide Moved, Zeroed, Keeps;
      var A, C, oldL := loc, count - len - loc, leftIdx;
      var oldC0, newC0 := oldL + A + len, newL + A + newCount;
      leftIdx := newL;
      MovedCarries(s, 0, store[..], newL, store[..], oldL, A);
      MovedSpares(s, A + len, store[..], newL, store[..], oldL, A, oldC0, C);
      MoveBuckets(store, newL, store, oldL, A);
      MovedSpares(s, 0, store[..], newC0, store[..], oldC0, C, newL, A);
      MovedCarries(s, A + len, store[..], newC0, store[..], oldC0, C);
      MoveBuckets(store, newC0, store, oldC0, C);
      if oldC0 > newC0 {
        ZeroedSpares(s, 0, store[..], newC0 + C, oldC0 - newC0, newL, A);
        ZeroedSpares(s, A + len, store[..], newC0 + C, oldC0 - newC0, newC0, C);
        ZeroBuckets(store, newC0 + C, oldC0 - newC0);
      }
    }

    method MoveRightThenLeft(ghost s: seq<Ref>, loc: nat, len: nat, newCount: nat, newL: nat)
      requires Valid() && Sides(s, loc, len, len) && |s| == count
      requires len < newCount && newL + count - len + newCount <= store.Length && leftIdx <= newL
      modifies this`leftIdx, store
      ensures Sides(s, loc, len, newCount) && leftIdx == newL
    {
      hide Moved, Zeroed, Keeps;
      var A, C, oldL := loc, count - len - loc, leftIdx;
      var oldC0, newC0 := oldL + A + len, newL + A + newCount;
      leftIdx := newL;
      MovedSpares(s, 0, store[..], newC0, store[..], oldC0, C, oldL, A);
      MovedCarries(s, A + len, store[..], newC0, store[..], oldC0, C);
      MoveBuckets(store, newC0, store, oldC0, C);
      MovedCarries(s, 0, store[..], newL, store[..], oldL, A);
      MovedSpares(s, A + len, store[..], newL, store[..], oldL, A, newC0, C);
      MoveBuckets(store, newL, store, oldL, A);
      if newL > oldL {
        ZeroedSpares(s, 0, store[..], oldL, newL - oldL, newL, A);
        ZeroedSpares(s, A + len, store[..], oldL, newL - oldL, newC0, C);
        ZeroBuckets(store, oldL, newL - oldL);
      }
    }

    /** The visible sequence changes by exactly the splice, wherever the values move to. */
    method ReplaceValues(loc: nat, len: nat, newValues: seq<Ref>)
      requires Valid() && loc + len <= count && CanReplace(len, |newValues|)
      modifies this`store, this`leftIdx, this`count, this`log, store
      ensures Valid() && (store == old(store) || fresh(store))
      ensures Contents() == old(Contents())[..loc] + Stored(cb, newValues) + old(Contents())[loc + len..]
      ensures forall i: nat :: i < |newValues| ==>
        Stored(cb, newValues)[i] == match cb.retain case Some(f) => f(newValues[i]) case None => newValues[i]
      ensures log == old(log) + ReplaceEvents(cb, old(Contents())[loc..loc + len], newValues)
    {
      hide GrowthOk, Splice, RetainAll, ReleaseAll, Sides;
      ghost var before, log0 := Contents(), log;
      var newv := newValues;
      if cb.retain.Some? {
        newv := RetainValues(newValues);
      }
      MakeRoom(before, loc, len, |newv|);
      assert log == log0 + ReplaceEvents(cb, before[loc..loc + len], newValues);
      CopyIn(before, loc, len, newv);
      SpliceIs(before, loc, len, newv);
    }

    /** Drops the replaced values and leaves a gap, in a store that may be new. */
    method MakeRoom(ghost before: seq<Ref>, loc: nat, len: nat, newCount: nat)
      requires Valid() && before == Contents() && loc + len <= count && CanReplace(len, newCount)
      modifies this`store, this`leftIdx, this`log, store
      ensures Sides(before, loc, len, newCount) && (store == old(store) || fresh(store))
      ensures log == old(log) + if cb.release then ReleaseAll(before[loc..loc + len]) else []
    {
      hide RoundUpCapacity, ReleaseAll, Keeps, GrowthOk;
      if store == null {
        ShiftLimit(newCount);
        var capacity := RoundUpCapacity(newCount);
        store := new Ref[capacity](_ => NULL);
        leftIdx := (capacity - newCount) / 2;
        KeepsNothing(before, 0, store[..], leftIdx);
        KeepsNothing(before, 0, store[..], leftIdx + newCount);
        assert ReleaseAll(before[loc..loc + len]) == [];
      } else {
        ReleaseValues(loc, len);
        if len != newCount {
          RepositionDequeRegions(before, loc, len, newCount);
        }
      }
    }

    /** Applies the retain callback to each value in order. */
    method RetainValues(values: seq<Ref>) returns (newv: seq<Ref>)
      requires cb.retain.Some?
      modifies this`log
      ensures newv == Stored(cb, values)
      ensures log == old(log) + RetainAll(values)
    {
      newv := [];
      for idx := 0 to |values|
        invariant newv == Stored(cb, values)[..idx]
        invariant log == old(log) + RetainAll(values)[..idx]
      {
        log := log + [Retained(values[idx])];
        newv := newv + [cb.retain.value(values[idx])];
      }
    }

    /** Puts the new values into the gap. */
    method CopyIn(ghost s: seq<Ref>, loc: nat, len: nat, newv: seq<Ref>)
      requires loc + len <= count == |s| && Sides(s, loc, len, |newv|)
      modifies this`count, store
      ensures Valid() && Contents() == Splice(s, loc, len, newv)
    {
      var at := leftIdx + loc;
      ghost var buckets := store[..];
      forall i | 0 <= i < |newv| {
        store[at + i] := newv[i];
      }
      count := count - len + |newv|;
      SpliceInPlace(s, loc, len, newv, buckets, store[..], leftIdx);
      hide Keeps, Splice;
    }

    /** CFArraySetValueAtIndex: the new value is retained before the old one is released. */
    method SetValueAtIndex(idx: nat, value: Ref)
      requires Valid() && idx <= count && (idx == count ==> CanReplace(0, 1))
      modifies this`store, this`leftIdx, this`count, this`log, store
      ensures Valid() && (store == old(store) || fresh(store))
      ensures var len := if idx < old(count) then 1 else 0;
        && Contents() == Splice(old(Contents()), idx, len, Stored(cb, [value]))
        && log == old(log) + ReplaceEvents(cb, old(Contents())[idx..idx + len], [value])
    {
      if idx == count {
        ReplaceValues(idx, 0, [value]);
      } else {
        ReplaceSlot(idx, value);
      }
    }

    method ReplaceSlot(idx: nat, value: Ref)
      requires Valid() && idx < count
      modifies this`log, store
      ensures Valid() && Contents() == Splice(old(Contents()), idx, 1, Stored(cb, [value]))
      ensures log == old(log) + ReplaceEvents(cb, old(Contents())[idx..idx + 1], [value])
    {
      hide Splice, Stored, ReplaceEvents;
      ghost var before := Contents();
      SingleStored(cb, value);
      SingleEvents(cb, before[idx], value);
      var kept := value;
      if cb.retain.Some? {
        log := log + [Retained(value)];
        kept := cb.retain.value(value);
      }
      var oldValue := store[leftIdx + idx];
      store[leftIdx + idx] := kept;
      if cb.release {
        log := log + [Released(oldValue)];
      }
      assert Contents() == before[idx := kept];
      SpliceOne(before, idx, kept);
    }

    static lemma SingleStored(cb: Callbacks, value: Ref)
      ensures Stored(cb, [value]) == [if cb.retain.Some? then cb.retain.value(value) else value]
    {
    }

    static lemma SpliceOne(s: seq<Ref>, i: nat, v: Ref)
      requires i < |s|
      ensures Splice(s, i, 1, [v]) == s[i := v] && s[i..i + 1] == [s[i]]
    {
    }

    static lemma SingleEvents(cb: Callbacks, gone: Ref, come: Ref)
      ensures ReplaceEvents(cb, [gone], [come])
        == (if cb.retain.Some? then [Retained(come)] else []) + (if cb.release then [Released(gone)] else [])
    {
    }

    /** CFArrayRemoveAllValues: every value is released and the store given up. */
    method RemoveAllValues()
      requires Valid()
      modifies this`store, this`count, this`log, store
      ensures Valid() && Contents() == []
      ensures log == old(log) + if cb.release then ReleaseAll(old(Contents())) else []
    {
      ghost var before := Contents();
      assert before[0..count] == before;
      if store != null {
        ReleaseValues(0, count);
      } else {
        assert ReleaseAll(before) == [];
      }
      count := 0;
      store := null;
    }

    /** CFArrayExchangeValuesAtIndices makes no callback. */
    method ExchangeValuesAtIndices(idx1: nat, idx2: nat)
      requires Valid() && idx1 < count && idx2 < count
      modifies store
      ensures Valid() && Contents() == old(Contents())[idx1 := old(Contents())[idx2]][idx2 := old(Contents())[idx1]]
    {
      var tmp := store[leftIdx + idx1];
      store[leftIdx + idx1] := store[leftIdx + idx2];
      store[leftIdx + idx2] := tmp;
    }

    /** _CFArraySetCapacity: whatever it makes room for, nothing visible changes. */
    method SetCapacity(cap: nat)
      requires Valid() && ShiftDefined(cap) && count <= cap
      requires store != null ==> store.Length <= RoundUpCapacity(cap)
      modifies this`store, this`leftIdx
      ensures Valid() && fresh(store) && store.Length == RoundUpCapacity(cap) && Contents() == old(Contents())
    {
      var capacity := RoundUpCapacity(cap);
      var deque := new Ref[capacity](_ => NULL);
      if store == null {
        leftIdx := capacity / 2;
      } else {
        MoveBuckets(deque, 0, store, 0, store.Length);
        MovedKeeps(deque[..], 0, store[..], 0, store.Length);
        assert deque[..store.Length] == store[..];
      }
      store := deque;
    }
  }

  /** New values written between the two sides complete the splice. */
  lemma SpliceInPlace(s: seq<Ref>, loc: nat, len: nat, newv: seq<Ref>, was: seq<Ref>, now: seq<Ref>, left: nat)
    requires loc + len <= |s| && |was| == |now| && left + |s| - len + |newv| <= |now|
    requires Keeps(s, 0, was, left, loc) && Keeps(s, loc + len, was, left + loc + |newv|, |s| - loc - len)
    requires forall j :: 0 <= j < |now| ==>
      now[j] == if left + loc <= j < left + loc + |newv| then newv[j - left - loc] else was[j]
    ensures now[left..left + |s| - len + |newv|] == Splice(s, loc, len, newv)
  {
    var result := Splice(s, loc, len, newv);
    forall i | 0 <= i < |result|
      ensures now[left + i] == result[i]
    {
      if i < loc {
        assert now[left + i] == was[left + i];
      } else if i >= loc + |newv| {
        assert now[left + i] == was[left + i];
        assert result[i] == s[i - |newv| + len];
      }
    }
  }

  // --------------------------------------------------------- reference balance

  /** Retains that gave `v`, less releases of it, in a run of callbacks. */
  function Outstanding(cb: Callbacks, log: seq<Event>, v: Ref): int {
    if log == [] then 0
    else Outstanding(cb, log[..|log| - 1], v) + Change(cb, log[|log| - 1], v)
  }

  function Change(cb: Callbacks, ev: Event, v: Ref): int {
    match ev
    case Retained(u) => if cb.retain.Some? && cb.retain.value(u) == v then 1 else 0
    case Released(u) => if u == v then -1 else 0
  }

  /** The array holds one reference per element: what balanced callbacks are for. */
  ghost predicate Balanced(cb: Callbacks, log: seq<Event>, s: seq<Ref>) {
    forall v :: Outstanding(cb, log, v) == multiset(s)[v]
  }

  lemma {:induction false} OutstandingSum(cb: Callbacks, a: seq<Event>, b: seq<Event>, v: Ref)
    ensures Outstanding(cb, a + b, v) == Outstanding(cb, a, v) + Outstanding(cb, b, v)
  {
    if b == [] {
      assert a + b == a;
    } else {
      OutstandingSum(cb, a, b[..|b| - 1], v);
      assert (a + b)[..|a + b| - 1] == a + b[..|b| - 1];
    }
  }

  lemma {:induction false} OutstandingRetains(cb: Callbacks, vs: seq<Ref>, v: Ref)
    requires cb.retain.Some?
    ensures Outstanding(cb, RetainAll(vs), v) == multiset(Stored(cb, vs))[v]
  {
    if vs != [] {
      var front, last := vs[..|vs| - 1], vs[|vs| - 1];
      OutstandingRetains(cb, front, v);
      assert RetainAll(vs)[..|vs| - 1] == RetainAll(front);
      assert Stored(cb, vs) == Stored(cb, front) + [cb.retain.value(last)];
    }
  }

  lemma {:induction false} OutstandingReleases(cb: Callbacks, vs: seq<Ref>, v: Ref)
    ensures Outstanding(cb, ReleaseAll(vs), v) + multiset(vs)[v] == 0
  {
    if vs != [] {
      var front := vs[..|vs| - 1];
      OutstandingReleases(cb, front, v);
      assert ReleaseAll(vs)[..|vs| - 1] == ReleaseAll(front);
      assert vs == front + [vs[|vs| - 1]];
    }
  }

  /** Callbacks that keep count: both present. A retain may give another object than it was given. */
  predicate Counting(cb: Callbacks) {
    cb.retain.Some? && cb.release
  }

  /** Each new value is retained once and each replaced one released once, so balance is kept. */
  lemma ReplaceBalanced(cb: Callbacks, log: seq<Event>, s: seq<Ref>, loc: nat, len: nat, vs: seq<Ref>)
    requires Counting(cb) && loc + len <= |s| && Balanced(cb, log, s)
    ensures Balanced(cb, log + ReplaceEvents(cb, s[loc..loc + len], vs), Splice(s, loc, len, Stored(cb, vs)))
  {
    hide Outstanding, Stored;
    var gone := s[loc..loc + len];
    assert s == s[..loc] + gone + s[loc + len..];
    forall v
      ensures Outstanding(cb, log + ReplaceEvents(cb, gone, vs), v) == multiset(Splice(s, loc, len, Stored(cb, vs)))[v]
    {
      OutstandingSum(cb, log, ReplaceEvents(cb, gone, vs), v);
      OutstandingSum(cb, RetainAll(vs), ReleaseAll(gone), v);
      OutstandingRetains(cb, vs, v);
      OutstandingReleases(cb, gone, v);
    }
  }

  /**
   * At no moment during a replacement does the count of an object fall below what it was
   * before or what it will be: a value that stays, or is put back, is never let go.
   */
  lemma NeverLetGo(cb: Callbacks, log: seq<Event>, s: seq<Ref>, loc: nat, len: nat, vs: seq<Ref>, k: nat, v: Ref)
    requires Counting(cb) && loc + len <= |s| && Balanced(cb, log, s)
    requires k <= |ReplaceEvents(cb, s[loc..loc + len], vs)|
    ensures var now := Outstanding(cb, log + ReplaceEvents(cb, s[loc..loc + len], vs)[..k], v);
      multiset(s)[v] <= now || multiset(Splice(s, loc, len, Stored(cb, vs)))[v] <= now
  {
    var gone := s[loc..loc + len];
    var events := ReplaceEvents(cb, gone, vs);
    if k <= |vs| {
      assert events[..k] == RetainAll(vs[..k]);
      hide Outstanding, ReplaceEvents, Splice, Stored;
      OutstandingSum(cb, log, events[..k], v);
      OutstandingRetains(cb, vs[..k], v);
    } else {
      var rest := gone[k - |vs|..];
      assert events[k..] == ReleaseAll(rest);
      LateEvents(cb, log, s, loc, len, vs, k, rest, v);
    }
  }

  /** What is still to come are releases only, and in the end the account is right. */
  lemma LateEvents(cb: Callbacks, log: seq<Event>, s: seq<Ref>, loc: nat, len: nat, vs: seq<Ref>, k: nat, rest: seq<Ref>, v: Ref)
    requires Counting(cb) && loc + len <= |s| && Balanced(cb, log, s)
    requires k <= |ReplaceEvents(cb, s[loc..loc + len], vs)|
    requires ReplaceEvents(cb, s[loc..loc + len], vs)[k..] == ReleaseAll(rest)
    ensures multiset(Splice(s, loc, len, Stored(cb, vs)))[v]
         <= Outstanding(cb, log + ReplaceEvents(cb, s[loc..loc + len], vs)[..k], v)
  {
    hide Outstanding, ReplaceEvents, Splice, Stored;
    var events := ReplaceEvents(cb, s[loc..loc + len], vs);
    ReplaceBalanced(cb, log, s, loc, len, vs);
    assert events == events[..k] + events[k..];
    OutstandingSum(cb, log, events[..k], v);
    OutstandingSum(cb, events[..k], events[k..], v);
    OutstandingSum(cb, log, events, v);
    OutstandingReleases(cb, rest, v);
  }
}
