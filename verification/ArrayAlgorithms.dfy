/** Searching and sorting in CFArray.c. */
module ArrayAlgorithms {
  import opened Bytes
  import opened Comparators
  import opened ArrayDeque

  /** The comparisons with the last and the first item settle the search. */
  ghost predicate Settled<T(!new)>(values: seq<T>, location: nat, length: nat, value: T, cmp: (T, T) -> int) {
    && 0 < length && location + length <= |values|
    && (cmp(values[location + length - 1], value) < 0 || cmp(value, values[location]) < 0)
  }

  /** The first probe width is a shift of a 32-bit int, which is defined up to 30 bits only. */
  lemma ProbeLimit(length: nat)
    requires length > 0
    ensures Flsl(length) - 1 <= 30 <==> length < 0x8000_0000
  {
    FlslBounds(length);
    Pow2Of30();
    assert Pow2(31) == 2 * Pow2(30);
    if Flsl(length) <= 31 {
      Pow2Monotone(Flsl(length), 31);
    } else {
      Pow2Monotone(31, Flsl(length) - 1);
    }
  }

  /**
   * CFArrayBSearchValues: the first index in the range whose item is not less than the value, or the end of the range.
   * The limit on the length only matters if the search gets as far as the shift.
   */
  method BSearchValues<T(!new)>(values: seq<T>, location: nat, length: nat, value: T, cmp: (T, T) -> int) returns (r: nat)
    requires Ordering(cmp) && SortedBetween(cmp, values, location, location + length)
    requires length < 0x8000_0000 || Settled(values, location, length, value, cmp)
    ensures location <= r <= location + length
    ensures forall i :: location <= i < r ==> cmp(values[i], value) < 0
    ensures forall i :: r <= i < location + length ==> cmp(values[i], value) >= 0
  {
    hide Ordering, SortedBetween, Flsl, Pow2;
    if length <= 0 {
      return location;
    }
    var end := location + length;
    assert end <= |values| by {
      RangeInside(cmp, values, location, end);
    }
    if cmp(values[end - 1], value) < 0 {
      BelowProbe(values, location, end, end - 1, value, cmp);
      return end;
    }
    if cmp(value, values[location]) < 0 {
      Opposite(cmp, value, values[location]);
      AboveProbe(values, location, end, location, value, cmp);
      return location;
    }
    FlslBounds(length);
    var lg: nat := Flsl(length) - 1;
    ProbeLimit(length);
    assert lg <= 30;
    Doubled(lg);
    var idx := -1;
    if cmp(values[location - 1 + Pow2(lg)], value) < 0 {
      idx := length - Pow2(lg);
      BelowProbe(values, location, end, location - 1 + Pow2(lg), value, cmp);
    }
    idx := Narrow(values, location, length, value, cmp, idx, lg);
    r := location + idx + 1;
    if idx >= 0 {
      BelowProbe(values, location, end, r - 1, value, cmp);
    }
    if idx + 1 < length {
      AboveProbe(values, location, end, r, value, cmp);
    }
  }

  lemma Doubled(k: nat)
    ensures Pow2(k + 1) == 2 * Pow2(k)
  {
  }

  lemma RangeInside<T(!new)>(cmp: (T, T) -> int, values: seq<T>, lo: nat, hi: nat)
    requires SortedBetween(cmp, values, lo, hi)
    ensures hi <= |values|
  {
  }

  /** The first item not less than the value lies in the `width` slots after `idx`. */
  ghost predicate Within<T(!new)>(values: seq<T>, location: nat, length: nat, value: T, cmp: (T, T) -> int,
    idx: int, width: nat)
  {
    && -1 <= idx && 0 < width && idx + width <= length && location + length <= |values|
    && (idx >= 0 ==> cmp(values[location + idx], value) < 0)
    && (idx + width < length ==> cmp(values[location + idx + width], value) >= 0)
  }

  /** The probe loop: the window halves until it is a single slot. */
  method Narrow<T(!new)>(values: seq<T>, location: nat, length: nat, value: T, cmp: (T, T) -> int, idx0: int, lg0: nat)
    returns (idx: int)
    requires Within(values, location, length, value, cmp, idx0, Pow2(lg0))
    ensures Within(values, location, length, value, cmp, idx, 1)
  {
    idx := idx0;
    var lg := lg0;
    while lg != 0
      invariant Within(values, location, length, value, cmp, idx, Pow2(lg))
    {
      lg := lg - 1;
      assert Pow2(lg + 1) == 2 * Pow2(lg);
      if cmp(values[location + idx + Pow2(lg)], value) < 0 {
        idx := idx + Pow2(lg);
      }
    }
  }

  /** Everything up to a probe that is less than the value is less than the value. */
  lemma BelowProbe<T(!new)>(values: seq<T>, lo: nat, hi: nat, probe: nat, value: T, cmp: (T, T) -> int)
    requires Ordering(cmp) && SortedBetween(cmp, values, lo, hi) && lo <= probe < hi && cmp(values[probe], value) < 0
    ensures forall i :: lo <= i <= probe ==> cmp(values[i], value) < 0
  {
    forall i | lo <= i <= probe
      ensures cmp(values[i], value) < 0
    {
      assert cmp(values[i], values[probe]) <= 0;
      Transitive(cmp, value, values[i], values[probe]);
      Opposite(cmp, value, values[probe]);
      Opposite(cmp, value, values[i]);
    }
  }

  lemma AboveProbe<T(!new)>(values: seq<T>, lo: nat, hi: nat, probe: nat, value: T, cmp: (T, T) -> int)
    requires Ordering(cmp) && SortedBetween(cmp, values, lo, hi) && lo <= probe < hi && cmp(values[probe], value) >= 0
    ensures forall i :: probe <= i < hi ==> cmp(values[i], value) >= 0
  {
    forall i | probe <= i < hi
      ensures cmp(values[i], value) >= 0
    {
      assert cmp(values[probe], values[i]) <= 0;
      Opposite(cmp, value, values[probe]);
      Transitive(cmp, value, values[probe], values[i]);
      Opposite(cmp, value, values[i]);
    }
  }

  // -------------------------------------------------------------- swap-only sort

  /** The elements equivalent to `x`, in order. */
  ghost function Alike(s: seq<Ref>, x: Ref, cmp: (Ref, Ref) -> int): seq<Ref> {
    if s == [] then []
    else Alike(s[..|s| - 1], x, cmp) + if cmp(s[|s| - 1], x) == 0 then [s[|s| - 1]] else []
  }

  /** `t` is `s` with elements moved about, equivalent ones never past each other. */
  ghost predicate StableRearrangement(s: seq<Ref>, t: seq<Ref>, cmp: (Ref, Ref) -> int) {
    |s| == |t| && multiset(s) == multiset(t) && forall x :: Alike(s, x, cmp) == Alike(t, x, cmp)
  }

  lemma {:induction false} AlikeConcat(a: seq<Ref>, b: seq<Ref>, x: Ref, cmp: (Ref, Ref) -> int)
    ensures Alike(a + b, x, cmp) == Alike(a, x, cmp) + Alike(b, x, cmp)
  {
    if b == [] {
      assert a + b == a;
    } else {
      AlikeConcat(a, b[..|b| - 1], x, cmp);
      assert (a + b)[..|a + b| - 1] == a + b[..|b| - 1];
    }
  }

  /** Exchanging neighbours that are out of order is a stable rearrangement. */
  lemma SwapStable(s: seq<Ref>, i: nat, cmp: (Ref, Ref) -> int)
    requires Ordering(cmp) && i + 1 < |s| && cmp(s[i + 1], s[i]) < 0
    ensures StableRearrangement(s, Swapped(s, i), cmp)
  {
    hide Alike, Ordering;
    var t := Swapped(s, i);
    var p, q, a, b := s[..i], s[i + 2..], s[i], s[i + 1];
    assert s == p + [a, b] + q && t == p + [b, a] + q;
    SameElements(p, a, b, q);
    forall x
      ensures Alike(s, x, cmp) == Alike(t, x, cmp)
    {
      AlikeSwap(p, a, b, q, x, cmp);
    }
  }

  lemma SameElements(p: seq<Ref>, a: Ref, b: Ref, q: seq<Ref>)
    ensures multiset(p + [a, b] + q) == multiset(p + [b, a] + q)
  {
  }

  lemma AlikeSwap(p: seq<Ref>, a: Ref, b: Ref, q: seq<Ref>, x: Ref, cmp: (Ref, Ref) -> int)
    requires Ordering(cmp) && cmp(b, a) < 0
    ensures Alike(p + [a, b] + q, x, cmp) == Alike(p + [b, a] + q, x, cmp)
  {
    hide Alike, Ordering;
    AlikeConcat(p + [a, b], q, x, cmp);
    AlikeConcat(p, [a, b], x, cmp);
    AlikeConcat(p + [b, a], q, x, cmp);
    AlikeConcat(p, [b, a], x, cmp);
    AlikePair(a, b, x, cmp);
  }

  lemma AlikePair(a: Ref, b: Ref, x: Ref, cmp: (Ref, Ref) -> int)
    requires Ordering(cmp) && cmp(b, a) < 0
    ensures Alike([a, b], x, cmp) == Alike([b, a], x, cmp)
  {
    assert [a, b][..1] == [a] && [b, a][..1] == [b];
    assert [a][..0] == [] && [b][..0] == [];
    Opposite(cmp, x, b);
    Opposite(cmp, a, b);
    Transitive(cmp, a, x, b);
  }

  /** No element of `lo..mid` is greater than one of `mid..hi`. */
  ghost predicate Parted(cmp: (Ref, Ref) -> int, s: seq<Ref>, lo: nat, mid: nat, hi: nat) {
    lo <= mid <= hi <= |s| && forall i, j :: lo <= i < mid <= j < hi ==> cmp(s[i], s[j]) <= 0
  }

  /** Where a sort that turned `before` into `s` stands when the last elements from `mid` on are in place. */
  ghost predicate Sorting(cmp: (Ref, Ref) -> int, before: seq<Ref>, s: seq<Ref>, lo: nat, mid: nat, hi: nat) {
    && Parted(cmp, s, lo, mid, hi) && SortedBetween(cmp, s, mid, hi)
    && StableRearrangement(before, s, cmp)
    && forall i :: 0 <= i < |s| && !(lo <= i < hi) ==> s[i] == before[i]
  }

  /** No element of `lo..=at` is greater than the one at `at`. */
  ghost predicate Greatest(cmp: (Ref, Ref) -> int, s: seq<Ref>, lo: nat, at: nat) {
    at < |s| && forall i :: lo <= i <= at ==> cmp(s[i], s[at]) <= 0
  }

  lemma StableTransitive(a: seq<Ref>, b: seq<Ref>, c: seq<Ref>, cmp: (Ref, Ref) -> int)
    requires StableRearrangement(a, b, cmp) && StableRearrangement(b, c, cmp)
    ensures StableRearrangement(a, c, cmp)
  {
  }

  /** One comparison of a pass that calls for no exchange. */
  lemma StepOver(cmp: (Ref, Ref) -> int, s: seq<Ref>, lo: nat, at: nat)
    requires Ordering(cmp) && lo <= at && at + 1 < |s| && Greatest(cmp, s, lo, at) && cmp(s[at + 1], s[at]) >= 0
    ensures Greatest(cmp, s, lo, at + 1)
  {
    Opposite(cmp, s[at], s[at + 1]);
    Opposite(cmp, s[at + 1], s[at + 1]);
    forall i | lo <= i <= at + 1
      ensures cmp(s[i], s[at + 1]) <= 0
    {
      Transitive(cmp, s[i], s[at], s[at + 1]);
    }
  }

  function Swapped(s: seq<Ref>, at: nat): seq<Ref>
    requires at + 1 < |s|
  {
    s[at := s[at + 1]][at + 1 := s[at]]
  }

  /** One that does: the greatest so far moves up, and the sort goes on from a stable rearrangement. */
  lemma StepSwap(cmp: (Ref, Ref) -> int, before: seq<Ref>, s: seq<Ref>, lo: nat, mid: nat, hi: nat, at: nat)
    requires Ordering(cmp) && Sorting(cmp, before, s, lo, mid, hi) && lo <= at && at + 1 < mid
    requires Greatest(cmp, s, lo, at) && cmp(s[at + 1], s[at]) < 0
    ensures Sorting(cmp, before, Swapped(s, at), lo, mid, hi) && Greatest(cmp, Swapped(s, at), lo, at + 1)
  {
    hide StableRearrangement, Ordering, Parted, Greatest, SortedBetween;
    PartedRange(cmp, s, lo, mid, hi);
    SwapStable(s, at, cmp);
    StableTransitive(before, s, Swapped(s, at), cmp);
    SwapParted(cmp, s, lo, mid, hi, at);
    SwapGreatest(cmp, s, lo, at);
    SwapSorted(cmp, s, mid, hi, at);
  }

  lemma PartedRange(cmp: (Ref, Ref) -> int, s: seq<Ref>, lo: nat, mid: nat, hi: nat)
    requires Parted(cmp, s, lo, mid, hi)
    ensures lo <= mid <= hi <= |s|
  {
  }

  /** What lies behind a swap is as sorted as before. */
  lemma SwapSorted(cmp: (Ref, Ref) -> int, s: seq<Ref>, mid: nat, hi: nat, at: nat)
    requires SortedBetween(cmp, s, mid, hi) && at + 1 < mid <= |s|
    ensures SortedBetween(cmp, Swapped(s, at), mid, hi)
  {
  }

  lemma SwapGreatest(cmp: (Ref, Ref) -> int, s: seq<Ref>, lo: nat, at: nat)
    requires Ordering(cmp) && lo <= at && at + 1 < |s| && Greatest(cmp, s, lo, at) && cmp(s[at + 1], s[at]) < 0
    ensures Greatest(cmp, Swapped(s, at), lo, at + 1)
  {
    Opposite(cmp, s[at], s[at]);
    hide Ordering;
  }

  lemma SwapParted(cmp: (Ref, Ref) -> int, s: seq<Ref>, lo: nat, mid: nat, hi: nat, at: nat)
    requires Parted(cmp, s, lo, mid, hi) && lo <= at && at + 1 < mid
    ensures Parted(cmp, Swapped(s, at), lo, mid, hi)
  {
    var t := Swapped(s, at);
    forall i, j | lo <= i < mid <= j < hi
      ensures cmp(t[i], t[j]) <= 0
    {
      var from := if i == at then at + 1 else if i == at + 1 then at else i;
      assert cmp(s[from], s[j]) <= 0;
    }
  }

  lemma StartSorting(cmp: (Ref, Ref) -> int, s: seq<Ref>, lo: nat, hi: nat)
    requires lo <= hi <= |s|
    ensures Sorting(cmp, s, s, lo, hi, hi)
  {
  }

  /** A finished pass moves the boundary down by one. */
  lemma PassDone(cmp: (Ref, Ref) -> int, before: seq<Ref>, s: seq<Ref>, lo: nat, mid: nat, hi: nat)
    requires Ordering(cmp) && Sorting(cmp, before, s, lo, mid, hi) && lo < mid && Greatest(cmp, s, lo, mid - 1)
    ensures Sorting(cmp, before, s, lo, mid - 1, hi)
  {
    hide StableRearrangement;
    Opposite(cmp, s[mid - 1], s[mid - 1]);
  }

  lemma AllSorted(cmp: (Ref, Ref) -> int, before: seq<Ref>, s: seq<Ref>, lo: nat, mid: nat, hi: nat)
    requires Ordering(cmp) && Sorting(cmp, before, s, lo, mid, hi) && mid <= lo + 1
    ensures SortedBetween(cmp, s, lo, hi)
  {
    hide StableRearrangement;
    if lo < mid {
      Opposite(cmp, s[lo], s[lo]);
    }
  }

  /** __CFZSort: sorts a range in place, stably and without a single retain or release. */
  method ZSort(arr: MutableArray, location: nat, length: nat, cmp: (Ref, Ref) -> int)
    requires arr.Valid() && Ordering(cmp) && location + length <= arr.count
    modifies arr.store
    ensures arr.Valid()
    ensures SortedBetween(cmp, arr.Contents(), location, location + length)
    ensures StableRearrangement(old(arr.Contents()), arr.Contents(), cmp)
    ensures forall i :: 0 <= i < arr.count && !(location <= i < location + length) ==>
      arr.Contents()[i] == old(arr.Contents())[i]
  {
    hide Ordering, Parted, SortedBetween, StableRearrangement, Greatest;
    ghost var before := arr.Contents();
    var cnt := length;
    StartSorting(cmp, before, location, location + length);
    while 1 < cnt
      invariant 0 <= cnt <= length && arr.Valid()
      invariant Sorting(cmp, before, arr.Contents(), location, location + cnt, location + length)
    {
      BubbleUp(arr, location, cnt, location + length, cmp, before);
      cnt := cnt - 1;
    }
    AllSorted(cmp, before, arr.Contents(), location, location + cnt, location + length);
  }

  /** One pass: the greatest of the first `cnt` elements of the range ends up last among them. */
  method BubbleUp(arr: MutableArray, location: nat, cnt: nat, end: nat, cmp: (Ref, Ref) -> int, ghost before: seq<Ref>)
    requires arr.Valid() && Ordering(cmp) && 1 < cnt && location + cnt <= end <= arr.count
    requires Sorting(cmp, before, arr.Contents(), location, location + cnt, end)
    modifies arr.store
    ensures arr.Valid() && Sorting(cmp, before, arr.Contents(), location, location + cnt - 1, end)
  {
    hide *;
    StartPass(cmp, arr.Contents(), location);
    for idx := location to location + cnt - 1
      invariant arr.Valid() && Sorting(cmp, before, arr.Contents(), location, location + cnt, end)
      invariant Greatest(cmp, arr.Contents(), location, idx)
    {
      BubbleStep(arr, location, location + cnt, end, idx, cmp, before);
    }
    PassDone(cmp, before, arr.Contents(), location, location + cnt, end);
  }

  /** One comparison of a pass, with the exchange it may call for. */
  method BubbleStep(arr: MutableArray, lo: nat, mid: nat, hi: nat, idx: nat, cmp: (Ref, Ref) -> int, ghost before: seq<Ref>)
    requires arr.Valid() && Ordering(cmp) && lo <= idx && idx + 1 < mid && hi <= arr.count
    requires Sorting(cmp, before, arr.Contents(), lo, mid, hi) && Greatest(cmp, arr.Contents(), lo, idx)
    modifies arr.store
    ensures arr.Valid() && Sorting(cmp, before, arr.Contents(), lo, mid, hi) && Greatest(cmp, arr.Contents(), lo, idx + 1)
  {
    hide *;
    ghost var s := arr.Contents();
    SortingRange(cmp, before, s, lo, mid, hi);
    ItemAt(arr, idx);
    ItemAt(arr, idx + 1);
    var a, b := arr.store[arr.leftIdx + idx], arr.store[arr.leftIdx + idx + 1];
    if cmp(b, a) < 0 {
      StepSwap(cmp, before, s, lo, mid, hi, idx);
      arr.ExchangeValuesAtIndices(idx, idx + 1);
      SwappedIs(s, idx);
    } else {
      StepOver(cmp, s, lo, idx);
    }
  }

  lemma SortingRange(cmp: (Ref, Ref) -> int, before: seq<Ref>, s: seq<Ref>, lo: nat, mid: nat, hi: nat)
    requires Sorting(cmp, before, s, lo, mid, hi)
    ensures lo <= mid <= hi <= |s|
  {
  }

  lemma SwappedIs(s: seq<Ref>, at: nat)
    requires at + 1 < |s|
    ensures Swapped(s, at) == s[at := s[at + 1]][at + 1 := s[at]]
  {
  }

  lemma ItemAt(arr: MutableArray, i: nat)
    requires arr.Valid() && i < arr.count
    ensures |arr.Contents()| == arr.count && arr.store != null && arr.leftIdx + i < arr.store.Length
    ensures arr.store[arr.leftIdx + i] == arr.Contents()[i]
  {
  }

  lemma StartPass(cmp: (Ref, Ref) -> int, s: seq<Ref>, lo: nat)
    requires Ordering(cmp) && lo < |s|
    ensures Greatest(cmp, s, lo, lo)
  {
    Opposite(cmp, s[lo], s[lo]);
  }
}
