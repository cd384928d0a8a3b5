/** Following object references: finite unfoldings, cycles, and the reader's way to find them. */
module PlistDecoding {
  import opened Bytes
  import opened PlistModel

  datatype Kind = ArrayKind | SetKind | DictKind

  /** An object whose references have been turned into offsets, none of them followed yet. */
  datatype Item = Bad | Leaf(value: Plist) | Refs(kind: Kind, kids: seq<nat>)

  /** What the bytes from each offset on say; only offsets from 8 up hold objects. */
  datatype Store = Store(items: seq<Item>) {
    ghost predicate Has(off: nat) {
      8 <= off < |items|
    }

    ghost function Kids(off: nat): seq<nat> {
      if Has(off) && items[off].Refs? then items[off].kids else []
    }
  }

  function KeyCount(item: Item): nat {
    if item.Refs? && item.kind == DictKind then |item.kids| / 2 else 0
  }

  function Build(kind: Kind, vals: seq<Plist>): Plist {
    match kind
    case ArrayKind => PArray(vals)
    case SetKind => PSet(vals)
    case DictKind => PDict(vals[..|vals| / 2], vals[|vals| / 2..])
  }

  /** The value of an object whose children, if any, have been decoded to `vals`. */
  function Finish(item: Item, vals: Option<seq<Plist>>): Option<Plist> {
    match item
    case Bad => None
    case Leaf(v) => Some(v)
    case Refs(kind, _) => if vals.Some? then Some(Build(kind, vals.value)) else None
  }

  // ---------------------------------------------------- what a file represents

  /**
   * The value at an offset by plain unfolding: no table of finished objects, no record of
   * the path, no depth rule; at most `n` levels. This is what the bytes mean.
   */
  ghost function Tree(s: Store, off: nat, n: nat): Option<Plist>
    decreases n, 0
  {
    if n == 0 || !s.Has(off) then None
    else Finish(s.items[off], TreeBelow(s, off, n - 1))
  }

  ghost function TreeBelow(s: Store, off: nat, n: nat): Option<seq<Plist>>
    requires s.Has(off)
    decreases n, 2 + |s.Kids(off)|
  {
    TreeKids(s, s.Kids(off), n, KeyCount(s.items[off]))
  }

  /** The values of a list of offsets, the first `keys` of which must be primitive. */
  ghost function TreeKids(s: Store, kids: seq<nat>, n: nat, keys: nat): Option<seq<Plist>>
    decreases n, 1 + |kids|
  {
    if kids == [] then Some([])
    else
      match Tree(s, kids[0], n)
      case None => None
      case Some(v) =>
        if keys > 0 && !v.IsPrimitive() then None
        else
          match TreeKids(s, kids[1..], n, if keys > 0 then keys - 1 else 0)
          case None => None
          case Some(vs) => Some([v] + vs)
  }

  // ------------------------------------------------ what the reader computes

  ghost function Area(s: Store): set<nat> {
    set off: nat | 8 <= off < |s.items| && s.Has(off)
  }

  ghost function OnPath(path: Option<set<nat>>): set<nat> {
    if path.Some? then path.value else {}
  }

  /** Call levels still possible: those before the path is recorded, then fresh offsets. */
  ghost function Level(s: Store, path: Option<set<nat>>, depth: nat): nat {
    (if path.Some? then 0 else if depth <= 15 then 17 - depth else 1) + |Area(s) - OnPath(path)|
  }

  /** The path handed to the children: recorded from depth 16 on. */
  function Enter(path: Option<set<nat>>, depth: nat, off: nat): Option<set<nat>> {
    match path
    case Some(p) => Some(p + {off})
    case None => if 15 < depth then Some({off}) else None
  }

  lemma EnterDescends(s: Store, path: Option<set<nat>>, depth: nat, off: nat)
    requires s.Has(off) && off !in OnPath(path)
    ensures Level(s, Enter(path, depth, off), depth + 1) < Level(s, path, depth)
  {
    assert off in Area(s);
    hide Area;
    if Enter(path, depth, off).Some? {
      assert Area(s) - OnPath(Enter(path, depth, off)) == (Area(s) - OnPath(path)) - {off};
    }
  }

  /** The reader without its table of finished objects. */
  ghost function Decode(s: Store, off: nat, path: Option<set<nat>>, depth: nat): Option<Plist>
    decreases Level(s, path, depth), 0
  {
    if off in OnPath(path) || !s.Has(off) then None
    else
      EnterDescends(s, path, depth, off);
      Finish(s.items[off], DecodeBelow(s, off, path, depth))
  }

  ghost function DecodeBelow(s: Store, off: nat, path: Option<set<nat>>, depth: nat): Option<seq<Plist>>
    requires s.Has(off) && off !in OnPath(path)
    decreases Level(s, Enter(path, depth, off), depth + 1), 2 + |s.Kids(off)|
  {
    DecodeKids(s, s.Kids(off), Enter(path, depth, off), depth + 1, KeyCount(s.items[off]))
  }

  ghost function DecodeKids(s: Store, kids: seq<nat>, path: Option<set<nat>>, depth: nat, keys: nat): Option<seq<Plist>>
    decreases Level(s, path, depth), 1 + |kids|
  {
    if kids == [] then Some([])
    else
      match Decode(s, kids[0], path, depth)
      case None => None
      case Some(v) =>
        if keys > 0 && !v.IsPrimitive() then None
        else
          match DecodeKids(s, kids[1..], path, depth, if keys > 0 then keys - 1 else 0)
          case None => None
          case Some(vs) => Some([v] + vs)
  }

  // ------------------------------------- the path check rejects exactly cycles

  /** `b` is found from `a` by following `k` references. */
  ghost predicate Reach(s: Store, a: nat, b: nat, k: nat)
    decreases k
  {
    if k == 0 then a == b else exists c: nat :: Reach(s, a, c, k - 1) && b in s.Kids(c)
  }

  /** Every offset on the path is a proper ancestor of `off`. */
  ghost predicate Leads(s: Store, path: set<nat>, off: nat)
  {
    forall p :: p in path ==> exists k: nat :: k > 0 && Reach(s, p, off, k)
  }

  lemma LeadsOn(s: Store, path: set<nat>, off: nat, kid: nat)
    requires Leads(s, path, off) && kid in s.Kids(off)
    ensures Leads(s, path + {off}, kid)
  {
    forall p | p in path + {off}
      ensures exists k: nat :: k > 0 && Reach(s, p, kid, k)
    {
      if p == off {
        assert Reach(s, off, off, 0);
        assert Reach(s, off, kid, 1);
      } else {
        var k: nat :| k > 0 && Reach(s, p, off, k);
        assert Reach(s, p, kid, k + 1);
      }
    }
  }

  lemma {:induction false} TreeKidsEach(s: Store, kids: seq<nat>, n: nat, keys: nat, q: nat)
    requires TreeKids(s, kids, n, keys).Some? && q in kids
    ensures Tree(s, q, n).Some?
  {
    if q != kids[0] {
      TreeKidsEach(s, kids[1..], n, if keys > 0 then keys - 1 else 0, q);
    }
  }

  lemma TreeKid(s: Store, off: nat, n: nat, q: nat)
    requires Tree(s, off, n).Some? && q in s.Kids(off)
    ensures n > 1 && Tree(s, q, n - 1).Some?
  {
    assert TreeBelow(s, off, n - 1).Some?;
    TreeKidsEach(s, s.Kids(off), n - 1, KeyCount(s.items[off]), q);
  }

  lemma {:induction false} TreeReach(s: Store, a: nat, n: nat, b: nat, k: nat)
    requires Tree(s, a, n).Some? && Reach(s, a, b, k)
    ensures k < n && Tree(s, b, n - k).Some?
    decreases k
  {
    if k > 0 {
      var c: nat :| Reach(s, a, c, k - 1) && b in s.Kids(c);
      TreeReach(s, a, n, c, k - 1);
      TreeKid(s, c, n - k + 1, b);
    }
  }

  /** An offset with a finite unfolding lies on no reference cycle. */
  lemma {:induction false} NoCycle(s: Store, off: nat, n: nat, k: nat)
    requires Tree(s, off, n).Some? && k > 0
    ensures !Reach(s, off, off, k)
    decreases n
  {
    if Reach(s, off, off, k) {
      TreeReach(s, off, n, off, k);
      NoCycle(s, off, n - k, k);
    }
  }

  lemma {:induction false} TreeMonotone(s: Store, off: nat, m: nat, n: nat)
    requires m <= n && Tree(s, off, m).Some?
    ensures Tree(s, off, n) == Tree(s, off, m)
    decreases m, 0
  {
    assert Tree(s, off, m) == Finish(s.items[off], TreeBelow(s, off, m - 1));
    if s.items[off].Refs? {
      TreeKidsMonotone(s, s.Kids(off), m - 1, n - 1, KeyCount(s.items[off]));
      assert TreeBelow(s, off, m - 1) == TreeBelow(s, off, n - 1);
    }
  }

  lemma {:induction false} TreeKidsMonotone(s: Store, kids: seq<nat>, m: nat, n: nat, keys: nat)
    requires m <= n && TreeKids(s, kids, m, keys).Some?
    ensures TreeKids(s, kids, n, keys) == TreeKids(s, kids, m, keys)
    decreases m, 1 + |kids|
  {
    if kids != [] {
      TreeMonotone(s, kids[0], m, n);
      TreeKidsMonotone(s, kids[1..], m, n, if keys > 0 then keys - 1 else 0);
    }
  }

  /** An ancestor never shows up again below, and each child has one ancestor more. */
  lemma PathStaysClear(s: Store, off: nat, n: nat, path: set<nat>)
    requires Tree(s, off, n).Some? && Leads(s, path, off)
    ensures off !in path && forall q :: q in s.Kids(off) ==> Leads(s, path + {off}, q) && Leads(s, {off}, q)
  {
    if off in path {
      var k: nat :| k > 0 && Reach(s, off, off, k);
      NoCycle(s, off, n, k);
    }
    forall q | q in s.Kids(off)
      ensures Leads(s, path + {off}, q) && Leads(s, {off}, q)
    {
      LeadsOn(s, path, off, q);
    }
  }

  /** Whatever path and depth it is reached by, a finite unfolding is what the reader returns. */
  lemma {:induction false} TreeIsDecoded(s: Store, off: nat, n: nat, path: Option<set<nat>>, depth: nat, v: Plist)
    requires Tree(s, off, n) == Some(v) && Leads(s, OnPath(path), off)
    ensures Decode(s, off, path, depth) == Some(v)
    decreases n, 0
  {
    assert Decode(s, off, path, depth) == Finish(s.items[off], DecodeBelow(s, off, path, depth)) by {
      PathStaysClear(s, off, n, OnPath(path));
    }
    if s.items[off].Refs? {
      var vals := TreeBelow(s, off, n - 1).value;
      TreeKidsLead(s, off, n, path, depth);
      TreeKidsDecoded(s, s.Kids(off), n - 1, Enter(path, depth, off), depth + 1, KeyCount(s.items[off]), vals);
    }
  }

  lemma TreeKidsLead(s: Store, off: nat, n: nat, path: Option<set<nat>>, depth: nat)
    requires Tree(s, off, n).Some? && Leads(s, OnPath(path), off)
    ensures forall q :: q in s.Kids(off) ==> Leads(s, OnPath(Enter(path, depth, off)), q)
  {
    PathStaysClear(s, off, n, OnPath(path));
  }

  lemma {:induction false} TreeKidsDecoded(s: Store, kids: seq<nat>, n: nat, path: Option<set<nat>>, depth: nat, keys: nat,
                                           vals: seq<Plist>)
    requires TreeKids(s, kids, n, keys) == Some(vals)
    requires forall q :: q in kids ==> Leads(s, OnPath(path), q)
    ensures DecodeKids(s, kids, path, depth, keys) == Some(vals)
    decreases n, 1 + |kids|
  {
    if kids != [] {
      TreeIsDecoded(s, kids[0], n, path, depth, vals[0]);
      TreeKidsDecoded(s, kids[1..], n, path, depth, if keys > 0 then keys - 1 else 0, vals[1..]);
    }
  }

  /** What the reader returns is the plain unfolding, within a known number of levels. */
  lemma {:induction false} DecodedIsTree(s: Store, off: nat, path: Option<set<nat>>, depth: nat, v: Plist)
    requires Decode(s, off, path, depth) == Some(v)
    ensures Tree(s, off, Level(s, path, depth) + 1) == Some(v)
    decreases Level(s, path, depth), 0
  {
    hide Level, Enter, TreeKids, DecodeKids;
    var n := Level(s, path, depth);
    assert Decode(s, off, path, depth) == Finish(s.items[off], DecodeBelow(s, off, path, depth));
    if s.items[off].Refs? {
      var vals := DecodeBelow(s, off, path, depth).value;
      EnterDescends(s, path, depth, off);
      DecodedKidsAreTrees(s, s.Kids(off), Enter(path, depth, off), depth + 1, KeyCount(s.items[off]), vals);
      TreeKidsMonotone(s, s.Kids(off), Level(s, Enter(path, depth, off), depth + 1) + 1, n, KeyCount(s.items[off]));
      assert TreeBelow(s, off, n) == Some(vals);
    }
  }

  lemma {:induction false} DecodedKidsAreTrees(s: Store, kids: seq<nat>, path: Option<set<nat>>, depth: nat, keys: nat,
                                               vals: seq<Plist>)
    requires DecodeKids(s, kids, path, depth, keys) == Some(vals)
    ensures TreeKids(s, kids, Level(s, path, depth) + 1, keys) == Some(vals)
    decreases Level(s, path, depth), 1 + |kids|
  {
    if kids != [] {
      DecodedIsTree(s, kids[0], path, depth, vals[0]);
      DecodedKidsAreTrees(s, kids[1..], path, depth, if keys > 0 then keys - 1 else 0, vals[1..]);
    }
  }

  /**
   * The reader accepts an object exactly when its references unfold to a finite tree, and
   * then returns that tree: recording the path only from depth 16 on loses nothing.
   */
  lemma CycleCheckExact(s: Store, off: nat, v: Plist)
    ensures Decode(s, off, None, 0) == Some(v) <==> exists n: nat :: Tree(s, off, n) == Some(v)
  {
    if Decode(s, off, None, 0) == Some(v) {
      DecodedIsTree(s, off, None, 0, v);
    }
    if n: nat :| Tree(s, off, n) == Some(v) {
      TreeIsDecoded(s, off, n, None, 0, v);
    }
  }

  // ------------------------------------------------------- depth of the recursion

  /** A decode cut off after `levels` nested calls. */
  datatype Bounded<+T> = CutOff | Ended(result: Option<T>)

  ghost function DecodeWithin(s: Store, off: nat, path: Option<set<nat>>, depth: nat, levels: nat): Bounded<Plist>
    decreases levels, 0
  {
    if levels == 0 then CutOff
    else if off in OnPath(path) || !s.Has(off) then Ended(None)
    else
      match DecodeKidsWithin(s, s.Kids(off), Enter(path, depth, off), depth + 1, KeyCount(s.items[off]), levels - 1)
      case CutOff => CutOff
      case Ended(vals) => Ended(Finish(s.items[off], vals))
  }

  ghost function DecodeKidsWithin(s: Store, kids: seq<nat>, path: Option<set<nat>>, depth: nat, keys: nat, levels: nat): Bounded<seq<Plist>>
    decreases levels, 1 + |kids|
  {
    if kids == [] then Ended(Some([]))
    else
      match DecodeWithin(s, kids[0], path, depth, levels)
      case CutOff => CutOff
      case Ended(None) => Ended(None)
      case Ended(Some(v)) =>
        if keys > 0 && !v.IsPrimitive() then Ended(None)
        else
          match DecodeKidsWithin(s, kids[1..], path, depth, if keys > 0 then keys - 1 else 0, levels)
          case CutOff => CutOff
          case Ended(None) => Ended(None)
          case Ended(Some(vs)) => Ended(Some([v] + vs))
  }

  lemma {:induction false} NeverCutOff(s: Store, off: nat, path: Option<set<nat>>, depth: nat, levels: nat)
    requires Level(s, path, depth) < levels
    ensures DecodeWithin(s, off, path, depth, levels) == Ended(Decode(s, off, path, depth))
    decreases levels, 0
  {
    if off !in OnPath(path) && s.Has(off) {
      EnterDescends(s, path, depth, off);
      KidsNeverCutOff(s, s.Kids(off), Enter(path, depth, off), depth + 1, KeyCount(s.items[off]), levels - 1);
      assert Decode(s, off, path, depth) == Finish(s.items[off], DecodeBelow(s, off, path, depth));
    }
  }

  lemma {:induction false} KidsNeverCutOff(s: Store, kids: seq<nat>, path: Option<set<nat>>, depth: nat, keys: nat, levels: nat)
    requires Level(s, path, depth) < levels
    ensures DecodeKidsWithin(s, kids, path, depth, keys, levels) == Ended(DecodeKids(s, kids, path, depth, keys))
    decreases levels, 1 + |kids|
  {
    if kids != [] {
      NeverCutOff(s, kids[0], path, depth, levels);
      KidsNeverCutOff(s, kids[1..], path, depth, if keys > 0 then keys - 1 else 0, levels);
    }
  }

  lemma {:induction false} AreaSize(s: Store, m: nat)
    ensures |set off: nat | 8 <= off < m && s.Has(off)| <= m
  {
    var area := set off: nat | 8 <= off < m && s.Has(off);
    if m > 0 {
      AreaSize(s, m - 1);
      var less := set off: nat | 8 <= off < m - 1 && s.Has(off);
      assert area <= less + {m - 1};
      SubsetSize(area, less + {m - 1});
    }
  }

  lemma {:induction false} SubsetSize(a: set<nat>, b: set<nat>)
    requires a <= b
    ensures |a| <= |b|
  {
    if a != {} {
      var x :| x in a;
      SubsetSize(a - {x}, b - {x});
    }
  }

  /** On any file, cyclic or not, reading ends within 17 calls more than the object area has bytes. */
  lemma RecursionDepth(s: Store, off: nat, levels: nat)
    requires levels > 17 + |s.items|
    ensures DecodeWithin(s, off, None, 0, levels) == Ended(Decode(s, off, None, 0))
  {
    AreaSize(s, |s.items|);
    SubsetSize(Area(s) - OnPath(None), Area(s));
    NeverCutOff(s, off, None, 0, levels);
  }
}
