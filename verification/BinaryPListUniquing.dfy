/** What the writer lists, and how often: shared objects once, others once for each of their places in the tree. */
module PlistUniquing {
  import opened PlistModel
  import opened PlistWriter

  /** The objects of a tree, each before its children, an object as often as it sits in the tree. */
  ghost function Walk(g: Graph, y: nat): (w: seq<nat>)
    requires g.WellFormed() && y < |g.nodes|
    ensures forall x :: x in w ==> x < |g.nodes|
    decreases g.rank[y], 1, 0
  {
    [y] + WalkFrom(g, y, 0)
  }

  /** Those below the children from the `k`-th on. */
  ghost function WalkFrom(g: Graph, y: nat, k: nat): (w: seq<nat>)
    requires g.WellFormed() && y < |g.nodes| && k <= |g.nodes[y].Kids()|
    ensures forall x :: x in w ==> x < |g.nodes|
    decreases g.rank[y], 0, |g.nodes[y].Kids()| - k
  {
    var kids := g.nodes[y].Kids();
    assert g.KidsBelow(y);
    if k == |kids| then [] else Walk(g, kids[k]) + WalkFrom(g, y, k + 1)
  }

  /** Strings, numbers, dates and data: arrays and dictionaries are slow to compare, and the rest is not worth it. */
  predicate Shared(n: Node) {
    match n
    case StringNode(_) => true
    case IntNode(_) => true
    case RealNode(_) => true
    case DateNode(_) => true
    case DataNode(_) => true
    case BoolNode(_) => false
    case UidNode(_) => false
    case ArrayNode(_) => false
    case DictNode(_, _) => false
    case OtherNode => false
  }

  predicate SharedAt(g: Graph, x: nat) {
    x < |g.nodes| && Shared(g.nodes[x])
  }

  /** A walk without the shared objects that have come up before. */
  function Kept(g: Graph, walk: seq<nat>, seen: set<nat>): seq<nat> {
    if walk == [] then []
    else
      (if SharedAt(g, walk[0]) && walk[0] in seen then [] else [walk[0]]) + Kept(g, walk[1..], seen + {walk[0]})
  }

  function Elements(walk: seq<nat>): set<nat> {
    set x | x in walk
  }

  lemma {:induction false} KeptConcat(g: Graph, a: seq<nat>, b: seq<nat>, seen: set<nat>)
    ensures Kept(g, a + b, seen) == Kept(g, a, seen) + Kept(g, b, seen + Elements(a))
  {
    if a == [] {
      assert a + b == b && seen + Elements(a) == seen;
    } else {
      KeptConcat(g, a[1..], b, seen + {a[0]});
      assert (a + b)[1..] == a[1..] + b;
      assert seen + Elements(a) == seen + {a[0]} + Elements(a[1..]);
    }
  }

  lemma KeptFirst(g: Graph, x: nat, rest: seq<nat>, seen: set<nat>)
    ensures Kept(g, [x] + rest, seen) ==
      (if SharedAt(g, x) && x in seen then [] else [x]) + Kept(g, rest, seen + {x})
  {
    assert ([x] + rest)[1..] == rest;
  }

  /** The uniquing set tells of the shared objects which have come up. */
  ghost predicate Tells(g: Graph, s: Flat, seen: set<nat>) {
    forall x: nat :: SharedAt(g, x) ==> (x in s.uniquing <==> x in seen)
  }

  lemma {:induction false} FlattenKeeps(g: Graph, y: nat, s: Flat, seen: set<nat>)
    requires g.WellFormed() && y < |g.nodes| && Tells(g, s, seen)
    ensures Flatten(g, y, s).objlist == s.objlist + Kept(g, Walk(g, y), seen)
    ensures Tells(g, Flatten(g, y, s), seen + Elements(Walk(g, y)))
    decreases g.rank[y], 1, 0
  {
    var below, s1 := WalkFrom(g, y, 0), s.Listed(y, g.nodes[y].Uniqued());
    FlattenOne(g, y, s, seen);
    assert Walk(g, y) == [y] + below && s1.objlist == s.objlist + [y];
    FlattenKidsKeeps(g, y, 0, s1, seen + {y});
    hide Kept, FlattenKids, Flatten, SharedAt, Node.Uniqued, WalkFrom, Walk, Tells, Elements;
    KeptFirst(g, y, below, seen);
    ElementsFirst(y, below, seen);
    KeptNone(g, seen + {y});
  }

  lemma ElementsFirst(x: nat, rest: seq<nat>, seen: set<nat>)
    ensures seen + Elements([x] + rest) == seen + {x} + Elements(rest)
    ensures seen + {x} + Elements([]) == seen + {x}
  {
  }

  lemma KeptNone(g: Graph, seen: set<nat>)
    ensures Kept(g, [], seen) == []
  {
  }

  /** One step of flattening, and of a walk. */
  lemma FlattenOne(g: Graph, y: nat, s: Flat, seen: set<nat>)
    requires g.WellFormed() && y < |g.nodes| && Tells(g, s, seen)
    ensures var s1 := s.Listed(y, g.nodes[y].Uniqued());
      && Tells(g, s1, seen + {y})
      && Flatten(g, y, s) == (if SharedAt(g, y) && y in seen then s else FlattenKids(g, y, 0, s1))
      && (SharedAt(g, y) && y in seen ==> Tells(g, s, seen + {y}))
      && (SharedAt(g, y) ==> WalkFrom(g, y, 0) == [])
  {
    hide FlattenKids;
    assert SharedAt(g, y) ==> g.nodes[y].Kids() == [];
  }

  lemma {:induction false} FlattenKidsKeeps(g: Graph, y: nat, k: nat, s: Flat, seen: set<nat>)
    requires g.WellFormed() && y < |g.nodes| && k <= |g.nodes[y].Kids()| && Tells(g, s, seen)
    ensures FlattenKids(g, y, k, s).objlist == s.objlist + Kept(g, WalkFrom(g, y, k), seen)
    ensures Tells(g, FlattenKids(g, y, k, s), seen + Elements(WalkFrom(g, y, k)))
    decreases g.rank[y], 0, |g.nodes[y].Kids()| - k
  {
    hide Flatten, Walk, Node.Kids, Tells;
    FlattenKidsStep(g, y, k, s);
    if k < |g.nodes[y].Kids()| {
      var kid := g.nodes[y].Kids()[k];
      var walk, later := Walk(g, kid), WalkFrom(g, y, k + 1);
      FlattenKeeps(g, kid, s, seen);
      FlattenKidsKeeps(g, y, k + 1, Flatten(g, kid, s), seen + Elements(walk));
      KeptConcat(g, walk, later, seen);
      assert seen + Elements(walk) + Elements(later) == seen + Elements(walk + later);
    } else {
      assert seen + Elements([]) == seen;
    }
  }

  /** The object list of a file: the tree in order, each shared object only where it first comes up. */
  lemma ListedInOrder(g: Graph, top: nat)
    requires g.WellFormed() && top < |g.nodes|
    ensures Flattened(g, top).objlist == Kept(g, Walk(g, top), {})
  {
    FlattenKeeps(g, top, EMPTY, {});
    hide Flatten, Walk, Kept;
    assert [] + Kept(g, Walk(g, top), {}) == Kept(g, Walk(g, top), {});
  }

  /** How often an object stays in a walk. */
  lemma {:induction false} KeptTimes(g: Graph, walk: seq<nat>, seen: set<nat>, x: nat)
    ensures multiset(Kept(g, walk, seen))[x] ==
      if !SharedAt(g, x) then multiset(walk)[x] else if x in seen || x !in walk then 0 else 1
  {
    if walk != [] {
      var first, rest := walk[0], walk[1..];
      KeptTimes(g, rest, seen + {first}, x);
      assert walk == [first] + rest;
      assert multiset(walk) == multiset{first} + multiset(rest);
      var kept := if SharedAt(g, first) && first in seen then [] else [first];
      assert multiset(Kept(g, walk, seen)) == multiset(kept) + multiset(Kept(g, rest, seen + {first}));
      hide Shared;
    }
  }

  /**
   * A string, number, date or data object is listed once if it is in the tree at all, any other object once for
   * each of its places.
   */
  lemma ListedExactly(g: Graph, top: nat, x: nat)
    requires g.WellFormed() && top < |g.nodes| && x < |g.nodes|
    ensures var n, listed, places := g.nodes[x], multiset(Flattened(g, top).objlist)[x], multiset(Walk(g, top))[x];
      && (n.StringNode? || n.IntNode? || n.RealNode? || n.DateNode? || n.DataNode? ==> listed == if places > 0 then 1 else 0)
      && (n.BoolNode? || n.UidNode? || n.ArrayNode? || n.DictNode? || n.OtherNode? ==> listed == places)
  {
    ListedInOrder(g, top);
    KeptTimes(g, Walk(g, top), {}, x);
    hide Flattened, Walk, Kept;
  }

  /** No two entries are the same shared object. */
  lemma NeverTwice(g: Graph, top: nat, i: nat, j: nat)
    requires g.WellFormed() && top < |g.nodes| && i < j < |Flattened(g, top).objlist|
    requires Flattened(g, top).objlist[i] == Flattened(g, top).objlist[j]
    ensures var n := g.nodes[Flattened(g, top).objlist[i]];
      !n.StringNode? && !n.IntNode? && !n.RealNode? && !n.DateNode? && !n.DataNode?
  {
    var list := Flattened(g, top).objlist;
    ListedExactly(g, top, list[i]);
    Twice(list, i, j);
    hide Flattened, Walk;
  }

  lemma Twice(list: seq<nat>, i: nat, j: nat)
    requires i < j < |list| && list[i] == list[j]
    ensures multiset(list)[list[i]] >= 2
  {
    assert list == list[..j] + list[j..] && list[..j][i] == list[i] && list[j..][0] == list[i];
    assert multiset(list) == multiset(list[..j]) + multiset(list[j..]);
    assert list[i] in multiset(list[..j]) && list[i] in multiset(list[j..]);
  }

  /** An array with the same string twice makes a file of two objects. */
  lemma SharedString(g: Graph)
    requires g.WellFormed() && g.nodes == [ArrayNode([1, 1]), StringNode([0x61])]
    ensures Flattened(g, 0).objlist == [0, 1]
  {
    var s0 := EMPTY.Listed(0, false);
    var s1 := s0.Listed(1, true);
    assert g.nodes[0].Kids() == [1, 1] && g.nodes[1].Kids() == [];
    FlattenKidsStep(g, 0, 0, s0);
    FlattenKidsStep(g, 0, 1, s1);
    FlattenKidsStep(g, 0, 2, s1);
    FlattenKidsStep(g, 1, 0, s1);
    hide FlattenKids, Graph.WellFormed, Graph.KidsBelow;
    assert Flatten(g, 1, s0) == s1 && Flatten(g, 1, s1) == s1;
  }
}
