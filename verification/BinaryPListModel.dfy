/** What a binary property list is made from and what reading one yields. */
module PlistModel {
  import opened Bytes

  /**
   * One object of a property list graph. Containers name their children by node number, so
   * one object may sit in many places; node numbers play the part of object addresses.
   */
  datatype Node =
    | StringNode(chars: seq<u16>)
    | IntNode(int64: i64)
    | RealNode(bits: seq<u8>)
    | BoolNode(flag: bool)
    | DateNode(bits: seq<u8>)
    | DataNode(bytes: seq<u8>)
    | UidNode(uid: u32)
    | ArrayNode(items: seq<nat>)
    | DictNode(keys: seq<nat>, vals: seq<nat>)
    | OtherNode  // an object of a type the version 00 format has no form for
  {
    function Kids(): seq<nat> {
      match this
      case ArrayNode(items) => items
      case DictNode(keys, vals) => keys + vals
      case _ => []
    }

    /** Lengths fit a CFIndex, and so does the byte size of a container's list of pointers. */
    predicate WellFormed() {
      match this
      case StringNode(chars) => |chars| < TWO_63
      case RealNode(bits) => |bits| == 4 || |bits| == 8
      case DateNode(bits) => |bits| == 8
      case DataNode(bytes) => |bytes| < TWO_63
      case ArrayNode(items) => 8 * |items| < TWO_63
      case DictNode(keys, vals) => |keys| == |vals| && 16 * |keys| < TWO_63
      case _ => true
    }

    /** Strings, numbers, dates and data are uniqued; the rest is listed at every occurrence. */
    predicate Uniqued() {
      StringNode? || IntNode? || RealNode? || DateNode? || DataNode?
    }
  }

  /** A finite acyclic graph; `rank` witnesses that no object contains itself. */
  datatype Graph = Graph(nodes: seq<Node>, rank: seq<nat>) {
    ghost predicate WellFormed() {
      && |rank| == |nodes|
      && forall i :: 0 <= i < |nodes| ==> nodes[i].WellFormed() && KidsBelow(i)
    }

    ghost predicate KidsBelow(i: nat)
      requires |rank| == |nodes| && i < |nodes|
    {
      forall k :: 0 <= k < |nodes[i].Kids()| ==>
        nodes[i].Kids()[k] < |nodes| && rank[nodes[i].Kids()[k]] < rank[i]
    }
  }

  /** A property list value: the tree a graph unfolds to, or the tree a reader builds. */
  datatype Plist =
    | PNull
    | PBool(flag: bool)
    | PInt(int64: i64)
    | PInt128(low: u64)
    | PReal(bits: seq<u8>)
    | PDate(bits: seq<u8>)
    | PData(bytes: seq<u8>)
    | PString(chars: seq<u16>)
    | PUid(uid: u32)
    | PArray(items: seq<Plist>)
    | PSet(items: seq<Plist>)
    | PDict(keys: seq<Plist>, vals: seq<Plist>)
  {
    predicate IsPrimitive() {
      !PArray? && !PSet? && !PDict?
    }
  }

  /** The tree unfolding of node `x`. */
  ghost function Unfold(g: Graph, x: nat): Plist
    requires g.WellFormed() && x < |g.nodes|
    decreases g.rank[x], 1
  {
    match g.nodes[x]
    case StringNode(chars) => PString(chars)
    case IntNode(v) => PInt(v)
    case RealNode(bits) => PReal(bits)
    case BoolNode(b) => PBool(b)
    case DateNode(bits) => PDate(bits)
    case DataNode(bytes) => PData(bytes)
    case UidNode(v) => PUid(v)
    case ArrayNode(items) => PArray(UnfoldKids(g, x))
    case DictNode(keys, vals) =>
      var kids := UnfoldKids(g, x);
      PDict(kids[..|keys|], kids[|keys|..])
    case OtherNode => PNull
  }

  ghost function UnfoldKids(g: Graph, x: nat): (r: seq<Plist>)
    requires g.WellFormed() && x < |g.nodes|
    ensures |r| == |g.nodes[x].Kids()|
    decreases g.rank[x], 0
  {
    var kids := g.nodes[x].Kids();
    assert g.KidsBelow(x);
    seq(|kids|, k requires 0 <= k < |kids| => Unfold(g, kids[k]))
  }

  /** Every dictionary at or below `x` has only non-container keys. */
  ghost predicate KeysPrimitive(g: Graph, x: nat)
    requires g.WellFormed() && x < |g.nodes|
    decreases g.rank[x]
  {
    var n := g.nodes[x];
    assert g.KidsBelow(x);
    && (forall k :: 0 <= k < |n.Kids()| ==> KeysPrimitive(g, n.Kids()[k]))
    && (n.DictNode? ==> forall k :: 0 <= k < |n.keys| ==> Unfold(g, n.Kids()[k]).IsPrimitive())
  }

  /** Every object at or below `x` is of a type the format can hold. */
  ghost predicate Writable(g: Graph, x: nat)
    requires g.WellFormed() && x < |g.nodes|
    decreases g.rank[x]
  {
    var n := g.nodes[x];
    assert g.KidsBelow(x);
    !n.OtherNode? && forall k :: 0 <= k < |n.Kids()| ==> Writable(g, n.Kids()[k])
  }
}
