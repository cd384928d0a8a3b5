/** Releasing blocks: the cascade, a block on its way out, and what the counts say between calls. */
module BlockReleasing {
  import opened Bytes
  import opened LatchingCount
  import opened BlockHeap
  import opened BlockCopying

  // ------------------------------------------------------------ the release cascade

  /** Heap blocks that are not on their way out: what every deallocation uses up. */
  function Alive(blocks: seq<Block>): nat {
    if blocks == [] then 0
    else Alive(blocks[..|blocks| - 1]) + AliveOne(blocks[|blocks| - 1])
  }

  function AliveOne(x: Block): nat {
    if x.live && x.storage.Heap? && !Deallocating(x.bits) then 1 else 0
  }

  lemma {:induction false} AliveUpdate(blocks: seq<Block>, b: nat, x: Block)
    requires b < |blocks|
    ensures Alive(blocks[b := x]) == Alive(blocks) - AliveOne(blocks[b]) + AliveOne(x)
    ensures Alive(blocks) >= AliveOne(blocks[b])
  {
    var n := |blocks| - 1;
    if b < n {
      AliveUpdate(blocks[..n], b, x);
      assert blocks[b := x][..n] == blocks[..n][b := x];
    } else {
      assert blocks[b := x][..n] == blocks[..n];
    }
  }

  /** Memory after releasing: nothing moves or changes its contents, and what is dying stays as it is. */
  ghost predicate Shrunk(m: Memory, m': Memory) {
    && |m'.blocks| == |m.blocks| == |m.owns| == |m'.owns| && |m'.cells| == |m.cells| && m'.origin == m.origin
    && (forall b: nat :: b < |m.blocks| ==> BlockShrunk(m, m', b))
    && (forall c: nat :: c < |m.cells| ==> CellShrunk(m.cells[c], m'.cells[c]))
  }

  ghost predicate BlockShrunk(m: Memory, m': Memory, b: nat)
    requires b < |m.blocks| == |m'.blocks| == |m.owns| == |m'.owns|
  {
    var x, y := m.blocks[b], m'.blocks[b];
    && y == x.(bits := y.bits, live := y.live) && (y.live ==> x.live && m'.owns[b] == m.owns[b])
    && (x.storage.Heap? && x.live && Deallocating(x.bits) ==> y == x)
    && (x.storage.Heap? && y.live && Deallocating(y.bits) ==> Deallocating(x.bits))
    && (!x.storage.Heap? ==> y == x)
  }

  ghost predicate CellShrunk(x: Cell, y: Cell) {
    y == x.(bits := y.bits, live := y.live) && (y.live ==> x.live) && (!x.needsFree ==> y == x)
  }

  /** Releasing leaves the memory between calls as it should be. */
  lemma ShrunkSettled(m: Memory, m': Memory, scopes: set<Addr>)
    requires Shrunk(m, m') && Whole(m.blocks, m.owns)
    ensures Whole(m'.blocks, m'.owns)
    ensures NoneDying(m.blocks) ==> NoneDying(m'.blocks)
    ensures InScope(m.cells, scopes) ==> InScope(m'.cells, scopes)
  {
    forall b: nat | LiveHeap(m'.blocks, b)
      ensures LiveHeap(m.blocks, b) && BlockShrunk(m, m', b)
    {
      assert BlockShrunk(m, m', b);
    }
    forall b: nat | NoneDying(m.blocks) && LiveHeap(m'.blocks, b)
      ensures !Deallocating(m'.blocks[b].bits)
    {
      assert BlockShrunk(m, m', b);
    }
    forall c: nat | c < |m.cells|
      ensures CellShrunk(m.cells[c], m'.cells[c])
    {
    }
  }

  lemma ShrunkItself(m: Memory, scopes: set<Addr>, refs: multiset<Field>, retained: multiset<Addr>)
    requires Sound(m, scopes, refs, retained)
    ensures Shrunk(m, m)
  {
  }

  lemma BlockCountShrunk(m: Memory, scopes: set<Addr>, refs: multiset<Field>, retained: multiset<Addr>, b: nat, bits: u16)
    requires Sound(m, scopes, refs, retained) && LiveHeap(m.blocks, b)
    requires !Deallocating(m.blocks[b].bits) && !Deallocating(bits)
    ensures var blocks' := m.blocks[b := m.blocks[b].(bits := bits)];
      Shrunk(m, m.(blocks := blocks')) && Alive(blocks') == Alive(m.blocks)
  {
    AliveUpdate(m.blocks, b, m.blocks[b].(bits := bits));
    hide BlocksOk, CellsOk, Alive;
  }

  lemma CellDropShrunk(m: Memory, scopes: set<Addr>, refs: multiset<Field>, retained: multiset<Addr>, h: nat)
    requires Sound(m, scopes, refs, retained) && h < |m.cells| && m.cells[h].needsFree
    ensures Shrunk(m, m.(cells := m.cells[h := Dropped(m.cells[h])]))
  {
    hide BlocksOk, CellsOk, Decrement;
  }

  // -------------------------------------------------------- a block on its way out

  /** Block `b` has been marked, its first `k` captures have been released, and other blocks may have gone with them. */
  ghost predicate Dying(m0: Memory, m: Memory, b: nat, k: nat) {
    && |m.blocks| == |m0.blocks| == |m0.owns| == |m.owns| && |m.cells| == |m0.cells| && m.origin == m0.origin
    && LiveHeap(m0.blocks, b) && !Deallocating(m0.blocks[b].bits)
    && LiveHeap(m.blocks, b) && Deallocating(m.blocks[b].bits) && SameButCount(m0.blocks[b], m.blocks[b])
    && k <= |m.blocks[b].fields| && m.owns[b] == m.blocks[b].fields[k..]
    && (forall i: nat :: i < |m0.blocks| && i != b ==> BlockShrunk(m0, m, i))
    && (forall c: nat :: c < |m0.cells| ==> CellShrunk(m0.cells[c], m.cells[c]))
  }

  lemma StartDying(m: Memory, scopes: set<Addr>, refs: multiset<Field>, retained: multiset<Addr>, b: nat, bits: u16)
    requires Sound(m, scopes, refs, retained) && Whole(m.blocks, m.owns) && LiveHeap(m.blocks, b)
    requires !Deallocating(m.blocks[b].bits) && Deallocating(bits)
    ensures var blocks' := m.blocks[b := m.blocks[b].(bits := bits)];
      Dying(m, m.(blocks := blocks'), b, 0) && Alive(blocks') < Alive(m.blocks)
  {
    AliveUpdate(m.blocks, b, m.blocks[b].(bits := bits));
    hide BlocksOk, CellsOk, Alive;
  }

  lemma DyingStep(m0: Memory, m: Memory, m': Memory, b: nat, k: nat)
    requires Dying(m0, m, b, k) && k < |m.blocks[b].fields|
    requires Shrunk(m.(owns := m.owns[b := m.owns[b][1..]]), m')
    ensures Dying(m0, m', b, k + 1) && m'.blocks[b] == m.blocks[b]
  {
    var n := m.(owns := m.owns[b := m.owns[b][1..]]);
    assert BlockShrunk(n, m', b);
    forall i: nat | i < |m0.blocks| && i != b
      ensures BlockShrunk(m0, m', i)
    {
      assert BlockShrunk(m0, m, i) && BlockShrunk(n, m', i);
    }
    forall c: nat | c < |m0.cells|
      ensures CellShrunk(m0.cells[c], m'.cells[c])
    {
      assert CellShrunk(m0.cells[c], m.cells[c]) && CellShrunk(n.cells[c], m'.cells[c]);
    }
  }

  lemma DyingWhole(m0: Memory, m: Memory, b: nat, k: nat, rest: seq<Field>)
    requires Dying(m0, m, b, k) && Whole(m0.blocks, m0.owns)
    ensures Whole(m.blocks, m.owns[b := rest])
  {
    forall i: nat | LiveHeap(m.blocks, i) && !Deallocating(m.blocks[i].bits)
      ensures i != b && m.owns[i] == m.blocks[i].fields
    {
      assert i != b ==> BlockShrunk(m0, m, i);
    }
  }

  lemma Died(m0: Memory, m: Memory, b: nat)
    requires b < |m0.blocks| && Dying(m0, m, b, |m0.blocks[b].fields|)
    ensures var blocks' := m.blocks[b := m.blocks[b].(live := false)];
      Shrunk(m0, m.(blocks := blocks')) && m.owns[b] == [] && Alive(blocks') == Alive(m.blocks)
  {
    AliveUpdate(m.blocks, b, m.blocks[b].(live := false));
    hide Alive;
    var m' := m.(blocks := m.blocks[b := m.blocks[b].(live := false)]);
    forall i: nat | i < |m0.blocks|
      ensures BlockShrunk(m0, m', i)
    {
      assert i != b ==> BlockShrunk(m0, m, i);
    }
  }

  lemma DyingShape(m0: Memory, m: Memory, b: nat, k: nat)
    requires Dying(m0, m, b, k)
    ensures |m.blocks| == |m.owns| == |m0.blocks| && LiveHeap(m.blocks, b) && Deallocating(m.blocks[b].bits)
    ensures m.blocks[b].fields == m0.blocks[b].fields && k <= |m.blocks[b].fields|
    ensures m.owns[b] == m.blocks[b].fields[k..]
  {
  }

  lemma HeldBlock(m: Memory, scopes: set<Addr>, refs: multiset<Field>, retained: multiset<Addr>, b: nat)
    requires Sound(m, scopes, refs, retained) && BlockRef(b) in refs
    ensures b < |m.blocks| && m.blocks[b].live && !m.blocks[b].storage.Stack?
  {
    assert BlockOk(m.blocks[b], refs[BlockRef(b)]);
  }

  lemma HeldCell(m: Memory, scopes: set<Addr>, refs: multiset<Field>, retained: multiset<Addr>, h: nat)
    requires Sound(m, scopes, refs, retained) && Variable(h) in refs
    ensures h < |m.cells| && m.cells[h].live && m.cells[h].needsFree && m.cells[h].forwarding == h
  {
    assert CellOk(m.cells, m.origin, scopes, h, refs[Variable(h)]);
  }

  lemma StackUnreferenced(m: Memory, scopes: set<Addr>, refs: multiset<Field>, retained: multiset<Addr>, b: nat)
    requires Sound(m, scopes, refs, retained) && b < |m.blocks| && m.blocks[b].storage.Stack?
    ensures BlockRef(b) !in refs
  {
    assert BlockOk(m.blocks[b], refs[BlockRef(b)]);
  }

  /** A literal whose captures are good is good, and so are its neighbours. */
  lemma LiteralGood(m: Memory, scopes: set<Addr>, refs: multiset<Field>, retained: multiset<Addr>, x: Block)
    requires Sound(m, scopes, refs, retained) && x.live && !x.storage.Heap?
    requires Whole(m.blocks, m.owns) && NoneDying(m.blocks)
    requires forall i: nat :: i < |x.fields| ==> Good(m.blocks, m.cells, scopes, x.fields[i])
    ensures forall i: nat :: i < |x.fields| ==> InRange(x.fields[i], m.blocks, m.cells)
    ensures Good(m.blocks + [x], m.cells, scopes, BlockRef(|m.blocks|))
    ensures Whole(m.blocks + [x], m.owns + [[]]) && NoneDying(m.blocks + [x])
  {
    var m' := m.(blocks := m.blocks + [x], owns := m.owns + [[]]);
    KeptItself(m, scopes, refs, retained);
    assert Before(m, m');
    hide Sound;
    forall i: nat | i < |x.fields|
      ensures Good(m'.blocks, m.cells, scopes, x.fields[i]) && Rank(x.fields[i]) <= |m.blocks|
    {
      GoodKept(m, m', scopes, x.fields[i]);
    }
    forall b: nat | LiveHeap(m'.blocks, b) && !Deallocating(m'.blocks[b].bits)
      ensures m'.owns[b] == m'.blocks[b].fields
    {
      assert LiveHeap(m.blocks, b);
    }
  }

  lemma ShrunkCell(m: Memory, m': Memory, c: nat)
    requires Shrunk(m, m') && c < |m.cells| && !m.cells[c].needsFree
    ensures |m'.cells| == |m.cells| && m'.cells[c] == m.cells[c]
  {
    assert CellShrunk(m.cells[c], m'.cells[c]);
  }

  lemma ScopeEnded(m: Memory, m': Memory, scopes: set<Addr>, c: nat)
    requires Shrunk(m, m') && InScope(m.cells, scopes) && c < |m.cells|
    ensures |m'.cells| == |m.cells| && InScope(m'.cells[c := m'.cells[c].(live := false)], scopes - {c})
  {
    forall d: nat | d < |m.cells|
      ensures CellShrunk(m.cells[d], m'.cells[d])
    {
    }
  }

  // -------------------------------------------------------------- between calls

  /** How often live heap blocks have captured `f`. */
  ghost function Captures(blocks: seq<Block>, f: Field): nat {
    if blocks == [] then 0
    else Captures(blocks[..|blocks| - 1], f) + CapturesOf(blocks[|blocks| - 1], f)
  }

  ghost function CapturesOf(x: Block, f: Field): nat {
    if x.live && x.storage.Heap? then multiset(x.fields)[f] else 0
  }

  lemma {:induction false} CapturesAreOwned(blocks: seq<Block>, owns: seq<seq<Field>>, f: Field)
    requires |owns| == |blocks|
    requires forall b: nat :: b < |blocks| ==> multiset(owns[b])[f] == CapturesOf(blocks[b], f)
    ensures All(owns)[f] == Captures(blocks, f)
  {
    if blocks != [] {
      CapturesAreOwned(blocks[..|blocks| - 1], owns[..|blocks| - 1], f);
    }
  }

  lemma RefsAreCaptures(m: Memory, scopes: set<Addr>, callers: multiset<Field>, retained: multiset<Addr>, f: Field)
    requires Sound(m, scopes, callers + All(m.owns), retained) && Whole(m.blocks, m.owns) && NoneDying(m.blocks)
    ensures (callers + All(m.owns))[f] == callers[f] + Captures(m.blocks, f)
  {
    forall b: nat | b < |m.blocks|
      ensures multiset(m.owns[b])[f] == CapturesOf(m.blocks[b], f)
    {
      assert LiveHeap(m.blocks, b) ==> m.owns[b] == m.blocks[b].fields;
    }
    CapturesAreOwned(m.blocks, m.owns, f);
  }

  /**
   * Between calls, the count of an unlatched heap block is the references callers hold plus the captures of live
   * heap blocks, and a heap block is in memory exactly if there are any of these, or it is latched.
   */
  lemma BlockCounts(m: Memory, scopes: set<Addr>, callers: multiset<Field>, retained: multiset<Addr>, b: nat)
    requires Sound(m, scopes, callers + All(m.owns), retained) && Whole(m.blocks, m.owns) && NoneDying(m.blocks)
    requires b < |m.blocks| && m.blocks[b].storage.Heap?
    ensures var held := callers[BlockRef(b)] + Captures(m.blocks, BlockRef(b));
      && (m.blocks[b].live <==> held > 0 || Latched(m.blocks[b].bits))
      && (m.blocks[b].live && !Latched(m.blocks[b].bits) ==> Count(m.blocks[b].bits) == held)
  {
    RefsAreCaptures(m, scopes, callers, retained, BlockRef(b));
    assert BlockOk(m.blocks[b], (callers + All(m.owns))[BlockRef(b)]);
  }

  /**
   * The same for the heap cell of a variable, whose scope has a share in it until it ends. Before the first
   * copy a variable has no heap cell at all.
   */
  lemma CellCounts(m: Memory, scopes: set<Addr>, callers: multiset<Field>, retained: multiset<Addr>, h: nat)
    requires Sound(m, scopes, callers + All(m.owns), retained) && Whole(m.blocks, m.owns) && NoneDying(m.blocks)
    requires h < |m.cells| && m.cells[h].needsFree
    ensures h < |m.origin| && m.origin[h] < |m.cells| && m.cells[m.origin[h]].forwarding == h
    ensures var held := callers[Variable(h)] + Captures(m.blocks, Variable(h)) + Share(scopes, m.origin[h]);
      && (m.cells[h].live <==> held > 0 || Latched(m.cells[h].bits))
      && (m.cells[h].live && !Latched(m.cells[h].bits) ==> Count(m.cells[h].bits) == held)
  {
    RefsAreCaptures(m, scopes, callers, retained, Variable(h));
    assert CellOk(m.cells, m.origin, scopes, h, (callers + All(m.owns))[Variable(h)]);
  }

  /** No capture of a live heap block points at anything freed or on the stack. */
  lemma CapturesLive(m: Memory, scopes: set<Addr>, callers: multiset<Field>, retained: multiset<Addr>, b: nat, i: nat)
    requires Sound(m, scopes, callers + All(m.owns), retained) && Whole(m.blocks, m.owns) && NoneDying(m.blocks)
    requires LiveHeap(m.blocks, b) && i < |m.blocks[b].fields|
    ensures match m.blocks[b].fields[i]
      case Object(o) => o in retained
      case BlockRef(c) => c < |m.blocks| && m.blocks[c].live && !m.blocks[c].storage.Stack?
      case Variable(h) => h < |m.cells| && m.cells[h].live && m.cells[h].needsFree && m.cells[h].forwarding == h
  {
    var refs, f := callers + All(m.owns), m.blocks[b].fields[i];
    assert m.owns[b] == m.blocks[b].fields;
    AllUpdate(m.owns, b, []);
    assert f in multiset(m.owns[b]);
    match f
    case Object(_) =>
    case BlockRef(c) => HeldBlock(m, scopes, refs, retained, c);
    case Variable(h) => HeldCell(m, scopes, refs, retained, h);
  }
}
