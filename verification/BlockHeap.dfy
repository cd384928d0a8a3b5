/** What the block runtime keeps in memory, who owns what, and what a closure means. */
module BlockHeap {
  import opened Bytes
  import opened LatchingCount

  type Addr = nat

  /** A captured value that needs help: BLOCK_FIELD_IS_OBJECT, IS_BLOCK or IS_BYREF. */
  datatype Field = Object(o: Addr) | BlockRef(b: Addr) | Variable(c: Addr)

  /** IS_GLOBAL, neither flag, NEEDS_FREE. */
  datatype Storage = Global | Stack | Heap

  /** `bits` is the low half of the flags: the count and DEALLOCATING. A dead block has been freed or popped. */
  datatype Block = Block(live: bool, storage: Storage, bits: u16, code: nat, fields: seq<Field>)

  /** A __block variable's cell; those with NEEDS_FREE are on the heap. */
  datatype Cell = Cell(live: bool, needsFree: bool, bits: u16, forwarding: Addr, value: int)

  /** `x | 4`. */
  function Or4(x: u16): u16 {
    if x / 4 % 2 == 1 then x else x + 4
  }

  // ------------------------------------------------------------------ ownership

  /** Every reference in a list of owners' holdings. */
  ghost function All(owns: seq<seq<Field>>): multiset<Field> {
    if owns == [] then multiset{} else All(owns[..|owns| - 1]) + multiset(owns[|owns| - 1])
  }

  lemma {:induction false} AllUpdate(owns: seq<seq<Field>>, i: nat, x: seq<Field>)
    requires i < |owns|
    ensures All(owns[i := x]) + multiset(owns[i]) == All(owns) + multiset(x)
    ensures multiset(owns[i]) <= All(owns)
  {
    hide All;
    var n := |owns| - 1;
    AllLast(owns);
    AllLast(owns[i := x]);
    if i < n {
      AllUpdate(owns[..n], i, x);
      assert owns[i := x][..n] == owns[..n][i := x];
      SumsUpdate(All(owns[..n][i := x]), All(owns[..n]), multiset(owns[i]), multiset(x), multiset(owns[n]));
    } else {
      assert owns[i := x][..n] == owns[..n];
    }
  }

  lemma AllLast(owns: seq<seq<Field>>)
    requires owns != []
    ensures All(owns) == All(owns[..|owns| - 1]) + multiset(owns[|owns| - 1])
  {
  }

  lemma SumsUpdate(a: multiset<Field>, b: multiset<Field>, o: multiset<Field>, x: multiset<Field>, last: multiset<Field>)
    requires a + o == b + x
    ensures (a + last) + o == (b + last) + x
  {
    assert a + last + o == a + o + last;
  }

  lemma AllAppend(owns: seq<seq<Field>>, x: seq<Field>)
    ensures All(owns + [x]) == All(owns) + multiset(x)
  {
    assert (owns + [x])[..|owns|] == owns;
  }

  /** A block against the number of references to it. */
  ghost predicate BlockOk(x: Block, refs: nat) {
    && (refs > 0 ==> x.live && !x.storage.Stack?)
    && (x.storage.Heap? && x.live ==> Counted(x.bits, refs))
    && (x.storage.Heap? && !x.live ==> !Latched(x.bits))
  }

  /** An unlatched count is the number of references, and DEALLOCATING marks an empty one. */
  ghost predicate Counted(bits: u16, refs: nat) {
    (!Latched(bits) ==> Count(bits) == refs) && (Deallocating(bits) <==> Count(bits) == 0)
  }

  ghost predicate BlocksOk(blocks: seq<Block>, refs: multiset<Field>) {
    && (forall b: nat :: b < |blocks| ==> BlockOk(blocks[b], refs[BlockRef(b)]))
    && (forall b: Addr :: BlockRef(b) in refs ==> b < |blocks|)
  }

  function Share(scopes: set<Addr>, v: Addr): nat {
    if v in scopes then 1 else 0
  }

  /**
   * A cell against the references to it. `origin` names the stack cell each cell is a copy of, and
   * `scopes` the stack cells whose scope has not ended: each of these has a share in its heap copy.
   */
  ghost predicate CellOk(cells: seq<Cell>, origin: seq<Addr>, scopes: set<Addr>, c: nat, refs: nat)
    requires c < |cells| == |origin|
  {
    var x := cells[c];
    x.forwarding < |cells| && origin[c] < |cells| &&
    if x.needsFree then
      && x.forwarding == c && !cells[origin[c]].needsFree && cells[origin[c]].forwarding == c
      && (refs + Share(scopes, origin[c]) > 0 ==> x.live)
      && (x.live ==> Counted(x.bits, refs + Share(scopes, origin[c])) && !Deallocating(x.bits))
      && (!x.live ==> !Latched(x.bits))
    else
      && refs == 0 && x.bits == 0 && origin[c] == c && (c in scopes ==> x.live)
      && (x.forwarding == c || (cells[x.forwarding].needsFree && origin[x.forwarding] == c))
  }

  ghost predicate CellsOk(cells: seq<Cell>, origin: seq<Addr>, scopes: set<Addr>, refs: multiset<Field>) {
    && |origin| == |cells|
    && (forall c: nat :: c < |cells| ==> CellOk(cells, origin, scopes, c, refs[Variable(c)]))
    && (forall c: Addr :: Variable(c) in refs ==> c < |cells|)
    && (forall c :: c in scopes ==> c < |cells| && !cells[c].needsFree)
  }

  datatype Memory = Memory(blocks: seq<Block>, cells: seq<Cell>, owns: seq<seq<Field>>, origin: seq<Addr>)

  ghost predicate InRange(f: Field, blocks: seq<Block>, cells: seq<Cell>) {
    match f
    case Object(_) => true
    case BlockRef(b) => b < |blocks|
    case Variable(c) => c < |cells|
  }

  ghost predicate Closed(blocks: seq<Block>, cells: seq<Cell>) {
    forall b: nat, i: nat :: b < |blocks| && i < |blocks[b].fields| ==> InRange(blocks[b].fields[i], blocks, cells)
  }

  ghost predicate OwnersLive(m: Memory) {
    |m.owns| == |m.blocks| &&
    forall b: nat :: b < |m.blocks| && m.owns[b] != [] ==> m.blocks[b].live && m.blocks[b].storage.Heap?
  }

  ghost predicate ObjectsOk(retained: multiset<Addr>, refs: multiset<Field>) {
    forall o: Addr :: retained[o] == refs[Object(o)]
  }

  /** Every count in memory agrees with `refs`, the references that callers and heap blocks hold. */
  ghost predicate Sound(m: Memory, scopes: set<Addr>, refs: multiset<Field>, retained: multiset<Addr>) {
    && Closed(m.blocks, m.cells) && OwnersLive(m)
    && BlocksOk(m.blocks, refs) && CellsOk(m.cells, m.origin, scopes, refs) && ObjectsOk(retained, refs)
  }

  // ------------------------------------------------------ one change at a time

  /** latching_incr_int on the low half of a flags word. */
  function Increment(bits: u16): u16 {
    match Decide(Incr, bits)
    case Return(_) => bits
    case Swap(new_value, _) => DecideWord(Incr, bits); HighZero(new_value); new_value
  }

  /** latching_decr_int_should_deallocate: the new word, and whether this was the last reference. */
  function Decrement(bits: u16): (u16, bool) {
    match Decide(Decr, bits)
    case Return(_) => (bits, false)
    case Swap(new_value, o) => DecideWord(Decr, bits); HighZero(new_value); (new_value, o == Decremented(true))
  }

  lemma HighZero(w: u32)
    ensures HighBits(w) == 0 <==> w < 0x1_0000
  {
  }

  lemma CountedIncrement(bits: u16, refs: nat)
    requires Counted(bits, refs) && !Deallocating(bits)
    ensures Counted(Increment(bits), refs + 1) && !Deallocating(Increment(bits))
  {
    if Decide(Incr, bits).Swap? {
      DecideWord(Incr, bits);
    }
  }

  lemma CountedDecrement(bits: u16, refs: nat)
    requires Counted(bits, refs) && refs > 0 && !Deallocating(bits)
    ensures Counted(Decrement(bits).0, refs - 1) && (Deallocating(Decrement(bits).0) <==> Decrement(bits).1)
    ensures Decrement(bits).1 ==> refs == 1 && !Latched(Decrement(bits).0)
  {
    if Decide(Decr, bits).Swap? {
      DecideWord(Decr, bits);
    }
  }

  lemma BlocksUpdate(blocks: seq<Block>, refs: multiset<Field>, b: nat, x: Block, refs': multiset<Field>)
    requires BlocksOk(blocks, refs) && b < |blocks| && BlockOk(x, refs'[BlockRef(b)])
    requires forall c: Addr :: c != b ==> refs'[BlockRef(c)] == refs[BlockRef(c)]
    ensures BlocksOk(blocks[b := x], refs')
  {
    forall c: nat | c < |blocks|
      ensures BlockOk(blocks[b := x][c], refs'[BlockRef(c)])
    {
      assert BlockOk(blocks[c], refs[BlockRef(c)]);
    }
    forall c: Addr | BlockRef(c) in refs'
      ensures c < |blocks|
    {
      assert c != b ==> BlockRef(c) in refs;
    }
  }

  lemma BlocksSameRefs(blocks: seq<Block>, refs: multiset<Field>, refs': multiset<Field>)
    requires BlocksOk(blocks, refs) && forall b: Addr :: refs'[BlockRef(b)] == refs[BlockRef(b)]
    ensures BlocksOk(blocks, refs')
  {
    forall b: nat | b < |blocks|
      ensures BlockOk(blocks[b], refs'[BlockRef(b)])
    {
      assert BlockOk(blocks[b], refs[BlockRef(b)]);
    }
    forall b: Addr | BlockRef(b) in refs'
      ensures b < |blocks|
    {
      assert BlockRef(b) in refs;
    }
  }

  /** A cell that keeps its place and its forwarding concerns only itself. */
  lemma CellsUpdate(cells: seq<Cell>, origin: seq<Addr>, scopes: set<Addr>, refs: multiset<Field>,
    c: nat, x: Cell, refs': multiset<Field>)
    requires CellsOk(cells, origin, scopes, refs) && c < |cells|
    requires x.needsFree == cells[c].needsFree && x.forwarding == cells[c].forwarding
    requires CellOk(cells[c := x], origin, scopes, c, refs'[Variable(c)])
    requires forall d: Addr :: d != c ==> refs'[Variable(d)] == refs[Variable(d)]
    ensures CellsOk(cells[c := x], origin, scopes, refs')
  {
    forall d: nat | d < |cells|
      ensures CellOk(cells[c := x], origin, scopes, d, refs'[Variable(d)])
    {
      assert CellOk(cells, origin, scopes, d, refs[Variable(d)]);
    }
    forall d: Addr | Variable(d) in refs'
      ensures d < |cells|
    {
      assert d != c ==> Variable(d) in refs;
    }
  }

  lemma CellsSameRefs(cells: seq<Cell>, origin: seq<Addr>, scopes: set<Addr>, refs: multiset<Field>, refs': multiset<Field>)
    requires CellsOk(cells, origin, scopes, refs) && forall c: Addr :: refs'[Variable(c)] == refs[Variable(c)]
    ensures CellsOk(cells, origin, scopes, refs')
  {
    forall c: nat | c < |cells|
      ensures CellOk(cells, origin, scopes, c, refs'[Variable(c)])
    {
      assert CellOk(cells, origin, scopes, c, refs[Variable(c)]);
    }
    forall c: Addr | Variable(c) in refs'
      ensures c < |cells|
    {
      assert Variable(c) in refs;
    }
  }

  lemma MoreRefs(callers: multiset<Field>, f: Field, owns: seq<seq<Field>>)
    ensures callers + multiset{f} + All(owns) == callers + All(owns) + multiset{f}
  {
  }

  lemma FewerRefs(callers: multiset<Field>, f: Field, owns: seq<seq<Field>>)
    requires f in callers
    ensures callers - multiset{f} + All(owns) == callers + All(owns) - multiset{f}
  {
  }

  ghost predicate LiveHeap(blocks: seq<Block>, b: nat) {
    b < |blocks| && blocks[b].live && blocks[b].storage.Heap?
  }

  lemma HoldBlock(m: Memory, scopes: set<Addr>, refs: multiset<Field>, retained: multiset<Addr>, b: nat)
    requires Sound(m, scopes, refs, retained) && LiveHeap(m.blocks, b) && !Deallocating(m.blocks[b].bits)
    ensures var bits := Increment(m.blocks[b].bits);
      && Sound(m.(blocks := m.blocks[b := m.blocks[b].(bits := bits)]), scopes, refs + multiset{BlockRef(b)}, retained)
      && !Deallocating(bits)
  {
    var refs' := refs + multiset{BlockRef(b)};
    CountedIncrement(m.blocks[b].bits, refs[BlockRef(b)]);
    BlocksUpdate(m.blocks, refs, b, m.blocks[b].(bits := Increment(m.blocks[b].bits)), refs');
    CellsSameRefs(m.cells, m.origin, scopes, refs, refs');
    hide BlocksOk, CellsOk, Increment;
  }

  lemma HoldGlobal(m: Memory, scopes: set<Addr>, refs: multiset<Field>, retained: multiset<Addr>, b: nat)
    requires Sound(m, scopes, refs, retained) && b < |m.blocks| && m.blocks[b].live && m.blocks[b].storage.Global?
    ensures Sound(m, scopes, refs + multiset{BlockRef(b)}, retained)
  {
    var refs' := refs + multiset{BlockRef(b)};
    BlocksUpdate(m.blocks, refs, b, m.blocks[b], refs');
    assert m.blocks[b := m.blocks[b]] == m.blocks;
    CellsSameRefs(m.cells, m.origin, scopes, refs, refs');
    hide BlocksOk, CellsOk;
  }

  lemma HoldObject(m: Memory, scopes: set<Addr>, refs: multiset<Field>, retained: multiset<Addr>, o: Addr)
    requires Sound(m, scopes, refs, retained)
    ensures Sound(m, scopes, refs + multiset{Object(o)}, retained + multiset{o})
  {
    var refs' := refs + multiset{Object(o)};
    BlocksSameRefs(m.blocks, refs, refs');
    CellsSameRefs(m.cells, m.origin, scopes, refs, refs');
    hide BlocksOk, CellsOk;
  }

  lemma HoldCell(m: Memory, scopes: set<Addr>, refs: multiset<Field>, retained: multiset<Addr>, h: nat)
    requires Sound(m, scopes, refs, retained) && h < |m.cells| && m.cells[h].live && m.cells[h].needsFree
    ensures var x := m.cells[h].(bits := Increment(m.cells[h].bits));
      Sound(m.(cells := m.cells[h := x]), scopes, refs + multiset{Variable(h)}, retained)
  {
    var refs' := refs + multiset{Variable(h)};
    assert CellOk(m.cells, m.origin, scopes, h, refs[Variable(h)]);
    CountedIncrement(m.cells[h].bits, refs[Variable(h)] + Share(scopes, m.origin[h]));
    BlocksSameRefs(m.blocks, refs, refs');
    CellsUpdate(m.cells, m.origin, scopes, refs, h, m.cells[h].(bits := Increment(m.cells[h].bits)), refs');
    hide BlocksOk, CellsOk, Increment;
  }

  /** A stack block's bits copied to the heap, with one reference and nothing held yet. */
  function BitCopy(x: Block): Block {
    x.(storage := Heap, bits := 2)
  }

  lemma NewHeapBlock(m: Memory, scopes: set<Addr>, refs: multiset<Field>, retained: multiset<Addr>, b: nat)
    requires Sound(m, scopes, refs, retained) && b < |m.blocks| && m.blocks[b].live
    ensures var m' := m.(blocks := m.blocks + [BitCopy(m.blocks[b])], owns := m.owns + [[]]);
      Sound(m', scopes, refs + multiset{BlockRef(|m.blocks|)}, retained)
  {
    var refs', n := refs + multiset{BlockRef(|m.blocks|)}, |m.blocks|;
    var blocks' := m.blocks + [BitCopy(m.blocks[b])];
    assert BlockRef(n) !in refs;
    forall c: nat | c < |blocks'|
      ensures BlockOk(blocks'[c], refs'[BlockRef(c)])
    {
      if c < n {
        assert BlockOk(m.blocks[c], refs[BlockRef(c)]);
      }
    }
    assert BlocksOk(blocks', refs');
    ClosedAppend(m.blocks, m.cells, BitCopy(m.blocks[b]));
    CellsSameRefs(m.cells, m.origin, scopes, refs, refs');
    hide BlocksOk, CellsOk, Closed;
  }

  lemma ClosedAppend(blocks: seq<Block>, cells: seq<Cell>, x: Block)
    requires Closed(blocks, cells) && forall i: nat :: i < |x.fields| ==> InRange(x.fields[i], blocks, cells)
    ensures Closed(blocks + [x], cells)
  {
    forall b: nat, i: nat | b < |blocks + [x]| && i < |(blocks + [x])[b].fields|
      ensures InRange((blocks + [x])[b].fields[i], blocks + [x], cells)
    {
      assert b < |blocks| ==> InRange(blocks[b].fields[i], blocks, cells);
    }
  }

  /** The next capture of a block under construction, held from now on. */
  lemma StoreField(m: Memory, scopes: set<Addr>, refs: multiset<Field>, retained: multiset<Addr>, b: nat, k: nat, g: Field)
    requires Sound(m, scopes, refs, retained) && LiveHeap(m.blocks, b) && k < |m.blocks[b].fields|
    requires InRange(g, m.blocks, m.cells)
    ensures var x := m.blocks[b].(fields := m.blocks[b].fields[k := g]);
      Sound(m.(blocks := m.blocks[b := x], owns := m.owns[b := m.owns[b] + [g]]), scopes, refs, retained)
  {
    var x := m.blocks[b].(fields := m.blocks[b].fields[k := g]);
    var blocks' := m.blocks[b := x];
    BlocksUpdate(m.blocks, refs, b, x, refs);
    forall c: nat, i: nat | c < |blocks'| && i < |blocks'[c].fields|
      ensures InRange(blocks'[c].fields[i], blocks', m.cells)
    {
      assert InRange(m.blocks[c].fields[i], m.blocks, m.cells);
    }
    hide BlocksOk, CellsOk;
  }

  /** A stack cell copied to the heap: one reference for the copier and one for the stack. */
  function HeapCopy(x: Cell, h: Addr): Cell
    requires Or4(x.bits) < 0x1_0000
  {
    Cell(true, true, Or4(x.bits), h, x.value)
  }

  lemma NewHeapCell(m: Memory, scopes: set<Addr>, refs: multiset<Field>, retained: multiset<Addr>, c: nat)
    requires Sound(m, scopes, refs, retained) && c in scopes && c < |m.cells| && m.cells[c].forwarding == c
    requires !m.cells[c].needsFree
    ensures Or4(m.cells[c].bits) < 0x1_0000
    ensures var h := |m.cells|;
      var cells' := (m.cells + [HeapCopy(m.cells[c], h)])[c := m.cells[c].(forwarding := h)];
      Sound(m.(cells := cells', origin := m.origin + [c]), scopes, refs + multiset{Variable(h)}, retained)
  {
    var h, refs' := |m.cells|, refs + multiset{Variable(|m.cells|)};
    assert CellOk(m.cells, m.origin, scopes, c, refs[Variable(c)]);
    var cells' := (m.cells + [HeapCopy(m.cells[c], h)])[c := m.cells[c].(forwarding := h)];
    assert Variable(h) !in refs;
    assert Count(4) == 2 && !Deallocating(4) && !Latched(4);
    forall d: nat | d < |cells'|
      ensures CellOk(cells', m.origin + [c], scopes, d, refs'[Variable(d)])
    {
      if d < h {
        assert CellOk(m.cells, m.origin, scopes, d, refs[Variable(d)]);
      }
    }
    BlocksSameRefs(m.blocks, refs, refs');
    forall b: nat, i: nat | b < |m.blocks| && i < |m.blocks[b].fields|
      ensures InRange(m.blocks[b].fields[i], m.blocks, cells')
    {
      assert InRange(m.blocks[b].fields[i], m.blocks, m.cells);
    }
    hide BlocksOk;
  }

  // The same for what is let go.

  lemma DropBlock(m: Memory, scopes: set<Addr>, refs: multiset<Field>, retained: multiset<Addr>, b: nat)
    requires Sound(m, scopes, refs, retained) && LiveHeap(m.blocks, b) && BlockRef(b) in refs
    ensures !Deallocating(m.blocks[b].bits)
    ensures var d := Decrement(m.blocks[b].bits);
      && Sound(m.(blocks := m.blocks[b := m.blocks[b].(bits := d.0)]), scopes, refs - multiset{BlockRef(b)}, retained)
      && (Deallocating(d.0) <==> d.1)
  {
    var refs' := refs - multiset{BlockRef(b)};
    assert BlockOk(m.blocks[b], refs[BlockRef(b)]);
    CountedDecrement(m.blocks[b].bits, refs[BlockRef(b)]);
    BlocksUpdate(m.blocks, refs, b, m.blocks[b].(bits := Decrement(m.blocks[b].bits).0), refs');
    CellsSameRefs(m.cells, m.origin, scopes, refs, refs');
    hide BlocksOk, CellsOk, Decrement;
  }

  lemma DropGlobal(m: Memory, scopes: set<Addr>, refs: multiset<Field>, retained: multiset<Addr>, b: nat)
    requires Sound(m, scopes, refs, retained) && b < |m.blocks| && m.blocks[b].live && m.blocks[b].storage.Global?
    ensures Sound(m, scopes, refs - multiset{BlockRef(b)}, retained)
  {
    var refs' := refs - multiset{BlockRef(b)};
    BlocksUpdate(m.blocks, refs, b, m.blocks[b], refs');
    assert m.blocks[b := m.blocks[b]] == m.blocks;
    CellsSameRefs(m.cells, m.origin, scopes, refs, refs');
    hide BlocksOk, CellsOk;
  }

  lemma DropObject(m: Memory, scopes: set<Addr>, refs: multiset<Field>, retained: multiset<Addr>, o: Addr)
    requires Sound(m, scopes, refs, retained) && Object(o) in refs
    ensures o in retained && Sound(m, scopes, refs - multiset{Object(o)}, retained - multiset{o})
  {
    var refs' := refs - multiset{Object(o)};
    BlocksSameRefs(m.blocks, refs, refs');
    CellsSameRefs(m.cells, m.origin, scopes, refs, refs');
    hide BlocksOk, CellsOk;
  }

  /** A cell with one reference less, freed if that was the last. */
  function Dropped(x: Cell): Cell {
    x.(bits := Decrement(x.bits).0, live := x.live && !Decrement(x.bits).1)
  }

  /** The cells after a scope has ended: a reference less on the heap, and no stack cell. */
  function ScopeGone(cells: seq<Cell>, c: nat): seq<Cell>
    requires c < |cells|
  {
    var h := cells[c].forwarding;
    var dropped := if h < |cells| && cells[h].needsFree then cells[h := Dropped(cells[h])] else cells;
    dropped[c := dropped[c].(live := false)]
  }

  lemma DropCell(m: Memory, scopes: set<Addr>, refs: multiset<Field>, retained: multiset<Addr>, h: nat)
    requires Sound(m, scopes, refs, retained) && Variable(h) in refs
    ensures h < |m.cells| && m.cells[h].live && m.cells[h].needsFree && CountBits(m.cells[h].bits) != 0
    ensures Sound(m.(cells := m.cells[h := Dropped(m.cells[h])]), scopes, refs - multiset{Variable(h)}, retained)
  {
    var refs' := refs - multiset{Variable(h)};
    assert CellOk(m.cells, m.origin, scopes, h, refs[Variable(h)]);
    CountedDecrement(m.cells[h].bits, refs[Variable(h)] + Share(scopes, m.origin[h]));
    BlocksSameRefs(m.blocks, refs, refs');
    CellsUpdate(m.cells, m.origin, scopes, refs, h, Dropped(m.cells[h]), refs');
    hide BlocksOk, CellsOk, Decrement;
  }

  lemma FreeBlock(m: Memory, scopes: set<Addr>, refs: multiset<Field>, retained: multiset<Addr>, b: nat)
    requires Sound(m, scopes, refs, retained) && LiveHeap(m.blocks, b) && Deallocating(m.blocks[b].bits) && m.owns[b] == []
    ensures Sound(m.(blocks := m.blocks[b := m.blocks[b].(live := false)]), scopes, refs, retained)
    ensures BlockRef(b) !in refs
  {
    assert BlockOk(m.blocks[b], refs[BlockRef(b)]);
    BlocksUpdate(m.blocks, refs, b, m.blocks[b].(live := false), refs);
    hide BlocksOk, CellsOk;
  }

  /** Which captures a dying block still holds is its own affair. */
  lemma LetGoOfField(m: Memory, scopes: set<Addr>, refs: multiset<Field>, retained: multiset<Addr>, b: nat, rest: seq<Field>)
    requires Sound(m, scopes, refs, retained) && LiveHeap(m.blocks, b)
    ensures Sound(m.(owns := m.owns[b := rest]), scopes, refs, retained)
  {
    hide BlocksOk, CellsOk;
  }

  /** A scope that ends hands its share in the heap copy, if there is one, to whoever ends it. */
  lemma EndScope(m: Memory, scopes: set<Addr>, refs: multiset<Field>, retained: multiset<Addr>, c: nat)
    requires Sound(m, scopes, refs, retained) && c in scopes
    ensures c < |m.cells| && m.cells[c].live && !m.cells[c].needsFree && m.cells[c].forwarding < |m.cells|
    ensures var h := m.cells[c].forwarding;
      if m.cells[h].needsFree then
        m.cells[h].live && Sound(m, scopes - {c}, refs + multiset{Variable(h)}, retained)
      else
        h == c && Sound(m, scopes - {c}, refs, retained)
  {
    var h := m.cells[c].forwarding;
    assert CellOk(m.cells, m.origin, scopes, c, refs[Variable(c)]);
    assert CellOk(m.cells, m.origin, scopes, h, refs[Variable(h)]);
    var refs' := if m.cells[h].needsFree then refs + multiset{Variable(h)} else refs;
    forall d: nat | d < |m.cells|
      ensures CellOk(m.cells, m.origin, scopes - {c}, d, refs'[Variable(d)])
    {
      assert CellOk(m.cells, m.origin, scopes, d, refs[Variable(d)]);
    }
    BlocksSameRefs(m.blocks, refs, refs');
    hide BlocksOk;
  }

  lemma KillStackCell(m: Memory, scopes: set<Addr>, refs: multiset<Field>, retained: multiset<Addr>, c: nat)
    requires Sound(m, scopes, refs, retained) && c < |m.cells| && !m.cells[c].needsFree && c !in scopes
    ensures Sound(m.(cells := m.cells[c := m.cells[c].(live := false)]), scopes, refs, retained)
  {
    assert CellOk(m.cells, m.origin, scopes, c, refs[Variable(c)]);
    CellsUpdate(m.cells, m.origin, scopes, refs, c, m.cells[c].(live := false), refs);
    hide BlocksOk, CellsOk;
  }

  lemma NewStackCell(m: Memory, scopes: set<Addr>, refs: multiset<Field>, retained: multiset<Addr>, value: int)
    requires Sound(m, scopes, refs, retained)
    ensures var c := |m.cells|;
      Sound(m.(cells := m.cells + [Cell(true, false, 0, c, value)], origin := m.origin + [c]), scopes + {c}, refs, retained)
  {
    var n := |m.cells|;
    var cells' := m.cells + [Cell(true, false, 0, n, value)];
    assert n !in scopes && Variable(n) !in refs;
    forall d: nat | d < |cells'|
      ensures CellOk(cells', m.origin + [n], scopes + {n}, d, refs[Variable(d)])
    {
      if d < n {
        assert CellOk(m.cells, m.origin, scopes, d, refs[Variable(d)]);
      }
    }
    forall b: nat, i: nat | b < |m.blocks| && i < |m.blocks[b].fields|
      ensures InRange(m.blocks[b].fields[i], m.blocks, cells')
    {
      assert InRange(m.blocks[b].fields[i], m.blocks, m.cells);
    }
    hide BlocksOk;
  }

  lemma NewLiteral(m: Memory, scopes: set<Addr>, refs: multiset<Field>, retained: multiset<Addr>, x: Block)
    requires Sound(m, scopes, refs, retained) && !x.storage.Heap?
    requires forall i: nat :: i < |x.fields| ==> InRange(x.fields[i], m.blocks, m.cells)
    ensures Sound(m.(blocks := m.blocks + [x], owns := m.owns + [[]]), scopes, refs, retained)
  {
    var blocks' := m.blocks + [x];
    assert BlockRef(|m.blocks|) !in refs;
    forall c: nat | c < |blocks'|
      ensures BlockOk(blocks'[c], refs[BlockRef(c)])
    {
      if c < |m.blocks| {
        assert BlockOk(m.blocks[c], refs[BlockRef(c)]);
      }
    }
    ClosedAppend(m.blocks, m.cells, x);
    hide CellsOk, Closed;
  }

  lemma PopLiteral(m: Memory, scopes: set<Addr>, refs: multiset<Field>, retained: multiset<Addr>, b: nat)
    requires Sound(m, scopes, refs, retained) && b < |m.blocks| && m.blocks[b].storage.Stack?
    ensures Sound(m.(blocks := m.blocks[b := m.blocks[b].(live := false)]), scopes, refs, retained)
  {
    assert BlockOk(m.blocks[b], refs[BlockRef(b)]);
    BlocksUpdate(m.blocks, refs, b, m.blocks[b].(live := false), refs);
    hide BlocksOk, CellsOk;
  }

  /** All holders of one variable hold the same heap cell. */
  lemma OneHeapCell(cells: seq<Cell>, origin: seq<Addr>, scopes: set<Addr>, refs: multiset<Field>, c: nat, d: nat)
    requires CellsOk(cells, origin, scopes, refs) && c < |cells| && d < |cells|
    requires Variable(c) in refs && Variable(d) in refs && origin[c] == origin[d]
    ensures c == d && cells[c].needsFree && cells[c].live && cells[origin[c]].forwarding == c
  {
    assert CellOk(cells, origin, scopes, c, refs[Variable(c)]);
    assert CellOk(cells, origin, scopes, d, refs[Variable(d)]);
  }

  /** Following a forwarding pointer twice is following it once. */
  lemma ForwardingIdempotent(cells: seq<Cell>, origin: seq<Addr>, scopes: set<Addr>, refs: multiset<Field>, c: nat)
    requires CellsOk(cells, origin, scopes, refs) && c < |cells|
    ensures cells[c].forwarding < |cells| && cells[cells[c].forwarding].forwarding == cells[c].forwarding
  {
    assert CellOk(cells, origin, scopes, c, refs[Variable(c)]);
    assert CellOk(cells, origin, scopes, cells[c].forwarding, refs[Variable(cells[c].forwarding)]);
  }

  // --------------------------------------------------- what may be copied, and when

  /**
   * A pointer is good: what it points to is in memory, and so is all that a stack block there has
   * captured. A stack block only captures blocks that were there before it.
   */
  ghost predicate Good(blocks: seq<Block>, cells: seq<Cell>, scopes: set<Addr>, f: Field)
    decreases Rank(f)
  {
    match f
    case Object(_) => true
    case Variable(c) => c < |cells| && cells[c].live && (cells[c].needsFree || c in scopes)
    case BlockRef(b) =>
      b < |blocks| && blocks[b].live &&
      (blocks[b].storage.Stack? ==>
         forall i :: 0 <= i < |blocks[b].fields| ==>
           Rank(blocks[b].fields[i]) <= b && Good(blocks, cells, scopes, blocks[b].fields[i]))
  }

  function Rank(f: Field): nat {
    if f.BlockRef? then f.b + 1 else 0
  }

  ghost predicate NoneDying(blocks: seq<Block>) {
    forall b: nat :: b < |blocks| && blocks[b].live && blocks[b].storage.Heap? ==> !Deallocating(blocks[b].bits)
  }

  /** Heap blocks that are not on their way out hold all they captured. */
  ghost predicate Whole(blocks: seq<Block>, owns: seq<seq<Field>>) {
    |owns| == |blocks| &&
    forall b: nat :: LiveHeap(blocks, b) && !Deallocating(blocks[b].bits) ==> owns[b] == blocks[b].fields
  }

  ghost predicate InScope(cells: seq<Cell>, scopes: set<Addr>) {
    forall c: nat :: c < |cells| && !cells[c].needsFree && cells[c].live ==> c in scopes
  }
}
