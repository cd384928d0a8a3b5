/** Copying blocks: what stays in memory, what a copy means, and a block under construction. */
module BlockCopying {
  import opened Bytes
  import opened LatchingCount
  import opened BlockHeap

  // ------------------------------------------------------------- memory over time

  ghost predicate SameButCount(x: Block, y: Block) {
    y == x.(bits := y.bits)
  }

  /** The value of a variable is always read through the forwarding pointer. */
  function Current(cells: seq<Cell>, c: nat): int {
    if c < |cells| && cells[c].forwarding < |cells| then cells[cells[c].forwarding].value else 0
  }

  /** What a copy may do to a cell that was there: count, or forward a stack cell to a new heap one. */
  ghost predicate CellKept(cells: seq<Cell>, cells': seq<Cell>, c: nat)
    requires c < |cells| <= |cells'|
  {
    && cells'[c] == cells[c].(bits := cells'[c].bits, forwarding := cells'[c].forwarding)
    && (cells'[c].forwarding == cells[c].forwarding ||
        (cells[c].forwarding == c && !cells[c].needsFree && |cells| <= cells'[c].forwarding))
    && Current(cells', c) == Current(cells, c)
  }

  /** What was in memory before copying still is, with nothing but counts and forwarding changed. */
  ghost predicate Before(m: Memory, m': Memory) {
    && |m.blocks| <= |m'.blocks| && |m.cells| <= |m'.cells| && m.owns <= m'.owns && m.origin <= m'.origin
    && |m.owns| == |m.blocks| && |m'.owns| == |m'.blocks|
    && |m.origin| == |m.cells| && |m'.origin| == |m'.cells|
    && (forall b: nat :: b < |m.blocks| ==> SameButCount(m.blocks[b], m'.blocks[b]))
    && (forall c: nat :: c < |m.cells| ==> CellKept(m.cells, m'.cells, c))
    && (forall c: nat :: |m.cells| <= c < |m'.cells| ==> m'.cells[c].needsFree)
  }

  ghost predicate NewBlock(m: Memory, b: nat)
    requires b < |m.blocks| == |m.owns|
  {
    m.blocks[b].live && m.blocks[b].storage.Heap? && m.owns[b] == m.blocks[b].fields
  }

  /** Memory after copying: moreover the blocks that are new hold all they have captured. */
  ghost predicate Kept(m: Memory, m': Memory) {
    Before(m, m') && forall b: nat :: |m.blocks| <= b < |m'.blocks| ==> NewBlock(m', b)
  }

  lemma BeforeTransitive(a: Memory, b: Memory, c: Memory)
    requires Before(a, b) && Before(b, c)
    ensures Before(a, c)
  {
    forall i: nat | i < |a.cells|
      ensures CellKept(a.cells, c.cells, i)
    {
      assert CellKept(a.cells, b.cells, i) && CellKept(b.cells, c.cells, i);
    }
    forall i: nat | i < |a.blocks|
      ensures SameButCount(a.blocks[i], c.blocks[i])
    {
      assert SameButCount(a.blocks[i], b.blocks[i]) && SameButCount(b.blocks[i], c.blocks[i]);
    }
    forall i: nat | |a.cells| <= i < |c.cells|
      ensures c.cells[i].needsFree
    {
      assert i < |b.cells| ==> CellKept(b.cells, c.cells, i);
    }
  }

  lemma {:induction false} GoodKept(m: Memory, m': Memory, scopes: set<Addr>, f: Field)
    requires Before(m, m') && Good(m.blocks, m.cells, scopes, f)
    ensures Good(m'.blocks, m'.cells, scopes, f)
    decreases Rank(f)
  {
    match f
    case Object(_) =>
    case Variable(c) =>
      assert CellKept(m.cells, m'.cells, c);
    case BlockRef(b) =>
      assert SameButCount(m.blocks[b], m'.blocks[b]);
      if m.blocks[b].storage.Stack? {
        forall i: nat | i < |m.blocks[b].fields|
          ensures Good(m'.blocks, m'.cells, scopes, m.blocks[b].fields[i])
        {
          GoodKept(m, m', scopes, m.blocks[b].fields[i]);
        }
      }
  }

  // ------------------------------------------------------------ meaning of closures

  /** A closure seen to a depth: its code, and what it captured, variables by their identity. */
  datatype Closure = Cut | Closure(code: nat, captured: seq<Captured>)
  datatype Captured = AnObject(o: Addr) | AVariable(v: Addr) | ABlock(block: Closure)

  ghost function Meaning(blocks: seq<Block>, origin: seq<Addr>, f: Field, depth: nat): Captured
    decreases depth
  {
    match f
    case Object(o) => AnObject(o)
    case Variable(c) => AVariable(if c < |origin| then origin[c] else c)
    case BlockRef(b) =>
      if depth == 0 || b >= |blocks| then ABlock(Cut)
      else
        var fields := blocks[b].fields;
        ABlock(Closure(blocks[b].code,
                       seq(|fields|, i requires 0 <= i < |fields| => Meaning(blocks, origin, fields[i], depth - 1))))
  }

  /** `g` is what a copied block holds where the original held `f`; its new blocks lie from `lo` on. */
  ghost predicate Copies(blocks: seq<Block>, origin: seq<Addr>, lo: nat, f: Field, g: Field)
    decreases Rank(f)
  {
    match f
    case Object(_) => g == f
    case Variable(c) => g.Variable? && c < |origin| && g.c < |origin| && origin[g.c] == origin[c]
    case BlockRef(b) =>
      b < |blocks| && g.BlockRef? &&
      if !blocks[b].storage.Stack? then g == f
      else
        && lo <= g.b < |blocks| && blocks[g.b].storage.Heap? && blocks[g.b].code == blocks[b].code
        && |blocks[g.b].fields| == |blocks[b].fields|
        && forall i :: 0 <= i < |blocks[b].fields| ==>
             Rank(blocks[b].fields[i]) <= b && Copies(blocks, origin, lo, blocks[b].fields[i], blocks[g.b].fields[i])
  }

  /** A copy means what the original means, at every depth. */
  lemma {:induction false} CopyMeansTheSame(blocks: seq<Block>, origin: seq<Addr>, lo: nat, f: Field, g: Field, depth: nat)
    requires Copies(blocks, origin, lo, f, g)
    ensures Meaning(blocks, origin, f, depth) == Meaning(blocks, origin, g, depth)
    decreases depth
  {
    if f.BlockRef? && g != f && depth > 0 {
      var fs, gs := blocks[f.b].fields, blocks[g.b].fields;
      forall i: nat | i < |fs|
        ensures Meaning(blocks, origin, fs[i], depth - 1) == Meaning(blocks, origin, gs[i], depth - 1)
      {
        CopyMeansTheSame(blocks, origin, lo, fs[i], gs[i], depth - 1);
      }
      assert seq(|fs|, i requires 0 <= i < |fs| => Meaning(blocks, origin, fs[i], depth - 1))
          == seq(|gs|, i requires 0 <= i < |gs| => Meaning(blocks, origin, gs[i], depth - 1));
    }
  }

  /** What has been copied stays a copy, whatever else is copied and whatever happens to block `but` below `lo`. */
  lemma {:induction false} CopiesKept(m: Memory, m': Memory, lo: nat, lo': nat, but: nat, f: Field, g: Field)
    requires |m.blocks| <= |m'.blocks| && m.origin <= m'.origin
    requires forall b: nat :: b < |m.blocks| && b != but ==> SameButCount(m.blocks[b], m'.blocks[b])
    requires Copies(m.blocks, m.origin, lo, f, g) && lo' <= lo && Rank(f) <= but < lo
    ensures Copies(m'.blocks, m'.origin, lo', f, g)
    decreases Rank(f)
  {
    if f.BlockRef? {
      assert SameButCount(m.blocks[f.b], m'.blocks[f.b]);
      if g != f {
        var fs, gs := m.blocks[f.b].fields, m.blocks[g.b].fields;
        if m.blocks[f.b].storage.Stack? {
          assert SameButCount(m.blocks[g.b], m'.blocks[g.b]);
          forall i: nat | i < |fs|
            ensures Copies(m'.blocks, m'.origin, lo', fs[i], gs[i])
          {
            CopiesKept(m, m', lo, lo', but, fs[i], gs[i]);
          }
        }
      }
    }
  }

  lemma KeptItself(m: Memory, scopes: set<Addr>, refs: multiset<Field>, retained: multiset<Addr>)
    requires Sound(m, scopes, refs, retained)
    ensures Kept(m, m)
  {
  }

  lemma BlockCountKept(m: Memory, scopes: set<Addr>, refs: multiset<Field>, retained: multiset<Addr>, b: nat, bits: u16)
    requires Sound(m, scopes, refs, retained) && b < |m.blocks|
    ensures Kept(m, m.(blocks := m.blocks[b := m.blocks[b].(bits := bits)]))
    ensures NoneDying(m.blocks) && !Deallocating(bits) ==> NoneDying(m.blocks[b := m.blocks[b].(bits := bits)])
  {
    hide BlocksOk;
  }

  lemma CellCountKept(m: Memory, scopes: set<Addr>, refs: multiset<Field>, retained: multiset<Addr>, h: nat, bits: u16)
    requires Sound(m, scopes, refs, retained) && h < |m.cells|
    ensures Kept(m, m.(cells := m.cells[h := m.cells[h].(bits := bits)]))
  {
    hide BlocksOk;
    var cells' := m.cells[h := m.cells[h].(bits := bits)];
    forall c: nat | c < |m.cells|
      ensures CellKept(m.cells, cells', c)
    {
      assert CellOk(m.cells, m.origin, scopes, c, refs[Variable(c)]);
    }
  }

  lemma NewHeapCellKept(m: Memory, scopes: set<Addr>, refs: multiset<Field>, retained: multiset<Addr>, c: nat)
    requires Sound(m, scopes, refs, retained) && c in scopes && c < |m.cells| && m.cells[c].forwarding == c
    requires !m.cells[c].needsFree
    requires Or4(m.cells[c].bits) < 0x1_0000
    ensures var h := |m.cells|;
      var cells' := (m.cells + [HeapCopy(m.cells[c], h)])[c := m.cells[c].(forwarding := h)];
      Kept(m, m.(cells := cells', origin := m.origin + [c]))
  {
    hide BlocksOk;
    var h := |m.cells|;
    var cells' := (m.cells + [HeapCopy(m.cells[c], h)])[c := m.cells[c].(forwarding := h)];
    forall d: nat | d < |m.cells|
      ensures CellKept(m.cells, cells', d)
    {
      assert CellOk(m.cells, m.origin, scopes, d, refs[Variable(d)]);
      assert d != c ==> m.cells[d].forwarding != c;
    }
  }

  lemma OneOwnerEach(m: Memory, scopes: set<Addr>, refs: multiset<Field>, retained: multiset<Addr>)
    requires Sound(m, scopes, refs, retained)
    ensures |m.owns| == |m.blocks|
  {
  }

  lemma GoodBlock(blocks: seq<Block>, cells: seq<Cell>, scopes: set<Addr>, b: Addr)
    requires Good(blocks, cells, scopes, BlockRef(b))
    ensures b < |blocks| && blocks[b].live
  {
  }

  lemma SharedCopies(blocks: seq<Block>, origin: seq<Addr>, lo: nat, b: Addr)
    requires b < |blocks| && !blocks[b].storage.Stack?
    ensures Copies(blocks, origin, lo, BlockRef(b), BlockRef(b))
  {
  }

  lemma KeptSize(m: Memory, m': Memory)
    requires Kept(m, m')
    ensures |m.blocks| == |m.owns| <= |m'.blocks| == |m'.owns| && m.origin <= m'.origin
  {
  }

  lemma EarlierRank(x: Block, b: nat, i: nat)
    requires Earlier(x, b) && i < |x.fields|
    ensures Rank(x.fields[i]) <= b
  {
  }

  lemma GoodCell(blocks: seq<Block>, cells: seq<Cell>, scopes: set<Addr>, c: Addr)
    requires Good(blocks, cells, scopes, Variable(c))
    ensures c < |cells|
  {
  }

  /** A cell that may be copied is a stack cell of its own, or forwards to a live heap cell in use. */
  lemma ForwardKinds(m: Memory, scopes: set<Addr>, refs: multiset<Field>, retained: multiset<Addr>, c: nat)
    requires Sound(m, scopes, refs, retained) && Good(m.blocks, m.cells, scopes, Variable(c))
    ensures |m.origin| == |m.cells| && m.cells[c].forwarding < |m.cells|
    ensures var h := m.cells[c].forwarding;
      && m.origin[h] == m.origin[c]
      && if m.cells[h].needsFree then m.cells[h].live && CountBits(m.cells[h].bits) != 0
         else h == c && c in scopes && CountBits(m.cells[c].bits) == 0 && m.origin[c] == c
  {
    var h := m.cells[c].forwarding;
    assert CellOk(m.cells, m.origin, scopes, c, refs[Variable(c)]);
    assert CellOk(m.cells, m.origin, scopes, h, refs[Variable(h)]);
  }

  // ------------------------------------------------------- a block being built

  /** The first `k` captures of block `r`, which was not in `m0`, have been replaced by copies it holds. */
  ghost predicate Building(m0: Memory, m: Memory, r: nat, original: Block, k: nat) {
    && r == |m0.blocks| < |m.blocks| && Before(m0, m)
    && (forall b: nat :: r < b < |m.blocks| ==> NewBlock(m, b))
    && LiveHeap(m.blocks, r) && m.blocks[r].code == original.code
    && |m.blocks[r].fields| == |original.fields| && k <= |original.fields|
    && m.owns[r] == m.blocks[r].fields[..k]
    && (forall j: nat :: j < k ==> Copies(m.blocks, m.origin, r + 1, original.fields[j], m.blocks[r].fields[j]))
  }

  function Stored(m: Memory, r: nat, k: nat, g: Field): Memory
    requires r < |m.blocks| == |m.owns| && k < |m.blocks[r].fields|
  {
    m.(blocks := m.blocks[r := m.blocks[r].(fields := m.blocks[r].fields[k := g])], owns := m.owns[r := m.owns[r] + [g]])
  }

  /** The captures of a stack block go back to before it. */
  ghost predicate Earlier(x: Block, b: nat) {
    forall i: nat :: i < |x.fields| ==> Rank(x.fields[i]) <= b
  }

  lemma StartBuilding(m0: Memory, b: nat, scopes: set<Addr>, refs: multiset<Field>, retained: multiset<Addr>)
    requires b < |m0.blocks| && m0.blocks[b].live && Sound(m0, scopes, refs, retained)
    ensures var m := m0.(blocks := m0.blocks + [BitCopy(m0.blocks[b])], owns := m0.owns + [[]]);
      Building(m0, m, |m0.blocks|, m0.blocks[b], 0)
  {
    KeptItself(m0, scopes, refs, retained);
    hide BlocksOk, CellsOk;
  }

  lemma BeginStackCopy(m: Memory, scopes: set<Addr>, refs: multiset<Field>, retained: multiset<Addr>, b: nat)
    requires Sound(m, scopes, refs, retained) && NoneDying(m.blocks)
    requires Good(m.blocks, m.cells, scopes, BlockRef(b)) && m.blocks[b].storage.Stack?
    ensures var m' := m.(blocks := m.blocks + [BitCopy(m.blocks[b])], owns := m.owns + [[]]);
      && Sound(m', scopes, refs + multiset{BlockRef(|m.blocks|)}, retained) && NoneDying(m'.blocks)
      && Building(m, m', |m.blocks|, m.blocks[b], 0) && Earlier(m.blocks[b], b)
  {
    NewHeapBlock(m, scopes, refs, retained, b);
    assert !Deallocating(2);
    StartBuilding(m, b, scopes, refs, retained);
    hide BlocksOk, CellsOk, Building;
  }

  lemma GoodCapture(m: Memory, m': Memory, scopes: set<Addr>, b: nat, r: nat, k: nat, done: nat)
    requires Good(m.blocks, m.cells, scopes, BlockRef(b)) && m.blocks[b].storage.Stack?
    requires Building(m, m', r, m.blocks[b], done) && k < |m.blocks[b].fields|
    ensures Good(m'.blocks, m'.cells, scopes, m.blocks[b].fields[k]) && Rank(m.blocks[b].fields[k]) <= b
  {
    hide Before;
    GoodKept(m, m', scopes, m.blocks[b].fields[k]);
  }

  lemma BuildingStep(m0: Memory, m: Memory, m': Memory, r: nat, original: Block, k: nat, g: Field)
    requires Building(m0, m, r, original, k) && Kept(m, m') && k < |original.fields| && Earlier(original, r)
    requires Copies(m'.blocks, m'.origin, |m.blocks|, original.fields[k], g)
    ensures LiveHeap(m'.blocks, r) && k < |m'.blocks[r].fields|
    ensures Building(m0, Stored(m', r, k, g), r, original, k + 1)
  {
    assert SameButCount(m.blocks[r], m'.blocks[r]) && m.owns[r] == m'.owns[r];
    BeforeTransitive(m0, m, m');
    BuildingOthers(m, m', r, k, g);
    BuildingCopies(m, m', r, original, k, g);
    hide Copies, CellKept;
  }

  lemma BuildingCopies(m: Memory, m': Memory, r: nat, original: Block, k: nat, g: Field)
    requires r < |m.blocks| && Kept(m, m') && k < |original.fields| == |m.blocks[r].fields| && Earlier(original, r)
    requires SameButCount(m.blocks[r], m'.blocks[r])
    requires forall j: nat :: j < k ==> Copies(m.blocks, m.origin, r + 1, original.fields[j], m.blocks[r].fields[j])
    requires forall b: nat :: r < b < |m.blocks| ==> NewBlock(m, b)
    requires Copies(m'.blocks, m'.origin, |m.blocks|, original.fields[k], g)
    ensures var m2 := Stored(m', r, k, g);
      forall j: nat :: j < k + 1 ==> Copies(m2.blocks, m2.origin, r + 1, original.fields[j], m2.blocks[r].fields[j])
  {
    hide Copies, NewBlock, Kept, Earlier;
    KeptSize(m, m');
    BuildingOthers(m, m', r, k, g);
    var m2 := Stored(m', r, k, g);
    forall j: nat | j < k + 1
      ensures Copies(m2.blocks, m2.origin, r + 1, original.fields[j], m2.blocks[r].fields[j])
    {
      EarlierRank(original, r, j);
      if j < k {
        CopiesKept(m, m2, r + 1, r + 1, r, original.fields[j], m.blocks[r].fields[j]);
      } else {
        CopiesKept(m', m2, |m.blocks|, r + 1, r, original.fields[k], g);
      }
    }
  }

  lemma BuildingOthers(m: Memory, m': Memory, r: nat, k: nat, g: Field)
    requires r < |m.blocks| && Kept(m, m') && k < |m'.blocks[r].fields|
    requires forall b: nat :: r < b < |m.blocks| ==> NewBlock(m, b)
    ensures var m2 := Stored(m', r, k, g);
      && (forall b: nat :: b < |m.blocks| && b != r ==> SameButCount(m.blocks[b], m2.blocks[b]))
      && (forall b: nat :: b < |m'.blocks| && b != r ==> SameButCount(m'.blocks[b], m2.blocks[b]))
      && (forall b: nat :: r < b < |m2.blocks| ==> NewBlock(m2, b))
  {
    var m2 := Stored(m', r, k, g);
    forall b: nat | r < b < |m2.blocks|
      ensures NewBlock(m2, b)
    {
      if b < |m.blocks| {
        assert NewBlock(m, b) && SameButCount(m.blocks[b], m'.blocks[b]);
      } else {
        assert NewBlock(m', b);
      }
    }
  }

  lemma Built(m0: Memory, m: Memory, b: nat, r: nat, original: Block)
    requires Building(m0, m, r, original, |original.fields|) && Earlier(original, b)
    requires b < r && original == m0.blocks[b] && original.storage.Stack?
    ensures Kept(m0, m) && Copies(m.blocks, m.origin, r, BlockRef(b), BlockRef(r))
  {
    assert SameButCount(m0.blocks[b], m.blocks[b]);
    forall j: nat | j < |original.fields|
      ensures Copies(m.blocks, m.origin, r, original.fields[j], m.blocks[r].fields[j])
    {
      CopiesKept(m, m, r + 1, r, r, original.fields[j], m.blocks[r].fields[j]);
    }
  }

  lemma EarlierStill(x: Block, b: nat, r: nat)
    requires Earlier(x, b) && b <= r
    ensures Earlier(x, r)
  {
  }

  lemma BuildingLive(m0: Memory, m: Memory, r: nat, original: Block, k: nat)
    requires Building(m0, m, r, original, k)
    ensures LiveHeap(m.blocks, r)
  {
  }

  /** A copy leaves the memory between calls as it should be. */
  lemma KeptSettled(m: Memory, m': Memory, scopes: set<Addr>)
    requires Kept(m, m') && Whole(m.blocks, m.owns) && NoneDying(m.blocks) && InScope(m.cells, scopes)
    ensures Whole(m'.blocks, m'.owns) && InScope(m'.cells, scopes)
  {
    forall b: nat | LiveHeap(m'.blocks, b) && !Deallocating(m'.blocks[b].bits)
      ensures m'.owns[b] == m'.blocks[b].fields
    {
      if b < |m.blocks| {
        assert SameButCount(m.blocks[b], m'.blocks[b]) && LiveHeap(m.blocks, b);
      } else {
        assert NewBlock(m', b);
      }
    }
    forall c: nat | c < |m'.cells| && !m'.cells[c].needsFree && m'.cells[c].live
      ensures c in scopes
    {
      assert c < |m.cells| ==> CellKept(m.cells, m'.cells, c);
    }
  }

  lemma StoredSound(m: Memory, scopes: set<Addr>, refs: multiset<Field>, retained: multiset<Addr>, r: nat, k: nat, g: Field)
    requires Sound(m, scopes, refs, retained) && LiveHeap(m.blocks, r) && k < |m.blocks[r].fields|
    requires InRange(g, m.blocks, m.cells)
    ensures Sound(Stored(m, r, k, g), scopes, refs, retained)
    ensures NoneDying(m.blocks) ==> NoneDying(Stored(m, r, k, g).blocks)
  {
    StoreField(m, scopes, refs, retained, r, k, g);
    hide Sound;
  }

  lemma Cancel(a: multiset<Field>, b: multiset<Field>, c: multiset<Field>)
    requires a + b == c + b
    ensures a == c
  {
    forall f
      ensures a[f] == c[f]
    {
      assert (a + b)[f] == (c + b)[f];
    }
  }

  /** A reference handed from a caller to a block. */
  lemma HandOver(callers: multiset<Field>, owns: seq<seq<Field>>, r: nat, g: Field)
    requires g in callers && r < |owns|
    ensures callers - multiset{g} + All(owns[r := owns[r] + [g]]) == callers + All(owns)
  {
    AllUpdate(owns, r, owns[r] + [g]);
    Cancel(All(owns[r := owns[r] + [g]]), multiset(owns[r]), All(owns) + multiset{g});
    hide All;
  }

  /** And back, when a dying block lets go of the first capture it still holds. */
  lemma HandBack(callers: multiset<Field>, owns: seq<seq<Field>>, b: nat)
    requires b < |owns| && owns[b] != []
    ensures callers + multiset{owns[b][0]} + All(owns[b := owns[b][1..]]) == callers + All(owns)
  {
    AllUpdate(owns, b, owns[b][1..]);
    assert owns[b] == [owns[b][0]] + owns[b][1..];
    Cancel(All(owns[b := owns[b][1..]]) + multiset{owns[b][0]}, multiset(owns[b][1..]), All(owns));
    hide All;
  }
}
