/** Copying and releasing blocks and their __block variables: runtime.cpp of libclosure. */
module BlockRuntime {
  import opened LatchingCount
  import opened BlockHeap
  import opened BlockCopying
  import opened BlockReleasing

  class Runtime {
    var blocks: seq<Block>
    var cells: seq<Cell>
    var retained: multiset<Addr>       // retains less releases asked of the object callbacks
    ghost var owns: seq<seq<Field>>    // the captures of each heap block it holds a reference for
    ghost var origin: seq<Addr>        // the stack cell each cell is a copy of
    ghost var scopes: set<Addr>        // the stack cells whose scope has not ended
    ghost var callers: multiset<Field> // references held outside blocks

    ghost function Refs(): multiset<Field>
      reads this
    {
      callers + All(owns)
    }

    ghost function Now(): Memory
      reads this
    {
      Memory(blocks, cells, owns, origin)
    }

    /** All counts in memory are right. */
    ghost predicate Valid()
      reads this
    {
      Sound(Now(), scopes, Refs(), retained)
    }

    /** Between calls: moreover no block is on its way out, and heap blocks hold all they captured. */
    ghost predicate Settled()
      reads this
    {
      Valid() && Whole(blocks, owns) && NoneDying(blocks) && InScope(cells, scopes)
    }

    constructor ()
      ensures Settled() && blocks == [] && cells == [] && callers == multiset{} && retained == multiset{}
    {
      blocks, cells, retained, owns, origin, scopes, callers := [], [], multiset{}, [], [], {}, multiset{};
    }

    // ------------------------------------------------------------------ copying

    /** latching_incr_int on a block's flags, and one more reference for the caller. */
    method RetainBlock(b: Addr)
      requires Valid() && NoneDying(blocks) && LiveHeap(blocks, b)
      modifies this`blocks, this`callers
      ensures Valid() && NoneDying(blocks) && Kept(old(Now()), Now())
      ensures callers == old(callers) + multiset{BlockRef(b)}
      ensures blocks == old(blocks)[b := old(blocks)[b].(bits := Increment(old(blocks)[b].bits))]
    {
      ghost var m := Now();
      HoldBlock(m, scopes, Refs(), retained, b);
      BlockCountKept(m, scopes, Refs(), retained, b, Increment(blocks[b].bits));
      MoreRefs(callers, BlockRef(b), owns);
      hide Sound, Kept, Increment, Deallocating, NoneDying, All;
      blocks := blocks[b := blocks[b].(bits := Increment(blocks[b].bits))];
      callers := callers + multiset{BlockRef(b)};
    }

    /**
     * _Block_copy. A stack block and all stack blocks and variables it has captured move to the heap; the
     * result means what the original means, and the caller has one more reference to it.
     */
    method Copy(b: Addr) returns (r: Addr)
      requires Valid() && NoneDying(blocks) && Good(blocks, cells, scopes, BlockRef(b))
      modifies this`blocks, this`cells, this`retained, this`owns, this`origin, this`callers
      ensures Valid() && NoneDying(blocks) && (old(Settled()) ==> Settled())
      ensures callers == old(callers) + multiset{BlockRef(r)}
      ensures Kept(old(Now()), Now())
      ensures r < |blocks| && blocks[r].live && !blocks[r].storage.Stack?
      ensures Copies(blocks, origin, |old(blocks)|, BlockRef(b), BlockRef(r))
      decreases b + 1, 1
    {
      hide Sound, Before, NoneDying, Whole, InScope, All, Good, Kept, Copies;
      ghost var m := Now();
      GoodBlock(blocks, cells, scopes, b);
      if blocks[b].storage.Heap? {
        RetainBlock(b);
        r := b;
        SharedCopies(blocks, origin, |m.blocks|, b);
      } else if blocks[b].storage.Global? {
        RetainGlobal(b);
        r := b;
        SharedCopies(blocks, origin, |m.blocks|, b);
      } else {
        r := CopyStackBlock(b);
      }
      if Whole(m.blocks, m.owns) && NoneDying(m.blocks) && InScope(m.cells, scopes) {
        KeptSettled(m, Now(), scopes);
      }
    }

    /** A global block is shared and never counted. */
    ghost method RetainGlobal(b: Addr)
      requires Valid() && b < |blocks| && blocks[b].live && blocks[b].storage.Global?
      modifies this`callers
      ensures Valid() && Kept(Now(), Now())
      ensures callers == old(callers) + multiset{BlockRef(b)}
    {
      HoldGlobal(Now(), scopes, Refs(), retained, b);
      KeptItself(Now(), scopes, Refs(), retained);
      MoreRefs(callers, BlockRef(b), owns);
      hide Sound, Kept, All;
      callers := callers + multiset{BlockRef(b)};
    }

    /** The bit copy of a stack block, and the copy helper over its captures. */
    method CopyStackBlock(b: Addr) returns (r: Addr)
      requires Valid() && NoneDying(blocks) && Good(blocks, cells, scopes, BlockRef(b)) && blocks[b].storage.Stack?
      modifies this`blocks, this`cells, this`retained, this`owns, this`origin, this`callers
      ensures Valid() && NoneDying(blocks)
      ensures callers == old(callers) + multiset{BlockRef(r)}
      ensures Kept(old(Now()), Now())
      ensures LiveHeap(blocks, r)
      ensures Copies(blocks, origin, |old(blocks)|, BlockRef(b), BlockRef(r))
      decreases b + 1, 0
    {
      hide Sound, Before, Copies, All, Good, Kept, NoneDying, Earlier, BitCopy, Building;
      ghost var m := Now();
      GoodBlock(blocks, cells, scopes, b);
      var original := blocks[b];
      r := |blocks|;
      BeginStackCopy(m, scopes, Refs(), retained, b);
      MoreRefs(callers, BlockRef(r), owns);
      AllAppend(owns, []);
      blocks := blocks + [BitCopy(blocks[b])];
      owns := owns + [[]];
      callers := callers + multiset{BlockRef(r)};
      assert All(owns) == All(m.owns);
      assert Refs() == old(Refs()) + multiset{BlockRef(r)};
      for k := 0 to |original.fields|
        invariant Valid() && NoneDying(blocks) && Building(m, Now(), r, original, k)
        invariant callers == old(callers) + multiset{BlockRef(r)}
      {
        GoodCapture(m, Now(), scopes, b, r, k, k);
        EarlierStill(original, b, r);
        ObjectAssign(m, r, original, k);
      }
      Built(m, Now(), b, r, original);
      BuildingLive(m, Now(), r, original, |original.fields|);
    }

    /** _Block_object_assign, from a capture of the original to the same place in the copy. */
    method ObjectAssign(ghost m: Memory, r: Addr, original: Block, k: nat)
      requires Valid() && NoneDying(blocks) && k < |original.fields| && Building(m, Now(), r, original, k)
      requires Earlier(original, r) && Good(blocks, cells, scopes, original.fields[k])
      modifies this`blocks, this`cells, this`retained, this`owns, this`origin, this`callers
      ensures Valid() && NoneDying(blocks) && callers == old(callers)
      ensures Building(m, Now(), r, original, k + 1)
      decreases Rank(original.fields[k]), 3
    {
      hide Sound, Before, Copies, All, Building, Good, Kept, Earlier, NoneDying;
      ghost var m1 := Now();
      var g := Hold(original.fields[k]);
      BuildingStep(m, m1, Now(), r, original, k, g);
      StoreInto(r, k, g);
    }

    /** `*dest = ...`: the block takes over the caller's reference. */
    method StoreInto(r: Addr, k: nat, g: Field)
      requires Valid() && NoneDying(blocks) && LiveHeap(blocks, r) && k < |blocks[r].fields| && |owns| == |blocks|
      requires g in callers && InRange(g, blocks, cells)
      modifies this`blocks, this`owns, this`callers
      ensures Valid() && NoneDying(blocks) && callers == old(callers) - multiset{g}
      ensures Now() == Stored(old(Now()), r, k, g)
    {
      hide Sound, All, NoneDying;
      StoredSound(Now(), scopes, Refs(), retained, r, k, g);
      HandOver(callers, owns, r, g);
      blocks := blocks[r := blocks[r].(fields := blocks[r].fields[k := g])];
      owns := owns[r := owns[r] + [g]];
      callers := callers - multiset{g};
    }

    /** The three kinds of captures _Block_object_assign copies. */
    method Hold(f: Field) returns (g: Field)
      requires Valid() && NoneDying(blocks) && Good(blocks, cells, scopes, f)
      modifies this`blocks, this`cells, this`retained, this`owns, this`origin, this`callers
      ensures Valid() && NoneDying(blocks) && |owns| == |blocks|
      ensures callers == old(callers) + multiset{g} && InRange(g, blocks, cells)
      ensures Kept(old(Now()), Now())
      ensures Copies(blocks, origin, |old(blocks)|, f, g)
      decreases Rank(f), 2
    {
      hide Sound, All, NoneDying, Kept;
      match f {
        case Object(o) =>
          RetainObject(o);
          g := f;
        case BlockRef(c) =>
          var r := Copy(c);
          g := BlockRef(r);
        case Variable(c) =>
          var h := ByrefCopy(c);
          g := Variable(h);
      }
      OneOwnerEach(Now(), scopes, Refs(), retained);
    }

    /** The object runtime's retain callback. */
    method RetainObject(o: Addr)
      requires Valid()
      modifies this`retained, this`callers
      ensures Valid() && callers == old(callers) + multiset{Object(o)} && retained == old(retained) + multiset{o}
      ensures Kept(Now(), Now())
    {
      HoldObject(Now(), scopes, Refs(), retained, o);
      KeptItself(Now(), scopes, Refs(), retained);
      MoreRefs(callers, Object(o), owns);
      hide Sound, Kept, All;
      retained := retained + multiset{o};
      callers := callers + multiset{Object(o)};
    }

    /** _Block_byref_copy: the first copy moves the variable to the heap, later ones count. */
    method ByrefCopy(c: Addr) returns (h: Addr)
      requires Valid() && Good(blocks, cells, scopes, Variable(c))
      modifies this`cells, this`origin, this`callers
      ensures Valid() && callers == old(callers) + multiset{Variable(h)}
      ensures Kept(old(Now()), Now())
      ensures c < |cells| && h == cells[c].forwarding < |cells| == |origin| && origin[h] == origin[c]
    {
      hide Sound, Kept, All, Good;
      GoodCell(blocks, cells, scopes, c);
      ForwardKinds(Now(), scopes, Refs(), retained, c);
      if CountBits(cells[cells[c].forwarding].bits) == 0 {
        MoveCell(c);
      } else if cells[cells[c].forwarding].needsFree {
        CountCell(cells[c].forwarding);
      }
      h := cells[c].forwarding;
    }

    method MoveCell(c: Addr)
      requires Valid() && c in scopes && c < |cells| == |origin| && cells[c].forwarding == c && !cells[c].needsFree
      modifies this`cells, this`origin, this`callers
      ensures Valid() && Kept(old(Now()), Now())
      ensures |cells| == |origin| == |old(cells)| + 1 && cells[c].forwarding == |old(cells)|
      ensures origin == old(origin) + [c] && callers == old(callers) + multiset{Variable(|old(cells)|)}
    {
      hide Sound, Kept, All;
      NewHeapCell(Now(), scopes, Refs(), retained, c);
      NewHeapCellKept(Now(), scopes, Refs(), retained, c);
      var copy := |cells|;
      MoreRefs(callers, Variable(copy), owns);
      cells := cells + [HeapCopy(cells[c], copy)];
      cells := cells[c := cells[c].(forwarding := copy)];
      origin := origin + [c];
      callers := callers + multiset{Variable(copy)};
      assert cells == (old(cells) + [HeapCopy(old(cells)[c], copy)])[c := old(cells)[c].(forwarding := copy)];
    }

    /** latching_incr_int on the flags of a heap cell. */
    method CountCell(h: Addr)
      requires Valid() && h < |cells| && cells[h].live && cells[h].needsFree
      modifies this`cells, this`callers
      ensures Valid() && Kept(old(Now()), Now())
      ensures cells == old(cells)[h := old(cells)[h].(bits := Increment(old(cells)[h].bits))]
      ensures callers == old(callers) + multiset{Variable(h)}
    {
      hide Sound, Kept, All, Increment;
      HoldCell(Now(), scopes, Refs(), retained, h);
      CellCountKept(Now(), scopes, Refs(), retained, h, Increment(cells[h].bits));
      MoreRefs(callers, Variable(h), owns);
      cells := cells[h := cells[h].(bits := Increment(cells[h].bits))];
      callers := callers + multiset{Variable(h)};
    }

    // ---------------------------------------------------------------- releasing

    /**
     * _Block_release. With the last reference the block lets go of its captures, which may take further blocks
     * with it; each deallocation leaves one block less that is not on its way out, so the cascade ends. A stack
     * block, to which there are no references, is left alone.
     */
    method Release(b: Addr)
      requires Valid() && Whole(blocks, owns)
      requires BlockRef(b) in callers || (b < |blocks| && blocks[b].live && blocks[b].storage.Stack?)
      modifies this`blocks, this`cells, this`retained, this`owns, this`callers
      ensures Valid() && Shrunk(old(Now()), Now()) && callers == old(callers) - multiset{BlockRef(b)}
      ensures Whole(blocks, owns) && (old(Settled()) ==> Settled())
      ensures Alive(blocks) <= old(Alive(blocks))
      ensures old(blocks)[b].storage.Stack? ==> Now() == old(Now()) && retained == old(retained)
      decreases Alive(blocks), 0
    {
      hide Sound, Whole, NoneDying, Shrunk, All, Decrement, Deallocating, Dying, InScope, Alive;
      ghost var m := Now();
      if BlockRef(b) in callers {
        HeldBlock(m, scopes, Refs(), retained, b);
      }
      if blocks[b].storage.Global? {
        ReleaseGlobal(b);
      } else if !blocks[b].storage.Heap? {
        StackUnreferenced(m, scopes, Refs(), retained, b);
        ShrunkItself(m, scopes, Refs(), retained);
      } else {
        ghost var bits := Decrement(blocks[b].bits).0;
        var shouldDeallocate := DropReference(b);
        if shouldDeallocate {
          StartDying(m, scopes, old(Refs()), retained, b, bits);
          DisposeHelper(m, b);
          FreeMemory(m, b);
        } else {
          BlockCountShrunk(m, scopes, old(Refs()), retained, b, bits);
        }
      }
      ShrunkSettled(m, Now(), scopes);
    }

    /** latching_decr_int_should_deallocate on a block's flags. */
    method DropReference(b: Addr) returns (shouldDeallocate: bool)
      requires Valid() && BlockRef(b) in callers && LiveHeap(blocks, b)
      modifies this`blocks, this`callers
      ensures Valid() && callers == old(callers) - multiset{BlockRef(b)}
      ensures blocks == old(blocks)[b := old(blocks)[b].(bits := Decrement(old(blocks)[b].bits).0)]
      ensures !Deallocating(old(blocks)[b].bits)
      ensures Deallocating(blocks[b].bits) <==> shouldDeallocate
    {
      hide Sound, All, Decrement, Deallocating;
      DropBlock(Now(), scopes, Refs(), retained, b);
      FewerRefs(callers, BlockRef(b), owns);
      shouldDeallocate := Decrement(blocks[b].bits).1;
      blocks := blocks[b := blocks[b].(bits := Decrement(blocks[b].bits).0)];
      callers := callers - multiset{BlockRef(b)};
    }

    ghost method ReleaseGlobal(b: Addr)
      requires Valid() && BlockRef(b) in callers && b < |blocks| && blocks[b].live && blocks[b].storage.Global?
      modifies this`callers
      ensures Valid() && Shrunk(Now(), Now()) && callers == old(callers) - multiset{BlockRef(b)}
    {
      hide Sound, All, Shrunk;
      DropGlobal(Now(), scopes, Refs(), retained, b);
      ShrunkItself(Now(), scopes, Refs(), retained);
      FewerRefs(callers, BlockRef(b), owns);
      callers := callers - multiset{BlockRef(b)};
    }

    /** The dispose helper: every capture is released in order. */
    method DisposeHelper(ghost m: Memory, b: Addr)
      requires Valid() && Whole(m.blocks, m.owns) && Dying(m, Now(), b, 0)
      modifies this`blocks, this`cells, this`retained, this`owns, this`callers
      ensures Valid() && b < |m.blocks| && Dying(m, Now(), b, |m.blocks[b].fields|) && callers == old(callers)
      ensures Alive(blocks) <= old(Alive(blocks))
      decreases Alive(blocks), 3
    {
      hide Sound, Whole, Shrunk, All, Deallocating, Dying, Alive;
      DyingShape(m, Now(), b, 0);
      var fields := blocks[b].fields;
      for k := 0 to |fields|
        invariant Valid() && Dying(m, Now(), b, k) && callers == old(callers) && fields == m.blocks[b].fields
        invariant Alive(blocks) <= old(Alive(blocks))
      {
        DisposeCapture(m, b, k, fields[k]);
      }
    }

    method DisposeCapture(ghost m: Memory, b: Addr, k: nat, f: Field)
      requires Valid() && Whole(m.blocks, m.owns) && Dying(m, Now(), b, k) && k < |m.blocks[b].fields|
      requires f == m.blocks[b].fields[k]
      modifies this`blocks, this`cells, this`retained, this`owns, this`callers
      ensures Valid() && Dying(m, Now(), b, k + 1) && callers == old(callers)
      ensures Alive(blocks) <= old(Alive(blocks))
      decreases Alive(blocks), 2
    {
      hide Sound, Whole, Shrunk, All, Deallocating, Dying, Alive;
      ghost var m1 := Now();
      DyingShape(m, m1, b, k);
      DyingWhole(m, m1, b, k, owns[b][1..]);
      LetGoOfField(m1, scopes, Refs(), retained, b, owns[b][1..]);
      HandBack(callers, owns, b);
      callers := callers + multiset{f};
      owns := owns[b := owns[b][1..]];
      assert f in callers;
      ObjectDispose(f);
      DyingStep(m, m1, Now(), b, k);
    }

    /** _Block_object_dispose on a capture of a block. */
    method ObjectDispose(f: Field)
      requires Valid() && Whole(blocks, owns) && f in callers
      modifies this`blocks, this`cells, this`retained, this`owns, this`callers
      ensures Valid() && Shrunk(old(Now()), Now()) && callers == old(callers) - multiset{f}
      ensures Alive(blocks) <= old(Alive(blocks))
      decreases Alive(blocks), 1
    {
      hide Sound, Whole, Shrunk, All, Alive, Settled;
      match f
      case Object(o) => ReleaseObject(o);
      case BlockRef(c) => Release(c);
      case Variable(h) =>
        HeldCell(Now(), scopes, Refs(), retained, h);
        ByrefRelease(h);
    }

    /** The object runtime's release callback: never one too many. */
    method ReleaseObject(o: Addr)
      requires Valid() && Object(o) in callers
      modifies this`retained, this`callers
      ensures old(o in retained) && retained == old(retained) - multiset{o}
      ensures Valid() && Shrunk(Now(), Now()) && callers == old(callers) - multiset{Object(o)}
    {
      hide Sound, All, Shrunk;
      DropObject(Now(), scopes, Refs(), retained, o);
      ShrunkItself(Now(), scopes, Refs(), retained);
      FewerRefs(callers, Object(o), owns);
      retained := retained - multiset{o};
      callers := callers - multiset{Object(o)};
    }

    /** _Block_byref_release: the heap cell, if there is one, loses a reference and is freed with the last. */
    method ByrefRelease(c: Addr)
      requires Valid() && c < |cells| && cells[c].live && cells[c].forwarding < |cells|
      requires var h := cells[c].forwarding; cells[h].needsFree ==> Variable(h) in callers
      modifies this`cells, this`callers
      ensures Valid() && Shrunk(old(Now()), Now())
      ensures var h := old(cells)[c].forwarding;
        if old(cells)[h].needsFree then
          callers == old(callers) - multiset{Variable(h)} && cells == old(cells)[h := Dropped(old(cells)[h])]
        else
          callers == old(callers) && cells == old(cells)
    {
      hide Sound, All, Shrunk, Decrement;
      ghost var m := Now();
      var byref := cells[c].forwarding;
      ShrunkItself(m, scopes, Refs(), retained);
      if cells[byref].needsFree {
        DropCell(m, scopes, Refs(), retained, byref);
        assert CountBits(cells[byref].bits) != 0;
        CellDropShrunk(m, scopes, Refs(), retained, byref);
        FewerRefs(callers, Variable(byref), owns);
        var (bits, shouldDeallocate) := Decrement(cells[byref].bits);
        cells := cells[byref := cells[byref].(bits := bits)];
        if shouldDeallocate {
          cells := cells[byref := cells[byref].(live := false)];
        }
        callers := callers - multiset{Variable(byref)};
        assert cells == m.cells[byref := Dropped(m.cells[byref])];
      }
    }

    /** free: only ever of a block in memory that nothing refers to. */
    method FreeMemory(ghost m: Memory, b: Addr)
      requires Valid() && b < |m.blocks| && Dying(m, Now(), b, |m.blocks[b].fields|)
      modifies this`blocks
      ensures old(LiveHeap(blocks, b)) && BlockRef(b) !in Refs()
      ensures Valid() && Shrunk(m, Now()) && Alive(blocks) == old(Alive(blocks))
    {
      hide Sound, Shrunk, All, Deallocating, Dying, Alive;
      DyingShape(m, Now(), b, |m.blocks[b].fields|);
      Died(m, Now(), b);
      FreeBlock(Now(), scopes, Refs(), retained, b);
      blocks := blocks[b := blocks[b].(live := false)];
    }

    // --------------------------------------------------------- what compiled code does

    /** A __block variable comes into scope. */
    method NewVariable(value: int) returns (c: Addr)
      requires Settled()
      modifies this`cells, this`origin, this`scopes
      ensures Settled() && c == |old(cells)| && cells == old(cells) + [Cell(true, false, 0, c, value)]
      ensures scopes == old(scopes) + {c} && origin == old(origin) + [c]
    {
      hide BlocksOk, CellsOk, Whole, NoneDying, All;
      c := |cells|;
      NewStackCell(Now(), scopes, Refs(), retained, value);
      cells := cells + [Cell(true, false, 0, c, value)];
      origin := origin + [c];
      scopes := scopes + {c};
    }

    /** Its scope ends: the compiler disposes of the stack cell, which gives up its share in the heap cell. */
    method ExitScope(c: Addr)
      requires Settled() && c in scopes
      modifies this`cells, this`scopes, this`callers
      ensures Settled() && callers == old(callers) && scopes == old(scopes) - {c}
      ensures c < |old(cells)| && cells == ScopeGone(old(cells), c)
    {
      hide Sound, Whole, NoneDying, All, Dropped, InScope, Shrunk;
      ghost var m := Now();
      GiveUpShare(c);
      PopCell(m, old(scopes), c);
    }

    /** The share is taken over from the scope and released. */
    method GiveUpShare(c: Addr)
      requires Valid() && c in scopes
      modifies this`cells, this`scopes, this`callers
      ensures Valid() && Shrunk(old(Now()), Now()) && callers == old(callers) && scopes == old(scopes) - {c}
      ensures c < |old(cells)| && !old(cells)[c].needsFree
      ensures var h := old(cells)[c].forwarding;
        h < |old(cells)| &&
        cells == if old(cells)[h].needsFree then old(cells)[h := Dropped(old(cells)[h])] else old(cells)
    {
      hide Sound, All, Dropped, Shrunk;
      LeaveScope(c);
      ByrefRelease(c);
    }

    method PopCell(ghost m: Memory, ghost before: set<Addr>, c: Addr)
      requires Valid() && c < |m.cells| && !m.cells[c].needsFree && scopes == before - {c}
      requires Shrunk(m, Now()) && InScope(m.cells, before)
      modifies this`cells
      ensures Valid() && c < |old(cells)| && cells == old(cells)[c := old(cells)[c].(live := false)]
      ensures InScope(cells, scopes)
    {
      hide Sound, All, InScope, Shrunk;
      ShrunkCell(m, Now(), c);
      ScopeEnded(m, Now(), before, c);
      KillStackCell(Now(), scopes, Refs(), retained, c);
      cells := cells[c := cells[c].(live := false)];
    }

    /** The scope's share in the heap cell passes to the code that ends the scope. */
    ghost method LeaveScope(c: Addr)
      requires Valid() && c in scopes
      modifies this`scopes, this`callers
      ensures Valid() && scopes == old(scopes) - {c}
      ensures c < |cells| && cells[c].live && !cells[c].needsFree && cells[c].forwarding < |cells|
      ensures var h := cells[c].forwarding;
        callers == if cells[h].needsFree then old(callers) + multiset{Variable(h)} else old(callers)
    {
      hide Sound, All;
      EndScope(Now(), scopes, Refs(), retained, c);
      var h := cells[c].forwarding;
      scopes := scopes - {c};
      if cells[h].needsFree {
        MoreRefs(callers, Variable(h), owns);
        callers := callers + multiset{Variable(h)};
      }
    }

    /** A block literal is evaluated: a stack block, or a global one if it captures nothing. */
    method NewBlockLiteral(code: nat, fields: seq<Field>) returns (b: Addr)
      requires Settled() && forall i :: 0 <= i < |fields| ==> Good(blocks, cells, scopes, fields[i])
      modifies this`blocks, this`owns
      ensures Settled() && b == |old(blocks)|
      ensures blocks == old(blocks) + [Block(true, if fields == [] then Global else Stack, 0, code, fields)]
      ensures Good(blocks, cells, scopes, BlockRef(b))
    {
      hide Sound, Whole, NoneDying, All, InScope, Good;
      ghost var m := Now();
      b := |blocks|;
      var x := Block(true, if fields == [] then Global else Stack, 0, code, fields);
      LiteralGood(m, scopes, Refs(), retained, x);
      NewLiteral(m, scopes, Refs(), retained, x);
      AllAppend(owns, []);
      blocks := blocks + [x];
      owns := owns + [[]];
      assert Refs() == old(Refs());
    }

    /** A stack block's scope ends. Nothing counted refers to it. */
    method PopBlock(b: Addr)
      requires Settled() && b < |blocks| && blocks[b].storage.Stack?
      modifies this`blocks
      ensures Settled() && BlockRef(b) !in Refs() && blocks == old(blocks)[b := old(blocks)[b].(live := false)]
    {
      hide CellsOk, All, InScope;
      PopLiteral(Now(), scopes, Refs(), retained, b);
      StackUnreferenced(Now(), scopes, Refs(), retained, b);
      blocks := blocks[b := blocks[b].(live := false)];
      hide Sound;
    }
  }
}
