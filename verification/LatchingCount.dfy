/**
 * The lock-free reference counts of libclosure: any number of threads running the three
 * read-and-compare-and-swap loops on one flags word, one shared access at a time.
 */
module LatchingCount {
  import opened Bytes

  const BLOCK_REFCOUNT_MASK: u32 := 0xfffe

  // The word: 16 high flag bits, a 15-bit count, and the DEALLOCATING bit.

  function Deallocating(w: u32): bool {
    w % 2 == 1
  }

  /** `w & BLOCK_REFCOUNT_MASK`. */
  function CountBits(w: u32): u32 {
    w % 0x1_0000 - w % 2
  }

  function Count(w: u32): nat {
    CountBits(w) / 2
  }

  function HighBits(w: u32): nat {
    w / 0x1_0000
  }

  predicate Latched(w: u32) {
    CountBits(w) == BLOCK_REFCOUNT_MASK
  }

  /** latching_incr_int, latching_incr_int_not_deallocating, latching_decr_int_should_deallocate. */
  datatype Operation = Incr | TryIncr | Decr

  datatype Outcome = Incremented | Tried(success: bool) | Decremented(shouldDeallocate: bool)

  /** What a loop does with the value it has read: return at once, or try to swap another one in. */
  datatype Decision = Return(outcome: Outcome) | Swap(new_value: u32, outcome: Outcome)

  /** The three loop bodies, between the read and the swap. */
  function Decide(op: Operation, old_value: u32): Decision {
    match op
    case Incr =>
      if Latched(old_value) then Return(Incremented)
      else Swap(old_value + 2, Incremented)
    case TryIncr =>
      if Deallocating(old_value) then Return(Tried(false))
      else if Latched(old_value) then Return(Tried(true))
      else Swap(old_value + 2, Tried(true))
    case Decr =>
      if Latched(old_value) then Return(Decremented(false))
      else if CountBits(old_value) == 0 then Return(Decremented(false))
      else if old_value % 0x1_0000 == 2 then Swap(old_value - 1, Decremented(true))
      else Swap(old_value - 2, Decremented(false))
  }

  // ------------------------------------------------------------------- threads

  /** Where a thread is; `since` is how many operations had finished when it read the word. */
  datatype Phase = Idle | Reading(op: Operation) | Swapping(op: Operation, old_value: u32, since: nat)

  /**
   * `history` lists what the finished operations returned. `spare` counts the references that
   * callers hold and are not using: a retain and a release each take one for the time they run.
   */
  datatype State = State(word: u32, threads: seq<Phase>, history: seq<Outcome>, spare: int)

  function Takes(op: Operation): int {
    if op.TryIncr? then 0 else 1
  }

  function Gives(o: Outcome): int {
    match o
    case Incremented => 2
    case Tried(success) => if success then 1 else 0
    case Decremented(_) => 0
  }

  ghost predicate Initial(s: State) {
    s.history == [] && (forall t :: 0 <= t < |s.threads| ==> s.threads[t] == Idle)
  }

  predicate Begins(s: State, s': State, t: nat, op: Operation)
    requires t < |s.threads|
  {
    s.threads[t].Idle? && s' == s.(threads := s.threads[t := Reading(op)], spare := s.spare - Takes(op))
  }

  predicate Reads(s: State, s': State, t: nat)
    requires t < |s.threads|
  {
    s.threads[t].Reading? &&
    s' == s.(threads := s.threads[t := Swapping(s.threads[t].op, s.word, |s.history|)])
  }

  /** The rest of the loop body. A swap that finds another word goes back to reading. */
  function AfterSwap(s: State, t: nat): State
    requires t < |s.threads| && s.threads[t].Swapping?
  {
    var p := s.threads[t];
    match Decide(p.op, p.old_value)
    case Return(o) => Finished(s, t, o)
    case Swap(new_value, o) =>
      if s.word == p.old_value then Finished(s, t, o).(word := new_value)
      else s.(threads := s.threads[t := Reading(p.op)])
  }

  function Finished(s: State, t: nat, o: Outcome): State
    requires t < |s.threads|
  {
    s.(threads := s.threads[t := Idle], history := s.history + [o], spare := s.spare + Gives(o))
  }

  ghost predicate StepOf(s: State, s': State, t: nat) {
    t < |s.threads| &&
    ((exists op :: Begins(s, s', t, op)) || Reads(s, s', t) || (s.threads[t].Swapping? && s' == AfterSwap(s, t)))
  }

  ghost predicate Step(s: State, s': State) {
    exists t :: StepOf(s, s', t)
  }

  /** A run: one thread takes one step at a time, in any order. */
  ghost predicate Run(r: seq<State>) {
    r != [] && Initial(r[0]) && forall i :: 0 <= i < |r| - 1 ==> Step(r[i], r[i + 1])
  }

  // -------------------------------------------------------------- one decision

  /** A swap moves the count by one, never carries into the flags and never clears DEALLOCATING. */
  lemma DecideWord(op: Operation, w: u32)
    requires Decide(op, w).Swap?
    ensures var d := Decide(op, w);
      && HighBits(d.new_value) == HighBits(w) && !Latched(w)
      && Count(d.new_value) == (if op.Decr? then Count(w) - 1 else Count(w) + 1)
      && (Deallocating(d.new_value) <==> Deallocating(w) || d.outcome == Decremented(true))
      && (d.outcome == Decremented(true) ==> !Deallocating(w) && Count(w) == 1)
  {
    LowHalf(w);
    match op
    case Decr => LessOne(w);
    case _ => PlusOne(w);
  }

  /** The count and the DEALLOCATING bit are in the low half. */
  lemma LowHalf(w: u32)
    ensures Count(w) == w % 0x1_0000 / 2 && w % 2 == w % 0x1_0000 % 2 && CountBits(w) == 2 * Count(w)
  {
    var h, low := w / 0x1_0000, w % 0x1_0000;
    var c, b := low / 2, low % 2;
    assert w == h * 0x1_0000 + low && low == 2 * c + b;
    assert w == 2 * (h * 0x8000 + c) + b;
  }

  lemma PlusOne(w: u32)
    requires !Latched(w)
    ensures w + 2 < TWO_32 && HighBits(w + 2) == HighBits(w) && Count(w + 2) == Count(w) + 1
    ensures Deallocating(w + 2) == Deallocating(w)
  {
    LowHalf(w);
    Shifted(w, 2);
    LowHalf(w + 2);
    hide CountBits, Count;
  }

  lemma LessOne(w: u32)
    requires CountBits(w) != 0
    ensures HighBits(w - 2) == HighBits(w) && Count(w - 2) == Count(w) - 1 && Deallocating(w - 2) == Deallocating(w)
    ensures w % 0x1_0000 == 2 ==>
      HighBits(w - 1) == HighBits(w) && Count(w - 1) == 0 && Deallocating(w - 1) && Count(w) == 1 && !Deallocating(w)
  {
    LowHalf(w);
    Shifted(w, -2);
    LowHalf(w - 2);
    Shifted(w, -1);
    LowHalf(w - 1);
    hide CountBits, Count;
  }

  /** Adding to the low half without overflow leaves the high half alone. */
  lemma Shifted(w: u32, d: int)
    requires 0 <= w % 0x1_0000 + d < 0x1_0000
    ensures (w + d) / 0x1_0000 == w / 0x1_0000 && (w + d) % 0x1_0000 == w % 0x1_0000 + d
  {
    assert w == w / 0x1_0000 * 0x1_0000 + w % 0x1_0000;
  }

  /** Only a release can call for deallocation, and only at count one on a word not yet marked. */
  lemma DecideRelease(w: u32)
    ensures Decide(Decr, w).outcome == Decremented(true) <==> Count(w) == 1 && !Deallocating(w)
    ensures Decide(Decr, w).outcome.Decremented?
  {
  }

  // ------------------------------------------------------------- what runs keep

  function Deallocations(h: seq<Outcome>): nat {
    if h == [] then 0 else Deallocations(h[..|h| - 1]) + if h[|h| - 1] == Decremented(true) then 1 else 0
  }

  function TrySuccesses(h: seq<Outcome>): nat {
    if h == [] then 0 else TrySuccesses(h[..|h| - 1]) + if h[|h| - 1] == Tried(true) then 1 else 0
  }

  /** A thread past its read: a latched word it saw is still there, and a stale one means others finished. */
  ghost predicate ThreadOk(s: State, t: nat)
    requires t < |s.threads|
  {
    var p := s.threads[t];
    p.Swapping? ==>
      && p.since <= |s.history|
      && (Latched(p.old_value) ==> s.word == p.old_value)
      && (s.word != p.old_value ==> p.since < |s.history|)
      && (Deallocating(p.old_value) ==> Deallocating(s.word))
  }

  ghost predicate Inv(w0: u32, s: State) {
    && (forall t :: 0 <= t < |s.threads| ==> ThreadOk(s, t))
    && HighBits(s.word) == HighBits(w0)
    && Deallocations(s.history) + Bit(w0) == Bit(s.word)
  }

  function Bit(w: u32): nat {
    w % 2
  }

  /** What one step may do to the word. */
  ghost predicate WordStep(s: State, s': State) {
    && (Latched(s.word) ==> s'.word == s.word)
    && (Deallocating(s.word) ==> Deallocating(s'.word) && TrySuccesses(s'.history) == TrySuccesses(s.history))
  }

  lemma StepKeeps(w0: u32, s: State, s': State)
    requires Inv(w0, s) && Step(s, s')
    ensures Inv(w0, s') && WordStep(s, s')
  {
    var t: nat :| StepOf(s, s', t);
    if s.threads[t].Swapping? {
      SwapKeeps(w0, s, t);
    } else {
      forall u | 0 <= u < |s'.threads|
        ensures ThreadOk(s', u)
      {
        assert ThreadOk(s, u);
      }
    }
  }

  lemma SwapKeeps(w0: u32, s: State, t: nat)
    requires Inv(w0, s) && t < |s.threads| && s.threads[t].Swapping?
    ensures Inv(w0, AfterSwap(s, t)) && WordStep(s, AfterSwap(s, t))
  {
    var s' := AfterSwap(s, t);
    var p := s.threads[t];
    assert ThreadOk(s, t);
    if Decide(p.op, p.old_value).Swap? {
      DecideWord(p.op, p.old_value);
    } else if p.op.Decr? {
      DecideRelease(p.old_value);
    }
    assert s'.history != s.history ==> s'.history[..|s.history|] == s.history;
    hide Decide, CountBits, HighBits, Deallocating;
    forall u | 0 <= u < |s'.threads|
      ensures ThreadOk(s', u)
    {
      assert ThreadOk(s, u);
    }
  }

  lemma {:induction false} RunKeeps(r: seq<State>, i: nat)
    requires Run(r) && i < |r|
    ensures Inv(r[0].word, r[i])
  {
    if i > 0 {
      RunKeeps(r, i - 1);
      StepKeeps(r[0].word, r[i - 1], r[i]);
    }
  }

  /** In every interleaving at most one release is told to deallocate. */
  lemma DeallocatesOnce(r: seq<State>, i: nat)
    requires Run(r) && i < |r|
    ensures Deallocations(r[i].history) <= 1
    ensures Deallocations(r[i].history) == 1 <==> Deallocating(r[i].word) && !Deallocating(r[0].word)
  {
    RunKeeps(r, i);
  }

  /** No increment ever carries into the flags above the count. */
  lemma FlagsKept(r: seq<State>, i: nat)
    requires Run(r) && i < |r|
    ensures HighBits(r[i].word) == HighBits(r[0].word)
  {
    RunKeeps(r, i);
  }

  /** A latched word never changes again. */
  lemma {:induction false} LatchedForever(r: seq<State>, i: nat, j: nat)
    requires Run(r) && i <= j < |r| && Latched(r[i].word)
    ensures r[j].word == r[i].word
  {
    if i < j {
      LatchedForever(r, i, j - 1);
      RunKeeps(r, j - 1);
      StepKeeps(r[0].word, r[j - 1], r[j]);
    }
  }

  /** DEALLOCATING is never cleared, and no try-retain succeeds after it is set. */
  lemma {:induction false} DeallocatingForever(r: seq<State>, i: nat, j: nat)
    requires Run(r) && i <= j < |r| && Deallocating(r[i].word)
    ensures Deallocating(r[j].word) && TrySuccesses(r[j].history) == TrySuccesses(r[i].history)
  {
    if i < j {
      DeallocatingForever(r, i, j - 1);
      RunKeeps(r, j - 1);
      StepKeeps(r[0].word, r[j - 1], r[j]);
    }
  }

  /** A loop goes round again only when some other operation has finished since it read the word. */
  lemma RetryMeansProgress(r: seq<State>, i: nat, t: nat)
    requires Run(r) && i < |r| && t < |r[i].threads| && r[i].threads[t].Swapping?
    requires AfterSwap(r[i], t).threads[t].Reading?
    ensures r[i].threads[t].since < |r[i].history|
  {
    RunKeeps(r, i);
    assert ThreadOk(r[i], t);
  }

  // What an operation that finishes has done, to the word there was at that moment. The low 16 bits are twice the
  // count, whose greatest value 0x7fff is the latch, plus 1 while deallocating.

  /** A retain counts one more, unless the count has latched. */
  lemma RetainCounts(r: seq<State>, i: nat, t: nat)
    requires Run(r) && i < |r| && t < |r[i].threads| && r[i].threads[t].Swapping? && r[i].threads[t].op == Incr
    requires AfterSwap(r[i], t).threads[t].Idle?
    ensures AfterSwap(r[i], t).history == r[i].history + [Incremented]
    ensures AfterSwap(r[i], t).word == if r[i].word % 0x1_0000 / 2 == 0x7fff then r[i].word else r[i].word + 2
  {
    SwapSees(r, i, t);
    LowHalf(r[i].word);
  }

  /** A try-retain succeeds exactly if the object is not being deallocated, and then counts as a retain does. */
  lemma TryRetainExact(r: seq<State>, i: nat, t: nat)
    requires Run(r) && i < |r| && t < |r[i].threads| && r[i].threads[t].Swapping? && r[i].threads[t].op == TryIncr
    requires AfterSwap(r[i], t).threads[t].Idle?
    ensures AfterSwap(r[i], t).history == r[i].history + [Tried(r[i].word % 2 == 0)]
    ensures AfterSwap(r[i], t).word ==
      if r[i].word % 2 == 1 || r[i].word % 0x1_0000 / 2 == 0x7fff then r[i].word else r[i].word + 2
  {
    SwapSees(r, i, t);
    LowHalf(r[i].word);
  }

  /**
   * A release counts one less, unless the count has latched; it is told to deallocate, and marks the word, exactly
   * if it takes the last count of an object not yet marked. One that read an empty count does nothing.
   */
  lemma ReleaseExact(r: seq<State>, i: nat, t: nat)
    requires Run(r) && i < |r| && t < |r[i].threads| && r[i].threads[t].Swapping? && r[i].threads[t].op == Decr
    requires AfterSwap(r[i], t).threads[t].Idle?
    ensures var w, low, s' := r[i].word, r[i].word % 0x1_0000, AfterSwap(r[i], t);
      if r[i].threads[t].old_value % 0x1_0000 / 2 == 0 then
        s'.history == r[i].history + [Decremented(false)] && s'.word == w
      else
        && s'.history == r[i].history + [Decremented(low == 2)]
        && s'.word == if low / 2 == 0x7fff then w else if low == 2 then w - 1 else w - 2
  {
    SwapSees(r, i, t);
    LowHalf(r[i].word);
    LowHalf(r[i].threads[t].old_value);
  }

  /** A thread that finishes either swapped the word it had read, or acts on a fact about it that still holds. */
  lemma SwapSees(r: seq<State>, i: nat, t: nat)
    requires Run(r) && i < |r| && t < |r[i].threads| && r[i].threads[t].Swapping?
    requires AfterSwap(r[i], t).threads[t].Idle?
    ensures var p := r[i].threads[t];
      && (Decide(p.op, p.old_value).Swap? || Latched(p.old_value) ==> r[i].word == p.old_value)
      && (Deallocating(p.old_value) ==> Deallocating(r[i].word))
  {
    RunKeeps(r, i);
    assert ThreadOk(r[i], t);
  }

  // --------------------------------------------------------- balanced callers

  /** How many references the running retains and releases have taken. */
  function InFlight(threads: seq<Phase>): nat {
    if threads == [] then 0
    else InFlight(threads[..|threads| - 1]) + Holding(threads[|threads| - 1])
  }

  function Holding(p: Phase): nat {
    if p.Idle? then 0 else Takes(p.op)
  }

  lemma {:induction false} InFlightUpdate(threads: seq<Phase>, t: nat, p: Phase)
    requires t < |threads|
    ensures InFlight(threads[t := p]) == InFlight(threads) - Holding(threads[t]) + Holding(p)
    ensures InFlight(threads) >= Holding(threads[t])
  {
    var n := |threads| - 1;
    if t < n {
      InFlightUpdate(threads[..n], t, p);
      assert threads[t := p][..n] == threads[..n][t := p];
    } else {
      assert threads[t := p][..n] == threads[..n];
    }
  }

  lemma {:induction false} NoneInFlight(threads: seq<Phase>)
    requires forall t :: 0 <= t < |threads| ==> threads[t] == Idle
    ensures InFlight(threads) == 0
  {
    if threads != [] {
      NoneInFlight(threads[..|threads| - 1]);
    }
  }

  /** Retains and releases begin only with a reference in hand, and the first count is right. */
  ghost predicate BalancedRun(r: seq<State>) {
    && Run(r) && r[0].spare == Count(r[0].word) && Count(r[0].word) > 0 && !Deallocating(r[0].word)
    && forall i :: 0 <= i < |r| ==> r[i].spare >= 0
  }

  /** The word agrees with the references, and nobody works on an object that has none. */
  ghost predicate Agrees(s: State) {
    && (!Latched(s.word) ==> Count(s.word) == s.spare + InFlight(s.threads))
    && (Deallocating(s.word) <==> Count(s.word) == 0)
    && (forall t :: 0 <= t < |s.threads| ==> HasSeen(s.threads[t]))
  }

  /** A balanced release never reads an empty count. */
  ghost predicate HasSeen(p: Phase) {
    p.Swapping? && Takes(p.op) == 1 ==> Count(p.old_value) > 0
  }

  lemma StepAgrees(w0: u32, s: State, s': State)
    requires Inv(w0, s) && Agrees(s) && Step(s, s') && s.spare >= 0 && s'.spare >= 0
    ensures Agrees(s')
  {
    var t: nat :| StepOf(s, s', t);
    InFlightUpdate(s.threads, t, s'.threads[t]);
    StepKeeps(w0, s, s');
    if s.threads[t].Swapping? {
      SwapAgrees(w0, s, t);
    } else {
      assert s'.threads == s.threads[t := s'.threads[t]];
    }
  }

  lemma SwapAgrees(w0: u32, s: State, t: nat)
    requires Inv(w0, s) && Agrees(s) && t < |s.threads| && s.threads[t].Swapping? && s.spare >= 0
    ensures Agrees(AfterSwap(s, t))
  {
    hide InFlight, Deallocations, HighBits;
    var s', p := AfterSwap(s, t), s.threads[t];
    InFlightUpdate(s.threads, t, s'.threads[t]);
    assert s'.threads == s.threads[t := s'.threads[t]];
    assert ThreadOk(s, t) && HasSeen(p);
    if Decide(p.op, p.old_value).Swap? {
      DecideWord(p.op, p.old_value);
    }
    hide ThreadOk;
  }

  lemma {:induction false} RunAgrees(r: seq<State>, i: nat)
    requires BalancedRun(r) && i < |r|
    ensures Agrees(r[i])
  {
    if i == 0 {
      NoneInFlight(r[0].threads);
    } else {
      RunAgrees(r, i - 1);
      RunKeeps(r, i - 1);
      StepAgrees(r[0].word, r[i - 1], r[i]);
    }
  }

  /** While unlatched, the count is the number of references callers hold or are working with. */
  lemma CountIsReferences(r: seq<State>, i: nat)
    requires BalancedRun(r) && i < |r| && !Latched(r[i].word)
    ensures Count(r[i].word) == r[i].spare + InFlight(r[i].threads)
  {
    RunAgrees(r, i);
  }

  /** Deallocation is called for exactly when the last reference has gone, and nothing follows it. */
  lemma DeallocatedIffUnreferenced(r: seq<State>, i: nat)
    requires BalancedRun(r) && i < |r|
    ensures Deallocations(r[i].history) == 1 <==> !Latched(r[i].word) && r[i].spare == 0 && InFlight(r[i].threads) == 0
  {
    RunAgrees(r, i);
    DeallocatesOnce(r, i);
  }

  /** A latched object is never deallocated: it leaks. */
  lemma LatchedLeaks(r: seq<State>, i: nat, j: nat)
    requires BalancedRun(r) && i <= j < |r| && Latched(r[i].word)
    ensures Deallocations(r[j].history) == 0
  {
    LatchedForever(r, i, j);
    RunAgrees(r, j);
    DeallocatesOnce(r, j);
  }
}
