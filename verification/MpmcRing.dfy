/** The queue's own code: the two retry loops over shared head_, tail_ and cells, with other threads
    running between any two atomic accesses. */
module MpmcRing {
  import Arith
  import opened Allocation
  import opened Bits
  import opened Storage
  import opened MpmcProtocol
  import opened MpmcInvariant
  import opened MpmcRefinement

  predicate OthersOnly<V>(sched: Schedule<V>, me: Tid) {
    forall k :: 0 <= k < |sched| ==> sched[k].0 != me
  }

  /** Nothing has been claimed by `me` between the two states. */
  ghost predicate NoClaim<V>(s: State<V>, s': State<V>, me: Tid)
    requires Counts(s) && Counts(s')
  {
    && s.pushes <= s'.pushes && s.pops <= s'.pops
    && (forall k :: s.tail <= k < s'.tail ==> s'.pushes[k].0 != me)
    && (forall k :: s.head <= k < s'.head ==> s'.pops[k] != me)
  }

  /** Between the two states `me` has claimed one push position, p, with value v, and no other. */
  ghost predicate OnePush<V>(s: State<V>, s': State<V>, me: Tid, v: V, p: nat)
    requires Counts(s) && Counts(s')
  {
    && s.pushes <= s'.pushes && s.tail <= p < s'.tail && s'.pushes[p] == (me, v)
    && (forall k :: s.tail <= k < s'.tail && k != p ==> s'.pushes[k].0 != me)
  }

  /** Between the two states `me` has claimed one pop position, p, and no other. */
  ghost predicate OnePop<V>(s: State<V>, s': State<V>, me: Tid, p: nat)
    requires Counts(s) && Counts(s')
  {
    && s.pops <= s'.pops && s.head <= p < s'.head && s'.pops[p] == me
    && (forall k :: s.head <= k < s'.head && k != p ==> s'.pops[k] != me)
  }

  /** What thread `me` may rely on while others run. */
  ghost predicate Rely<V>(s: State<V>, s': State<V>, me: Tid)
    requires Counts(s) && Counts(s')
  {
    s'.cap == s.cap && PcOf(s', me) == PcOf(s, me) && NoClaim(s, s', me)
  }

  lemma OtherStepRely<V>(s: State<V>, i: Tid, a: Action<V>, me: Tid)
    requires Inv(s) && i != me
    ensures Inv(Step(s, i, a)) && Rely(s, Step(s, i, a), me)
  {
    StepOk(s, i, a);
    StepLeaves(s, i, a, me);
  }

  /** A step of another thread. */
  lemma StepLeaves<V>(s: State<V>, i: Tid, a: Action<V>, me: Tid)
    requires Sized(s) && Counts(s) && Counts(Step(s, i, a)) && i != me
    ensures Rely(s, Step(s, i, a), me)
  {
  }

  lemma {:induction false} OthersRely<V>(s: State<V>, sched: Schedule<V>, me: Tid)
    requires Inv(s) && OthersOnly(sched, me)
    ensures Inv(Exec(s, sched)) && Rely(s, Exec(s, sched), me)
    decreases |sched|
  {
    if sched != [] {
      var (i, a) := sched[0];
      OtherStepRely(s, i, a, me);
      OthersRely(Step(s, i, a), sched[1..], me);
    }
  }

  lemma {:induction false} ExecConcat<V>(s: State<V>, a: Schedule<V>, b: Schedule<V>)
    requires Inv(s)
    ensures Inv(Exec(s, a)) && Exec(s, a + b) == Exec(Exec(s, a), b)
    decreases |a|
  {
    if a == [] {
      assert a + b == b;
    } else {
      StepOk(s, a[0].0, a[0].1);
      assert (a + b)[1..] == a[1..] + b;
      ExecConcat(Step(s, a[0].0, a[0].1), a[1..], b);
    }
  }

  lemma {:induction false} ExecKeepsCap<V>(s: State<V>, a: Schedule<V>)
    requires Inv(s)
    ensures Exec(s, a).cap == s.cap
    decreases |a|
  {
    if a != [] {
      StepOk(s, a[0].0, a[0].1);
      CapConstant(s, a[0].0, a[0].1);
      ExecKeepsCap(Step(s, a[0].0, a[0].1), a[1..]);
    }
  }

  lemma CapFrom<V>(cap: nat, a: Schedule<V>)
    requires cap >= 2
    ensures Inv(Init<V>(cap)) && Exec(Init<V>(cap), a).cap == cap
  {
    InitOk<V>(cap);
    ExecKeepsCap(Init<V>(cap), a);
  }

  lemma ExecOne<V>(s: State<V>, i: Tid, a: Action<V>)
    requires Inv(s)
    ensures Exec(s, [(i, a)]) == Step(s, i, a)
  {
    StepOk(s, i, a);
    assert [(i, a)][1..] == [];
  }

  lemma Extend<V>(s0: State<V>, run: Schedule<V>, i: Tid, a: Action<V>)
    requires Inv(s0)
    ensures Inv(Exec(s0, run)) && Exec(s0, run + [(i, a)]) == Step(Exec(s0, run), i, a)
    ensures Inv(Exec(s0, run + [(i, a)]))
  {
    ExecConcat(s0, run, [(i, a)]);
    ExecOne(Exec(s0, run), i, a);
    StepOk(Exec(s0, run), i, a);
  }

  /** How one pass of a retry loop ends. */
  datatype Pass = Won | GaveUp | Retry(index: nat)

  /** Cell i starts out free for position i. */
  method NumberCells(sequence: array<nat>)
    modifies sequence
    ensures forall k :: 0 <= k < sequence.Length ==> sequence[k] == k
  {
    for i := 0 to sequence.Length
      invariant forall k :: 0 <= k < i ==> sequence[k] == k
    {
      sequence[i] := i;
    }
  }

  lemma FreshCells<V>(cells: seq<nat>, storage: seq<Slot<V>>, cap: nat)
    requires |cells| == cap && forall k :: 0 <= k < cap ==> cells[k] == k
    requires |storage| == cap >= 2 && forall k :: 0 <= k < cap ==> storage[k] == Raw
    ensures State(cap, 0, 0, cells, storage, map[], [], [], map[]) == Init<V>(cap)
    ensures Inv(Init<V>(cap)) && Exec(Init<V>(cap), []) == Init<V>(cap)
  {
    InitOk<V>(cap);
  }

  /** `capacity_(round_up_to_power_of_two(capacity)), mask_(capacity_ - 1)` */
  method RoundedAndMask(n: nat) returns (c: nat, mask: nat)
    requires n < WORD
    ensures n <= HALF ==> c >= 2 && LeastPow2AtLeast(c, if n < 2 then 2 else n) && mask == c - 1
    ensures n > HALF ==> c == 0 && mask == WORD - 1
  {
    c := RoundUpToPowerOfTwo(n);
    WordIsPow2();
    WrapPred(c);
    mask := WrapSub(c, 1);
  }

  /** 128-byte cells and a request for 2^57: the capacity is 2^57, and no byte is asked for. */
  lemma RingShort(n: nat)
    requires n == 0x0200_0000_0000_0000
    ensures RoundUpPo2(n) == n && Bytes(n, 128) == 0 && Held(n, 128) == 0
  {
    WordIsPow2();
    var p := 2 * n;
    Halve(HALF, 32 * n);
    Halve(32 * n, 16 * n);
    Halve(16 * n, 8 * n);
    Halve(8 * n, 4 * n);
    Halve(4 * n, p);
    Halve(p, n);
    RoundUpIsLeast(n);
    Arith.ModUnique(n * 128, WORD, 1, 0);
  }

  class Ring<V> {
    const capacity: nat
    const mask: nat
    var head: nat
    var tail: nat
    const sequence: array<nat>
    const storage: array<Slot<V>>
    // Program counters and claim logs of all threads, and every step taken so far.
    ghost var pcs: map<Tid, Pc<V>>
    ghost var pushes: seq<(Tid, V)>
    ghost var pops: seq<Tid>
    ghost var delivered: map<nat, V>
    ghost var history: Schedule<V>

    ghost function Now(): State<V>
      reads this, sequence, storage
    {
      State(capacity, head, tail, sequence[..], storage[..], pcs, pushes, pops, delivered)
    }

    /** The state the protocol is in after a schedule. */
    ghost function After(sched: Schedule<V>): (s: State<V>)
      requires capacity >= 2
      ensures Counts(s)
    {
      InitOk<V>(capacity);
      RunRefines(Init<V>(capacity), sched);
      Exec(Init<V>(capacity), sched)
    }

    lemma AfterInv(sched: Schedule<V>)
      requires capacity >= 2
      ensures Inv(After(sched))
    {
      InitOk<V>(capacity);
      RunRefines(Init<V>(capacity), sched);
    }

    /** The fields are the state that the recorded history leads to. */
    ghost predicate Valid()
      reads this, sequence, storage
      ensures Valid() ==> Counts(Now())
    {
      IsPow2(capacity) && capacity >= 2 && mask == capacity - 1 && After(history) == Now()
    }

    /** cellSize is sizeof(cell).  Right exactly up to a request of 2^63, where the rounding wraps to 0 and
        the mask is all ones, and while the size of all cells in bytes is a word.  Otherwise
        operator new is asked for fewer cells than the capacity says; numbering them all is not
        followed then. */
    constructor (n: nat, cellSize: nat)
      requires n < WORD && cellSize >= 1
      ensures fresh(sequence) && fresh(storage)
      ensures Valid() <==> n <= HALF && capacity * cellSize < WORD
      ensures Valid() ==> capacity >= 2 && Now() == Init<V>(capacity) && Contents(Now()) == []
      ensures n <= HALF ==> LeastPow2AtLeast(capacity, if n < 2 then 2 else n) && mask == capacity - 1
      ensures n > HALF ==> capacity == 0 && mask == WORD - 1
      ensures sequence.Length == storage.Length == ((capacity * cellSize) % WORD) / cellSize
    {
      var c, m := RoundedAndMask(n);
      HeldIff(c, cellSize);
      capacity := c;
      mask := m;
      var held := Held(c, cellSize);
      sequence := new nat[held];
      storage := new Slot<V>[held](_ => Raw);
      head, tail := 0, 0;
      pcs, pushes, pops, delivered, history := map[], [], [], map[], [];
      new;
      NumberCells(sequence);
      if n <= HALF && held == c {
        FreshCells(sequence[..], storage[..], c);
      } else {
        ShortIsInvalid();
      }
    }

    lemma ShortIsInvalid()
      requires capacity < 2 || sequence.Length != capacity
      ensures !Valid()
    {
      if capacity >= 2 { assert Sized(After(history)); }
    }

    /** `index & mask_` is the cell of a position. */
    lemma CellIndex(p: nat)
      requires Valid()
      ensures And(p, mask) == p % capacity < capacity == sequence.Length == storage.Length
    {
      MaskIsMod(p, capacity);
      assert Sized(Now());
    }

    /** The step that thread `me` takes next, and the bookkeeping for it. */
    lemma NextStep(me: Tid, a: Action<V>)
      requires Valid()
      ensures After(history + [(me, a)]) == Step(Now(), me, a)
      ensures Inv(Now())
    {
      InitOk<V>(capacity);
      AfterInv(history);
      Extend(Init<V>(capacity), history, me, a);
    }

    lemma AfterCap(moment: Schedule<V>)
      requires capacity >= 2
      ensures After(moment).cap == capacity
    {
      CapFrom<V>(capacity, moment);
    }

    lemma PushRefusedAt(moment: Schedule<V>)
      requires capacity >= 2 && TailBlocked(After(moment))
      ensures |Contents(After(moment))| == capacity <==> !TailDraining(After(moment))
      ensures NoConsumerInside(After(moment)) ==> |Contents(After(moment))| == capacity
    {
      AfterInv(moment);
      AfterCap(moment);
      RefusedPush(After(moment));
    }

    lemma PopRefusedAt(moment: Schedule<V>)
      requires capacity >= 2 && HeadBlocked(After(moment))
      ensures Contents(After(moment)) == [] <==> !HeadFilling(After(moment))
      ensures NoProducerInside(After(moment)) ==> Contents(After(moment)) == []
    {
      AfterInv(moment);
      AfterCap(moment);
      RefusedPop(After(moment));
    }

    // -- other threads ---------------------------------------------------------------

    /** Other threads run for a while.  This body is the run in which none of them moves; callers
        rely only on the contract, which allows every schedule of other threads' steps that keeps
        tail_ and head_ within the given bounds. */
    method Interfere(me: Tid, ghost tailBound: nat, ghost headBound: nat)
      requires Valid() && tail <= tailBound && head <= headBound
      modifies this, sequence, storage
      ensures Valid() && tail <= tailBound && head <= headBound
      ensures old(history) <= history && OthersOnly(history[|old(history)|..], me)
    {
    }

    method Yield(me: Tid, ghost tailBound: nat, ghost headBound: nat)
      requires Valid() && tail <= tailBound && head <= headBound
      modifies this, sequence, storage
      ensures Valid() && tail <= tailBound && head <= headBound
      ensures old(history) <= history
      ensures Rely(old(Now()), Now(), me)
    {
      ghost var h := history;
      Interfere(me, tailBound, headBound);
      ghost var env := history[|h|..];
      assert history == h + env;
      InitOk<V>(capacity);
      ExecConcat(Init<V>(capacity), h, env);
      AfterInv(h);
      OthersRely(After(h), env, me);
    }

    // -- one shared access each ------------------------------------------------------

    ghost method StartCall(me: Tid, a: Action<V>)
      requires Valid() && PcOf(Now(), me) == Idle && !a.Go?
      modifies this`pcs, this`history
      ensures Valid() && history == old(history) + [(me, a)]
      ensures Now() == WithPc(old(Now()), me, if a.StartPush? then PushRead(a.v, 0) else PopRead(0))
    {
      NextStep(me, a);
      pcs := pcs[me := if a.StartPush? then PushRead(a.v, 0) else PopRead(0)];
      history := history + [(me, a)];
    }

    method LoadTail(me: Tid, v: V) returns (t: nat)
      requires Valid() && PcOf(Now(), me).PushRead? && PcOf(Now(), me).v == v
      modifies this`pcs, this`history
      ensures Valid() && history == old(history) + [(me, Go)]
      ensures t == tail >= old(PcOf(Now(), me).low)
      ensures Now() == WithPc(old(Now()), me, PushLoaded(v, t))
    {
      NextStep(me, Go);
      assert ThreadOk(Now(), me);
      t := tail;
      pcs := pcs[me := PushLoaded(v, t)];
      history := history + [(me, Go)];
    }

    method LoadHead(me: Tid) returns (h: nat)
      requires Valid() && PcOf(Now(), me).PopRead?
      modifies this`pcs, this`history
      ensures Valid() && history == old(history) + [(me, Go)]
      ensures h == head >= old(PcOf(Now(), me).low)
      ensures Now() == WithPc(old(Now()), me, PopLoaded(h))
    {
      NextStep(me, Go);
      assert ThreadOk(Now(), me);
      h := head;
      pcs := pcs[me := PopLoaded(h)];
      history := history + [(me, Go)];
    }

    /** A producer's load of its cell's sequence number. */
    method LoadForPush(me: Tid, v: V, t: nat) returns (q: nat)
      requires Valid() && PcOf(Now(), me) == PushLoaded(v, t)
      modifies this`pcs, this`history
      ensures Valid() && history == old(history) + [(me, Go)]
      ensures Now() == WithPc(old(Now()), me, PushSeen(v, t, q))
      ensures q < t <==> t == tail && TailBlocked(old(Now()))
    {
      NextStep(me, Go);
      assert ThreadOk(Now(), me);
      CellIndex(t);
      PushFailsIff(Now(), t);
      q := sequence[And(t, mask)];
      pcs := pcs[me := PushSeen(v, t, q)];
      history := history + [(me, Go)];
    }

    /** A consumer's load of its cell's sequence number. */
    method LoadForPop(me: Tid, h: nat) returns (q: nat)
      requires Valid() && PcOf(Now(), me) == PopLoaded(h)
      modifies this`pcs, this`history
      ensures Valid() && history == old(history) + [(me, Go)]
      ensures Now() == WithPc(old(Now()), me, PopSeen(h, q))
      ensures q < h + 1 <==> h == head && HeadBlocked(old(Now()))
    {
      NextStep(me, Go);
      assert ThreadOk(Now(), me);
      CellIndex(h);
      PopFailsIff(Now(), h);
      q := sequence[And(h, mask)];
      pcs := pcs[me := PopSeen(h, q)];
      history := history + [(me, Go)];
    }

    /** `tail_.compare_exchange(expected, expected + 1)` after seeing the cell free at expected. */
    method CasTail(me: Tid, v: V, expected: nat) returns (won: bool)
      requires Valid() && PcOf(Now(), me) == PushSeen(v, expected, expected)
      modifies this`tail, this`pcs, this`pushes, this`history
      ensures Valid() && history == old(history) + [(me, Go)]
      ensures won <==> old(tail) == expected
      ensures won ==> Now() == ClaimTail(old(Now()), me, v)
      ensures !won ==> Now() == WithPc(old(Now()), me, PushRead(v, expected + 1))
    {
      NextStep(me, Go);
      history := history + [(me, Go)];
      if tail == expected {
        pcs, pushes := pcs[me := PushOwn(v, tail)], pushes + [(me, v)];
        tail := tail + 1;
        won := true;
      } else {
        pcs := pcs[me := PushRead(v, expected + 1)];
        won := false;
      }
    }

    /** `head_.compare_exchange(expected, expected + 1)` after seeing the cell published. */
    method CasHead(me: Tid, expected: nat) returns (won: bool)
      requires Valid() && PcOf(Now(), me) == PopSeen(expected, expected + 1)
      modifies this`head, this`pcs, this`pops, this`history
      ensures Valid() && history == old(history) + [(me, Go)]
      ensures won <==> old(head) == expected
      ensures won ==> Now() == ClaimHead(old(Now()), me)
      ensures !won ==> Now() == WithPc(old(Now()), me, PopRead(expected + 1))
    {
      NextStep(me, Go);
      history := history + [(me, Go)];
      if head == expected {
        pcs, pops := pcs[me := PopOwn(head)], pops + [me];
        head := head + 1;
        won := true;
      } else {
        pcs := pcs[me := PopRead(expected + 1)];
        won := false;
      }
    }

    /** Leaving the branch without a compare-and-swap: give up below, go round again above. */
    ghost method BranchPush(me: Tid, v: V, t: nat, seen: nat)
      requires Valid() && PcOf(Now(), me) == PushSeen(v, t, seen) && seen != t
      modifies this`pcs, this`history
      ensures Valid() && history == old(history) + [(me, Go)]
      ensures Now() == WithPc(old(Now()), me, if seen < t then Idle else PushRead(v, t + 1))
    {
      NextStep(me, Go);
      pcs := pcs[me := if seen < t then Idle else PushRead(v, t + 1)];
      history := history + [(me, Go)];
    }

    ghost method BranchPop(me: Tid, h: nat, seen: nat)
      requires Valid() && PcOf(Now(), me) == PopSeen(h, seen) && seen != h + 1
      modifies this`pcs, this`history
      ensures Valid() && history == old(history) + [(me, Go)]
      ensures Now() == WithPc(old(Now()), me, if seen < h + 1 then Idle else PopRead(h + 1))
    {
      NextStep(me, Go);
      pcs := pcs[me := if seen < h + 1 then Idle else PopRead(h + 1)];
      history := history + [(me, Go)];
    }

    /** Placement-new, over a slot that holds no object. */
    method Construct(me: Tid, v: V, t: nat)
      requires Valid() && PcOf(Now(), me) == PushOwn(v, t)
      modifies storage, this`pcs, this`history
      ensures old(SlotOf(Now(), t)) == Raw
      ensures Valid() && history == old(history) + [(me, Go)]
      ensures Now() == WithPc(WithSlot(old(Now()), t, Live(v)), me, PushBuilt(t))
    {
      NextStep(me, Go);
      ConstructOk(Now(), me);
      CellIndex(t);
      storage[And(t, mask)] := Live(v);
      pcs := pcs[me := PushBuilt(t)];
      history := history + [(me, Go)];
      assert Now() == WithPc(WithSlot(old(Now()), t, Live(v)), me, PushBuilt(t));
    }

    method Publish(me: Tid, t: nat)
      requires Valid() && PcOf(Now(), me) == PushBuilt(t)
      modifies sequence, this`pcs, this`history
      ensures Valid() && history == old(history) + [(me, Go)]
      ensures Now() == WithPc(WithSeqn(old(Now()), t, t + 1), me, Idle)
    {
      NextStep(me, Go);
      CellIndex(t);
      sequence[And(t, mask)] := t + 1;
      pcs := pcs[me := Idle];
      history := history + [(me, Go)];
      assert Now() == WithPc(WithSeqn(old(Now()), t, t + 1), me, Idle);
    }

    /** Moves the element out of a slot that holds one. */
    method MoveOut(me: Tid, h: nat) returns (out: V)
      requires Valid() && PcOf(Now(), me) == PopOwn(h)
      modifies storage, this`pcs, this`history
      ensures Valid() && history == old(history) + [(me, Go)]
      ensures h < |pushes| && out == pushes[h].1 && old(SlotOf(Now(), h)) == Live(out)
      ensures Now() == WithPc(WithSlot(old(Now()), h, Moved), me, PopMoved(h, out))
    {
      NextStep(me, Go);
      MoveOk(Now(), me);
      CellIndex(h);
      out := storage[And(h, mask)].value;
      storage[And(h, mask)] := Moved;
      pcs := pcs[me := PopMoved(h, out)];
      history := history + [(me, Go)];
      assert Now() == WithPc(WithSlot(old(Now()), h, Moved), me, PopMoved(h, out));
    }

    /** Destroys the husk of a moved-out element. */
    method Destroy(me: Tid, h: nat, ghost out: V)
      requires Valid() && PcOf(Now(), me) == PopMoved(h, out)
      modifies storage, this`pcs, this`history
      ensures old(SlotOf(Now(), h)) == Moved
      ensures Valid() && history == old(history) + [(me, Go)]
      ensures Now() == WithPc(WithSlot(old(Now()), h, Raw), me, PopEmptied(h, out))
    {
      NextStep(me, Go);
      DestroyOk(Now(), me);
      CellIndex(h);
      storage[And(h, mask)] := Raw;
      pcs := pcs[me := PopEmptied(h, out)];
      history := history + [(me, Go)];
      assert Now() == WithPc(WithSlot(old(Now()), h, Raw), me, PopEmptied(h, out));
    }

    method Release(me: Tid, h: nat, ghost out: V)
      requires Valid() && PcOf(Now(), me) == PopEmptied(h, out)
      modifies sequence, this`pcs, this`delivered, this`history
      ensures Valid() && history == old(history) + [(me, Go)]
      ensures Now() == WithPc(WithSeqn(old(Now()), h, h + capacity), me, Idle).(delivered := old(delivered)[h := out])
    {
      NextStep(me, Go);
      CellIndex(h);
      sequence[And(h, mask)] := h + capacity;
      pcs, delivered := pcs[me := Idle], delivered[h := out];
      history := history + [(me, Go)];
      assert Now() == WithPc(WithSeqn(old(Now()), h, h + capacity), me, Idle).(delivered := old(delivered)[h := out]);
    }

    // -- the two operations ----------------------------------------------------------
    //
    // s0 is the state in which the call began.

    /** The load of tail_, other threads running before it. */
    method ReadTail(me: Tid, v: V, ghost s0: State<V>, ghost tailBound: nat, ghost headBound: nat) returns (t: nat)
      requires Valid() && PcOf(Now(), me).PushRead? && PcOf(Now(), me).v == v
      requires tail <= tailBound && head <= headBound && Counts(s0) && NoClaim(s0, Now(), me)
      modifies this, sequence, storage
      ensures Valid() && PcOf(Now(), me) == PushLoaded(v, t)
      ensures t == tail <= tailBound && head <= headBound && old(history) <= history
      ensures NoClaim(s0, Now(), me)
      ensures t >= old(PcOf(Now(), me).low) && t >= s0.tail
    {
      Yield(me, tailBound, headBound);
      t := LoadTail(me, v);
    }

    method ReadHead(me: Tid, ghost s0: State<V>, ghost tailBound: nat, ghost headBound: nat) returns (h: nat)
      requires Valid() && PcOf(Now(), me).PopRead?
      requires tail <= tailBound && head <= headBound && Counts(s0) && NoClaim(s0, Now(), me)
      modifies this, sequence, storage
      ensures Valid() && PcOf(Now(), me) == PopLoaded(h)
      ensures h == head <= headBound && tail <= tailBound && old(history) <= history
      ensures NoClaim(s0, Now(), me)
      ensures h >= old(PcOf(Now(), me).low) && h >= s0.head
    {
      Yield(me, tailBound, headBound);
      h := LoadHead(me);
    }

    /** The load of the cell's sequence number, other threads running before and after it. */
    method PeekPush(me: Tid, v: V, t: nat, ghost s0: State<V>, ghost tailBound: nat, ghost headBound: nat)
      returns (sq: nat, ghost moment: Schedule<V>)
      requires Valid() && PcOf(Now(), me) == PushLoaded(v, t)
      requires t <= tail <= tailBound && head <= headBound && Counts(s0) && NoClaim(s0, Now(), me)
      modifies this, sequence, storage
      ensures Valid() && PcOf(Now(), me) == PushSeen(v, t, sq)
      ensures t <= tail <= tailBound && head <= headBound && old(history) <= history
      ensures NoClaim(s0, Now(), me)
      ensures old(history) <= moment <= history
      ensures sq < t <==> t == After(moment).tail && TailBlocked(After(moment))
    {
      Yield(me, tailBound, headBound);
      moment := history;
      sq := LoadForPush(me, v, t);
      Yield(me, tailBound, headBound);
    }

    method PeekPop(me: Tid, h: nat, ghost s0: State<V>, ghost tailBound: nat, ghost headBound: nat)
      returns (sq: nat, ghost moment: Schedule<V>)
      requires Valid() && PcOf(Now(), me) == PopLoaded(h)
      requires tail <= tailBound && h <= head <= headBound && Counts(s0) && NoClaim(s0, Now(), me)
      modifies this, sequence, storage
      ensures Valid() && PcOf(Now(), me) == PopSeen(h, sq)
      ensures tail <= tailBound && h <= head <= headBound && old(history) <= history
      ensures NoClaim(s0, Now(), me)
      ensures old(history) <= moment <= history
      ensures sq < h + 1 <==> h == After(moment).head && HeadBlocked(After(moment))
    {
      Yield(me, tailBound, headBound);
      moment := history;
      sq := LoadForPop(me, h);
      Yield(me, tailBound, headBound);
    }

    /** A winning compare-and-swap on tail_, construction and publication. */
    method FinishPush(me: Tid, v: V, t: nat, ghost s0: State<V>, ghost tailBound: nat, ghost headBound: nat)
      requires Valid() && PcOf(Now(), me) == PushOwn(v, t) && tail <= tailBound && head <= headBound
      requires Counts(s0) && OnePush(s0, Now(), me, v, t)
      modifies this, sequence, storage
      ensures Valid() && PcOf(Now(), me) == Idle && old(history) <= history
      ensures OnePush(s0, Now(), me, v, t)
    {
      Yield(me, tailBound, headBound);
      Construct(me, v, t);
      Yield(me, tailBound, headBound);
      Publish(me, t);
    }

    method TakeOut(me: Tid, h: nat, ghost s0: State<V>, ghost tailBound: nat, ghost headBound: nat) returns (out: V)
      requires Valid() && PcOf(Now(), me) == PopOwn(h) && h < tail <= tailBound && head <= headBound
      requires Counts(s0) && OnePop(s0, Now(), me, h)
      modifies this, sequence, storage
      ensures Valid() && PcOf(Now(), me) == PopMoved(h, out) && old(history) <= history
      ensures tail <= tailBound && head <= headBound && h < tail && out == pushes[h].1
      ensures OnePop(s0, Now(), me, h)
    {
      Yield(me, tailBound, headBound);
      out := MoveOut(me, h);
    }

    /** Move out, destroy and release at the claimed position. */
    method FinishPop(me: Tid, h: nat, ghost s0: State<V>, ghost tailBound: nat, ghost headBound: nat) returns (out: V)
      requires Valid() && PcOf(Now(), me) == PopOwn(h) && h < tail <= tailBound && head <= headBound
      requires Counts(s0) && OnePop(s0, Now(), me, h)
      modifies this, sequence, storage
      ensures Valid() && PcOf(Now(), me) == Idle && old(history) <= history
      ensures OnePop(s0, Now(), me, h)
      ensures h < tail && h in delivered && delivered[h] == out == pushes[h].1
    {
      out := TakeOut(me, h, s0, tailBound, headBound);
      LetGo(me, h, out, s0, tailBound, headBound);
    }

    /** Destruction of the husk and release of the cell. */
    method LetGo(me: Tid, h: nat, ghost out: V, ghost s0: State<V>, ghost tailBound: nat, ghost headBound: nat)
      requires Valid() && PcOf(Now(), me) == PopMoved(h, out) && h < tail <= tailBound && head <= headBound
      requires Counts(s0) && OnePop(s0, Now(), me, h) && out == pushes[h].1
      modifies this, sequence, storage
      ensures Valid() && PcOf(Now(), me) == Idle && old(history) <= history
      ensures OnePop(s0, Now(), me, h)
      ensures h < tail && h in delivered && delivered[h] == out == pushes[h].1
    {
      Yield(me, tailBound, headBound);
      Destroy(me, h, out);
      Yield(me, tailBound, headBound);
      Release(me, h, out);
    }

    /** The compare-and-swap on tail_ and, if it wins, the rest of the push. */
    method ClaimAndPush(me: Tid, v: V, t: nat, ghost s0: State<V>, ghost tailBound: nat, ghost headBound: nat)
      returns (won: bool)
      requires Valid() && PcOf(Now(), me) == PushSeen(v, t, t)
      requires t <= tail <= tailBound && head <= headBound && Counts(s0) && NoClaim(s0, Now(), me)
      modifies this, sequence, storage
      ensures Valid() && old(history) <= history
      ensures won ==> PcOf(Now(), me) == Idle && OnePush(s0, Now(), me, v, t) && t < tail
      ensures !won ==>
                && PcOf(Now(), me) == PushRead(v, t + 1) && NoClaim(s0, Now(), me)
                && tail <= tailBound && head <= headBound
    {
      won := CasTail(me, v, t);
      if won {
        FinishPush(me, v, t, s0, tailBound + 1, headBound);
      }
    }

    /** The compare-and-swap on head_ and, if it wins, the rest of the pop. */
    method ClaimAndPop(me: Tid, h: nat, ghost s0: State<V>, ghost tailBound: nat, ghost headBound: nat)
      returns (won: bool, out: Slot<V>)
      requires Valid() && PcOf(Now(), me) == PopSeen(h, h + 1)
      requires tail <= tailBound && h <= head <= headBound && Counts(s0) && NoClaim(s0, Now(), me)
      modifies this, sequence, storage
      ensures Valid() && old(history) <= history
      ensures won ==>
                && PcOf(Now(), me) == Idle && OnePop(s0, Now(), me, h) && h < head && h < tail
                && out == Live(pushes[h].1) && h in delivered && out == Live(delivered[h])
      ensures !won ==>
                && PcOf(Now(), me) == PopRead(h + 1) && NoClaim(s0, Now(), me)
                && tail <= tailBound && head <= headBound
    {
      out := Raw;
      won := CasHead(me, h);
      if won {
        var v := FinishPop(me, h, s0, tailBound, headBound + 1);
        out := Live(v);
      }
    }

    /** One pass of `try_emplace`'s loop body, ending in a return or in the reload of tail_. */
    method AttemptPush(me: Tid, v: V, t: nat, ghost s0: State<V>, ghost tailBound: nat, ghost headBound: nat)
      returns (pass: Pass, ghost moment: Schedule<V>)
      requires Valid() && PcOf(Now(), me) == PushLoaded(v, t)
      requires t <= tail <= tailBound && head <= headBound && Counts(s0) && NoClaim(s0, Now(), me)
      modifies this, sequence, storage
      ensures Valid() && old(history) <= moment <= history
      ensures pass.Won? ==> PcOf(Now(), me) == Idle && OnePush(s0, Now(), me, v, t) && t < tail
      ensures pass.GaveUp? ==>
                PcOf(Now(), me) == Idle && NoClaim(s0, Now(), me) && t <= tail && TailBlocked(After(moment))
      ensures pass.Retry? ==>
                && PcOf(Now(), me) == PushLoaded(v, pass.index) && NoClaim(s0, Now(), me)
                && t < pass.index <= tail <= tailBound && head <= headBound
    {
      var sq;
      sq, moment := PeekPush(me, v, t, s0, tailBound, headBound);
      pass := SettlePush(me, v, t, sq, s0, tailBound, headBound);
    }

    /** The rest of the body, for the sequence number that was loaded. */
    method SettlePush(me: Tid, v: V, t: nat, sq: nat, ghost s0: State<V>, ghost tailBound: nat, ghost headBound: nat)
      returns (pass: Pass)
      requires Valid() && PcOf(Now(), me) == PushSeen(v, t, sq)
      requires t <= tail <= tailBound && head <= headBound && Counts(s0) && NoClaim(s0, Now(), me)
      modifies this, sequence, storage
      ensures Valid() && old(history) <= history && (pass.GaveUp? <==> sq < t)
      ensures pass.Won? ==> PcOf(Now(), me) == Idle && OnePush(s0, Now(), me, v, t) && t < tail
      ensures pass.GaveUp? ==> PcOf(Now(), me) == Idle && NoClaim(s0, Now(), me) && t <= tail
      ensures pass.Retry? ==>
                && PcOf(Now(), me) == PushLoaded(v, pass.index) && NoClaim(s0, Now(), me)
                && t < pass.index <= tail <= tailBound && head <= headBound
    {
      if sq == t {
        var won := ClaimAndPush(me, v, t, s0, tailBound, headBound);
        if won {
          return Won;
        }
      } else {
        BranchPush(me, v, t, sq);
        if sq < t {
          return GaveUp;
        }
      }
      var t' := ReadTail(me, v, s0, tailBound, headBound);
      pass := Retry(t');
    }

    /** One pass of `try_pop`'s loop body. */
    method AttemptPop(me: Tid, h: nat, ghost s0: State<V>, ghost tailBound: nat, ghost headBound: nat)
      returns (pass: Pass, out: Slot<V>, ghost moment: Schedule<V>)
      requires Valid() && PcOf(Now(), me) == PopLoaded(h)
      requires tail <= tailBound && h <= head <= headBound && Counts(s0) && NoClaim(s0, Now(), me)
      modifies this, sequence, storage
      ensures Valid() && old(history) <= moment <= history
      ensures pass.Won? ==>
                && PcOf(Now(), me) == Idle && OnePop(s0, Now(), me, h) && h < head && h < tail
                && out == Live(pushes[h].1) && h in delivered && out == Live(delivered[h])
      ensures pass.GaveUp? ==>
                PcOf(Now(), me) == Idle && NoClaim(s0, Now(), me) && h <= head && HeadBlocked(After(moment))
      ensures pass.Retry? ==>
                && PcOf(Now(), me) == PopLoaded(pass.index) && NoClaim(s0, Now(), me)
                && h < pass.index <= head <= headBound && tail <= tailBound
    {
      var sq;
      sq, moment := PeekPop(me, h, s0, tailBound, headBound);
      pass, out := SettlePop(me, h, sq, s0, tailBound, headBound);
    }

    method SettlePop(me: Tid, h: nat, sq: nat, ghost s0: State<V>, ghost tailBound: nat, ghost headBound: nat)
      returns (pass: Pass, out: Slot<V>)
      requires Valid() && PcOf(Now(), me) == PopSeen(h, sq)
      requires tail <= tailBound && h <= head <= headBound && Counts(s0) && NoClaim(s0, Now(), me)
      modifies this, sequence, storage
      ensures Valid() && old(history) <= history && (pass.GaveUp? <==> sq < h + 1)
      ensures pass.Won? ==>
                && PcOf(Now(), me) == Idle && OnePop(s0, Now(), me, h) && h < head && h < tail
                && out == Live(pushes[h].1) && h in delivered && out == Live(delivered[h])
      ensures pass.GaveUp? ==> PcOf(Now(), me) == Idle && NoClaim(s0, Now(), me) && h <= head
      ensures pass.Retry? ==>
                && PcOf(Now(), me) == PopLoaded(pass.index) && NoClaim(s0, Now(), me)
                && h < pass.index <= head <= headBound && tail <= tailBound
    {
      out := Raw;
      if sq == h + 1 {
        var won;
        won, out := ClaimAndPop(me, h, s0, tailBound, headBound);
        if won {
          return Won, out;
        }
      } else {
        BranchPop(me, h, sq);
        if sq < h + 1 {
          return GaveUp, out;
        }
      }
      var h' := ReadHead(me, s0, tailBound, headBound);
      pass := Retry(h');
    }

    /** `try_emplace`.  The bounds limit how far other threads drive the indices during the call.
        True: exactly one position was claimed by this thread, with this value.  False: none was,
        and at the recorded moment of the call the cell of tail_ was unreleased; if no consumer was
        inside a claimed cell then, the queue was full.  Every retry is paid for by another
        thread's claim during the call. */
    method TryEmplace(me: Tid, v: V, ghost tailBound: nat, ghost headBound: nat)
      returns (ok: bool, ghost claim: nat, ghost moment: Schedule<V>, ghost retries: nat)
      requires Valid() && PcOf(Now(), me) == Idle && tail <= tailBound && head <= headBound
      modifies this, sequence, storage
      ensures Valid() && PcOf(Now(), me) == Idle
      ensures ok ==>
                && OnePush(old(Now()), Now(), me, v, claim)
                && old(tail) <= claim < tail && pushes[claim] == (me, v)
      ensures !ok ==>
                && NoClaim(old(Now()), Now(), me)
                && old(history) <= moment <= history && TailBlocked(After(moment))
                && (NoConsumerInside(After(moment)) ==> |Contents(After(moment))| == capacity)
      ensures retries + (if ok then 1 else 0) <= tail - old(tail)
    {
      ghost var s0, h0 := Now(), history;
      retries := 0;
      StartCall(me, StartPush(v));
      var t := ReadTail(me, v, s0, tailBound, headBound);
      while true
        invariant Valid() && tail <= tailBound && head <= headBound && h0 <= history
        invariant PcOf(Now(), me) == PushLoaded(v, t) && s0.tail + retries <= t <= tail
        invariant NoClaim(s0, Now(), me)
        decreases tailBound - t
      {
        var pass;
        claim := t;
        pass, moment := AttemptPush(me, v, t, s0, tailBound, headBound);
        match pass {
          case Won => return true, claim, moment, retries;
          case GaveUp => PushRefusedAt(moment); return false, claim, moment, retries;
          case Retry(t') => t, retries := t', retries + 1;
        }
      }
    }

    /** `try_pop`.  True: exactly one position was claimed by this thread and the value handed out
        is the one pushed at that position.  False: nothing was claimed, and at the recorded moment
        of the call position head_ was unpublished; if no producer was inside a claimed cell then,
        the queue was empty. */
    method TryPop(me: Tid, ghost tailBound: nat, ghost headBound: nat)
      returns (ok: bool, out: Slot<V>, ghost claim: nat, ghost moment: Schedule<V>, ghost retries: nat)
      requires Valid() && PcOf(Now(), me) == Idle && tail <= tailBound && head <= headBound
      modifies this, sequence, storage
      ensures Valid() && PcOf(Now(), me) == Idle
      ensures ok ==>
                && OnePop(old(Now()), Now(), me, claim)
                && claim < tail && out == Live(pushes[claim].1)
                && claim in delivered && out == Live(delivered[claim])
      ensures !ok ==>
                && NoClaim(old(Now()), Now(), me)
                && old(history) <= moment <= history && HeadBlocked(After(moment))
                && (NoProducerInside(After(moment)) ==> Contents(After(moment)) == [])
      ensures retries + (if ok then 1 else 0) <= head - old(head)
    {
      ghost var s0, h0 := Now(), history;
      retries := 0;
      StartCall(me, StartPop);
      var h := ReadHead(me, s0, tailBound, headBound);
      while true
        invariant Valid() && tail <= tailBound && head <= headBound && h0 <= history
        invariant PcOf(Now(), me) == PopLoaded(h) && s0.head + retries <= h <= head
        invariant NoClaim(s0, Now(), me)
        decreases headBound - h
      {
        var pass;
        claim := h;
        pass, out, moment := AttemptPop(me, h, s0, tailBound, headBound);
        match pass {
          case Won => return true, out, claim, moment, retries;
          case GaveUp => PopRefusedAt(moment); return false, out, claim, moment, retries;
          case Retry(h') => h, retries := h', retries + 1;
        }
      }
    }
  }
}
