/** Every step of every thread keeps the life-cycle invariant of the queue. */
module MpmcInvariant {
  import opened Arith
  import opened Storage
  import opened MpmcProtocol

  predicate Owner<V>(pc: Pc<V>) {
    pc.PushOwn? || pc.PushBuilt? || pc.PopOwn? || pc.PopMoved? || pc.PopEmptied?
  }

  lemma InitOk<V>(cap: nat)
    requires cap >= 2
    ensures Inv(Init<V>(cap))
  {
    var s := Init<V>(cap);
    forall n | s.tail <= n < s.tail + s.cap ensures CellOk(s, n) {
      ModSmall(n, cap);
    }
  }

  /** Steps that touch only a non-owning thread's own locals. */
  lemma LocalOk<V>(s: State<V>, i: Tid, pc: Pc<V>)
    requires Inv(s) && !Owner(PcOf(s, i)) && !Owner(pc)
    requires ThreadOk(WithPc(s, i, pc), i)
    ensures Inv(WithPc(s, i, pc))
  {
    var s' := WithPc(s, i, pc);
    forall n | s'.tail <= n < s'.tail + s'.cap ensures CellOk(s', n) {
      LocalCell(s, i, pc, n);
    }
    forall j ensures ThreadOk(s', j) {
      if j != i { LocalThread(s, i, pc, j); }
    }
    LocalDeliveries(s, i, pc);
  }

  lemma LocalCell<V>(s: State<V>, i: Tid, pc: Pc<V>, n: nat)
    requires Counts(s) && !Owner(PcOf(s, i)) && !Owner(pc)
    requires s.tail <= n < s.tail + s.cap && CellOk(s, n)
    ensures CellOk(WithPc(s, i, pc), n)
  {
  }

  lemma LocalThread<V>(s: State<V>, i: Tid, pc: Pc<V>, j: Tid)
    requires Counts(s) && ThreadOk(s, j) && j != i
    ensures ThreadOk(WithPc(s, i, pc), j)
  {
  }

  lemma LocalDeliveries<V>(s: State<V>, i: Tid, pc: Pc<V>)
    requires Counts(s) && Deliveries(s) && !Owner(PcOf(s, i)) && !Owner(pc)
    ensures Deliveries(WithPc(s, i, pc))
  {
    var s' := WithPc(s, i, pc);
    forall h | 0 <= h < s.head ensures PendingPop(s', h) <==> PendingPop(s, h) {}
  }

  /** All positions that share a cell see the same sequence number and slot. */
  lemma SameSeqn<V>(s: State<V>, p: nat, q: nat)
    requires Sized(s) && (p % s.cap == q % s.cap || p == q + s.cap)
    ensures Seqn(s, p) == Seqn(s, q) && SlotOf(s, p) == SlotOf(s, q)
  {
    ModAdd(q, s.cap);
  }

  /** The sequence number names the stage. */
  lemma Stage<V>(s: State<V>, n: nat)
    requires Inv(s) && s.tail <= n < s.tail + s.cap
    ensures Seqn(s, n) == n <==> Free(s, n)
    ensures Seqn(s, n) != n ==> n >= s.cap && (Seqn(s, n) == n - s.cap || Seqn(s, n) == n - s.cap + 1)
    ensures Seqn(s, n) == n - s.cap ==> n >= s.cap && Filling(s, n - s.cap)
    ensures Seqn(s, n) == n - s.cap + 1 ==>
              n >= s.cap && if s.head <= n - s.cap then Full(s, n - s.cap) else Draining(s, n - s.cap)
  {
    assert CellOk(s, n);
    if n >= s.cap { SameSeqn(s, n, n - s.cap); }
  }

  /** What a freshly loaded tail-cell sequence says. */
  lemma TailCell<V>(s: State<V>, t: nat)
    requires Inv(s) && t <= s.tail
    ensures Seqn(s, t) > t ==> t < s.tail
    ensures Seqn(s, t) < t ==> t == s.tail
    ensures t == s.tail && Seqn(s, t) < t ==> t >= s.cap && Seqn(s, t) <= t - s.cap + 1
  {
    var n := Upcoming(s, t);
    Stage(s, n);
    SameSeqn(s, t, n);
    if t == s.tail {
      SameCell(t, n, s.cap);
    } else {
      NextInCell(t, n, s.cap);
    }
  }

  /** What a freshly loaded head-cell sequence says. */
  lemma HeadCell<V>(s: State<V>, h: nat)
    requires Inv(s) && h <= s.head
    ensures Seqn(s, h) > h + 1 ==> h < s.head
    ensures Seqn(s, h) <= h ==> h == s.head
    ensures h == s.head && Seqn(s, h) == h + 1 ==> h < s.tail && Full(s, h)
  {
    var n := Upcoming(s, h);
    Stage(s, n);
    SameSeqn(s, h, n);
    if h == s.tail {
      SameCell(h, n, s.cap);
    } else {
      NextInCell(h, n, s.cap);
      if h == s.head { SameCell(h + s.cap, n, s.cap) by { ModAdd(h, s.cap); } }
    }
  }

  // ---------------------------------------------------------------- the two compare-and-swaps

  lemma ClaimTailOk<V>(s: State<V>, i: Tid, v: V, t: nat)
    requires Inv(s) && PcOf(s, i) == PushSeen(v, t, t) && s.tail == t
    ensures Free(s, t)
    ensures Inv(ClaimTail(s, i, v))
  {
    var s' := ClaimTail(s, i, v);
    assert ThreadOk(s, i);
    Stage(s, t);
    forall n | s'.tail <= n < s'.tail + s'.cap ensures CellOk(s', n) {
      if n < t + s.cap {
        assert CellOk(s, n);
      } else {
        SameSeqn(s, n, t);
        assert Filling(s', t);
      }
    }
    forall j ensures ThreadOk(s', j) {
      ClaimTailThread(s, i, v, t, j);
    }
  }

  lemma ClaimTailThread<V>(s: State<V>, i: Tid, v: V, t: nat, j: Tid)
    requires Inv(s) && PcOf(s, i) == PushSeen(v, t, t) && s.tail == t
    requires Counts(ClaimTail(s, i, v))
    ensures ThreadOk(ClaimTail(s, i, v), j)
  {
    assert ThreadOk(s, i) && ThreadOk(s, j);
    match PcOf(s, j)
    case PushOwn(_, p) => if t == p + s.cap { SameSeqn(s, t, p); }
    case PushBuilt(p) => if t == p + s.cap { SameSeqn(s, t, p); }
    case PopOwn(p) => if t == p + s.cap { SameSeqn(s, t, p); }
    case PopMoved(p, _) => if t == p + s.cap { SameSeqn(s, t, p); }
    case PopEmptied(p, _) => if t == p + s.cap { SameSeqn(s, t, p); }
    case _ =>
  }

  lemma ClaimHeadOk<V>(s: State<V>, i: Tid, h: nat)
    requires Inv(s) && PcOf(s, i) == PopSeen(h, h + 1) && s.head == h
    ensures h < s.tail && Full(s, h)
    ensures Inv(ClaimHead(s, i))
  {
    var s' := ClaimHead(s, i);
    assert ThreadOk(s, i);
    HeadCell(s, h);
    forall n | s'.tail <= n < s'.tail + s'.cap ensures CellOk(s', n) {
      ClaimHeadCell(s, i, h, n);
    }
    forall j ensures ThreadOk(s', j) {
      ClaimHeadThread(s, i, h, j);
    }
    ClaimHeadDeliveries(s, i, h);
  }

  lemma ClaimHeadCell<V>(s: State<V>, i: Tid, h: nat, n: nat)
    requires Counts(s) && PcOf(s, i) == PopSeen(h, h + 1) && s.head == h < s.tail && Full(s, h)
    requires s.tail <= n < s.tail + s.cap && CellOk(s, n)
    ensures CellOk(ClaimHead(s, i), n)
  {
    if n == h + s.cap {
      SameSeqn(s, n, h);
      assert Draining(ClaimHead(s, i), h);
    }
  }

  lemma ClaimHeadThread<V>(s: State<V>, i: Tid, h: nat, j: Tid)
    requires Counts(s) && PcOf(s, i) == PopSeen(h, h + 1) && s.head == h < s.tail
    requires Seqn(s, h) == h + 1 && ThreadOk(s, j)
    ensures ThreadOk(ClaimHead(s, i), j)
  {
  }

  lemma ClaimHeadDeliveries<V>(s: State<V>, i: Tid, h: nat)
    requires Counts(s) && Deliveries(s) && PcOf(s, i) == PopSeen(h, h + 1) && s.head == h < s.tail
    ensures Deliveries(ClaimHead(s, i))
  {
    var s' := ClaimHead(s, i);
    forall k | 0 <= k < h ensures PendingPop(s', k) <==> PendingPop(s, k) {}
  }

  // ---------------------------------------------------------------- work inside a claimed cell

  /** Rewriting the cell of position p leaves every other window position alone. */
  lemma OtherCells<V>(s: State<V>, p: nat, n: nat, q: nat, x: Slot<V>)
    requires Counts(s) && s.tail <= n < s.tail + s.cap
    requires p < s.tail <= p + s.cap
    ensures Sized(WithSeqn(s, p, q)) && Sized(WithSlot(s, p, x))
    ensures Seqn(WithSeqn(s, p, q), n) == if n == p + s.cap then q else Seqn(s, n)
    ensures SlotOf(WithSlot(s, p, x), n) == if n == p + s.cap then x else SlotOf(s, n)
    ensures Seqn(WithSeqn(s, p, q), p) == q && SlotOf(WithSlot(s, p, x), p) == x
  {
    ModAdd(p, s.cap);
    if n % s.cap == p % s.cap {
      if n < p + s.cap { SameCell(n, p + s.cap, s.cap); } else { SameCell(p + s.cap, n, s.cap); }
    }
  }

  function OwnedPos<V>(pc: Pc<V>): nat
    requires Owner(pc)
  {
    match pc
    case PushOwn(_, t) => t
    case PushBuilt(t) => t
    case PopOwn(h) => h
    case PopMoved(h, _) => h
    case PopEmptied(h, _) => h
  }

  /** Thread i rewrites the sequence number and slot of position p and moves on. */
  function Rework<V>(s: State<V>, i: Tid, p: nat, q: nat, x: Slot<V>, pc: Pc<V>, d: map<nat, V>): State<V>
    requires Sized(s)
  {
    WithPc(WithSlot(WithSeqn(s, p, q), p, x), i, pc).(delivered := d)
  }

  /** No two threads own the storage of one cell. */
  lemma OneOwner<V>(s: State<V>, i: Tid, j: Tid)
    requires Inv(s) && Owner(PcOf(s, i)) && Owner(PcOf(s, j))
    requires OwnedPos(PcOf(s, i)) % s.cap == OwnedPos(PcOf(s, j)) % s.cap
    ensures i == j
  {
    assert ThreadOk(s, i) && ThreadOk(s, j);
    var p, q := OwnedPos(PcOf(s, i)), OwnedPos(PcOf(s, j));
    if p <= q { SameCell(p, q, s.cap); } else { SameCell(q, p, s.cap); }
  }

  /** The stage an owner finds its cell in. */
  lemma OwnerStage<V>(s: State<V>, i: Tid)
    requires Inv(s) && Owner(PcOf(s, i))
    ensures var p := OwnedPos(PcOf(s, i));
            p < s.tail <= p + s.cap && if s.head <= p then Filling(s, p) else Draining(s, p)
    ensures var p := OwnedPos(PcOf(s, i));
            if s.head <= p then s.pushes[p].0 == i else s.pops[p] == i
    ensures s.head <= OwnedPos(PcOf(s, i)) <==> PcOf(s, i).PushOwn? || PcOf(s, i).PushBuilt?
  {
    assert ThreadOk(s, i);
    var p := OwnedPos(PcOf(s, i));
    Stage(s, p + s.cap);
    SameSeqn(s, p + s.cap, p);
  }

  /** What the other window positions see of a rework. */
  lemma ReworkView<V>(s: State<V>, i: Tid, p: nat, q: nat, x: Slot<V>, pc: Pc<V>, d: map<nat, V>, n: nat)
    requires Counts(s) && p < s.tail <= p + s.cap && s.tail <= n < s.tail + s.cap && n != p + s.cap
    ensures var s' := Rework(s, i, p, q, x, pc, d);
            && Sized(s') && Seqn(s', n) == Seqn(s, n) && SlotOf(s', n) == SlotOf(s, n)
            && (n >= s.cap ==> Seqn(s', n - s.cap) == Seqn(s, n - s.cap) && SlotOf(s', n - s.cap) == SlotOf(s, n - s.cap))
  {
    OtherCells(s, p, n, q, x);
    OtherCells(WithSeqn(s, p, q), p, n, q, x);
    var s' := Rework(s, i, p, q, x, pc, d);
    if n >= s.cap {
      SameSeqn(s, n, n - s.cap);
      SameSeqn(s', n, n - s.cap);
    }
  }

  lemma ReworkCell<V>(s: State<V>, i: Tid, p: nat, q: nat, x: Slot<V>, pc: Pc<V>, d: map<nat, V>, n: nat)
    requires Counts(s) && Owner(PcOf(s, i)) && p == OwnedPos(PcOf(s, i)) && p < s.tail <= p + s.cap
    requires s.tail <= n < s.tail + s.cap && n != p + s.cap && CellOk(s, n)
    ensures CellOk(Rework(s, i, p, q, x, pc, d), n)
  {
    ReworkView(s, i, p, q, x, pc, d, n);
  }

  /** No other thread's claim or pending compare-and-swap rests on a cell that thread i owns. */
  lemma OwnedApart<V>(s: State<V>, i: Tid, j: Tid)
    requires Inv(s) && Owner(PcOf(s, i)) && j != i
    ensures var p := OwnedPos(PcOf(s, i));
            match PcOf(s, j)
            case PushSeen(_, t, seen) => t == s.tail && seen == t ==> t % s.cap != p % s.cap
            case PopSeen(h, seen) => h == s.head && seen == h + 1 ==> h % s.cap != p % s.cap
            case pc => Owner(pc) ==> OwnedPos(pc) % s.cap != p % s.cap
  {
    assert ThreadOk(s, i) && ThreadOk(s, j);
    var p := OwnedPos(PcOf(s, i));
    OwnerStage(s, i);
    match PcOf(s, j)
    case PushSeen(_, t, seen) =>
      if t == s.tail && seen == t && t % s.cap == p % s.cap {
        NextInCell(p, t, s.cap);
      }
    case PopSeen(h, seen) =>
      if h == s.head && seen == h + 1 && h % s.cap == p % s.cap {
        if h < p { SameCell(h, p, s.cap); } else { SameCell(p, h, s.cap); }
      }
    case pc =>
      if Owner(pc) && OwnedPos(pc) % s.cap == p % s.cap { OneOwner(s, i, j); }
  }

  lemma ReworkThread<V>(s: State<V>, i: Tid, p: nat, q: nat, x: Slot<V>, pc: Pc<V>, d: map<nat, V>, j: Tid)
    requires Inv(s) && Owner(PcOf(s, i)) && p == OwnedPos(PcOf(s, i))
    requires j != i
    ensures ThreadOk(Rework(s, i, p, q, x, pc, d), j)
  {
    assert ThreadOk(s, j);
    OwnedApart(s, i, j);
  }

  lemma ReworkOk<V>(s: State<V>, i: Tid, p: nat, q: nat, x: Slot<V>, pc: Pc<V>, d: map<nat, V>)
    requires Inv(s) && Owner(PcOf(s, i)) && p == OwnedPos(PcOf(s, i)) && p < s.tail <= p + s.cap
    requires CellOk(Rework(s, i, p, q, x, pc, d), p + s.cap)
    requires ThreadOk(Rework(s, i, p, q, x, pc, d), i)
    requires Deliveries(Rework(s, i, p, q, x, pc, d))
    ensures Inv(Rework(s, i, p, q, x, pc, d))
  {
    var s' := Rework(s, i, p, q, x, pc, d);
    forall n | s'.tail <= n < s'.tail + s'.cap ensures CellOk(s', n) {
      if n != p + s.cap { ReworkCell(s, i, p, q, x, pc, d, n); }
    }
    forall j ensures ThreadOk(s', j) {
      if j != i { ReworkThread(s, i, p, q, x, pc, d, j); }
    }
  }

  lemma ConstructOk<V>(s: State<V>, i: Tid)
    requires Inv(s) && PcOf(s, i).PushOwn?
    ensures SlotOf(s, PcOf(s, i).t) == Raw
    ensures Inv(Step(s, i, Go))
  {
    OwnerStage(s, i);
    var PushOwn(v, p) := PcOf(s, i);
    var s' := Rework(s, i, p, p, Live(v), PushBuilt(p), s.delivered);
    assert s'.cells == s.cells;
    assert s' == Step(s, i, Go);
    assert SlotOf(s', p) == Live(v);
    assert Filling(s', p);
    ReworkOk(s, i, p, p, Live(v), PushBuilt(p), s.delivered);
  }

  lemma PublishOk<V>(s: State<V>, i: Tid)
    requires Inv(s) && PcOf(s, i).PushBuilt?
    ensures Inv(Step(s, i, Go))
    ensures PcOf(s, i).t < |s.pushes| && Step(s, i, Go).pushes == s.pushes
    ensures Full(Step(s, i, Go), PcOf(s, i).t)
  {
    OwnerStage(s, i);
    var p := PcOf(s, i).t;
    var s' := Rework(s, i, p, p + 1, SlotOf(s, p), Idle, s.delivered);
    assert s'.storage == s.storage;
    assert s' == Step(s, i, Go);
    assert Full(s', p);
    ReworkOk(s, i, p, p + 1, SlotOf(s, p), Idle, s.delivered);
  }

  /** The element a consumer moves out is the one the producer of its position put in. */
  lemma MoveOk<V>(s: State<V>, i: Tid)
    requires Inv(s) && PcOf(s, i).PopOwn?
    ensures var h := PcOf(s, i).h;
            h < s.head && SlotOf(s, h) == Live(s.pushes[h].1)
            && PcOf(Step(s, i, Go), i) == PopMoved(h, s.pushes[h].1)
    ensures Inv(Step(s, i, Go))
  {
    OwnerStage(s, i);
    var h := PcOf(s, i).h;
    var v := s.pushes[h].1;
    var s' := Rework(s, i, h, h + 1, Moved, PopMoved(h, v), s.delivered);
    assert s'.cells == s.cells;
    assert s' == Step(s, i, Go);
    assert Draining(s', h);
    ReworkOk(s, i, h, h + 1, Moved, PopMoved(h, v), s.delivered);
  }

  lemma DestroyIsRework<V>(s: State<V>, i: Tid, h: nat, v: V)
    requires Sized(s) && PcOf(s, i) == PopMoved(h, v) && Seqn(s, h) == h + 1
    ensures Rework(s, i, h, h + 1, Raw, PopEmptied(h, v), s.delivered) == Step(s, i, Go)
  {
    var s' := Rework(s, i, h, h + 1, Raw, PopEmptied(h, v), s.delivered);
    assert s'.cells == s.cells;
  }

  lemma DestroyOk<V>(s: State<V>, i: Tid)
    requires Inv(s) && PcOf(s, i).PopMoved?
    ensures SlotOf(s, PcOf(s, i).h) == Moved
    ensures Inv(Step(s, i, Go))
  {
    OwnerStage(s, i);
    var PopMoved(h, v) := PcOf(s, i);
    var s' := Rework(s, i, h, h + 1, Raw, PopEmptied(h, v), s.delivered);
    DestroyIsRework(s, i, h, v);
    assert Draining(s', h);
    ReworkOk(s, i, h, h + 1, Raw, PopEmptied(h, v), s.delivered);
  }

  lemma ReleaseIsRework<V>(s: State<V>, i: Tid, h: nat, v: V)
    requires Sized(s) && PcOf(s, i) == PopEmptied(h, v) && SlotOf(s, h) == Raw
    ensures Rework(s, i, h, h + s.cap, Raw, Idle, s.delivered[h := v]) == Step(s, i, Go)
  {
    var s' := Rework(s, i, h, h + s.cap, Raw, Idle, s.delivered[h := v]);
    assert s'.storage == s.storage;
  }

  lemma ReleaseOk<V>(s: State<V>, i: Tid)
    requires Inv(s) && PcOf(s, i).PopEmptied?
    ensures Inv(Step(s, i, Go))
    ensures Free(Step(s, i, Go), PcOf(s, i).h + s.cap)
  {
    OwnerStage(s, i);
    var PopEmptied(h, v) := PcOf(s, i);
    var d := s.delivered[h := v];
    var s' := Rework(s, i, h, h + s.cap, Raw, Idle, d);
    ReleaseIsRework(s, i, h, v);
    SameSeqn(s', h + s.cap, h);
    assert Free(s', h + s.cap);
    ReworkOk(s, i, h, h + s.cap, Raw, Idle, d);
  }

  // ---------------------------------------------------------------- every step

  lemma PushLoopOk<V>(s: State<V>, i: Tid, a: Action<V>)
    requires Inv(s) && (PcOf(s, i).PushRead? || PcOf(s, i).PushLoaded? || PcOf(s, i).PushSeen?)
    ensures Inv(Step(s, i, a))
  {
    assert ThreadOk(s, i);
    match PcOf(s, i)
    case PushRead(v, _) => LocalOk(s, i, PushLoaded(v, s.tail));
    case PushLoaded(v, t) => TailCell(s, t); LocalOk(s, i, PushSeen(v, t, Seqn(s, t)));
    case PushSeen(v, t, seen) => PushBranchOk(s, i, a);
  }

  lemma PushBranchOk<V>(s: State<V>, i: Tid, a: Action<V>)
    requires Inv(s) && PcOf(s, i).PushSeen?
    ensures Inv(Step(s, i, a))
  {
    assert ThreadOk(s, i);
    var PushSeen(v, t, seen) := PcOf(s, i);
    if seen == t && s.tail == t { ClaimTailOk(s, i, v, t); }
    else { LocalOk(s, i, if seen < t then Idle else PushRead(v, t + 1)); }
  }

  lemma PopLoopOk<V>(s: State<V>, i: Tid, a: Action<V>)
    requires Inv(s) && (PcOf(s, i).PopRead? || PcOf(s, i).PopLoaded? || PcOf(s, i).PopSeen?)
    ensures Inv(Step(s, i, a))
  {
    assert ThreadOk(s, i);
    match PcOf(s, i)
    case PopRead(_) => LocalOk(s, i, PopLoaded(s.head));
    case PopLoaded(h) => HeadCell(s, h); LocalOk(s, i, PopSeen(h, Seqn(s, h)));
    case PopSeen(h, seen) => PopBranchOk(s, i, a);
  }

  lemma PopBranchOk<V>(s: State<V>, i: Tid, a: Action<V>)
    requires Inv(s) && PcOf(s, i).PopSeen?
    ensures Inv(Step(s, i, a))
  {
    assert ThreadOk(s, i);
    var PopSeen(h, seen) := PcOf(s, i);
    if seen == h + 1 && s.head == h { ClaimHeadOk(s, i, h); }
    else { LocalOk(s, i, if seen < h + 1 then Idle else PopRead(h + 1)); }
  }

  lemma StartOk<V>(s: State<V>, i: Tid, a: Action<V>)
    requires Inv(s) && PcOf(s, i).Idle?
    ensures Inv(Step(s, i, a))
  {
    match a
    case Go =>
    case StartPush(v) => LocalOk(s, i, PushRead(v, 0));
    case StartPop => LocalOk(s, i, PopRead(0));
  }

  lemma StepOk<V>(s: State<V>, i: Tid, a: Action<V>)
    requires Inv(s)
    ensures Inv(Step(s, i, a))
  {
    var pc := PcOf(s, i);
    if pc.Idle? { StartOk(s, i, a); }
    else if pc.PushOwn? { ConstructOk(s, i); }
    else if pc.PushBuilt? { PublishOk(s, i); }
    else if pc.PopOwn? { MoveOk(s, i); }
    else if pc.PopMoved? { DestroyOk(s, i); }
    else if pc.PopEmptied? { ReleaseOk(s, i); }
    else if pc.PushRead? || pc.PushLoaded? || pc.PushSeen? { PushLoopOk(s, i, a); }
    else { PopLoopOk(s, i, a); }
  }
}
