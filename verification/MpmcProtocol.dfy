/** The bounded multi-producer multi-consumer queue as a transition system.

    Any number of threads; every load, compare-and-swap, construction, move, destruction and store
    is one step.  Positions are unbounded naturals.  `pushes`, `pops` and `delivered` are history:
    who claimed which position with which value, and what each claimed pop handed out. */
module MpmcProtocol {
  import opened Arith
  import opened Storage

  type Tid = nat

  datatype Pc<V> =
    | Idle
    | PushRead(v: V, low: nat)              // next: load tail_ (it is at least low)
    | PushLoaded(v: V, t: nat)              // next: load the sequence of t's cell
    | PushSeen(v: V, t: nat, seen: nat)     // next: branch on seen - t, maybe CAS tail_
    | PushOwn(v: V, t: nat)                 // next: construct the element
    | PushBuilt(t: nat)                     // next: publish, sequence := t + 1
    | PopRead(low: nat)                     // next: load head_
    | PopLoaded(h: nat)                     // next: load the sequence of h's cell
    | PopSeen(h: nat, seen: nat)            // next: branch on seen - (h + 1), maybe CAS head_
    | PopOwn(h: nat)                        // next: move the element out
    | PopMoved(h: nat, out: V)              // next: destroy the husk
    | PopEmptied(h: nat, out: V)            // next: release, sequence := h + cap

  datatype Action<V> = Go | StartPush(v: V) | StartPop

  datatype State<V> = State(
    cap: nat, head: nat, tail: nat,
    cells: seq<nat>, storage: seq<Slot<V>>,
    pcs: map<Tid, Pc<V>>,
    pushes: seq<(Tid, V)>, pops: seq<Tid>, delivered: map<nat, V>)

  predicate Sized<V>(s: State<V>) {
    s.cap >= 2 && |s.cells| == |s.storage| == s.cap
  }

  function PcOf<V>(s: State<V>, i: Tid): Pc<V> {
    if i in s.pcs then s.pcs[i] else Idle
  }

  /** The sequence number of position p's cell. */
  function Seqn<V>(s: State<V>, p: nat): nat
    requires Sized(s)
  {
    s.cells[p % s.cap]
  }

  function SlotOf<V>(s: State<V>, p: nat): Slot<V>
    requires Sized(s)
  {
    s.storage[p % s.cap]
  }

  function WithPc<V>(s: State<V>, i: Tid, pc: Pc<V>): State<V> {
    s.(pcs := s.pcs[i := pc])
  }

  function WithSeqn<V>(s: State<V>, p: nat, q: nat): State<V>
    requires Sized(s)
  {
    s.(cells := s.cells[p % s.cap := q])
  }

  function WithSlot<V>(s: State<V>, p: nat, x: Slot<V>): State<V>
    requires Sized(s)
  {
    s.(storage := s.storage[p % s.cap := x])
  }

  // ---------------------------------------------------------------- the steps

  /** One step of thread i.  The action only matters when the thread is idle. */
  function Step<V>(s: State<V>, i: Tid, a: Action<V>): State<V>
    requires Sized(s)
  {
    match PcOf(s, i)
    case Idle => (
      match a
      case Go => s
      case StartPush(v) => WithPc(s, i, PushRead(v, 0))
      case StartPop => WithPc(s, i, PopRead(0)))
    case PushRead(v, _) => WithPc(s, i, PushLoaded(v, s.tail))
    case PushLoaded(v, t) => WithPc(s, i, PushSeen(v, t, Seqn(s, t)))
    case PushSeen(v, t, seen) =>
      if seen == t then
        if s.tail == t then ClaimTail(s, i, v) else WithPc(s, i, PushRead(v, t + 1))
      else if seen < t then WithPc(s, i, Idle)               // full: return false
      else WithPc(s, i, PushRead(v, t + 1))
    case PushOwn(v, t) => WithPc(WithSlot(s, t, Live(v)), i, PushBuilt(t))
    case PushBuilt(t) => WithPc(WithSeqn(s, t, t + 1), i, Idle)
    case PopRead(_) => WithPc(s, i, PopLoaded(s.head))
    case PopLoaded(h) => WithPc(s, i, PopSeen(h, Seqn(s, h)))
    case PopSeen(h, seen) =>
      if seen == h + 1 then
        if s.head == h then ClaimHead(s, i) else WithPc(s, i, PopRead(h + 1))
      else if seen < h + 1 then WithPc(s, i, Idle)           // empty: return false
      else WithPc(s, i, PopRead(h + 1))
    case PopOwn(h) => (
      match SlotOf(s, h)
      case Live(v) => WithPc(WithSlot(s, h, Moved), i, PopMoved(h, v))
      case _ => s)
    case PopMoved(h, out) => WithPc(WithSlot(s, h, Raw), i, PopEmptied(h, out))
    case PopEmptied(h, out) =>
      WithPc(WithSeqn(s, h, h + s.cap), i, Idle).(delivered := s.delivered[h := out])
  }

  function ClaimTail<V>(s: State<V>, i: Tid, v: V): State<V> {
    WithPc(s, i, PushOwn(v, s.tail)).(tail := s.tail + 1, pushes := s.pushes + [(i, v)])
  }

  function ClaimHead<V>(s: State<V>, i: Tid): State<V> {
    WithPc(s, i, PopOwn(s.head)).(head := s.head + 1, pops := s.pops + [i])
  }

  function Init<V>(cap: nat): State<V> {
    State(cap, 0, 0, seq(cap, i => i), Raws(cap), map[], [], [], map[])
  }

  // ---------------------------------------------------------------- the invariant

  /** The cell whose next claimable position is n is in exactly one life-cycle stage. */
  ghost predicate CellOk<V>(s: State<V>, n: nat)
    requires Sized(s) && |s.pushes| == s.tail && |s.pops| == s.head
    requires s.tail <= n < s.tail + s.cap
  {
    Free(s, n) || (n >= s.cap && (Filling(s, n - s.cap) || Full(s, n - s.cap) || Draining(s, n - s.cap)))
  }

  /** Free at n: no element, and the previous position of the cell has been consumed. */
  ghost predicate Free<V>(s: State<V>, n: nat)
    requires Sized(s)
  {
    Seqn(s, n) == n && SlotOf(s, n) == Raw && (n >= s.cap ==> n - s.cap < s.head)
  }

  /** Claimed by a producer at p, not yet published. */
  ghost predicate Filling<V>(s: State<V>, p: nat)
    requires Sized(s) && p < |s.pushes|
  {
    var (o, v) := s.pushes[p];
    && Seqn(s, p) == p && s.head <= p
    && ((PcOf(s, o) == PushOwn(v, p) && SlotOf(s, p) == Raw)
        || (PcOf(s, o) == PushBuilt(p) && SlotOf(s, p) == Live(v)))
  }

  /** Published at p, not yet claimed by a consumer. */
  ghost predicate Full<V>(s: State<V>, p: nat)
    requires Sized(s) && p < |s.pushes|
  {
    Seqn(s, p) == p + 1 && s.head <= p && SlotOf(s, p) == Live(s.pushes[p].1)
  }

  /** Claimed by a consumer at p, not yet released. */
  ghost predicate Draining<V>(s: State<V>, p: nat)
    requires Sized(s) && p < |s.pushes| && |s.pops| == s.head
  {
    && Seqn(s, p) == p + 1 && p < s.head
    && var o, v := s.pops[p], s.pushes[p].1;
       || (PcOf(s, o) == PopOwn(p) && SlotOf(s, p) == Live(v))
       || (PcOf(s, o) == PopMoved(p, v) && SlotOf(s, p) == Moved)
       || (PcOf(s, o) == PopEmptied(p, v) && SlotOf(s, p) == Raw)
  }

  /** What a thread may rely on at each program point, however stale its locals are. */
  ghost predicate ThreadOk<V>(s: State<V>, i: Tid)
    requires Sized(s) && |s.pushes| == s.tail && |s.pops| == s.head
  {
    match PcOf(s, i)
    case Idle => true
    case PushRead(_, low) => low <= s.tail
    case PushLoaded(_, t) => t <= s.tail
    case PushSeen(_, t, seen) =>
      && t <= s.tail
      && (s.tail == t && seen == t ==> Seqn(s, t) == t)
      && (seen > t ==> s.tail > t)
    case PushOwn(v, t) => t < s.tail <= t + s.cap && s.pushes[t] == (i, v) && Seqn(s, t) == t
    case PushBuilt(t) => t < s.tail <= t + s.cap && s.pushes[t].0 == i && Seqn(s, t) == t
    case PopRead(low) => low <= s.head
    case PopLoaded(h) => h <= s.head
    case PopSeen(h, seen) =>
      && h <= s.head
      && (s.head == h && seen == h + 1 ==> h < s.tail && Seqn(s, h) == h + 1)
      && (seen > h + 1 ==> s.head > h)
    case PopOwn(h) => h < s.head && s.tail <= h + s.cap && s.pops[h] == i && Seqn(s, h) == h + 1
    case PopMoved(h, _) => h < s.head && s.tail <= h + s.cap && s.pops[h] == i && Seqn(s, h) == h + 1
    case PopEmptied(h, _) => h < s.head && s.tail <= h + s.cap && s.pops[h] == i && Seqn(s, h) == h + 1
  }

  ghost predicate Counts<V>(s: State<V>) {
    && Sized(s)
    && s.head <= s.tail <= s.head + s.cap
    && |s.pushes| == s.tail && |s.pops| == s.head
  }

  /** Position h has been claimed by a consumer that has not returned yet. */
  ghost predicate PendingPop<V>(s: State<V>, h: nat)
    requires h < |s.pops|
  {
    match PcOf(s, s.pops[h])
    case PopOwn(p) => p == h
    case PopMoved(p, _) => p == h
    case PopEmptied(p, _) => p == h
    case _ => false
  }

  /** Each claimed position is handed to exactly one consumer, with the value pushed there. */
  ghost predicate Deliveries<V>(s: State<V>)
    requires Counts(s)
  {
    && (forall h :: h in s.delivered ==> h < s.head && s.delivered[h] == s.pushes[h].1)
    && (forall h :: 0 <= h < s.head ==> (h in s.delivered <==> !PendingPop(s, h)))
  }

  ghost predicate Inv<V>(s: State<V>) {
    && Counts(s)
    && (forall n :: s.tail <= n < s.tail + s.cap ==> CellOk(s, n))
    && (forall i :: ThreadOk(s, i))
    && Deliveries(s)
  }

  // ---------------------------------------------------------------- cells and positions

  /** The claimable position of the cell that position p lives in. */
  ghost function Upcoming<V>(s: State<V>, p: nat): (n: nat)
    requires Sized(s)
    ensures s.tail <= n < s.tail + s.cap && n % s.cap == p % s.cap
  {
    var d := (p - s.tail) % s.cap;
    assert s.tail + d == p + s.cap * -((p - s.tail) / s.cap);
    ModShift(p, -((p - s.tail) / s.cap), s.cap);
    s.tail + d
  }
}
