/** Every interleaving of the queue is a run of an abstract FIFO, and every outcome of the retry
    loops is justified by the state it was decided in. */
module MpmcRefinement {
  import opened Storage
  import opened MpmcProtocol
  import opened MpmcInvariant

  /** The elements claimed by producers and not yet claimed by consumers. */
  function Contents<V>(s: State<V>): seq<V>
    requires Counts(s)
  {
    seq(s.tail - s.head, k requires 0 <= k < s.tail - s.head => s.pushes[s.head + k].1)
  }

  datatype Event<V> = Tau | Enqueue(v: V) | Dequeue(v: V)

  /** The abstract queue, which refuses a dequeue of anything but its front. */
  datatype Abstract<V> = Queue(q: seq<V>) | Stuck

  function Fifo<V(==)>(q: seq<V>, e: Event<V>): Abstract<V> {
    match e
    case Tau => Queue(q)
    case Enqueue(v) => Queue(q + [v])
    case Dequeue(v) => if |q| > 0 && q[0] == v then Queue(q[1..]) else Stuck
  }

  /** The linearisation point is the successful compare-and-swap. */
  function EventOf<V>(s: State<V>, i: Tid): Event<V>
    requires Counts(s)
  {
    match PcOf(s, i)
    case PushSeen(v, t, seen) => if seen == t && s.tail == t then Enqueue(v) else Tau
    case PopSeen(h, seen) =>
      if seen == h + 1 && s.head == h && s.head < s.tail then Dequeue(s.pushes[s.head].1) else Tau
    case _ => Tau
  }

  lemma StepRefines<V>(s: State<V>, i: Tid, a: Action<V>)
    requires Inv(s)
    ensures Inv(Step(s, i, a))
    ensures Fifo(Contents(s), EventOf(s, i)) == Queue(Contents(Step(s, i, a)))
  {
    StepOk(s, i, a);
    var s' := Step(s, i, a);
    var q, q' := Contents(s), Contents(s');
    match PcOf(s, i)
    case PushSeen(v, t, seen) =>
      if seen == t && s.tail == t { assert q' == q + [v]; }
    case PopSeen(h, seen) =>
      if seen == h + 1 && s.head == h {
        ClaimHeadOk(s, i, h);
        assert q' == q[1..];
      }
    case _ =>
      UnclaimedStep(s, i, a);
      assert q' == q;
  }

  lemma UnclaimedStep<V>(s: State<V>, i: Tid, a: Action<V>)
    requires Counts(s) && !PcOf(s, i).PushSeen? && !PcOf(s, i).PopSeen?
    ensures var s' := Step(s, i, a);
            s'.head == s.head && s'.tail == s.tail && s'.pushes == s.pushes && s'.pops == s.pops
  {
  }

  // ---------------------------------------------------------------- whole runs

  type Schedule<V> = seq<(Tid, Action<V>)>

  function Exec<V>(s: State<V>, sched: Schedule<V>): State<V>
    requires Inv(s)
    decreases |sched|
  {
    if sched == [] then s
    else
      StepOk(s, sched[0].0, sched[0].1);
      Exec(Step(s, sched[0].0, sched[0].1), sched[1..])
  }

  function Events<V>(s: State<V>, sched: Schedule<V>): seq<Event<V>>
    requires Inv(s)
    decreases |sched|
  {
    if sched == [] then []
    else
      StepOk(s, sched[0].0, sched[0].1);
      [EventOf(s, sched[0].0)] + Events(Step(s, sched[0].0, sched[0].1), sched[1..])
  }

  function Replay<V(==)>(q: seq<V>, es: seq<Event<V>>): Abstract<V>
    decreases |es|
  {
    if es == [] then Queue(q)
    else match Fifo(q, es[0])
      case Queue(q') => Replay(q', es[1..])
      case Stuck => Stuck
  }

  /** Every schedule of every set of threads is accepted by the abstract FIFO. */
  lemma {:induction false} RunRefines<V>(s: State<V>, sched: Schedule<V>)
    requires Inv(s)
    ensures Inv(Exec(s, sched))
    ensures Replay(Contents(s), Events(s, sched)) == Queue(Contents(Exec(s, sched)))
    decreases |sched|
  {
    if sched != [] {
      var (i, a) := sched[0];
      StepRefines(s, i, a);
      RunRefines(Step(s, i, a), sched[1..]);
    }
  }

  function Enqueued<V>(es: seq<Event<V>>): seq<V> {
    if es == [] then [] else (if es[0].Enqueue? then [es[0].v] else []) + Enqueued(es[1..])
  }

  function Dequeued<V>(es: seq<Event<V>>): seq<V> {
    if es == [] then [] else (if es[0].Dequeue? then [es[0].v] else []) + Dequeued(es[1..])
  }

  /** What an accepting FIFO run means: nothing lost, duplicated or reordered. */
  lemma {:induction false} ReplayConserves<V>(q: seq<V>, es: seq<Event<V>>)
    requires Replay(q, es).Queue?
    ensures q + Enqueued(es) == Dequeued(es) + Replay(q, es).q
    decreases |es|
  {
    if es != [] {
      var q' := Fifo(q, es[0]).q;
      ReplayConserves(q', es[1..]);
      match es[0]
      case Tau =>
        assert Enqueued(es) == Enqueued(es[1..]) && Dequeued(es) == Dequeued(es[1..]);
      case Enqueue(v) =>
        assert q + Enqueued(es) == q' + Enqueued(es[1..]);
      case Dequeue(v) =>
        assert q == [v] + q';
        assert q + Enqueued(es) == [v] + (q' + Enqueued(es[1..]));
    }
  }

  /** From the empty queue, the enqueued values are the dequeued ones followed by the contents. */
  lemma RunConserves<V>(cap: nat, sched: Schedule<V>)
    requires cap >= 2
    ensures Inv(Init<V>(cap)) && Inv(Exec(Init<V>(cap), sched))
    ensures var es := Events(Init<V>(cap), sched);
            Enqueued(es) == Dequeued(es) + Contents(Exec(Init<V>(cap), sched))
  {
    InitOk<V>(cap);
    var s0 := Init<V>(cap);
    assert Contents(s0) == [];
    RunRefines(s0, sched);
    ReplayConserves([], Events(s0, sched));
    assert [] + Enqueued(Events(s0, sched)) == Enqueued(Events(s0, sched));
  }

  /** From the empty queue: the dequeues are a prefix of the enqueues, and what every consumer
      was handed at position h is the h-th enqueued value. */
  lemma MpmcFifo<V>(cap: nat, sched: Schedule<V>)
    requires cap >= 2
    ensures Inv(Init<V>(cap))
    ensures var s, es := Exec(Init<V>(cap), sched), Events(Init<V>(cap), sched);
            && Inv(s)
            && Enqueued(es) == Dequeued(es) + Contents(s)
            && |Dequeued(es)| == s.head
            && (forall h :: h in s.delivered ==> h < s.head && s.delivered[h] == Dequeued(es)[h])
            && (forall h :: 0 <= h < s.head ==> (h in s.delivered <==> !PendingPop(s, h)))
  {
    RunConserves(cap, sched);
    var s0 := Init<V>(cap);
    EnqueuesAreClaims(s0, sched);
    DeliveredAreDequeued(Exec(s0, sched), Enqueued(Events(s0, sched)), Dequeued(Events(s0, sched)));
  }

  lemma DeliveredAreDequeued<V>(s: State<V>, enqueued: seq<V>, dequeued: seq<V>)
    requires Counts(s) && Deliveries(s)
    requires enqueued == dequeued + Contents(s) && |dequeued| == s.head && |enqueued| == s.tail
    requires forall k :: 0 <= k < s.tail ==> s.pushes[k].1 == enqueued[k]
    ensures forall h :: h in s.delivered ==> h < s.head && s.delivered[h] == dequeued[h]
  {
    forall h | h in s.delivered ensures h < s.head && s.delivered[h] == dequeued[h] {
      assert s.pushes[h].1 == enqueued[h];
    }
  }

  function AddedBy<V>(e: Event<V>): seq<V> {
    if e.Enqueue? then [e.v] else []
  }

  /** The first step of a run, and the rest. */
  lemma UnrollRun<V>(s: State<V>, sched: Schedule<V>)
    requires Inv(s) && sched != []
    ensures var s1, rest := Step(s, sched[0].0, sched[0].1), sched[1..];
            var e := EventOf(s, sched[0].0);
            && Inv(s1) && Exec(s, sched) == Exec(s1, rest)
            && Enqueued(Events(s, sched)) == AddedBy(e) + Enqueued(Events(s1, rest))
            && |Dequeued(Events(s, sched))| == (if e.Dequeue? then 1 else 0) + |Dequeued(Events(s1, rest))|
  {
    StepOk(s, sched[0].0, sched[0].1);
    var es, e := Events(s, sched), EventOf(s, sched[0].0);
    assert es[0] == e && es[1..] == Events(Step(s, sched[0].0, sched[0].1), sched[1..]);
  }

  /** The enqueue and dequeue events are the logged claims, in claim order. */
  ghost predicate Logged<V>(s: State<V>, s': State<V>, es: seq<Event<V>>) {
    && Counts(s) && Counts(s')
    && s'.tail == s.tail + |Enqueued(es)| && s'.head == s.head + |Dequeued(es)|
    && (forall k :: 0 <= k < s.tail ==> s'.pushes[k] == s.pushes[k])
    && (forall k :: 0 <= k < |Enqueued(es)| ==> s'.pushes[s.tail + k].1 == Enqueued(es)[k])
  }

  lemma {:induction false} EnqueuesAreClaims<V>(s: State<V>, sched: Schedule<V>)
    requires Inv(s)
    ensures Inv(Exec(s, sched)) && Logged(s, Exec(s, sched), Events(s, sched))
    decreases |sched|
  {
    if sched != [] {
      var (i, a) := sched[0];
      UnrollRun(s, sched);
      ClaimsStep(s, i, a);
      EnqueuesAreClaims(Step(s, i, a), sched[1..]);
      LoggedStep(s, Step(s, i, a), Exec(s, sched), EventOf(s, i), Events(s, sched), Events(Step(s, i, a), sched[1..]));
    }
  }

  lemma LoggedStep<V>(s: State<V>, s1: State<V>, s': State<V>, e: Event<V>, es: seq<Event<V>>, rest: seq<Event<V>>)
    requires Counts(s) && Logged(s1, s', rest)
    requires Enqueued(es) == AddedBy(e) + Enqueued(rest)
    requires |Dequeued(es)| == (if e.Dequeue? then 1 else 0) + |Dequeued(rest)|
    requires s1.tail == s.tail + |AddedBy(e)| && s1.head == s.head + if e.Dequeue? then 1 else 0
    requires s.pushes <= s1.pushes && (e.Enqueue? ==> s1.pushes[s.tail].1 == e.v)
    ensures Logged(s, s', es)
  {
    LoggedFrom(s'.pushes, s.tail, AddedBy(e), Enqueued(rest));
  }

  lemma LoggedFrom<V>(log: seq<(Tid, V)>, from: nat, first: seq<V>, rest: seq<V>)
    requires from + |first| + |rest| <= |log|
    requires forall k :: 0 <= k < |first| ==> log[from + k].1 == first[k]
    requires forall k :: 0 <= k < |rest| ==> log[from + |first| + k].1 == rest[k]
    ensures forall k :: 0 <= k < |first + rest| ==> log[from + k].1 == (first + rest)[k]
  {
    forall k | 0 <= k < |first + rest| ensures log[from + k].1 == (first + rest)[k] {
      if k >= |first| { assert log[from + |first| + (k - |first|)].1 == rest[k - |first|]; }
    }
  }

  lemma ClaimsStep<V>(s: State<V>, i: Tid, a: Action<V>)
    requires Inv(s)
    ensures var s' := Step(s, i, a);
            && s'.tail == s.tail + (if EventOf(s, i).Enqueue? then 1 else 0)
            && s'.head == s.head + (if EventOf(s, i).Dequeue? then 1 else 0)
            && s'.pushes == s.pushes + (if EventOf(s, i).Enqueue? then [(i, EventOf(s, i).v)] else [])
  {
    var s' := Step(s, i, a);
    match PcOf(s, i)
    case PushSeen(v, t, seen) =>
      assert ThreadOk(s, i);
    case PopSeen(h, seen) =>
      if seen == h + 1 && s.head == h { ClaimHeadOk(s, i, h); }
    case _ => UnclaimedStep(s, i, a);
  }

  // ---------------------------------------------------------------- outcomes

  /** Why a push may answer "full": the cell of position tail_ has not been released. */
  ghost predicate TailBlocked<V>(s: State<V>)
    requires Counts(s)
  {
    && s.tail >= s.cap
    && (Filling(s, s.tail - s.cap) || Full(s, s.tail - s.cap) || Draining(s, s.tail - s.cap))
  }

  /** Why a pop may answer "empty": position head_ has not been published. */
  ghost predicate HeadBlocked<V>(s: State<V>)
    requires Counts(s)
  {
    s.head == s.tail || Filling(s, s.head)
  }

  /** `try_emplace` gives up on a loaded sequence exactly when tail_ is still its own t and the
      previous position of the cell has not been released. */
  lemma PushFailsIff<V>(s: State<V>, t: nat)
    requires Inv(s) && t <= s.tail
    ensures Seqn(s, t) < t <==> t == s.tail && TailBlocked(s)
  {
    TailCell(s, t);
    if t == s.tail {
      Stage(s, t);
      if t >= s.cap { SameSeqn(s, t, t - s.cap); }
    }
  }

  /** `try_pop` gives up exactly when head_ is still its own h and h has not been published. */
  lemma PopFailsIff<V>(s: State<V>, h: nat)
    requires Inv(s) && h <= s.head
    ensures Seqn(s, h) < h + 1 <==> h == s.head && HeadBlocked(s)
  {
    HeadCell(s, h);
    var n := Upcoming(s, h);
    Stage(s, n);
    SameSeqn(s, h, n);
    if h == s.tail {
      assert n == h by { Arith.SameCell(h, n, s.cap); }
    } else if h == s.head {
      assert n == h + s.cap by {
        Arith.ModAdd(h, s.cap);
        Arith.NextInCell(h, n, s.cap);
        Arith.SameCell(h + s.cap, n, s.cap);
      }
    }
  }

  /** Going round the loop again means another thread has claimed in the meantime. */
  lemma RetryMeansProgress<V>(s: State<V>, i: Tid, a: Action<V>)
    requires Inv(s)
    ensures PcOf(s, i).PushSeen? && PcOf(Step(s, i, a), i).PushRead? ==>
              s.tail > PcOf(s, i).t && PcOf(Step(s, i, a), i).low > PcOf(s, i).t
    ensures PcOf(s, i).PopSeen? && PcOf(Step(s, i, a), i).PopRead? ==>
              s.head > PcOf(s, i).h && PcOf(Step(s, i, a), i).low > PcOf(s, i).h
    ensures PcOf(s, i).PushRead? ==> PcOf(Step(s, i, a), i).PushLoaded? && PcOf(Step(s, i, a), i).t >= PcOf(s, i).low
    ensures PcOf(s, i).PopRead? ==> PcOf(Step(s, i, a), i).PopLoaded? && PcOf(Step(s, i, a), i).h >= PcOf(s, i).low
  {
    assert ThreadOk(s, i);
  }

  // ---------------------------------------------------------------- when the answers are right

  /** The element that the cell of tail_ held is being consumed. */
  ghost predicate TailDraining<V>(s: State<V>)
    requires Counts(s)
  {
    s.tail >= s.cap && Draining(s, s.tail - s.cap)
  }

  /** Position head_ has been claimed by a producer that has not published yet. */
  ghost predicate HeadFilling<V>(s: State<V>)
    requires Counts(s)
  {
    s.head < s.tail && Filling(s, s.head)
  }

  /** A push that loads the sequence of tail_'s cell gives up whenever the queue is full, and otherwise
      exactly while the consumer of that cell has not released it. */
  lemma FullAnswerExact<V>(s: State<V>)
    requires Inv(s)
    ensures Seqn(s, s.tail) < s.tail <==> |Contents(s)| == s.cap || TailDraining(s)
    ensures !(|Contents(s)| == s.cap && TailDraining(s))
  {
    PushFailsIff(s, s.tail);
    if s.tail >= s.cap {
      assert CellOk(s, s.tail);
      SameSeqn(s, s.tail, s.tail - s.cap);
    }
  }

  /** A pop that loads the sequence of head_'s cell gives up whenever the queue is empty, and otherwise
      exactly while the producer of that cell has not published it. */
  lemma EmptyAnswerExact<V>(s: State<V>)
    requires Inv(s)
    ensures Seqn(s, s.head) < s.head + 1 <==> Contents(s) == [] || HeadFilling(s)
    ensures !(Contents(s) == [] && HeadFilling(s))
  {
    PopFailsIff(s, s.head);
  }

  /** No consumer is between its claim and its release. */
  ghost predicate NoConsumerInside<V>(s: State<V>) {
    forall i :: !PcOf(s, i).PopOwn? && !PcOf(s, i).PopMoved? && !PcOf(s, i).PopEmptied?
  }

  /** No producer is between its claim and its publication. */
  ghost predicate NoProducerInside<V>(s: State<V>) {
    forall i :: !PcOf(s, i).PushOwn? && !PcOf(s, i).PushBuilt?
  }

  /** What a caller can check: "full" is exact whenever no consumer is inside a claimed cell, whatever
      the producers are doing, and "empty" whenever no producer is. */
  lemma AnswersExactUnless<V>(s: State<V>)
    requires Inv(s)
    ensures NoConsumerInside(s) ==> (Seqn(s, s.tail) < s.tail <==> |Contents(s)| == s.cap)
    ensures NoProducerInside(s) ==> (Seqn(s, s.head) < s.head + 1 <==> Contents(s) == [])
  {
    FullAnswerExact(s);
    EmptyAnswerExact(s);
  }

  /** What a refused push says about the queue. */
  lemma RefusedPush<V>(s: State<V>)
    requires Inv(s) && TailBlocked(s)
    ensures |Contents(s)| == s.cap <==> !TailDraining(s)
    ensures NoConsumerInside(s) ==> |Contents(s)| == s.cap
  {
    PushFailsIff(s, s.tail);
    FullAnswerExact(s);
  }

  /** What a refused pop says about the queue. */
  lemma RefusedPop<V>(s: State<V>)
    requires Inv(s) && HeadBlocked(s)
    ensures Contents(s) == [] <==> !HeadFilling(s)
    ensures NoProducerInside(s) ==> Contents(s) == []
  {
    PopFailsIff(s, s.head);
    EmptyAnswerExact(s);
  }

  /** No operation in flight. */
  ghost predicate Quiet<V>(s: State<V>) {
    forall i :: PcOf(s, i) == Idle
  }

  /** With no operation in flight both answers are exact, and every claimed position has been delivered. */
  lemma QuietOutcomes<V>(s: State<V>)
    requires Inv(s) && Quiet(s)
    ensures Seqn(s, s.tail) < s.tail <==> |Contents(s)| == s.cap
    ensures Seqn(s, s.head) < s.head + 1 <==> Contents(s) == []
    ensures forall h :: 0 <= h < s.head ==> h in s.delivered
  {
    AnswersExactUnless(s);
  }

  // ---------------------------------------------------------------- what the outcomes do not mean

  ghost predicate Reachable<V(!new)>(s: State<V>) {
    s.cap >= 2 && exists sched: Schedule<V> :: ReachedBy(s, sched)
  }

  ghost predicate ReachedBy<V>(s: State<V>, sched: Schedule<V>)
    requires s.cap >= 2
  {
    InitOk<V>(s.cap);
    Exec(Init<V>(s.cap), sched) == s
  }

  lemma {:induction false} ExecAppend<V>(s: State<V>, sched: Schedule<V>, i: Tid, a: Action<V>)
    requires Inv(s)
    ensures Inv(Exec(s, sched)) && Exec(s, sched + [(i, a)]) == Step(Exec(s, sched), i, a)
    decreases |sched|
  {
    if sched == [] {
      StepOk(s, i, a);
      assert [(i, a)][1..] == [];
    } else {
      StepOk(s, sched[0].0, sched[0].1);
      assert (sched + [(i, a)])[1..] == sched[1..] + [(i, a)];
      ExecAppend(Step(s, sched[0].0, sched[0].1), sched[1..], i, a);
    }
  }

  lemma ReachableInv<V(!new)>(s: State<V>)
    requires Reachable(s)
    ensures Inv(s)
  {
    InitOk<V>(s.cap);
    var sched :| ReachedBy(s, sched);
    RunRefines(Init<V>(s.cap), sched);
  }

  lemma CapConstant<V>(s: State<V>, i: Tid, a: Action<V>)
    requires Sized(s)
    ensures Step(s, i, a).cap == s.cap && Sized(Step(s, i, a))
  {
  }

  lemma ReachStep<V(!new)>(s: State<V>, i: Tid, a: Action<V>)
    requires Reachable(s) && Sized(s)
    ensures Reachable(Step(s, i, a))
  {
    InitOk<V>(s.cap);
    CapConstant(s, i, a);
    var sched :| ReachedBy(s, sched);
    ExecAppend(Init<V>(s.cap), sched, i, a);
    assert ReachedBy(Step(s, i, a), sched + [(i, a)]);
  }

  lemma Take<V(!new)>(s: State<V>, i: Tid, a: Action<V>) returns (s': State<V>)
    requires Reachable(s) && Sized(s)
    ensures s' == Step(s, i, a) && Reachable(s') && Sized(s')
  {
    s' := Step(s, i, a);
    ReachStep(s, i, a);
    CapConstant(s, i, a);
  }

  /** A thread that runs alone up to its successful compare-and-swap on tail_. */
  lemma SoloClaim<V(!new)>(s: State<V>, i: Tid, v: V) returns (s': State<V>)
    requires Reachable(s) && Sized(s) && PcOf(s, i) == Idle && Seqn(s, s.tail) == s.tail
    ensures Reachable(s')
    ensures s' == s.(tail := s.tail + 1, pushes := s.pushes + [(i, v)],
                     pcs := s.pcs[i := PushOwn(v, s.tail)])
  {
    s' := Take(s, i, StartPush(v));
    s' := Take(s', i, Go);
    s' := Take(s', i, Go);
    s' := Take(s', i, Go);
    assert s'.pcs == s.pcs[i := PushOwn(v, s.tail)];
  }

  /** A thread that runs a whole successful push alone. */
  lemma SoloPush<V(!new)>(s: State<V>, i: Tid, v: V) returns (s': State<V>)
    requires Reachable(s) && Sized(s) && PcOf(s, i) == Idle && Seqn(s, s.tail) == s.tail
    ensures Reachable(s') && Sized(s')
    ensures s' == s.(tail := s.tail + 1, pushes := s.pushes + [(i, v)], pcs := s.pcs[i := Idle],
                     cells := s.cells[s.tail % s.cap := s.tail + 1],
                     storage := s.storage[s.tail % s.cap := Live(v)])
  {
    s' := SoloClaim(s, i, v);
    s' := Take(s', i, Go);
    s' := Take(s', i, Go);
    assert s'.pcs == s.pcs[i := Idle];
  }

  /** A thread that runs alone up to its successful compare-and-swap on head_. */
  lemma SoloClaimHead<V(!new)>(s: State<V>, i: Tid) returns (s': State<V>)
    requires Reachable(s) && Sized(s) && PcOf(s, i) == Idle && Seqn(s, s.head) == s.head + 1
    ensures Reachable(s')
    ensures s' == s.(head := s.head + 1, pops := s.pops + [i], pcs := s.pcs[i := PopOwn(s.head)])
  {
    s' := Take(s, i, StartPop);
    s' := Take(s', i, Go);
    s' := Take(s', i, Go);
    s' := Take(s', i, Go);
    assert s'.pcs == s.pcs[i := PopOwn(s.head)];
  }

  /** A thread that loads head_ and its cell's sequence and is about to branch. */
  lemma PeekHead<V(!new)>(s: State<V>, i: Tid) returns (s': State<V>)
    requires Reachable(s) && Sized(s) && PcOf(s, i) == Idle
    ensures Reachable(s') && s' == WithPc(s, i, PopSeen(s.head, Seqn(s, s.head)))
  {
    s' := Take(s, i, StartPop);
    s' := Take(s', i, Go);
    s' := Take(s', i, Go);
    assert s'.pcs == s.pcs[i := PopSeen(s.head, Seqn(s, s.head))];
  }

  /** A thread that loads tail_ and its cell's sequence and is about to branch. */
  lemma PeekTail<V(!new)>(s: State<V>, i: Tid, v: V) returns (s': State<V>)
    requires Reachable(s) && Sized(s) && PcOf(s, i) == Idle
    ensures Reachable(s') && s' == WithPc(s, i, PushSeen(v, s.tail, Seqn(s, s.tail)))
  {
    s' := Take(s, i, StartPush(v));
    s' := Take(s', i, Go);
    s' := Take(s', i, Go);
    assert s'.pcs == s.pcs[i := PushSeen(v, s.tail, Seqn(s, s.tail))];
  }

  lemma Start<V(!new)>(cap: nat) returns (s: State<V>)
    requires cap >= 2
    ensures s == Init<V>(cap) && Reachable(s) && Sized(s)
  {
    s := Init<V>(cap);
    InitOk<V>(cap);
    assert ReachedBy(s, []);
  }

  /** Capacity 2.  Thread 0 has claimed position 0 and stalls; thread 1 pushes 20 and returns. */
  lemma StalledProducer() returns (s: State<nat>)
    ensures Reachable(s)
    ensures s == State(2, 0, 2, [0, 2], [Raw, Live(20)], map[0 := PushOwn(10, 0), 1 := Idle], [(0, 10), (1, 20)], [], map[])
  {
    s := Start<nat>(2);
    assert s.cells == [0, 1] && s.storage == [Raw, Raw];
    s := SoloClaim(s, 0, 10);
    assert s.cells == [0, 1] && s.pushes == [(0, 10)];
    s := SoloPush(s, 1, 20);
    assert s.cells == [0, 2] && s.storage == [Raw, Live(20)] && s.pushes == [(0, 10), (1, 20)];
  }

  /** Thread 2 is about to be told "empty" although a completed push is in the queue. */
  lemma EmptyAnswerOnNonEmptyQueue() returns (s: State<nat>)
    ensures Reachable(s) && Inv(s)
    ensures Contents(s) == [10, 20] && PcOf(s, 1) == Idle && Full(s, 1)
    ensures PcOf(s, 2) == PopSeen(0, 0) && Step(s, 2, Go) == WithPc(s, 2, Idle)
  {
    s := StalledProducer();
    s := PeekHead(s, 2);
    TwoPushed(s);
  }

  lemma TwoPushed(s: State<nat>)
    requires Reachable(s) && s.cap == 2 && s.head == 0 && s.tail == 2 && |s.cells| == 2 == |s.storage|
    requires s.pushes == [(0, 10), (1, 20)] && s.cells == [0, 2] && s.storage[1] == Live(20)
    ensures Inv(s) && Contents(s) == [10, 20] && Full(s, 1)
  {
    ReachableInv(s);
  }

  /** Capacity 2.  10 and 20 have been pushed, and thread 1 has claimed the 10 and stalls. */
  lemma StalledConsumer() returns (s: State<nat>)
    ensures Reachable(s) && s.pcs == map[0 := Idle, 1 := PopOwn(0)]
    ensures s.cap == 2 && s.head == 1 && s.tail == 2 && s.cells == [1, 2] && s.storage == [Live(10), Live(20)]
    ensures s.pushes == [(0, 10), (0, 20)]
  {
    s := Start<nat>(2);
    assert s.cells == [0, 1] && s.storage == [Raw, Raw];
    s := SoloPush(s, 0, 10);
    assert s.cells == [1, 1] && s.pushes == [(0, 10)];
    s := SoloPush(s, 0, 20);
    assert s.cells == [1, 2] && s.pushes == [(0, 10), (0, 20)];
    s := SoloClaimHead(s, 1);
  }

  /** Thread 2 is about to be told "full" although the queue holds one element. */
  lemma FullAnswerOnNonFullQueue() returns (s: State<nat>)
    ensures Reachable(s) && Inv(s)
    ensures Contents(s) == [20] && s.cap == 2
    ensures PcOf(s, 2) == PushSeen(30, 2, 1) && Step(s, 2, Go) == WithPc(s, 2, Idle)
  {
    s := StalledConsumer();
    s := PeekTail(s, 2, 30);
    OneLeft(s);
  }

  lemma OneLeft(s: State<nat>)
    requires Reachable(s) && s.cap == 2 && s.head == 1 && s.tail == 2
    requires s.pushes == [(0, 10), (0, 20)]
    ensures Inv(s) && Contents(s) == [20]
  {
    ReachableInv(s);
  }
}
