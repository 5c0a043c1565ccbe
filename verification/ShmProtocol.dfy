/** The shared-memory single-producer single-consumer ring, one load or store per step.

    Both sides work on copies of the indices that may be stale by the time they are used.
    `pushed` and `popped` are history; the counts kept in PHead and CTail record, for the proof
    only, how many pops (pushes) had happened when the other side's index was read. */
module ShmProtocol {
  import opened Arith
  import opened Storage

  datatype Producer<V> =
    | PIdle
    | PTail(v: V, t: nat)                       // next: load head
    | PHead(v: V, t: nat, h: nat, pops: nat)    // next: full test, then write slots[t]
    | PWrote(v: V, t: nat)                      // next: store tail

  datatype Consumer<V> =
    | CIdle
    | CHead(h: nat)                             // next: load tail
    | CTail(h: nat, t: nat, pushes: nat)        // next: empty test, then read slots[h]
    | CRead(h: nat, out: V)                     // next: store head

  datatype State<V> = State(
    cap: nat, head: nat, tail: nat, slots: seq<Slot<V>>,
    producer: Producer<V>, consumer: Consumer<V>,
    pushed: seq<V>, popped: seq<V>)

  /** Whose turn it is; the value is what an idle producer starts to push. */
  datatype Turn<V> = Produce(v: V) | Consume

  predicate Sized<V>(s: State<V>) {
    s.cap >= 1 && |s.slots| == s.cap && s.head < s.cap && s.tail < s.cap
    && (s.producer.PHead? ==> s.producer.t < s.cap) && (s.consumer.CTail? ==> s.consumer.h < s.cap)
  }

  predicate SeesFull<V>(s: State<V>)
    requires s.cap >= 1 && s.producer.PHead?
  {
    (s.producer.t + 1) % s.cap == s.producer.h
  }

  predicate SeesEmpty<V>(s: State<V>)
    requires s.consumer.CTail?
  {
    s.consumer.h == s.consumer.t
  }

  function Step<V>(s: State<V>, turn: Turn<V>): State<V>
    requires Sized(s)
  {
    match turn
    case Produce(v0) => (
      match s.producer
      case PIdle => s.(producer := PTail(v0, s.tail))
      case PTail(v, t) => s.(producer := PHead(v, t, s.head, |s.popped|))
      case PHead(v, t, h, _) =>
        if SeesFull(s) then s.(producer := PIdle)
        else s.(slots := s.slots[t := Live(v)], producer := PWrote(v, t))
      case PWrote(v, t) =>
        s.(tail := (t + 1) % s.cap, producer := PIdle, pushed := s.pushed + [v]))
    case Consume => (
      match s.consumer
      case CIdle => s.(consumer := CHead(s.head))
      case CHead(h) => s.(consumer := CTail(h, s.tail, |s.pushed|))
      case CTail(h, t, _) =>
        if SeesEmpty(s) then s.(consumer := CIdle)
        else if s.slots[h].Live? then s.(consumer := CRead(h, s.slots[h].value)) else s
      case CRead(h, out) =>
        s.(head := (h + 1) % s.cap, consumer := CIdle, popped := s.popped + [out]))
  }

  function Init<V>(cap: nat): State<V> {
    State(cap, 0, 0, Raws(cap), PIdle, CIdle, [], [])
  }

  ghost predicate Queued<V>(s: State<V>)
    requires Sized(s)
  {
    && |s.popped| <= |s.pushed| < |s.popped| + s.cap
    && s.popped == s.pushed[..|s.popped|]
    && s.head == |s.popped| % s.cap && s.tail == |s.pushed| % s.cap
    && forall k :: |s.popped| <= k < |s.pushed| ==> s.slots[k % s.cap] == Live(s.pushed[k])
  }

  ghost predicate ProducerOk<V>(s: State<V>)
    requires Sized(s)
  {
    match s.producer
    case PIdle => true
    case PTail(_, t) => t == s.tail
    case PHead(_, t, h, pops) =>
      t == s.tail && pops <= |s.popped| && h == pops % s.cap && |s.pushed| < pops + s.cap
    case PWrote(v, t) => t == s.tail && s.slots[t] == Live(v) && |s.pushed| + 1 < |s.popped| + s.cap
  }

  ghost predicate ConsumerOk<V>(s: State<V>)
    requires Sized(s)
  {
    match s.consumer
    case CIdle => true
    case CHead(h) => h == s.head
    case CTail(h, t, pushes) =>
      h == s.head && |s.popped| <= pushes <= |s.pushed| && t == pushes % s.cap
    case CRead(h, out) => h == s.head && |s.popped| < |s.pushed| && out == s.pushed[|s.popped|]
  }

  ghost predicate Inv<V>(s: State<V>) {
    Sized(s) && Queued(s) && ProducerOk(s) && ConsumerOk(s)
  }

  lemma InitOk<V>(cap: nat)
    requires cap >= 1
    ensures Inv(Init<V>(cap))
  {
  }

  /** A stale "not full" is still not full. */
  lemma NotFullNow<V>(s: State<V>)
    requires Inv(s) && s.producer.PHead?
    ensures SeesFull(s) <==> |s.pushed| + 1 == s.producer.pops + s.cap
  {
    var p, n := s.producer.pops, |s.pushed|;
    ModOfMod(n, 1, s.cap);
    ModAdd(p, s.cap);
    if SeesFull(s) { SameCell(n + 1, p + s.cap, s.cap); }
  }

  /** A stale "not empty" is still not empty. */
  lemma NotEmptyNow<V>(s: State<V>)
    requires Inv(s) && s.consumer.CTail?
    ensures SeesEmpty(s) <==> s.consumer.pushes == |s.popped|
  {
    if SeesEmpty(s) { SameCell(|s.popped|, s.consumer.pushes, s.cap); }
  }

  /** The slot the producer is about to write is not one the consumer may still read. */
  lemma WriteApart<V>(s: State<V>, k: nat)
    requires Inv(s) && s.producer.PHead? && !SeesFull(s)
    requires |s.popped| <= k < |s.pushed|
    ensures k % s.cap != s.producer.t
  {
    NotFullNow(s);
    if k % s.cap == s.tail { SameCell(k, |s.pushed|, s.cap); }
  }

  lemma WriteOk<V>(s: State<V>, v0: V)
    requires Inv(s) && s.producer.PHead?
    ensures Inv(Step(s, Produce(v0)))
  {
    NotFullNow(s);
    var s' := Step(s, Produce(v0));
    if !SeesFull(s) {
      forall k | |s.popped| <= k < |s.pushed| ensures s'.slots[k % s.cap] == Live(s.pushed[k]) {
        WriteApart(s, k);
      }
    }
  }

  lemma StoreTailOk<V>(s: State<V>, v0: V)
    requires Inv(s) && s.producer.PWrote?
    ensures Inv(Step(s, Produce(v0)))
  {
    ModOfMod(|s.pushed|, 1, s.cap);
    var s' := Step(s, Produce(v0));
    assert s'.popped == s'.pushed[..|s.popped|];
  }

  lemma ReadOk<V>(s: State<V>)
    requires Inv(s) && s.consumer.CTail?
    ensures !SeesEmpty(s) ==> s.slots[s.consumer.h] == Live(s.pushed[|s.popped|])
    ensures Inv(Step(s, Consume))
  {
    NotEmptyNow(s);
  }

  lemma StoreHeadOk<V>(s: State<V>)
    requires Inv(s) && s.consumer.CRead?
    ensures Inv(Step(s, Consume))
  {
    ModOfMod(|s.popped|, 1, s.cap);
    var s' := Step(s, Consume);
    assert s'.popped == s'.pushed[..|s'.popped|];
  }

  lemma StepOk<V>(s: State<V>, turn: Turn<V>)
    requires Inv(s)
    ensures Inv(Step(s, turn))
  {
    match turn
    case Produce(v0) =>
      if s.producer.PHead? { WriteOk(s, v0); } else if s.producer.PWrote? { StoreTailOk(s, v0); }
    case Consume =>
      if s.consumer.CTail? { ReadOk(s); } else if s.consumer.CRead? { StoreHeadOk(s); }
  }

  // -- what the two tests lead to ----------------------------------------------------------

  /** The full test on a head that may be stale: the message is written exactly if fewer than
      capacity - 1 messages were in flight when that head was loaded, and otherwise the call ends. */
  lemma PushDecides<V>(s: State<V>, v0: V)
    requires Inv(s) && s.producer.PHead?
    ensures var PHead(v, _, _, pops) := s.producer;
            Step(s, Produce(v0)) ==
              if |s.pushed| + 1 < pops + s.cap
              then s.(slots := s.slots[s.tail := Live(v)], producer := PWrote(v, s.tail))
              else s.(producer := PIdle)
  {
    NotFullNow(s);
  }

  /** The empty test on a tail that may be stale: the oldest message is read exactly if there was one
      when that tail was loaded, and otherwise the call ends. */
  lemma PopDecides<V>(s: State<V>)
    requires Inv(s) && s.consumer.CTail?
    ensures Step(s, Consume) ==
              if s.consumer.pushes > |s.popped|
              then s.(consumer := CRead(s.head, s.pushed[|s.popped|]))
              else s.(consumer := CIdle)
  {
    NotEmptyNow(s);
    ReadOk(s);
  }

  // -- runs ----------------------------------------------------------------------------------

  function Exec<V>(s: State<V>, turns: seq<Turn<V>>): (r: State<V>)
    requires Inv(s)
    ensures Inv(r) && r.cap == s.cap
    decreases |turns|
  {
    if turns == [] then s
    else
      StepOk(s, turns[0]);
      Exec(Step(s, turns[0]), turns[1..])
  }

  /** A run of one turn is that step, and a longer run is one run after the other. */
  lemma {:induction false} ExecAppend<V>(s: State<V>, a: seq<Turn<V>>, b: seq<Turn<V>>)
    requires Inv(s)
    ensures Exec(s, a + b) == Exec(Exec(s, a), b)
    decreases |a|
  {
    if a == [] {
      assert a + b == b;
    } else {
      StepOk(s, a[0]);
      ExecAppend(Step(s, a[0]), a[1..], b);
      assert (a + b)[1..] == a[1..] + b;
    }
  }

  lemma ExecOne<V>(s: State<V>, turn: Turn<V>)
    requires Inv(s)
    ensures Exec(s, []) == s && Exec(s, [turn]) == Step(s, turn)
  {
    StepOk(s, turn);
    assert [turn][1..] == [];
  }

  lemma ExecFrom<V>(s: State<V>, turn: Turn<V>, a: seq<Turn<V>>)
    requires Inv(s)
    ensures Inv(Step(s, turn)) && Exec(s, [turn] + a) == Exec(Step(s, turn), a)
  {
    ExecAppend(s, [turn], a);
    ExecOne(s, turn);
  }

  /** Every interleaving: popped values are a prefix of pushed values, at most capacity - 1 are in
      flight, and no write is ever pending on a slot that a pending read is about to use. */
  lemma SpscFifo<V>(cap: nat, turns: seq<Turn<V>>)
    requires cap >= 1
    ensures Inv(Init<V>(cap))
    ensures var s := Exec(Init<V>(cap), turns);
            && s.popped <= s.pushed && |s.pushed| - |s.popped| <= cap - 1
            && (s.producer.PHead? && s.consumer.CTail? && s.cap >= 1 && !SeesFull(s) && !SeesEmpty(s)
                ==> s.producer.t != s.consumer.h)
            && (s.consumer.CRead? ==> |s.popped| < |s.pushed| && s.consumer.out == s.pushed[|s.popped|])
  {
    InitOk<V>(cap);
    var s := Exec(Init<V>(cap), turns);
    if s.producer.PHead? && s.consumer.CTail? && !SeesFull(s) && !SeesEmpty(s) {
      NotEmptyNow(s);
      WriteApart(s, |s.popped|);
    }
  }

  /** The answers are exact at the moment the other side's index is loaded. */
  lemma AnswersExact<V>(s: State<V>)
    requires Inv(s)
    ensures s.producer.PTail? ==>
              var s' := Step(s, Produce(s.producer.v));
              SeesFull(s') <==> |s.pushed| - |s.popped| == s.cap - 1
    ensures s.consumer.CHead? ==>
              var s' := Step(s, Consume);
              SeesEmpty(s') <==> s.pushed == s.popped
  {
    if s.producer.PTail? {
      var s' := Step(s, Produce(s.producer.v));
      StepOk(s, Produce(s.producer.v));
      NotFullNow(s');
    }
    if s.consumer.CHead? {
      var s' := Step(s, Consume);
      StepOk(s, Consume);
      NotEmptyNow(s');
    }
  }

  // -- whole calls, the other side running in between ------------------------------------------

  predicate Consumes<V>(turns: seq<Turn<V>>) {
    forall i :: 0 <= i < |turns| ==> turns[i].Consume?
  }

  predicate Produces<V>(turns: seq<Turn<V>>) {
    forall i :: 0 <= i < |turns| ==> turns[i].Produce?
  }

  /** The consumer's steps leave the producer and what it owns alone. */
  lemma {:induction false} ConsumesLeave<V>(s: State<V>, turns: seq<Turn<V>>)
    requires Inv(s) && Consumes(turns)
    ensures var r := Exec(s, turns);
            && r.producer == s.producer && r.tail == s.tail && r.pushed == s.pushed && r.slots == s.slots
            && s.popped <= r.popped
    decreases |turns|
  {
    if turns != [] {
      StepOk(s, turns[0]);
      ConsumesLeave(Step(s, turns[0]), turns[1..]);
    }
  }

  /** And the producer's those of the consumer. */
  lemma {:induction false} ProducesLeave<V>(s: State<V>, turns: seq<Turn<V>>)
    requires Inv(s) && Produces(turns)
    ensures var r := Exec(s, turns);
            r.consumer == s.consumer && r.head == s.head && r.popped == s.popped && s.pushed <= r.pushed
    decreases |turns|
  {
    if turns != [] {
      StepOk(s, turns[0]);
      ProducesLeave(Step(s, turns[0]), turns[1..]);
    }
  }

  /** The messages in flight. */
  function InFlight<V>(s: State<V>): int {
    |s.pushed| - |s.popped|
  }

  /** A step of the producer and any steps of the consumer after it. */
  ghost predicate PushThen<V>(s: State<V>, v: V, a: seq<Turn<V>>, r: State<V>) {
    Inv(s) && Consumes(a) && r == Exec(s, [Produce(v)] + a)
  }

  lemma PushThenMeans<V>(s: State<V>, v: V, a: seq<Turn<V>>, r: State<V>)
    requires PushThen(s, v, a, r)
    ensures Inv(r) && r.cap == s.cap
    ensures var t := Step(s, Produce(v));
            && r.producer == t.producer && r.tail == t.tail && r.pushed == t.pushed && r.slots == t.slots
            && t.popped <= r.popped
  {
    ExecFrom(s, Produce(v), a);
    ConsumesLeave(Step(s, Produce(v)), a);
  }

  /** `try_push` while the consumer takes any steps between its accesses, where head is loaded at atLoad,
      tested at atTest and, if the call goes on, tail is stored at atStore.  It is refused exactly if
      capacity - 1 messages are in flight at that load, and then it has changed nothing; otherwise
      the message is appended. */
  lemma PushUnderInterference<V>(s: State<V>, v: V, a: seq<Turn<V>>, b: seq<Turn<V>>, c: seq<Turn<V>>,
                                 atLoad: State<V>, atTest: State<V>, atStore: State<V>)
    requires Inv(s) && s.producer.PIdle?
    requires PushThen(s, v, a, atLoad) && PushThen(atLoad, v, b, atTest) && PushThen(atTest, v, c, atStore)
    ensures var tested, done := Step(atTest, Produce(v)), Step(atStore, Produce(v));
            if InFlight(atLoad) == s.cap - 1 then
              && tested == atTest.(producer := PIdle)
              && tested.pushed == s.pushed && tested.slots == s.slots && tested.tail == s.tail
            else
              && InFlight(atLoad) < s.cap - 1
              && done.producer == PIdle && done.pushed == s.pushed + [v]
              && done.slots == s.slots[s.tail := Live(v)] && done.tail == (s.tail + 1) % s.cap
  {
    PushThenMeans(s, v, a, atLoad);
    PushThenMeans(atLoad, v, b, atTest);
    PushThenMeans(atTest, v, c, atStore);
    PushDecides(atTest, v);
  }

  /** A step of the consumer and any steps of the producer after it. */
  ghost predicate PopThen<V>(s: State<V>, a: seq<Turn<V>>, r: State<V>) {
    Inv(s) && Produces(a) && r == Exec(s, [Consume] + a)
  }

  lemma PopThenMeans<V>(s: State<V>, a: seq<Turn<V>>, r: State<V>)
    requires PopThen(s, a, r)
    ensures Inv(r) && r.cap == s.cap
    ensures var t := Step(s, Consume);
            r.consumer == t.consumer && r.head == t.head && r.popped == t.popped && t.pushed <= r.pushed
  {
    ExecFrom(s, Consume, a);
    ProducesLeave(Step(s, Consume), a);
  }

  /** `try_pop` while the producer takes any steps in between, where tail is loaded at atLoad.  It is
      refused exactly if nothing is in flight then, and it has changed nothing; otherwise it hands
      out the oldest message and removes just that one. */
  lemma PopUnderInterference<V>(s: State<V>, a: seq<Turn<V>>, b: seq<Turn<V>>, c: seq<Turn<V>>,
                                atLoad: State<V>, atTest: State<V>, atStore: State<V>)
    requires Inv(s) && s.consumer.CIdle?
    requires PopThen(s, a, atLoad) && PopThen(atLoad, b, atTest) && PopThen(atTest, c, atStore)
    ensures var tested, done := Step(atTest, Consume), Step(atStore, Consume);
            if InFlight(atLoad) == 0 then
              tested == atTest.(consumer := CIdle) && tested.popped == s.popped && tested.head == s.head
            else
              && InFlight(atLoad) > 0 && |s.popped| < |atTest.pushed|
              && tested.consumer == CRead(s.head, atTest.pushed[|s.popped|])
              && done.consumer == CIdle && done.popped == s.popped + [atTest.pushed[|s.popped|]]
              && done.head == (s.head + 1) % s.cap
  {
    PopThenMeans(s, a, atLoad);
    PopThenMeans(atLoad, b, atTest);
    PopEnds(atTest, c, atStore);
  }

  /** From the empty test on. */
  lemma PopEnds<V>(s: State<V>, c: seq<Turn<V>>, r: State<V>)
    requires Inv(s) && s.consumer.CTail? && PopThen(s, c, r)
    ensures Inv(r) && r.cap == s.cap && |s.popped| <= s.consumer.pushes <= |s.pushed|
    ensures var tested, done := Step(s, Consume), Step(r, Consume);
            if s.consumer.pushes == |s.popped| then
              tested == s.(consumer := CIdle)
            else
              && tested.consumer == CRead(s.head, s.pushed[|s.popped|])
              && done.consumer == CIdle && done.popped == s.popped + [s.pushed[|s.popped|]]
              && done.head == (s.head + 1) % s.cap
  {
    PopDecides(s);
    PopThenMeans(s, c, r);
  }

  /** A whole `try_push` with nobody else running. */
  function SoloPush<V>(s: State<V>, v: V): State<V>
    requires Inv(s) && s.producer.PIdle?
  {
    StepOk(s, Produce(v));
    var s1 := Step(s, Produce(v));
    StepOk(s1, Produce(v));
    var s2 := Step(s1, Produce(v));
    StepOk(s2, Produce(v));
    var s3 := Step(s2, Produce(v));
    if s3.producer.PIdle? then s3 else Step(s3, Produce(v))
  }

  /** A whole `try_pop` with nobody else running. */
  function SoloPop<V>(s: State<V>): State<V>
    requires Inv(s) && s.consumer.CIdle?
  {
    StepOk(s, Consume);
    var s1 := Step(s, Consume);
    StepOk(s1, Consume);
    var s2 := Step(s1, Consume);
    StepOk(s2, Consume);
    var s3 := Step(s2, Consume);
    if s3.consumer.CIdle? then s3 else Step(s3, Consume)
  }
}
