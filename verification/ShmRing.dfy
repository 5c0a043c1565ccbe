/** The ring's code run by one side at a time, and the drop-oldest publisher on top of it. */
module ShmRing {
  import Arith
  import opened Bits
  import opened Storage
  import opened ShmProtocol

  function Contents<V>(s: State<V>): seq<V>
    requires |s.popped| <= |s.pushed|
  {
    s.pushed[|s.popped|..]
  }

  lemma SoloPushMeans<V>(s: State<V>, v: V)
    requires Inv(s) && s.producer.PIdle?
    ensures var s' := SoloPush(s, v);
            && Inv(s') && s'.producer.PIdle? && s'.consumer == s.consumer && s'.cap == s.cap
            && s'.popped == s.popped && s'.head == s.head
            && if |Contents(s)| == s.cap - 1 then s' == s
               else Contents(s') == Contents(s) + [v] && s'.pushed == s.pushed + [v]
                    && s'.slots == s.slots[s.tail := Live(v)] && s'.tail == (s.tail + 1) % s.cap
  {
    StepOk(s, Produce(v));
    var s1 := Step(s, Produce(v));
    AnswersExact(s1);
    StepOk(s1, Produce(v));
    var s2 := Step(s1, Produce(v));
    StepOk(s2, Produce(v));
    var s3 := Step(s2, Produce(v));
    StepOk(s3, Produce(v));
  }

  lemma SoloPopMeans<V>(s: State<V>)
    requires Inv(s) && s.consumer.CIdle?
    ensures var s' := SoloPop(s);
            && Inv(s') && s'.consumer.CIdle? && s'.producer == s.producer && s'.cap == s.cap
            && s'.pushed == s.pushed && s'.tail == s.tail && s'.slots == s.slots
            && if Contents(s) == [] then s' == s
               else s'.popped == s.popped + [Contents(s)[0]] && Contents(s') == Contents(s)[1..]
                    && s.slots[s.head] == Live(Contents(s)[0]) && s'.head == (s.head + 1) % s.cap
  {
    StepOk(s, Consume);
    var s1 := Step(s, Consume);
    AnswersExact(s1);
    StepOk(s1, Consume);
    var s2 := Step(s1, Consume);
    ReadOk(s2);
    var s3 := Step(s2, Consume);
    StepOk(s3, Consume);
  }

  /** sizeof(shm_spsc_header) */
  const HEADER: nat := 24

  /** The bytes that are mapped; the sum may wrap. */
  function RegionBytes(cap: nat, msgSize: nat): (b: nat)
    ensures b < WORD
  {
    (HEADER + cap * msgSize) % WORD
  }

  /** The slots that lie inside the mapping. */
  function Room(cap: nat, msgSize: nat): nat
    requires msgSize >= 1
  {
    var b := RegionBytes(cap, msgSize);
    if b < HEADER then 0 else (b - HEADER) / msgSize
  }

  lemma RoomIff(cap: nat, msgSize: nat)
    requires msgSize >= 1
    ensures Room(cap, msgSize) <= cap
    ensures cap > 0 ==> (Room(cap, msgSize) == cap <==> HEADER + cap * msgSize < WORD)
  {
    var total := HEADER + cap * msgSize;
    if total < WORD {
      Arith.ModSmall(total, WORD);
      Arith.ModUnique(cap * msgSize, msgSize, cap, 0);
    } else if RegionBytes(cap, msgSize) >= HEADER {
      var rest := RegionBytes(cap, msgSize) - HEADER;
      Arith.DivMod(rest, msgSize);
      Arith.MulCancel(msgSize, rest / msgSize, cap);
    }
  }

  /** A capacity of 2^61 and eight-byte messages: only the header is mapped. */
  lemma RegionShort(cap: nat)
    requires cap == 0x2000_0000_0000_0000
    ensures RegionBytes(cap, 8) == HEADER && Room(cap, 8) == 0
  {
    Arith.ModUnique(HEADER + cap * 8, WORD, 1, HEADER);
    Arith.ModSmall(0, 8);
  }

  class Ring<V> {
    const capacity: nat
    var head: nat
    var tail: nat
    const slots: array<Slot<V>>
    ghost var pushed: seq<V>
    ghost var popped: seq<V>

    /** The protocol state between two calls. */
    ghost function Now(): State<V>
      reads this, slots
    {
      State(capacity, head, tail, slots[..], PIdle, CIdle, pushed, popped)
    }

    ghost predicate Valid()
      reads this, slots
    {
      Inv(Now())
    }

    /** msgSize is sizeof(T).  Right exactly while header and slots together have a size that is a word;
        otherwise fewer slots are mapped than the capacity says. */
    constructor (cap: nat, msgSize: nat)
      requires 1 <= cap < WORD && msgSize >= 1
      ensures fresh(slots) && capacity == cap
      ensures var b := (24 + cap * msgSize) % WORD; slots.Length == if b < 24 then 0 else (b - 24) / msgSize
      ensures Valid() <==> 24 + cap * msgSize < WORD
      ensures Valid() ==> Now() == Init<V>(cap) && Contents(Now()) == []
    {
      RoomIff(cap, msgSize);
      capacity := cap;
      head, tail := 0, 0;
      slots := new Slot<V>[Room(cap, msgSize)](_ => Raw);
      pushed, popped := [], [];
      new;
      if slots.Length == cap {
        assert slots[..] == Raws(cap);
        InitOk<V>(cap);
      }
    }

    method TryPush(v: V) returns (ok: bool)
      requires Valid()
      modifies this, slots
      ensures Valid() && Now() == SoloPush(old(Now()), v)
      ensures ok <==> |old(Contents(Now()))| < capacity - 1
      ensures Contents(Now()) == if ok then old(Contents(Now())) + [v] else old(Contents(Now()))
    {
      SoloPushMeans(Now(), v);
      var cap := capacity;
      var t := tail;
      var h := head;
      FullTest(Now());
      if (t + 1) % cap == h {
        return false;
      }
      slots[t] := Live(v);
      tail := (t + 1) % cap;
      pushed := pushed + [v];
      assert Now() == SoloPush(old(Now()), v);
      return true;
    }

    method TryPop() returns (ok: bool, out: Slot<V>)
      requires Valid()
      modifies this
      ensures Valid() && Now() == SoloPop(old(Now()))
      ensures ok <==> old(Contents(Now())) != []
      ensures ok ==> out == Live(old(Contents(Now()))[0])
      ensures Contents(Now()) == if ok then old(Contents(Now()))[1..] else []
    {
      SoloPopMeans(Now());
      var cap := capacity;
      var h := head;
      var t := tail;
      EmptyTest(Now());
      if h == t {
        return false, Raw;
      }
      out := slots[h];
      popped := popped + [out.value];
      head := (h + 1) % cap;
      return true, out;
    }
  }

  lemma FullTest<V>(s: State<V>)
    requires Inv(s) && s.producer.PIdle?
    ensures (s.tail + 1) % s.cap == s.head <==> |Contents(s)| == s.cap - 1
  {
    var n, p := |s.pushed|, |s.popped|;
    Arith.ModOfMod(n, 1, s.cap);
    Arith.ModAdd(p, s.cap);
    if (s.tail + 1) % s.cap == s.head { Arith.SameCell(n + 1, p + s.cap, s.cap); }
  }

  lemma EmptyTest<V>(s: State<V>)
    requires Inv(s) && s.consumer.CIdle?
    ensures s.head == s.tail <==> Contents(s) == []
  {
    if s.head == s.tail { Arith.SameCell(|s.popped|, |s.pushed|, s.cap); }
  }

  /** The last n elements of s, or all of them if there are fewer. */
  ghost predicate Newest<V>(c: seq<V>, s: seq<V>, n: int) {
    |c| == (if |s| < n then |s| else n) && c == s[|s| - |c|..]
  }

  /** What a round leaves of contents s that fit. */
  lemma RoundKeeps<V>(s: seq<V>, v: V, n: nat)
    requires |s| <= n
    ensures |s| < n ==> Newest(s + [v], s + [v], n)
    ensures |s| == n > 0 ==> Newest(s[1..] + [v], s + [v], n)
    ensures n == 0 ==> Newest([], s + [v], n)
  {
    if |s| == n > 0 { assert s[1..] + [v] == (s + [v])[1..]; }
  }

  /** One round of the publisher: push, or drop the oldest message and push again.  With s the old
      contents and the message behind them, what is left is the end of s, as much of it as fits. */
  method Round<V>(ring: Ring<V>, msg: V)
    requires ring.Valid()
    modifies ring, ring.slots
    ensures ring.Valid()
    ensures var s, c := old(Contents(ring.Now())) + [msg], Contents(ring.Now());
            && |c| == (if |s| < ring.capacity - 1 then |s| else ring.capacity - 1) && c == s[|s| - |c|..]
            && (ring.capacity >= 2 ==> c[|c| - 1] == msg)
  {
    ghost var s, n := Contents(ring.Now()), ring.capacity - 1;
    var ok := ring.TryPush(msg);
    if !ok {
      MakeRoom(ring, msg);
    }
    ghost var c := Contents(ring.Now());
    assert c == if |s| < n then s + [msg] else if n == 0 then [] else s[1..] + [msg];
    RoundKeeps(s, msg, n);
  }

  method MakeRoom<V>(ring: Ring<V>, msg: V)
    requires ring.Valid() && |Contents(ring.Now())| == ring.capacity - 1
    modifies ring, ring.slots
    ensures ring.Valid()
    ensures Contents(ring.Now()) == if ring.capacity == 1 then [] else old(Contents(ring.Now()))[1..] + [msg]
  {
    var popped, dropped := ring.TryPop();
    if popped {
      var again := ring.TryPush(msg);
      assert again;
    }
  }

  /** The publisher loop: one message per round, dropping the oldest when the ring is full.
      Whatever was in the ring, it ends up with the most recent messages, in publish order, and the
      push after a drop is never refused. */
  method Publish<V>(ring: Ring<V>, messages: seq<V>)
    requires ring.Valid()
    modifies ring, ring.slots
    ensures ring.Valid()
    ensures var s, c := old(Contents(ring.Now())) + messages, Contents(ring.Now());
            |c| == (if |s| < ring.capacity - 1 then |s| else ring.capacity - 1) && c == s[|s| - |c|..]
  {
    ghost var before := Contents(ring.Now());
    var i := 0;
    assert before + messages[..0] == before;
    while i < |messages|
      invariant 0 <= i <= |messages|
      invariant ring.Valid() && Newest(Contents(ring.Now()), before + messages[..i], ring.capacity - 1)
    {
      PublishOne(ring, before, messages, i);
      i := i + 1;
    }
    assert messages[..|messages|] == messages;
  }

  method PublishOne<V>(ring: Ring<V>, ghost before: seq<V>, messages: seq<V>, i: nat)
    requires ring.Valid() && i < |messages|
    requires Newest(Contents(ring.Now()), before + messages[..i], ring.capacity - 1)
    modifies ring, ring.slots
    ensures ring.Valid() && Newest(Contents(ring.Now()), before + messages[..i + 1], ring.capacity - 1)
  {
    ghost var s, c, msg := before + messages[..i], Contents(ring.Now()), messages[i];
    assert before + messages[..i + 1] == s + [msg];
    Round(ring, messages[i]);
    NewestStep(c, s, msg, Contents(ring.Now()), ring.capacity - 1);
  }

  /** The newest of the newest are the newest of all. */
  lemma NewestStep<V>(c: seq<V>, s: seq<V>, v: V, d: seq<V>, n: nat)
    requires Newest(c, s, n) && Newest(d, c + [v], n)
    ensures Newest(d, s + [v], n)
  {
    assert c + [v] == (s + [v])[|s| - |c|..];
  }

  /** From an empty ring: exactly the last min(n, capacity - 1) of the n published messages. */
  method PublishFresh<V>(capacity: nat, msgSize: nat, messages: seq<V>) returns (ring: Ring<V>)
    requires capacity >= 1 && msgSize >= 1 && HEADER + capacity * msgSize < WORD
    ensures fresh(ring) && ring.Valid() && ring.capacity == capacity
    ensures var c := Contents(ring.Now());
            && |c| == (if |messages| < capacity - 1 then |messages| else capacity - 1)
            && c == messages[|messages| - |c|..]
  {
    Arith.MulApart(capacity, msgSize, 0);
    ring := new Ring(capacity, msgSize);
    ghost var before := Contents(ring.Now());
    assert before == [] && before + messages == messages;
    Publish(ring, messages);
  }
}
