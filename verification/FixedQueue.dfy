/** The fixed-capacity circular queue: its storage is part of the object, so copies, moves and
    swaps go element by element. */
module FixedQueue {
  import opened Bits
  import opened Storage
  import opened Circular

  datatype Outcome = Done | Overflow | Underflow

  class Queue<T> {
    const capacity: nat
    const trivial: bool
    const bufCap: nat
    const bufMask: nat
    const buf: array<Slot<T>>
    var head: nat
    var tail: nat
    ghost var contents: seq<T>

    ghost predicate Shape() {
      && capacity > 0 && bufMask == bufCap - 1 && buf.Length == bufCap
      && IsPow2(bufCap) && capacity < bufCap
    }

    ghost predicate Valid()
      reads this, buf
    {
      Shape() && |contents| <= capacity && Holds(trivial, buf[..], head, tail, contents)
    }

    /** Two queues of the same type, with storage of their own. */
    ghost predicate Peer(other: Queue<T>) {
      && other.capacity == capacity && other.trivial == trivial && other.bufCap == bufCap
      && (other != this ==> other.buf != buf)
    }

    constructor (capacity: nat, trivial: bool)
      requires 0 < capacity < WORD / 2
      ensures Valid() && contents == [] && fresh(buf)
      ensures this.capacity == capacity && this.trivial == trivial
      ensures LeastPow2AtLeast(bufCap, capacity + 1)
    {
      FitsHalf(capacity + 1);
      var n := RoundUpPo2(capacity + 1);
      this.capacity, this.trivial := capacity, trivial;
      bufCap, bufMask := n, n - 1;
      buf := new Slot<T>[n](_ => Raw);
      head, tail, contents := 0, 0, [];
      new;
      assert buf[..] == Raws(bufCap);
      StartEmpty<T>(trivial, bufCap);
    }

    method Size() returns (n: nat)
      requires Valid()
      ensures n == |contents|
      ensures head == tail <==> contents == []
    {
      n := Count(trivial, buf[..], head, tail, bufCap, bufMask, contents);
    }

    method Full() returns (b: bool)
      requires Valid()
      ensures b <==> |contents| == capacity
    {
      var n := Size();
      b := n == capacity;
    }

    /** `construct(slot(tail_), v); tail_ = advance(tail_);` */
    method Append(v: T)
      requires Valid() && |contents| < capacity
      modifies this`tail, this`contents, buf
      ensures Valid() && contents == old(contents) + [v]
    {
      HoldsPush(trivial, buf[..], head, tail, contents, v);
      Construct(trivial, buf, tail, v);
      tail := Advance(tail, bufMask);
      contents := contents + [v];
    }

    method TryPush(v: T) returns (ok: bool)
      requires Valid()
      modifies this`tail, this`contents, buf
      ensures Valid() && (ok <==> |old(contents)| < capacity)
      ensures contents == if ok then old(contents) + [v] else old(contents)
    {
      var n := Size();
      if n == capacity { return false; }
      Append(v);
      return true;
    }

    method Push(v: T) returns (r: Outcome)
      requires Valid()
      modifies this`tail, this`contents, buf
      ensures Valid() && r == if |old(contents)| < capacity then Done else Overflow
      ensures contents == if r.Done? then old(contents) + [v] else old(contents)
    {
      var ok := TryPush(v);
      return if ok then Done else Overflow;
    }

    method TryPop() returns (ok: bool, out: Slot<T>)
      requires Valid()
      modifies this`head, this`contents, buf
      ensures Valid() && (ok <==> old(contents) != [])
      ensures ok ==> out == Live(old(contents)[0]) && contents == old(contents)[1..]
      ensures !ok ==> contents == old(contents)
    {
      var n := Size();
      if head == tail { return false, Raw; }
      HoldsPop(trivial, buf[..], head, tail, contents);
      out := Live(buf[head].value);
      Destroy(trivial, buf, head);
      head := Advance(head, bufMask);
      contents := contents[1..];
      ok := true;
    }

    /** `pop()`, which throws on an empty queue. */
    method Pop() returns (r: Outcome)
      requires Valid()
      modifies this`head, this`contents, buf
      ensures Valid() && r == if old(contents) == [] then Underflow else Done
      ensures contents == if r.Done? then old(contents)[1..] else old(contents)
    {
      var n := Size();
      if head == tail { return Underflow; }
      HoldsPop(trivial, buf[..], head, tail, contents);
      Destroy(trivial, buf, head);
      head := Advance(head, bufMask);
      contents := contents[1..];
      return Done;
    }

    /** Destroys whatever was constructed, moved-from or not, and starts over at index 0. */
    method Clear(ghost n: nat)
      requires Shape() && Occupied(trivial, buf[..], head, tail, n)
      modifies this, buf
      ensures Valid() && contents == [] && head == tail == 0
    {
      ghost var k := n;
      if !trivial {
        while head != tail
          invariant Occupied(trivial, buf[..], head, tail, k)
          decreases k
        {
          OccupiedPop(trivial, buf[..], head, tail, k);
          k := k - 1;
          Destroy(trivial, buf, head);
          head := Advance(head, bufMask);
        }
        WalkEnd(head, k, bufCap, head, 0);
      }
      OccupiedNone(trivial, buf[..], head, tail, k);
      head, tail := 0, 0;
      contents := [];
    }

    // -- copies, moves, swap -----------------------------------------------------------

    /** Appends copies of all of rhs's elements, in order, to an empty queue. */
    method CopyElements(rhs: Queue<T>)
      requires Valid() && contents == [] && rhs.Valid() && Peer(rhs) && rhs != this
      modifies this, buf
      ensures Valid() && contents == rhs.contents
    {
      var i := rhs.head;
      while i != rhs.tail
        invariant Valid() && contents <= rhs.contents
        invariant Walk(rhs.head, |rhs.contents|, bufCap, i, |contents|)
        decreases |rhs.contents| - |contents|
      {
        WalkStep(rhs.head, |rhs.contents|, bufCap, i, |contents|);
        ReadAt(rhs.buf[..], rhs.head, rhs.contents, |contents|);
        Append(rhs.buf[i].value);
        i := Advance(i, rhs.bufMask);
      }
      WalkEnd(rhs.head, |rhs.contents|, bufCap, i, |contents|);
    }

    /** `construct(slot(tail_), std::move(*rhs.slot(i))); tail_ = advance(tail_);` */
    method MoveAppend(rhs: Queue<T>, i: nat)
      requires Valid() && |contents| < capacity && Peer(rhs) && rhs != this
      requires i < rhs.buf.Length && rhs.buf[i].Live?
      modifies this`tail, this`contents, buf, rhs.buf
      ensures Valid() && contents == old(contents) + [old(rhs.buf[i].value)]
      ensures rhs.buf[..] == old(rhs.buf[..])[i := if trivial then old(rhs.buf[i]) else Moved]
    {
      HoldsPush(trivial, buf[..], head, tail, contents, rhs.buf[i].value);
      contents := contents + [rhs.buf[i].value];
      MoveConstruct(trivial, buf, tail, rhs.buf, i);
      tail := Advance(tail, bufMask);
    }

    /** Part of the way through: rhs held b, and its first |contents| elements have been moved here. */
    ghost predicate Moving(rhs: Queue<T>, b: seq<Slot<T>>, i: nat)
      reads this, buf, rhs, rhs.buf
    {
      && Valid() && Peer(rhs) && rhs != this && contents <= rhs.contents
      && rhs.buf.Length == bufCap && rhs.bufMask == bufMask && |rhs.contents| <= capacity
      && Holds(trivial, b, rhs.head, rhs.tail, rhs.contents)
      && Walk(rhs.head, |rhs.contents|, bufCap, i, |contents|)
      && Husked(b, rhs.buf[..], rhs.head, |contents|)
    }

    /** Moves all of rhs's elements, in order, into an empty queue, leaving husks behind. */
    method MoveElements(rhs: Queue<T>)
      requires Valid() && contents == [] && rhs.Valid() && Peer(rhs) && rhs != this
      modifies this, buf, rhs.buf
      ensures Valid() && contents == rhs.contents
      ensures Occupied(trivial, rhs.buf[..], rhs.head, rhs.tail, |rhs.contents|)
    {
      var i := rhs.head;
      ghost var b := rhs.buf[..];
      while i != rhs.tail
        invariant Moving(rhs, b, i)
        decreases |rhs.contents| - |contents|
      {
        i := MoveOne(rhs, i, b);
      }
      WalkEnd(rhs.head, |rhs.contents|, bufCap, i, |contents|);
      HuskedOccupied(trivial, b, rhs.buf[..], rhs.head, rhs.tail, rhs.contents);
    }

    method MoveOne(rhs: Queue<T>, i: nat, ghost b: seq<Slot<T>>) returns (next: nat)
      requires Moving(rhs, b, i) && i != rhs.tail
      modifies this`tail, this`contents, buf, rhs.buf
      ensures Moving(rhs, b, next) && |contents| == |old(contents)| + 1
    {
      WalkStep(rhs.head, |rhs.contents|, bufCap, i, |contents|);
      HuskStep(trivial, b, rhs.buf[..], rhs.head, rhs.contents, |contents|);
      MoveAppend(rhs, i);
      next := Advance(i, rhs.bufMask);
    }

    constructor CopyOf(rhs: Queue<T>)
      requires rhs.Valid()
      ensures Valid() && fresh(buf) && Peer(rhs) && contents == rhs.contents
    {
      capacity, trivial, bufCap, bufMask := rhs.capacity, rhs.trivial, rhs.bufCap, rhs.bufMask;
      buf := new Slot<T>[rhs.bufCap](_ => Raw);
      head, tail, contents := 0, 0, [];
      new;
      assert buf[..] == Raws(bufCap);
      StartEmpty<T>(trivial, bufCap);
      CopyElements(rhs);
    }

    constructor MovedFrom(rhs: Queue<T>)
      requires rhs.Valid()
      modifies rhs, rhs.buf
      ensures Valid() && fresh(buf) && Peer(rhs) && contents == old(rhs.contents)
      ensures rhs.Valid() && rhs.contents == []
    {
      capacity, trivial, bufCap, bufMask := rhs.capacity, rhs.trivial, rhs.bufCap, rhs.bufMask;
      buf := new Slot<T>[rhs.bufCap](_ => Raw);
      head, tail, contents := 0, 0, [];
      new;
      assert buf[..] == Raws(bufCap);
      StartEmpty<T>(trivial, bufCap);
      MoveElements(rhs);
      rhs.Clear(|rhs.contents|);
    }

    method CopyAssign(rhs: Queue<T>)
      requires Valid() && rhs.Valid() && Peer(rhs)
      modifies this, buf
      ensures Valid() && contents == old(rhs.contents)
    {
      if this != rhs {
        HoldsOccupied(trivial, buf[..], head, tail, contents);
        Clear(|contents|);
        CopyElements(rhs);
      }
    }

    /** Move assignment; from itself it changes nothing. */
    method MoveAssign(rhs: Queue<T>)
      requires Valid() && rhs.Valid() && Peer(rhs)
      modifies this, buf, rhs, rhs.buf
      ensures Valid() && contents == old(rhs.contents)
      ensures rhs.Valid() && (rhs != this ==> rhs.contents == [])
    {
      if this != rhs {
        HoldsOccupied(trivial, buf[..], head, tail, contents);
        Clear(|contents|);
        MoveElements(rhs);
        rhs.Clear(|rhs.contents|);
      }
    }

    /** Three moves through a temporary; correct for other == this as well. */
    method Swap(other: Queue<T>)
      requires Valid() && other.Valid() && Peer(other)
      modifies this, buf, other, other.buf
      ensures Valid() && other.Valid()
      ensures contents == old(other.contents) && other.contents == old(contents)
    {
      var tmp := new Queue<T>.MovedFrom(other);
      other.MoveAssign(this);
      MoveAssign(tmp);
    }

    /** A masked index that has walked over the first k elements. */
    ghost predicate Cursor(i: nat, k: nat)
      reads this
    {
      Walk(head, |contents|, bufCap, i, k)
    }

    lemma CursorStep(i: nat, k: nat)
      requires Valid() && Cursor(i, k) && k < |contents|
      ensures i < buf.Length && buf[i] == Live(contents[k]) && Cursor(Next(i, bufCap), k + 1)
    {
      NextAt(head, k, bufCap);
      ReadAt(buf[..], head, contents, k);
    }

    lemma CursorEnd(i: nat, k: nat)
      requires Valid() && Cursor(i, k)
      ensures i == tail <==> k == |contents|
    {
      WalkEnd(head, |contents|, bufCap, i, k);
    }
  }

  /** `operator==` sees only the elements, wherever the heads are. */
  method Equal<T(==)>(a: Queue<T>, b: Queue<T>) returns (r: bool)
    requires a.Valid() && b.Valid() && a.Peer(b)
    ensures r <==> a.contents == b.contents
  {
    var n := a.Size();
    var m := b.Size();
    if n != m { return false; }
    var ai, bi := a.head, b.head;
    ghost var k := 0;
    while ai != a.tail
      invariant a.Cursor(ai, k) && b.Cursor(bi, k)
      invariant forall j :: 0 <= j < k ==> a.contents[j] == b.contents[j]
      decreases n - k
    {
      a.CursorEnd(ai, k);
      a.CursorStep(ai, k);
      b.CursorStep(bi, k);
      if a.buf[ai].value != b.buf[bi].value {
        return false;
      }
      ai := Advance(ai, a.bufMask);
      bi := Advance(bi, b.bufMask);
      k := k + 1;
    }
    a.CursorEnd(ai, k);
    return true;
  }

  lemma FitsHalf(v: nat)
    requires 2 <= v <= WORD / 2
    ensures LeastPow2AtLeast(RoundUpPo2(v), v) && 2 * RoundUpPo2(v) <= WORD
  {
    WordIsPow2();
    RoundUpIsLeast(v);
  }

  lemma StartEmpty<T>(trivial: bool, n: nat)
    requires IsPow2(n) && 2 * n <= WORD
    ensures Holds(trivial, Raws<T>(n), 0, 0, [])
  {
    assert Unroll(Raws<T>(n), 0) == Raws<T>(n);
  }

  lemma OccupiedNone<T>(trivial: bool, b: seq<Slot<T>>, head: nat, tail: nat, n: nat)
    requires Occupied(trivial, b, head, tail, n) && (trivial || n == 0)
    ensures Holds(trivial, b, 0, 0, [])
  {
    assert Unroll(b, 0) == b;
    if !trivial {
      forall i | 0 <= i < |b| ensures b[i].Raw? {
        assert b[i] == Unroll(b, head)[if i >= head then i - head else i + |b| - head];
      }
    }
  }
}
