/** The growable circular queue. */
module DynamicQueue {
  import Arith
  import Growth
  import opened Allocation
  import opened Bits
  import opened Storage
  import opened Circular

  /** A call returns, throws `std::bad_alloc`, or goes on with a buffer that is shorter than cap_ says
      or cannot hold the elements. */
  datatype Outcome = Done | NoMemory | Unfit

  /** What becomes of a request for a buffer of `slots` slots for n elements and the sentinel. */
  function Fate(slots: nat, n: nat, elemSize: nat, heap: nat): Outcome {
    match Ask(slots, elemSize, heap)
    case Refused => NoMemory
    case Short => Unfit
    case Enough => if n > 0 && n >= slots then Unfit else Done
  }

  /** The buffer that a full one is replaced by. */
  function Doubled(cap: nat): nat {
    if cap == 0 then 8 else Growth.Twice(cap)
  }

  /** The buffer that `reserve(n)` asks for: both the addition and the rounding may wrap. */
  function Slots(n: nat): nat {
    RoundUpPo2((n + 1) % WORD)
  }

  class Queue<T> {
    const trivial: bool             // is_trivially_copyable
    const elemSize: nat             // sizeof(T)
    const heap: nat                 // the most bytes that operator new grants
    var buf: array<Slot<T>>         // of length cap; none when cap is 0
    var cap: nat
    var mask: nat
    var head: nat
    var tail: nat
    ghost var contents: seq<T>
    ghost var pushes: nat           // push calls so far
    ghost var relocated: nat        // elements moved to another buffer so far

    ghost predicate Valid()
      reads this, buf
    {
      && elemSize >= 1 && buf.Length == cap && Backed(cap, elemSize, heap)
      && (cap == 0 ==> head == tail == 0 && contents == [])
      && (cap > 0 ==> mask == cap - 1 && Holds(trivial, buf[..], head, tail, contents))
    }

    /** What only pushes and pops can have produced: the amortisation argument. */
    ghost predicate Paid()
      reads this
    {
      && |contents| <= pushes
      && (|| (cap == 0 && relocated == 0)
          || (cap >= 8 && relocated + 8 <= cap && (cap == 8 || cap <= 2 * pushes)))
    }

    lemma PaidMeans()
      requires Paid()
      ensures relocated <= 2 * pushes
    {
    }

    constructor (trivial: bool, elemSize: nat, heap: nat)
      requires elemSize >= 1
      ensures Valid() && contents == [] && cap == 0
      ensures this.trivial == trivial && this.elemSize == elemSize && this.heap == heap
      ensures pushes == 0 && relocated == 0 && Paid() && fresh(buf)
    {
      this.trivial, this.elemSize, this.heap := trivial, elemSize, heap;
      buf := new Slot<T>[0];
      cap, mask, head, tail := 0, 0, 0, 0;
      contents, pushes, relocated := [], 0, 0;
    }

    /** The copy constructor: the same elements, laid out from index 0 of its own buffer.  It asks for
        no more than rhs has. */
    constructor Copy(rhs: Queue<T>)
      requires rhs.Valid()
      ensures Valid() && fresh(buf) && trivial == rhs.trivial && elemSize == rhs.elemSize && heap == rhs.heap
      ensures contents == rhs.contents && head == 0
      ensures if contents == [] then cap == 0 else LeastPow2AtLeast(cap, |contents| + 1)
    {
      trivial, elemSize, heap := rhs.trivial, rhs.elemSize, rhs.heap;
      buf := new Slot<T>[0];
      cap, mask, head, tail := 0, 0, 0, 0;
      contents, pushes, relocated := [], 0, 0;
      new;
      var n := rhs.Size();
      if rhs.cap > 0 { SlotsGranted(n, rhs.cap, elemSize, heap); }
      var granted := Reserve(n);
      assert granted.Done? && n <= Capacity();
      FillFrom(rhs, n);
    }

    /** `for (i = rhs.head_; i != rhs.tail_; i = (i + 1) & rhs.mask_)`: append a copy. */
    method FillFrom(rhs: Queue<T>, n: nat)
      requires Valid() && contents == [] && head == 0 && n <= Capacity()
      requires rhs.Valid() && rhs != this && rhs.buf != buf && n == |rhs.contents|
      modifies this`tail, this`contents, buf
      ensures Valid() && contents == rhs.contents
    {
      var i := rhs.head;
      while i != rhs.tail
        invariant Valid() && contents <= rhs.contents
        invariant rhs.Cursor(i, |contents|)
        decreases n - |contents|
      {
        rhs.CursorStep(i, |contents|);
        Append(rhs.buf[i].value);
        i := Advance(i, rhs.mask);
      }
      rhs.CursorEnd(i, |contents|);
    }

    /** A masked index that has walked k elements from the head. */
    ghost predicate Cursor(i: nat, k: nat)
      reads this
    {
      k <= |contents| && i == if cap == 0 then 0 else At(head, k, cap)
    }

    lemma CursorStep(i: nat, k: nat)
      requires Valid() && Cursor(i, k) && i != tail
      ensures k < |contents| && i < cap && buf[i] == Live(contents[k])
      ensures Cursor(Next(i, cap), k + 1)
    {
      ReadAt(buf[..], head, contents, k);
      NextAt(head, k, cap);
    }

    lemma CursorEnd(i: nat, k: nat)
      requires Valid() && Cursor(i, k)
      ensures i == tail <==> k == |contents|
    {
      if k < |contents| { AtApart(head, k, |contents|, cap); }
    }

    /** `construct(slot(tail_), v); tail_ = advance(tail_);` */
    method Append(v: T)
      requires Valid() && |contents| + 1 < cap
      modifies this`tail, this`contents, buf
      ensures Valid() && contents == old(contents) + [v]
    {
      HoldsPush(trivial, buf[..], head, tail, contents, v);
      Construct(trivial, buf, tail, v);
      tail := Advance(tail, mask);
      contents := contents + [v];
    }

    method Size() returns (n: nat)
      requires Valid()
      ensures n == |contents|
      ensures head == tail <==> contents == []
    {
      n := Count(trivial, buf[..], head, tail, cap, mask, contents);
    }

    function Empty(): (e: bool)
      requires Valid()
      reads this, buf
      ensures e <==> contents == []
    {
      head == tail
    }

    /** What fits without growing: all slots but the sentinel. */
    function Capacity(): (n: nat)
      requires Valid()
      reads this, buf
      ensures |contents| <= n
    {
      if cap > 0 then cap - 1 else 0
    }

    /** One more element fits beside k others exactly below it. */
    lemma CapacityIff(k: nat)
      requires Valid()
      ensures k < Capacity() <==> k + 1 < cap
    {
    }

    // -- relocation ------------------------------------------------------------------

    /** The memcpy path: one run, or two when the elements wrap. */
    method CopyRuns(newBuf: array<Slot<T>>)
      requires Valid() && |contents| <= newBuf.Length && newBuf != buf
      requires newBuf[..] == Raws(newBuf.Length)
      modifies newBuf
      ensures newBuf[..] == Lives(contents) + Raws(newBuf.Length - |contents|)
    {
      var s := Size();
      if cap > 0 {
        if head < tail {
          CopyRun(newBuf, buf, head, s);
          RunsMeet(buf[..], head, tail, s);
        } else if s > 0 {
          RunsMeet(buf[..], head, tail, s);
          CopyTwoRuns(newBuf, buf, head, cap - head, tail);
        }
      }
    }

    /** The element-wise path: a masked index walks from head_ to tail_. */
    method MoveEach(newBuf: array<Slot<T>>)
      requires Valid() && !trivial && |contents| <= newBuf.Length && newBuf != buf
      requires newBuf[..] == Raws(newBuf.Length)
      modifies newBuf, buf
      ensures newBuf[..] == Lives(contents) + Raws(newBuf.Length - |contents|)
      ensures Vacant(false, buf[..])
    {
      if cap == 0 { return; }
      var dst := 0;
      var i := head;
      ghost var b := buf[..];
      while i != tail
        invariant 0 <= dst <= |contents| && i == At(head, dst, cap)
        invariant Relocating(newBuf, b, dst)
        decreases |contents| - dst
      {
        MoveSlot(newBuf, dst, i, b);
        NextAt(head, dst, cap);
        dst := dst + 1;
        i := Advance(i, mask);
      }
      Relocated(newBuf, b, dst);
    }

    /** The first k elements have moved, leaving raw storage behind. */
    ghost predicate Relocating(newBuf: array<Slot<T>>, b: seq<Slot<T>>, k: nat)
      reads this, buf, newBuf
    {
      && newBuf != buf && cap > 0 && IsPow2(cap) && mask == cap - 1
      && k <= |contents| <= newBuf.Length && Holds(false, b, head, tail, contents) && |b| == cap
      && newBuf[..] == Lives(contents[..k]) + Raws(newBuf.Length - k)
      && Drained(b, buf[..], head, k)
    }

    lemma Relocated(newBuf: array<Slot<T>>, b: seq<Slot<T>>, k: nat)
      requires Relocating(newBuf, b, k) && tail == At(head, k, cap)
      ensures newBuf[..] == Lives(contents) + Raws(newBuf.Length - |contents|)
      ensures Vacant(false, buf[..])
    {
      if k < |contents| { AtApart(head, k, |contents|, cap); }
      assert contents[..k] == contents;
      DrainedVacant(b, buf[..], head, k);
    }

    /** `new (dst) T(std::move(*src)); src->~T();` */
    method MoveSlot(newBuf: array<Slot<T>>, dst: nat, i: nat, ghost b: seq<Slot<T>>)
      requires !trivial && Relocating(newBuf, b, dst) && dst < |contents| && i == At(head, dst, cap)
      modifies newBuf, buf
      ensures Relocating(newBuf, b, dst + 1)
    {
      ghost var was := buf[..];
      DrainStep(b, was, head, contents, dst);
      FillStep(contents, dst, newBuf.Length);
      MoveConstruct(trivial, newBuf, dst, buf, i);
      Destroy(trivial, buf, i);
      assert buf[..] == was[i := Raw];
    }

    /** Both relocation paths leave the same buffer: the elements from index 0 on, in order. */
    method Relocate(newCap: nat) returns (newBuf: array<Slot<T>>)
      requires Valid() && |contents| <= newCap
      modifies buf
      ensures fresh(newBuf) && newBuf[..] == Lives(contents) + Raws(newCap - |contents|)
      ensures newBuf.Length == newCap && Vacant(trivial, buf[..])
    {
      newBuf := new Slot<T>[newCap](_ => Raw);
      assert newBuf[..] == Raws(newCap);
      if trivial {
        CopyRuns(newBuf);
      } else {
        MoveEach(newBuf);
      }
    }

    /** Throws before anything has changed, or moves every element into a fresh buffer of newCap slots
        with head_ at 0.  What the source does with a buffer that is too short is not followed further. */
    method GrowTo(newCap: nat) returns (r: Outcome)
      requires Valid() && (newCap == 0 || IsPow2(newCap)) && 2 * newCap <= WORD
      modifies this, buf
      ensures Valid() && contents == old(contents) && pushes == old(pushes)
      ensures r == Fate(newCap, |contents|, elemSize, heap)
      ensures r.NoMemory? <==> (newCap * elemSize) % WORD > heap
      ensures r.Done? <==> newCap * elemSize < WORD && newCap * elemSize <= heap && (contents == [] || |contents| < newCap)
      ensures r.Done? ==>
                && fresh(buf) && cap == newCap && head == 0 && tail == |contents|
                && buf[..] == Lives(contents) + Raws(newCap - |contents|)
      ensures !r.Done? ==> buf == old(buf) && cap == old(cap) && head == old(head)
      ensures relocated == old(relocated) + if r.Done? then |contents| else 0
    {
      var grant := Ask(newCap, elemSize, heap);
      EnoughIsBacked(newCap, elemSize, heap);
      if grant.Refused? { return NoMemory; }
      var s := Size();
      if grant.Short? || (s > 0 && s >= newCap) { return Unfit; }
      Rehouse(newCap, s);
      r := Done;
    }

    method Rehouse(newCap: nat, s: nat)
      requires Valid() && (newCap == 0 || IsPow2(newCap)) && 2 * newCap <= WORD && Backed(newCap, elemSize, heap)
      requires s == |contents| && (s > 0 ==> s < newCap)
      modifies this, buf
      ensures Valid() && contents == old(contents) && pushes == old(pushes)
      ensures fresh(buf) && cap == newCap && head == 0 && tail == |contents|
      ensures buf[..] == Lives(contents) + Raws(newCap - |contents|)
      ensures relocated == old(relocated) + |contents|
    {
      var newBuf := Relocate(newCap);
      ReleaseBuffer(trivial, buf);
      buf := newBuf;
      cap := newCap;
      mask := WrapSub(newCap, 1);
      head := 0;
      tail := s;
      relocated := relocated + s;
      WrapPred(newCap);
      if newCap > 0 { HoldsFromStart(trivial, contents, newCap); }
    }

    method EnsureSpace() returns (r: Outcome)
      requires Valid()
      modifies this, buf
      ensures Valid() && (buf == old(buf) || fresh(buf))
      ensures contents == old(contents) && pushes == old(pushes)
      ensures r == if |contents| + 1 >= old(cap) then Fate(Doubled(old(cap)), |contents|, elemSize, heap) else Done
      ensures r.Done? ==> |contents| + 1 < cap == if |contents| + 1 >= old(cap) then Doubled(old(cap)) else old(cap)
      ensures !r.Done? || |contents| + 1 < old(cap) ==> buf == old(buf) && cap == old(cap)
      ensures relocated == old(relocated) + if r.Done? && |contents| + 1 >= old(cap) then |contents| else 0
    {
      var s := Size();
      r := Done;
      if s + 1 >= cap {
        Doubling(cap);
        r := GrowTo(Doubled(cap));
      }
    }

    // -- the queue interface -----------------------------------------------------------

    method Push(v: T) returns (r: Outcome)
      requires Valid()
      modifies this, buf
      ensures Valid() && (buf == old(buf) || fresh(buf))
      ensures r == if |old(contents)| + 1 >= old(cap) then Fate(Doubled(old(cap)), |old(contents)|, elemSize, heap) else Done
      ensures contents == if r.Done? then old(contents) + [v] else old(contents)
      ensures pushes == old(pushes) + if r.Done? then 1 else 0
      ensures !r.Done? || |old(contents)| < old(Capacity()) ==> buf == old(buf) && cap == old(cap)
      ensures r.Done? && |old(contents)| >= old(Capacity()) ==> cap == if old(cap) == 0 then 8 else 2 * old(cap)
      ensures old(Paid()) ==> Paid()
    {
      Doubling(cap);
      r := EnsureSpace();
      if r.Done? {
        Append(v);
        pushes := pushes + 1;
      }
    }

    method Pop() returns (out: T)
      requires Valid() && contents != []
      modifies this, buf
      ensures Valid() && buf == old(buf)
      ensures out == old(contents)[0] && contents == old(contents)[1..]
      ensures pushes == old(pushes) && (old(Paid()) ==> Paid())
    {
      HoldsPop(trivial, buf[..], head, tail, contents);
      out := buf[head].value;
      Destroy(trivial, buf, head);
      head := Advance(head, mask);
      contents := contents[1..];
    }

    method Front() returns (v: T)
      requires Valid() && contents != []
      ensures v == contents[0]
    {
      ReadAt(buf[..], head, contents, 0);
      v := buf[head].value;
    }

    /** `*slot((tail_ - 1 + cap_) & mask_)`. */
    method Back() returns (v: T)
      requires Valid() && contents != []
      ensures v == contents[|contents| - 1]
    {
      ReadAt(buf[..], head, contents, |contents| - 1);
      var i := Retreat(tail, cap, mask);
      v := buf[i].value;
    }

    method Clear()
      requires Valid()
      modifies this, buf
      ensures Valid() && contents == [] && head == tail == 0
      ensures buf == old(buf) && cap == old(cap) && pushes == old(pushes) && relocated == old(relocated)
    {
      if !trivial {
        while head != tail
          invariant Valid() && buf == old(buf) && cap == old(cap)
          invariant pushes == old(pushes) && relocated == old(relocated)
          decreases |contents|
        {
          var n := Size();
          HoldsPop(trivial, buf[..], head, tail, contents);
          Destroy(trivial, buf, head);
          head := Advance(head, mask);
          contents := contents[1..];
        }
      }
      var n := Size();
      if cap > 0 { ClearedHolds(trivial, buf[..], head, tail, contents); }
      head, tail := 0, 0;
      contents := [];
    }

    /** Contents never change.  Over a heap that grants the request, the call returns with room for n
        exactly if there was room before, or n is below 2^63, where the rounding wraps, and the buffer's
        size in bytes is a word. */
    method Reserve(n: nat) returns (r: Outcome)
      requires Valid() && n < WORD
      modifies this, buf
      ensures Valid() && (buf == old(buf) || fresh(buf))
      ensures contents == old(contents) && pushes == old(pushes) && (head == 0 || head == old(head))
      ensures r == if n <= old(Capacity()) then Done else Fate(Slots(n), |contents|, elemSize, heap)
      ensures n <= old(Capacity()) || !r.Done? ==> cap == old(cap) && buf == old(buf)
      ensures n > old(Capacity()) && r.Done? ==> cap == Slots(n)
      ensures Bytes(Slots(n), elemSize) <= heap ==>
                (r.Done? && n <= Capacity() <==>
                 n <= old(Capacity()) || (n < HALF && Slots(n) * elemSize < WORD))
      ensures n > old(Capacity()) && n < HALF && r.Done? ==> LeastPow2AtLeast(cap, n + 1)
      ensures n < HALF && r.Done? ==> cap >= old(cap) && Capacity() >= n
    {
      r := Done;
      SlotsShape(n);
      if n > Capacity() {
        r := GrowTo(RoundUpPo2((n + 1) % WORD));
      }
    }

    /** Afterwards the buffer is the smallest that can hold the elements, or gone if there are none. */
    method ShrinkToFit()
      requires Valid()
      modifies this, buf
      ensures Valid() && (buf == old(buf) || fresh(buf))
      ensures contents == old(contents) && pushes == old(pushes)
      ensures contents == [] ==> cap == 0
      ensures contents != [] ==> LeastPow2AtLeast(cap, |contents| + 1)
    {
      var s := Size();
      if s == 0 {
        if cap > 0 { ClearedHolds(trivial, buf[..], head, tail, contents); }
        if cap > 0 && !trivial { AllVacant(buf[..], head); }
        ReleaseBuffer(trivial, buf);
        buf := new Slot<T>[0];
        cap, mask, head, tail := 0, 0, 0, 0;
        return;
      }
      SlotsGranted(s, cap, elemSize, heap);
      var newCap := RoundUpPo2(s + 1);
      if newCap < cap {
        var r := GrowTo(newCap);
        assert r.Done?;
      }
    }
  }

  /** `operator==`: two masked cursors walk two buffers of different sizes. */
  method Equal<T(==)>(a: Queue<T>, b: Queue<T>) returns (r: bool)
    requires a.Valid() && b.Valid()
    ensures r <==> a.contents == b.contents
  {
    var n := a.Size();
    var m := b.Size();
    if n != m { return false; }
    var ai, bi := a.head, b.head;
    ghost var k := 0;
    while ai != a.tail
      invariant a.Cursor(ai, k) && b.Cursor(bi, k)
      invariant a.contents[..k] == b.contents[..k]
      decreases n - k
    {
      a.CursorStep(ai, k);
      b.CursorEnd(bi, k);
      b.CursorStep(bi, k);
      if a.buf[ai].value != b.buf[bi].value {
        assert a.contents[k] != b.contents[k];
        return false;
      }
      ai := Advance(ai, a.mask);
      bi := Advance(bi, b.mask);
      k := k + 1;
    }
    a.CursorEnd(ai, k);
    assert a.contents[..k] == a.contents && b.contents[..k] == b.contents;
    return true;
  }

  // -- whole runs ------------------------------------------------------------------------

  datatype Op<T> = OpPush(v: T) | OpPop | OpReserve(n: nat) | OpShrink | OpClear

  /** The plain FIFO a queue must agree with; popping an empty queue is not a legal call. */
  function Fifo<T>(q: seq<T>, op: Op<T>): seq<T> {
    match op
    case OpPush(v) => q + [v]
    case OpPop => if q == [] then q else q[1..]
    case OpClear => []
    case _ => q
  }

  /** A push adds its value behind the others, a pop takes off the first, and only they and clear do
      anything. */
  lemma FifoMeans<T>(q: seq<T>, op: Op<T>)
    ensures var r := Fifo(q, op);
            && (op.OpPush? ==> q < r && |r| == |q| + 1 && r[|q|] == op.v)
            && (op.OpPop? && q != [] ==> [q[0]] + r == q)
            && (op.OpClear? ==> r == [])
            && (op.OpReserve? || op.OpShrink? || (op.OpPop? && q == []) ==> r == q)
  {
  }

  function FifoAll<T>(q: seq<T>, ops: seq<Op<T>>): seq<T>
    decreases |ops|
  {
    if ops == [] then q else FifoAll(Fifo(q, ops[0]), ops[1..])
  }

  function Pushes<T>(ops: seq<Op<T>>): nat {
    if ops == [] then 0 else (if ops[0].OpPush? then 1 else 0) + Pushes(ops[1..])
  }

  predicate EndsOnly<T>(ops: seq<Op<T>>) {
    forall i :: 0 <= i < |ops| ==> ops[i].OpPush? || ops[i].OpPop?
  }

  /** How an operation on n elements ends. */
  function Ending<T>(op: Op<T>, n: nat, cap: nat, elemSize: nat, heap: nat): Outcome {
    match op
    case OpPush(_) => if n + 1 >= cap then Fate(Doubled(cap), n, elemSize, heap) else Done
    case OpReserve(m) => if m < cap || m == 0 then Done else Fate(Slots(m), n, elemSize, heap)
    case _ => Done
  }

  /** An operation fails only if it asks for a buffer: a push without room for one more, for 8 slots or twice
      as many, a reserve beyond the capacity for those rounded up.  It throws exactly if their bytes,
      modulo 2^64, are more than the heap grants, and is done exactly if the bytes are a word, are granted, and
      the slots hold the elements with one to spare. */
  lemma EndingMeans<T>(op: Op<T>, n: nat, cap: nat, elemSize: nat, heap: nat)
    requires cap == 0 || (IsPow2(cap) && 2 * cap <= WORD)
    ensures var r := Ending(op, n, cap, elemSize, heap);
            if op.OpPush? && n + 1 >= cap then Answers(r, if cap == 0 then 8 else (2 * cap) % WORD, n, elemSize, heap)
            else if op.OpReserve? && op.n > 0 && op.n >= cap then Answers(r, Slots(op.n), n, elemSize, heap)
            else r == Done
  {
    EnoughIsBacked(Doubled(cap), elemSize, heap);
    if op.OpReserve? { EnoughIsBacked(Slots(op.n), elemSize, heap); }
  }

  ghost predicate Answers(r: Outcome, slots: nat, n: nat, elemSize: nat, heap: nat) {
    && (r.NoMemory? <==> (slots * elemSize) % WORD > heap)
    && (r.Done? <==> slots * elemSize < WORD && slots * elemSize <= heap && (n == 0 || n < slots))
  }

  /** One operation with an argument that is a value of a size_t; one that does not return normally
      leaves the queue as it was. */
  method Do<T>(q: Queue<T>, op: Op<T>) returns (r: Outcome)
    requires q.Valid() && (op.OpReserve? ==> op.n < WORD)
    modifies q, q.buf
    ensures q.Valid() && (q.buf == old(q.buf) || fresh(q.buf))
    ensures r == Ending(op, |old(q.contents)|, old(q.cap), q.elemSize, q.heap)
    ensures q.contents == if r.Done? then Fifo(old(q.contents), op) else old(q.contents)
    ensures !r.Done? ==> q.cap == old(q.cap) && q.buf == old(q.buf)
    ensures op.OpReserve? && op.n < HALF && r.Done? ==> q.Capacity() >= op.n
    ensures op.OpShrink? ==> if q.contents == [] then q.cap == 0 else LeastPow2AtLeast(q.cap, |q.contents| + 1)
    ensures op.OpPush? ==> q.pushes == old(q.pushes) + if r.Done? then 1 else 0
    ensures op.OpPop? ==> q.pushes == old(q.pushes)
    ensures (op.OpPush? || op.OpPop?) && old(q.Paid()) ==> q.Paid()
  {
    r := Done;
    match op {
      case OpPush(v) => r := q.Push(v);
      case OpPop => if !q.Empty() { var _ := q.Pop(); }
      case OpReserve(n) => r := q.Reserve(n);
      case OpShrink => q.ShrinkToFit();
      case OpClear => q.Clear();
    }
  }

  /** Any client that pops only when there is something to pop, up to the end of its operations or the
      first that does not return normally. */
  method Client<T>(trivial: bool, elemSize: nat, heap: nat, ops: seq<Op<T>>)
    returns (q: Queue<T>, done: nat, r: Outcome)
    requires elemSize >= 1 && forall i :: 0 <= i < |ops| && ops[i].OpReserve? ==> ops[i].n < WORD
    ensures q.Valid() && q.elemSize == elemSize && q.heap == heap && done <= |ops| && q.contents == FifoAll([], ops[..done])
    ensures r == if done == |ops| then Done else Ending(ops[done], |q.contents|, q.cap, elemSize, heap)
    ensures r.Done? <==> done == |ops|
    ensures EndsOnly(ops) ==> q.relocated <= 2 * Pushes(ops[..done])
  {
    q := new Queue(trivial, elemSize, heap);
    done, r := 0, Done;
    while done < |ops|
      invariant q.elemSize == elemSize && q.heap == heap
      invariant done <= |ops| && r.Done? && q.Valid() && fresh(q) && fresh(q.buf)
      invariant q.contents == FifoAll([], ops[..done])
      invariant EndsOnly(ops) ==> q.Paid() && q.pushes == Pushes(ops[..done])
    {
      FifoStep([], ops, done);
      r := Do(q, ops[done]);
      if !r.Done? { break; }
      done := done + 1;
    }
    if EndsOnly(ops) { q.PaidMeans(); }
  }

  lemma FifoStep<T>(q: seq<T>, ops: seq<Op<T>>, i: nat)
    requires i < |ops|
    ensures FifoAll(q, ops[..i + 1]) == Fifo(FifoAll(q, ops[..i]), ops[i])
    ensures Pushes(ops[..i + 1]) == Pushes(ops[..i]) + if ops[i].OpPush? then 1 else 0
  {
    assert ops[..i + 1] == ops[..i] + [ops[i]];
    FifoSnoc(q, ops[..i], ops[i]);
  }

  lemma {:induction false} FifoSnoc<T>(q: seq<T>, ops: seq<Op<T>>, op: Op<T>)
    ensures FifoAll(q, ops + [op]) == Fifo(FifoAll(q, ops), op)
    ensures Pushes(ops + [op]) == Pushes(ops) + if op.OpPush? then 1 else 0
    decreases |ops|
  {
    if ops != [] {
      assert (ops + [op])[1..] == ops[1..] + [op];
      FifoSnoc(Fifo(q, ops[0]), ops[1..], op);
    }
  }

  /** `(tail_ - 1 + cap_) & mask_`: the slot before the tail. */
  method Retreat(tail: nat, cap: nat, mask: nat) returns (i: nat)
    requires IsPow2(cap) && 2 * cap <= WORD && tail < cap && mask == cap - 1
    ensures i == if tail == 0 then cap - 1 else tail - 1
  {
    Arith.ModOfMod(tail - 1, cap, WORD);
    Arith.ModSmall(tail - 1 + cap, WORD);
    var x: nat := tail - 1 + cap;
    MaskIsMod(x, cap);
    if tail == 0 { Arith.ModSmall(x, cap); } else { Arith.ModUnique(x, cap, 1, tail - 1); }
    i := And(WrapAdd(WrapSub(tail, 1), cap), mask);
  }

  // -- the sizes that are asked for ---------------------------------------------------------

  /** `reserve(n)` asks for the least sufficient power of two exactly if n is below 2^63. */
  lemma SlotsRightIff(n: nat)
    requires n < WORD
    ensures LeastPow2AtLeast(Slots(n), n + 1) <==> n < HALF
    ensures HALF <= n < WORD - 1 ==> Slots(n) == 0
    ensures n == WORD - 1 ==> Slots(n) == 1
  {
    WordIsPow2();
    if n < WORD - 1 {
      Arith.ModSmall(n + 1, WORD);
      RoundUpIsLeast(n + 1);
    } else {
      Arith.ModUnique(WORD, WORD, 1, 0);
    }
  }

  lemma SlotsShape(n: nat)
    requires n < WORD
    ensures (Slots(n) == 0 || IsPow2(Slots(n))) && 2 * Slots(n) <= WORD
    ensures n < HALF ==> Slots(n) > n && LeastPow2AtLeast(Slots(n), n + 1)
    ensures n >= HALF ==> Slots(n) <= 1
  {
    WordIsPow2();
    SlotsRightIff(n);
    if n < HALF {
      assert Slots(n) <= HALF;
    }
  }

  /** Any power of two with room for n elements and the sentinel is at least what is asked for. */
  lemma SlotsAtMost(n: nat, cap: nat)
    requires IsPow2(cap) && 2 * cap <= WORD && n < cap
    ensures n < HALF && RoundUpPo2(n + 1) == Slots(n) && IsPow2(Slots(n)) && n < Slots(n) <= cap
    ensures LeastPow2AtLeast(Slots(n), n + 1)
  {
    WordIsPow2();
    SlotsShape(n);
    Arith.ModSmall(n + 1, WORD);
  }

  /** So shrinking, and copying into an equal heap, are always granted in full. */
  lemma SlotsGranted(n: nat, cap: nat, elemSize: nat, heap: nat)
    requires IsPow2(cap) && 2 * cap <= WORD && n < cap && Backed(cap, elemSize, heap)
    ensures RoundUpPo2(n + 1) == Slots(n) && IsPow2(Slots(n)) && n < Slots(n) <= cap && n < HALF
    ensures LeastPow2AtLeast(Slots(n), n + 1)
    ensures Ask(Slots(n), elemSize, heap) == Enough && Fate(Slots(n), n, elemSize, heap) == Done
  {
    SlotsAtMost(n, cap);
    SmallerIsBacked(Slots(n), cap, elemSize, heap);
  }

  /** A queue that holds anything and asks for 2^63 to 2^64 - 2 slots relocates into a null buffer;
      one that asks for 2^64 - 1 relocates into a single slot, and with one element in it reports
      size 0. */
  lemma ReserveWraps(n: nat, s: nat, elemSize: nat, heap: nat)
    requires HALF <= n < WORD && s > 0 && 1 <= elemSize < WORD && elemSize <= heap
    ensures Fate(Slots(n), s, elemSize, heap) == Unfit
    ensures And(WrapAdd(WrapSub(1, 0), 1), 0) == 0
  {
    SlotsShape(n);
    SmallerIsBacked(Slots(n), 1, elemSize, heap);
  }

  /** Just below a power of two, that power is asked for. */
  lemma SlotsAtPower(p: nat)
    requires IsPow2(p) && p <= HALF
    ensures Slots(p - 1) == p
  {
    WordIsPow2();
    SlotsShape(p - 1);
  }

  /** Eight-byte elements and n = 2^61 - 1: the 2^61 slots take 2^64 bytes, so 0 are asked for and
      granted, whatever the heap and the contents. */
  lemma ReserveShort(n: nat, s: nat, heap: nat)
    requires n == 0x1FFF_FFFF_FFFF_FFFF
    ensures Slots(n) == n + 1 && Bytes(Slots(n), 8) == 0
    ensures Fate(Slots(n), s, 8, heap) == Unfit
  {
    WordIsPow2();
    var p := n + 1;
    Halve(HALF, 2 * p);
    Halve(2 * p, p);
    SlotsAtPower(p);
    Arith.ModUnique((n + 1) * 8, WORD, 1, 0);
  }

  lemma Doubling(n: nat)
    requires n == 0 || (IsPow2(n) && 2 * n <= WORD)
    ensures (Doubled(n) == 0 || IsPow2(Doubled(n))) && 2 * Doubled(n) <= WORD
    ensures Doubled(n) == if n == 0 then 8 else if 2 * n == WORD then 0 else 2 * n
  {
    if 2 * n < WORD {
      Arith.ModSmall(2 * n, WORD);
      Growth.TwicePow2(n);
      assert IsPow2(8) by { assert IsPow2(4); }
      if n > 0 { TopPower(n); }
    } else {
      Arith.ModUnique(WORD, WORD, 1, 0);
    }
  }

  /** A power of two below 2^63 is at most half of it. */
  lemma TopPower(n: nat)
    requires IsPow2(n) && 2 * n < WORD
    ensures 4 * n <= WORD
  {
    WordIsPow2();
    var k := Log(n);
    if k >= 63 { Pow2Monotone(63, k); } else { Pow2Grows(k, 63); }
  }

  /** In the unwrapped case one run, in the wrapped case two, are the elements in order. */
  lemma RunsMeet<T>(b: seq<T>, head: nat, tail: nat, n: nat)
    requires head < |b| && tail < |b| && 0 < n < |b| && tail == At(head, n, |b|)
    ensures head < tail ==> b[head..head + n] == Unroll(b, head)[..n]
    ensures head >= tail ==> head + n == |b| + tail && b[head..] + b[..tail] == Unroll(b, head)[..n]
  {
  }

  method CopyRun<T>(newBuf: array<Slot<T>>, buf: array<Slot<T>>, head: nat, s: nat)
    requires newBuf != buf && newBuf[..] == Raws(newBuf.Length)
    requires head + s <= buf.Length && s <= newBuf.Length
    modifies newBuf
    ensures newBuf[..] == buf[..][head..head + s] + Raws(newBuf.Length - s)
  {
    ghost var x := buf[..][head..head + s];
    Memcpy(newBuf, 0, buf, head, s);
    assert buf[head..head + s] == x;
    OneRun(x, newBuf.Length);
  }

  method CopyTwoRuns<T>(newBuf: array<Slot<T>>, buf: array<Slot<T>>, head: nat, firstRun: nat, tail: nat)
    requires newBuf != buf && newBuf[..] == Raws(newBuf.Length)
    requires head + firstRun == buf.Length && tail <= buf.Length && firstRun + tail <= newBuf.Length
    modifies newBuf
    ensures newBuf[..] == buf[..][head..] + buf[..][..tail] + Raws(newBuf.Length - firstRun - tail)
  {
    ghost var x, y := buf[..][head..], buf[..][..tail];
    Memcpy(newBuf, 0, buf, head, firstRun);
    assert buf[head..head + firstRun] == x;
    Memcpy(newBuf, firstRun, buf, 0, tail);
    assert buf[0..0 + tail] == y;
    TwoRuns(x, y, newBuf.Length);
  }

  /** A run copied to the start of raw storage. */
  lemma OneRun<T>(x: seq<Slot<T>>, n: nat)
    requires |x| <= n
    ensures Raws(n)[..0] + x + Raws(n)[0 + |x|..] == x + Raws(n - |x|)
  {
  }

  /** And a second one behind it. */
  lemma TwoRuns<T>(x: seq<Slot<T>>, y: seq<Slot<T>>, n: nat)
    requires |x| + |y| <= n
    ensures var first := Raws(n)[..0] + x + Raws(n)[0 + |x|..];
            first[..|x|] + y + first[|x| + |y|..] == x + y + Raws(n - |x| - |y|)
  {
    OneRun(x, n);
    var first := x + Raws<T>(n - |x|);
    assert first[..|x|] == x;
    assert first[|x| + |y|..] == Raws(n - |x| - |y|);
  }

  /** The first k logical slots have been emptied, the others are as they were. */
  ghost predicate Drained<T>(before: seq<Slot<T>>, now: seq<Slot<T>>, head: nat, k: nat) {
    && head < |before| == |now| && k <= |now|
    && Unroll(now, head) == Raws(k) + Unroll(before, head)[k..]
  }

  lemma DrainStep<T>(before: seq<Slot<T>>, now: seq<Slot<T>>, head: nat, s: seq<T>, k: nat)
    requires Drained(before, now, head, k) && k < |s| < |before|
    requires Unroll(before, head)[..|s|] == Lives(s)
    ensures At(head, k, |now|) < |now| && now[At(head, k, |now|)] == Live(s[k])
    ensures Drained(before, now[At(head, k, |now|) := Raw], head, k + 1)
  {
    UnrollUpdate(now, head, k, Raw);
    var u := Unroll(before, head);
    assert Unroll(now, head)[k] == u[k..][0] == u[..|s|][k];
    assert (Raws(k) + u[k..])[k := Raw] == Raws(k + 1) + u[k + 1..];
  }

  lemma FillStep<T>(s: seq<T>, k: nat, n: nat)
    requires k < |s| <= n
    ensures (Lives(s[..k]) + Raws(n - k))[k := Live(s[k])] == Lives(s[..k + 1]) + Raws(n - (k + 1))
  {
  }

  lemma DrainedVacant<T>(before: seq<Slot<T>>, now: seq<Slot<T>>, head: nat, k: nat)
    requires Drained(before, now, head, k) && Vacant(false, Unroll(before, head)[k..])
    ensures Vacant(false, now)
  {
    var u := Unroll(now, head);
    forall i | 0 <= i < |now| ensures now[i].Raw? {
      var j := if i >= head then i - head else i + |now| - head;
      assert now[i] == u[j];
      if j >= k { assert u[j] == Unroll(before, head)[k..][j - k]; }
    }
  }

  lemma HoldsFromStart<T>(trivial: bool, s: seq<T>, n: nat)
    requires IsPow2(n) && 2 * n <= WORD && |s| < n
    ensures Holds(trivial, Lives(s) + Raws(n - |s|), 0, |s|, s)
  {
    var b := Lives(s) + Raws<T>(n - |s|);
    assert Unroll(b, 0) == b;
    assert b[..|s|] == Lives(s) && b[|s|..] == Raws(n - |s|);
  }

  lemma AllVacant<T>(b: seq<Slot<T>>, head: nat)
    requires head <= |b| && Vacant(false, Unroll(b, head))
    ensures Vacant(false, b)
  {
    forall i | 0 <= i < |b| ensures b[i].Raw? {
      assert b[i] == Unroll(b, head)[if i >= head then i - head else i + |b| - head];
    }
  }

  /** An emptied (or trivial) buffer may restart at index 0. */
  lemma ClearedHolds<T>(trivial: bool, b: seq<Slot<T>>, head: nat, tail: nat, s: seq<T>)
    requires Holds(trivial, b, head, tail, s) && (trivial || s == [])
    ensures Holds(trivial, b, 0, 0, [])
    ensures Vacant(trivial, Unroll(b, head))
  {
    if !trivial {
      assert Unroll(b, head)[0..] == Unroll(b, head);
      AllVacant(b, head);
    }
    assert Unroll(b, 0) == b;
  }
}
