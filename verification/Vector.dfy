/** The contiguous dynamic array: in-place overlapping shifts under exact object lifetimes. */
module Vector {
  import Arith
  import opened Allocation
  import opened Bits
  import opened Growth
  import opened Storage

  /** A call returns, throws `std::bad_alloc`, never comes back from the doubling loop, or goes on with a
      buffer that is shorter than cap_ says. */
  datatype Outcome = Done | NoMemory | Spins | Unfit

  /** What becomes of a request for a buffer of n elements. */
  function Buffer(n: nat, elemSize: nat, heap: nat): Outcome {
    match Ask(n, elemSize, heap)
    case Refused => NoMemory
    case Short => Unfit
    case Enough => Done
  }

  /** What becomes of a request for room for `need` elements. */
  ghost function Verdict(cap: nat, need: nat, elemSize: nat, heap: nat): Outcome {
    if need <= cap then Done
    else if !Reaches(First(cap), need) then Spins
    else Buffer(Landing(First(cap), need, 64), elemSize, heap)
  }

  /** The capacity to grow to, if the doubling loop ends. */
  method Target(cap: nat, need: nat) returns (newCap: nat, ends: bool)
    requires cap < need < WORD
    ensures ends <==> Reaches(First(cap), need)
    ensures ends ==> newCap == Landing(First(cap), need, 64) && need <= newCap
  {
    newCap, ends := Grow(First(cap), need);
    if ends {
      Lands(First(cap), need);
      LandingFits(First(cap), need, 64);
    }
  }

  ghost predicate PaidAt(n: nat, pushes: nat, cap: nat, relocated: nat) {
    && n <= pushes
    && (|| (cap == 0 && relocated == 0)
        || (cap >= 4 && IsPow2(cap) && relocated + 4 <= cap && (cap == 4 || cap <= 2 * pushes)))
  }

  /** A push that has to grow a power-of-two capacity exactly doubles it, or never returns. */
  lemma PaidPush(n: nat, pushes: nat, cap: nat, relocated: nat, elemSize: nat, heap: nat)
    requires PaidAt(n, pushes, cap, relocated) && n <= cap < WORD - 1
    ensures Verdict(cap, n + 1, elemSize, heap).Done? ==>
              PaidAt(n + 1, pushes + 1, if n + 1 <= cap then cap else Landing(First(cap), n + 1, 64),
                     relocated + if n + 1 > cap then n else 0)
  {
    if n == cap && Reaches(First(cap), n + 1) {
      FullDoubles(cap);
      PaidGrowth(pushes, cap, relocated, if cap > 0 then 2 * cap else 4);
    }
  }

  lemma PaidGrowth(pushes: nat, cap: nat, relocated: nat, newCap: nat)
    requires PaidAt(cap, pushes, cap, relocated) && IsPow2(newCap) && newCap == if cap > 0 then 2 * cap else 4
    ensures PaidAt(cap + 1, pushes + 1, newCap, relocated + cap)
  {
  }

  class Vec<T> {
    const trivial: bool
    const elemSize: nat         // sizeof(T)
    const heap: nat             // the most bytes that operator new grants
    var data: array<Slot<T>>    // of length cap; none when cap is 0
    var size: nat
    var cap: nat
    ghost var contents: seq<T>
    ghost var pushes: nat       // push_back calls so far
    ghost var relocated: nat    // elements moved to another buffer so far

    ghost predicate Valid()
      reads this, data
    {
      && elemSize >= 1 && Backed(cap, elemSize, heap)
      && data.Length == cap && size == |contents| <= cap <= heap < WORD - 1
      && data[..size] == Lives(contents)
      && Vacant(trivial, data[size..])
    }

    /** What only push_back and pop_back can have produced: the amortisation argument. */
    ghost predicate Paid()
      reads this
    {
      PaidAt(|contents|, pushes, cap, relocated)
    }

    lemma PaidMeans()
      requires Paid()
      ensures relocated <= 2 * pushes
    {
    }

    constructor (trivial: bool, elemSize: nat, heap: nat)
      requires elemSize >= 1 && heap < WORD - 1
      ensures Valid() && contents == [] && cap == 0 && fresh(data)
      ensures this.trivial == trivial && this.elemSize == elemSize && this.heap == heap
      ensures pushes == 0 && relocated == 0 && Paid()
    {
      this.trivial, this.elemSize, this.heap := trivial, elemSize, heap;
      data := new Slot<T>[0];
      size, cap, contents, pushes, relocated := 0, 0, [], 0, 0;
    }

    // -- moving elements ---------------------------------------------------------------

    /** `construct(to, std::move(*from)); from->~T();` inside the buffer. */
    method Slide(to: nat, from: nat)
      requires !trivial && to < data.Length && from < data.Length && to != from
      requires data[to].Raw? && data[from].Live?
      modifies data
      ensures data[..] == old(data[..])[to := old(data[from])][from := Raw]
    {
      MoveConstruct(trivial, data, to, data, from);
      Destroy(trivial, data, from);
    }

    /** One round of the right shift: everything above `it` has been moved. */
    method SlideUp(ghost was: seq<Slot<T>>, it: nat, ghost last: nat, n: nat)
      requires !trivial && n > 0 && it < last && last + n <= |was| && Movable(false, was, it, last, last, last + n)
      requires Shifted(false, was, data[..], it + 1, last, it + 1 + n)
      modifies data
      ensures Shifted(false, was, data[..], it, last, it + n)
    {
      SlideRoom(was, data[..], it, last, n);
      Slide(it + n, it);
    }

    /** One round of the left shift: everything from first up to `it` has been moved. */
    method SlideDown(ghost was: seq<Slot<T>>, ghost first: nat, it: nat, ghost last: nat, n: nat)
      requires !trivial && 0 < n <= first <= it < last <= |was| && Movable(false, was, first, last, first - n, first)
      requires Shifted(false, was, data[..], first, it, first - n)
      modifies data
      ensures Shifted(false, was, data[..], first, it + 1, first - n)
    {
      SlideDownRoom(was, data[..], first, it, last, n);
      Slide(it - n, it);
    }

    /** `memmove` of [first, last). */
    method MoveBlock(first: nat, last: nat, to: nat)
      requires first <= last <= data.Length && to + (last - first) <= data.Length
      modifies data
      ensures Shifted(true, old(data[..]), data[..], first, last, to)
    {
      MemmoveShifts(data[..], first, last, to);
      Memmove(data, to, first, last - first);
    }

    /** Moves [first, last) right by n slots, highest first. */
    method ShiftRight(first: nat, last: nat, n: nat)
      requires n > 0 && first <= last && last + n <= data.Length
      requires Movable(trivial, data[..], first, last, last, last + n)
      modifies data
      ensures Shifted(trivial, old(data[..]), data[..], first, last, first + n)
    {
      if last - first == 0 { return; }
      if trivial {
        MoveBlock(first, last, first + n);
      } else {
        SlideAllUp(first, last, n);
      }
    }

    method SlideAllUp(first: nat, last: nat, n: nat)
      requires !trivial && n > 0 && first <= last && last + n <= data.Length
      requires Movable(false, data[..], first, last, last, last + n)
      modifies data
      ensures Shifted(false, old(data[..]), data[..], first, last, first + n)
    {
      ghost var was := data[..];
      var it := last;
      while it != first
        invariant first <= it <= last
        invariant Shifted(false, was, data[..], it, last, it + n)
        decreases it
      {
        it := it - 1;
        MovableTail(was, it, first, last, n);
        SlideUp(was, it, last, n);
      }
    }

    /** Moves [first, last) left by n slots, lowest first. */
    method ShiftLeft(first: nat, last: nat, n: nat)
      requires 0 < n <= first <= last <= data.Length
      requires Movable(trivial, data[..], first, last, first - n, first)
      modifies data
      ensures Shifted(trivial, old(data[..]), data[..], first, last, first - n)
    {
      if last - first == 0 { return; }
      if trivial {
        MoveBlock(first, last, first - n);
      } else {
        SlideAllDown(first, last, n);
      }
    }

    method SlideAllDown(first: nat, last: nat, n: nat)
      requires !trivial && 0 < n <= first <= last <= data.Length
      requires Movable(false, data[..], first, last, first - n, first)
      modifies data
      ensures Shifted(false, old(data[..]), data[..], first, last, first - n)
    {
      ghost var was := data[..];
      var it := first;
      while it != last
        invariant first <= it <= last
        invariant Shifted(false, was, data[..], first, it, first - n)
      {
        SlideDown(was, first, it, last, n);
        it := it + 1;
      }
    }

    // -- capacity ----------------------------------------------------------------------

    /** Throws before anything has changed, or moves the elements to a buffer of newCap slots.  What the
        source does with a buffer that is too short is not followed further. */
    method Reallocate(newCap: nat) returns (r: Outcome)
      requires Valid() && size <= newCap
      modifies this, data
      ensures Valid() && contents == old(contents) && pushes == old(pushes)
      ensures r == Buffer(newCap, elemSize, heap)
      ensures r.NoMemory? <==> (newCap * elemSize) % WORD > heap
      ensures r.Done? <==> newCap * elemSize < WORD && newCap * elemSize <= heap
      ensures r.Done? || r.NoMemory? || r.Unfit?
      ensures r.Done? ==> fresh(data) && cap == newCap && relocated == old(relocated) + size
      ensures !r.Done? ==> data == old(data) && cap == old(cap) && relocated == old(relocated)
    {
      r := Buffer(newCap, elemSize, heap);
      EnoughIsBacked(newCap, elemSize, heap);
      if !r.Done? { return; }
      BackedBelowHeap(newCap, elemSize, heap);
      var buf := Relocate(newCap);
      ReleaseBuffer(trivial, data);
      data := buf;
      cap := newCap;
      relocated := relocated + size;
    }

    /** Copies or moves every element to a fresh buffer, and leaves nothing to destroy behind. */
    method Relocate(newCap: nat) returns (buf: array<Slot<T>>)
      requires Valid() && size <= newCap
      modifies data
      ensures fresh(buf) && buf.Length == newCap
      ensures buf[..size] == Lives(contents) && Vacant(trivial, buf[size..])
      ensures Vacant(trivial, data[..])
    {
      buf := new Slot<T>[newCap](_ => Raw);
      LivesShape(data[..], contents);
      if trivial {
        Memcpy(buf, 0, data, 0, size);
      } else {
        RawAt(trivial, data[..], size);
        var i := 0;
        while i < size
          modifies data, buf
          invariant 0 <= i <= size
          invariant forall k :: 0 <= k < i ==> buf[k] == Live(contents[k])
          invariant forall k :: i <= k < newCap ==> buf[k].Raw?
          invariant forall k :: i <= k < size ==> data[k] == Live(contents[k])
          invariant forall k :: 0 <= k < cap && !(i <= k < size) ==> data[k].Raw?
        {
          MoveConstruct(trivial, buf, i, data, i);
          Destroy(trivial, data, i);
          i := i + 1;
        }
      }
    }

    /** Doubles until size + extra fits; the sum itself does not wrap. */
    method EnsureSpace(extra: nat) returns (r: Outcome)
      requires Valid() && size + extra < WORD
      modifies this, data
      ensures Valid() && (data == old(data) || fresh(data))
      ensures contents == old(contents) && pushes == old(pushes)
      ensures r == Verdict(old(cap), size + extra, elemSize, heap)
      ensures size + extra <= old(cap) ==> r.Done? && data == old(data)
      ensures r.Spins? <==> size + extra > old(cap) && !Reaches(First(old(cap)), size + extra)
      ensures r.Done? ==>
                && size + extra <= cap
                && cap == if size + extra <= old(cap) then old(cap) else Landing(First(old(cap)), size + extra, 64)
      ensures !r.Done? ==> cap == old(cap) && data == old(data)
      ensures relocated == old(relocated) + if r.Done? && size + extra > old(cap) then size else 0
    {
      if size + extra <= cap { return Done; }
      var newCap, ends := Target(cap, size + extra);
      if !ends { return Spins; }
      r := GrowTo(newCap);
    }

    method GrowTo(newCap: nat) returns (r: Outcome)
      requires Valid()
      modifies this, data
      ensures Valid() && (data == old(data) || fresh(data))
      ensures contents == old(contents) && pushes == old(pushes)
      ensures r == if newCap <= old(cap) then Done else Buffer(newCap, elemSize, heap)
      ensures r.Done? ==> cap == if newCap <= old(cap) then old(cap) else newCap
      ensures !r.Done? ==> cap == old(cap) && data == old(data)
      ensures relocated == old(relocated) + if newCap <= old(cap) || !r.Done? then 0 else size
    {
      if newCap <= cap { return Done; }
      r := Reallocate(newCap);
    }

    method Reserve(n: nat) returns (r: Outcome)
      requires Valid() && n < WORD
      modifies this, data
      ensures Valid() && (data == old(data) || fresh(data)) && contents == old(contents)
      ensures r == if n <= old(cap) then Done else Buffer(n, elemSize, heap)
      ensures Bytes(n, elemSize) <= heap ==> (r.Done? <==> n <= old(cap) || n * elemSize < WORD)
      ensures cap == if n > old(cap) && r.Done? then n else old(cap)
      ensures !r.Done? || n <= old(cap) ==> data == old(data)
    {
      r := Done;
      if n > cap {
        r := GrowTo(n);
      }
    }

    method ShrinkToFit()
      requires Valid()
      modifies this, data
      ensures Valid() && (data == old(data) || fresh(data))
      ensures contents == old(contents) && cap == |contents|
    {
      if size < cap {
        SmallerIsBacked(size, cap, elemSize, heap);
        var r := Reallocate(size);
        assert r.Done?;
      }
    }

    // -- the vector interface ----------------------------------------------------------

    method PushBack(v: T) returns (r: Outcome)
      requires Valid()
      modifies this, data
      ensures Valid() && (data == old(data) || fresh(data))
      ensures r == Verdict(old(cap), |old(contents)| + 1, elemSize, heap)
      ensures contents == if r.Done? then old(contents) + [v] else old(contents)
      ensures !r.Done? ==> cap == old(cap) && data == old(data)
      ensures |old(contents)| < old(cap) ==> data == old(data)
      ensures cap == if |old(contents)| == old(cap) && r.Done? then Landing(First(old(cap)), old(cap) + 1, 64) else old(cap)
      ensures pushes == old(pushes) + if r.Done? then 1 else 0
      ensures old(Paid()) ==> Paid()
    {
      if Paid() { PaidPush(size, pushes, cap, relocated, elemSize, heap); }
      r := PushGrowing(v);
    }

    method PushGrowing(v: T) returns (r: Outcome)
      requires Valid()
      modifies this, data
      ensures Valid() && (data == old(data) || fresh(data))
      ensures r == Verdict(old(cap), |old(contents)| + 1, elemSize, heap)
      ensures contents == if r.Done? then old(contents) + [v] else old(contents)
      ensures pushes == old(pushes) + if r.Done? then 1 else 0
      ensures cap == (if r.Done? && |old(contents)| + 1 > old(cap)
                      then Landing(First(old(cap)), |old(contents)| + 1, 64) else old(cap))
      ensures relocated == old(relocated) + if r.Done? && |old(contents)| + 1 > old(cap) then |old(contents)| else 0
      ensures !r.Done? || |old(contents)| < old(cap) ==> data == old(data)
    {
      r := EnsureSpace(1);
      if r.Done? {
        Append(v);
      }
    }

    /** `construct(data_ + size_++, v)` */
    method Append(v: T)
      requires Valid() && size < cap
      modifies this`size, this`contents, this`pushes, data
      ensures Valid() && contents == old(contents) + [v] && pushes == old(pushes) + 1
    {
      RawAt(trivial, data[..], size);
      Construct(trivial, data, size, v);
      size := size + 1;
      contents := contents + [v];
      pushes := pushes + 1;
    }

    method PopBack()
      requires Valid() && contents != []
      modifies this, data
      ensures Valid() && data == old(data) && cap == old(cap)
      ensures contents == old(contents)[..|old(contents)| - 1]
      ensures pushes == old(pushes) && (old(Paid()) ==> Paid())
    {
      LivesShape(data[..], contents);
      PoppedShape(trivial, data[..], contents);
      contents := contents[..size - 1];
      size := size - 1;
      Destroy(trivial, data, size);
    }

    /** `insert` and `emplace` at index off; off == size appends. */
    method Insert(off: nat, v: T) returns (r: Outcome, p: nat)
      requires Valid() && off <= size
      modifies this, data
      ensures Valid() && (data == old(data) || fresh(data)) && p == off
      ensures r == Verdict(old(cap), |old(contents)| + 1, elemSize, heap)
      ensures !r.Done? ==> cap == old(cap) && data == old(data)
      ensures |old(contents)| < old(cap) ==> data == old(data)
      ensures cap == if |old(contents)| == old(cap) && r.Done? then Landing(First(old(cap)), old(cap) + 1, 64) else old(cap)
      ensures contents == if r.Done? then old(contents)[..off] + [v] + old(contents)[off..] else old(contents)
    {
      p := off;
      r := EnsureSpace(1);
      if r.Done? {
        OpenGap(p, v);
      }
    }

    /** Shifts the elements from p on right by one and constructs v in the gap. */
    method OpenGap(p: nat, v: T)
      requires Valid() && p <= size < cap
      modifies this`size, this`contents, data
      ensures Valid() && contents == old(contents)[..p] + [v] + old(contents)[p..]
    {
      ghost var was := data[..];
      InsertRoom(trivial, was, contents, p);
      ShiftRight(p, size, 1);
      InsertedShape(trivial, was, data[..], contents, p, v);
      Construct(trivial, data, p, v);
      size := size + 1;
      contents := contents[..p] + [v] + contents[p..];
    }

    /** `erase(pos)`. */
    method Erase(pos: nat)
      requires Valid() && pos < size
      modifies this, data
      ensures Valid() && data == old(data) && cap == old(cap)
      ensures contents == old(contents)[..pos] + old(contents)[pos + 1..]
    {
      ghost var was := data[..];
      LivesShape(was, contents);
      Destroy(trivial, data, pos);
      CloseGap(pos, pos + 1, was);
    }

    /** Shifts the elements from `last` on left over the destroyed ones; was is what the buffer held
        before they were destroyed. */
    method CloseGap(first: nat, last: nat, ghost was: seq<Slot<T>>)
      requires elemSize >= 1 && Backed(cap, elemSize, heap)
      requires data.Length == cap && first < last <= size == |contents| <= cap <= heap < WORD - 1
      requires Destroyed(trivial, was, data[..], first, last)
      requires was[..size] == Lives(contents) && Vacant(trivial, was[size..])
      modifies this`size, this`contents, data
      ensures Valid() && contents == old(contents)[..first] + old(contents)[last..]
    {
      ghost var mid := data[..];
      EraseRoom(trivial, was, mid, contents, first, last);
      ShiftLeft(last, size, last - first);
      ErasedShape(trivial, was, mid, data[..], contents, first, last);
      size := size - (last - first);
      contents := contents[..first] + contents[last..];
    }

    /** `destroy_n`: skipped for trivial types. */
    method DestroyN(first: nat, count: nat)
      requires first + count <= data.Length
      requires trivial || forall k :: first <= k < first + count ==> !data[k].Raw?
      modifies data
      ensures Destroyed(trivial, old(data[..]), data[..], first, first + count)
    {
      if !trivial {
        for i := 0 to count
          invariant forall k :: 0 <= k < data.Length && !(first <= k < first + i) ==> data[k] == old(data[k])
          invariant forall k :: first <= k < first + i ==> data[k].Raw?
        {
          Destroy(trivial, data, first + i);
        }
      }
    }

    /** `erase(first, last)`. */
    method EraseRange(first: nat, last: nat)
      requires Valid() && first <= last <= size
      modifies this, data
      ensures Valid() && data == old(data) && cap == old(cap)
      ensures contents == old(contents)[..first] + old(contents)[last..]
    {
      var n := last - first;
      if n == 0 {
        assert contents == contents[..first] + contents[last..];
        return;
      }
      ghost var was := data[..];
      LivesShape(was, contents);
      DestroyN(first, n);
      CloseGap(first, last, was);
    }

    method Clear()
      requires Valid()
      modifies this, data
      ensures Valid() && contents == [] && data == old(data) && cap == old(cap)
    {
      LivesShape(data[..], contents);
      ghost var was := data[..];
      DestroyN(0, size);
      TruncatedShape(trivial, was, data[..], contents, 0);
      size := 0;
      contents := [];
    }

    /** `resize(count, v)`; the one-argument form passes a default element. */
    method Resize(count: nat, v: T) returns (r: Outcome)
      requires Valid() && count < WORD
      modifies this, data
      ensures Valid() && (data == old(data) || fresh(data))
      ensures r == Verdict(old(cap), count, elemSize, heap) && (r.Done? ==> cap >= count)
      ensures !r.Done? || count <= old(cap) ==> cap == old(cap) && data == old(data)
      ensures r.Done? && count > old(cap) ==> cap == Landing(First(old(cap)), count, 64)
      ensures contents == if count <= |old(contents)| then old(contents)[..count]
                          else if r.Done? then old(contents) + Repeat(count - |old(contents)|, v)
                          else old(contents)
    {
      r := Done;
      if count < size {
        LivesShape(data[..], contents);
        ghost var was := data[..];
        DestroyN(count, size - count);
        TruncatedShape(trivial, was, data[..], contents, count);
        contents := contents[..count];
      } else if count > size {
        r := EnsureSpace(count - size);
        if !r.Done? { return; }
        FillTo(count, v);
      }
      size := count;
    }

    method FillTo(count: nat, v: T)
      requires Valid() && size <= count <= cap
      modifies data, this`contents
      ensures data[..count] == Lives(contents) && Vacant(trivial, data[count..])
      ensures contents == old(contents) + Repeat(count - size, v)
    {
      ghost var was := data[..];
      LivesShape(was, contents);
      var i := size;
      while i < count
        modifies data
        invariant size <= i <= count
        invariant forall k :: 0 <= k < cap && !(size <= k < i) ==> data[k] == was[k]
        invariant forall k :: size <= k < i ==> data[k] == Live(v)
      {
        RawAt(trivial, was[size..], i - size);
        Construct(trivial, data, i, v);
        i := i + 1;
      }
      FilledShape(trivial, was, data[..], contents, count, v);
      contents := contents + Repeat(count - size, v);
    }
  }

  // -- when growing works out -----------------------------------------------------------------

  /** From no buffer or a power of two: growing returns with room exactly if the need is at most 2^63
      and the capacity it lands on is granted and has a size in bytes that is a word. */
  lemma GrowsIff(cap: nat, need: nat, elemSize: nat, heap: nat)
    requires (cap == 0 || IsPow2(cap)) && cap < need < WORD
    ensures Verdict(cap, need, elemSize, heap) == Spins <==> need > HALF
    ensures Verdict(cap, need, elemSize, heap) == Done <==>
              need <= HALF && Backed(Landing(First(cap), need, 64), elemSize, heap)
  {
    DoublingEndsIff(cap, need);
    EnoughIsBacked(Landing(First(cap), need, 64), elemSize, heap);
  }

  // -- requests that come out too short ----------------------------------------------------

  /** Eight-byte elements: the 2^61 that `reserve(2^61)` asks for take 2^64 bytes, so 0 are granted. */
  lemma ReserveShort(n: nat, heap: nat)
    requires n == 0x2000_0000_0000_0000
    ensures Bytes(n, 8) == 0 && Buffer(n, 8, heap) == Unfit
  {
    Arith.ModUnique(n * 8, WORD, 1, 0);
  }

  /** And `resize(2^60 + 1)` on an empty vector lands on 2^61. */
  lemma ResizeShort(n: nat, heap: nat)
    requires n == 0x1000_0000_0000_0001
    ensures Landing(First(0), n, 64) == 0x2000_0000_0000_0000
    ensures Verdict(0, n, 8, heap) == Unfit
  {
    var p: nat := 2 * (n - 1);
    WordIsPow2();
    Halve(HALF, 2 * p);
    Halve(2 * p, p);
    LandsOnLeast(n, p);
    ReserveShort(p, heap);
  }

  // -- whole runs ------------------------------------------------------------------------

  datatype Op<T> = OpPush(v: T) | OpPop | OpInsert(at: nat, v: T) | OpErase(i: nat, j: nat)
                 | OpResize(n: nat, v: T) | OpReserve(n: nat) | OpShrink | OpClear

  /** The plain sequence; positions outside it are not legal calls. */
  function Edit<T>(s: seq<T>, op: Op<T>): seq<T> {
    match op
    case OpPush(v) => s + [v]
    case OpPop => if s == [] then s else s[..|s| - 1]
    case OpInsert(at, v) => if at <= |s| then s[..at] + [v] + s[at..] else s
    case OpErase(i, j) => if i <= j <= |s| then s[..i] + s[j..] else s
    case OpResize(n, v) => if n <= |s| then s[..n] else s + Repeat(n - |s|, v)
    case OpClear => []
    case _ => s
  }

  lemma EditMeans<T>(s: seq<T>, op: Op<T>)
    ensures var r := Edit(s, op);
            && (op.OpPush? ==> s < r && |r| == |s| + 1 && r[|s|] == op.v)
            && (op.OpPop? && s != [] ==> r + [s[|s| - 1]] == s)
            && (op.OpResize? && op.n <= |s| ==> r <= s && |r| == op.n)
            && (op.OpResize? && op.n > |s| ==> s < r && |r| == op.n && forall k :: |s| <= k < op.n ==> r[k] == op.v)
            && (op.OpReserve? || op.OpShrink? ==> r == s) && (op.OpClear? ==> r == [])
  {
  }

  /** Inserting makes room for one at the position; erasing takes out the range. */
  lemma InsertMeans<T>(s: seq<T>, at: nat, v: T)
    requires at <= |s|
    ensures var r := Edit(s, OpInsert(at, v)); |r| == |s| + 1 && r[at] == v && s == r[..at] + r[at + 1..]
  {
  }

  lemma EraseMeans<T>(s: seq<T>, i: nat, j: nat)
    requires i <= j <= |s|
    ensures var r := Edit(s, OpErase(i, j)); |r| == |s| - (j - i) && s == r[..i] + s[i..j] + r[i..]
  {
  }

  function Edits<T>(s: seq<T>, ops: seq<Op<T>>): seq<T>
    decreases |ops|
  {
    if ops == [] then s else Edits(Edit(s, ops[0]), ops[1..])
  }

  function PushCount<T>(ops: seq<Op<T>>): nat {
    if ops == [] then 0 else (if ops[0].OpPush? then 1 else 0) + PushCount(ops[1..])
  }

  predicate EndsOnly<T>(ops: seq<Op<T>>) {
    forall i :: 0 <= i < |ops| ==> ops[i].OpPush? || ops[i].OpPop?
  }

  /** How an operation on n elements ends. */
  ghost function Ending<T>(op: Op<T>, n: nat, cap: nat, elemSize: nat, heap: nat): Outcome {
    match op
    case OpPush(_) => Verdict(cap, n + 1, elemSize, heap)
    case OpInsert(at, _) => if at <= n then Verdict(cap, n + 1, elemSize, heap) else Done
    case OpResize(m, _) => Verdict(cap, m, elemSize, heap)
    case OpReserve(m) => if m <= cap then Done else Buffer(m, elemSize, heap)
    case _ => Done
  }

  /** How many elements an operation needs room for, if it may grow by doubling. */
  ghost function Need<T>(op: Op<T>, n: nat): nat {
    match op
    case OpPush(_) => n + 1
    case OpInsert(at, _) => if at <= n then n + 1 else 0
    case OpResize(m, _) => m
    case _ => 0
  }

  /** Only growing fails.  The doubling loop spins exactly if no wrapped iterate reaches the need; a
      request throws exactly if its bytes, modulo 2^64, are more than the heap grants; and it works
      out exactly if the bytes are a word and are granted. */
  lemma EndingMeans<T>(op: Op<T>, n: nat, cap: nat, elemSize: nat, heap: nat)
    ensures var r, need := Ending(op, n, cap, elemSize, heap), Need(op, n);
            if need > cap then
              && (r.Spins? <==> !Reaches(First(cap), need))
              && (!r.Spins? ==> Answers(r, Landing(First(cap), need, 64), elemSize, heap))
            else if op.OpReserve? && op.n > cap then Answers(r, op.n, elemSize, heap)
            else r == Done
  {
    EnoughIsBacked(Landing(First(cap), Need(op, n), 64), elemSize, heap);
    if op.OpReserve? { EnoughIsBacked(op.n, elemSize, heap); }
  }

  ghost predicate Answers(r: Outcome, slots: nat, elemSize: nat, heap: nat) {
    && (r.NoMemory? <==> (slots * elemSize) % WORD > heap)
    && (r.Done? <==> slots * elemSize < WORD && slots * elemSize <= heap)
  }

  /** One operation with arguments that are values of a size_t; one that throws changes nothing. */
  method Do<T>(vec: Vec<T>, op: Op<T>) returns (r: Outcome)
    requires vec.Valid() && (op.OpResize? || op.OpReserve? ==> op.n < WORD)
    modifies vec, vec.data
    ensures vec.Valid() && (vec.data == old(vec.data) || fresh(vec.data))
    ensures r == Ending(op, |old(vec.contents)|, old(vec.cap), vec.elemSize, vec.heap)
    ensures vec.contents == if r.Done? then Edit(old(vec.contents), op) else old(vec.contents)
    ensures !r.Done? ==> vec.cap == old(vec.cap) && vec.data == old(vec.data)
    ensures (op.OpReserve? || op.OpResize?) && r.Done? ==> vec.cap >= op.n
    ensures op.OpShrink? ==> vec.cap == |vec.contents|
    ensures op.OpPush? ==> vec.pushes == old(vec.pushes) + if r.Done? then 1 else 0
    ensures op.OpPop? ==> vec.pushes == old(vec.pushes)
    ensures (op.OpPush? || op.OpPop?) && old(vec.Paid()) ==> vec.Paid()
  {
    r := Done;
    match op {
      case OpPush(v) => r := vec.PushBack(v);
      case OpPop => if vec.size > 0 { vec.PopBack(); }
      case _ => r := DoInside(vec, op);
    }
  }

  method DoInside<T>(vec: Vec<T>, op: Op<T>) returns (r: Outcome)
    requires vec.Valid() && (op.OpResize? || op.OpReserve? ==> op.n < WORD) && !op.OpPush? && !op.OpPop?
    modifies vec, vec.data
    ensures vec.Valid() && (vec.data == old(vec.data) || fresh(vec.data))
    ensures r == Ending(op, |old(vec.contents)|, old(vec.cap), vec.elemSize, vec.heap)
    ensures vec.contents == if r.Done? then Edit(old(vec.contents), op) else old(vec.contents)
    ensures !r.Done? ==> vec.cap == old(vec.cap) && vec.data == old(vec.data)
    ensures (op.OpReserve? || op.OpResize?) && r.Done? ==> vec.cap >= op.n
    ensures op.OpShrink? ==> vec.cap == |vec.contents|
  {
    r := Done;
    match op {
      case OpInsert(at, v) => if at <= vec.size { var p; r, p := vec.Insert(at, v); }
      case OpErase(i, j) => if i <= j <= vec.size { vec.EraseRange(i, j); }
      case OpResize(n, v) => r := vec.Resize(n, v);
      case OpReserve(n) => r := vec.Reserve(n);
      case OpShrink => vec.ShrinkToFit();
      case OpClear => vec.Clear();
    }
  }

  /** Any client that asks before it pops and passes positions inside the vector, up to the end of its
      operations or the first that does not return normally; that one leaves the vector as it was. */
  method Client<T>(trivial: bool, elemSize: nat, heap: nat, ops: seq<Op<T>>)
    returns (vec: Vec<T>, done: nat, r: Outcome)
    requires elemSize >= 1 && heap < WORD - 1
    requires forall i :: 0 <= i < |ops| && (ops[i].OpResize? || ops[i].OpReserve?) ==> ops[i].n < WORD
    ensures vec.Valid() && vec.elemSize == elemSize && vec.heap == heap && done <= |ops| && vec.contents == Edits([], ops[..done])
    ensures r == if done == |ops| then Done else Ending(ops[done], |vec.contents|, vec.cap, elemSize, heap)
    ensures r.Done? <==> done == |ops|
    ensures EndsOnly(ops) ==> vec.relocated <= 2 * PushCount(ops[..done])
  {
    vec := new Vec<T>(trivial, elemSize, heap);
    done, r := 0, Done;
    while done < |ops|
      invariant vec.elemSize == elemSize && vec.heap == heap
      invariant done <= |ops| && r.Done? && vec.Valid() && fresh(vec) && fresh(vec.data)
      invariant vec.contents == Edits([], ops[..done])
      invariant EndsOnly(ops) ==> vec.Paid() && vec.pushes == PushCount(ops[..done])
    {
      EditsStep([], ops, done);
      r := Do(vec, ops[done]);
      if !r.Done? { break; }
      done := done + 1;
    }
    if EndsOnly(ops) { vec.PaidMeans(); }
  }

  lemma EditsStep<T>(s: seq<T>, ops: seq<Op<T>>, i: nat)
    requires i < |ops|
    ensures Edits(s, ops[..i + 1]) == Edit(Edits(s, ops[..i]), ops[i])
    ensures PushCount(ops[..i + 1]) == PushCount(ops[..i]) + if ops[i].OpPush? then 1 else 0
  {
    assert ops[..i + 1] == ops[..i] + [ops[i]];
    EditsSnoc(s, ops[..i], ops[i]);
  }

  lemma {:induction false} EditsSnoc<T>(s: seq<T>, ops: seq<Op<T>>, op: Op<T>)
    ensures Edits(s, ops + [op]) == Edit(Edits(s, ops), op)
    ensures PushCount(ops + [op]) == PushCount(ops) + if op.OpPush? then 1 else 0
    decreases |ops|
  {
    if ops != [] {
      assert (ops + [op])[1..] == ops[1..] + [op];
      EditsSnoc(Edit(s, ops[0]), ops[1..], op);
    }
  }

  lemma RawAt<T>(trivial: bool, b: seq<Slot<T>>, k: nat)
    requires k <= |b| && Vacant(trivial, b[k..])
    ensures !trivial ==> forall j :: k <= j < |b| ==> b[j].Raw?
  {
    if !trivial {
      forall j | k <= j < |b| ensures b[j].Raw? { assert b[j] == b[k..][j - k]; }
    }
  }

  lemma InsertRoom<T>(trivial: bool, b: seq<Slot<T>>, s: seq<T>, off: nat)
    requires off <= |s| < |b| && b[..|s|] == Lives(s) && Vacant(trivial, b[|s|..])
    ensures Movable(trivial, b, off, |s|, |s|, |s| + 1)
  {
    LivesShape(b, s);
    RawAt(trivial, b, |s|);
  }

  /** What the shift and the construction of `insert` leave is the new sequence. */
  lemma InsertedShape<T>(trivial: bool, was: seq<Slot<T>>, mid: seq<Slot<T>>, s: seq<T>, off: nat, v: T)
    requires off <= |s| < |was| && was[..|s|] == Lives(s) && Vacant(trivial, was[|s|..])
    requires Shifted(trivial, was, mid, off, |s|, off + 1)
    ensures trivial || mid[off].Raw?
    ensures mid[off := Live(v)][..|s| + 1] == Lives(s[..off] + [v] + s[off..])
    ensures Vacant(trivial, mid[off := Live(v)][|s| + 1..])
  {
    LivesShape(was, s);
    RawAt(trivial, was, |s|);
    var now := mid[off := Live(v)];
    var t := s[..off] + [v] + s[off..];
    forall k | 0 <= k < |t| ensures now[k] == Live(t[k]) {}
  }

  /** Slots [i, j) have been destroyed. */
  ghost predicate Destroyed<T>(trivial: bool, was: seq<Slot<T>>, now: seq<Slot<T>>, i: nat, j: nat) {
    && i <= j <= |was| == |now|
    && (forall k :: 0 <= k < |was| && !(i <= k < j) ==> now[k] == was[k])
    && if trivial then now == was else forall k :: i <= k < j ==> now[k].Raw?
  }

  lemma EraseRoom<T>(trivial: bool, was: seq<Slot<T>>, mid: seq<Slot<T>>, s: seq<T>, i: nat, j: nat)
    requires j <= |s| <= |was| && was[..|s|] == Lives(s) && Destroyed(trivial, was, mid, i, j)
    ensures Movable(trivial, mid, j, |s|, i, j)
  {
    LivesShape(was, s);
  }

  /** What destroying [i, j) and the left shift leave is the new sequence. */
  lemma ErasedShape<T>(trivial: bool, was: seq<Slot<T>>, mid: seq<Slot<T>>, now: seq<Slot<T>>, s: seq<T>, i: nat, j: nat)
    requires i < j <= |s| <= |was| && was[..|s|] == Lives(s) && Vacant(trivial, was[|s|..])
    requires Destroyed(trivial, was, mid, i, j) && Shifted(trivial, mid, now, j, |s|, i)
    ensures now[..|s| - (j - i)] == Lives(s[..i] + s[j..])
    ensures Vacant(trivial, now[|s| - (j - i)..])
  {
    LivesShape(was, s);
    var t := s[..i] + s[j..];
    forall k | 0 <= k < |t| ensures now[k] == Live(t[k]) {}
    if !trivial {
      RawAt(trivial, was, |s|);
      forall k | |t| <= k < |now| ensures now[k].Raw? {}
    }
  }

  lemma TruncatedShape<T>(trivial: bool, was: seq<Slot<T>>, now: seq<Slot<T>>, s: seq<T>, n: nat)
    requires n <= |s| <= |was| && was[..|s|] == Lives(s) && Vacant(trivial, was[|s|..])
    requires Destroyed(trivial, was, now, n, |s|)
    ensures now[..n] == Lives(s[..n]) && Vacant(trivial, now[n..])
  {
    LivesShape(was, s);
    if !trivial { RawAt(trivial, was, |s|); }
  }

  /** What `pop_back` leaves. */
  lemma PoppedShape<T>(trivial: bool, b: seq<Slot<T>>, s: seq<T>)
    requires 0 < |s| <= |b| && b[..|s|] == Lives(s) && Vacant(trivial, b[|s|..])
    ensures var n := |s| - 1; var c := if trivial then b else b[n := Raw];
            c[..n] == Lives(s[..n]) && Vacant(trivial, c[n..])
  {
    var n := |s| - 1;
    var c := if trivial then b else b[n := Raw];
    assert c[..n] == b[..|s|][..n];
    assert Lives(s[..n]) == Lives(s)[..n];
    if !trivial { assert c[n..] == [Raw] + b[|s|..]; }
  }

  lemma FilledShape<T>(trivial: bool, was: seq<Slot<T>>, now: seq<Slot<T>>, s: seq<T>, count: nat, v: T)
    requires |s| <= count <= |was| == |now| && was[..|s|] == Lives(s) && Vacant(trivial, was[|s|..])
    requires forall k :: 0 <= k < |was| && !(|s| <= k < count) ==> now[k] == was[k]
    requires forall k :: |s| <= k < count ==> now[k] == Live(v)
    ensures now[..count] == Lives(s + Repeat(count - |s|, v)) && Vacant(trivial, now[count..])
  {
    LivesShape(was, s);
    RawAt(trivial, was, |s|);
    var t := s + Repeat(count - |s|, v);
    forall k | 0 <= k < count ensures now[k] == Live(t[k]) {}
  }

  lemma LivesShape<T>(b: seq<Slot<T>>, s: seq<T>)
    requires |s| <= |b| && b[..|s|] == Lives(s)
    ensures forall k :: 0 <= k < |s| ==> b[k] == Live(s[k])
  {
    forall k | 0 <= k < |s| ensures b[k] == Live(s[k]) {
      assert b[k] == b[..|s|][k];
    }
  }

  /** [first, last) holds elements and [lo, hi) holds none. */
  ghost predicate Movable<T>(trivial: bool, b: seq<Slot<T>>, first: nat, last: nat, lo: nat, hi: nat) {
    && first <= last <= |b| && lo <= hi <= |b|
    && (forall k :: first <= k < last ==> b[k].Live?)
    && (trivial || forall k :: lo <= k < hi ==> b[k].Raw?)
  }

  /** The slots [first, last) of `was` are now at `to`, the rest of both ranges is raw, and
      everything outside them is unchanged. */
  ghost predicate Shifted<T>(trivial: bool, was: seq<Slot<T>>, now: seq<Slot<T>>, first: nat, last: nat, to: nat) {
    && first <= last <= |was| == |now| && to + (last - first) <= |now|
    && (forall k :: to <= k < to + (last - first) ==> now[k] == was[first + (k - to)])
    && (forall k :: 0 <= k < |now| && !(first <= k < last) && !(to <= k < to + (last - first)) ==> now[k] == was[k])
    && (trivial || forall k :: first <= k < last && !(to <= k < to + (last - first)) ==> now[k].Raw?)
  }

  lemma MovableTail<T>(b: seq<Slot<T>>, it: nat, first: nat, last: nat, n: nat)
    requires first <= it <= last && Movable(false, b, first, last, last, last + n)
    ensures Movable(false, b, it, last, last, last + n)
  {
  }

  lemma MemmoveShifts<T>(was: seq<Slot<T>>, first: nat, last: nat, to: nat)
    requires first <= last <= |was| && to + (last - first) <= |was|
    ensures Shifted(true, was, was[..to] + was[first..first + (last - first)] + was[to + (last - first)..], first, last, to)
  {
  }

  /** One more step of a right shift: its target is raw, and the range grows by one. */
  lemma SlideRoom<T>(was: seq<Slot<T>>, now: seq<Slot<T>>, it: nat, last: nat, n: nat)
    requires n > 0 && it < last && last + n <= |was|
    requires Movable(false, was, it, last, last, last + n)
    requires Shifted(false, was, now, it + 1, last, it + 1 + n)
    ensures now[it + n].Raw? && now[it].Live?
    ensures Shifted(false, was, now[it + n := now[it]][it := Raw], it, last, it + n)
  {
  }

  /** And of a left shift: the source is still live, its target raw. */
  lemma SlideDownRoom<T>(was: seq<Slot<T>>, now: seq<Slot<T>>, first: nat, it: nat, last: nat, n: nat)
    requires 0 < n <= first <= it < last <= |was|
    requires Movable(false, was, first, last, first - n, first)
    requires Shifted(false, was, now, first, it, first - n)
    ensures now[it - n].Raw? && now[it].Live?
    ensures Shifted(false, was, now[it - n := now[it]][it := Raw], first, it + 1, first - n)
  {
  }
}
