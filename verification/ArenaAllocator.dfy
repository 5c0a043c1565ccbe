/** The bump-pointer arena and its mask-based alignment. */
module ArenaAllocator {
  import opened Arith
  import opened Bits

  /** `(addr + (alignment - 1)) & ~(alignment - 1)` on 64-bit words. */
  function AlignPtr(addr: nat, alignment: nat): nat
    requires addr < WORD && 1 <= alignment <= WORD
  {
    And((addr + (alignment - 1)) % WORD, Not(alignment - 1))
  }

  ghost predicate LeastMultipleFrom(r: nat, addr: nat, d: nat)
    requires d > 0
  {
    r % d == 0 && addr <= r && forall m: nat :: m % d == 0 && addr <= m ==> r <= m
  }

  /** The aligned address at or above addr, without wrap-around. */
  function NextAligned(addr: nat, d: nat): nat
    requires d > 0
  {
    var x := addr + (d - 1);
    x - x % d
  }

  lemma NextAlignedIsLeast(addr: nat, d: nat)
    requires d > 0
    ensures LeastMultipleFrom(NextAligned(addr, d), addr, d) && NextAligned(addr, d) < addr + d
  {
    var x := addr + (d - 1);
    var r := x - x % d;
    assert x == d * (x / d) + x % d;
    ModUnique(r, d, x / d, 0);
    forall m: nat | m % d == 0 && addr <= m ensures r <= m {
      if m < r { NextInCell(m, r, d); }
    }
  }

  /** The mask trick is the least multiple of a power-of-two alignment at or above the address,
      exactly if that is a word; otherwise it wraps to null. */
  lemma AlignPtrIsLeast(addr: nat, alignment: nat)
    requires IsPow2(alignment) && alignment <= WORD && addr < WORD
    ensures LeastMultipleFrom(NextAligned(addr, alignment), addr, alignment)
    ensures NextAligned(addr, alignment) < WORD ==> AlignPtr(addr, alignment) == NextAligned(addr, alignment)
    ensures NextAligned(addr, alignment) >= WORD ==> NextAligned(addr, alignment) == WORD && AlignPtr(addr, alignment) == 0
    ensures NextAligned(addr, alignment) < WORD <==> addr + (alignment - 1) < WORD
  {
    NextAlignedIsLeast(addr, alignment);
    if addr + (alignment - 1) < WORD {
      AlignPtrRounds(addr, alignment);
    } else {
      AlignPtrWraps(addr, alignment);
    }
  }

  lemma AlignPtrRounds(addr: nat, alignment: nat)
    requires IsPow2(alignment) && alignment <= WORD && addr + (alignment - 1) < WORD
    ensures AlignPtr(addr, alignment) == NextAligned(addr, alignment)
  {
    var x := addr + (alignment - 1);
    ModSmall(x, WORD);
    HighMaskRoundsDown(x, alignment);
  }

  lemma AlignPtrWraps(addr: nat, alignment: nat)
    requires IsPow2(alignment) && alignment <= WORD && addr < WORD && addr + (alignment - 1) >= WORD
    ensures AlignPtr(addr, alignment) == 0 && NextAligned(addr, alignment) == WORD
  {
    var x := addr + (alignment - 1);
    var y: nat := x - WORD;
    ModUnique(x, WORD, 1, y);
    HighMaskRoundsDown(y, alignment);
    ModSmall(y, alignment);
    WordIsMultiple(alignment);
    ModShift(y, WORD / alignment, alignment);
  }

  lemma WordIsMultiple(alignment: nat)
    requires IsPow2(alignment) && alignment <= WORD
    ensures alignment * (WORD / alignment) == WORD
  {
    WordIsPow2();
    var k := Log(alignment);
    Pow2BelowWord(k);
    PowerDivides(k, 64, alignment, WORD);
  }

  lemma PowerDivides(k: nat, w: nat, p: nat, top: nat)
    requires k <= w && p == Pow2(k) && top == Pow2(w)
    ensures p * (top / p) == top
  {
    var q := Pow2(w - k);
    Pow2Product(k, w - k);
    ModUnique(top, p, q, 0);
  }

  lemma {:induction false} Pow2Product(j: nat, k: nat)
    ensures Pow2(j) * Pow2(k) == Pow2(j + k)
  {
    if j > 0 { Pow2Product(j - 1, k); }
  }

  /** A request that `allocate` gets wrong, wherever the pointer is: 2^64 - 1 bytes with alignment 1.  The
      end of the block wraps to the byte before the pointer, which is not past the end of the buffer. */
  lemma HugeRequestMisleads(ptr: nat, end: nat)
    requires 0 < ptr <= end < WORD
    ensures NextAligned(ptr, 1) == ptr && ptr + (WORD - 1) >= WORD && ptr + (WORD - 1) - WORD == ptr - 1 <= end
  {
    ModUnique(ptr, 1, ptr, 0);
  }

  datatype Block = Block(lo: nat, hi: nat, alignment: nat)

  /** Aligned blocks inside [low, high), each ending before the next begins. */
  ghost predicate Packed(blocks: seq<Block>, low: nat, high: nat) {
    && (forall i :: 0 <= i < |blocks| ==>
          low <= blocks[i].lo <= blocks[i].hi <= high
          && blocks[i].alignment > 0 && blocks[i].lo % blocks[i].alignment == 0)
    && (forall i, j :: 0 <= i < j < |blocks| ==> blocks[i].hi <= blocks[j].lo)
  }

  class Arena {
    var begin: nat      // addresses; 0 is null
    var end: nat
    var ptr: nat
    var capacityBytes: nat
    var ownsMemory: bool
    ghost var blocks: seq<Block>   // handed out since the last reset

    ghost predicate Valid()
      reads this
    {
      && begin <= ptr <= end < WORD
      && Packed(blocks, begin, ptr)
    }

    /** Owning arena; `address` is what the non-throwing operator new returned, possibly null. */
    constructor (capacity: nat, address: nat)
      requires address + capacity < WORD
      ensures Valid() && blocks == [] && begin == ptr == address && ownsMemory
      ensures end == (if address == 0 then 0 else address + capacity) && capacityBytes == capacity
    {
      begin := address;
      end := if address != 0 then address + capacity else 0;
      ptr := address;
      capacityBytes := capacity;
      ownsMemory := true;
      blocks := [];
    }

    /** Arena over the caller's buffer.  The source takes a null one too, and then answers null. */
    constructor FromBuffer(buffer: nat, capacity: nat)
      requires buffer + capacity < WORD
      ensures Valid() && blocks == [] && begin == ptr == buffer && end == buffer + capacity && !ownsMemory
      ensures capacityBytes == capacity
    {
      begin := buffer;
      end := buffer + capacity;
      ptr := buffer;
      capacityBytes := capacity;
      ownsMemory := false;
      blocks := [];
    }

    /** Null, with nothing changed, when there is no memory or the least aligned address plus the size
        passes the end; otherwise that address.  All blocks stay aligned, inside the buffer and
        disjoint (Packed, by Valid).  This is what happens exactly unless the sum wraps past 2^64 to an
        address that passes the comparison with the end, and something changes. */
    method Allocate(bytes: nat, alignment: nat) returns (p: nat)
      requires Valid() && IsPow2(alignment) && alignment < WORD && bytes < WORD
      modifies this`ptr, this`blocks
      ensures var m := NextAligned(old(ptr), alignment);
              if begin != 0 && m + bytes <= end then
                Valid() && p == m && ptr == m + bytes && blocks == old(blocks) + [Block(m, m + bytes, alignment)]
              else if begin != 0 && m + bytes >= WORD && m + bytes - WORD <= end && (m < WORD || bytes != old(ptr)) then
                && p == (if m < WORD then m else 0) && ptr == m + bytes - WORD && blocks == old(blocks)
                && (p != 0 || ptr != old(ptr))
              else
                Valid() && p == 0 && ptr == old(ptr) && blocks == old(blocks)
    {
      if begin == 0 { return 0; }
      ghost var m := NextAligned(ptr, alignment);
      var aligned, last := Candidate(ptr, bytes, alignment);
      if last > end {
        return 0;
      }
      if m + bytes <= end {
        PackMore(blocks, begin, ptr, Block(m, m + bytes, alignment));
        blocks := blocks + [Block(m, m + bytes, alignment)];
      }
      ptr := last;
      return aligned;
    }

    method Reset()
      requires Valid()
      modifies this`ptr, this`blocks
      ensures Valid() && ptr == begin && blocks == []
    {
      ptr := begin;
      blocks := [];
    }

    /** Move assignment: gives back this arena's buffer if it owns one, takes over the other arena's
        memory and leaves it without any; self-assignment changes nothing.  released is the
        buffer passed to operator delete, or null. */
    method MoveAssign(other: Arena) returns (released: nat)
      requires Valid() && other.Valid()
      modifies this, other
      ensures released == if other != this && old(ownsMemory) then old(begin) else 0
      ensures Valid() && other.Valid()
      ensures begin == old(other.begin) && end == old(other.end) && ptr == old(other.ptr)
      ensures capacityBytes == old(other.capacityBytes) && ownsMemory == old(other.ownsMemory)
      ensures blocks == old(other.blocks)
      ensures other != this ==> other.begin == other.end == other.ptr == other.capacityBytes == 0
                                && !other.ownsMemory && other.blocks == []
    {
      released := 0;
      if this != other {
        if ownsMemory && begin != 0 { released := begin; }
        begin, end, ptr := other.begin, other.end, other.ptr;
        capacityBytes, ownsMemory := other.capacityBytes, other.ownsMemory;
        blocks := other.blocks;
        other.begin, other.end, other.ptr := 0, 0, 0;
        other.capacityBytes, other.ownsMemory := 0, false;
        other.blocks := [];
      }
    }
  }

  /** `aligned = align_ptr(ptr_, alignment)` and `aligned + bytes`, either of which may wrap. */
  method Candidate(ptr: nat, bytes: nat, alignment: nat) returns (aligned: nat, last: nat)
    requires ptr < WORD && bytes < WORD && IsPow2(alignment) && alignment < WORD
    ensures var m := NextAligned(ptr, alignment);
            && ptr <= m <= WORD && m % alignment == 0 && aligned == (if m < WORD then m else 0)
            && last == if m + bytes < WORD then m + bytes else m + bytes - WORD
  {
    aligned := AlignUp(ptr, alignment);
    last := AddBytes(aligned, bytes);
  }

  method AlignUp(ptr: nat, alignment: nat) returns (aligned: nat)
    requires ptr < WORD && IsPow2(alignment) && alignment < WORD
    ensures var m := NextAligned(ptr, alignment);
            ptr <= m <= WORD && m % alignment == 0 && aligned == if m < WORD then m else 0
  {
    AlignPtrIsLeast(ptr, alignment);
    aligned := AlignPtr(ptr, alignment);
  }

  method AddBytes(a: nat, b: nat) returns (s: nat)
    requires a < WORD && b < WORD
    ensures s == if a + b < WORD then a + b else a + b - WORD
  {
    if a + b < WORD { ModSmall(a + b, WORD); } else { ModUnique(a + b, WORD, 1, a + b - WORD); }
    s := WrapAdd(a, b);
  }

  lemma PackMore(blocks: seq<Block>, low: nat, ptr: nat, b: Block)
    requires Packed(blocks, low, ptr) && low <= ptr <= b.lo <= b.hi
    requires b.alignment > 0 && b.lo % b.alignment == 0
    ensures Packed(blocks + [b], low, b.hi)
  {
  }
}
