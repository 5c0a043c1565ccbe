/** The fixed-size pool: a free list whose links live in the first bytes of the free blocks.

    Memory is bytes and links are 64-bit little-endian addresses, so a client scribbling over its
    own block really could destroy a link if blocks overlapped or were handed out twice. */
module PoolAllocator {
  import opened Allocation
  import opened Arith
  import opened Bits

  type Byte = x: nat | x < 256

  const NODE := 8   // sizeof(node): one pointer

  function Encode(a: nat, n: nat): (bs: seq<Byte>)
    ensures |bs| == n
  {
    if n == 0 then [] else [a % 256] + Encode(a / 256, n - 1)
  }

  function Decode(bs: seq<Byte>): nat {
    if bs == [] then 0 else bs[0] + 256 * Decode(bs[1..])
  }

  function Pow256(n: nat): nat {
    if n == 0 then 1 else 256 * Pow256(n - 1)
  }

  lemma {:induction false} DecodeEncode(a: nat, n: nat)
    requires a < Pow256(n)
    ensures Decode(Encode(a, n)) == a
  {
    if n > 0 {
      DecodeEncode(a / 256, n - 1);
      assert Encode(a, n)[1..] == Encode(a / 256, n - 1);
    }
  }

  lemma PointerRoundTrip(a: nat)
    requires a < WORD
    ensures Decode(Encode(a, NODE)) == a
  {
    assert Pow256(4) == 0x1_0000_0000 by { assert Pow256(2) == 0x1_0000; }
    assert Pow256(6) == 0x1_0000 * Pow256(4);
    assert Pow256(8) == 0x1_0000 * Pow256(6);
    DecodeEncode(a, NODE);
  }

  /** Different blocks do not overlap, and every block lies inside the storage. */
  lemma BlocksApart(size: nat, count: nat, j: nat, k: nat)
    requires j < count && k < count && j != k
    ensures j * size + size <= k * size || k * size + size <= j * size
    ensures k * size + size <= count * size
  {
    if j < k { MulApart(size, k, j); } else { MulApart(size, j, k); }
    MulApart(size, count, k);
  }

  ghost predicate Distinct(s: seq<nat>) {
    forall i, j :: 0 <= i < j < |s| ==> s[i] != s[j]
  }

  /** A block has to hold a node while it is free. */
  function BlockSize(size: nat): (b: nat)
    ensures b >= size && b >= NODE && (b == size || b == NODE)
  {
    if size < NODE then NODE else size
  }

  /** `fixed_pool(2^61, 8)` asks for 0 bytes. */
  lemma PoolShort(size: nat)
    requires size == 0x2000_0000_0000_0000
    ensures BlockSize(size) == size && 8 * size >= WORD && Bytes(8, size) == 0
  {
    ModUnique(8 * size, WORD, 1, 0);
  }

  class FixedPool {
    const elementSize: nat
    const elementCount: nat
    const base: nat               // the address of storage_
    const storage: array<Byte>
    var freeList: nat             // an address; 0 is the null pointer
    ghost var free: seq<nat>      // the blocks on the free list, first one first

    ghost function Offset(k: nat): nat {
      k * elementSize
    }

    ghost function Address(k: nat): nat {
      base + Offset(k)
    }

    ghost predicate Shape() {
      && elementSize >= NODE && base > 0
      && storage.Length == elementCount * elementSize && base + storage.Length <= WORD
    }

    /** The link that memory b stores in block k. */
    ghost function LinkIn(b: seq<Byte>, k: nat): nat
      requires Shape() && |b| == storage.Length && k < elementCount
    {
      MulApart(elementSize, elementCount, k);
      Decode(b[Offset(k)..Offset(k) + NODE])
    }

    ghost function LinkTo(list: seq<nat>): nat {
      if list == [] then 0 else Address(list[0])
    }

    /** In memory b, the list starting at `link` runs through exactly these blocks and ends. */
    ghost predicate Chain(b: seq<Byte>, link: nat, list: seq<nat>)
      requires Shape() && |b| == storage.Length
      decreases |list|
    {
      && link == LinkTo(list)
      && (list != [] ==> list[0] < elementCount && Chain(b, LinkIn(b, list[0]), list[1..]))
    }

    ghost predicate Valid()
      reads this, storage
    {
      Shape() && Distinct(free) && Chain(storage[..], freeList, free)
    }

    /** Blocks that clients hold. */
    ghost predicate Outstanding(k: nat)
      reads this
    {
      k < elementCount && k !in free
    }

    lemma {:induction false} ChainInRange(b: seq<Byte>, link: nat, list: seq<nat>)
      requires Shape() && |b| == storage.Length && Chain(b, link, list)
      ensures forall i :: 0 <= i < |list| ==> list[i] < elementCount
      decreases |list|
    {
      if list != [] {
        ChainInRange(b, LinkIn(b, list[0]), list[1..]);
        forall i | 0 <= i < |list| ensures list[i] < elementCount {
          if i > 0 { assert list[i] == list[1..][i - 1]; }
        }
      }
    }

    lemma Fits(k: nat)
      requires Shape() && k < elementCount
      ensures Offset(k) + elementSize <= storage.Length
    {
      MulApart(elementSize, elementCount, k);
    }

    /** Objects of at most a block's size, one in each block: no two overlap, and all are inside the storage. */
    lemma ObjectsApart(size: nat, j: nat, k: nat)
      requires Shape() && size <= elementSize && j < elementCount && k < elementCount && j != k
      ensures Address(j) + size <= Address(k) || Address(k) + size <= Address(j)
      ensures base <= Address(k) && Address(k) + size <= base + storage.Length
    {
      BlocksApart(elementSize, elementCount, j, k);
    }

    /** Writes confined to one block leave the links of the others alone. */
    lemma LinkFrame(b: seq<Byte>, c: seq<Byte>, j: nat, k: nat)
      requires Shape() && |b| == |c| == storage.Length && j < elementCount && k < elementCount && j != k
      requires forall i :: 0 <= i < |b| && !(Offset(k) <= i < Offset(k) + elementSize) ==> c[i] == b[i]
      ensures LinkIn(b, j) == LinkIn(c, j)
    {
      Fits(j);
      BlocksApart(elementSize, elementCount, j, k);
      BlocksApart(elementSize, elementCount, k, j);
      assert b[Offset(j)..Offset(j) + NODE] == c[Offset(j)..Offset(j) + NODE];
    }

    /** Hence a chain that avoids the block stays. */
    lemma {:induction false} ChainFrame(b: seq<Byte>, c: seq<Byte>, link: nat, list: seq<nat>, k: nat)
      requires Shape() && |b| == |c| == storage.Length && k < elementCount && k !in list
      requires forall i :: 0 <= i < |b| && !(Offset(k) <= i < Offset(k) + elementSize) ==> c[i] == b[i]
      requires Chain(b, link, list)
      ensures Chain(c, link, list)
      decreases |list|
    {
      if list != [] {
        LinkFrame(b, c, list[0], k);
        ChainFrame(b, c, LinkIn(b, list[0]), list[1..], k);
      }
    }

    /** `n->next = a` for the node at address p, the start of block k. */
    method WriteLink(p: nat, a: nat, ghost k: nat)
      requires Shape() && k < elementCount && p == Address(k) && a < WORD
      modifies storage
      ensures LinkIn(storage[..], k) == a
      ensures forall i :: 0 <= i < storage.Length && !(Offset(k) <= i < Offset(k) + NODE) ==> storage[i] == old(storage[i])
    {
      Fits(k);
      var off := p - base;
      var bytes := Encode(a, NODE);
      for j := 0 to NODE
        invariant forall i :: 0 <= i < j ==> storage[off + i] == bytes[i]
        invariant forall i :: 0 <= i < storage.Length && !(off <= i < off + NODE) ==> storage[i] == old(storage[i])
      {
        storage[off + j] := bytes[j];
      }
      assert storage[off..off + NODE] == bytes;
      PointerRoundTrip(a);
    }

    /** `n->next = free_list_; free_list_ = n;` */
    method Link(p: nat, ghost k: nat)
      requires Valid() && k < elementCount && k !in free && p == Address(k)
      modifies this, storage
      ensures Valid() && free == [k] + old(free)
      ensures forall i :: 0 <= i < storage.Length && !(Offset(k) <= i < Offset(k) + NODE) ==> storage[i] == old(storage[i])
    {
      ghost var was := storage[..];
      assert LinkTo(free) == freeList < WORD by {
        if free != [] { Fits(free[0]); }
      }
      WriteLink(p, freeList, k);
      ChainFrame(was, storage[..], freeList, free, k);
      assert ([k] + free)[1..] == free;
      freeList := p;
      free := [k] + free;
    }

    /** Threads every block onto the free list, so the last block is handed out first.  address is
        where operator new put the bytes it was asked for (none, when count is 0).  Right exactly if the size of all blocks is a word;
        otherwise the storage is shorter than the blocks, and what writing the links then does is
        not followed. */
    constructor (size: nat, count: nat, address: nat)
      requires size < WORD && count < WORD
      requires address > 0 && address + Bytes(count, BlockSize(size)) <= WORD
      ensures elementCount == count && elementSize == BlockSize(size) && fresh(storage) && base == address
      ensures elementSize >= size && elementSize >= 8 && (elementSize == size || elementSize == 8)
      ensures storage.Length == (count * elementSize) % WORD
      ensures Valid() <==> count * elementSize < WORD
      ensures Valid() ==> forall j: nat, k: nat | j < count && k < count && j != k ::
                && (Address(j) + size <= Address(k) || Address(k) + size <= Address(j))
                && address <= Address(k) && Address(k) + size <= address + storage.Length
      ensures Valid() ==>
                && |free| == count && (forall i :: 0 <= i < count ==> free[i] == count - 1 - i)
                && forall k: nat :: !Outstanding(k)
    {
      GrantHoldsIff(count, BlockSize(size));
      elementSize := BlockSize(size);
      elementCount := count;
      base := address;
      storage := new Byte[Bytes(count, BlockSize(size))](_ => 0);
      freeList := 0;
      free := [];
      new;
      if storage.Length == count * elementSize {
        ThreadAll();
        forall j: nat, k: nat | j < count && k < count && j != k
          ensures Address(j) + size <= Address(k) || Address(k) + size <= Address(j)
          ensures address <= Address(k) && Address(k) + size <= address + storage.Length
        {
          ObjectsApart(size, j, k);
        }
      }
    }

    method ThreadAll()
      requires Shape() && freeList == 0 && free == []
      modifies this, storage
      ensures Valid()
      ensures |free| == elementCount && forall i :: 0 <= i < elementCount ==> free[i] == elementCount - 1 - i
      ensures forall k: nat :: !Outstanding(k)
    {
      for i := 0 to elementCount
        invariant Valid()
        invariant |free| == i && forall j :: 0 <= j < i ==> free[j] == i - 1 - j
      {
        Link(base + i * elementSize, i);
      }
      forall k: nat | k < elementCount ensures k in free {
        assert free[elementCount - 1 - k] == k;
      }
    }

    /** Null exactly when every block is outstanding; otherwise the first free block, untouched. */
    method Allocate() returns (p: nat)
      requires Valid()
      modifies this
      ensures Valid()
      ensures p == 0 <==> old(free) == []
      ensures p == 0 ==> free == old(free)
      ensures p != 0 ==>
                && p == Address(old(free)[0]) && free == old(free)[1..]
                && Outstanding(old(free)[0])
    {
      if freeList == 0 {
        return 0;
      }
      p := freeList;
      ghost var k := free[0];
      Fits(k);
      ChainInRange(storage[..], freeList, free);
      var off := p - base;
      freeList := Decode(storage[off..off + NODE]);
      free := free[1..];
    }

    /** Takes back an outstanding block, or nothing; writes only into that block's link. */
    method Deallocate(p: nat, ghost k: nat)
      requires Valid()
      requires p != 0 ==> Outstanding(k) && p == Address(k)
      modifies this, storage
      ensures Valid()
      ensures p == 0 ==> free == old(free) && storage[..] == old(storage[..])
      ensures p != 0 ==> free == [k] + old(free)
      ensures forall i :: 0 <= i < storage.Length && !(p != 0 && Offset(k) <= i < Offset(k) + NODE) ==>
                        storage[i] == old(storage[i])
    {
      if p == 0 { return; }
      Link(p, k);
    }

    /** A client stores any byte anywhere in a block it holds. */
    method ClientWrite(ghost k: nat, i: nat, b: Byte)
      requires Valid() && Outstanding(k) && Offset(k) <= i < Offset(k) + elementSize
      requires i < storage.Length
      modifies storage
      ensures Valid()
      ensures storage[..] == old(storage[..])[i := b]
    {
      ghost var was := storage[..];
      storage[i] := b;
      ChainFrame(was, storage[..], freeList, free, k);
    }

    /** The blocks that clients hold, as a set. */
    ghost function Held(): set<nat>
      reads this
    {
      UpTo(elementCount) - Elements(free)
    }

    /** Free and outstanding blocks partition the pool; allocation has failed us only when all
        blocks are outstanding. */
    lemma Partition()
      requires Valid()
      ensures forall k: nat :: k in Held() <==> Outstanding(k)
      ensures forall k :: k in Elements(free) ==> k < elementCount
      ensures |Held()| + |free| == elementCount
      ensures free == [] <==> Held() == UpTo(elementCount)
    {
      ChainInRange(storage[..], freeList, free);
      ElementsSize(free);
      assert Elements(free) <= UpTo(elementCount);
      assert UpTo(elementCount) == Held() + Elements(free);
      if free != [] { assert free[0] in UpTo(elementCount) && free[0] !in Held(); }
    }
  }

  function Elements(s: seq<nat>): set<nat> {
    set k | k in s
  }

  function UpTo(n: nat): (r: set<nat>)
    ensures forall k: nat :: k in r <==> k < n
    ensures |r| == n
  {
    if n == 0 then {} else UpTo(n - 1) + {n - 1}
  }

  lemma {:induction false} ElementsSize(s: seq<nat>)
    requires Distinct(s)
    ensures |Elements(s)| == |s|
  {
    if s != [] {
      ElementsSize(s[1..]);
      forall j | 0 <= j < |s| - 1 ensures s[1..][j] != s[0] { assert s[1..][j] == s[j + 1]; }
      assert s[0] !in Elements(s[1..]);
      assert s == [s[0]] + s[1..];
      assert Elements(s) == {s[0]} + Elements(s[1..]);
    }
  }
}
