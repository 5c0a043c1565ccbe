/** The chunked double-ended queue. */
module Deque {
  import opened Allocation
  import opened Arith
  import opened Bits
  import opened Storage
  import opened DequeIterator
  import opened DequeLayout

  type Chunk<T> = array<Slot<T>>

  ghost predicate Distinct<T>(cs: seq<Chunk<T>>) {
    forall i, j :: 0 <= i < j < |cs| ==> cs[i] != cs[j]
  }

  lemma SlotsDiffer<T>(cs: seq<Chunk<T>>, ce: nat, p: nat, q: nat)
    requires Distinct(cs) && ce > 0 && p < q && p / ce < |cs| && q / ce < |cs|
    ensures cs[p / ce] != cs[q / ce] || p % ce != q % ce
  {
    var i, j := p / ce, q / ce;
    assert p == ce * i + p % ce && q == ce * j + q % ce;
    if i < j { assert cs[i] != cs[j]; } else if j < i { assert cs[j] != cs[i]; }
  }

  ghost function Members<T>(cs: seq<Chunk<T>>): set<Chunk<T>> {
    set c | c in cs
  }

  lemma MembersMore<T>(cs: seq<Chunk<T>>, c: Chunk<T>)
    ensures Members(cs + [c]) == Members([c] + cs) == Members(cs) + {c}
  {
  }

  lemma MembersInit<T>(cs: seq<Chunk<T>>)
    requires |cs| >= 1 && Distinct(cs)
    ensures Members(cs[..|cs| - 1]) == Members(cs) - {cs[|cs| - 1]}
  {
    assert cs == cs[..|cs| - 1] + [cs[|cs| - 1]];
  }

  lemma MembersTail<T>(cs: seq<Chunk<T>>)
    requires |cs| >= 1 && Distinct(cs)
    ensures Members(cs[1..]) == Members(cs) - {cs[0]}
  {
    assert cs == [cs[0]] + cs[1..];
  }

  /** The addresses of a run of chunks' slots, in order: chunk and offset. */
  ghost function AllHomes<T>(cs: seq<Chunk<T>>, ce: nat): seq<(Chunk<T>, nat)> {
    if cs == [] then [] else seq(ce, k => (cs[0], k)) + AllHomes(cs[1..], ce)
  }

  lemma {:induction false} AllHomesLength<T>(cs: seq<Chunk<T>>, ce: nat)
    ensures |AllHomes(cs, ce)| == ce * |cs|
  {
    if cs != [] {
      AllHomesLength(cs[1..], ce);
      assert ce * |cs| == ce * |cs[1..]| + ce;
    }
  }

  lemma {:induction false} AllHomesAppend<T>(cs: seq<Chunk<T>>, ds: seq<Chunk<T>>, ce: nat)
    ensures AllHomes(cs + ds, ce) == AllHomes(cs, ce) + AllHomes(ds, ce)
  {
    if cs == [] {
      assert cs + ds == ds;
    } else {
      AllHomesAppend(cs[1..], ds, ce);
      assert (cs + ds)[1..] == cs[1..] + ds;
      Reassociate(seq(ce, k => (cs[0], k)), AllHomes(cs[1..], ce), AllHomes(ds, ce));
    }
  }

  /** Slot ce * j + k is offset k of chunk j. */
  lemma {:induction false} HomeAt<T>(cs: seq<Chunk<T>>, ce: nat, j: nat, k: nat)
    requires j < |cs| && k < ce
    ensures ce * j + k < |AllHomes(cs, ce)| && AllHomes(cs, ce)[ce * j + k] == (cs[j], k)
  {
    if j > 0 {
      HomeAt(cs[1..], ce, j - 1, k);
      assert ce * j + k == ce + (ce * (j - 1) + k);
    }
  }

  /** The addresses of the n elements from slot a on. */
  ghost function Homes<T>(cs: seq<Chunk<T>>, ce: nat, a: nat, n: nat): (h: seq<(Chunk<T>, nat)>)
    requires a + n <= ce * |cs|
    ensures |h| == n
  {
    AllHomesLength(cs, ce);
    AllHomes(cs, ce)[a..a + n]
  }

  const ENTRY := 8   // sizeof(T*)

  /** The map of `init_map(n)` has two pointers more than there are chunks.  Their size in bytes is a word
      exactly if n is less than 2^61 - 3 chunks' worth of elements; with more than eight elements to
      a chunk every n is. */
  lemma MapFitsIff(n: nat, ce: nat)
    requires ce > 0
    ensures (n / ce + 3) * ENTRY < WORD <==> n < ce * 0x1FFF_FFFF_FFFF_FFFD
  {
    var limit := 0x1FFF_FFFF_FFFF_FFFD;
    DivMod(n, ce);
    if n / ce < limit {
      MulApart(ce, limit, n / ce);
    } else if n / ce > limit {
      MulApart(ce, n / ce, limit);
    }
  }

  /** With one element to a chunk, n = 2^61 - 3: 2^61 pointers are needed and 0 bytes are asked for. */
  lemma MapShort(n: nat)
    requires n == 0x1FFF_FFFF_FFFF_FFFD
    ensures (n / 1 + 3) * ENTRY >= WORD && Bytes(n / 1 + 3, ENTRY) == 0
  {
    ModUnique(n, 1, n, 0);
    ModUnique((n + 3) * ENTRY, WORD, 1, 0);
  }

  class Deque<T> {
    const trivial: bool                    // is_trivially_copyable
    const ce: nat                          // chunk_elems
    var map_: array<array?<Slot<T>>>       // map_size_ is its length
    var first: Chunk<T>                    // start_.first_
    var start: Pos                         // start_.node_ and start_.cur_
    var last: Chunk<T>                     // finish_.first_
    var finish: Pos                        // finish_.node_ and finish_.cur_
    ghost var chunks: seq<Chunk<T>>        // the chunks in the map window
    ghost var owned: set<Chunk<T>>         // allocated and not yet freed
    ghost var issued: set<Chunk<T>>        // ever allocated
    ghost var freed: map<Chunk<T>, seq<Slot<T>>>     // the chunks freed, and what each held then
    ghost var maps: set<array<array?<Slot<T>>>>      // the map arrays ever allocated
    ghost var freedMaps: set<array<array?<Slot<T>>>>
    ghost var slots: seq<seq<Slot<T>>>     // the objects in the window's chunks
    ghost var contents: seq<T>

    /** The chunk's memory holds exactly these objects. */
    ghost predicate Stores(c: Chunk<T>, objects: seq<Slot<T>>)
      reads c
    {
      c.Length == ce && Shows(trivial, c[..], objects)
    }

    /** The window of the map, the cursors and the chunks. */
    ghost predicate Shape()
      reads `map_, `first, `start, `last, `finish, `chunks, `slots, map_, chunks
    {
      && ce > 0 && |chunks| >= 1 && |slots| == |chunks|
      && 0 <= start.node && finish.node == start.node + |chunks| - 1 < map_.Length
      && (forall m :: start.node <= m <= finish.node ==> map_[m] == chunks[m - start.node])
      && (forall i :: 0 <= i < |chunks| ==> Stores(chunks[i], slots[i]))
      && Distinct(chunks)
      && first == chunks[0] && last == chunks[|chunks| - 1]
      && Normal(start, ce) && Normal(finish, ce)
    }

    /** The allocated chunks are precisely those in the window. */
    ghost predicate ChunksOwned()
      reads `owned, `issued, `freed, `chunks
    {
      owned == Members(chunks) && Settled()
    }

    /** And the map arrays: all but the current one were freed. */
    ghost predicate Owned()
      reads `owned, `issued, `freed, `chunks, `map_, `maps, `freedMaps
    {
      ChunksOwned() && MapsSettled()
    }

    ghost predicate MapsSettled()
      reads `map_, `maps, `freedMaps
    {
      maps == freedMaps + {map_} && map_ !in freedMaps
    }

    /** The accounts only grow. */
    twostate predicate Kept()
      reads `issued, `maps
    {
      old(issued) <= issued && old(maps) <= maps
    }

    /** The account of all chunks: each is either still owned or was freed, with nothing left in it that
        needed a destructor. */
    ghost predicate Settled()
      reads `owned, `issued, `freed
    {
      && owned !! freed.Keys && issued == owned + freed.Keys
      && forall c :: c in freed ==> Vacant(trivial, freed[c])
    }

    ghost predicate Valid()
      reads this, map_, chunks
    {
      Shape() && Owned() && Laid(slots, ce, start.off, finish.off, contents)
    }

    /** Every element's address. */
    ghost function Addresses(): seq<(Chunk<T>, nat)>
      requires Valid()
      reads this, map_, chunks
    {
      LaidCount(slots, ce, start.off, finish.off, contents);
      Homes(chunks, ce, start.off, |contents|)
    }

    /** What the deque may write next is what it could write before, or new. */
    twostate predicate Framed(oldMap: array<array?<Slot<T>>>, oldChunks: seq<Chunk<T>>)
      reads this
    {
      && (map_ == oldMap || fresh(map_)) && forall i :: 0 <= i < |chunks| ==> chunks[i] in oldChunks || fresh(chunks[i])
    }

    // -- initialisation ----------------------------------------------------------------

    /** The default constructor. */
    constructor (trivial: bool, ce: nat)
      requires ce >= 1
      ensures Valid() && contents == [] && this.ce == ce && this.trivial == trivial && fresh(map_) && fresh(chunks)
    {
      this.trivial, this.ce := trivial, ce;
      map_ := new array?<Slot<T>>[0];
      var none := new Slot<T>[0];
      first, last, start, finish := none, none, Pos(0, 0), Pos(0, 0);
      chunks, owned, slots, contents := [], {}, [], [];
      issued, freed, maps, freedMaps := {}, map[], {}, {};
      new;
      InitMap(0);
      LaidEmpty<T>(ce);
      assert slots == [Raws(ce)];
    }

    /** `deque(count, value)`.  Right exactly if the map for that many chunks has a size in bytes that is a
        word; otherwise it is shorter than the window, or there is no window, and what the
        source then does is not followed. */
    constructor Filled(trivial: bool, ce: nat, count: nat, v: T)
      requires ce >= 1 && count < WORD
      ensures this.ce == ce && this.trivial == trivial
      ensures Valid() <==> count < ce * 0x1FFF_FFFF_FFFF_FFFD
      ensures count < 0x1FFF_FFFF_FFFF_FFFD || ce >= 9 ==> Valid()
      ensures Valid() ==> contents == Repeat(count, v) && fresh(map_) && fresh(chunks)
    {
      this.trivial, this.ce := trivial, ce;
      map_ := new array?<Slot<T>>[0];
      var none := new Slot<T>[0];
      first, last, start, finish := none, none, Pos(0, 0), Pos(0, 0);
      chunks, owned, slots, contents := [], {}, [], [];
      issued, freed, maps, freedMaps := {}, map[], {}, {};
      new;
      MapFitsIff(count, ce);
      if (count / ce + 3) * ENTRY < WORD {
        InitMap(count);
        Populate(count, v);
      }
    }

    method Populate(count: nat, v: T)
      requires Shape() && Owned() && contents == []
      requires start.off == 0 && count == ce * (|chunks| - 1) + finish.off
      requires forall i :: 0 <= i < |slots| ==> slots[i] == Raws(ce)
      modifies chunks, this`slots, this`contents
      ensures Valid() && contents == Repeat(count, v)
    {
      contents := Repeat(count, v);
      FillingStart(slots, ce);
      assert Repeat(0, v) == [];
      ValueFill(v);
      FillingDone(slots, ce, finish.off, Repeat(count, v));
    }

    /** Chunks for n elements, centred in the map, with raw storage. */
    method InitMap(n: nat)
      requires ce >= 1 && owned == {} && Settled() && maps == freedMaps == {} && contents == []
      modifies this
      ensures Shape() && Owned() && fresh(map_) && fresh(chunks) && contents == []
      ensures map_.Length == (if |chunks| + 2 > 8 then |chunks| + 2 else 8)
      ensures Central(map_.Length, start.node, |chunks|, 0, 0)
      ensures start.off == 0 && n == ce * (|chunks| - 1) + finish.off
      ensures forall i :: 0 <= i < |slots| ==> slots[i] == Raws(ce)
    {
      DivMod(n, ce);
      AllocNodes(n / ce + 1, n % ce);
    }

    method AllocNodes(numNodes: nat, lastOff: nat)
      requires ce >= 1 && owned == {} && Settled() && maps == freedMaps == {} && contents == [] && numNodes >= 1 && lastOff < ce
      modifies this
      ensures Shape() && Owned() && fresh(map_) && fresh(chunks) && contents == []
      ensures map_.Length == (if |chunks| + 2 > 8 then |chunks| + 2 else 8)
      ensures Central(map_.Length, start.node, |chunks|, 0, 0)
      ensures |chunks| == numNodes && start.off == 0 && finish.off == lastOff
      ensures forall i :: 0 <= i < |slots| ==> slots[i] == Raws(ce)
    {
      var size := if 8 >= numNodes + 2 then 8 else numNodes + 2;
      var a := new array?<Slot<T>>[size](_ => null);
      var nstart := (size - numNodes) / 2;
      FillMap(a, nstart, numNodes);
      OpenWindow(a, nstart, numNodes, lastOff);
    }

    /** `start_` and `finish_` on the first and the last of the fresh chunks. */
    method OpenWindow(a: array<array?<Slot<T>>>, nstart: nat, numNodes: nat, lastOff: nat)
      requires ce >= 1 && lastOff < ce && numNodes >= 1 && maps == freedMaps == {}
      requires Prepared(a, nstart) && |chunks| == numNodes
      modifies this`maps, this`map_, this`start, this`finish, this`first, this`last
      ensures Shape() && Owned() && map_ == a
      ensures start == Pos(nstart, 0) && finish == Pos(nstart + numNodes - 1, lastOff)
    {
      maps := {a};
      start, finish := Pos(0, 0), Pos(0, lastOff);
      SetWindow(a, nstart, numNodes);
    }

    method FillMap(a: array<array?<Slot<T>>>, nstart: nat, numNodes: nat)
      requires owned == {} && Settled() && nstart + numNodes <= a.Length
      modifies a, this`owned, this`issued, this`chunks, this`slots
      ensures Prepared(a, nstart) && |chunks| == numNodes && fresh(chunks)
    {
      chunks, slots := [], [];
      for i := 0 to numNodes
        invariant fresh(chunks) && Prepared(a, nstart) && |chunks| == i
      {
        AllocNode(a, nstart + i, nstart);
      }
    }

    /** The chunks allocated so far, in map entries from m0 on. */
    ghost predicate Prepared(a: array<array?<Slot<T>>>, m0: nat)
      reads this, a, chunks
    {
      && |slots| == |chunks| && m0 + |chunks| <= a.Length && Distinct(chunks) && ChunksOwned()
      && (forall m :: m0 <= m < m0 + |chunks| ==> a[m] == chunks[m - m0])
      && (forall k :: 0 <= k < |chunks| ==> chunks[k].Length == ce && chunks[k][..] == slots[k] == Raws(ce))
    }

    /** `*cur = alloc_chunk();` */
    method AllocNode(a: array<array?<Slot<T>>>, m: nat, ghost m0: nat)
      requires m < a.Length && Prepared(a, m0) && m == m0 + |chunks|
      modifies a, this`owned, this`issued, this`chunks, this`slots
      ensures Prepared(a, m0) && |chunks| == |old(chunks)| + 1
      ensures old(chunks) <= chunks && fresh(chunks[|chunks| - 1])
    {
      var c := AllocChunk();
      a[m] := c;
      chunks, slots := chunks + [c], slots + [Raws(ce)];
    }

    /** `for (p = *node; p < end; ++p) construct(p, value);` for the j-th chunk of the window. */
    method FillChunk(c: Chunk<T>, end: nat, v: T, ghost j: nat)
      requires Shape() && j < |chunks| && chunks[j] == c && end <= ce
      requires Filling(slots, ce, Repeat(ce * j, v))
      modifies c, this`slots
      ensures Shape() && Filling(slots, ce, Repeat(ce * j + end, v))
    {
      for k := 0 to end
        invariant Shape() && Filling(slots, ce, Repeat(ce * j + k, v))
      {
        FillSlot(c, k, v, j);
      }
    }

    method FillSlot(c: Chunk<T>, k: nat, v: T, ghost j: nat)
      requires Shape() && j < |chunks| && chunks[j] == c && k < ce
      requires Filling(slots, ce, Repeat(ce * j + k, v))
      modifies c, this`slots
      ensures Shape() && Filling(slots, ce, Repeat(ce * j + k + 1, v))
    {
      FillingStep(slots, ce, j, k, Repeat(ce * j + k, v), v);
      RepeatMore(ce * j + k, v);
      ConstructAt(c, k, v, j);
    }

    method ValueFill(v: T)
      requires Shape() && Filling(slots, ce, Repeat(0, v))
      modifies chunks, this`slots
      ensures Shape() && Filling(slots, ce, Repeat(ce * (|chunks| - 1) + finish.off, v))
    {
      var node := start.node;
      ghost var j := 0;
      while node < finish.node
        invariant node == start.node + j <= finish.node && Shape()
        invariant Filling(slots, ce, Repeat(ce * j, v))
      {
        FillNode(node, v, j);
        node, j := node + 1, j + 1;
      }
      FillChunk(last, finish.off, v, j);
    }

    method FillNode(node: nat, v: T, ghost j: nat)
      requires Shape() && node == start.node + j < finish.node && Filling(slots, ce, Repeat(ce * j, v))
      modifies chunks, this`slots
      ensures Shape() && Filling(slots, ce, Repeat(ce * (j + 1), v))
    {
      FillChunk(map_[node], ce, v, j);
      assert ce * (j + 1) == ce * j + ce;
    }

    /** The copy constructor: the two deques' cursors need not be at the same offset. */
    constructor CopyOf(rhs: Deque<T>)
      requires rhs.Valid()
      ensures Valid() && contents == rhs.contents && ce == rhs.ce && trivial == rhs.trivial
      ensures fresh(map_) && fresh(chunks)
    {
      var n := rhs.Size();
      trivial, ce := rhs.trivial, rhs.ce;
      map_ := new array?<Slot<T>>[0];
      var none := new Slot<T>[0];
      first, last, start, finish := none, none, Pos(0, 0), Pos(0, 0);
      chunks, owned, slots, contents := [], {}, [], [];
      issued, freed, maps, freedMaps := {}, map[], {}, {};
      new;
      InitCopy(rhs, n);
    }

    method InitCopy(rhs: Deque<T>, n: nat)
      requires rhs != this && rhs.Valid() && rhs.ce == ce && n == |rhs.contents|
      requires owned == {} && Settled() && maps == freedMaps == {} && contents == []
      modifies this
      ensures Valid() && contents == old(rhs.contents) == rhs.contents && fresh(map_) && fresh(chunks)
    {
      InitBeside(rhs, n);
      CopyFrom(rhs);
    }

    method InitBeside(ghost rhs: Deque<T>, n: nat)
      requires rhs != this && rhs.Valid() && rhs.ce == ce && n == |rhs.contents|
      requires owned == {} && Settled() && maps == freedMaps == {} && contents == []
      modifies this
      ensures rhs.Valid() && rhs.contents == old(rhs.contents) && Apart(rhs)
      ensures Shape() && Owned() && fresh(map_) && fresh(chunks)
      ensures start.off == 0 && n == ce * (|chunks| - 1) + finish.off
      ensures forall i :: 0 <= i < |slots| ==> slots[i] == Raws(ce)
    {
      InitMap(n);
    }

    /** `for (i = 0; i < n; ++i, ++src, ++dst) construct(dst.cur_, *src);` */
    method CopyFrom(rhs: Deque<T>)
      requires rhs.Valid() && Owned() && Shape() && Apart(rhs) && start.off == 0
      requires |rhs.contents| == ce * (|chunks| - 1) + finish.off
      requires forall i :: 0 <= i < |slots| ==> slots[i] == Raws(ce)
      modifies chunks, this`slots, this`contents
      ensures Valid() && contents == rhs.contents
    {
      contents := rhs.contents;
      FillingStart(slots, ce);
      CopyEach(rhs);
      FillingDone(slots, ce, finish.off, rhs.contents);
    }

    method CopyEach(rhs: Deque<T>)
      requires Copying(rhs, rhs.start, start, 0)
      modifies chunks, this`slots
      ensures Shape() && Filling(slots, ce, rhs.contents)
    {
      var n := rhs.Size();
      var src, dst := rhs.start, start;
      var i := 0;
      while i < n
        invariant 0 <= i <= n && Copying(rhs, src, dst, i)
      {
        CopyNext(rhs, src, dst, i);
        src, dst, i := Next(src, ce), Next(dst, ce), i + 1;
      }
      assert rhs.contents[..n] == rhs.contents;
    }

    /** rhs shares no storage with this deque. */
    ghost predicate Apart(rhs: Deque<T>)
      reads `chunks, rhs`chunks
    {
      rhs != this && rhs.ce == ce && forall i :: 0 <= i < |chunks| ==> chunks[i] !in rhs.chunks
    }

    /** The first i elements of rhs have been copied; src and dst are at the i-th element of each. */
    ghost predicate Copying(rhs: Deque<T>, src: Pos, dst: Pos, i: nat)
      reads this, map_, chunks, rhs, rhs.map_, rhs.chunks
    {
      && Shape() && Apart(rhs) && rhs.Valid() && start.off == 0
      && i <= |rhs.contents| == ce * (|chunks| - 1) + finish.off
      && Normal(src, ce) && Linear(src, ce) == Linear(rhs.start, ce) + i
      && Normal(dst, ce) && Linear(dst, ce) == Linear(start, ce) + i
      && Filling(slots, ce, rhs.contents[..i])
    }

    method CopyNext(rhs: Deque<T>, src: Pos, dst: Pos, i: nat)
      requires Copying(rhs, src, dst, i) && i < |rhs.contents|
      modifies chunks, this`slots
      ensures Copying(rhs, Next(src, ce), Next(dst, ce), i + 1)
    {
      NextPrevExact(src, ce);
      NextPrevExact(dst, ce);
      assert rhs.contents[..i] + [rhs.contents[i]] == rhs.contents[..i + 1];
      var v := rhs.Read(src, i);
      ConstructBeside(rhs, dst, v, rhs.contents[..i]);
    }

    method ConstructBeside(ghost rhs: Deque<T>, dst: Pos, v: T, ghost s: seq<T>)
      requires Apart(rhs) && rhs.Valid()
      requires Shape() && start.off == 0 && Filling(slots, ce, s) && |s| < ce * (|chunks| - 1) + finish.off
      requires Normal(dst, ce) && Linear(dst, ce) == Linear(start, ce) + |s|
      modifies chunks, this`slots
      ensures Apart(rhs) && rhs.Valid() && rhs.contents == old(rhs.contents) && rhs.start == old(rhs.start)
      ensures Shape() && Filling(slots, ce, s + [v])
    {
      ConstructNext(dst, v, s);
    }

    /** `construct(dst.cur_, v)` behind the elements s constructed so far. */
    method ConstructNext(dst: Pos, v: T, ghost s: seq<T>)
      requires Shape() && start.off == 0 && Filling(slots, ce, s) && |s| < ce * (|chunks| - 1) + finish.off
      requires Normal(dst, ce) && Linear(dst, ce) == Linear(start, ce) + |s|
      modifies chunks, this`slots
      ensures Shape() && Filling(slots, ce, s + [v])
    {
      FillPosition(dst, |s|);
      ghost var j := dst.node - start.node;
      FillingStep(slots, ce, j, dst.off, s, v);
      ConstructAt(map_[dst.node], dst.off, v, j);
    }

    lemma FillPosition(dst: Pos, i: nat)
      requires ce > 0 && start.off == 0 && |chunks| >= 1 && i < ce * (|chunks| - 1) + finish.off && finish.off < ce
      requires Normal(dst, ce) && Linear(dst, ce) == Linear(start, ce) + i
      ensures 0 <= dst.node - start.node < |chunks|
      ensures i == ce * (dst.node - start.node) + dst.off
    {
      var j := dst.node - start.node;
      assert ce * j == ce * dst.node - ce * start.node;
      if j < 0 { MulApart(ce, 0, j); }
      if j >= |chunks| { MulApart(ce, j, |chunks| - 1); }
    }

    // -- chunks ------------------------------------------------------------------------

    method AllocChunk() returns (c: Chunk<T>)
      requires Settled()
      modifies this`owned, this`issued
      ensures Kept()
      ensures fresh(c) && c.Length == ce && c[..] == Raws(ce)
      ensures owned == old(owned) + {c} && Settled()
    {
      c := new Slot<T>[ce](_ => Raw);
      owned := owned + {c};
      issued := issued + {c};
    }

    /** A chunk goes back to the heap once, and only when every object in it has been destroyed. */
    method FreeChunk(c: Chunk<T>)
      requires c in owned && Vacant(trivial, c[..]) && Settled()
      modifies this`owned, this`freed
      ensures owned == old(owned) - {c} && Settled()
      ensures c !in old(freed) && freed == old(freed)[c := c[..]]
    {
      owned := owned - {c};
      freed := freed[c := c[..]];
    }

    /** `construct` in slot k of the j-th chunk of the window. */
    method ConstructAt(c: Chunk<T>, k: nat, v: T, ghost j: nat)
      requires Shape() && j < |chunks| && chunks[j] == c && k < ce && slots[j][k] == Raw
      modifies c, this`slots
      ensures Shape() && slots == old(slots)[j := old(slots)[j][k := Live(v)]]
    {
      Construct(trivial, c, k, v);
      slots := slots[j := slots[j][k := Live(v)]];
    }

    /** `destroy` of slot k of the j-th chunk of the window; skipped for trivial types. */
    method DestroyAt(c: Chunk<T>, k: nat, ghost j: nat)
      requires Shape() && j < |chunks| && chunks[j] == c && k < ce && slots[j][k].Live?
      modifies c, this`slots
      ensures Shape() && slots == old(slots)[j := old(slots)[j][k := Raw]]
    {
      Destroy(trivial, c, k);
      slots := slots[j := slots[j][k := Raw]];
    }

    // -- the map -----------------------------------------------------------------------

    /** `std::copy` of map entries towards lower addresses. */
    static method CopyDown(a: array<array?<Slot<T>>>, from: nat, n: nat, to: nat)
      requires to < from && from + n <= a.Length
      modifies a
      ensures forall m :: to <= m < to + n ==> a[m] == old(a[..])[m - to + from]
    {
      for i := 0 to n
        invariant forall m :: to <= m < to + i ==> a[m] == old(a[..])[m - to + from]
        invariant forall m :: from + i <= m < a.Length ==> a[m] == old(a[..])[m]
      {
        a[to + i] := a[from + i];
      }
    }

    /** `std::copy_backward` of map entries towards higher addresses. */
    static method CopyUp(a: array<array?<Slot<T>>>, from: nat, n: nat, to: nat)
      requires from < to && to + n <= a.Length
      modifies a
      ensures forall m :: to <= m < to + n ==> a[m] == old(a[..])[m - to + from]
    {
      for i := n downto 0
        invariant forall m :: to + i <= m < to + n ==> a[m] == old(a[..])[m - to + from]
        invariant forall m :: 0 <= m < from + i ==> a[m] == old(a[..])[m]
      {
        a[to + i] := a[from + i];
      }
    }

    /** Apart from `front` and `back` reserved entries, a window of num entries has as many free entries
        before it as after it, or one fewer. */
    static predicate Central(mapSize: nat, start: int, num: nat, front: nat, back: nat) {
      && start >= front && start + num + back <= mapSize
      && 0 <= (mapSize - start - num - back) - (start - front) <= 1
    }

    /** In other words: k free entries before it, and k or k + 1 after it. */
    static lemma CentralIff(num: nat, front: nat, back: nat, k: nat, j: nat)
      ensures Central(front + k + num + j + back, front + k, num, front, back) <==> j == k || j == k + 1
    {
    }

    /** The map entry where a re-centred window starts. */
    static function Centred(mapSize: nat, oldNum: nat, nodesToAdd: nat, addAtFront: bool): (m: nat)
      requires oldNum + nodesToAdd <= mapSize
      ensures Central(mapSize, m, oldNum, if addAtFront then nodesToAdd else 0, if addAtFront then 0 else nodesToAdd)
    {
      (mapSize - (oldNum + nodesToAdd)) / 2 + if addAtFront then nodesToAdd else 0
    }

    /** In a map more than twice as large as needed, a full front shifts up and a full back down. */
    static lemma CentredMoves(mapSize: nat, oldNum: nat, nodesToAdd: nat, addAtFront: bool, node: nat)
      requires nodesToAdd >= 1 && mapSize > 2 * (oldNum + nodesToAdd)
      requires if addAtFront then node < nodesToAdd else node + oldNum + nodesToAdd > mapSize
      ensures var m := Centred(mapSize, oldNum, nodesToAdd, addAtFront);
              if addAtFront then node < m else m < node
    {
    }

    /** The window's chunks have been copied to `to` in map a. */
    ghost predicate Copied(a: array<array?<Slot<T>>>, to: nat)
      reads this, a
    {
      to + |chunks| <= a.Length && forall m :: to <= m < to + |chunks| ==> a[m] == chunks[m - to]
    }

    method ShiftWindow(to: nat, n: nat)
      requires Shape() && n == |chunks| && to + n <= map_.Length && to != start.node
      modifies map_
      ensures Copied(map_, to)
    {
      if to < start.node {
        CopyDown(map_, start.node, n, to);
      } else {
        CopyUp(map_, start.node, n, to);
      }
    }

    /** `free_map`; a map goes back to the heap once.  next is the one that replaces it. */
    method FreeMap(m: array<array?<Slot<T>>>, ghost next: array<array?<Slot<T>>>)
      requires m in maps && m !in freedMaps
      modifies this`maps, this`freedMaps
      ensures maps == old(maps) + {next} && freedMaps == old(freedMaps) + {m}
    {
      maps, freedMaps := maps + {next}, freedMaps + {m};
    }

    /** `alloc_map` and `std::copy` of the window into it. */
    method CopyWindow(size: nat, to: nat, n: nat) returns (newMap: array<array?<Slot<T>>>)
      requires Shape() && n == |chunks| && to + n <= size
      ensures fresh(newMap) && newMap.Length == size && Copied(newMap, to)
    {
      newMap := new array?<Slot<T>>[size];
      forall m | to <= m < to + n { newMap[m] := map_[m - to + start.node]; }
    }

    /** `start_.set_node(m); finish_.set_node(m + n - 1);` on a map that holds the window there. */
    method SetWindow(a: array<array?<Slot<T>>>, m: nat, n: nat)
      requires ce > 0 && n == |chunks| == |slots| >= 1 && Copied(a, m)
      requires forall i :: 0 <= i < |chunks| ==> Stores(chunks[i], slots[i])
      requires Distinct(chunks)
      requires Normal(start, ce) && Normal(finish, ce)
      modifies this`map_, this`start, this`finish, this`first, this`last
      ensures Shape() && map_ == a
      ensures start == Pos(m, old(start.off)) && finish == Pos(m + n - 1, old(finish.off))
    {
      map_ := a;
      start := start.(node := m);
      finish := finish.(node := m + n - 1);
      first := a[m];
      last := a[m + n - 1];
    }

    /** The branch that shifts the entries inside the map. */
    method Recentre(oldNum: nat, nodesToAdd: nat, addAtFront: bool)
      requires Shape() && MapsSettled() && oldNum == |chunks| && nodesToAdd >= 1
      requires map_.Length > 2 * (oldNum + nodesToAdd)
      requires if addAtFront then start.node < nodesToAdd else start.node + oldNum + nodesToAdd > map_.Length
      modifies this`map_, this`start, this`finish, this`first, this`last, map_
      ensures Shape() && MapsSettled() && Kept() && map_ == old(map_)
      ensures start.off == old(start.off) && finish.off == old(finish.off)
      ensures Central(map_.Length, start.node, |chunks|, if addAtFront then nodesToAdd else 0,
                      if addAtFront then 0 else nodesToAdd)
    {
      var newStart := Centred(map_.Length, oldNum, nodesToAdd, addAtFront);
      CentredMoves(map_.Length, oldNum, nodesToAdd, addAtFront, start.node);
      ShiftWindow(newStart, oldNum);
      SetWindow(map_, newStart, oldNum);
    }

    /** The branch that copies the entries into a larger map. */
    method GrowMap(oldNum: nat, nodesToAdd: nat, addAtFront: bool)
      requires Shape() && MapsSettled() && oldNum == |chunks| && nodesToAdd >= 1
      modifies this`map_, this`maps, this`freedMaps, this`start, this`finish, this`first, this`last
      ensures Shape() && MapsSettled() && Kept() && fresh(map_)
      ensures map_.Length ==
              old(map_.Length) + (if old(map_.Length) >= nodesToAdd then old(map_.Length) else nodesToAdd) + 2
      ensures start.off == old(start.off) && finish.off == old(finish.off)
      ensures Central(map_.Length, start.node, |chunks|, if addAtFront then nodesToAdd else 0,
                      if addAtFront then 0 else nodesToAdd)
    {
      var newSize := map_.Length + (if map_.Length >= nodesToAdd then map_.Length else nodesToAdd) + 2;
      var newStart := Centred(newSize, oldNum, nodesToAdd, addAtFront);
      var newMap := CopyWindow(newSize, newStart, oldNum);
      FreeMap(map_, newMap);
      SetWindow(newMap, newStart, oldNum);
    }

    /** Re-centres the window, in place exactly if at least half of the map stays free and otherwise
        in a map at least twice as large, leaving nodesToAdd entries free at the requested end.
        Chunks, their order and their contents do not move. */
    method ReallocateMap(nodesToAdd: nat, addAtFront: bool)
      requires Shape() && MapsSettled() && nodesToAdd >= 1
      requires if addAtFront then start.node < nodesToAdd else map_.Length - finish.node < nodesToAdd + 1
      modifies this`map_, this`maps, this`freedMaps, this`start, this`finish, this`first, this`last, map_
      ensures Shape() && MapsSettled() && Kept()
      ensures if old(map_.Length) > 2 * (|chunks| + nodesToAdd) then map_ == old(map_)
              else fresh(map_) && map_.Length >= 2 * old(map_.Length) + 2
      ensures start.off == old(start.off) && finish.off == old(finish.off)
      ensures Central(map_.Length, start.node, |chunks|, if addAtFront then nodesToAdd else 0,
                      if addAtFront then 0 else nodesToAdd)
    {
      var oldNum := finish.node - start.node + 1;
      if map_.Length > 2 * (oldNum + nodesToAdd) {
        Recentre(oldNum, nodesToAdd, addAtFront);
      } else {
        GrowMap(oldNum, nodesToAdd, addAtFront);
      }
    }

    method ReserveMapAtBack()
      requires Shape() && MapsSettled()
      modifies this`map_, this`maps, this`freedMaps, this`start, this`finish, this`first, this`last, map_
      ensures Shape() && MapsSettled() && Kept() && (map_ == old(map_) || fresh(map_))
      ensures start.off == old(start.off) && finish.off == old(finish.off)
      ensures finish.node + 1 < map_.Length
      ensures old(finish.node) + 1 < old(map_.Length) ==> map_ == old(map_) && start == old(start)
    {
      if 1 + 1 > map_.Length - finish.node {
        ReallocateMap(1, false);
      }
    }

    method ReserveMapAtFront()
      requires Shape() && MapsSettled()
      modifies this`map_, this`maps, this`freedMaps, this`start, this`finish, this`first, this`last, map_
      ensures Shape() && MapsSettled() && Kept() && (map_ == old(map_) || fresh(map_))
      ensures start.off == old(start.off) && finish.off == old(finish.off)
      ensures start.node >= 1
      ensures old(start.node) >= 1 ==> map_ == old(map_) && start == old(start)
    {
      if 1 > start.node {
        ReallocateMap(1, true);
      }
    }

    // -- pushes and pops ---------------------------------------------------------------

    /** `*(finish_.node_ + 1) = alloc_chunk();` */
    method InstallBack() returns (c: Chunk<T>)
      requires Shape() && Settled() && finish.node + 1 < map_.Length
      modifies map_, this`owned, this`issued
      ensures Kept()
      ensures Shape() && fresh(c) && c.Length == ce && c[..] == Raws(ce)
      ensures map_[finish.node + 1] == c && owned == old(owned) + {c} && Settled()
    {
      c := AllocChunk();
      map_[finish.node + 1] := c;
    }

    /** `finish_.set_node(finish_.node_ + 1); finish_.cur_ = finish_.first_;` */
    method AttachBack(c: Chunk<T>)
      requires Shape() && finish.node + 1 < map_.Length && map_[finish.node + 1] == c
      requires c !in chunks && c.Length == ce && c[..] == Raws(ce)
      requires owned == Members(chunks) + {c} && Settled()
      modifies this`chunks, this`slots, this`finish, this`last
      ensures Shape() && chunks == old(chunks) + [c] && slots == old(slots) + [Raws(ce)]
      ensures finish == Pos(old(finish.node) + 1, 0) && ChunksOwned()
    {
      MembersMore(chunks, c);
      finish := Pos(finish.node + 1, 0);
      last := c;
      chunks, slots := chunks + [c], slots + [Raws(ce)];
    }

    method PushBackAux(v: T)
      requires Shape() && Owned() && finish.off == ce - 1 && slots[|slots| - 1][ce - 1] == Raw
      modifies this, map_, last
      ensures Kept()
      ensures Shape() && Owned() && (map_ == old(map_) || fresh(map_)) && contents == old(contents)
      ensures start.off == old(start.off) && finish.off == 0
      ensures |chunks| == |old(chunks)| + 1 && old(chunks) <= chunks && fresh(last)
      ensures var n := |old(slots)| - 1;
              slots == old(slots)[n := old(slots)[n][ce - 1 := Live(v)]] + [Raws(ce)]
    {
      ReserveMapAtBack();
      GrowBack(v);
    }

    method GrowBack(v: T)
      requires Shape() && Owned() && finish.off == ce - 1 && slots[|slots| - 1][ce - 1] == Raw
      requires finish.node + 1 < map_.Length
      modifies map_, last, this`owned, this`issued, this`chunks, this`slots, this`finish, this`last
      ensures Kept()
      ensures Shape() && Owned() && finish.off == 0
      ensures |chunks| == |old(chunks)| + 1 && old(chunks) <= chunks && fresh(last)
      ensures var n := |old(slots)| - 1;
              slots == old(slots)[n := old(slots)[n][ce - 1 := Live(v)]] + [Raws(ce)]
    {
      var c := InstallBack();
      FillLast(c, v);
      AttachBack(c);
    }

    /** `construct(finish_.cur_, v)` while the new chunk c is in the map but not in the window yet. */
    method FillLast(ghost c: Chunk<T>, v: T)
      requires Shape() && slots[|slots| - 1][finish.off] == Raw
      requires c !in chunks && c[..] == Raws(ce)
      modifies last, this`slots
      ensures Shape() && c[..] == Raws(ce)
      ensures var n := |old(slots)| - 1; slots == old(slots)[n := old(slots)[n][finish.off := Live(v)]]
    {
      ConstructAt(last, finish.off, v, |chunks| - 1);
    }

    /** `*(start_.node_ - 1) = alloc_chunk();` */
    method InstallFront() returns (c: Chunk<T>)
      requires Shape() && Settled() && start.node >= 1
      modifies map_, this`owned, this`issued
      ensures Kept()
      ensures Shape() && fresh(c) && c.Length == ce && c[..] == Raws(ce)
      ensures map_[start.node - 1] == c && owned == old(owned) + {c} && Settled()
    {
      c := AllocChunk();
      map_[start.node - 1] := c;
    }

    /** `start_.set_node(start_.node_ - 1); start_.cur_ = start_.last_ - 1;` */
    method AttachFront(c: Chunk<T>)
      requires Shape() && start.node >= 1 && map_[start.node - 1] == c
      requires c !in chunks && c.Length == ce && c[..] == Raws(ce)
      requires owned == Members(chunks) + {c} && Settled()
      modifies this`chunks, this`slots, this`start, this`first
      ensures Shape() && chunks == [c] + old(chunks) && slots == [Raws(ce)] + old(slots)
      ensures start == Pos(old(start.node) - 1, ce - 1) && ChunksOwned()
    {
      MembersMore(chunks, c);
      start := Pos(start.node - 1, ce - 1);
      first := c;
      chunks, slots := [c] + chunks, [Raws(ce)] + slots;
    }

    method PushFrontAux(v: T)
      requires Shape() && Owned() && start.off == 0
      modifies this, map_
      ensures Kept()
      ensures Shape() && Owned() && (map_ == old(map_) || fresh(map_)) && contents == old(contents)
      ensures start.off == ce - 1 && finish.off == old(finish.off)
      ensures |chunks| == |old(chunks)| + 1 && chunks[1..] == old(chunks) && fresh(first)
      ensures slots == [Raws(ce)[ce - 1 := Live(v)]] + old(slots)
    {
      ReserveMapAtFront();
      GrowFront(v);
    }

    method GrowFront(v: T)
      requires Shape() && Owned() && start.off == 0 && start.node >= 1
      modifies map_, this`owned, this`issued, this`chunks, this`slots, this`start, this`first
      ensures Kept()
      ensures Shape() && Owned() && start.off == ce - 1
      ensures |chunks| == |old(chunks)| + 1 && chunks[1..] == old(chunks) && fresh(first)
      ensures slots == [Raws(ce)[ce - 1 := Live(v)]] + old(slots)
    {
      AddFront();
      ConstructFirst(v, old(slots));
    }

    method ConstructFirst(v: T, ghost rest: seq<seq<Slot<T>>>)
      requires Shape() && Owned() && start.off == ce - 1 && slots == [Raws(ce)] + rest
      modifies first, this`slots
      ensures Shape() && Owned() && slots == [Raws(ce)[ce - 1 := Live(v)]] + rest
    {
      UpdateFirst(Raws(ce), rest, Raws(ce)[ce - 1 := Live(v)]);
      ConstructAt(first, start.off, v, 0);
    }

    /** A fresh raw chunk in front of the window. */
    method AddFront()
      requires Shape() && Owned() && start.node >= 1
      modifies map_, this`owned, this`issued, this`chunks, this`slots, this`start, this`first
      ensures Kept()
      ensures Shape() && Owned() && start.off == ce - 1 && fresh(first)
      ensures |chunks| == |old(chunks)| + 1 && chunks[1..] == old(chunks) && slots == [Raws(ce)] + old(slots)
    {
      var c := InstallFront();
      AttachFront(c);
    }

    /** `free_chunk(*finish_.node_); finish_.set_node(finish_.node_ - 1); finish_.cur_ = finish_.last_ - 1;` */
    method DetachBack()
      requires Shape() && Owned() && |chunks| >= 2 && slots[|slots| - 1] == Raws(ce)
      modifies this`owned, this`freed, this`chunks, this`slots, this`finish, this`last
      ensures Shape() && Owned()
      ensures chunks == old(chunks)[..|old(chunks)| - 1] && slots == old(slots)[..|old(slots)| - 1]
      ensures finish == Pos(old(finish.node) - 1, ce - 1)
    {
      EmptyIsVacant(last);
      FreeChunk(last);
      RetreatBack();
    }

    method RetreatBack()
      requires Shape() && |chunks| >= 2 && Settled() && owned == Members(chunks) - {last}
      modifies this`chunks, this`slots, this`finish, this`last
      ensures Shape() && ChunksOwned()
      ensures chunks == old(chunks)[..|old(chunks)| - 1] && slots == old(slots)[..|old(slots)| - 1]
      ensures finish == Pos(old(finish.node) - 1, ce - 1)
    {
      MembersInit(chunks);
      var n := finish.node;
      finish := Pos(n - 1, ce - 1);
      last := map_[n - 1];
      chunks, slots := chunks[..|chunks| - 1], slots[..|slots| - 1];
    }

    /** `free_chunk(*start_.node_); start_.set_node(start_.node_ + 1); start_.cur_ = start_.first_;` */
    method DetachFront()
      requires Shape() && Owned() && |chunks| >= 2 && slots[0] == Raws(ce)
      modifies this`owned, this`freed, this`chunks, this`slots, this`start, this`first
      ensures Shape() && Owned()
      ensures chunks == old(chunks)[1..] && slots == old(slots)[1..]
      ensures start == Pos(old(start.node) + 1, 0)
    {
      EmptyIsVacant(first);
      FreeChunk(first);
      AdvanceFront();
    }

    method AdvanceFront()
      requires Shape() && |chunks| >= 2 && Settled() && owned == Members(chunks) - {first}
      modifies this`chunks, this`slots, this`start, this`first
      ensures Shape() && ChunksOwned()
      ensures chunks == old(chunks)[1..] && slots == old(slots)[1..]
      ensures start == Pos(old(start.node) + 1, 0)
    {
      MembersTail(chunks);
      var n := start.node;
      start := Pos(n + 1, 0);
      first := map_[n + 1];
      chunks, slots := chunks[1..], slots[1..];
    }

    lemma EmptyIsVacant(c: Chunk<T>)
      requires Stores(c, Raws(ce))
      ensures Vacant(trivial, c[..])
    {
    }

    lemma Counted()
      requires Valid()
      ensures ce * |chunks| == ce * (|chunks| - 1) + ce
      ensures start.off + |contents| == ce * (|chunks| - 1) + finish.off < ce * |chunks|
    {
      LaidCount(slots, ce, start.off, finish.off, contents);
    }

    /** The branches of `push_back`. */
    method StepPushBack(v: T)
      requires Shape() && Owned() && slots[|slots| - 1][finish.off] == Raw
      modifies this, map_, last
      ensures Kept()
      ensures Shape() && Owned() && (map_ == old(map_) || fresh(map_)) && contents == old(contents)
      ensures old(chunks) <= chunks && forall i :: |old(chunks)| <= i < |chunks| ==> fresh(chunks[i])
      ensures start.off == old(start.off) && finish.off == if old(finish.off) + 1 < ce then old(finish.off) + 1 else 0
      ensures slots == BackPushed(old(slots), ce, old(finish.off), v)
    {
      if finish.off != ce - 1 {
        ConstructAt(last, finish.off, v, |chunks| - 1);
        finish := finish.(off := finish.off + 1);
      } else {
        PushBackAux(v);
      }
    }

    /** `push_back`, before a reference is taken. */
    method PlaceBack(v: T)
      requires Valid()
      modifies this, map_, last
      ensures Kept()
      ensures Valid() && (map_ == old(map_) || fresh(map_))
      ensures old(chunks) <= chunks && forall i :: |old(chunks)| <= i < |chunks| ==> fresh(chunks[i])
      ensures start.off == old(start.off) && contents == old(contents) + [v]
    {
      LaidBackPushed(slots, ce, start.off, finish.off, contents, v);
      contents := contents + [v];
      StepPushBack(v);
    }

    /** `push_back` / `emplace_back`.  The returned reference is the new element's address; no other
        element's address changes. */
    method EmplaceBack(v: T) returns (ref: (Chunk<T>, nat))
      requires Valid()
      modifies this, map_, chunks
      ensures Kept()
      ensures Valid() && Framed(old(map_), old(chunks))
      ensures contents == old(contents) + [v]
      ensures Addresses() == old(Addresses()) + [ref]
    {
      ghost var cs, a, n, k := chunks, start.off, |contents|, finish.off;
      Counted();
      ref := (last, finish.off);
      PlaceBack(v);
      BackAddress(cs, chunks, ce, a, n, k);
    }

    /** The branches of `push_front`. */
    method StepPushFront(v: T)
      requires Shape() && Owned() && (start.off > 0 ==> slots[0][start.off - 1] == Raw)
      modifies this, map_, first
      ensures Kept()
      ensures Shape() && Owned() && (map_ == old(map_) || fresh(map_)) && contents == old(contents)
      ensures start.off == if old(start.off) > 0 then old(start.off) - 1 else ce - 1
      ensures if old(start.off) > 0 then chunks == old(chunks) else chunks[1..] == old(chunks) && fresh(chunks[0])
      ensures finish.off == old(finish.off)
      ensures slots == FrontPushed(old(slots), ce, old(start.off), v)
    {
      if start.off != 0 {
        ConstructAt(first, start.off - 1, v, 0);
        start := start.(off := start.off - 1);
      } else {
        PushFrontAux(v);
      }
    }

    /** `push_front`, before a reference is taken. */
    method PlaceFront(v: T)
      requires Valid()
      modifies this, map_, first
      ensures Kept()
      ensures Valid() && (map_ == old(map_) || fresh(map_))
      ensures start.off == if old(start.off) > 0 then old(start.off) - 1 else ce - 1
      ensures if old(start.off) > 0 then chunks == old(chunks) else chunks[1..] == old(chunks) && fresh(chunks[0])
      ensures contents == [v] + old(contents)
    {
      LaidFrontPushed(slots, ce, start.off, finish.off, contents, v);
      contents := [v] + contents;
      StepPushFront(v);
    }

    /** `push_front` / `emplace_front`. */
    method EmplaceFront(v: T) returns (ref: (Chunk<T>, nat))
      requires Valid()
      modifies this, map_, chunks
      ensures Kept()
      ensures Valid() && Framed(old(map_), old(chunks))
      ensures contents == [v] + old(contents)
      ensures Addresses() == [ref] + old(Addresses())
    {
      ghost var cs, a, n := chunks, start.off, |contents|;
      Counted();
      PlaceFront(v);
      ref := (first, start.off);
      FrontAddress(cs, chunks, ce, a, start.off, n);
      assert forall i :: 0 < i < |chunks| ==> chunks[i] == chunks[1..][i - 1];
    }

    method PopBackAux()
      requires Shape() && Owned() && |slots| >= 2
      requires slots[|slots| - 1] == Raws(ce) && slots[|slots| - 2][ce - 1].Live?
      modifies this, chunks
      ensures Kept()
      ensures Shape() && Owned() && map_ == old(map_) && contents == old(contents)
      ensures chunks == old(chunks)[..|old(chunks)| - 1] && start.off == old(start.off) && finish.off == ce - 1
      ensures var n := |old(slots)| - 2;
              slots == old(slots)[..n + 1][n := old(slots)[n][ce - 1 := Raw]]
    {
      DetachBack();
      DestroyAt(last, finish.off, |chunks| - 1);
    }

    /** The branches of `pop_back`. */
    method StepPopBack()
      requires Shape() && Owned()
      requires if finish.off > 0 then slots[|slots| - 1][finish.off - 1].Live?
               else |slots| >= 2 && slots[|slots| - 1] == Raws(ce) && slots[|slots| - 2][ce - 1].Live?
      modifies this, chunks
      ensures Kept()
      ensures Shape() && Owned() && map_ == old(map_) && contents == old(contents)
      ensures chunks <= old(chunks) && start.off == old(start.off)
      ensures finish.off == if old(finish.off) > 0 then old(finish.off) - 1 else ce - 1
      ensures slots == BackPopped(old(slots), ce, old(finish.off))
    {
      if finish.off != 0 {
        finish := finish.(off := finish.off - 1);
        DestroyAt(last, finish.off, |chunks| - 1);
      } else {
        PopBackAux();
      }
    }

    /** `pop_back`, as far as the contents go. */
    method DropBack()
      requires Valid() && contents != []
      modifies this, chunks
      ensures Kept()
      ensures Valid() && map_ == old(map_) && chunks <= old(chunks) && start.off == old(start.off)
      ensures contents == old(contents)[..|old(contents)| - 1]
    {
      LaidBackPopped(slots, ce, start.off, finish.off, contents);
      contents := contents[..|contents| - 1];
      StepPopBack();
    }

    /** `pop_back`: the last element and its address go, every other address stays. */
    method PopBack()
      requires Valid() && contents != []
      modifies this, chunks
      ensures Kept()
      ensures Valid() && map_ == old(map_)
      ensures forall i :: 0 <= i < |chunks| ==> chunks[i] in old(chunks)
      ensures contents == old(contents)[..|old(contents)| - 1]
      ensures Addresses() == old(Addresses())[..|old(contents)| - 1]
    {
      ghost var cs, a, n := chunks, start.off, |contents|;
      DropBack();
      Counted();
      BackAddress(chunks, cs, ce, a, n - 1, finish.off);
    }

    method PopFrontAux()
      requires Shape() && Owned() && start.off == ce - 1 && |slots| >= 2
      requires slots[0][ce - 1].Live? && slots[0][ce - 1 := Raw] == Raws(ce)
      modifies this, first
      ensures Kept()
      ensures Shape() && Owned() && map_ == old(map_) && contents == old(contents)
      ensures chunks == old(chunks)[1..] && start.off == 0 && finish.off == old(finish.off)
      ensures slots == old(slots)[1..]
    {
      DestroyAt(first, start.off, 0);
      DetachFront();
    }

    /** The branches of `pop_front`. */
    method StepPopFront()
      requires Shape() && Owned() && slots[0][start.off].Live?
      requires start.off == ce - 1 ==> |slots| >= 2 && slots[0][ce - 1 := Raw] == Raws(ce)
      modifies this, first
      ensures Kept()
      ensures Shape() && Owned() && map_ == old(map_) && contents == old(contents)
      ensures if old(start.off) < ce - 1 then chunks == old(chunks) && start.off == old(start.off) + 1
              else chunks == old(chunks)[1..] && start.off == 0
      ensures finish.off == old(finish.off)
      ensures slots == FrontPopped(old(slots), ce, old(start.off))
    {
      if start.off != ce - 1 {
        DestroyAt(first, start.off, 0);
        start := start.(off := start.off + 1);
      } else {
        PopFrontAux();
      }
    }

    /** `pop_front`, as far as the contents go. */
    method DropFront()
      requires Valid() && contents != []
      modifies this, chunks
      ensures Kept()
      ensures Valid() && map_ == old(map_)
      ensures if old(start.off) < ce - 1 then chunks == old(chunks) && start.off == old(start.off) + 1
              else chunks == old(chunks)[1..] && start.off == 0
      ensures contents == old(contents)[1..]
    {
      LaidFrontPopped(slots, ce, start.off, finish.off, contents);
      contents := contents[1..];
      StepPopFront();
    }

    /** `pop_front`: the first element and its address go, every other address stays. */
    method PopFront()
      requires Valid() && contents != []
      modifies this, chunks
      ensures Kept()
      ensures Valid() && map_ == old(map_)
      ensures forall i :: 0 <= i < |chunks| ==> chunks[i] in old(chunks)
      ensures contents == old(contents)[1..]
      ensures Addresses() == old(Addresses())[1..]
    {
      ghost var cs, a, n := chunks, start.off, |contents|;
      DropFront();
      Counted();
      FrontAddress(chunks, cs, ce, start.off, a, n - 1);
    }

    // -- reading -----------------------------------------------------------------------

    /** `finish_ - start_`. */
    function Size(): (n: nat)
      requires Valid()
      reads this, map_, chunks
      ensures n == |contents|
    {
      Measured();
      Minus(finish, start, ce)
    }

    lemma Measured()
      requires Valid()
      ensures Minus(finish, start, ce) == |contents|
    {
      Counted();
      MinusIsDistance(finish, start, ce);
      assert ce * finish.node == ce * start.node + ce * (|chunks| - 1);
    }

    /** `start_.cur_ == finish_.cur_`: pointers into the same chunk at the same offset. */
    function Empty(): (e: bool)
      requires Valid()
      reads this, map_, chunks
      ensures e <==> contents == []
    {
      Counted();
      assert |chunks| > 1 ==> ce * (|chunks| - 1) >= ce by { if |chunks| > 1 { MulApart(ce, |chunks| - 1, 0); } }
      first == last && start.off == finish.off
    }

    /** The element at a position of the window, read through the map as `set_node` does. */
    method Read(p: Pos, ghost i: nat) returns (v: T)
      requires Valid() && i < |contents| && Normal(p, ce) && Linear(p, ce) == Linear(start, ce) + i
      ensures v == contents[i]
    {
      Locate(p, i);
      var c := map_[p.node];
      v := c[p.off].value;
    }

    lemma Locate(p: Pos, i: nat)
      requires Valid() && i < |contents| && Normal(p, ce) && Linear(p, ce) == Linear(start, ce) + i
      ensures start.node <= p.node <= finish.node
      ensures slots[p.node - start.node][p.off] == Live(contents[i])
    {
      PlusExact(start, i, ce);
      LessIsOrder(p, Plus(start, i, ce), ce);
      LaidAt(slots, ce, start.off, finish.off, contents, i);
    }

    /** `operator[]`: `*(start_ + i)`. */
    method At(i: nat) returns (v: T)
      requires Valid() && i < |contents|
      ensures v == contents[i]
    {
      PlusExact(start, i, ce);
      v := Read(Plus(start, i, ce), i);
    }

    /** `at`, which throws past the end. */
    method CheckedAt(i: nat) returns (r: Slot<T>)
      requires Valid()
      ensures r == if i < |contents| then Live(contents[i]) else Raw
    {
      if i >= Size() { return Raw; }
      var v := At(i);
      return Live(v);
    }

    method Front() returns (v: T)
      requires Valid() && contents != []
      ensures v == contents[0]
    {
      Locate(start, 0);
      v := first[start.off].value;
    }

    /** `auto t = finish_; --t; return *t;` */
    method Back() returns (v: T)
      requires Valid() && contents != []
      ensures v == contents[|contents| - 1]
    {
      BackPosition();
      v := Read(Prev(finish, ce), |contents| - 1);
    }

    lemma BackPosition()
      requires Valid() && contents != []
      ensures var p := Prev(finish, ce); Normal(p, ce) && Linear(p, ce) == Linear(start, ce) + |contents| - 1
    {
      Counted();
      NextPrevExact(finish, ce);
      LinearAhead(start, finish, |chunks| - 1, ce);
    }

    /** An iterator k steps from the start. */
    ghost predicate Cursor(p: Pos, k: nat)
      reads `start
    {
      Normal(p, ce) && Linear(p, ce) == Linear(start, ce) + k
    }

    lemma CursorStep(p: Pos, k: nat)
      requires Valid() && k < |contents| && Cursor(p, k)
      ensures Cursor(Next(p, ce), k + 1) && (Next(p, ce) == finish <==> k + 1 == |contents|)
    {
      NextPrevExact(p, ce);
      WalkEnd(Next(p, ce), k + 1);
    }

    lemma WalkEnd(p: Pos, k: nat)
      requires Valid() && k <= |contents| && Cursor(p, k)
      ensures p == finish <==> k == |contents|
    {
      Counted();
      LinearAhead(start, finish, |chunks| - 1, ce);
      LessIsOrder(p, finish, ce);
    }

    /** The i-th element lives at slot (start.off + i) of the window. */
    lemma AddressOf(i: nat)
      requires Valid() && i < |contents|
      ensures |Addresses()| == |contents|
      ensures var p := start.off + i; p / ce < |chunks| && Addresses()[i] == (chunks[p / ce], p % ce)
    {
      var p := start.off + i;
      LaidAt(slots, ce, start.off, finish.off, contents, i);
      DivMod(p, ce);
      HomeAt(chunks, ce, p / ce, p % ce);
      Counted();
      AllHomesLength(chunks, ce);
      assert Addresses()[i] == AllHomes(chunks, ce)[p];
    }

    /** The element at an address is the one the address stands for. */
    lemma AddressHolds(i: nat)
      requires Valid() && i < |contents|
      ensures |Addresses()| == |contents|
      ensures var (c, k) := Addresses()[i]; c in owned && k < c.Length && c[k] == Live(contents[i])
    {
      AddressOf(i);
      LaidAt(slots, ce, start.off, finish.off, contents, i);
    }

    /** No two elements share a slot. */
    lemma AddressesDiffer(i: nat, j: nat)
      requires Valid() && i < j < |contents|
      ensures |Addresses()| == |contents| && Addresses()[i] != Addresses()[j]
    {
      AddressOf(i);
      AddressOf(j);
      SlotsDiffer(chunks, ce, start.off + i, start.off + j);
    }

    // -- clear, teardown, resize -------------------------------------------------------

    /** `destroy_range` of offsets [from, to) of the j-th chunk of the window; skipped for trivial types. */
    method DestroyRange(c: Chunk<T>, from: nat, to: nat, ghost j: nat)
      requires Shape() && j < |chunks| && chunks[j] == c && from <= to <= ce
      requires forall k :: from <= k < to ==> slots[j][k].Live?
      modifies c, this`slots
      ensures Shape() && slots == old(slots)[j := Ended(old(slots)[j], from, to)]
    {
      if trivial {
        slots := slots[j := Ended(slots[j], from, to)];
      } else {
        DestroyEach(c, from, to, j);
      }
    }

    method DestroyEach(c: Chunk<T>, from: nat, to: nat, ghost j: nat)
      requires Shape() && j < |chunks| && chunks[j] == c && from <= to <= ce
      requires forall k :: from <= k < to ==> slots[j][k].Live?
      modifies c, this`slots
      ensures Ending(old(slots), j, from, to)
    {
      EndedNone(slots[j], from);
      var k := from;
      ghost var w := slots;
      while k != to
        invariant from <= k <= to && Ending(w, j, from, k)
      {
        DestroyNext(c, k, j, from, w);
        k := k + 1;
      }
    }

    /** Offsets [from, k) of the j-th chunk have been destroyed since the window held w. */
    ghost predicate Ending(w: seq<seq<Slot<T>>>, j: nat, from: nat, k: nat)
      reads this, map_, chunks
    {
      Shape() && j < |w| && |w[j]| == ce && from <= k <= ce && slots == w[j := Ended(w[j], from, k)]
    }

    method DestroyNext(c: Chunk<T>, k: nat, ghost j: nat, ghost from: nat, ghost w: seq<seq<Slot<T>>>)
      requires Ending(w, j, from, k) && chunks[j] == c && k < ce && w[j][k].Live?
      modifies c, this`slots
      ensures Ending(w, j, from, k + 1)
    {
      EndedStep(w[j], from, k);
      DestroyAt(c, k, j);
      assert slots == w[j := Ended(w[j], from, k + 1)];
    }

    /** Destroying what lies between the cursors in the j-th chunk empties it; w is what the window
        held before. */
    method EmptyChunk(c: Chunk<T>, from: nat, to: nat, ghost j: nat, ghost w: seq<seq<Slot<T>>>)
      requires Shape() && |w| == |slots| && Laid(w, ce, start.off, finish.off, contents)
      requires j < |chunks| && chunks[j] == c && slots[j] == w[j]
      requires from == (if j == 0 then start.off else 0) && to == if j == |chunks| - 1 then finish.off else ce
      modifies c, this`slots
      ensures Shape() && slots == old(slots)[j := Raws(ce)]
    {
      LaidChunk(w, ce, start.off, finish.off, contents, j);
      LaidCount(w, ce, start.off, finish.off, contents);
      DestroyRange(c, from, to, j);
      assert slots[j] == Raws(ce);
    }

    /** `clear`: destroys every element, frees every chunk but the first, and starts over there. */
    method Clear()
      requires Valid()
      modifies this, chunks
      ensures Kept()
      ensures Valid() && contents == [] && map_ == old(map_)
      ensures chunks == [old(chunks)[0]] && owned == {old(chunks)[0]} && start.off == 0
    {
      ClearElements();
      Restart();
    }

    /** All but the last steps: what is left is the first chunk, with nothing in it. */
    method ClearElements()
      requires Valid()
      modifies chunks, this`slots, this`owned, this`freed
      ensures Shape() && slots[0] == Raws(ce) && owned == {chunks[0]} && Settled()
    {
      ghost var w := slots;
      ClearInner();
      if start.node != finish.node {
        ClearEnds(w);
      } else {
        EmptyChunk(first, start.off, finish.off, 0, w);
      }
    }

    /** The chunks that are still allocated when those before the j-th, except the first, are gone. */
    ghost function Remaining(j: nat): set<Chunk<T>>
      requires 1 <= j <= |chunks|
      reads `chunks
    {
      {chunks[0]} + Members(chunks[j..])
    }

    /** At first all chunks, in the end the first and the last. */
    lemma RemainingEnds()
      requires |chunks| >= 1
      ensures Remaining(1) == Members(chunks)
      ensures var n := |chunks|; Remaining(if n > 1 then n - 1 else 1) == {chunks[0], chunks[n - 1]}
    {
      assert chunks == [chunks[0]] + chunks[1..];
      var n := |chunks|;
      if n > 1 { assert chunks[n - 1..] == [chunks[n - 1]]; } else { assert chunks[1..] == []; }
    }

    lemma RemainingStep(j: nat)
      requires 1 <= j < |chunks| && Distinct(chunks)
      ensures Remaining(j) - {chunks[j]} == Remaining(j + 1) && chunks[j] in Remaining(j)
    {
      assert chunks[j..] == [chunks[j]] + chunks[j + 1..];
      assert chunks[j] !in chunks[j + 1..];
    }

    /** `for (node = start_.node_ + 1; node < finish_.node_; ++node)`: destroy and free. */
    method ClearInner()
      requires Valid()
      modifies chunks, this`slots, this`owned, this`freed
      ensures Shape() && |slots| == |old(slots)|
      ensures slots[0] == old(slots)[0] && slots[|slots| - 1] == old(slots)[|slots| - 1]
      ensures owned == {chunks[0], chunks[|chunks| - 1]} && Settled()
    {
      ghost var w, n := slots, |slots|;
      RemainingEnds();
      var node := start.node + 1;
      while node < finish.node
        invariant start.node < node && (node <= finish.node || n == 1)
        invariant node - start.node <= |chunks| == n
        invariant Inner(w, node - start.node, node - start.node)
      {
        FreeInner(node, w);
        node := node + 1;
      }
    }

    /** Chunks 1 to j - 1 are empty, the others are as they were; those before the k-th have been freed. */
    ghost predicate Inner(w: seq<seq<Slot<T>>>, j: nat, k: nat)
      reads this, map_, chunks
    {
      && Shape() && |slots| == |w| && 1 <= k <= j <= |chunks| && owned == Remaining(k) && Settled()
      && Laid(w, ce, start.off, finish.off, contents)
      && slots[0] == w[0] && forall i :: j <= i < |w| ==> slots[i] == w[i]
    }

    method FreeInner(node: nat, ghost w: seq<seq<Slot<T>>>)
      requires start.node < node < finish.node && Inner(w, node - start.node, node - start.node)
      modifies chunks, this`slots, this`owned, this`freed
      ensures Inner(w, node + 1 - start.node, node + 1 - start.node)
    {
      ghost var j := node - start.node;
      var c := map_[node];
      EmptyInner(node, w, j);
      FreeEmpty(c, w, j);
    }

    method FreeEmpty(c: Chunk<T>, ghost w: seq<seq<Slot<T>>>, ghost j: nat)
      requires Inner(w, j + 1, j) && chunks[j] == c && slots[j] == Raws(ce)
      modifies this`owned, this`freed
      ensures Inner(w, j + 1, j + 1)
    {
      RemainingStep(j);
      EmptyIsVacant(c);
      FreeChunk(c);
    }

    method EmptyInner(node: nat, ghost w: seq<seq<Slot<T>>>, ghost j: nat)
      requires start.node < node == start.node + j < finish.node && Inner(w, j, j)
      modifies chunks, this`slots
      ensures Inner(w, j + 1, j) && slots[j] == Raws(ce)
    {
      EmptyChunk(map_[node], 0, ce, j, w);
    }

    /** The elements in the first and the last chunk, and the last chunk itself. */
    method ClearEnds(ghost w: seq<seq<Slot<T>>>)
      requires Shape() && |w| == |slots| > 1 && Laid(w, ce, start.off, finish.off, contents)
      requires slots[0] == w[0] && slots[|w| - 1] == w[|w| - 1]
      requires owned == {chunks[0], chunks[|chunks| - 1]} && Settled()
      modifies chunks, this`slots, this`owned, this`freed
      ensures Shape() && slots[0] == Raws(ce) && owned == {chunks[0]} && Settled()
    {
      EmptyChunk(first, start.off, ce, 0, w);
      EmptyChunk(last, 0, finish.off, |chunks| - 1, w);
      FreeChunk(last);
    }

    /** `finish_.set_node(start_.node_); finish_.cur_ = start_.cur_ = start_.first_;` */
    method Restart()
      requires Shape() && slots[0] == Raws(ce) && owned == {chunks[0]} && Settled() && MapsSettled()
      modifies this`start, this`finish, this`last, this`chunks, this`slots, this`contents
      ensures Valid() && contents == [] && chunks == [old(chunks)[0]] && start.off == 0
    {
      LaidEmpty<T>(ce);
      contents := [];
      KeepFirst();
    }

    method KeepFirst()
      requires Shape()
      modifies this`start, this`finish, this`last, this`chunks, this`slots
      ensures Shape() && chunks == [old(chunks)[0]] && slots == [old(slots)[0]]
      ensures start.off == 0 && finish.off == 0
    {
      start := start.(off := 0);
      finish := start;
      last := first;
      chunks, slots := [chunks[0]], [slots[0]];
    }

    /** `teardown`: every element destroyed, every chunk freed exactly once, the map freed.  The
        deque may not be used afterwards. */
    method Teardown()
      requires Valid()
      modifies this, chunks
      ensures owned == {} && Settled() && freedMaps == maps && Kept()
    {
      DestroyAll();
      FreeAll();
      FreeMap(map_, map_);
      map_ := new array?<Slot<T>>[0];
    }

    /** The first j chunks of the window are empty, the others are as in w. */
    ghost predicate Emptied(w: seq<seq<Slot<T>>>, j: nat)
      reads this, map_, chunks
    {
      && Shape() && Owned() && |slots| == |w| && j <= |w|
      && Laid(w, ce, start.off, finish.off, contents)
      && (forall i :: 0 <= i < j ==> slots[i] == Raws(ce))
      && (forall i :: j <= i < |w| ==> slots[i] == w[i])
    }

    method DestroyAll()
      requires Valid()
      modifies chunks, this`slots
      ensures Emptied(old(slots), |chunks|)
    {
      ghost var w := slots;
      var node := start.node;
      while node < finish.node
        invariant start.node <= node <= finish.node
        invariant Emptied(w, node - start.node)
      {
        DestroyNode(node, w);
        node := node + 1;
      }
      if start.node == finish.node {
        EmptyChunk(first, start.off, finish.off, 0, w);
      } else {
        EmptyChunk(last, 0, finish.off, |chunks| - 1, w);
      }
    }

    /** `destroy_range(node == start_.node_ ? start_.cur_ : *node, *node + chunk_elems)` */
    method DestroyNode(node: nat, ghost w: seq<seq<Slot<T>>>)
      requires start.node <= node < finish.node && Emptied(w, node - start.node)
      modifies chunks, this`slots
      ensures Emptied(w, node + 1 - start.node)
    {
      EmptyChunk(map_[node], if node == start.node then start.off else 0, ce, node - start.node, w);
    }

    method FreeAll()
      requires Shape() && Owned() && forall i :: 0 <= i < |chunks| ==> slots[i] == Raws(ce)
      modifies this`owned, this`freed
      ensures owned == {} && Settled()
    {
      var node := start.node;
      while node <= finish.node
        invariant start.node <= node <= finish.node + 1 && Shape()
        invariant owned == Members(chunks[node - start.node..]) && Settled()
      {
        FreeNode(node);
        node := node + 1;
      }
    }

    method FreeNode(node: nat)
      requires Shape() && start.node <= node <= finish.node && Settled()
      requires slots[node - start.node] == Raws(ce) && owned == Members(chunks[node - start.node..])
      modifies this`owned, this`freed
      ensures Shape() && Settled() && owned == Members(chunks[node + 1 - start.node..])
    {
      ghost var j := node - start.node;
      assert chunks[j..] == [chunks[j]] + chunks[j + 1..];
      assert chunks[j] !in chunks[j + 1..];
      EmptyIsVacant(map_[node]);
      FreeChunk(map_[node]);
    }

    /** `resize(count, value)`; the one-argument form passes a default element.  Elements that stay
        keep their addresses; refs are those of the appended ones. */
    method Resize(count: nat, v: T) returns (ghost refs: seq<(Chunk<T>, nat)>)
      requires Valid()
      modifies this, map_, chunks
      ensures Kept()
      ensures Valid() && Framed(old(map_), old(chunks))
      ensures contents == if count < |old(contents)| then old(contents)[..count]
                          else old(contents) + Repeat(count - |old(contents)|, v)
      ensures Addresses() == if count < |old(contents)| then old(Addresses())[..count]
                             else old(Addresses()) + refs
    {
      refs := [];
      var s := Size();
      if count < s {
        Shrink(s, count);
      } else {
        refs := Extend(s, count, v);
      }
    }

    method Shrink(s: nat, count: nat)
      requires Valid() && count <= s == |contents|
      modifies this, chunks
      ensures Kept()
      ensures Valid() && map_ == old(map_) && forall i :: 0 <= i < |chunks| ==> chunks[i] in old(chunks)
      ensures contents == old(contents)[..count] && Addresses() == old(Addresses())[..count]
    {
      for i := count to s
        invariant Valid() && map_ == old(map_) && forall i :: 0 <= i < |chunks| ==> chunks[i] in old(chunks)
        invariant Kept()
        invariant contents == old(contents)[..s - (i - count)]
        invariant Addresses() == old(Addresses())[..s - (i - count)]
      {
        PopBack();
      }
    }

    method Extend(s: nat, count: nat, v: T) returns (ghost refs: seq<(Chunk<T>, nat)>)
      requires Valid() && count >= s == |contents|
      modifies this, map_, chunks
      ensures Kept()
      ensures Valid() && Framed(old(map_), old(chunks))
      ensures contents == old(contents) + Repeat(count - s, v) && Addresses() == old(Addresses()) + refs
    {
      refs := [];
      for i := s to count
        invariant Valid() && Framed(old(map_), old(chunks)) && Kept()
        invariant contents == old(contents) + Repeat(i - s, v) && Addresses() == old(Addresses()) + refs
      {
        var ref := EmplaceBack(v);
        refs := refs + [ref];
      }
    }
  }

  /** `*ai == *bi` */
  method SameAt<T(==)>(a: Deque<T>, b: Deque<T>, ai: Pos, bi: Pos, ghost k: nat) returns (r: bool)
    requires a.Valid() && a.Cursor(ai, k) && k < |a.contents|
    requires b.Valid() && b.Cursor(bi, k) && k < |b.contents|
    ensures r <==> a.contents[k] == b.contents[k]
  {
    var x := a.Read(ai, k);
    var y := b.Read(bi, k);
    return x == y;
  }

  /** Two iterators k steps into two deques of equal size that agree so far. */
  ghost predicate Matching<T>(a: Deque<T>, b: Deque<T>, ai: Pos, bi: Pos, k: nat)
    requires a.Valid() && b.Valid()
    reads a, a.map_, a.chunks, b, b.map_, b.chunks
  {
    && k <= |a.contents| == |b.contents| && a.Cursor(ai, k) && b.Cursor(bi, k)
    && (ai == a.finish <==> k == |a.contents|)
    && a.contents[..k] == b.contents[..k]
  }

  /** Either the k-th elements differ, or the iterators may advance. */
  method Advance<T(==)>(a: Deque<T>, b: Deque<T>, ai: Pos, bi: Pos, ghost k: nat) returns (same: bool)
    requires a.Valid() && b.Valid() && Matching(a, b, ai, bi, k) && k < |a.contents|
    ensures same <==> a.contents[k] == b.contents[k]
    ensures same ==> Matching(a, b, Next(ai, a.ce), Next(bi, b.ce), k + 1)
  {
    same := SameAt(a, b, ai, bi, k);
    a.CursorStep(ai, k);
    b.CursorStep(bi, k);
    assert a.contents[..k + 1] == a.contents[..k] + [a.contents[k]];
    assert b.contents[..k + 1] == b.contents[..k] + [b.contents[k]];
  }

  /** `operator==`: two iterators walk two deques whose chunks may be out of phase. */
  method Equal<T(==)>(a: Deque<T>, b: Deque<T>) returns (r: bool)
    requires a.Valid() && b.Valid() && a.ce == b.ce
    ensures r <==> a.contents == b.contents
  {
    if a.Size() != b.Size() { return false; }
    var ai, bi := a.start, b.start;
    ghost var k := 0;
    a.WalkEnd(ai, 0);
    while ai != a.finish
      invariant Matching(a, b, ai, bi, k)
      decreases |a.contents| - k
    {
      var same := Advance(a, b, ai, bi, k);
      if !same {
        return false;
      }
      ai, bi, k := Next(ai, a.ce), Next(bi, b.ce), k + 1;
    }
    assert a.contents[..k] == a.contents && b.contents[..k] == b.contents;
    return true;
  }

  /** The objects in [from, to) have been destroyed. */
  function Ended<T>(s: seq<Slot<T>>, from: nat, to: nat): (r: seq<Slot<T>>)
    requires from <= to <= |s|
    ensures |r| == |s| && forall k :: 0 <= k < |s| ==> r[k] == if from <= k < to then Raw else s[k]
  {
    s[..from] + Raws(to - from) + s[to..]
  }

  lemma EndedStep<T>(s: seq<Slot<T>>, from: nat, k: nat)
    requires from <= k < |s|
    ensures Ended(s, from, k)[k := Raw] == Ended(s, from, k + 1)
  {
  }

  lemma EndedNone<T>(s: seq<Slot<T>>, from: nat)
    requires from <= |s|
    ensures Ended(s, from, from) == s
  {
  }

  /** Appending: addresses before the new one do not depend on chunks added at the back. */
  lemma BackAddress<T>(cs: seq<Chunk<T>>, ds: seq<Chunk<T>>, ce: nat, a: nat, n: nat, k: nat)
    requires |cs| >= 1 && cs <= ds && k < ce && a + n == ce * (|cs| - 1) + k
    ensures a + n <= ce * |cs| && a + n + 1 <= ce * |ds|
    ensures Homes(ds, ce, a, n + 1) == Homes(cs, ce, a, n) + [(cs[|cs| - 1], k)]
  {
    AllHomesLength(cs, ce);
    AllHomesLength(ds, ce);
    HomeAt(cs, ce, |cs| - 1, k);
    assert ds == cs + ds[|cs|..];
    AllHomesAppend(cs, ds[|cs|..], ce);
  }

  /** Prepending: a chunk in front shifts every slot number by ce and no address. */
  lemma FrontAddress<T>(cs: seq<Chunk<T>>, ds: seq<Chunk<T>>, ce: nat, a: nat, a': nat, n: nat)
    requires |ds| >= 1 && a' < ce && a + n <= ce * |cs|
    requires (ds == cs && a == a' + 1) || (ds[1..] == cs && a == 0 && a' == ce - 1)
    ensures a' + n + 1 <= ce * |ds|
    ensures Homes(ds, ce, a', n + 1) == [(ds[0], a')] + Homes(cs, ce, a, n)
  {
    AllHomesLength(cs, ce);
    AllHomesLength(ds, ce);
    HomeAt(ds, ce, 0, a');
  }
}