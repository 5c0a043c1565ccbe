/** Whole runs of the deque: the plain sequence it stands for, and where each element lives. */
module DequeRuns {
  import opened Storage
  import opened Deque

  datatype Op<T> = OpPushBack(v: T) | OpPushFront(v: T) | OpPopBack | OpPopFront | OpResize(n: nat, v: T) | OpClear

  /** The edit an operation makes to a list that holds one entry for each element; `added` are the
      entries for the elements it adds.  A client asks `empty` before it pops. */
  function Edit<T, X>(op: Op<T>, s: seq<X>, added: seq<X>): seq<X> {
    match op
    case OpPushBack(_) => s + added
    case OpPushFront(_) => added + s
    case OpPopBack => if s == [] then [] else s[..|s| - 1]
    case OpPopFront => if s == [] then [] else s[1..]
    case OpResize(n, _) => if n < |s| then s[..n] else s + added
    case OpClear => []
  }

  function Added<T>(op: Op<T>, size: nat): seq<T> {
    match op
    case OpPushBack(v) => [v]
    case OpPushFront(v) => [v]
    case OpResize(n, v) => if n < size then [] else Repeat(n - size, v)
    case _ => []
  }

  /** A push adds one entry at its end and keeps the others in order; a pop takes off the one at its end;
      a resize keeps a prefix, of the old entries or of the new. */
  lemma EditMeans<T, X>(op: Op<T>, s: seq<X>, added: seq<X>)
    ensures var r := Edit(op, s, added);
            && (op.OpPushBack? && |added| == 1 ==> s < r && |r| == |s| + 1 && r[|s|] == added[0])
            && (op.OpPushFront? && |added| == 1 ==> |r| == |s| + 1 && r[0] == added[0] && r[1..] == s)
            && (op.OpPopBack? && s != [] ==> r + [s[|s| - 1]] == s)
            && (op.OpPopFront? && s != [] ==> [s[0]] + r == s)
            && (op.OpResize? && op.n < |s| ==> r < s && |r| == op.n)
            && (op.OpResize? && op.n >= |s| ==> s <= r && |r| == |s| + |added|)
            && (op.OpClear? || (s == [] && (op.OpPopBack? || op.OpPopFront?)) ==> r == [])
  {
  }

  /** The entries that are added: the value pushed, or as many copies as are missing. */
  lemma AddedMeans<T>(op: Op<T>, size: nat)
    ensures var r := Added(op, size);
            && (op.OpPushBack? || op.OpPushFront? ==> |r| == 1)
            && (op.OpResize? ==> |r| == if size < op.n then op.n - size else 0)
            && (op.OpPopBack? || op.OpPopFront? || op.OpClear? ==> r == [])
            && (r != [] ==> forall i :: 0 <= i < |r| ==> r[i] == op.v)
  {
  }

  /** The plain sequence. */
  function Values<T>(ops: seq<Op<T>>, s: seq<T>): seq<T> {
    if ops == [] then s
    else
      var t := Values(ops[..|ops| - 1], s);
      var op := ops[|ops| - 1];
      Edit(op, t, Added(op, |t|))
  }

  /** The same edits made to the list of addresses, given the ones each operation hands out. */
  function Places<T, X>(ops: seq<Op<T>>, refs: seq<seq<X>>, s: seq<X>): seq<X>
    requires |refs| == |ops|
  {
    if ops == [] then s
    else Edit(ops[|ops| - 1], Places(ops[..|ops| - 1], refs[..|ops| - 1], s), refs[|ops| - 1])
  }

  lemma ValuesStep<T>(ops: seq<Op<T>>, i: nat, s: seq<T>)
    requires i < |ops|
    ensures var t := Values(ops[..i], s); Values(ops[..i + 1], s) == Edit(ops[i], t, Added(ops[i], |t|))
  {
    assert ops[..i + 1][..i] == ops[..i];
  }

  lemma PlacesStep<T, X>(ops: seq<Op<T>>, i: nat, refs: seq<seq<X>>, added: seq<X>, s: seq<X>)
    requires i == |refs| < |ops|
    ensures Places(ops[..i + 1], refs + [added], s) == Edit(ops[i], Places(ops[..i], refs, s), added)
  {
    assert ops[..i + 1][..i] == ops[..i] && (refs + [added])[..i] == refs;
  }

  method Do<T>(d: Deque<T>, op: Op<T>) returns (ghost refs: seq<(Chunk<T>, nat)>)
    requires d.Valid()
    modifies d, d.map_, d.chunks
    ensures d.Valid() && d.Framed(old(d.map_), old(d.chunks))
    ensures d.Kept() && old(d.issued) <= d.issued && old(d.maps) <= d.maps
    ensures d.contents == Edit(op, old(d.contents), Added(op, |old(d.contents)|))
    ensures d.Addresses() == Edit(op, old(d.Addresses()), refs)
  {
    refs := [];
    match op {
      case OpPushBack(v) => var ref := d.EmplaceBack(v); refs := [ref];
      case OpPushFront(v) => var ref := d.EmplaceFront(v); refs := [ref];
      case OpPopBack => if !d.Empty() { d.PopBack(); }
      case OpPopFront => if !d.Empty() { d.PopFront(); }
      case OpResize(n, v) => refs := d.Resize(n, v);
      case OpClear => d.Clear();
    }
  }

  /** Any run, from any state and for any chunk size: the deque is the plain sequence, and the list of
      addresses undergoes exactly the edits the list of values does.  So no element moves between
      the operation that adds it and the one that removes it, however often the map is re-centred
      or reallocated in between. */
  method Run<T>(d: Deque<T>, ops: seq<Op<T>>) returns (ghost refs: seq<seq<(Chunk<T>, nat)>>)
    requires d.Valid()
    modifies d, d.map_, d.chunks
    ensures d.Valid() && d.Framed(old(d.map_), old(d.chunks)) && |refs| == |ops|
    ensures d.Kept() && old(d.issued) <= d.issued && old(d.maps) <= d.maps
    ensures d.contents == Values(ops, old(d.contents))
    ensures d.Addresses() == Places(ops, refs, old(d.Addresses()))
  {
    refs := [];
    for i := 0 to |ops|
      invariant d.Valid() && d.Framed(old(d.map_), old(d.chunks)) && d.Kept() && |refs| == i
      invariant d.contents == Values(ops[..i], old(d.contents))
      invariant d.Addresses() == Places(ops[..i], refs, old(d.Addresses()))
    {
      ValuesStep(ops, i, old(d.contents));
      var added := Do(d, ops[i]);
      PlacesStep(ops, i, refs, added, old(d.Addresses()));
      refs := refs + [added];
    }
    assert ops[..|ops|] == ops;
  }

  /** From construction to destruction, whatever is done in between: every chunk and every map ever
      allocated has been freed exactly once, and no chunk held anything undestroyed when it was. */
  method Lifetime<T>(trivial: bool, ce: nat, ops: seq<Op<T>>) returns (d: Deque<T>, ghost kept: seq<T>)
    requires ce >= 1
    ensures kept == Values(ops, [])
    ensures d.freedMaps == d.maps && d.freed.Keys == d.issued && forall c :: c in d.issued ==> Vacant(trivial, d.freed[c])
  {
    d := new Deque<T>(trivial, ce);
    ghost var refs := Run(d, ops);
    kept := d.contents;
    d.Teardown();
  }
}
