/** Raw storage and object lifetimes.

    A slot of uninitialised memory is Raw until placement-new makes it Live; moving the value out
    leaves a Moved husk, which still has to be destroyed.  The preconditions below are the lifetime
    rules: construct only over Raw, move only from Live, destroy only what was constructed.  For
    trivially copyable element types destruction is skipped and storage may be overwritten. */
module Storage {
  datatype Slot<+T> = Raw | Live(value: T) | Moved

  function Raws<T>(n: nat): (r: seq<Slot<T>>)
    ensures |r| == n && forall i :: 0 <= i < n ==> r[i] == Raw
  {
    seq(n, _ => Raw)
  }

  function Lives<T>(s: seq<T>): (r: seq<Slot<T>>)
    ensures |r| == |s| && forall i :: 0 <= i < |s| ==> r[i] == Live(s[i])
  {
    seq(|s|, i requires 0 <= i < |s| => Live(s[i]))
  }

  function Repeat<T>(n: nat, v: T): (s: seq<T>)
    ensures |s| == n && forall i :: 0 <= i < n ==> s[i] == v
  {
    seq(n, _ => v)
  }

  lemma RepeatMore<T>(n: nat, v: T)
    ensures Repeat(n, v) + [v] == Repeat(n + 1, v)
  {
  }

  /** Holds no object that would still have to be destroyed. */
  predicate Vacant<T>(trivial: bool, s: seq<Slot<T>>) {
    trivial || forall i :: 0 <= i < |s| ==> s[i].Raw?
  }

  /** Memory holds exactly the given objects.  For trivial types, storage whose object is gone may
      hold any stale bytes. */
  ghost predicate Shows<T>(trivial: bool, memory: seq<Slot<T>>, objects: seq<Slot<T>>) {
    && |memory| == |objects|
    && forall k :: 0 <= k < |memory| ==> memory[k] == objects[k] || (trivial && objects[k].Raw?)
  }

  method Construct<T>(trivial: bool, a: array<Slot<T>>, i: nat, v: T)
    requires i < a.Length && (trivial || a[i].Raw?)
    modifies a
    ensures a[..] == old(a[..])[i := Live(v)]
  {
    a[i] := Live(v);
  }

  /** `construct(dst, std::move(*src))`; the source stays a husk, or itself for a trivial type. */
  method MoveConstruct<T>(trivial: bool, a: array<Slot<T>>, i: nat, b: array<Slot<T>>, j: nat)
    requires i < a.Length && (trivial || a[i].Raw?)
    requires j < b.Length && b[j].Live? && (a != b || i != j)
    modifies a, b
    ensures a != b ==> a[..] == old(a[..])[i := old(b[j])] && b[..] == old(b[..])[j := if trivial then old(b[j]) else Moved]
    ensures a == b ==> a[..] == old(a[..])[i := old(b[j])][j := if trivial then old(b[j]) else Moved]
  {
    a[i] := b[j];
    if !trivial { b[j] := Moved; }
  }

  /** A destructor call, skipped for trivial types. */
  method Destroy<T>(trivial: bool, a: array<Slot<T>>, i: nat)
    requires i < a.Length && (trivial || !a[i].Raw?)
    modifies a
    ensures a[..] == if trivial then old(a[..]) else old(a[..])[i := Raw]
  {
    if !trivial { a[i] := Raw; }
  }

  /** Returns a buffer to the heap; every object in it must have been destroyed. */
  method ReleaseBuffer<T>(trivial: bool, a: array<Slot<T>>)
    requires Vacant(trivial, a[..])
  {
  }

  /** `memcpy` of n slots between different buffers. */
  method Memcpy<T>(dst: array<Slot<T>>, di: nat, src: array<Slot<T>>, si: nat, n: nat)
    requires dst != src && di + n <= dst.Length && si + n <= src.Length
    modifies dst
    ensures dst[..] == old(dst[..])[..di] + src[si..si + n] + old(dst[..])[di + n..]
  {
    forall k | 0 <= k < n { dst[di + k] := src[si + k]; }
  }

  /** `memmove` of n slots inside one buffer. */
  method Memmove<T>(a: array<Slot<T>>, di: nat, si: nat, n: nat)
    requires di + n <= a.Length && si + n <= a.Length
    modifies a
    ensures a[..] == old(a[..])[..di] + old(a[..])[si..si + n] + old(a[..])[di + n..]
  {
    forall k | 0 <= k < n { a[di + k] := a[si + k]; }
  }
}
