/** `::operator new(n * sizeof(T))`: the product is a size_t, and wraps. */
module Allocation {
  import opened Arith
  import opened Bits

  /** The bytes that are asked for. */
  function Bytes(n: nat, elemSize: nat): (b: nat)
    ensures b < WORD
  {
    (n * elemSize) % WORD
  }

  /** The bytes that n elements take are a word, and a heap that grants up to `heap` bytes has them. */
  predicate Backed(n: nat, elemSize: nat, heap: nat) {
    n * elemSize < WORD && n * elemSize <= heap
  }

  /** Refused with `std::bad_alloc`, or granted: enough for n elements, or less than they take. */
  datatype Grant = Refused | Short | Enough

  function Ask(n: nat, elemSize: nat, heap: nat): Grant {
    if Bytes(n, elemSize) > heap then Refused else if n * elemSize < WORD then Enough else Short
  }

  /** What is granted holds the elements exactly if their size in bytes is a word. */
  lemma GrantHoldsIff(n: nat, elemSize: nat)
    ensures Bytes(n, elemSize) >= n * elemSize <==> n * elemSize < WORD
    ensures n * elemSize < WORD ==> Bytes(n, elemSize) == n * elemSize
  {
    if n * elemSize < WORD { ModSmall(n * elemSize, WORD); }
  }

  lemma EnoughIsBacked(n: nat, elemSize: nat, heap: nat)
    ensures Ask(n, elemSize, heap) == Enough <==> Backed(n, elemSize, heap)
  {
    GrantHoldsIff(n, elemSize);
  }

  /** A smaller buffer than one that was granted in full will be too. */
  lemma SmallerIsBacked(m: nat, n: nat, elemSize: nat, heap: nat)
    requires m <= n && Backed(n, elemSize, heap)
    ensures Backed(m, elemSize, heap) && Ask(m, elemSize, heap) == Enough
  {
    assert (n - m) * elemSize >= 0;
    assert (n - m) * elemSize == n * elemSize - m * elemSize;
    EnoughIsBacked(m, elemSize, heap);
  }

  lemma BackedBelowHeap(n: nat, elemSize: nat, heap: nat)
    requires elemSize >= 1 && Backed(n, elemSize, heap)
    ensures n <= heap && n < WORD
  {
    assert n * (elemSize - 1) >= 0;
    assert n * (elemSize - 1) == n * elemSize - n;
  }

  /** The elements that fit into what is granted. */
  function Held(n: nat, elemSize: nat): (k: nat)
    requires elemSize >= 1
  {
    Bytes(n, elemSize) / elemSize
  }

  lemma HeldIff(n: nat, elemSize: nat)
    requires elemSize >= 1
    ensures Held(n, elemSize) <= n
    ensures Held(n, elemSize) == n <==> n * elemSize < WORD
  {
    GrantHoldsIff(n, elemSize);
    var b, k := Bytes(n, elemSize), Held(n, elemSize);
    DivMod(b, elemSize);
    if n * elemSize < WORD {
      ModUnique(b, elemSize, n, 0);
    } else {
      MulCancel(elemSize, k, n);
    }
  }
}
