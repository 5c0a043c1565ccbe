/** Circular buffers, seen unrolled from their head. */
module Circular {
  import opened Arith
  import opened Bits
  import opened Storage

  /** The buffer read from `head` once round. */
  function Unroll<T>(b: seq<T>, head: nat): (r: seq<T>)
    requires head <= |b|
    ensures |r| == |b|
  {
    b[head..] + b[..head]
  }

  function Next(i: nat, cap: nat): nat {
    if i + 1 == cap then 0 else i + 1
  }

  lemma NextIndex(i: nat, cap: nat)
    requires IsPow2(cap) && i < cap
    ensures And(i + 1, cap - 1) == Next(i, cap)
  {
    MaskIsMod(i + 1, cap);
    if i + 1 == cap { ModUnique(cap, cap, 1, 0); } else { ModSmall(i + 1, cap); }
  }

  /** `advance`: the next index round the buffer. */
  method Advance(i: nat, mask: nat) returns (j: nat)
    requires IsPow2(mask + 1) && i <= mask
    ensures j == Next(i, mask + 1)
  {
    NextIndex(i, mask + 1);
    j := And(i + 1, mask);
  }

  /** The physical index of the k-th logical slot. */
  function At(head: nat, k: nat, cap: nat): nat {
    if head + k < cap then head + k else head + k - cap
  }

  /** `tail - head + cap` on `size_t`: the wrap-around of the subtraction cancels. */
  lemma WrapCancels(head: nat, tail: nat, cap: nat)
    requires 2 * cap <= WORD && head < cap && tail < cap
    ensures WrapAdd(WrapSub(tail, head), cap) == tail - head + cap
  {
    ModOfMod(tail - head, cap, WORD);
    ModSmall(tail - head + cap, WORD);
  }

  /** `(tail - head + cap) & mask` counts the slots from head round to tail. */
  lemma MaskedDistance(head: nat, tail: nat, cap: nat)
    requires IsPow2(cap) && 2 * cap <= WORD && head < cap && tail < cap
    ensures And(WrapAdd(WrapSub(tail, head), cap), cap - 1) == if head <= tail then tail - head else tail + cap - head
  {
    WrapCancels(head, tail, cap);
    var x := tail - head + cap;
    MaskIsMod(x, cap);
    if head <= tail { ModUnique(x, cap, 1, tail - head); } else { ModSmall(x, cap); }
  }

  /** Writing one physical slot writes one logical slot. */
  lemma UnrollUpdate<T>(b: seq<T>, head: nat, k: nat, x: T)
    requires head < |b| && k < |b|
    ensures At(head, k, |b|) < |b|
    ensures Unroll(b[At(head, k, |b|) := x], head) == Unroll(b, head)[k := x]
    ensures Unroll(b, head)[k] == b[At(head, k, |b|)]
  {
  }

  /** Advancing the head rotates the view. */
  lemma UnrollAdvance<T>(b: seq<T>, head: nat)
    requires head < |b|
    ensures var h := Next(head, |b|);
            Unroll(b, h) == Unroll(b, head)[1..] + [Unroll(b, head)[0]]
  {
  }

  /** A circular buffer of power-of-two size holding exactly these elements. */
  ghost predicate Holds<T>(trivial: bool, b: seq<Slot<T>>, head: nat, tail: nat, s: seq<T>) {
    && IsPow2(|b|) && 2 * |b| <= WORD && head < |b| && tail < |b| && |s| < |b|
    && tail == At(head, |s|, |b|)
    && Unroll(b, head)[..|s|] == Lives(s)
    && Vacant(trivial, Unroll(b, head)[|s|..])
  }

  /** `size`: `(tail - head + cap) & mask`, wrapping, counts exactly the elements; without a buffer
      it is 0 whatever the mask. */
  method Count<T>(ghost trivial: bool, ghost b: seq<Slot<T>>, head: nat, tail: nat, cap: nat, mask: nat, ghost s: seq<T>)
    returns (n: nat)
    requires if cap == 0 then head == tail == 0 && s == []
             else mask == cap - 1 && |b| == cap && Holds(trivial, b, head, tail, s)
    ensures n == |s|
    ensures head == tail <==> s == []
  {
    if cap > 0 { MaskedDistance(head, tail, cap); }
    n := And(WrapAdd(WrapSub(tail, head), cap), mask);
  }

  /** Room at the tail: one more element may be constructed there. */
  lemma HoldsPush<T>(trivial: bool, b: seq<Slot<T>>, head: nat, tail: nat, s: seq<T>, v: T)
    requires Holds(trivial, b, head, tail, s) && |s| + 1 < |b|
    ensures trivial || b[tail].Raw?
    ensures Holds(trivial, b[tail := Live(v)], head, Next(tail, |b|), s + [v])
  {
    UnrollUpdate(b, head, |s|, Live(v));
    var u := Unroll(b, head);
    assert trivial || u[|s|..][0].Raw?;
    assert u[|s| := Live(v)][..|s| + 1] == u[..|s|] + [Live(v)];
    assert Lives(s + [v]) == Lives(s) + [Live(v)];
    assert u[|s| := Live(v)][|s| + 1..] == u[|s|..][1..];
  }

  lemma UnrollPop<T>(trivial: bool, b: seq<Slot<T>>, head: nat, s: seq<T>)
    requires 0 < |s| < |b| && head < |b| && Unroll(b, head)[..|s|] == Lives(s)
    requires Vacant(trivial, Unroll(b, head)[|s|..])
    ensures var b' := if trivial then b else b[head := Raw];
            var h := Next(head, |b|);
            && Unroll(b', h)[..|s| - 1] == Lives(s[1..])
            && Vacant(trivial, Unroll(b', h)[|s| - 1..])
  {
    var b' := if trivial then b else b[head := Raw];
    UnrollAdvance(b', head);
    UnrollUpdate(b, head, 0, Raw);
    var u, u' := Unroll(b, head), Unroll(b', head);
    assert u'[1..] == u[1..];
    assert (u[1..] + [u'[0]])[..|s| - 1] == u[..|s|][1..];
    assert Lives(s[1..]) == Lives(s)[1..];
    assert (u[1..] + [u'[0]])[|s| - 1..] == u[|s|..] + [u'[0]];
  }

  /** The front slot is live and may be destroyed. */
  lemma HoldsPop<T>(trivial: bool, b: seq<Slot<T>>, head: nat, tail: nat, s: seq<T>)
    requires Holds(trivial, b, head, tail, s) && s != []
    ensures b[head] == Live(s[0])
    ensures Holds(trivial, if trivial then b else b[head := Raw], Next(head, |b|), tail, s[1..])
  {
    var cap := |b|;
    UnrollPop(trivial, b, head, s);
    ReadAt(b, head, s, 0);
  }

  lemma NextAt(head: nat, k: nat, cap: nat)
    requires head < cap && k < cap
    ensures At(head, k, cap) < cap
    ensures Next(At(head, k, cap), cap) == At(head, k + 1, cap)
  {
  }

  lemma ReadAt<T>(b: seq<Slot<T>>, head: nat, s: seq<T>, k: nat)
    requires head < |b| && k < |s| <= |b| && Unroll(b, head)[..|s|] == Lives(s)
    ensures At(head, k, |b|) < |b| && b[At(head, k, |b|)] == Live(s[k])
  {
    assert Unroll(b, head)[k] == b[At(head, k, |b|)];
    assert Lives(s)[k] == Unroll(b, head)[..|s|][k];
  }

  lemma AtApart(head: nat, j: nat, k: nat, cap: nat)
    requires head < cap && j < k < cap
    ensures At(head, j, cap) != At(head, k, cap)
  {
  }

  /** n constructed slots, possibly moved-from, between head and tail. */
  ghost predicate Occupied<T>(trivial: bool, b: seq<Slot<T>>, head: nat, tail: nat, n: nat) {
    && IsPow2(|b|) && 2 * |b| <= WORD && head < |b| && n < |b|
    && tail == At(head, n, |b|)
    && (trivial || forall k :: 0 <= k < n ==> !Unroll(b, head)[k].Raw?)
    && Vacant(trivial, Unroll(b, head)[n..])
  }

  lemma HoldsOccupied<T>(trivial: bool, b: seq<Slot<T>>, head: nat, tail: nat, s: seq<T>)
    requires Holds(trivial, b, head, tail, s)
    ensures Occupied(trivial, b, head, tail, |s|)
  {
    forall k | 0 <= k < |s| ensures !Unroll(b, head)[k].Raw? {
      ReadAt(b, head, s, k);
      UnrollUpdate(b, head, k, Raw);
    }
  }

  lemma UnrollDestroy<T>(trivial: bool, b: seq<Slot<T>>, head: nat, n: nat)
    requires 0 < n < |b| && head < |b| && Vacant(trivial, Unroll(b, head)[n..])
    requires trivial || forall k :: 0 <= k < n ==> !Unroll(b, head)[k].Raw?
    ensures var b' := if trivial then b else b[head := Raw];
            var h := Next(head, |b|);
            && (trivial || forall k :: 0 <= k < n - 1 ==> !Unroll(b', h)[k].Raw?)
            && Vacant(trivial, Unroll(b', h)[n - 1..])
    ensures trivial || !b[head].Raw?
  {
    var b' := if trivial then b else b[head := Raw];
    UnrollUpdate(b, head, 0, Raw);
    UnrollAdvance(b', head);
    var u, u' := Unroll(b, head), Unroll(b', head);
    assert u'[1..] == u[1..];
    var r := u[1..] + [u'[0]];
    assert r[n - 1..] == u[n..] + [u'[0]];
    forall k | 0 <= k < n - 1 ensures r[k] == u[k + 1] {}
  }

  lemma OccupiedPop<T>(trivial: bool, b: seq<Slot<T>>, head: nat, tail: nat, n: nat)
    requires Occupied(trivial, b, head, tail, n) && n > 0
    ensures trivial || !b[head].Raw?
    ensures Occupied(trivial, if trivial then b else b[head := Raw], Next(head, |b|), tail, n - 1)
  {
    UnrollDestroy(trivial, b, head, n);
  }

  /** A masked index that has walked k of n slots. */
  ghost predicate Walk(head: nat, n: nat, cap: nat, i: nat, k: nat) {
    head < cap && k <= n < cap && i == At(head, k, cap)
  }

  lemma WalkStep(head: nat, n: nat, cap: nat, i: nat, k: nat)
    requires Walk(head, n, cap, i, k) && i != At(head, n, cap)
    ensures k < n && i < cap && Walk(head, n, cap, Next(i, cap), k + 1)
  {
    NextAt(head, k, cap);
  }

  lemma WalkEnd(head: nat, n: nat, cap: nat, i: nat, k: nat)
    requires Walk(head, n, cap, i, k)
    ensures i == At(head, n, cap) <==> k == n
  {
    if k < n { AtApart(head, k, n, cap); }
  }

  /** The first k logical slots have been moved from, the others are as they were. */
  ghost predicate Husked<T>(before: seq<Slot<T>>, now: seq<Slot<T>>, head: nat, k: nat) {
    && head < |before| == |now| && k <= |now|
    && (forall j :: 0 <= j < k ==> !Unroll(now, head)[j].Raw?)
    && (forall j :: k <= j < |now| ==> Unroll(now, head)[j] == Unroll(before, head)[j])
  }

  lemma HuskStep<T>(trivial: bool, before: seq<Slot<T>>, now: seq<Slot<T>>, head: nat, s: seq<T>, k: nat)
    requires Husked(before, now, head, k) && k < |s| <= |before|
    requires Unroll(before, head)[..|s|] == Lives(s)
    ensures At(head, k, |now|) < |now|
    ensures var p := At(head, k, |now|);
            now[p] == Live(s[k]) && Husked(before, now[p := if trivial then now[p] else Moved], head, k + 1)
  {
    var p := At(head, k, |now|);
    ReadAt(before, head, s, k);
    UnrollUpdate(before, head, k, Raw);
    UnrollUpdate(now, head, k, if trivial then now[p] else Moved);
  }

  lemma HuskedOccupied<T>(trivial: bool, before: seq<Slot<T>>, now: seq<Slot<T>>, head: nat, tail: nat, s: seq<T>)
    requires Holds(trivial, before, head, tail, s) && Husked(before, now, head, |s|)
    ensures Occupied(trivial, now, head, tail, |s|)
  {
    if !trivial {
      forall j | 0 <= j < |now| - |s| ensures Unroll(now, head)[|s|..][j].Raw? {
        assert Unroll(before, head)[|s|..][j].Raw?;
      }
    }
  }
}
