/** Positions in the chunk map and the iterator arithmetic on them. */
module DequeIterator {
  import opened Arith

  /** A map entry and an offset into its chunk. */
  datatype Pos = Pos(node: int, off: int)

  predicate Normal(p: Pos, ce: nat) {
    0 <= p.off < ce
  }

  /** Division as the hardware does it: towards zero. */
  function TruncDiv(a: int, b: nat): int
    requires b > 0
  {
    if a >= 0 then a / b else -((-a) / b)
  }

  /** `++` */
  function Next(p: Pos, ce: nat): Pos {
    if p.off + 1 == ce then Pos(p.node + 1, 0) else Pos(p.node, p.off + 1)
  }

  /** `--` */
  function Prev(p: Pos, ce: nat): Pos {
    if p.off == 0 then Pos(p.node - 1, ce - 1) else Pos(p.node, p.off - 1)
  }

  /** `+= n` */
  function Plus(p: Pos, n: int, ce: nat): Pos
    requires ce > 0
  {
    var off := n + p.off;
    if 0 <= off < ce then Pos(p.node, p.off + n)
    else
      var nodeOff := if off > 0 then TruncDiv(off, ce) else -TruncDiv(-off - 1, ce) - 1;
      Pos(p.node + nodeOff, off - nodeOff * ce)
  }

  /** `a - b` */
  function Minus(a: Pos, b: Pos, ce: nat): int {
    ce * (a.node - b.node - 1) + a.off + (ce - b.off)
  }

  /** `a < b` */
  predicate Less(a: Pos, b: Pos) {
    if a.node == b.node then a.off < b.off else a.node < b.node
  }

  /** The logical position. */
  function Linear(p: Pos, ce: nat): int {
    ce * p.node + p.off
  }

  lemma FloorDivision(off: int, ce: nat)
    requires ce > 0 && !(0 <= off < ce)
    ensures (if off > 0 then TruncDiv(off, ce) else -TruncDiv(-off - 1, ce) - 1) == off / ce
    ensures 0 <= off - (off / ce) * ce < ce
  {
    assert off == ce * (off / ce) + off % ce;
    if off < 0 {
      var q, r := (-off - 1) / ce, (-off - 1) % ce;
      assert -off - 1 == ce * q + r;
      assert off == ce * (-q - 1) + (ce - 1 - r) by {
        assert ce * (-q - 1) == -(ce * q) - ce;
      }
      ModUnique(off, ce, -q - 1, ce - 1 - r);
    }
  }

  /** `+= n` lands on the position n further, normalised. */
  lemma PlusExact(p: Pos, n: int, ce: nat)
    requires Normal(p, ce)
    ensures Normal(Plus(p, n, ce), ce)
    ensures Linear(Plus(p, n, ce), ce) == Linear(p, ce) + n
    ensures Plus(p, n, ce) == Pos(p.node + (p.off + n) / ce, (p.off + n) % ce)
  {
    var off := n + p.off;
    var q := off / ce;
    if 0 <= off < ce {
      ModUnique(off, ce, 0, off);
    } else {
      FloorDivision(off, ce);
      LinearCarry(p.node, off, q, ce);
    }
  }

  lemma LinearAhead(a: Pos, b: Pos, m: int, ce: nat)
    requires b.node == a.node + m
    ensures Linear(b, ce) == Linear(a, ce) + ce * m + b.off - a.off
  {
    assert ce * b.node == ce * a.node + ce * m;
  }

  lemma LinearCarry(node: int, off: int, q: int, ce: nat)
    ensures Linear(Pos(node + q, off - q * ce), ce) == Linear(Pos(node, off), ce)
  {
    assert ce * (node + q) == ce * node + ce * q;
  }

  /** Normal positions are determined by their logical position, and `<` orders them by it. */
  lemma LessIsOrder(a: Pos, b: Pos, ce: nat)
    requires Normal(a, ce) && Normal(b, ce)
    ensures Less(a, b) <==> Linear(a, ce) < Linear(b, ce)
    ensures a == b <==> Linear(a, ce) == Linear(b, ce)
  {
    if a.node < b.node { MulApart(ce, b.node, a.node); }
    else if a.node > b.node { MulApart(ce, a.node, b.node); }
  }

  lemma MinusIsDistance(a: Pos, b: Pos, ce: nat)
    ensures Minus(a, b, ce) == Linear(a, ce) - Linear(b, ce)
  {
    assert ce * (a.node - b.node - 1) == ce * a.node - ce * b.node - ce;
  }

  /** `(i + n) - i == n`. */
  lemma PlusMinus(p: Pos, n: int, ce: nat)
    requires Normal(p, ce)
    ensures Minus(Plus(p, n, ce), p, ce) == n
  {
    PlusExact(p, n, ce);
    MinusIsDistance(Plus(p, n, ce), p, ce);
  }

  lemma NextPrevExact(p: Pos, ce: nat)
    requires Normal(p, ce)
    ensures Normal(Next(p, ce), ce) && Linear(Next(p, ce), ce) == Linear(p, ce) + 1
    ensures Normal(Prev(p, ce), ce) && Linear(Prev(p, ce), ce) == Linear(p, ce) - 1
    ensures Prev(Next(p, ce), ce) == p && Next(Prev(p, ce), ce) == p
  {
    assert ce * (p.node + 1) == ce * p.node + ce;
    assert ce * (p.node - 1) == ce * p.node - ce;
  }

  /** n applications of `++`, or -n of `--`. */
  function Walk(p: Pos, n: int, ce: nat): Pos
    decreases if n >= 0 then n else -n
  {
    if n == 0 then p else if n > 0 then Next(Walk(p, n - 1, ce), ce) else Prev(Walk(p, n + 1, ce), ce)
  }

  /** `+= n` is n steps. */
  lemma {:induction false} PlusIsWalk(p: Pos, n: int, ce: nat)
    requires Normal(p, ce)
    ensures Plus(p, n, ce) == Walk(p, n, ce)
    decreases if n >= 0 then n else -n
  {
    PlusExact(p, n, ce);
    if n > 0 {
      PlusIsWalk(p, n - 1, ce);
      PlusExact(p, n - 1, ce);
      NextPrevExact(Plus(p, n - 1, ce), ce);
      LessIsOrder(Plus(p, n, ce), Walk(p, n, ce), ce);
    } else if n < 0 {
      PlusIsWalk(p, n + 1, ce);
      PlusExact(p, n + 1, ce);
      NextPrevExact(Plus(p, n + 1, ce), ce);
      LessIsOrder(Plus(p, n, ce), Walk(p, n, ce), ce);
    }
  }
}
