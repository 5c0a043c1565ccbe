/** What the chunks of a deque hold, read one after the other. */
module DequeLayout {
  import opened Arith
  import opened Storage

  function Flat<T>(w: seq<seq<T>>): seq<T> {
    if w == [] then [] else w[0] + Flat(w[1..])
  }

  ghost predicate Uniform<T>(w: seq<seq<T>>, ce: nat) {
    forall i :: 0 <= i < |w| ==> |w[i]| == ce
  }

  lemma {:induction false} FlatLength<T>(w: seq<seq<T>>, ce: nat)
    requires Uniform(w, ce)
    ensures |Flat(w)| == ce * |w|
  {
    if w != [] {
      FlatLength(w[1..], ce);
      assert ce * |w| == ce * |w[1..]| + ce;
    }
  }

  lemma Reassociate<T>(a: seq<T>, b: seq<T>, c: seq<T>)
    ensures (a + b) + c == a + (b + c)
  {
  }

  lemma {:induction false} FlatAppend<T>(a: seq<seq<T>>, b: seq<seq<T>>)
    ensures Flat(a + b) == Flat(a) + Flat(b)
  {
    if a == [] {
      assert a + b == b;
    } else {
      FlatAppend(a[1..], b);
      assert (a + b)[1..] == a[1..] + b;
      Reassociate(a[0], Flat(a[1..]), Flat(b));
    }
  }

  lemma FlatOne<T>(c: seq<T>)
    ensures Flat([c]) == c
  {
    assert [c][1..] == [];
  }

  /** Slot k of chunk j is slot ce * j + k of the whole. */
  lemma {:induction false} FlatUpdate<T>(w: seq<seq<T>>, ce: nat, j: nat, k: nat, x: T)
    requires Uniform(w, ce) && j < |w| && k < ce
    ensures ce * j + k < |Flat(w)|
    ensures Flat(w)[ce * j + k] == w[j][k]
    ensures Flat(w[j := w[j][k := x]]) == Flat(w)[ce * j + k := x]
  {
    CellInside(w, ce, j, k);
    if j == 0 {
      assert w[0 := w[0][k := x]][1..] == w[1..];
    } else {
      FlatUpdate(w[1..], ce, j - 1, k, x);
      FlatTail(w, j, w[j][k := x]);
      UpdateBehind(w[0], Flat(w[1..]), ce * (j - 1) + k, x);
    }
  }

  lemma CellInside<T>(w: seq<seq<T>>, ce: nat, j: nat, k: nat)
    requires Uniform(w, ce) && j < |w| && k < ce
    ensures ce * j + k < |Flat(w)|
    ensures ce * j + k == if j == 0 then k else ce + (ce * (j - 1) + k)
  {
    FlatLength(w, ce);
    MulApart(ce, |w|, j);
  }

  lemma FlatTail<T>(w: seq<seq<T>>, j: nat, c: seq<T>)
    requires 0 < j < |w|
    ensures Flat(w[j := c]) == w[0] + Flat(w[1..][j - 1 := c])
  {
    assert w[j := c][1..] == w[1..][j - 1 := c];
  }

  lemma UpdateBehind<T>(h: seq<T>, f: seq<T>, p: nat, x: T)
    requires p < |f|
    ensures (h + f)[|h| + p] == f[p] && (h + f)[|h| + p := x] == h + f[p := x]
  {
  }

  /** The chunks hold exactly the elements: a raw run of a slots, the elements, and raw slots from
      offset b of the last chunk on. */
  ghost predicate Laid<T>(w: seq<seq<Slot<T>>>, ce: nat, a: nat, b: nat, s: seq<T>) {
    && |w| >= 1 && Uniform(w, ce) && a < ce && b < ce
    && Flat(w) == Raws(a) + Lives(s) + Raws(ce - b)
  }

  lemma LaidCount<T>(w: seq<seq<Slot<T>>>, ce: nat, a: nat, b: nat, s: seq<T>)
    requires Laid(w, ce, a, b, s)
    ensures ce * |w| == ce * (|w| - 1) + ce
    ensures a + |s| == ce * (|w| - 1) + b
  {
    FlatLength(w, ce);
  }

  lemma CellBelow(ce: nat, j: nat, k: nat, n: nat)
    requires ce * j + k < ce * n
    ensures j < n
  {
    MulCancel(ce, j, n);
  }

  /** The i-th element is in slot (a + i) % ce of chunk (a + i) / ce. */
  lemma LaidAt<T>(w: seq<seq<Slot<T>>>, ce: nat, a: nat, b: nat, s: seq<T>, i: nat)
    requires Laid(w, ce, a, b, s) && i < |s|
    ensures 0 <= (a + i) / ce < |w| && 0 <= (a + i) % ce < ce
    ensures w[(a + i) / ce][(a + i) % ce] == Live(s[i])
  {
    LaidCount(w, ce, a, b, s);
    var j, k := (a + i) / ce, (a + i) % ce;
    DivMod(a + i, ce);
    CellBelow(ce, j, k, |w|);
    FlatUpdate(w, ce, j, k, Raw);
    assert (Raws(a) + Lives(s) + Raws(ce - b))[a + i] == Live(s[i]);
  }

  /** The slot at the back cursor is raw; constructing there appends. */
  lemma LaidPushBack<T>(w: seq<seq<Slot<T>>>, ce: nat, a: nat, b: nat, s: seq<T>, v: T)
    requires Laid(w, ce, a, b, s)
    ensures var n := |w| - 1; w[n][b] == Raw
    ensures var n := |w| - 1; var w' := w[n := w[n][b := Live(v)]];
            && Flat(w') == Raws(a) + Lives(s + [v]) + Raws(ce - b - 1)
            && (b + 1 < ce ==> Laid(w', ce, a, b + 1, s + [v]))
            && (b + 1 == ce ==> Laid(w' + [Raws(ce)], ce, a, 0, s + [v]))
  {
    var n := |w| - 1;
    LaidCount(w, ce, a, b, s);
    FlatUpdate(w, ce, n, b, Live(v));
    var f := Raws(a) + Lives(s) + Raws<T>(ce - b);
    assert f[a + |s|] == Raw;
    assert f[a + |s| := Live(v)] == Raws(a) + Lives(s + [v]) + Raws(ce - b - 1);
    var w' := w[n := w[n][b := Live(v)]];
    if b + 1 == ce {
      FlatAppend(w', [Raws(ce)]);
      FlatOne(Raws<T>(ce));
      assert Raws(a) + Lives(s + [v]) + Raws(0) + Raws<T>(ce) == Raws(a) + Lives(s + [v]) + Raws(ce);
    }
  }

  /** Undoing it. */
  lemma LaidPopBack<T>(w: seq<seq<Slot<T>>>, ce: nat, a: nat, b: nat, s: seq<T>)
    requires Laid(w, ce, a, b, s) && s != [] && b > 0
    ensures var n := |w| - 1;
            && w[n][b - 1] == Live(s[|s| - 1])
            && Laid(w[n := w[n][b - 1 := Raw]], ce, a, b - 1, s[..|s| - 1])
  {
    var n := |w| - 1;
    LaidCount(w, ce, a, b, s);
    FlatUpdate(w, ce, n, b - 1, Raw);
    var f := Raws(a) + Lives(s) + Raws<T>(ce - b);
    assert f[a + |s| - 1 := Raw] == Raws(a) + Lives(s[..|s| - 1]) + Raws(ce - b + 1);
  }

  /** When the back cursor is at the start of its chunk, that chunk is empty and can go. */
  lemma LaidDropBack<T>(w: seq<seq<Slot<T>>>, ce: nat, a: nat, s: seq<T>)
    requires Laid(w, ce, a, 0, s) && s != []
    ensures |w| >= 2 && w[|w| - 1] == Raws(ce)
    ensures var n := |w| - 2;
            && w[n][ce - 1] == Live(s[|s| - 1])
            && Laid(w[..|w| - 1][n := w[n][ce - 1 := Raw]], ce, a, ce - 1, s[..|s| - 1])
  {
    LaidCount(w, ce, a, 0, s);
    if |w| == 1 { assert false; }
    var last := |w| - 1;
    var init := w[..last];
    assert w == init + [w[last]];
    FlatAppend(init, [w[last]]);
    FlatOne(w[last]);
    FlatLength(init, ce);
    var f := Raws(a) + Lives(s);
    assert Flat(w) == f + Raws(ce);
    assert Flat(init) == Flat(w)[..ce * last] == f;
    assert w[last] == Flat(w)[ce * last..];
    assert f == Raws(a) + Lives(s) + Raws(0);
    FlatUpdate(init, ce, last - 1, ce - 1, Raw);
    assert ce * (last - 1) + (ce - 1) == a + |s| - 1 by { assert ce * last == ce * (last - 1) + ce; }
    assert f[a + |s| - 1 := Raw] == Raws(a) + Lives(s[..|s| - 1]) + Raws(1);
  }

  lemma LaidPushFront<T>(w: seq<seq<Slot<T>>>, ce: nat, a: nat, b: nat, s: seq<T>, v: T)
    requires Laid(w, ce, a, b, s) && a > 0
    ensures w[0][a - 1] == Raw
    ensures Laid(w[0 := w[0][a - 1 := Live(v)]], ce, a - 1, b, [v] + s)
  {
    FlatUpdate(w, ce, 0, a - 1, Live(v));
    assert (Raws(a) + Lives(s) + Raws<T>(ce - b))[a - 1 := Live(v)] == Raws(a - 1) + Lives([v] + s) + Raws(ce - b);
  }

  /** A new chunk in front, its last slot taken. */
  lemma LaidGrowFront<T>(w: seq<seq<Slot<T>>>, ce: nat, b: nat, s: seq<T>, v: T)
    requires Laid(w, ce, 0, b, s)
    ensures Laid([Raws(ce)[ce - 1 := Live(v)]] + w, ce, ce - 1, b, [v] + s)
  {
    var c := Raws(ce)[ce - 1 := Live(v)];
    assert ([c] + w)[1..] == w;
    assert c + (Raws(0) + Lives(s) + Raws(ce - b)) == Raws(ce - 1) + Lives([v] + s) + Raws(ce - b);
  }

  lemma LaidPopFront<T>(w: seq<seq<Slot<T>>>, ce: nat, a: nat, b: nat, s: seq<T>)
    requires Laid(w, ce, a, b, s) && s != []
    ensures w[0][a] == Live(s[0])
    ensures a + 1 < ce ==> Laid(w[0 := w[0][a := Raw]], ce, a + 1, b, s[1..])
    ensures a + 1 == ce ==> |w| >= 2 && w[0][a := Raw] == Raws(ce) && Laid(w[1..], ce, 0, b, s[1..])
  {
    LaidCount(w, ce, a, b, s);
    FlatUpdate(w, ce, 0, a, Raw);
    var f := Raws(a) + Lives(s) + Raws<T>(ce - b);
    var w' := w[0 := w[0][a := Raw]];
    assert f[a := Raw] == Raws(a + 1) + Lives(s[1..]) + Raws(ce - b);
    if a + 1 == ce {
      if |w| == 1 { assert false; }
      assert w'[1..] == w[1..];
      assert Flat(w') == w'[0] + Flat(w[1..]);
      assert w'[0] == Flat(w')[..ce];
      assert Flat(w[1..]) == Flat(w')[ce..];
      assert f[a := Raw][ce..] == Raws(0) + Lives(s[1..]) + Raws(ce - b);
    }
  }

  // -- the four operations, whichever chunk they fall in ----------------------------------

  function BackPushed<T>(w: seq<seq<Slot<T>>>, ce: nat, b: nat, v: T): seq<seq<Slot<T>>>
    requires |w| >= 1 && Uniform(w, ce) && b < ce
  {
    var n := |w| - 1;
    w[n := w[n][b := Live(v)]] + if b + 1 < ce then [] else [Raws(ce)]
  }

  lemma LaidBackPushed<T>(w: seq<seq<Slot<T>>>, ce: nat, a: nat, b: nat, s: seq<T>, v: T)
    requires Laid(w, ce, a, b, s)
    ensures w[|w| - 1][b] == Raw
    ensures Laid(BackPushed(w, ce, b, v), ce, a, if b + 1 < ce then b + 1 else 0, s + [v])
  {
    LaidPushBack(w, ce, a, b, s, v);
    var n := |w| - 1;
    assert w[n := w[n][b := Live(v)]] + [] == w[n := w[n][b := Live(v)]];
  }

  function FrontPushed<T>(w: seq<seq<Slot<T>>>, ce: nat, a: nat, v: T): seq<seq<Slot<T>>>
    requires |w| >= 1 && Uniform(w, ce) && a < ce
  {
    if a > 0 then w[0 := w[0][a - 1 := Live(v)]] else [Raws(ce)[ce - 1 := Live(v)]] + w
  }

  lemma LaidFrontPushed<T>(w: seq<seq<Slot<T>>>, ce: nat, a: nat, b: nat, s: seq<T>, v: T)
    requires Laid(w, ce, a, b, s)
    ensures a > 0 ==> w[0][a - 1] == Raw
    ensures Laid(FrontPushed(w, ce, a, v), ce, if a > 0 then a - 1 else ce - 1, b, [v] + s)
  {
    if a > 0 { LaidPushFront(w, ce, a, b, s, v); } else { LaidGrowFront(w, ce, b, s, v); }
  }

  function BackPopped<T>(w: seq<seq<Slot<T>>>, ce: nat, b: nat): seq<seq<Slot<T>>>
    requires |w| >= (if b > 0 then 1 else 2) && Uniform(w, ce) && b < ce
  {
    if b > 0 then w[|w| - 1 := w[|w| - 1][b - 1 := Raw]]
    else w[..|w| - 1][|w| - 2 := w[|w| - 2][ce - 1 := Raw]]
  }

  lemma LaidBackPopped<T>(w: seq<seq<Slot<T>>>, ce: nat, a: nat, b: nat, s: seq<T>)
    requires Laid(w, ce, a, b, s) && s != []
    ensures b == 0 ==> |w| >= 2 && w[|w| - 1] == Raws(ce) && w[|w| - 2][ce - 1] == Live(s[|s| - 1])
    ensures b > 0 ==> w[|w| - 1][b - 1] == Live(s[|s| - 1])
    ensures Laid(BackPopped(w, ce, b), ce, a, if b > 0 then b - 1 else ce - 1, s[..|s| - 1])
  {
    if b > 0 { LaidPopBack(w, ce, a, b, s); } else { LaidDropBack(w, ce, a, s); }
  }

  function FrontPopped<T>(w: seq<seq<Slot<T>>>, ce: nat, a: nat): seq<seq<Slot<T>>>
    requires |w| >= 1 && Uniform(w, ce) && a < ce
  {
    if a + 1 < ce then w[0 := w[0][a := Raw]] else w[1..]
  }

  lemma LaidFrontPopped<T>(w: seq<seq<Slot<T>>>, ce: nat, a: nat, b: nat, s: seq<T>)
    requires Laid(w, ce, a, b, s) && s != []
    ensures w[0][a] == Live(s[0])
    ensures a + 1 == ce ==> |w| >= 2 && w[0][a := Raw] == Raws(ce)
    ensures Laid(FrontPopped(w, ce, a), ce, if a + 1 < ce then a + 1 else 0, b, s[1..])
  {
    LaidPopFront(w, ce, a, b, s);
  }

  // -- whole chunks ----------------------------------------------------------------------

  /** Exactly the slots between the cursors hold elements. */
  lemma LaidSlot<T>(w: seq<seq<Slot<T>>>, ce: nat, a: nat, b: nat, s: seq<T>, j: nat, k: nat)
    requires Laid(w, ce, a, b, s) && j < |w| && k < ce
    ensures w[j][k] == if a <= ce * j + k < a + |s| then Live(s[ce * j + k - a]) else Raw
    ensures a <= ce * j + k < a + |s| <==> (j > 0 || k >= a) && (j < |w| - 1 || k < b)
  {
    LaidCount(w, ce, a, b, s);
    FlatUpdate(w, ce, j, k, Raw);
    if j > 0 { MulApart(ce, j, 0); }
    if j < |w| - 1 { MulApart(ce, |w| - 1, j); }
  }

  /** Which offsets of chunk j hold elements. */
  lemma LaidChunk<T>(w: seq<seq<Slot<T>>>, ce: nat, a: nat, b: nat, s: seq<T>, j: nat)
    requires Laid(w, ce, a, b, s) && j < |w|
    ensures |w[j]| == ce
    ensures forall k :: 0 <= k < ce ==>
              if (j > 0 || k >= a) && (j < |w| - 1 || k < b) then w[j][k].Live? else w[j][k].Raw?
  {
    forall k | 0 <= k < ce
      ensures if (j > 0 || k >= a) && (j < |w| - 1 || k < b) then w[j][k].Live? else w[j][k].Raw?
    {
      LaidSlot(w, ce, a, b, s, j, k);
    }
  }

  lemma LaidEmpty<T>(ce: nat)
    requires ce > 0
    ensures Laid<T>([Raws(ce)], ce, 0, 0, [])
  {
    FlatOne(Raws<T>(ce));
  }

  /** A freshly initialised window in which s has been constructed from the first slot on. */
  ghost predicate Filling<T>(w: seq<seq<Slot<T>>>, ce: nat, s: seq<T>) {
    && Uniform(w, ce) && |s| <= ce * |w|
    && Flat(w) == Lives(s) + Raws(ce * |w| - |s|)
  }

  lemma {:induction false} FillingStart<T>(w: seq<seq<Slot<T>>>, ce: nat)
    requires forall i :: 0 <= i < |w| ==> w[i] == Raws(ce)
    ensures Filling(w, ce, [])
  {
    FlatRaws(w, ce);
    assert Lives<T>([]) + Raws(ce * |w|) == Raws(ce * |w|);
  }

  lemma {:induction false} FlatRaws<T>(w: seq<seq<Slot<T>>>, ce: nat)
    requires forall i :: 0 <= i < |w| ==> w[i] == Raws(ce)
    ensures Flat(w) == Raws(ce * |w|)
  {
    if w != [] {
      FlatRaws(w[1..], ce);
      assert ce * |w| == ce + ce * |w[1..]|;
    }
  }

  lemma FillingStep<T>(w: seq<seq<Slot<T>>>, ce: nat, j: nat, k: nat, s: seq<T>, v: T)
    requires j < |w| && k < ce && |s| == ce * j + k && Filling(w, ce, s)
    ensures w[j][k] == Raw
    ensures Filling(w[j := w[j][k := Live(v)]], ce, s + [v])
  {
    FlatUpdate(w, ce, j, k, Live(v));
    FlatLength(w, ce);
    assert (Lives(s) + Raws<T>(ce * |w| - |s|))[|s| := Live(v)] == Lives(s + [v]) + Raws(ce * |w| - (|s| + 1));
  }

  lemma FillingDone<T>(w: seq<seq<Slot<T>>>, ce: nat, r: nat, s: seq<T>)
    requires |w| >= 1 && r < ce && |s| == ce * (|w| - 1) + r && Filling(w, ce, s)
    ensures Laid(w, ce, 0, r, s)
  {
    var c := ce * |w| - |s|;
    assert ce * |w| == ce * (|w| - 1) + ce;
    assert c == ce - r;
    assert Raws(0) + Lives(s) + Raws<T>(c) == Lives(s) + Raws(c);
  }

  lemma UpdateFirst<T>(x: T, rest: seq<T>, y: T)
    ensures ([x] + rest)[0 := y] == [y] + rest
  {
  }
}
