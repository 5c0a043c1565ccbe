/** The vector's capacity-doubling loop, on a size_t that wraps. */
module Growth {
  import opened Arith
  import opened Bits

  /** `new_cap *= 2` */
  function Twice(c: nat): (r: nat)
    ensures r < WORD
  {
    (2 * c) % WORD
  }

  /** `cap_ ? cap_ * 2 : 4` */
  function First(cap: nat): (r: nat)
    ensures r < WORD
  {
    if cap > 0 then Twice(cap) else 4
  }

  /** new_cap after k rounds of the loop body. */
  function Iter(c: nat, k: nat): nat {
    if k == 0 then c else Twice(Iter(c, k - 1))
  }

  /** The loop from c ends: some iterate reaches the need. */
  ghost predicate Reaches(c: nat, need: nat) {
    exists k: nat :: Iter(c, k) >= need
  }

  /** No value of a size_t. */
  const NEVER := WORD

  /** Where the loop ends within the given number of rounds, or NEVER. */
  function Landing(c: nat, need: nat, rounds: nat): nat
    decreases rounds
  {
    if c >= need then c else if rounds == 0 then NEVER else Landing(Twice(c), need, rounds - 1)
  }

  lemma {:induction false} IterShift(c: nat, k: nat)
    ensures Iter(Twice(c), k) == Iter(c, k + 1)
  {
    if k > 0 { IterShift(c, k - 1); }
  }

  lemma {:induction false} IterIsProduct(c: nat, k: nat)
    requires c < WORD
    ensures Iter(c, k) == (c * Pow2(k)) % WORD
  {
    if k == 0 {
      ModSmall(c, WORD);
    } else {
      IterIsProduct(c, k - 1);
      var x := c * Pow2(k - 1);
      assert c * Pow2(k) == 2 * x;
      TwiceOfMod(x);
    }
  }

  lemma TwiceOfMod(x: nat)
    ensures Twice(x % WORD) == (2 * x) % WORD
  {
    DivMod(x, WORD);
    ModShift(2 * (x % WORD), 2 * (x / WORD), WORD);
  }

  /** After 64 rounds every bit has been shifted out. */
  lemma {:induction false} IterVanishes(c: nat, k: nat)
    requires c < WORD && k >= 64
    ensures Iter(c, k) == 0
  {
    if k == 64 {
      WordIsPow2();
      IterIsProduct(c, 64);
      ModShift(0, c, WORD);
    } else {
      IterVanishes(c, k - 1);
      ModSmall(0, WORD);
    }
  }

  /** A loop that will end at all ends within 64 rounds, where Landing says. */
  lemma Lands(c: nat, need: nat)
    requires c < WORD && need < WORD
    ensures Landing(c, need, 64) != NEVER <==> Reaches(c, need)
  {
    if Landing(c, need, 64) != NEVER {
      LandsSomewhere(c, need, 64);
    }
    if Reaches(c, need) {
      var k: nat :| Iter(c, k) >= need;
      if k > 64 {
        IterVanishes(c, k);
        LandsBy(c, need, 0, 64);
      } else {
        LandsBy(c, need, k, 64);
      }
    }
  }

  lemma {:induction false} LandsSomewhere(c: nat, need: nat, rounds: nat)
    requires c < WORD && Landing(c, need, rounds) != NEVER
    ensures Reaches(c, need)
    decreases rounds
  {
    if c >= need {
      assert Iter(c, 0) >= need;
    } else {
      LandsSomewhere(Twice(c), need, rounds - 1);
      var k: nat :| Iter(Twice(c), k) >= need;
      IterShift(c, k);
    }
  }

  lemma {:induction false} LandsBy(c: nat, need: nat, k: nat, rounds: nat)
    requires c < WORD && k <= rounds && Iter(c, k) >= need
    ensures Landing(c, need, rounds) != NEVER
    decreases k
  {
    if c < need {
      IterShift(c, k - 1);
      LandsBy(Twice(c), need, k - 1, rounds - 1);
    }
  }

  /** Where the loop ends there is room, and past the first value less than twice what was needed. */
  lemma {:induction false} LandingFits(c: nat, need: nat, rounds: nat)
    requires c < WORD && Landing(c, need, rounds) != NEVER
    ensures need <= Landing(c, need, rounds) < WORD
    ensures Landing(c, need, rounds) == c || (c < need && Landing(c, need, rounds) < 2 * need)
    decreases rounds
  {
    if c < need {
      LandingFits(Twice(c), need, rounds - 1);
      TwiceAtMost(c);
    }
  }

  /** Where the loop ends is the first iterate that is enough, and the k-th iterate is c * 2^k, wrapped. */
  lemma {:induction false} LandingIsFirst(c: nat, need: nat, rounds: nat) returns (k: nat)
    requires c < WORD && Landing(c, need, rounds) != NEVER
    ensures k <= rounds && Landing(c, need, rounds) == Iter(c, k) == (c * Pow2(k)) % WORD
    ensures Iter(c, k) >= need && forall j: nat | j < k :: Iter(c, j) < need
    decreases rounds
  {
    if c >= need {
      k := 0;
    } else {
      var m := LandingIsFirst(Twice(c), need, rounds - 1);
      k := m + 1;
      IterShift(c, m);
      forall j: nat | j < k ensures Iter(c, j) < need {
        if j > 0 { IterShift(c, j - 1); }
      }
    }
    IterIsProduct(c, k);
  }

  lemma TwiceAtMost(c: nat)
    requires c < WORD
    ensures Twice(c) <= 2 * c
  {
    DivMod(2 * c, WORD);
  }

  lemma {:induction false} LandingOfZero(need: nat, rounds: nat)
    requires need > 0
    ensures Landing(0, need, rounds) == NEVER
  {
    ModSmall(0, WORD);
    if rounds > 0 { LandingOfZero(need, rounds - 1); }
  }

  lemma GrowStep(first: nat, need: nat, k: nat)
    requires first < WORD && k <= 64 && 0 < Iter(first, k) < need
    ensures k < 64
    ensures Landing(Iter(first, k), need, 64 - k) == Landing(Iter(first, k + 1), need, 64 - (k + 1))
  {
    if k == 64 { IterVanishes(first, 64); }
  }

  /** The loop.  The source has no way out once new_cap is 0; the model reports it. */
  method Grow(first: nat, need: nat) returns (newCap: nat, ends: bool)
    requires first < WORD && need < WORD
    ensures ends <==> Reaches(first, need)
    ensures ends ==> newCap == Landing(first, need, 64)
  {
    newCap := first;
    ghost var k := 0;
    Lands(first, need);
    while newCap < need
      invariant k <= 64 && newCap == Iter(first, k)
      invariant Landing(first, need, 64) == Landing(newCap, need, 64 - k)
      decreases 64 - k
    {
      if newCap == 0 {
        LandingOfZero(need, 64 - k);
        return newCap, false;
      }
      GrowStep(first, need, k);
      newCap := Twice(newCap);
      k := k + 1;
    }
    return newCap, true;
  }

  // -- when it ends ----------------------------------------------------------------------

  lemma {:induction false} PowerIter(m: nat, k: nat)
    requires m <= 63
    ensures Iter(Pow2(m), k) == if m + k <= 63 then Pow2(m + k) else 0
  {
    if k > 0 {
      PowerIter(m, k - 1);
      if m + k <= 63 {
        TwicePower(m + k - 1);
      } else if m + k == 64 {
        TwicePower(63);
      } else {
        ModSmall(0, WORD);
      }
    }
  }

  lemma TwicePower(j: nat)
    requires j <= 63
    ensures Twice(Pow2(j)) == if j < 63 then Pow2(j + 1) else 0
  {
    WordIsPow2();
    TwiceBelowTop(j, 63);
  }

  lemma TwiceBelowTop(j: nat, top: nat)
    requires j <= top && Pow2(top) == HALF
    ensures Twice(Pow2(j)) == if j < top then Pow2(j + 1) else 0
  {
    if j < top { Pow2Grows(j, top); }
    TwiceIs(Pow2(j));
  }

  lemma TwiceIs(c: nat)
    requires c <= HALF
    ensures Twice(c) == if c < HALF then 2 * c else 0
  {
    if c < HALF {
      ModSmall(2 * c, WORD);
    } else {
      ModShift(0, 1, WORD);
    }
  }

  /** From no buffer or a power of two, which is all that growing from empty makes, the loop ends
      exactly if the need is at most 2^63. */
  lemma DoublingEndsIff(cap: nat, need: nat)
    requires (cap == 0 || IsPow2(cap)) && cap < need < WORD
    ensures Reaches(First(cap), need) <==> need <= HALF
  {
    WordIsPow2();
    var m := FirstPower(cap);
    if m == 64 {
      ZeroBounded(need);
    } else {
      PowerBounded(m, need);
      PowerIter(m, 63 - m);
    }
  }

  /** The first value is a power of two below 2^64, or 0 after 2^63. */
  lemma FirstPower(cap: nat) returns (m: nat)
    requires (cap == 0 || IsPow2(cap)) && cap < WORD
    ensures m <= 64 && if m == 64 then First(cap) == 0 && cap == HALF else First(cap) == Pow2(m)
  {
    if cap == 0 {
      m := 2;
    } else {
      WordIsPow2();
      var j := Log(cap);
      if j >= 64 { Pow2Monotone(64, j); }
      m := j + 1;
      TwicePower(j);
    }
  }

  /** From 0, no iterate is above 0; from a power of two, none is above 2^63. */
  lemma ZeroBounded(need: nat)
    ensures Reaches(0, need) ==> need == 0
  {
    if Reaches(0, need) {
      var k: nat :| Iter(0, k) >= need;
      ZeroStays(k);
    }
  }

  lemma PowerBounded(m: nat, need: nat)
    requires m <= 63
    ensures Reaches(Pow2(m), need) ==> need <= HALF
  {
    if Reaches(Pow2(m), need) {
      var k: nat :| Iter(Pow2(m), k) >= need;
      IterBelowHalf(m, k);
    }
  }

  lemma IterBelowHalf(m: nat, k: nat)
    requires m <= 63
    ensures Iter(Pow2(m), k) <= HALF
  {
    WordIsPow2();
    PowerIter(m, k);
    if m + k <= 63 { Pow2Monotone(m + k, 63); }
  }

  lemma {:induction false} ZeroStays(k: nat)
    ensures Iter(0, k) == 0
  {
    if k > 0 {
      ZeroStays(k - 1);
      ModSmall(0, WORD);
    }
  }

  /** An empty vector asked to resize to 2^63 + 1: new_cap runs through 4, 8, ..., 2^63, 0, 0, ... */
  lemma ResizeSpins(k: nat)
    ensures Iter(First(0), k) < HALF + 1
    ensures !Reaches(First(0), HALF + 1)
  {
    DoublingEndsIff(0, HALF + 1);
  }

  /** One more element than a capacity below 2^63: the first value is enough. */
  lemma OneMoreEnds(cap: nat)
    requires 2 * cap < WORD
    ensures Landing(First(cap), cap + 1, 64) == (if cap > 0 then 2 * cap else 4)
    ensures Reaches(First(cap), cap + 1)
  {
    ModSmall(2 * cap, WORD);
    Lands(First(cap), cap + 1);
  }

  /** A full power-of-two buffer grows by exactly doubling, or not at all. */
  lemma FullDoubles(cap: nat)
    requires (cap == 0 || IsPow2(cap)) && cap < WORD - 1 && Reaches(First(cap), cap + 1)
    ensures var c := Landing(First(cap), cap + 1, 64); c == (if cap > 0 then 2 * cap else 4) && IsPow2(c)
  {
    WordIsPow2();
    DoublingEndsIff(cap, cap + 1);
    OneMoreEnds(cap);
    TwicePow2(cap);
  }

  lemma TwicePow2(c: nat)
    requires c == 0 || IsPow2(c)
    ensures IsPow2(if c > 0 then 2 * c else 4)
  {
    assert 2 * c / 2 == c;
    assert IsPow2(4);
  }

  /** From an empty vector the loop lands on the least power of two, from 4 on, that is enough. */
  lemma LandsOnLeast(need: nat, p: nat)
    requires IsPow2(p) && p <= HALF && p > 4 && p < 2 * need && need <= p
    ensures Landing(First(0), need, 64) == p && Reaches(First(0), need)
  {
    WordIsPow2();
    var k := Log(p);
    if k > 63 { Pow2Grows(63, k); }
    if k < 3 { Pow2Monotone(k, 2); }
    PowerLanding(2, k, need, 64);
    Lands(First(0), need);
  }

  lemma {:induction false} PowerLanding(m: nat, k: nat, need: nat, rounds: nat)
    requires m <= k <= 63 && need <= Pow2(k) < 2 * need && rounds >= k - m
    ensures Landing(Pow2(m), need, rounds) == Pow2(k)
    decreases k - m
  {
    if m < k {
      Pow2Grows(m, k);
      TwicePower(m);
      PowerLanding(m + 1, k, need, rounds - 1);
    }
  }
}
