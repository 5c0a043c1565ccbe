/** Unsigned machine-word arithmetic, digit by digit.

    A `size_t` is a natural number below WORD.  Addition and subtraction wrap modulo WORD;
    the bitwise operators are defined on binary digits, so that masks and shift-smears can be
    proved to mean `%`, alignment and "next power of two" instead of being assumed to. */
module Bits {
  import opened Arith

  const WORD: nat := 0x1_0000_0000_0000_0000
  const HALF: nat := 0x8000_0000_0000_0000   // 2^63

  function Pow2(k: nat): (p: nat)
    ensures p >= 1
  {
    if k == 0 then 1 else 2 * Pow2(k - 1)
  }

  predicate IsPow2(n: nat) {
    n == 1 || (n > 1 && n % 2 == 0 && IsPow2(n / 2))
  }

  function And(a: nat, b: nat): nat {
    if a == 0 || b == 0 then 0
    else (if a % 2 == 1 && b % 2 == 1 then 1 else 0) + 2 * And(a / 2, b / 2)
  }

  function Or(a: nat, b: nat): nat {
    if a == 0 && b == 0 then 0
    else (if a % 2 == 1 || b % 2 == 1 then 1 else 0) + 2 * Or(a / 2, b / 2)
  }

  function Shr(a: nat, k: nat): nat {
    if k == 0 then a else Shr(a / 2, k - 1)
  }

  /** `a + b` and `a - b` on `size_t`. */
  function WrapAdd(a: nat, b: nat): nat {
    (a + b) % WORD
  }

  function WrapSub(a: nat, b: nat): nat {
    (a - b) % WORD
  }

  /** Bitwise complement of a word. */
  function Not(a: nat): nat
    requires a < WORD
  {
    WORD - 1 - a
  }

  /** `a - 1` on `size_t`. */
  lemma WrapPred(a: nat)
    requires a < WORD
    ensures WrapSub(a, 1) == if a == 0 then WORD - 1 else a - 1
  {
    if a == 0 { ModUnique(-1, WORD, -1, WORD - 1); } else { ModSmall(a - 1, WORD); }
  }

  predicate Bit(a: nat, i: nat) {
    if i == 0 then a % 2 == 1 else Bit(a / 2, i - 1)
  }

  // ---------------------------------------------------------------- powers of two

  lemma {:induction false} Pow2Is(k: nat)
    ensures IsPow2(Pow2(k))
  {
    if k > 0 {
      Pow2Is(k - 1);
      assert Pow2(k) / 2 == Pow2(k - 1);
    }
  }

  lemma Halve(n: nat, k: nat)
    requires IsPow2(n) && n == 2 * k
    ensures IsPow2(k)
  {
    assert n / 2 == k;
  }

  ghost function Log(n: nat): (k: nat)
    requires IsPow2(n)
    ensures n == Pow2(k)
  {
    if n == 1 then 0 else 1 + Log(n / 2)
  }

  lemma {:induction false} Pow2Grows(j: nat, k: nat)
    requires j < k
    ensures 2 * Pow2(j) <= Pow2(k)
  {
    if j + 1 < k { Pow2Grows(j, k - 1); }
  }

  // ---------------------------------------------------------------- masking

  /** Splitting off the lowest digit of a remainder. */
  lemma ModTwice(x: nat, p: nat)
    requires p >= 1
    ensures x % (2 * p) == x % 2 + 2 * ((x / 2) % p)
  {
    var h := x / 2;
    var q, r := h / p, h % p;
    assert h == q * p + r;
    assert x == (2 * p) * q + (x % 2 + 2 * r) by {
      assert x == 2 * h + x % 2;
      assert 2 * (q * p) == (2 * p) * q;
    }
    ModUnique(x, 2 * p, q, x % 2 + 2 * r);
  }

  /** `&` digit by digit, from the lowest. */
  lemma AndDigits(x: nat, m: nat)
    ensures And(x, 2 * m) == 2 * And(x / 2, m)
    ensures And(x, 2 * m + 1) == x % 2 + 2 * And(x / 2, m)
  {
    assert (2 * m) / 2 == m && (2 * m) % 2 == 0;
    assert (2 * m + 1) / 2 == m && (2 * m + 1) % 2 == 1;
  }

  lemma MaskDouble(x: nat, mask: nat, r: nat)
    requires And(x / 2, mask) == r
    ensures And(x, 2 * mask + 1) == x % 2 + 2 * r
  {
    AndDigits(x, mask);
  }

  lemma {:induction false} AndPow2Mask(x: nat, k: nat)
    ensures And(x, Pow2(k) - 1) == x % Pow2(k)
  {
    if k > 0 {
      var p := Pow2(k - 1);
      AndPow2Mask(x / 2, k - 1);
      MaskDouble(x, p - 1, (x / 2) % p);
      ModTwice(x, p);
    }
  }

  /** `x & (cap - 1)` is `x % cap` for a power-of-two capacity. */
  lemma MaskIsMod(x: nat, cap: nat)
    requires IsPow2(cap)
    ensures And(x, cap - 1) == x % cap
  {
    AndPow2Mask(x, Log(cap));
  }

  /** The mask `high` takes the digits of `all` that `low` leaves. */
  ghost predicate Split(x: nat, high: int, low: int, all: int) {
    high >= 0 && low >= 0 && all >= 0 && And(x, high) + And(x, low) == And(x, all)
  }

  lemma SplitTwice(x: nat, high: nat, low: nat, all: nat)
    requires Split(x / 2, high, low, all)
    ensures Split(x, 2 * high, 2 * low + 1, 2 * all + 1)
  {
    AndDigits(x, high);
    AndDigits(x, low);
    AndDigits(x, all);
  }

  lemma SplitEnds(x: nat, p: nat, q: nat)
    requires 1 == p <= q || 1 <= p == q
    ensures Split(x, q - p, p - 1, q - 1)
  {
  }

  /** The digits from k on and the digits below k make the number. */
  lemma {:induction false} MasksMeet(x: nat, k: nat, w: nat)
    requires k <= w
    ensures Split(x, Pow2(w) - Pow2(k), Pow2(k) - 1, Pow2(w) - 1)
  {
    if 0 < k < w {
      MasksMeet(x / 2, k - 1, w - 1);
      var p, q := Pow2(k - 1), Pow2(w - 1);
      SplitTwice(x, q - p, p - 1, q - 1);
    } else {
      SplitEnds(x, Pow2(k), Pow2(w));
    }
  }

  lemma {:induction false} Pow2Monotone(j: nat, k: nat)
    requires j <= k
    ensures Pow2(j) <= Pow2(k)
  {
    if j < k { Pow2Grows(j, k); }
  }

  lemma Pow2Byte(k: nat)
    ensures Pow2(k + 8) == 256 * Pow2(k)
  {
    assert Pow2(k + 4) == 16 * Pow2(k) by { assert Pow2(k + 2) == 4 * Pow2(k); }
    assert Pow2(k + 8) == 16 * Pow2(k + 4) by { assert Pow2(k + 6) == 4 * Pow2(k + 4); }
  }

  lemma WordIsPow2()
    ensures Pow2(64) == WORD && Pow2(63) == HALF && IsPow2(HALF)
  {
    TopPower(64);
    Pow2Of(63, HALF);
  }

  lemma Pow2Of(k: nat, n: nat)
    requires Pow2(k) == n
    ensures IsPow2(n)
  {
    Pow2Is(k);
  }

  lemma TopPower(w: nat)
    requires w == 64
    ensures Pow2(w) == WORD && Pow2(w - 1) == HALF
  {
    Pow2Byte(w - 64);
    Pow2Byte(w - 56);
    Pow2Byte(w - 48);
    Pow2Byte(w - 40);
    Pow2Byte(w - 32);
    Pow2Byte(w - 24);
    Pow2Byte(w - 16);
    Pow2Byte(w - 8);
  }

  lemma {:induction false} Pow2BelowWord(k: nat)
    requires Pow2(k) <= WORD
    ensures k <= 64
  {
    WordIsPow2();
    if k > 64 { Pow2Grows(64, k); }
  }

  /** `x & ~(align - 1)` rounds down to a multiple of a power-of-two alignment. */
  lemma HighMaskRoundsDown(x: nat, align: nat)
    requires IsPow2(align) && align <= WORD && x < WORD
    ensures And(x, Not(align - 1)) == x - x % align
  {
    var k := Log(align);
    WordIsPow2();
    Pow2BelowWord(k);
    AndHighMask(x, k, 64, align, WORD);
  }

  lemma AndHighMask(x: nat, k: nat, w: nat, p: nat, top: nat)
    requires k <= w && x < top && p == Pow2(k) && top == Pow2(w)
    ensures p <= top && And(x, top - p) == x - x % p
  {
    MasksMeet(x, k, w);
    AndPow2Mask(x, k);
    AndPow2Mask(x, w);
    ModSmall(x, top);
  }

  // ---------------------------------------------------------------- the shift-smear

  lemma {:induction false} BitOr(a: nat, b: nat, i: nat)
    ensures Bit(Or(a, b), i) == (Bit(a, i) || Bit(b, i))
  {
    if i == 0 {
    } else {
      assert Or(a, b) / 2 == Or(a / 2, b / 2);
      BitOr(a / 2, b / 2, i - 1);
    }
  }

  lemma {:induction false} BitShr(a: nat, k: nat, i: nat)
    ensures Bit(Shr(a, k), i) == Bit(a, i + k)
  {
    if k > 0 { BitShr(a / 2, k - 1, i); }
  }

  lemma {:induction false} ShrShrinks(a: nat, k: nat)
    ensures Shr(a, k) <= a
  {
    if k > 0 { ShrShrinks(a / 2, k - 1); }
  }

  lemma {:induction false} OrBelow(a: nat, b: nat, w: nat)
    requires a < Pow2(w) && b < Pow2(w)
    ensures a <= Or(a, b) < Pow2(w)
  {
    if w > 0 { OrBelow(a / 2, b / 2, w - 1); }
  }

  /** The digit count of a positive number: 2^(w-1) <= v < 2^w. */
  ghost function Width(v: nat): (w: nat)
    ensures v < Pow2(w)
    ensures v > 0 ==> w > 0 && Pow2(w - 1) <= v
  {
    if v == 0 then 0 else 1 + Width(v / 2)
  }

  lemma {:induction false} TopBit(v: nat, w: nat)
    requires w > 0 && Pow2(w - 1) <= v < Pow2(w)
    ensures Bit(v, w - 1)
  {
    if w > 1 { TopBit(v / 2, w - 1); }
  }

  lemma {:induction false} AllBits(v: nat, w: nat)
    requires v < Pow2(w)
    requires forall i :: 0 <= i < w ==> Bit(v, i)
    ensures v == Pow2(w) - 1
  {
    if w > 0 {
      assert Bit(v, 0);
      forall i | 0 <= i < w - 1 ensures Bit(v / 2, i) { assert Bit(v, i + 1); }
      AllBits(v / 2, w - 1);
    }
  }

  /** The `r` highest of `w` digits are ones. */
  ghost predicate Smeared(v: nat, w: nat, r: nat) {
    v < Pow2(w) && forall i :: 0 <= i < w && w <= i + r ==> Bit(v, i)
  }

  /** One `v |= v >> r` doubles the run of leading ones. */
  lemma SmearStep(v: nat, w: nat, r: nat)
    requires Smeared(v, w, r)
    ensures Smeared(Or(v, Shr(v, r)), w, 2 * r)
  {
    ShrShrinks(v, r);
    OrBelow(v, Shr(v, r), w);
    forall i | 0 <= i < w && w <= i + 2 * r
      ensures Bit(Or(v, Shr(v, r)), i)
    {
      BitOr(v, Shr(v, r), i);
      BitShr(v, r, i);
      if w > i + r { assert Bit(v, i + r); }
    }
  }

  lemma SmearStart(v: nat)
    requires v > 0
    ensures Smeared(v, Width(v), 1)
  {
    TopBit(v, Width(v));
  }

  lemma SmearDone(v: nat, w: nat, r: nat)
    requires Smeared(v, w, r) && w <= r
    ensures v == Pow2(w) - 1
  {
    AllBits(v, w);
  }

  lemma WidthOfWord(v: nat)
    requires v < WORD
    ensures Width(v) <= 64
  {
    WordIsPow2();
    if v > 0 && Width(v) > 64 { Pow2Monotone(64, Width(v) - 1); }
  }

  /** The six unrolled shifts. */
  function Smear(v: nat): nat {
    var a := Or(v, Shr(v, 1));
    var b := Or(a, Shr(a, 2));
    var c := Or(b, Shr(b, 4));
    var d := Or(c, Shr(c, 8));
    var e := Or(d, Shr(d, 16));
    Or(e, Shr(e, 32))
  }

  lemma SmearFills(v: nat)
    requires 0 < v < WORD
    ensures Smear(v) == Pow2(Width(v)) - 1
  {
    var w := Width(v);
    var a := Or(v, Shr(v, 1));
    var b := Or(a, Shr(a, 2));
    var c := Or(b, Shr(b, 4));
    var d := Or(c, Shr(c, 8));
    var e := Or(d, Shr(d, 16));
    SmearStart(v);
    SmearStep(v, w, 1);
    SmearStep(a, w, 2);
    SmearStep(b, w, 4);
    SmearStep(c, w, 8);
    SmearStep(d, w, 16);
    SmearStep(e, w, 32);
    WidthOfWord(v);
    SmearDone(Smear(v), w, 64);
  }

  lemma SmearZero()
    ensures Smear(0) == 0
  {
    ShrShrinks(0, 1);
    ShrShrinks(0, 2);
    ShrShrinks(0, 4);
    ShrShrinks(0, 8);
    ShrShrinks(0, 16);
    ShrShrinks(0, 32);
  }

  /** `queue::round_up_po2`: 0 gives 1; otherwise decrement, smear, increment, all modulo WORD. */
  function RoundUpPo2(v: nat): nat
    requires v < WORD
  {
    if v == 0 then 1 else (Smear(v - 1) + 1) % WORD
  }

  ghost predicate LeastPow2AtLeast(c: nat, v: nat) {
    IsPow2(c) && v <= c && forall p: nat :: IsPow2(p) && v <= p ==> c <= p
  }

  /** A power of two is the least that is enough exactly if it is less than twice as much. */
  lemma LeastIff(c: nat, v: nat)
    requires v > 0
    ensures LeastPow2AtLeast(c, v) <==> IsPow2(c) && v <= c < 2 * v
  {
    if IsPow2(c) && v <= c {
      var k := Log(c);
      if c >= 2 * v {
        Pow2Is(k - 1);
      } else if k > 0 {
        Pow2IsLeast(k, v);
      }
    }
  }

  lemma Pow2IsLeast(w: nat, v: nat)
    requires w > 0 && Pow2(w - 1) < v <= Pow2(w)
    ensures LeastPow2AtLeast(Pow2(w), v)
  {
    Pow2Is(w);
    forall p: nat | IsPow2(p) && v <= p ensures Pow2(w) <= p {
      var k := Log(p);
      if k < w { Pow2Monotone(k, w - 1); } else { Pow2Monotone(w, k); }
    }
  }

  lemma SmearIsLeast(v: nat)
    requires 2 <= v <= WORD
    ensures LeastPow2AtLeast(Smear(v - 1) + 1, v)
  {
    SmearFills(v - 1);
    LeastIs(Smear(v - 1) + 1, Width(v - 1), v);
  }

  lemma LeastIs(c: nat, w: nat, v: nat)
    requires c == Pow2(w) && w > 0 && Pow2(w - 1) < v <= c
    ensures LeastPow2AtLeast(c, v)
  {
    Pow2IsLeast(w, v);
  }

  lemma WidthWraps(v: nat)
    requires 2 <= v <= WORD
    ensures Pow2(Width(v - 1)) <= WORD
    ensures Pow2(Width(v - 1)) == WORD <==> v > HALF
  {
    var w := Width(v - 1);
    WidthOfWord(v - 1);
    WordIsPow2();
    if w < 64 { Pow2Monotone(w, 63); }
  }

  lemma IncrementWraps(c: nat)
    requires c <= WORD
    ensures c % WORD == if c < WORD then c else 0
  {
    if c < WORD { ModSmall(c, WORD); } else { ModUnique(c, WORD, 1, 0); }
  }

  lemma RoundUpUnfold(v: nat)
    requires 2 <= v < WORD
    ensures RoundUpPo2(v) == if v <= HALF then Smear(v - 1) + 1 else 0
  {
    var c := Smear(v - 1) + 1;
    assert c <= WORD && (c == WORD <==> v > HALF) by {
      SmearFills(v - 1);
      WidthWraps(v);
    }
    IncrementWraps(c);
  }

  /** The rounding is right exactly up to 2^63; above that the final increment wraps to 0. */
  lemma RoundUpIsLeast(v: nat)
    requires v < WORD
    ensures LeastPow2AtLeast(RoundUpPo2(v), v) <==> v <= HALF
    ensures v > HALF ==> RoundUpPo2(v) == 0
  {
    if v >= 2 {
      SmearIsLeast(v);
      RoundUpUnfold(v);
    } else {
      RoundUpSmall(v);
    }
  }

  lemma RoundUpSmall(v: nat)
    requires v < 2
    ensures RoundUpPo2(v) == 1 && LeastPow2AtLeast(1, v) && v <= HALF
  {
    SmearZero();
  }

  /** `mpmc_ring_buffer::round_up_to_power_of_two`: the same smear as a loop, with a floor of 2. */
  method RoundUpToPowerOfTwo(n: nat) returns (c: nat)
    requires n < WORD
    ensures n < 2 ==> c == 2
    ensures n >= 2 ==> c == RoundUpPo2(n)
    ensures n <= HALF ==> IsPow2(c) && c >= 2 && LeastPow2AtLeast(c, if n < 2 then 2 else n)
    ensures n > HALF ==> c == 0
  {
    if n < 2 {
      LeastPow2OfTwo();
      return 2;
    }
    var m := SmearLoop(n - 1);
    c := (m + 1) % WORD;
    RoundUpNeedsTwo(n);
  }

  method SmearLoop(v: nat) returns (m: nat)
    requires 0 < v < WORD
    ensures m == Smear(v)
  {
    m := v;
    ghost var w := Width(v);
    SmearStart(v);
    var i := 1;
    while i < 64
      invariant i in {1, 2, 4, 8, 16, 32, 64}
      invariant Smeared(m, w, i)
      decreases 64 - i
    {
      SmearStep(m, w, i);
      m := Or(m, Shr(m, i));
      i := 2 * i;   // i <<= 1
    }
    WidthOfWord(v);
    SmearDone(m, w, 64);
    SmearFills(v);
  }

  lemma RoundUpNeedsTwo(n: nat)
    requires 2 <= n < WORD
    ensures RoundUpPo2(n) == (Smear(n - 1) + 1) % WORD
    ensures n <= HALF ==> IsPow2(RoundUpPo2(n)) && RoundUpPo2(n) >= 2 && LeastPow2AtLeast(RoundUpPo2(n), n)
    ensures n > HALF ==> RoundUpPo2(n) == 0
  {
    RoundUpIsLeast(n);
  }

  lemma LeastPow2OfTwo()
    ensures IsPow2(2) && LeastPow2AtLeast(2, 2)
  {
  }
}
