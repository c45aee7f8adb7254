/** Or-ing bit groups into an accumulator of 32 or 64 bits. */
module Bits {
  import opened Base
  import opened Varints

  /** Bitwise or. */
  function Or(a: nat, b: nat): nat {
    if a == 0 && b == 0 then 0
    else (if a % 2 == 1 || b % 2 == 1 then 1 else 0) + 2 * Or(a / 2, b / 2)
  }

  lemma {:induction false} OrZero(a: nat)
    ensures Or(a, 0) == a && Or(0, a) == a
  {
    if a > 0 {
      OrZero(a / 2);
    }
  }

  /** Or-ing bits that all lie above those already there adds them. */
  lemma {:induction false} OrAbove(a: nat, c: nat, k: nat)
    requires a < Pow2(k)
    ensures Or(a, Pow2(k) * c) == a + Pow2(k) * c
    decreases k
  {
    if k == 0 {
      OrZero(c);
    } else {
      var half := Pow2(k - 1) * c;
      assert Pow2(k) * c == 2 * half;
      OrAbove(a / 2, c, k - 1);
    }
  }

  lemma {:induction false} Pow2Plus(a: nat, b: nat)
    ensures Pow2(a + b) == Pow2(a) * Pow2(b)
    decreases b
  {
    if b > 0 {
      Pow2Plus(a, b - 1);
      assert Pow2(a + b) == 2 * (Pow2(a) * Pow2(b - 1)) == Pow2(a) * (2 * Pow2(b - 1));
    }
  }

  lemma Pow2Step(n: nat)
    ensures Pow2(n + 7) == 128 * Pow2(n)
  {
    assert Pow2(n + 7) == 2 * Pow2(n + 6);
    assert Pow2(n + 6) == 2 * Pow2(n + 5);
    assert Pow2(n + 5) == 2 * Pow2(n + 4);
    assert Pow2(n + 4) == 2 * Pow2(n + 3);
    assert Pow2(n + 3) == 2 * Pow2(n + 2);
    assert Pow2(n + 2) == 2 * Pow2(n + 1);
  }

  predicate Width(width: nat) { width == TWO_32 || width == TWO_64 }

  function BitsOf(width: nat): nat { if width == TWO_32 then 32 else 64 }

  lemma WidthIsPower(width: nat)
    requires Width(width)
    ensures width == Pow2(BitsOf(width))
  {
    Pow2Step(0);
    Pow2Step(7);
    Pow2Step(14);
    Pow2Step(21);
    assert Pow2(28) == 0x1000_0000;
    assert Pow2(32) == 2 * Pow2(31) && Pow2(31) == 2 * Pow2(30) && Pow2(30) == 2 * Pow2(29) && Pow2(29) == 2 * Pow2(28);
    Pow2Plus(32, 32);
  }

  /** What an accumulator of this width keeps of a number. */
  function Low(raw: nat, width: nat): nat
    requires Width(width)
  {
    if width == TWO_32 then raw % TWO_32 else raw % TWO_64
  }

  /** The seven bits of `b`, moved up to where they belong. */
  function Group(b: byte, shift: nat): nat { (b % 128) * Pow2(shift) }

  /** acc |= T(b & 0x7F) << shift, where the shift drops what does not fit the width. */
  function ShiftIn(acc: nat, b: byte, shift: nat, width: nat): nat
    requires Width(width)
  {
    Or(acc, Low(Group(b, shift), width))
  }

  lemma ModScaled(x: nat, p: nat, q: nat)
    requires p > 0 && q > 0
    ensures p * q > 0 && (x * p) % (p * q) == p * (x % q)
  {
    var d, r := x / q, x % q;
    Distribute(x, p, q, d, r);
    assert p * r < p * q;
    RemainderIs(x * p, p * q, d, p * r);
  }

  lemma RemainderIs(n: nat, m: nat, d: nat, r: nat)
    requires r < m && n == m * d + r
    ensures n % m == r
  {
    var e := n / m;
    InOrder(d + 1, e, m);
    InOrder(e + 1, d, m);
    assert n == e * m + n % m;
    assert (d + 1) * m == d * m + m && (e + 1) * m == e * m + m;
  }

  lemma ScaledIsMultiple(x: nat, p: nat, q: nat)
    requires p > 0
    ensures (x * (p * q)) % p == 0
  {
    assert x * (p * q) == p * (x * q) + 0;
    RemainderIs(x * (p * q), p, x * q, 0);
  }

  /**
   Once the groups before it gave `raw`, or-ing the next group into what the accumulator kept
   of them is what it keeps of their sum.
   */
  lemma ShiftInLow(raw: nat, b: byte, shift: nat, width: nat)
    requires Width(width) && raw < Pow2(shift)
    ensures ShiftIn(Low(raw, width), b, shift, width) == Low(raw + Group(b, shift), width)
  {
    WidthIsPower(width);
    var w := BitsOf(width);
    if shift <= w {
      GroupFits(raw, b, shift, w, width);
    } else {
      GroupIsShiftedOut(raw, b, shift, w, width);
    }
  }

  lemma GroupFits(raw: nat, b: byte, shift: nat, w: nat, width: nat)
    requires Width(width) && width == Pow2(w) && shift <= w && raw < Pow2(shift)
    ensures ShiftIn(Low(raw, width), b, shift, width) == Low(raw + Group(b, shift), width)
  {
    Pow2Plus(shift, w - shift);
    var q := Pow2(w - shift);
    var kept := (b % 128) % q;
    KeptBits(raw, b % 128, Pow2(shift), q);
    OrAbove(raw, kept, shift);
    LowIsRemainder(raw, width);
    LowIsRemainder(Group(b, shift), width);
    LowIsRemainder(raw + Group(b, shift), width);
    hide Pow2, Or, Low;
  }

  lemma LowIsRemainder(n: nat, width: nat)
    requires Width(width)
    ensures Low(n, width) == n % width && (n < width ==> n % width == n)
  {
  }

  /** Of `x` moved up by `p`, `p * q` keeps the low part, above anything smaller than `p`. */
  lemma KeptBits(raw: nat, x: nat, p: nat, q: nat)
    requires raw < p && q > 0
    ensures p * q > 0 && raw < p * q
    ensures (x * p) % (p * q) == p * (x % q)
    ensures (raw + x * p) % (p * q) == raw + p * (x % q)
  {
    var d, kept := x / q, x % q;
    ModScaled(x, p, q);
    InOrder(kept, q - 1, p);
    assert raw + p * kept < p * q;
    Distribute(x, p, q, d, kept);
    RemainderIs(raw + x * p, p * q, d, raw + p * kept);
  }

  lemma InOrder(x: nat, y: nat, p: nat)
    ensures x <= y ==> x * p <= y * p
  {
  }

  lemma Distribute(x: nat, p: nat, q: nat, d: nat, r: nat)
    requires x == q * d + r
    ensures x * p == (p * q) * d + p * r
  {
  }

  lemma GroupIsShiftedOut(raw: nat, b: byte, shift: nat, w: nat, width: nat)
    requires Width(width) && width == Pow2(w) && w < shift
    ensures ShiftIn(Low(raw, width), b, shift, width) == Low(raw + Group(b, shift), width)
  {
    Pow2Plus(w, shift - w);
    hide Pow2, Or;
    ScaledIsMultiple(b % 128, width, Pow2(shift - w));
    assert Low(Group(b, shift), width) == 0;
    OrZero(Low(raw, width));
    MultipleAdds(raw, Group(b, shift), width);
  }

  lemma MultipleAdds(a: nat, n: nat, m: nat)
    requires m > 0 && n % m == 0
    ensures (a + n) % m == a % m
  {
    assert a + n == m * (a / m + n / m) + a % m by {
      assert n == m * (n / m) && a == m * (a / m) + a % m;
    }
    RemainderIs(a + n, m, a / m + n / m, a % m);
  }

  /** One more group keeps the value below the next power. */
  lemma GroupBound(raw: nat, b: byte, shift: nat)
    requires raw < Pow2(shift)
    ensures raw + Group(b, shift) < Pow2(shift + 7)
  {
    Pow2Step(shift);
    InOrder(b % 128, 127, Pow2(shift));
    hide Pow2;
  }
}
