/** Rounding an unsigned word up to a power of two by smearing its highest bit. */
module PowersOfTwo {
  function Pow2(n: nat): (p: nat)
    ensures p > 0
  {
    if n == 0 then 1 else 2 * Pow2(n - 1)
  }

  /** Bitwise or. */
  function Or(a: nat, b: nat): nat {
    if a == 0 && b == 0 then 0
    else (if a % 2 == 1 || b % 2 == 1 then 1 else 0) + 2 * Or(a / 2, b / 2)
  }

  /** Right shift. */
  function Shift(x: nat, count: nat): nat {
    if count == 0 then x else Shift(x / 2, count - 1)
  }

  /** One less and one more, on words of `maxb` bits. */
  function Pred(value: nat, maxb: nat): nat {
    if value == 0 then Pow2(maxb) - 1 else value - 1
  }

  function Succ(x: nat, maxb: nat): nat {
    if x + 1 == Pow2(maxb) then 0 else x + 1
  }

  /** The source's recursion on words of `maxb` bits; both the decrement and the increment may wrap. */
  function NextPowerOfTwo(value: nat, maxb: nat, curb: nat): nat
    requires curb >= 1
    decreases maxb - curb
  {
    if maxb <= curb then value
    else
      var x := Pred(value, maxb);
      NextPowerOfTwo(Succ(Or(x, Shift(x, curb)), maxb), maxb, 2 * curb)
  }

  // ---------- powers ----------

  lemma {:induction false} Pow2Adds(a: nat, b: nat)
    ensures Pow2(a + b) == Pow2(a) * Pow2(b)
  {
    if a > 0 {
      Pow2Adds(a - 1, b);
      assert Pow2(a + b) == 2 * Pow2(a - 1 + b) == 2 * (Pow2(a - 1) * Pow2(b)) == (2 * Pow2(a - 1)) * Pow2(b);
    }
  }

  lemma {:induction false} Pow2Grows(a: nat, b: nat)
    requires a <= b
    ensures Pow2(a) <= Pow2(b) && (a < b ==> 2 * Pow2(a) <= Pow2(b))
  {
    if a < b {
      Pow2Grows(a, b - 1);
    }
  }

  /** The number of bits of x. */
  function Bits(x: nat): (n: nat)
    ensures x < Pow2(n) && (x > 0 ==> n > 0 && Pow2(n - 1) <= x) && (x == 0 ==> n == 0)
  {
    if x == 0 then 0 else 1 + Bits(x / 2)
  }

  // ---------- or ----------

  lemma {:induction false} OrZero(a: nat)
    ensures Or(a, 0) == a
  {
    if a > 0 {
      OrZero(a / 2);
    }
  }

  lemma {:induction false} OrBounds(a: nat, b: nat, m: nat)
    requires a < Pow2(m) && b < Pow2(m)
    ensures a <= Or(a, b) < Pow2(m) && b <= Or(a, b)
  {
    if m > 0 {
      OrBounds(a / 2, b / 2, m - 1);
    }
  }

  /** The bits above position m pass through when the other operand has none. */
  lemma {:induction false} OrKeepsHigh(h: nat, l: nat, b: nat, m: nat)
    requires l < Pow2(m) && b < Pow2(m)
    ensures Or(h * Pow2(m) + l, b) == h * Pow2(m) + Or(l, b)
  {
    if m == 0 {
      OrZero(h);
    } else {
      var a, half := h * Pow2(m) + l, h * Pow2(m - 1);
      assert a == 2 * half + l by {
        assert h * (2 * Pow2(m - 1)) == 2 * half;
      }
      HalfOf(half, l);
      OrKeepsHigh(h, l / 2, b / 2, m - 1);
    }
  }

  lemma HalfOf(half: nat, l: nat)
    ensures (2 * half + l) / 2 == half + l / 2 && (2 * half + l) % 2 == l % 2
  {
  }

  // ---------- smearing ----------

  /** x has n bits, and the highest c of them (all, if c >= n) are ones. */
  predicate Smeared(x: nat, n: nat, c: nat) {
    Pow2(n) - Pow2(if c < n then n - c else 0) <= x < Pow2(n)
  }

  /** A shift takes bits off the low end, first those not known to be ones. */
  lemma {:induction false} ShiftDrops(x: nat, n: nat, low: nat, count: nat)
    requires count <= n && low <= n && Pow2(n) - Pow2(low) <= x < Pow2(n)
    ensures Pow2(n - count) - Pow2(if count < low then low - count else 0) <= Shift(x, count) < Pow2(n - count)
  {
    if count > 0 {
      ShiftDrops(x / 2, n - 1, if low > 0 then low - 1 else 0, count - 1);
    }
  }

  lemma {:induction false} ShiftAway(x: nat, n: nat, count: nat)
    requires n <= count && x < Pow2(n)
    ensures Shift(x, count) == 0
  {
    if count > 0 {
      ShiftAway(x / 2, if n > 0 then n - 1 else 0, count - 1);
    }
  }

  /** One round doubles the number of highest bits known to be ones. */
  lemma RoundSmears(x: nat, n: nat, c: nat)
    requires Smeared(x, n, c)
    ensures Smeared(Or(x, Shift(x, c)), n, 2 * c)
  {
    if c >= n {
      ShiftAway(x, n, c);
      OrZero(x);
    } else {
      ShiftDrops(x, n, n - c, c);
      MergeSmeared(x, Shift(x, c), n, c);
    }
  }

  lemma MergeSmeared(x: nat, y: nat, n: nat, c: nat)
    requires c < n && Smeared(x, n, c) && Smeared(y, n - c, c)
    ensures Smeared(Or(x, y), n, 2 * c)
  {
    var m := n - c;
    Pow2Adds(c, m);
    assert (Pow2(c) - 1) * Pow2(m) == Pow2(c) * Pow2(m) - Pow2(m);
    Pow2Grows(m, n);
    var l := x - (Pow2(n) - Pow2(m));
    OrKeepsHigh(Pow2(c) - 1, l, y, m);
    OrBounds(l, y, m);
  }

  lemma {:induction false} SmearsAll(value: nat, maxb: nat, curb: nat, n: nat)
    requires value < Pow2(maxb) && curb >= 1 && n <= maxb
    requires Smeared(Pred(value, maxb), n, curb)
    ensures NextPowerOfTwo(value, maxb, curb) == if n == maxb then 0 else Pow2(n)
    decreases maxb - curb
  {
    var x := Pred(value, maxb);
    Pow2Grows(n, maxb);
    if maxb <= curb {
      assert x == Pow2(n) - 1;
    } else {
      var smeared := Or(x, Shift(x, curb));
      RoundSmears(x, n, curb);
      assert Pred(Succ(smeared, maxb), maxb) == smeared;
      SmearsAll(Succ(smeared, maxb), maxb, 2 * curb, n);
    }
  }

  // ---------- result ----------

  ghost predicate IsPowerOfTwo(p: int) { exists n: nat :: p == Pow2(n) }

  ghost predicate IsLeastPowerOfTwo(p: int, value: int) {
    && IsPowerOfTwo(p) && value <= p
    && forall q: int :: IsPowerOfTwo(q) && value <= q ==> p <= q
  }

  lemma LeastByBits(value: nat, n: nat)
    requires value >= 1 && n == Bits(value - 1)
    ensures IsLeastPowerOfTwo(Pow2(n), value)
  {
    forall q: int | IsPowerOfTwo(q) && value <= q
      ensures Pow2(n) <= q
    {
      var m: nat :| q == Pow2(m);
      if m < n {
        Pow2Grows(m, n - 1);
      } else {
        Pow2Grows(n, m);
      }
    }
  }

  /** The least power of two not below the value, exactly when the value is at least one and at most the
      largest power of two the word can hold; zero otherwise. Any word width will do. */
  lemma NextPowerOfTwoIsLeast(value: nat, maxb: nat)
    requires maxb >= 1 && value < Pow2(maxb)
    ensures var p := NextPowerOfTwo(value, maxb, 1);
      && (IsLeastPowerOfTwo(p, value) <==> 1 <= value <= Pow2(maxb - 1))
      && (!IsLeastPowerOfTwo(p, value) ==> p == 0)
  {
    var x := Pred(value, maxb);
    var n := Bits(x);
    if n > maxb {
      Pow2Grows(maxb, n - 1);
    }
    SmearsAll(value, maxb, 1, n);
    if value >= 1 {
      LeastByBits(value, n);
    }
    if n < maxb {
      Pow2Grows(n, maxb - 1);
    }
  }
}
