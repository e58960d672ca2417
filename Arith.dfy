/** Integer arithmetic shared by the two tries: powers of 32 (the branching factor of
    both tries), the position of the highest set bit, and Euclidean division facts. */
module Arith {

  /** 32^k: the number of elements a full index-trie node at level k - 1 holds. */
  function Pow32(k: nat): (r: nat)
    ensures r >= 1
  {
    if k == 0 then 1 else 32 * Pow32(k - 1)
  }

  function Pow2(k: nat): (r: nat)
    ensures r >= 1
  {
    if k == 0 then 1 else 2 * Pow2(k - 1)
  }

  lemma {:induction false} Pow32IsPow2(k: nat)
    ensures Pow32(k) == Pow2(5 * k)
  {
    if k > 0 {
      Pow32IsPow2(k - 1);
      var m := 5 * (k - 1);
      assert Pow2(m + 5) == 2 * Pow2(m + 4) == 4 * Pow2(m + 3) == 8 * Pow2(m + 2) == 16 * Pow2(m + 1) == 32 * Pow2(m);
    }
  }

  lemma {:induction false} Pow2Monotone(a: nat, b: nat)
    requires a <= b
    ensures Pow2(a) <= Pow2(b)
  {
    if a < b {
      Pow2Monotone(a, b - 1);
    }
  }

  lemma {:induction false} Pow32Monotone(a: nat, b: nat)
    requires a <= b
    ensures Pow32(a) <= Pow32(b)
    ensures a < b ==> 32 * Pow32(a) <= Pow32(b)
  {
    if a < b {
      Pow32Monotone(a, b - 1);
    }
  }

  /** `31 - Integer.numberOfLeadingZeros(x)` for a positive 32-bit x: the index of the highest set bit. */
  function FloorLog2(x: nat): (r: nat)
    requires x >= 1
    ensures Pow2(r) <= x < Pow2(r + 1)
  {
    if x == 1 then 0 else 1 + FloorLog2(x / 2)
  }

  /** Euclidean division is unique: the quotient and remainder are determined. */
  lemma DivModUnique(x: int, p: int, q: int, r: int)
    requires p > 0 && 0 <= r < p && x == q * p + r
    ensures x / p == q && x % p == r
  {
    var q', r' := x / p, x % p;
    assert x == q' * p + r';
    if q' > q {
      MulMonotone(q + 1, q', p);
      assert false;
    } else if q' < q {
      MulMonotone(q' + 1, q, p);
      assert false;
    }
  }

  lemma MulMonotone(a: int, b: int, p: int)
    requires a <= b && p >= 0
    ensures a * p <= b * p
  {
    assert (b - a) * p >= 0;
  }

  /** The digit `(x / p) % 32` of x read through the remainder modulo 32 * p. */
  lemma DigitOfRemainder(x: nat, p: nat)
    requires p > 0
    ensures (x / p) % 32 == (x % (32 * p)) / p
    ensures (x % (32 * p)) % p == x % p
  {
    var a, r := x / (32 * p), x % (32 * p);
    var d, s := r / p, r % p;
    assert x == a * (32 * p) + r;
    assert r == d * p + s;
    assert x == (32 * a + d) * p + s;
    DivModUnique(x, p, 32 * a + d, s);
    assert d < 32 by {
      if d >= 32 { MulMonotone(32, d, p); }
    }
    DivModUnique(32 * a + d, 32, a, d);
  }

  /** Splitting an offset below `c <= n * p` into a digit and a remainder modulo p. */
  lemma DigitSplit(i: nat, p: nat, n: nat, c: nat)
    requires p > 0 && c <= n * p && i % (32 * p) < c
    ensures (i / p) % 32 < n
    ensures i % (32 * p) == ((i / p) % 32) * p + i % p
    ensures i % p < p
  {
    DigitOfRemainder(i, p);
    var x := i % (32 * p);
    var d := (i / p) % 32;
    assert x == d * p + i % p;
    if d >= n { MulMonotone(n, d, p); }
  }

  /** Dividing twice is dividing by the product. */
  lemma DivDiv(i: nat, a: nat, b: nat)
    requires a > 0 && b > 0
    ensures (i / a) / b == i / (a * b)
  {
    var q1, r1 := i / a, i % a;
    var q2, r2 := q1 / b, q1 % b;
    assert i == q1 * a + r1;
    assert q1 == q2 * b + r2;
    assert i == q2 * (a * b) + (r2 * a + r1);
    MulMonotone(r2, b - 1, a);
    assert (b - 1) * a + a == a * b;
    DivModUnique(i, a * b, q2, r2 * a + r1);
  }

  lemma ModAtMost(i: nat, p: nat)
    requires p > 0
    ensures i % p <= i
  {
    if i < p { DivModUnique(i, p, 0, i); }
  }

  /** Where an append lands in a node whose last child is partial or full: with x
      elements in n children of capacity p, digit (rs / p) % 32 is the last child when it
      has room, and the next, fresh, slot when it is full. */
  lemma AppendDigit(rs: nat, p: nat, n: nat, x: nat)
    requires p > 0 && n >= 1 && x == rs % (32 * p) && (n - 1) * p < x <= n * p
    ensures x == n * p ==> (rs / p) % 32 == n && rs % p == 0 && n < 32
    ensures x < n * p ==> (rs / p) % 32 == n - 1 && rs % p == x - (n - 1) * p
  {
    DigitOfRemainder(rs, p);
    assert (n - 1) * p + p == n * p;
    if x == n * p {
      DivModUnique(x, p, n, 0);
      if n >= 32 { MulMonotone(32, n, p); }
    } else {
      DivModUnique(x, p, n - 1, x - (n - 1) * p);
    }
  }

  /** A power of 32 above the first is 32 times the one below, and so a multiple of 32. */
  lemma Pow32Step(k: nat)
    requires k >= 1
    ensures Pow32(k) == 32 * Pow32(k - 1) && Pow32(k) % 32 == 0
  {
    var p := Pow32(k - 1);
    DivModUnique(32 * p, 32, p, 0);
  }

  /** Java's `Math.min` on ints. */
  function Min(a: int, b: int): (r: int)
    ensures r <= a && r <= b && (r == a || r == b)
  {
    if a < b then a else b
  }

  /** `min(width - 1 + step, 32 * step) / step` is the number of children of capacity
      `step` that `width` elements need: the ceiling of width / step, at most 32. */
  lemma NextSizeValue(width: int, step: int)
    requires step >= 1 && 1 <= width <= 32 * step
    ensures Min(width - 1 + step, 32 * step) / step == (width - 1) / step + 1 <= 32
  {
    var q, r := (width - 1) / step, (width - 1) % step;
    assert width - 1 == q * step + r;
    if q >= 32 { MulMonotone(32, q, step); }
    if q < 31 {
      MulMonotone(q + 1, 31, step);
      assert width - 1 + step == (q + 1) * step + r;
      DivModUnique(width - 1 + step, step, q + 1, r);
    } else {
      assert width - 1 + step >= 32 * step;
      DivModUnique(32 * step, step, 32, 0);
    }
  }

  /** The i-th of n = ceil(width / step) children takes `min(width - i * step, step)`
      elements: a whole step for all but the last, the remainder for the last. */
  lemma ChildStep(width: int, step: int, i: int, n: int)
    requires step >= 1 && 1 <= width && n == (width - 1) / step + 1 && 0 <= i < n
    ensures var cw := Min(width - i * step, step);
      && 1 <= cw <= step
      && Min(width, i * step) == i * step
      && Min(width, i * step) + cw == Min(width, (i + 1) * step)
      && (i < n - 1 ==> cw == step)
      && (i == n - 1 ==> Min(width, (i + 1) * step) == width)
  {
    var q, r := (width - 1) / step, (width - 1) % step;
    assert width - 1 == q * step + r;
    MulMonotone(i, q, step);
    assert (i + 1) * step == i * step + step;
    if i < n - 1 {
      MulMonotone(i + 1, q, step);
    }
  }

  /** Fewer than `width` elements in `a` whole steps means at most ceil(width / step) - 1 steps. */
  lemma FewerSteps(a: int, step: int, width: int)
    requires step >= 1 && 0 <= a && a * step < width
    ensures a <= (width - 1) / step
  {
    var q, r := (width - 1) / step, (width - 1) % step;
    assert width - 1 == q * step + r;
    assert (q + 1) * step == q * step + step;
    if a > q {
      MulMonotone(q + 1, a, step);
    }
  }

  /** A multiple of a multiple of 32 is a multiple of 32. */
  lemma MulMod32(step: int, i: int)
    requires step % 32 == 0
    ensures (step * i) % 32 == 0
  {
    assert step == 32 * (step / 32);
    assert step * i == 32 * ((step / 32) * i);
  }
}
