/**
 Division by a per-gather constant. The uniform kernels replace `idx / rows` by one
 64x64 high multiply and two shifts (the branchfull reciprocal of Granlund and
 Montgomery). Every intermediate is a 64-bit word, so wrap-around is written out.
 */
module MagicDivide {

  const WORD := 0x1_0000_0000_0000_0000

  /** The precomputed reciprocal of one divisor. */
  datatype Divisor = Divisor(magic: int, shift: nat, add: bool, shiftOnly: bool)

  function Pow2(n: nat): (p: int)
    ensures p >= 1
  {
    if n == 0 then 1 else 2 * Pow2(n - 1)
  }

  lemma {:induction false} Pow2Monotone(a: nat, b: nat)
    requires a <= b
    ensures Pow2(a) <= Pow2(b)
    decreases b
  {
    if a < b {
      Pow2Monotone(a, b - 1);
    }
  }

  lemma Pow2Word()
    ensures Pow2(64) == WORD
  {
    assert Pow2(8) == 256;
    assert Pow2(16) == 0x1_0000;
    assert Pow2(24) == 0x100_0000;
    assert Pow2(32) == 0x1_0000_0000;
    assert Pow2(40) == 0x100_0000_0000;
    assert Pow2(48) == 0x1_0000_0000_0000;
    assert Pow2(56) == 0x100_0000_0000_0000;
  }

  /** `63 - clz(d)`: the position of the highest set bit. */
  function FloorLog2(d: int): (l: nat)
    requires 1 <= d
    ensures Pow2(l) <= d < 2 * Pow2(l)
  {
    if d == 1 then 0 else FloorLog2(d / 2) + 1
  }

  lemma LogBelow64(d: int)
    requires 1 <= d < WORD
    ensures FloorLog2(d) <= 63
  {
    if FloorLog2(d) >= 64 {
      Pow2Word();
      Pow2Monotone(64, FloorLog2(d));
    }
  }

  predicate IsPowerOfTwo(d: int)
    requires 1 <= d
  {
    d == Pow2(FloorLog2(d))
  }

  /** `make_uniform_divisor`; `(d & (d - 1)) == 0` is the power-of-two test. */
  function MakeDivisor(d: int): (r: Divisor)
    requires 1 <= d < WORD
  {
    var log := FloorLog2(d);
    if IsPowerOfTwo(d) then Divisor(0, log, false, true)
    else
      var num := WORD * Pow2(log);
      var proposed := (num / d) % WORD;
      FromQuotient(d, log, proposed, (num - proposed * d) % WORD)
  }

  /** The reciprocal from the 64-bit quotient and remainder of `2^(64 + log)` by `d`. */
  function FromQuotient(d: int, log: nat, proposed: int, rem: int): Divisor {
    var e := d - rem;
    if e < Pow2(log) then Divisor((proposed + 1) % WORD, log, false, false)
    else
      var doubled := (proposed + proposed) % WORD;
      var twiceRem := (rem + rem) % WORD;
      var bumped := if twiceRem >= d || twiceRem < rem then (doubled + 1) % WORD else doubled;
      Divisor((bumped + 1) % WORD, log, true, false)
  }

  /** `uniform_divide`: a high multiply, then shifts; every step on 64-bit words. */
  function Divide(n: int, r: Divisor): int
    requires 0 <= n < WORD
  {
    if r.shiftOnly then n / Pow2(r.shift)
    else
      var q := (r.magic * n) / WORD;
      if r.add then
        var t := (((n - q) % WORD) / 2 + q) % WORD;
        t / Pow2(r.shift)
      else q / Pow2(r.shift)
  }

  // ---- the few laws of multiplication the proof uses, one at a time ----

  lemma MulMonotone(a: int, b: int, c: int)
    requires a <= b && 0 <= c
    ensures a * c <= b * c
  {
  }

  lemma MulSwap(a: int, b: int, c: int)
    ensures (a * b) * c == (a * c) * b
  {
  }

  lemma MulAdd(a: int, b: int, c: int)
    ensures (a + b) * c == a * c + b * c
  {
  }

  /** A strict inequality survives multiplication by a positive factor. */
  lemma CancelLess(a: int, b: int, c: int)
    requires 0 < c
    ensures a < b ==> a * c < b * c
  {
    if a < b {
      MulAdd(a, 1, c);
      MulMonotone(a + 1, b, c);
    }
  }

  lemma DivFacts(a: int, b: int)
    requires 0 < b
    ensures (a / b) * b <= a < (a / b) * b + b
  {
  }

  lemma DivBounds(a: int, b: int, q: int)
    requires b > 0
    requires q * b <= a < q * b + b
    ensures a / b == q
  {
    var p := a / b;
    DivFacts(a, b);
    MulAdd(p, 1, b);
    MulAdd(q, 1, b);
    if p < q {
      MulMonotone(p + 1, q, b);
    } else if q < p {
      MulMonotone(q + 1, p, b);
    }
  }

  /** Dividing twice is dividing by the product. */
  lemma DivDiv(a: int, b: int, c: int)
    requires b > 0 && c > 0
    ensures b * c > 0 && (a / b) / c == a / (b * c)
  {
    var p := a / b;
    var q := p / c;
    DivFacts(a, b);
    DivFacts(p, c);
    assert q * (b * c) == (q * c) * b <= p * b by {
      MulMonotone(q * c, p, b);
      MulSwap(q, b, c);
    }
    assert p * b + b <= q * (b * c) + b * c by {
      MulMonotone(p + 1, q * c + c, b);
      MulAdd(p, 1, b);
      MulAdd(q * c, c, b);
      MulSwap(q, b, c);
    }
    MulMonotone(1, b, c);
    DivBounds(a, b * c, q);
  }

  lemma ReciprocalLower(n: int, d: int, m: int, top: int, e: int)
    requires 0 <= n && 0 < d && 0 < top
    requires m * d == top + e && 0 <= e
    ensures (n / d) * top <= m * n
  {
    var k := n / d;
    DivFacts(n, d);
    assert (k * top) * d <= top * n by {
      MulSwap(k, top, d);
      MulMonotone(k * d, n, top);
    }
    assert top * n <= (m * n) * d by {
      MulSwap(m, n, d);
      MulMonotone(top, m * d, n);
    }
    CancelLess(m * n, k * top, d);
  }

  lemma ReciprocalUpper(n: int, d: int, m: int, top: int, e: int)
    requires 0 <= n && 0 < d && 0 < top
    requires m * d == top + e && 0 <= e
    requires e * n < top
    ensures m * n < (n / d + 1) * top
  {
    var k := n / d;
    DivFacts(n, d);
    assert (m * n) * d < top * (n + 1) by {
      MulSwap(m, n, d);
      MulAdd(top, e, n);
      MulAdd(n, 1, top);
    }
    assert top * (n + 1) <= ((k + 1) * top) * d by {
      MulSwap(k + 1, top, d);
      MulAdd(k, 1, d);
      MulMonotone(n + 1, (k + 1) * d, top);
    }
    if m * n >= (k + 1) * top {
      MulMonotone((k + 1) * top, m * n, d);
    }
  }

  /**
   The reciprocal argument: if `m * d` exceeds the power `top` by `e`, and `e * n` is
   below `top`, then `m * n / top` is the exact quotient.
   */
  lemma Reciprocal(n: int, d: int, m: int, top: int, e: int)
    requires 0 <= n && 0 < d && 0 < top
    requires m * d == top + e && 0 <= e
    requires e * n < top
    ensures (m * n) / top == n / d
  {
    ReciprocalLower(n, d, m, top, e);
    ReciprocalUpper(n, d, m, top, e);
    MulAdd(n / d, 1, top);
    DivBounds(m * n, top, n / d);
  }

  /** The remainder split of `2^64 * 2^log` by a divisor strictly between `2^log` and `2^(log+1)`. */
  lemma ProposedRange(d: int, p: int) returns (proposed: int, rem: int)
    requires 1 <= p < d < 2 * p && d < WORD
    ensures proposed == (WORD * p) / d && rem == WORD * p - proposed * d
    ensures 0 <= rem < d
    ensures WORD / 2 <= proposed < WORD
  {
    proposed := (WORD * p) / d;
    rem := WORD * p - proposed * d;
    DivFacts(WORD * p, d);
    MulAdd(proposed, 1, d);
    if proposed >= WORD {
      MulMonotone(WORD, proposed, d);
    }
    if proposed < WORD / 2 {
      MulMonotone(proposed + 1, WORD / 2, d);
    }
  }

  lemma WideProduct(e: int, n: int, bound: int)
    requires 0 <= e <= bound && 0 < bound && 0 <= n < WORD
    ensures e * n < WORD * bound
  {
    MulMonotone(e, bound, n);
    MulMonotone(n, WORD - 1, bound);
  }

  lemma ModSmall(a: int)
    requires 0 <= a < WORD
    ensures a % WORD == a
  {
  }

  /** The quotient and the remainder are computed without wrap-around. */
  lemma WordForm(d: int, p: int) returns (proposed: int, rem: int)
    requires 1 <= p < d < 2 * p && d < WORD
    ensures proposed == ((WORD * p) / d) % WORD
    ensures rem == (WORD * p - proposed * d) % WORD == WORD * p - proposed * d
    ensures 0 <= rem < d
    ensures WORD / 2 <= proposed < WORD
  {
    proposed, rem := ProposedRange(d, p);
    ModSmall(proposed);
    ModSmall(rem);
  }

  /** The narrow case: the reciprocal fits one word. */
  lemma NarrowExact(n: int, d: int, log: nat, proposed: int, rem: int)
    requires var p := Pow2(log); 1 <= d < WORD && 0 <= n < WORD && p < d && d - rem < p
    requires rem == WORD * Pow2(log) - proposed * d && 0 <= rem < d && 0 <= proposed < WORD
    ensures proposed + 1 < WORD
    ensures ((proposed + 1) * n) / WORD / Pow2(log) == n / d
  {
    var p := Pow2(log);
    var e := d - rem;
    var m := proposed + 1;
    MulAdd(proposed, 1, d);
    assert m < WORD;
    WideProduct(e, n, p);
    Reciprocal(n, d, m, WORD * p, e);
    DivDiv(m * n, WORD, p);
  }

  /** The 65-bit reciprocal of the wide case and its excess. */
  lemma WideReciprocal(d: int, p: int, proposed: int, rem: int) returns (m: int, e: int)
    requires 1 <= p < d < 2 * p && d < WORD
    requires rem == WORD * p - proposed * d && 0 <= rem < d
    ensures m == 2 * proposed + (if 2 * rem >= d then 2 else 1)
    ensures m * d == WORD * (2 * p) + e && 0 < e <= d
    ensures m < 2 * WORD
  {
    var c := if 2 * rem >= d then 2 else 1;
    m := 2 * proposed + c;
    e := c * d - 2 * rem;
    assert m * d == 2 * (proposed * d) + c * d by {
      MulAdd(2 * proposed, c, d);
      MulSwap(2, proposed, d);
      MulSwap(2, d, proposed);
    }
    if m >= 2 * WORD {
      MulMonotone(2 * WORD, m, d);
    }
  }

  /** Doubling with wrap-around yields the low 64 bits of the 65-bit reciprocal. */
  lemma WideMagic(d: int, log: nat, proposed: int, rem: int)
    requires WORD / 2 <= proposed < WORD && 0 <= rem < d < WORD && d - rem >= Pow2(log)
    requires 2 * proposed + (if 2 * rem >= d then 2 else 1) < 2 * WORD
    ensures FromQuotient(d, log, proposed, rem)
         == Divisor(2 * proposed + (if 2 * rem >= d then 2 else 1) - WORD, log, true, false)
  {
    assert (proposed + proposed) % WORD == 2 * proposed - WORD;
    assert (rem + rem) % WORD == (if rem + rem >= WORD then rem + rem - WORD else rem + rem);
  }

  /** `((n - q) >> 1) + q` is `(n + q) / 2` without leaving the word; `x` stands for `magic * n`. */
  lemma AddAndHalve(n: int, x: int)
    requires 0 <= n < WORD && 0 <= x <= WORD * n
    ensures var q := x / WORD;
            0 <= q <= n && (((n - q) % WORD) / 2 + q) % WORD == (n + q) / 2 && n + q == (x + WORD * n) / WORD
  {
    var q := x / WORD;
    assert (n - q) % WORD == n - q;
  }

  /** The wide case: the reciprocal `m` needs a 65th bit, which the add-and-halve step restores. */
  lemma WideExact(n: int, d: int, log: nat, magic: int, m: int, e: int)
    requires 0 <= n < WORD && 1 <= d < 2 * Pow2(log)
    requires m * d == WORD * (2 * Pow2(log)) + e && 0 < e <= d
    requires m == magic + WORD && 0 <= magic < WORD
    ensures Divide(n, Divisor(magic, log, true, false)) == n / d
  {
    WideQuotient(n, d, Pow2(log), m, e);
    MulAdd(magic, WORD, n);
    MulMonotone(0, magic, n);
    MulMonotone(magic, WORD, n);
    AddAndHalve(n, magic * n);
    DivDiv(m * n / WORD, 2, Pow2(log));
  }

  lemma WideQuotient(n: int, d: int, p: int, m: int, e: int)
    requires 0 <= n < WORD && 1 <= p && 1 <= d < 2 * p
    requires m * d == WORD * (2 * p) + e && 0 < e <= d
    ensures ((m * n) / WORD) / (2 * p) == n / d
  {
    WideProduct(e, n, 2 * p);
    Reciprocal(n, d, m, WORD * (2 * p), e);
    DivDiv(m * n, WORD, 2 * p);
  }

  lemma DivideExactFrom(n: int, d: int, log: nat, proposed: int, rem: int)
    requires var p := Pow2(log); 1 <= p < d < 2 * p && d < WORD && 0 <= n < WORD
    requires rem == WORD * Pow2(log) - proposed * d && 0 <= rem < d && WORD / 2 <= proposed < WORD
    ensures Divide(n, FromQuotient(d, log, proposed, rem)) == n / d
  {
    var p := Pow2(log);
    if d - rem < p {
      NarrowExact(n, d, log, proposed, rem);
      ModSmall(proposed + 1);
    } else {
      var m, e := WideReciprocal(d, p, proposed, rem);
      WideMagic(d, log, proposed, rem);
      WideExact(n, d, log, m - WORD, m, e);
    }
  }

  /** The reciprocal division is exact for every 64-bit dividend and every non-zero divisor. */
  lemma DivideExact(n: int, d: int)
    requires 1 <= d < WORD && 0 <= n < WORD
    ensures Divide(n, MakeDivisor(d)) == n / d
  {
    if !IsPowerOfTwo(d) {
      var log := FloorLog2(d);
      var proposed, rem := WordForm(d, Pow2(log));
      DivideExactFrom(n, d, log, proposed, rem);
    }
  }
}
