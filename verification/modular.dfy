/** Facts about Dafny's `%` for a positive divisor, which is also what
    Python's `%` computes there. The round-robin counter needs them. */
module Modular {

  lemma {:induction false} MulAtLeast(k: nat, n: int)
    requires k >= 1 && n > 0
    ensures k * n >= n
    decreases k
  {
    if k > 1 {
      MulAtLeast(k - 1, n);
      Distrib(k - 1, n);
    }
  }

  lemma Distrib(k: int, n: int)
    ensures (k + 1) * n == k * n + n
  {
  }

  lemma DiffMul(q: int, q0: int, n: int)
    ensures q * n - q0 * n == (q - q0) * n
  {
  }

  /** The remainder is the unique `r` in [0, n) with `a == q * n + r`. */
  lemma ModUnique(a: int, n: int, q: int, r: int)
    requires n > 0 && 0 <= r < n && a == q * n + r
    ensures a % n == r
  {
    var q0 := a / n;
    var r0 := a % n;
    assert a == q0 * n + r0;
    DiffMul(q, q0, n);
    if q0 < q {
      MulAtLeast(q - q0, n);
    } else if q0 > q {
      DiffMul(q0, q, n);
      MulAtLeast(q0 - q, n);
    }
  }

  /** Adding a multiple of `n` does not change the remainder. */
  lemma ModShift(q: int, x: int, n: int)
    requires n > 0
    ensures (q * n + x) % n == x % n
  {
    var a := x / n;
    assert x == a * n + x % n;
    DiffMul(q + a, -a, n);
    assert q * n + x == (q + a) * n + x % n;
    ModUnique(q * n + x, n, q + a, x % n);
  }

  /** Reducing before adding `b` gives the same remainder as adding first. */
  lemma ShiftAfterMod(a: int, b: int, n: int)
    requires n > 0
    ensures (a % n + b) % n == (a + b) % n
  {
    ModShift(a / n, a % n + b, n);
    assert a / n * n + (a % n + b) == a + b;
  }

  /** Advancing once with wrap-around and then m more times is advancing
      m + 1 times. */
  lemma ModAdvance(c: int, m: int, n: int)
    requires n > 0
    ensures ((c + 1) % n + m) % n == (c + 1 + m) % n
  {
    ShiftAfterMod(c + 1, m, n);
  }

  /** Every slot t in [0, n) is reached from c after (t - c - 1) mod n + 1
      steps. */
  lemma ModReach(c: int, t: int, n: int)
    requires 0 <= t < n
    ensures 0 <= (t - c - 1) % n < n
    ensures (c + (t - c - 1) % n + 1) % n == t
  {
    ShiftAfterMod(t - c - 1, c + 1, n);
    ModInRange(t, n);
  }

  /** Adding the divisor does not change the remainder. */
  lemma ModAddPeriod(c: int, n: int)
    requires n > 0
    ensures (c + n) % n == c % n
  {
    ModShift(1, c, n);
    assert 1 * n + c == c + n;
  }

  /** A value in [0, n) is its own remainder, also after adding `n`. */
  lemma ModInRange(t: int, n: int)
    requires 0 <= t < n
    ensures t % n == t && (t + n) % n == t
  {
    ModUnique(t, n, 0, t);
    ModShift(1, t, n);
  }
}
