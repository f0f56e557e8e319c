/** Exact powers of two and base-2 logarithms, standing in for the
    floating-point `2 ** n`, `Math.log2` and `Math.ceil` of the renderer. */
module Powers {

  /** 2^n for a natural exponent. */
  function Pow2Nat(n: nat): (r: nat)
    ensures r >= 1
  {
    if n == 0 then 1 else 2 * Pow2Nat(n - 1)
  }

  /** 2^k for any integer exponent, as an exact real. */
  function Pow2(k: int): (r: real)
    ensures r > 0.0
  {
    if k >= 0 then Pow2Nat(k) as real else 1.0 / (Pow2Nat(-k) as real)
  }

  /** The smallest integer not below x. */
  function Ceiling(x: real): (c: int)
    ensures x <= c as real < x + 1.0
  {
    -((-x).Floor)
  }

  lemma Pow2Succ(k: int)
    ensures Pow2(k + 1) == 2.0 * Pow2(k)
  {
  }

  /** Powers of two grow strictly with the exponent. */
  lemma {:induction false} Pow2StrictlyIncreasing(j: int, k: int)
    requires j < k
    ensures Pow2(j) < Pow2(k)
    decreases k - j
  {
    Pow2Succ(j);
    if j + 1 < k {
      Pow2StrictlyIncreasing(j + 1, k);
    }
  }

  lemma Pow2Increasing(j: int, k: int)
    requires j <= k
    ensures Pow2(j) <= Pow2(k)
  {
    if j < k {
      Pow2StrictlyIncreasing(j, k);
    }
  }

  /** The least k with n <= 2^k. */
  function CeilLog2Nat(n: nat): (k: nat)
    requires n >= 1
    ensures n <= Pow2Nat(k)
    ensures k == 0 || Pow2Nat(k - 1) < n
    decreases n
  {
    if n == 1 then 0 else 1 + CeilLog2Nat((n + 1) / 2)
  }

  /** The greatest k with 2^k <= n. */
  function FloorLog2Nat(n: nat): (k: nat)
    requires n >= 1
    ensures Pow2Nat(k) <= n < Pow2Nat(k + 1)
    decreases n
  {
    if n == 1 then 0 else 1 + FloorLog2Nat(n / 2)
  }

  /** `Math.ceil(Math.log2(s))` computed exactly: the unique k with
      2^(k-1) < s <= 2^k. */
  function CeilLog2(s: real): (k: int)
    requires s > 0.0
    ensures Pow2(k - 1) < s <= Pow2(k)
  {
    if s > 1.0 then
      var c := Ceiling(s);
      var k := CeilLog2Nat(c);
      assert k >= 1;
      k
    else
      var f := (1.0 / s).Floor;
      assert f >= 1 by { assert 1.0 / s >= 1.0; }
      var j := FloorLog2Nat(f);
      CeilLog2Small(s, f, j);
      -(j as int)
  }

  /** The case 0 < s <= 1 of CeilLog2: with f = floor(1/s) and
      2^j <= f < 2^(j+1), the answer is -j. */
  lemma CeilLog2Small(s: real, f: int, j: nat)
    requires 0.0 < s <= 1.0
    requires f == (1.0 / s).Floor
    requires Pow2Nat(j) <= f < Pow2Nat(j + 1)
    ensures Pow2(-(j as int) - 1) < s <= Pow2(-(j as int))
  {
    var p := Pow2Nat(j) as real;
    var q := Pow2Nat(j + 1) as real;
    ReciprocalBelow(p, s);
    ReciprocalAbove(q, s);
  }

  /** If p <= 1/s then s <= 1/p. */
  lemma ReciprocalBelow(p: real, s: real)
    requires p > 0.0 && s > 0.0
    requires p <= 1.0 / s
    ensures s <= 1.0 / p
  {
  }

  /** If 1/s < q then 1/q < s. */
  lemma ReciprocalAbove(q: real, s: real)
    requires q > 0.0 && s > 0.0
    requires 1.0 / s < q
    ensures 1.0 / q < s
  {
  }

  /** Only one integer k satisfies 2^(k-1) < s <= 2^k. */
  lemma CeilLog2Unique(s: real, k: int)
    requires s > 0.0
    requires Pow2(k - 1) < s <= Pow2(k)
    ensures CeilLog2(s) == k
  {
    var c := CeilLog2(s);
    if c < k {
      Pow2Increasing(c, k - 1);
    } else if c > k {
      Pow2Increasing(k, c - 1);
    }
  }
}
