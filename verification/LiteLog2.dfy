/** `lite_log2`: the bit length of a 32-bit word, by halving the range of bits five times. */
module LiteLog2 {

  import opened Words

  function Pow2(n: nat): (p: nat)
    ensures p > 0
  {
    if n == 0 then 1 else 2 * Pow2(n - 1)
  }

  lemma {:induction false} Pow2Add(a: nat, b: nat)
    ensures Pow2(a + b) == Pow2(a) * Pow2(b)
  {
    if a > 0 {
      Pow2Add(a - 1, b);
    }
  }

  lemma {:induction false} Pow2Monotonic(a: nat, b: nat)
    requires a <= b
    ensures Pow2(a) <= Pow2(b)
    ensures a < b ==> 2 * Pow2(a) <= Pow2(b)
    decreases b - a
  {
    if a < b {
      Pow2Monotonic(a, b - 1);
    }
  }

  /** The number of binary digits of `n`; none for 0. */
  function BitLength(n: nat): nat {
    if n == 0 then 0 else 1 + BitLength(n / 2)
  }

  lemma {:induction false} BitLengthBounds(n: nat)
    requires n > 0
    ensures BitLength(n) > 0 && Pow2(BitLength(n) - 1) <= n < Pow2(BitLength(n))
  {
    if n > 1 {
      BitLengthBounds(n / 2);
    }
  }

  /** The bounds determine the bit length. */
  lemma {:induction false} BitLengthUnique(n: nat, k: nat)
    requires k > 0 && Pow2(k - 1) <= n < Pow2(k)
    ensures BitLength(n) == k
  {
    BitLengthBounds(n);
    var b := BitLength(n);
    if b < k {
      Pow2Monotonic(b, k - 1);
    } else if k < b {
      Pow2Monotonic(k, b - 1);
    }
  }

  /** `q` is what is left of `n` when it is shifted right over `d`, a power of two. */
  ghost predicate Shifted(n: nat, q: nat, d: nat) {
    q * d <= n < (q + 1) * d
  }

  /** Shifting on. */
  lemma ShiftMore(n: nat, q: nat, a: nat, b: nat)
    requires a > 0 && b > 0 && Shifted(n, q, a)
    ensures Shifted(n, q / b, a * b)
  {
    var p := q / b;
    QuotientTimes(q, b);
    MulMonotonic(p * b, q, a);
    MulMonotonic(q + 1, (p + 1) * b, a);
    Regroup(p, b, a);
    Regroup(p + 1, b, a);
  }

  lemma QuotientTimes(q: nat, b: nat)
    requires b > 0
    ensures q / b * b <= q && q + 1 <= (q / b + 1) * b
  {
    assert q == q / b * b + q % b;
  }

  lemma Regroup(p: nat, b: nat, a: nat)
    ensures (p * b) * a == p * (a * b)
  {}

  lemma MulMonotonic(a: nat, b: nat, d: nat)
    requires a <= b
    ensures a * d <= b * d
  {
    assert b * d == a * d + (b - a) * d;
  }

  /** For a positive word the bit length; the code returns 1 for 0, where its comment says 0. */
  function Bin(n: nat): nat {
    if n == 0 then 1 else BitLength(n)
  }

  /** `lite_log2`. */
  method Log2(len: nat) returns (r: nat)
    requires len < WORD
    ensures r == Bin(len)
  {
    var val, logval := len, 0;
    var bits := 4;
    WordBits();
    while bits >= 0
      invariant -1 <= bits <= 4
      invariant val >= 0 && Shifted(len, val, Pow2(logval)) && (val > 0 <==> len > 0)
      invariant val < Pow2(Pow2(bits + 1))
      invariant len == 0 ==> logval == 0
      decreases bits
    {
      var scale := Pow2(bits);
      if val >= Pow2(scale) {
        Halved(val, scale, bits);
        ShiftMore(len, val, Pow2(logval), Pow2(scale));
        Pow2Add(logval, scale);
        val := val / Pow2(scale);
        logval := logval + scale;
      }
      bits := bits - 1;
    }
    r := logval + 1;
    if len > 0 {
      assert Pow2(1) == 2 && val == 1;
      BitLengthUnique(len, r);
    }
  }

  lemma WordBits()
    ensures Pow2(Pow2(5)) == WORD
  {
    assert Pow2(2) == 4 && Pow2(4) == 16 && Pow2(5) == 32;
    Pow2Add(4, 4);
    Pow2Add(8, 8);
    Pow2Add(16, 16);
  }

  /** Shifting by half the remaining width leaves half the width, and something. */
  lemma Halved(val: nat, scale: nat, bits: nat)
    requires scale == Pow2(bits) && Pow2(scale) <= val < Pow2(Pow2(bits + 1))
    ensures 0 < val / Pow2(scale) < Pow2(scale)
  {
    assert Pow2(bits + 1) == scale + scale;
    Pow2Add(scale, scale);
    QuotientBounds(val, Pow2(scale));
  }

  lemma QuotientBounds(n: nat, d: nat)
    requires d > 0 && d <= n < d * d
    ensures 0 < n / d < d
  {
    QuotientTimes(n, d);
    if d <= n / d {
      MulMonotonic(d, n / d, d);
    }
  }
}
