/**
 * Unsigned 32-bit words of the program, modelled as natural numbers.
 *
 * The decoder works on `u32` values with `>>` and `&`. A word is a `nat` below
 * 2^32 here, `>>` is division by a power of two and `&` is bitwise conjunction,
 * defined bit by bit. The lemmas turn a shift followed by a mask into plain
 * division and remainder, which is how the fields of a word are reasoned about.
 */
module Bits {

  /** Largest value of a Rust `u32`. */
  const U32Max: nat := 0xFFFF_FFFF

  function Pow2(k: nat): (r: nat)
    ensures r >= 1
  {
    if k == 0 then 1 else 2 * Pow2(k - 1)
  }

  lemma {:induction false} Pow2Add(a: nat, b: nat)
    ensures Pow2(a + b) == Pow2(a) * Pow2(b)
  {
    if b > 0 {
      Pow2Add(a, b - 1);
      assert Pow2(a + b) == 2 * Pow2(a + b - 1);
    }
  }

  /** `x >> k` on an unsigned word: the low k bits are dropped, one halving per bit. */
  function Shr(x: nat, k: nat): nat
  {
    if k == 0 then x else Shr(x / 2, k - 1)
  }

  /** `m << k` on an unsigned word whose high bits do not overflow. */
  function Shl(m: nat, k: nat): nat
  {
    if k == 0 then m else 2 * Shl(m, k - 1)
  }

  /** `x & y`: bit i of the result is set iff bit i is set in both arguments. */
  function And(x: nat, y: nat): (r: nat)
    ensures r <= x && r <= y
    decreases x
  {
    if x == 0 || y == 0 then 0
    else 2 * And(x / 2, y / 2) + (if x % 2 == 1 && y % 2 == 1 then 1 else 0)
  }

  lemma MulAtLeast(t: int, d: int)
    requires t >= 1 && d > 0
    ensures t * d >= d
  {
  }

  lemma MulMono(a: nat, u: nat, v: nat)
    requires u <= v
    ensures a * u <= a * v
  {
    assert a * v - a * u == a * (v - u);
  }

  /** Quotient and remainder are determined by any decomposition x == q * d + r with 0 <= r < d. */
  lemma DivModUnique(x: int, d: int, q: int, r: int)
    requires d > 0 && x == q * d + r && 0 <= r < d
    ensures x / d == q && x % d == r
  {
    var q0, r0 := x / d, x % d;
    assert (q - q0) * d == r0 - r;
    if q > q0 {
      MulAtLeast(q - q0, d);
    } else if q < q0 {
      MulAtLeast(q0 - q, d);
    }
  }

  lemma ModDouble(x: nat, p: nat)
    requires p > 0
    ensures x % (2 * p) == 2 * ((x / 2) % p) + x % 2
  {
    var q, b := x / 2, x % 2;
    var t, u := q / p, q % p;
    assert x == t * (2 * p) + (2 * u + b);
    DivModUnique(x, 2 * p, t, 2 * u + b);
  }

  lemma DivDiv(x: nat, a: nat, b: nat)
    requires a > 0 && b > 0
    ensures x / a / b == x / (a * b)
  {
    var q1, r1 := x / a, x % a;
    var q2, r2 := q1 / b, q1 % b;
    assert x == a * q1 + r1;
    assert q1 == b * q2 + r2;
    assert x == a * (b * q2 + r2) + r1;
    assert a * (b * q2 + r2) == q2 * (a * b) + a * r2;
    assert a * r2 <= a * (b - 1) by { MulMono(a, r2, b - 1); }
    assert a * (b - 1) == a * b - a;
    DivModUnique(x, a * b, q2, a * r2 + r1);
  }

  /** Masking with 2^w - 1 keeps the low w bits: `x & (2^w - 1) == x % 2^w`. */
  lemma {:induction false} AndLowMask(x: nat, w: nat)
    ensures And(x, Pow2(w) - 1) == x % Pow2(w)
  {
    if w > 0 {
      var p := Pow2(w - 1);
      assert Pow2(w) - 1 == 2 * (p - 1) + 1;
      AndOddMask(x, p - 1);
      AndLowMask(x / 2, w - 1);
      ModDouble(x, p);
    }
  }

  lemma AndOddMask(x: nat, h: nat)
    ensures And(x, 2 * h + 1) == 2 * And(x / 2, h) + x % 2
  {
    assert (2 * h + 1) / 2 == h && (2 * h + 1) % 2 == 1;
  }

  lemma AndEvenMask(x: nat, h: nat)
    ensures And(x, 2 * h) == 2 * And(x / 2, h)
  {
    if h > 0 {
      assert (2 * h) / 2 == h && (2 * h) % 2 == 0;
    }
  }

  /** Shifting right by k is dividing by 2^k. */
  lemma {:induction false} ShrIsDiv(x: nat, k: nat)
    ensures Shr(x, k) == x / Pow2(k)
  {
    if k > 0 {
      ShrIsDiv(x / 2, k - 1);
      DivDiv(x, 2, Pow2(k - 1));
    }
  }

  /** Shifting left then right by the same amount gives the word back. */
  lemma {:induction false} ShrShl(m: nat, k: nat)
    ensures Shr(Shl(m, k), k) == m
  {
    if k > 0 {
      ShrShl(m, k - 1);
      assert Shl(m, k) / 2 == Shl(m, k - 1);
    }
  }

  /** A mask whose low k bits are clear: `x & (m << k) == ((x >> k) & m) << k`. */
  lemma {:induction false} AndShiftedMask(x: nat, m: nat, k: nat)
    ensures And(x, Shl(m, k)) == Shl(And(Shr(x, k), m), k)
  {
    if k > 0 {
      AndEvenMask(x, Shl(m, k - 1));
      AndShiftedMask(x / 2, m, k - 1);
    }
  }

  /** `(x >> k) & (2^w - 1)` is the w-bit field of x starting at bit k. */
  lemma ShrThenMask(x: nat, k: nat, w: nat)
    ensures And(Shr(x, k), Pow2(w) - 1) == (x / Pow2(k)) % Pow2(w)
  {
    ShrIsDiv(x, k);
    AndLowMask(Shr(x, k), w);
  }

  /** `(x & ((2^w - 1) << k)) >> k` is the same w-bit field of x starting at bit k. */
  lemma MaskThenShr(x: nat, k: nat, w: nat)
    ensures Shr(And(x, Shl(Pow2(w) - 1, k)), k) == (x / Pow2(k)) % Pow2(w)
  {
    AndShiftedMask(x, Pow2(w) - 1, k);
    ShrShl(And(Shr(x, k), Pow2(w) - 1), k);
    ShrThenMask(x, k, w);
  }
}
