/**
 Fixed-width unsigned integers and the Rust bit operators the link code uses
 (`>>`, `<<`, `&`, `|`), modelled over unbounded integers. `And` and `Or` are
 defined bit by bit, so the lemmas below that turn them into `%` and `+` carry
 the actual reasoning about masks and disjoint bit fields.
 */
module Bits {

  const U8_LIMIT: int := 0x100
  const U64_LIMIT: int := 0x1_0000_0000_0000_0000

  /** Rust `u8`. */
  type u8 = x: int | 0 <= x < U8_LIMIT
  /** Rust `u64`. */
  type u64 = x: int | 0 <= x < U64_LIMIT

  function Pow2(n: nat): (r: nat)
    ensures r > 0
  {
    if n == 0 then 1 else 2 * Pow2(n - 1)
  }

  /** `v >> n` on a `u64`, one bit at a time; Rust rejects shift amounts of 64 or more. */
  function Shr(v: u64, n: nat): u64
    requires n < 64
  {
    if n == 0 then v else Shr(v / 2, n - 1)
  }

  /** `v << n` on a `u64`: bits shifted past bit 63 are dropped. */
  function Shl64(v: u64, n: nat): (r: u64)
    requires n < 64
    ensures v * Pow2(n) < U64_LIMIT ==> r == v * Pow2(n)
  {
    (v * Pow2(n)) % U64_LIMIT
  }

  /** Shifting by `a + b` is shifting by `a`, then by `b`. */
  lemma {:induction false} ShrAdd(v: u64, a: nat, b: nat)
    requires a + b < 64
    ensures Shr(v, a + b) == Shr(Shr(v, a), b)
    decreases a
  {
    if a > 0 {
      ShrAdd(v / 2, a - 1, b);
    }
  }

  /** `v >> n` is `v` divided by `2^n`, rounding down. */
  lemma {:induction false} ShrIsDiv(v: u64, n: nat)
    requires n < 64
    ensures Shr(v, n) == v / Pow2(n)
  {
    if n > 0 {
      ShrIsDiv(v / 2, n - 1);
      DivMod(v, 2, Pow2(n - 1));
    }
  }

  /** Bitwise `a & b`. */
  function And(a: nat, b: nat): nat
  {
    if a == 0 || b == 0 then 0
    else 2 * And(a / 2, b / 2) + (if a % 2 == 1 && b % 2 == 1 then 1 else 0)
  }

  /** Bitwise `a | b`. */
  function Or(a: nat, b: nat): nat
    decreases a + b
  {
    if a == 0 then b
    else if b == 0 then a
    else 2 * Or(a / 2, b / 2) + (if a % 2 == 1 || b % 2 == 1 then 1 else 0)
  }

  lemma {:induction false} Pow2Add(a: nat, b: nat)
    ensures Pow2(a + b) == Pow2(a) * Pow2(b)
    decreases a
  {
    if a > 0 {
      Pow2Add(a - 1, b);
      calc {
        Pow2(a + b);
        2 * Pow2(a - 1 + b);
        2 * (Pow2(a - 1) * Pow2(b));
        (2 * Pow2(a - 1)) * Pow2(b);
      }
    }
  }

  lemma Pow2Small()
    ensures Pow2(1) == 2
    ensures Pow2(7) == 0x80
    ensures Pow2(8) == U8_LIMIT
  {
    assert Pow2(8) == 0x100;
  }

  lemma Pow2Limit()
    ensures Pow2(64) == U64_LIMIT
    ensures 2 * Pow2(63) == U64_LIMIT
  {
    Pow2Small();
    Pow2Byte(8);
    Pow2Byte(16);
    Pow2Byte(24);
    Pow2Byte(32);
    Pow2Byte(40);
    Pow2Byte(48);
    Pow2Byte(56);
  }

  /** One more seven-bit field: `2^(n + 7) == 0x80 * 2^n`. */
  lemma Pow2Seven(n: nat)
    ensures Pow2(n + 7) == 0x80 * Pow2(n)
  {
    Pow2Small();
    Pow2Add(n, 7);
  }

  /** One more byte: `2^(n + 8) == 0x100 * 2^n`. */
  lemma Pow2Byte(n: nat)
    ensures Pow2(n + 8) == U8_LIMIT * Pow2(n)
  {
    Pow2Small();
    Pow2Add(n, 8);
  }

  lemma {:induction false} Pow2Monotone(a: nat, b: nat)
    requires a <= b
    ensures Pow2(a) <= Pow2(b)
    decreases b
  {
    if a < b {
      Pow2Monotone(a, b - 1);
    }
  }

  lemma MulMonotone(x: int, y: int, d: int)
    requires x <= y && d >= 0
    ensures x * d <= y * d
  {
  }

  /** Division and remainder are determined by any decomposition `v == q * d + r` with `0 <= r < d`. */
  lemma DivModUnique(v: int, d: int, q: int, r: int)
    requires d > 0 && 0 <= r < d
    requires v == q * d + r
    ensures v / d == q && v % d == r
  {
    var q' := v / d;
    var r' := v % d;
    assert v == q' * d + r';
    assert (q' - q) * d == r - r';
    if q' - q >= 1 {
      MulMonotone(1, q' - q, d);
    } else if q' - q <= -1 {
      MulMonotone(q' - q, -1, d);
    }
  }

  /**
   Splitting a value at two nested field boundaries: the remainder modulo `a * b`
   is the field `(v / a) % b` scaled by `a`, plus the bits below `a`.
   */
  lemma DivMod(v: nat, a: nat, b: nat)
    requires a > 0 && b > 0
    ensures v / a / b == v / (a * b)
    ensures v % (a * b) == ((v / a) % b) * a + v % a
  {
    var q := v / (a * b);
    var r := v % (a * b);
    var hi := r / a;
    var lo := r % a;
    assert r == hi * a + lo;
    assert hi < b by {
      if hi >= b {
        MulMonotone(b, hi, a);
      }
    }
    assert v == (q * b + hi) * a + lo;
    DivModUnique(v, a, q * b + hi, lo);
    DivModUnique(v / a, b, q, hi);
  }

  /** Masking with `2^w - 1` keeps exactly the `w` low bits. */
  lemma {:induction false} AndLowMask(a: nat, w: nat)
    ensures And(a, Pow2(w) - 1) == a % Pow2(w)
    decreases w
  {
    if w == 0 {
      assert Pow2(w) == 1;
    } else if a == 0 {
      assert And(a, Pow2(w) - 1) == 0;
    } else {
      var p := Pow2(w - 1);
      var m := Pow2(w) - 1;
      assert m / 2 == p - 1 && m % 2 == 1 by {
        assert m == 2 * (p - 1) + 1;
      }
      assert And(a, m) == 2 * And(a / 2, p - 1) + a % 2;
      AndLowMask(a / 2, w - 1);
      assert a % Pow2(w) == 2 * ((a / 2) % p) + a % 2 by {
        DivMod(a, 2, p);
      }
    }
  }

  /** OR-ing a value whose low `w` bits are clear with a value below `2^w` adds them. */
  lemma {:induction false} OrDisjoint(a: nat, b: nat, w: nat)
    requires a % Pow2(w) == 0 && b < Pow2(w)
    ensures Or(a, b) == a + b
    decreases w
  {
    if w > 0 && a != 0 && b != 0 {
      var p := Pow2(w - 1);
      DivMod(a, 2, p);
      assert 2 * p == Pow2(w);
      assert a % 2 == 0;
      OrDisjoint(a / 2, b / 2, w - 1);
    }
  }

  /** `|` never produces a bit above the highest bit of its operands. */
  lemma {:induction false} OrBound(a: nat, b: nat, w: nat)
    requires a < Pow2(w) && b < Pow2(w)
    ensures Or(a, b) < Pow2(w)
    decreases w
  {
    if w > 0 && a != 0 && b != 0 {
      OrBound(a / 2, b / 2, w - 1);
    }
  }
}
