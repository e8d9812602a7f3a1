/** Fixed-width machine words as bounded naturals, with the bit-level meaning of the
    operators the C++ sources apply to `std::uint64_t`. */
module Words {

  const BITS: nat := 64
  const LIMIT: nat := 0x1_0000_0000_0000_0000

  /** `std::uint64_t`. */
  type Word = x: nat | x < LIMIT

  function Pow2(n: nat): (p: nat)
    ensures p >= 1
  {
    if n == 0 then 1 else 2 * Pow2(n - 1)
  }

  /** Bit `k` of `w`, counted from the least significant. */
  predicate Bit(w: nat, k: nat) {
    if k == 0 then w % 2 == 1 else Bit(w / 2, k - 1)
  }

  /** `w << s` before truncation: doubled `s` times. */
  function Doubled(w: nat, s: nat): nat
    decreases s
  {
    if s == 0 then w else 2 * Doubled(w, s - 1)
  }

  /** `w << s`, truncated to 64 bits. */
  function Shl(w: Word, s: nat): Word {
    Doubled(w, s) % 0x1_0000_0000_0000_0000
  }

  /** `w >> s`: halved `s` times. */
  function Shr(w: nat, s: nat): (r: nat)
    ensures r <= w
    decreases s
  {
    if s == 0 then w else Shr(w / 2, s - 1)
  }

  /** The bitwise operator whose one-bit truth table is `op`. */
  function Bitwise(op: (bool, bool) -> bool, a: nat, b: nat): nat {
    if a == 0 && b == 0 then 0
    else (if op(a % 2 == 1, b % 2 == 1) then 1 else 0) + 2 * Bitwise(op, a / 2, b / 2)
  }

  function And(a: Word, b: Word): Word {
    WordBound((x, y) => x && y, a, b);
    Bitwise((x, y) => x && y, a, b)
  }

  function Or(a: Word, b: Word): Word {
    WordBound((x, y) => x || y, a, b);
    Bitwise((x, y) => x || y, a, b)
  }

  function Xor(a: Word, b: Word): Word {
    WordBound((x, y) => x != y, a, b);
    Bitwise((x, y) => x != y, a, b)
  }

  lemma {:induction false} BitwiseBound(op: (bool, bool) -> bool, a: nat, b: nat, n: nat)
    requires a < Pow2(n) && b < Pow2(n)
    ensures Bitwise(op, a, b) < Pow2(n)
  {
    if n > 0 {
      BitwiseBound(op, a / 2, b / 2, n - 1);
    }
  }

  lemma Pow2Nibble(n: nat)
    ensures Pow2(n + 4) == 16 * Pow2(n)
  {
    assert Pow2(n + 2) == 4 * Pow2(n);
    assert Pow2(n + 4) == 4 * Pow2(n + 2);
  }

  lemma Pow2Byte(n: nat)
    ensures Pow2(n + 8) == 256 * Pow2(n)
  {
    Pow2Nibble(n);
    Pow2Nibble(n + 4);
  }

  lemma LimitIsPow2()
    ensures Pow2(BITS) == LIMIT
  {
    Pow2Half(0, 1);
    Pow2Half(32, 0x1_0000_0000);
  }

  lemma Pow2Half(n: nat, p: nat)
    requires Pow2(n) == p
    ensures Pow2(n + 32) == 0x1_0000_0000 * p
  {
    hide Pow2;
    Pow2Byte(n);
    Pow2Byte(n + 8);
    Pow2Byte(n + 16);
    Pow2Byte(n + 24);
  }

  lemma WordBound(op: (bool, bool) -> bool, a: Word, b: Word)
    ensures Bitwise(op, a, b) < LIMIT
  {
    LimitIsPow2();
    BitwiseBound(op, a, b, BITS);
  }

  lemma {:induction false} BitOfZero(k: nat)
    ensures !Bit(0, k)
  {
    if k > 0 {
      BitOfZero(k - 1);
    }
  }

  /** A bitwise operator acts on each bit on its own. */
  lemma {:induction false} BitOfBitwise(op: (bool, bool) -> bool, a: nat, b: nat, k: nat)
    requires !op(false, false)
    ensures Bit(Bitwise(op, a, b), k) == op(Bit(a, k), Bit(b, k))
  {
    if a == 0 && b == 0 {
      BitOfZero(k);
    } else if k > 0 {
      BitOfBitwise(op, a / 2, b / 2, k - 1);
    }
  }

  lemma {:induction false} BitOfDoubled(w: nat, s: nat, k: nat)
    ensures Bit(Doubled(w, s), k) == (k >= s && Bit(w, k - s))
  {
    if s > 0 && k > 0 {
      BitOfDoubled(w, s - 1, k - 1);
    }
  }

  lemma {:induction false} BitOfShr(w: nat, s: nat, k: nat)
    ensures Bit(Shr(w, s), k) == Bit(w, k + s)
  {
    if s > 0 {
      BitOfShr(w / 2, s - 1, k);
    }
  }

  lemma {:induction false} ShrSum(w: nat, a: nat, b: nat)
    ensures Shr(Shr(w, a), b) == Shr(w, a + b)
    decreases a
  {
    if a > 0 {
      ShrSum(w / 2, a - 1, b);
    }
  }

  lemma QuotientTwice(w: nat, p: nat)
    requires p >= 1
    ensures w / (2 * p) == (w / 2) / p
    ensures (w % (2 * p)) / 2 == (w / 2) % p
    ensures (w % (2 * p)) % 2 == w % 2
  {
    var h := w / 2;
    var q, r := h / p, h % p;
    assert h == p * q + r;
    var m := 2 * r + w % 2;
    assert w == (2 * p) * q + m by {
      assert (2 * p) * q == 2 * (p * q);
    }
    DivModUnique(w, 2 * p, q, m);
  }

  lemma DivModUnique(x: nat, d: nat, q: nat, r: nat)
    requires d > 0 && x == d * q + r && r < d
    ensures x / d == q && x % d == r
  {
    MulGap(d, q, x / d);
    MulGap(d, x / d, q);
    assert x == d * (x / d) + x % d;
  }

  lemma MulGap(d: nat, a: int, b: int)
    requires d > 0
    ensures a > b ==> d * a >= d * b + d
  {
    assert d * a == d * b + d * (a - b);
    if a > b {
      assert d * (a - b) == d + d * (a - b - 1);
    }
  }

  /** Truncation to `n` bits keeps exactly the bits below `n`. */
  lemma {:induction false} BitOfRemainder(w: nat, n: nat, k: nat)
    ensures Bit(w % Pow2(n), k) == (k < n && Bit(w, k))
  {
    if n == 0 {
      BitOfZero(k);
    } else {
      QuotientTwice(w, Pow2(n - 1));
      if k > 0 {
        BitOfRemainder(w / 2, n - 1, k - 1);
      }
    }
  }

  lemma BitOfShl(w: Word, s: nat, k: nat)
    ensures Bit(Shl(w, s), k) == (s <= k < BITS && Bit(w, k - s))
  {
    LimitIsPow2();
    BitOfRemainder(Doubled(w, s), BITS, k);
    BitOfDoubled(w, s, k);
  }

  lemma BitOfOr(a: Word, b: Word, k: nat)
    ensures Bit(Or(a, b), k) == (Bit(a, k) || Bit(b, k))
  {
    BitOfBitwise((x, y) => x || y, a, b, k);
  }

  lemma BitOfAnd(a: Word, b: Word, k: nat)
    ensures Bit(And(a, b), k) == (Bit(a, k) && Bit(b, k))
  {
    BitOfBitwise((x, y) => x && y, a, b, k);
  }

  /** `1 << b` is a power of two and has exactly bit `b` set. */
  lemma BitOfSingle(b: nat, k: nat)
    requires b < BITS
    ensures Bit(Shl(1, b), k) == (k == b)
  {
    BitOfShl(1, b, k);
    if k > b {
      BitOfZero(k - b - 1);
    }
  }

  lemma {:induction false} DoubledOne(s: nat)
    ensures Doubled(1, s) == Pow2(s)
  {
    if s > 0 {
      DoubledOne(s - 1);
    }
  }

  /** `(1 << t) - 1` has exactly the bits below `t` set. */
  lemma {:induction false} BitOfMask(t: nat, k: nat)
    ensures Bit(Pow2(t) - 1, k) == (k < t)
  {
    if t == 0 {
      BitOfZero(k);
    } else if k > 0 {
      assert (Pow2(t) - 1) / 2 == Pow2(t - 1) - 1;
      BitOfMask(t - 1, k - 1);
    }
  }

  /** A word below `2^n` has no bit at or above `n`, and a non-zero word has some bit. */
  lemma {:induction false} NonZeroHasBit(w: nat, n: nat) returns (k: nat)
    requires 0 < w < Pow2(n)
    ensures k < n && Bit(w, k)
  {
    if w % 2 == 1 {
      k := 0;
    } else {
      k := NonZeroHasBit(w / 2, n - 1);
      k := k + 1;
    }
  }

  /** `(w & (1 << b)) != 0` tests bit `b`. */
  lemma MaskTest(w: Word, b: nat)
    requires b < BITS
    ensures (And(w, Shl(1, b)) != 0) == Bit(w, b)
  {
    var m := And(w, Shl(1, b));
    BitOfAnd(w, Shl(1, b), b);
    BitOfSingle(b, b);
    if m != 0 {
      LimitIsPow2();
      var k := NonZeroHasBit(m, BITS);
      BitOfAnd(w, Shl(1, b), k);
      BitOfSingle(b, k);
    } else {
      BitOfZero(b);
    }
  }
}
