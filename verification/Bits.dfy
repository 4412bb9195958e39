/** Shifts, masks and bit reversal on unbounded naturals.

  The decoders keep their bit buffer in an unsigned word and only ever shift it, mask it
  with `mask_bits[n]`, or OR a byte above the bits it already holds.  Here these are
  `Shr`, `Low` and an addition, defined bit by bit so that every fact below is a short
  induction.  `LowIsMod` and `ShrIsDiv` say that they are the usual operators. */
module Bits {

  type Byte = b: int | 0 <= b < 256

  /** `1 << n` */
  function Pow2(n: nat): (r: nat)
    ensures r > 0
  {
    if n == 0 then 1 else 2 * Pow2(n - 1)
  }

  /** `x >> n` */
  function Shr(x: nat, n: nat): nat
    decreases n
  {
    if n == 0 then x else Shr(x / 2, n - 1)
  }

  /** `x & ((1 << n) - 1)` */
  function Low(n: nat, x: nat): (r: nat)
    ensures r < Pow2(n)
    decreases n
  {
    if n == 0 then 0 else x % 2 + 2 * Low(n - 1, x / 2)
  }

  /** The low `n` bits of `x`, read with the lowest bit as the most significant one. */
  function Rev(n: nat, x: nat): (r: nat)
    ensures r < Pow2(n)
    decreases n
  {
    if n == 0 then 0 else (x % 2) * Pow2(n - 1) + Rev(n - 1, x / 2)
  }

  lemma Pow2Unfold(n: nat)
    ensures Pow2(n) == if n == 0 then 1 else 2 * Pow2(n - 1)
  {
  }

  lemma ShrZero(x: nat)
    ensures Shr(x, 0) == x
  {
  }

  lemma {:induction false} Pow2Add(a: nat, b: nat)
    ensures Pow2(a + b) == Pow2(a) * Pow2(b)
  {
    if a > 0 {
      Pow2Add(a - 1, b);
      assert Pow2(a + b) == 2 * Pow2(a + b - 1);
      MulAssoc(2, Pow2(a - 1), Pow2(b));
    }
  }

  lemma MulAssoc(a: int, b: int, c: int)
    ensures (a * b) * c == a * (b * c)
  {
  }

  lemma MulMono(a: int, b: int, c: int)
    requires a <= b && 0 <= c
    ensures a * c <= b * c
  {
  }

  /** Multiplying by a positive number reflects the order. */
  lemma MulReflect(a: int, b: int, c: int)
    requires a * c < b * c && 0 < c
    ensures a < b
  {
    if b <= a {
      MulMono(b, a, c);
    }
  }

  lemma {:induction false} Pow2Mono(a: nat, b: nat)
    requires a <= b
    ensures Pow2(a) <= Pow2(b)
    decreases b
  {
    if a < b {
      Pow2Mono(a, b - 1);
    }
  }

  lemma {:induction false} LowShr(n: nat, x: nat)
    ensures x == Low(n, x) + Pow2(n) * Shr(x, n)
    decreases n
  {
    if n > 0 {
      LowShr(n - 1, x / 2);
      MulAssoc(2, Pow2(n - 1), Shr(x / 2, n - 1));
    }
  }

  lemma {:induction false} Join(n: nat, a: nat, b: nat)
    requires a < Pow2(n)
    ensures Low(n, a + Pow2(n) * b) == a
    ensures Shr(a + Pow2(n) * b, n) == b
    decreases n
  {
    if n > 0 {
      MulAssoc(2, Pow2(n - 1), b);
      var x := a + Pow2(n) * b;
      assert x == a + 2 * (Pow2(n - 1) * b);
      assert x / 2 == a / 2 + Pow2(n - 1) * b;
      Join(n - 1, a / 2, b);
    }
  }

  /** Masking is the remainder by a power of two. */
  lemma LowIsMod(n: nat, x: nat)
    ensures Low(n, x) == x % Pow2(n)
  {
    LowShr(n, x);
    DivUnique(x, Pow2(n), Shr(x, n), Low(n, x));
  }

  /** Shifting right is the quotient by a power of two. */
  lemma ShrIsDiv(n: nat, x: nat)
    ensures Shr(x, n) == x / Pow2(n)
  {
    LowShr(n, x);
    DivUnique(x, Pow2(n), Shr(x, n), Low(n, x));
  }

  lemma DivUnique(x: int, d: int, q: int, r: int)
    requires 0 < d && 0 <= r < d && x == r + d * q
    ensures x / d == q && x % d == r
  {
    var q', r' := x / d, x % d;
    assert x == d * q' + r';
    if q < q' {
      MulMono(q + 1, q', d);
    } else if q' < q {
      MulMono(q' + 1, q, d);
    }
  }

  lemma LowSmall(n: nat, x: nat)
    requires x < Pow2(n)
    ensures Low(n, x) == x && Shr(x, n) == 0
  {
    Join(n, x, 0);
  }

  lemma {:induction false} ShrShr(x: nat, a: nat, b: nat)
    ensures Shr(Shr(x, a), b) == Shr(x, a + b)
    decreases a
  {
    if a > 0 {
      ShrShr(x / 2, a - 1, b);
    }
  }

  lemma {:induction false} LowLow(a: nat, b: nat, x: nat)
    requires a <= b
    ensures Low(a, Low(b, x)) == Low(a, x)
    decreases a
  {
    if a > 0 {
      LowLow(a - 1, b - 1, x / 2);
      assert Low(b, x) / 2 == Low(b - 1, x / 2);
    }
  }

  lemma {:induction false} ShrLow(a: nat, b: nat, x: nat)
    ensures Shr(Low(a + b, x), a) == Low(b, Shr(x, a))
    decreases a
  {
    if a > 0 {
      ShrLow(a - 1, b, x / 2);
      assert Low(a + b, x) / 2 == Low(a + b - 1, x / 2);
    }
  }

  lemma LowSplit(a: nat, b: nat, x: nat)
    ensures Low(a + b, x) == Low(a, x) + Pow2(a) * Low(b, Shr(x, a))
  {
    LowShr(a, Low(a + b, x));
    LowLow(a, a + b, x);
    ShrLow(a, b, x);
  }

  lemma {:induction false} LowMono(n: nat, x: nat)
    ensures Low(n, x) <= x
    decreases n
  {
    if n > 0 {
      LowMono(n - 1, x / 2);
    }
  }

  lemma ShrMono(x: nat, n: nat, m: nat)
    requires x < Pow2(n + m)
    ensures Shr(x, n) < Pow2(m)
  {
    LowSmall(n + m, x);
    ShrLow(n, m, x);
  }

  // ----- bit reversal

  lemma {:induction false} RevLow(n: nat, m: nat, x: nat)
    requires n <= m
    ensures Rev(n, Low(m, x)) == Rev(n, x)
    decreases n
  {
    if n > 0 {
      RevLow(n - 1, m - 1, x / 2);
      assert Low(m, x) / 2 == Low(m - 1, x / 2);
    }
  }

  /** Reversing `a + b` bits puts the first `a` of them on top. */
  lemma {:induction false} RevSplit(a: nat, b: nat, x: nat)
    ensures Rev(a + b, x) == Rev(a, x) * Pow2(b) + Rev(b, Shr(x, a))
    decreases a
  {
    if a > 0 {
      RevSplit(a - 1, b, x / 2);
      Pow2Add(a - 1, b);
      assert Rev(a + b, x) == (x % 2) * Pow2(a - 1 + b) + Rev(a - 1 + b, x / 2);
      MulAssoc(x % 2, Pow2(a - 1), Pow2(b));
      Distribute((x % 2) * Pow2(a - 1), Rev(a - 1, x / 2), Pow2(b));
    }
  }

  lemma Distribute(a: int, b: int, c: int)
    ensures (a + b) * c == a * c + b * c
  {
  }

  lemma {:induction false} RevInjective(n: nat, x: nat, y: nat)
    requires Rev(n, x) == Rev(n, y)
    ensures Low(n, x) == Low(n, y)
    decreases n
  {
    if n > 0 {
      SplitUnique(Pow2(n - 1), x % 2, Rev(n - 1, x / 2), y % 2, Rev(n - 1, y / 2));
      RevInjective(n - 1, x / 2, y / 2);
    }
  }

  lemma {:induction false} RevZero(n: nat)
    ensures Rev(n, 0) == 0
    decreases n
  {
    if n > 0 {
      RevZero(n - 1);
    }
  }

  /** A code of `k` bits, seen among the codes of `k + m` bits, starts at its own value
      followed by `m` zero bits. */
  lemma RevPad(k: nat, m: nat, x: nat)
    requires x < Pow2(k)
    ensures Rev(k + m, x) == Rev(k, x) * Pow2(m)
  {
    RevSplit(k, m, x);
    LowSmall(k, x);
    RevZero(m);
  }

  /** Conversely, a reversed value that ends in `m` zero bits has no bit above bit `k`. */
  lemma RevAligned(k: nat, m: nat, x: nat, q: nat)
    requires x < Pow2(k + m) && Rev(k + m, x) == q * Pow2(m)
    ensures x < Pow2(k) && Rev(k, x) == q
  {
    RevSplit(k, m, x);
    var r := Rev(m, Shr(x, k));
    SplitUnique(Pow2(m), Rev(k, x), r, q, 0);
    RevZero(m);
    RevInjective(m, Shr(x, k), 0);
    LowSmall(m, 0);
    ShrMono(x, k, m);
    LowSmall(m, Shr(x, k));
    LowShr(k, x);
  }

  lemma SplitUnique(d: nat, a: int, r: nat, b: int, s: nat)
    requires r < d && s < d && a * d + r == b * d + s
    ensures a == b && r == s
  {
    if a < b {
      MulMono(a + 1, b, d);
      Distribute(a, 1, d);
    } else if b < a {
      MulMono(b + 1, a, d);
      Distribute(b, 1, d);
    }
  }

  /** A value lies under the `k`-bit code `q` exactly when its first `k` bits are `q`. */
  lemma RevUnder(k: nat, m: nat, x: nat, q: nat)
    ensures q * Pow2(m) <= Rev(k + m, x) < (q + 1) * Pow2(m) <==> Rev(k, x) == q
  {
    RevSplit(k, m, x);
    Distribute(q, 1, Pow2(m));
    var r := Rev(m, Shr(x, k));
    if q * Pow2(m) <= Rev(k + m, x) < (q + 1) * Pow2(m) {
      SplitUnique(Pow2(m), Rev(k, x), r, q, Rev(k + m, x) - q * Pow2(m));
    }
  }

  /** Is bit `n` of `x` set? */
  predicate Bit(x: nat, n: nat) {
    Shr(x, n) % 2 == 1
  }

  lemma RevTop(n: nat, x: nat)
    ensures Rev(n + 1, x) == 2 * Rev(n, x) + (if Bit(x, n) then 1 else 0)
  {
    RevSplit(n, 1, x);
    assert Pow2(1) == 2;
    assert Rev(1, Shr(x, n)) == (Shr(x, n) % 2) * Pow2(0) + Rev(0, Shr(x, n) / 2);
  }

  /** The top bit of an `(n + 1)`-bit number: clear, or set with the rest below it. */
  lemma BitTop(n: nat, x: nat)
    requires x < Pow2(n + 1)
    ensures Bit(x, n) <==> Pow2(n) <= x
    ensures Bit(x, n) ==> Rev(n, x - Pow2(n)) == Rev(n, x)
  {
    assert Pow2(1) == 2 && Pow2(n + 1) == 2 * Pow2(n);
    hide Pow2, Rev, Low, Shr;
    LowShr(n, x);
    ShrMono(x, n, 1);
    if Shr(x, n) == 1 {
      assert x == Low(n, x) + Pow2(n);
      LowSmall(n, x - Pow2(n));
      RevLow(n, n, x);
    } else {
      assert Shr(x, n) == 0;
      assert x == Low(n, x);
    }
  }
}
