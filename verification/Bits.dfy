/** Python's `&`, `|`, `<<` and `>>` on unbounded non-negative integers, bit by bit,
    and their arithmetic meaning where the codec uses them. */
module Bits {
  function BitAnd(a: nat, b: nat): nat {
    if a == 0 || b == 0 then 0
    else 2 * BitAnd(a / 2, b / 2) + (if a % 2 == 1 && b % 2 == 1 then 1 else 0)
  }

  function BitOr(a: nat, b: nat): nat
    decreases a + b
  {
    if a == 0 then b
    else if b == 0 then a
    else 2 * BitOr(a / 2, b / 2) + (if a % 2 == 1 || b % 2 == 1 then 1 else 0)
  }

  function Shl(a: nat, k: nat): nat
    decreases k
  {
    if k == 0 then a else Shl(2 * a, k - 1)
  }

  function Shr(a: nat, k: nat): nat
    decreases k
  {
    if k == 0 then a else Shr(a / 2, k - 1)
  }

  function Pow2(k: nat): (p: nat)
    ensures p > 0
  {
    if k == 0 then 1 else 2 * Pow2(k - 1)
  }

  lemma {:induction false} ShlIsTimes(a: nat, k: nat)
    ensures Shl(a, k) == a * Pow2(k)
    decreases k
  {
    if k > 0 {
      ShlIsTimes(2 * a, k - 1);
    }
  }

  lemma {:induction false} Pow2Add(j: nat, k: nat)
    ensures Pow2(j + k) == Pow2(j) * Pow2(k)
    decreases k
  {
    if k > 0 {
      Pow2Add(j, k - 1);
      var p, q := Pow2(j), Pow2(k - 1);
      assert Pow2(j + k) == 2 * (p * q) == p * (2 * q);
    }
  }

  lemma Pow2Seven()
    ensures Pow2(7) == 128
  {
    assert Pow2(3) == 8;
    assert Pow2(6) == 64;
  }

  /** `n >> 7` is the quotient by 128. */
  lemma ShrSeven(n: nat)
    ensures Shr(n, 7) == n / 128
  {
    assert Shr(n, 7) == Shr(n / 2, 6) == Shr(n / 2 / 2, 5) == Shr(n / 2 / 2 / 2, 4);
    assert Shr(n / 2 / 2 / 2, 4) == Shr(n / 8, 4) == Shr(n / 16, 3) == Shr(n / 32, 2);
    assert Shr(n / 32, 2) == Shr(n / 64, 1) == Shr(n / 128, 0);
  }

  lemma {:induction false} ShrAdd(n: nat, j: nat, k: nat)
    ensures Shr(n, j + k) == Shr(Shr(n, j), k)
    decreases j
  {
    if j > 0 {
      ShrAdd(n / 2, j - 1, k);
    }
  }

  /** The k lowest bits of n, as a number. */
  function LowBits(n: nat, k: nat): nat
    decreases k
  {
    if k == 0 then 0 else 2 * LowBits(n / 2, k - 1) + n % 2
  }

  /** Masking with k one-bits keeps the k lowest bits. */
  lemma {:induction false} AndLowMask(n: nat, k: nat)
    ensures BitAnd(n, Pow2(k) - 1) == LowBits(n, k)
    decreases k
  {
    if k > 0 {
      var p := Pow2(k - 1);
      assert (2 * p - 1) / 2 == p - 1;
      AndLowMask(n / 2, k - 1);
      if n == 0 {
        LowBitsOfZero(k);
      }
    }
  }

  lemma {:induction false} LowBitsOfZero(k: nat)
    ensures LowBits(0, k) == 0
  {
    if k > 0 {
      LowBitsOfZero(k - 1);
    }
  }

  /** The k lowest bits are the remainder by 2^k. */
  lemma {:induction false} LowBitsMod(n: nat, k: nat)
    ensures LowBits(n, k) == n % Pow2(k)
    decreases k
  {
    if k > 0 {
      LowBitsMod(n / 2, k - 1);
      ModDouble(n, Pow2(k - 1));
    }
  }

  lemma ModDouble(n: nat, p: nat)
    requires p > 0
    ensures 2 * (n / 2 % p) + n % 2 == n % (2 * p)
  {
    var q, r := n / 2 / p, n / 2 % p;
    assert n == 2 * (q * p + r) + n % 2;
    assert n == q * (2 * p) + (2 * r + n % 2);
    RemainderOf(n, 2 * p, q, 2 * r + n % 2);
  }

  lemma RemainderOf(n: nat, d: nat, q: nat, r: nat)
    requires n == q * d + r && r < d
    ensures n % d == r
  {
    var q', r' := n / d, n % d;
    assert n == q' * d + r';
    assert (q - q') * d == q * d - q' * d && (q' - q) * d == q' * d - q * d;
    if q' < q {
      AtLeastOnce(q - q', d);
    } else if q < q' {
      AtLeastOnce(q' - q, d);
    }
  }

  lemma AtLeastOnce(a: nat, d: nat)
    requires a > 0
    ensures a * d >= d
  {
    assert a * d == (a - 1) * d + d;
  }

  /** `n & 0x7F` is the remainder by 128. */
  lemma AndSevenBits(n: nat)
    ensures BitAnd(n, 0x7F) == n % 128
  {
    Pow2Seven();
    AndLowMask(n, 7);
    LowBitsMod(n, 7);
  }

  /** OR of a value below 2^k with a multiple of 2^k is their sum. */
  lemma {:induction false} OrDisjoint(a: nat, b: nat, k: nat)
    requires a < Pow2(k)
    ensures BitOr(a, b * Pow2(k)) == a + b * Pow2(k)
    decreases k
  {
    if k > 0 && a > 0 && b > 0 {
      var p := Pow2(k - 1);
      assert b * Pow2(k) == 2 * (b * p);
      OrDisjoint(a / 2, b, k - 1);
    }
  }

  /** The continuation bit: `b | 0x80` sets it, `b & 0x80` tests it. */
  lemma ContinuationBit(b: nat)
    requires b < 256
    ensures b < 128 ==> BitOr(b, 0x80) == b + 128
    ensures BitAnd(b, 0x80) != 0 <==> b >= 128
  {
    Pow2Seven();
    if b < 128 {
      OrDisjoint(b, 1, 7);
    }
    TopBit(b, 7);
  }

  lemma {:induction false} TopBit(b: nat, k: nat)
    requires b < 2 * Pow2(k)
    ensures BitAnd(b, Pow2(k)) != 0 <==> b >= Pow2(k)
    decreases k
  {
    if k > 0 && b > 0 {
      var p := Pow2(k - 1);
      assert Pow2(k) / 2 == p && Pow2(k) % 2 == 0;
      TopBit(b / 2, k - 1);
    }
  }
}
