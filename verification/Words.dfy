/** 64-bit unsigned words: the C operators of `unsigned long` on numbers below 2^64. */
module Words {
  const WORD: int := 0x1_0000_0000_0000_0000
  const ULONG_MAX: Ulong := WORD - 1
  const BITS_PER_LONG := 64

  type Ulong = x: int | 0 <= x < 0x1_0000_0000_0000_0000

  type Byte = x: int | 0 <= x < 256

  function Zeros(n: nat): (r: seq<Byte>)
    ensures |r| == n && forall i :: 0 <= i < n ==> r[i] == 0
  {
    if n == 0 then [] else Zeros(n - 1) + [0]
  }

  /** Sum and difference modulo 2^64. */
  function Add(a: Ulong, b: Ulong): Ulong { if a + b < WORD then a + b else a + b - WORD }

  function Minus(a: Ulong, b: Ulong): Ulong { if a >= b then a - b else a - b + WORD }

  lemma ModuloWord(a: Ulong, b: Ulong)
    ensures Add(a, b) == (a + b) % 0x1_0000_0000_0000_0000 && Minus(a, b) == (a - b) % 0x1_0000_0000_0000_0000
  {
  }

  function Pow2(k: nat): (p: nat)
    ensures p >= 1
  {
    if k == 0 then 1 else 2 * Pow2(k - 1)
  }

  function And(a: nat, b: nat): (c: nat)
    ensures c <= a && c <= b
  {
    if a == 0 || b == 0 then 0 else 2 * And(a / 2, b / 2) + (if a % 2 == 1 && b % 2 == 1 then 1 else 0)
  }

  function Or(a: nat, b: nat): nat {
    if a == 0 then b else if b == 0 then a
    else 2 * Or(a / 2, b / 2) + (if a % 2 == 1 || b % 2 == 1 then 1 else 0)
  }

  function Xor(a: nat, b: nat): nat {
    if a == 0 then b else if b == 0 then a
    else 2 * Xor(a / 2, b / 2) + (if a % 2 != b % 2 then 1 else 0)
  }

  lemma {:induction false} Pow2Monotone(k: nat, n: nat)
    requires k <= n
    ensures Pow2(k) <= Pow2(n)
    ensures k < n ==> 2 * Pow2(k) <= Pow2(n)
  {
    if k < n {
      Pow2Monotone(k, n - 1);
    }
  }

  lemma Pow2Step(k: nat)
    ensures Pow2(k + 1) == 2 * Pow2(k) && Pow2(0) == 1
  {
  }

  lemma Pow2Plus7(k: nat)
    ensures Pow2(k + 7) == 128 * Pow2(k)
  {
    assert Pow2(k + 2) == 4 * Pow2(k);
    assert Pow2(k + 4) == 4 * Pow2(k + 2);
    assert Pow2(k + 6) == 4 * Pow2(k + 4);
  }

  lemma Pow2Plus21(k: nat)
    ensures Pow2(k + 21) == 0x20_0000 * Pow2(k)
  {
    Pow2Plus7(k);
    Pow2Plus7(k + 7);
    Pow2Plus7(k + 14);
  }

  lemma Pow2Plus63(k: nat)
    ensures Pow2(k + 63) == 0x8000_0000_0000_0000 * Pow2(k)
  {
    Pow2Plus21(k);
    Pow2Plus21(k + 21);
    Pow2Plus21(k + 42);
  }

  lemma Pow2Of63()
    ensures Pow2(63) == 0x8000_0000_0000_0000
  {
    Pow2Plus63(0);
  }

  lemma Pow2Fits(k: nat)
    requires k < 64
    ensures 2 * Pow2(k) <= WORD
    ensures k < 63 ==> 2 * Pow2(k) < WORD
  {
    Pow2Of63();
    Pow2Monotone(k, 63);
  }

  /** The `k` lowest bits of `v` are clear. */
  ghost predicate Clear(v: nat, k: nat) {
    k == 0 || (v % 2 == 0 && Clear(v / 2, k - 1))
  }

  lemma {:induction false} ClearFewer(v: nat, k: nat)
    requires Clear(v, k + 1)
    ensures Clear(v, k) && Clear(v + Pow2(k), k)
  {
    if k == 0 {
    } else {
      ClearFewer(v / 2, k - 1);
      assert (v + Pow2(k)) / 2 == v / 2 + Pow2(k - 1);
    }
  }

  lemma {:induction false} ClearZero(k: nat)
    ensures Clear(0, k)
  {
    if k == 0 {
    } else {
      ClearZero(k - 1);
    }
  }

  /** The bit operators on a word whose bits up to and including bit `k` are clear. */
  lemma {:induction false} SingleBit(v: nat, k: nat)
    requires Clear(v, k + 1)
    ensures Or(v, Pow2(k)) == v + Pow2(k)
    ensures And(v, Pow2(k)) == 0
    ensures And(v + Pow2(k), Pow2(k)) != 0
    ensures Xor(v + Pow2(k), Pow2(k)) == v
  {
    if k == 0 {
    } else {
      SingleBit(v / 2, k - 1);
      assert (v + Pow2(k)) / 2 == v / 2 + Pow2(k - 1);
    }
  }

  lemma {:induction false} ClearMultiple(m: nat, k: nat)
    ensures Clear(m * Pow2(k), k)
  {
    if k == 0 {
    } else {
      assert m * Pow2(k) == 2 * (m * Pow2(k - 1));
      ClearMultiple(m, k - 1);
    }
  }

  /** Bits put where another word has none. */
  lemma {:induction false} OrBelow(v: nat, low: nat, k: nat)
    requires Clear(v, k) && low < Pow2(k)
    ensures Or(v, low) == v + low
  {
    if k == 0 {
    } else {
      OrBelow(v / 2, low / 2, k - 1);
    }
  }

  predicate Bit(v: nat, k: nat) {
    if k == 0 then v % 2 == 1 else Bit(v / 2, k - 1)
  }

  lemma {:induction false} CommonBitShows(a: nat, b: nat, k: nat)
    requires Bit(a, k) && Bit(b, k)
    ensures And(a, b) != 0
    decreases k
  {
    if a == 0 || b == 0 {
      NoBit(k);
    } else if k > 0 {
      CommonBitShows(a / 2, b / 2, k - 1);
    }
  }

  lemma {:induction false} CommonBitFound(a: nat, b: nat) returns (k: nat)
    requires And(a, b) != 0
    ensures Bit(a, k) && Bit(b, k)
  {
    if a % 2 == 1 && b % 2 == 1 {
      k := 0;
    } else {
      k := CommonBitFound(a / 2, b / 2);
      k := k + 1;
    }
  }

  /** Two words have a bit in common exactly if their conjunction is not zero. */
  lemma {:induction false} CommonBit(a: nat, b: nat)
    ensures And(a, b) != 0 <==> exists k: nat :: Bit(a, k) && Bit(b, k)
  {
    if And(a, b) != 0 {
      var k := CommonBitFound(a, b);
    }
    if exists k: nat :: Bit(a, k) && Bit(b, k) {
      var k: nat :| Bit(a, k) && Bit(b, k);
      CommonBitShows(a, b, k);
      assert exists j: nat :: Bit(a, j) && Bit(b, j);
    }
  }

  lemma {:induction false} NoBit(k: nat)
    ensures !Bit(0, k)
  {
    if k == 0 {
    } else {
      NoBit(k - 1);
    }
  }

  /** The only bit of a power of two. */
  lemma {:induction false} PowerBit(j: nat, k: nat)
    ensures Bit(Pow2(j), k) <==> j == k
  {
    if j == 0 {
      if k > 0 {
        NoBit(k - 1);
      }
    } else if k > 0 {
      PowerBit(j - 1, k - 1);
    }
  }

  lemma {:induction false} AndBit(a: nat, b: nat, k: nat)
    ensures Bit(And(a, b), k) <==> Bit(a, k) && Bit(b, k)
    decreases k
  {
    if a == 0 || b == 0 {
      NoBit(k);
    } else if k > 0 {
      AndBit(a / 2, b / 2, k - 1);
    }
  }

  lemma {:induction false} XorBit(a: nat, b: nat, k: nat)
    ensures Bit(Xor(a, b), k) <==> Bit(a, k) != Bit(b, k)
    decreases k
  {
    if a == 0 || b == 0 {
      NoBit(k);
    } else if k > 0 {
      XorBit(a / 2, b / 2, k - 1);
    }
  }

  lemma {:induction false} OrBit(a: nat, b: nat, k: nat)
    ensures Bit(Or(a, b), k) <==> Bit(a, k) || Bit(b, k)
    decreases k
  {
    if a == 0 || b == 0 {
      NoBit(k);
    } else if k > 0 {
      OrBit(a / 2, b / 2, k - 1);
    }
  }

  /** The low bits of a word are its remainder. */
  lemma {:induction false} AndLow(v: nat, k: nat)
    ensures And(v, Pow2(k) - 1) == v % Pow2(k)
  {
    if k == 0 {
    } else {
      AndLow(v / 2, k - 1);
      RemainderHalf(v, Pow2(k - 1));
    }
  }

  /** A bit, by division. */
  lemma {:induction false} BitByDivision(v: nat, k: nat)
    ensures Bit(v, k) <==> v / Pow2(k) % 2 == 1
  {
    if k == 0 {
    } else {
      BitByDivision(v / 2, k - 1);
      RemainderHalf(v, Pow2(k - 1));
    }
  }

  lemma RemainderHalf(v: nat, d: nat)
    requires d > 0
    ensures v % (2 * d) == v / 2 % d * 2 + v % 2 && v / (2 * d) == v / 2 / d
  {
    var q, r := v / 2 / d, v / 2 % d;
    assert v / 2 == q * d + r;
    assert v == q * (2 * d) + (r * 2 + v % 2);
    Quotient(v, 2 * d, q, r * 2 + v % 2);
  }

  lemma Quotient(v: nat, d: nat, q: nat, r: nat)
    requires d > 0 && v == q * d + r && r < d
    ensures v / d == q && v % d == r
  {
    var p := v / d;
    assert v == p * d + v % d;
    if p < q {
      Ordered(p + 1, q, d);
    } else if q < p {
      Ordered(q + 1, p, d);
    }
  }

  lemma Ordered(a: nat, b: nat, d: nat)
    requires a <= b
    ensures a * d <= b * d
  {
  }
}
