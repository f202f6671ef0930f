/**
 * Rust's `u16` and the bit operations the piece masks use (`1 << p`, `&`, `|`), defined on
 * naturals bit by bit from the least significant, with the facts the rest of the model needs.
 */
module Words {

  /** Rust's `u16`. */
  newtype u16 = n: int | 0 <= n < 0x1_0000

  function Pow2(p: nat): (r: nat)
    ensures r >= 1
  {
    if p == 0 then 1 else 2 * Pow2(p - 1)
  }

  /** Bit p of n. */
  predicate TestBit(n: nat, p: nat)
  {
    if p == 0 then n % 2 == 1 else TestBit(n / 2, p - 1)
  }

  /** Bitwise or. */
  function Or(a: nat, b: nat): nat
    decreases a + b
  {
    if a == 0 && b == 0 then 0
    else 2 * Or(a / 2, b / 2) + (if a % 2 == 1 || b % 2 == 1 then 1 else 0)
  }

  /** Bitwise and. */
  function And(a: nat, b: nat): nat
    decreases a + b
  {
    if a == 0 || b == 0 then 0
    else 2 * And(a / 2, b / 2) + (if a % 2 == 1 && b % 2 == 1 then 1 else 0)
  }

  lemma {:induction false} ZeroBit(q: nat)
    ensures !TestBit(0, q)
  {
    if q > 0 {
      ZeroBit(q - 1);
    }
  }

  /** Bit q of `a | b` is set iff it is set in a or in b. */
  lemma {:induction false} OrBit(a: nat, b: nat, q: nat)
    ensures TestBit(Or(a, b), q) <==> TestBit(a, q) || TestBit(b, q)
    decreases q
  {
    if q > 0 {
      if a == 0 && b == 0 {
        ZeroBit(q);
      } else {
        assert Or(a, b) / 2 == Or(a / 2, b / 2);
        OrBit(a / 2, b / 2, q - 1);
      }
    }
  }

  /** Bit q of `a & b` is set iff it is set in a and in b. */
  lemma {:induction false} AndBit(a: nat, b: nat, q: nat)
    ensures TestBit(And(a, b), q) <==> TestBit(a, q) && TestBit(b, q)
    decreases q
  {
    if q > 0 {
      if a == 0 || b == 0 {
        ZeroBit(q);
      } else {
        assert And(a, b) / 2 == And(a / 2, b / 2);
        AndBit(a / 2, b / 2, q - 1);
      }
    }
  }

  /** `1 << p` has exactly bit p set. */
  lemma {:induction false} Pow2Bit(p: nat, q: nat)
    ensures TestBit(Pow2(p), q) <==> p == q
    decreases p
  {
    if p == 0 {
      if q > 0 {
        ZeroBit(q - 1);
      }
    } else if q > 0 {
      Pow2Bit(p - 1, q - 1);
    }
  }

  lemma {:induction false} Pow2Monotone(p: nat, q: nat)
    requires p <= q
    ensures Pow2(p) <= Pow2(q)
    decreases q
  {
    if p < q {
      Pow2Monotone(p, q - 1);
    }
  }

  /** Below 2^k a number is determined by its low k bits. */
  lemma {:induction false} BitsDetermine(a: nat, b: nat, k: nat)
    requires a < Pow2(k) && b < Pow2(k)
    requires forall q: nat | q < k :: TestBit(a, q) == TestBit(b, q)
    ensures a == b
    decreases k
  {
    if k > 0 {
      forall q: nat | q < k - 1
        ensures TestBit(a / 2, q) == TestBit(b / 2, q)
      {
        assert TestBit(a, q + 1) == TestBit(b, q + 1);
      }
      BitsDetermine(a / 2, b / 2, k - 1);
      assert TestBit(a, 0) == TestBit(b, 0);
    }
  }

  /** A number below 2^k has no bit set at k or above. */
  lemma {:induction false} HighBits(a: nat, k: nat, q: nat)
    requires a < Pow2(k) && k <= q
    ensures !TestBit(a, q)
    decreases q
  {
    if k == 0 {
      ZeroBit(q);
    } else {
      HighBits(a / 2, k - 1, q - 1);
    }
  }

  lemma {:induction false} OrBound(a: nat, b: nat, k: nat)
    requires a < Pow2(k) && b < Pow2(k)
    ensures Or(a, b) < Pow2(k)
    decreases k
  {
    if k > 0 && !(a == 0 && b == 0) {
      OrBound(a / 2, b / 2, k - 1);
    }
  }

  lemma {:induction false} AndBound(a: nat, b: nat, k: nat)
    requires b < Pow2(k)
    ensures And(a, b) < Pow2(k)
    decreases k
  {
    if k > 0 && !(a == 0 || b == 0) {
      AndBound(a / 2, b / 2, k - 1);
    }
  }

  lemma Pow2Sixteen()
    ensures Pow2(10) == 1024 && Pow2(15) == 0x8000 && Pow2(16) == 0x1_0000
  {
    assert Pow2(2) == 4;
    assert Pow2(4) == 16;
    assert Pow2(6) == 64;
    assert Pow2(8) == 256;
    assert Pow2(10) == 1024;
    assert Pow2(12) == 4096;
    assert Pow2(14) == 16384;
  }

  /** The positions below k of the set bits of n. */
  function BitsBelow(n: nat, k: nat): (r: set<nat>)
    ensures forall q: nat :: q in r <==> q < k && TestBit(n, q)
  {
    if k == 0 then {} else BitsBelow(n, k - 1) + (if TestBit(n, k - 1) then {k - 1} else {})
  }

  /** Bit q of a u16. */
  predicate Bit(v: u16, q: nat)
  {
    TestBit(v as int, q)
  }

  /** `1u16 << p`; Rust rejects a shift amount of 16 or more. */
  function Shl1(p: u16): (m: u16)
    requires p < 16
    ensures m as int == Pow2(p as int)
    ensures forall q: nat :: Bit(m, q) <==> q == p as int
  {
    Pow2Monotone(p as int, 15);
    Pow2Sixteen();
    var m := Pow2(p as int) as u16;
    forall q: nat
      ensures Bit(m, q) <==> q == p as int
    {
      Pow2Bit(p as int, q);
    }
    m
  }

  /** `a | b` on u16. */
  function BitOr(a: u16, b: u16): (r: u16)
    ensures forall q: nat :: Bit(r, q) <==> Bit(a, q) || Bit(b, q)
  {
    Pow2Sixteen();
    OrBound(a as int, b as int, 16);
    var r := Or(a as int, b as int) as u16;
    forall q: nat
      ensures Bit(r, q) <==> Bit(a, q) || Bit(b, q)
    {
      OrBit(a as int, b as int, q);
    }
    r
  }

  /** `a & b` on u16. */
  function BitAnd(a: u16, b: u16): (r: u16)
    ensures forall q: nat :: Bit(r, q) <==> Bit(a, q) && Bit(b, q)
  {
    Pow2Sixteen();
    AndBound(a as int, b as int, 16);
    var r := And(a as int, b as int) as u16;
    forall q: nat
      ensures Bit(r, q) <==> Bit(a, q) && Bit(b, q)
    {
      AndBit(a as int, b as int, q);
    }
    r
  }

  /**
   * The set bits of a u16 below 1024 are those BitsBelow finds in its low ten bits; for a
   * literal v the requires is a computation.
   */
  lemma MaskBits(v: u16, S: set<nat>)
    requires v < 1024 && BitsBelow(v as int, 10) == S
    ensures forall q: nat | q < 16 :: Bit(v, q) <==> q in S
  {
    Pow2Sixteen();
    forall q: nat | q < 16
      ensures Bit(v, q) <==> q in S
    {
      if q >= 10 {
        HighBits(v as int, 10, q);
      }
    }
  }

  /** Two u16 values with the same 16 bits are equal. */
  lemma SameBits(a: u16, b: u16)
    requires forall q: nat | q < 16 :: Bit(a, q) == Bit(b, q)
    ensures a == b
  {
    Pow2Sixteen();
    var a', b' := a as int, b as int;
    forall q: nat | q < 16
      ensures TestBit(a', q) == TestBit(b', q)
    {
      assert Bit(a, q) == Bit(b, q);
    }
    BitsDetermine(a', b', 16);
  }

  /** The source's bit test `v & m == m` with `m = 1 << p` holds iff bit p of v is set. */
  lemma MaskTest(v: u16, p: u16)
    requires p < 16
    ensures BitAnd(v, Shl1(p)) == Shl1(p) <==> Bit(v, p as int)
  {
    var m := Shl1(p);
    if Bit(v, p as int) {
      forall q: nat | q < 16
        ensures Bit(BitAnd(v, m), q) == Bit(m, q)
      {
      }
      SameBits(BitAnd(v, m), m);
    } else {
      assert !Bit(BitAnd(v, m), p as int);
    }
  }
}
