/** Words as sets of bits. */
module Bits {
  import opened Words

  /** Bit `p` of a word. */
  predicate Has(w: nat, p: nat) {
    if p == 0 then w % 2 == 1 else Has(w / 2, p - 1)
  }

  /** Bitwise or. */
  function Or(a: nat, b: nat): nat {
    if a == 0 && b == 0 then 0
    else 2 * Or(a / 2, b / 2) + if a % 2 == 1 || b % 2 == 1 then 1 else 0
  }

  /** Bitwise and with the complement of `b`. */
  function AndNot(a: nat, b: nat): nat {
    if a == 0 then 0
    else 2 * AndNot(a / 2, b / 2) + if a % 2 == 1 && b % 2 == 0 then 1 else 0
  }

  /** Bitwise and. */
  function And(a: nat, b: nat): nat {
    if a == 0 then 0
    else 2 * And(a / 2, b / 2) + if a % 2 == 1 && b % 2 == 1 then 1 else 0
  }

  /** Index of the most significant set bit. */
  function Ilog2(w: nat): nat {
    if w < 2 then 0 else 1 + Ilog2(w / 2)
  }

  lemma {:induction false} HasOr(a: nat, b: nat, q: nat)
    ensures Has(Or(a, b), q) <==> Has(a, q) || Has(b, q)
    decreases q
  {
    if q != 0 {
      HasOr(a / 2, b / 2, q - 1);
      assert Or(a, b) / 2 == Or(a / 2, b / 2);
    }
  }

  lemma {:induction false} HasAndNot(a: nat, b: nat, q: nat)
    ensures Has(AndNot(a, b), q) <==> Has(a, q) && !Has(b, q)
    decreases q
  {
    if q != 0 {
      HasAndNot(a / 2, b / 2, q - 1);
      assert AndNot(a, b) / 2 == AndNot(a / 2, b / 2);
    }
  }

  lemma {:induction false} HasAnd(a: nat, b: nat, q: nat)
    ensures Has(And(a, b), q) <==> Has(a, q) && Has(b, q)
    decreases q
  {
    if q != 0 {
      HasAnd(a / 2, b / 2, q - 1);
      assert And(a, b) / 2 == And(a / 2, b / 2);
    }
  }

  /** Two words have a bit in common exactly when their conjunction is not zero. */
  lemma AndIffShared(a: nat, b: nat)
    ensures And(a, b) != 0 <==> exists q: nat :: Has(a, q) && Has(b, q)
  {
    hide Has, And, Ilog2;
    if And(a, b) != 0 {
      HighestBit(And(a, b), 0);
      HasAnd(a, b, Ilog2(And(a, b)));
    }
    forall q: nat | Has(a, q) && Has(b, q)
      ensures And(a, b) != 0
    {
      HasAnd(a, b, q);
      NoBits(0, q);
    }
  }

  /** Masking a word with one bit leaves nothing exactly when the bit is clear. */
  lemma MaskTests(a: nat, p: nat)
    ensures And(a, Pow2(p)) != 0 <==> Has(a, p)
  {
    hide Has, And, Pow2;
    AndIffShared(a, Pow2(p));
    forall q: nat
      ensures Has(Pow2(p), q) <==> q == p
    {
      HasPow2(p, q);
    }
  }

  /** A bit is the parity of the word shifted down to it. */
  lemma {:induction false} BitIsParity(w: nat, p: nat)
    ensures Has(w, p) <==> w / Pow2(p) % 2 == 1
    decreases p
  {
    if p != 0 {
      BitIsParity(w / 2, p - 1);
      HalvesFirst(w, Pow2(p - 1));
    }
  }

  function ShiftRight(w: nat, m: nat): nat {
    if m == 0 then w else ShiftRight(w / 2, m - 1)
  }

  lemma {:induction false} HasShifted(w: nat, m: nat, q: nat)
    ensures Has(w, m + q) <==> Has(ShiftRight(w, m), q)
    decreases m
  {
    if m != 0 {
      HasShifted(w / 2, m - 1, q);
    }
  }

  lemma HalvesFirst(w: nat, m: positive)
    ensures w / 2 / m == w / (2 * m)
  {
    var q, r := w / 2 / m, w / 2 % m;
    assert w / 2 == q * m + r;
    assert q * (2 * m) == 2 * (q * m);
    DivModUnique(w, 2 * m, q, 2 * r + w % 2);
  }

  lemma {:induction false} HasPow2(p: nat, q: nat)
    ensures Has(Pow2(p), q) <==> q == p
    decreases p
  {
    if p != 0 && q != 0 {
      HasPow2(p - 1, q - 1);
    } else if q != 0 {
      NoBits(0, q - 1);
    }
  }

  /** A word has no bits beyond its width. */
  lemma {:induction false} NoBits(w: nat, q: nat)
    requires w < Pow2(q)
    ensures !Has(w, q)
    decreases q
  {
    if q != 0 {
      NoBits(w / 2, q - 1);
    }
  }

  /** Neither operation sets a bit beyond the width of its operands. */
  lemma {:induction false} StaysNarrow(a: nat, b: nat, n: nat)
    requires a < Pow2(n) && b < Pow2(n)
    ensures Or(a, b) < Pow2(n) && AndNot(a, b) < Pow2(n)
    decreases n
  {
    if n != 0 {
      StaysNarrow(a / 2, b / 2, n - 1);
    }
  }

  /** The index found is a set bit and the highest one. */
  lemma {:induction false} HighestBit(w: nat, q: nat)
    requires w != 0
    ensures Has(w, Ilog2(w)) && (Has(w, q) ==> q <= Ilog2(w))
    decreases w
  {
    if w == 1 {
      if q != 0 {
        NoBits(0, q - 1);
      }
    } else {
      HighestBit(w / 2, if q == 0 then 0 else q - 1);
    }
  }

  lemma {:induction false} HighestFits(w: nat, n: nat)
    requires 0 < w < Pow2(n)
    ensures Ilog2(w) < n
  {
    if 2 <= w {
      HighestFits(w / 2, n - 1);
    }
  }
}
