/** Fixed-width unsigned words and the saturating operations the sources use on them. */
module Words {

  const U64_MAX: nat := 0xFFFF_FFFF_FFFF_FFFF
  const U32_MAX: nat := 0xFFFF_FFFF

  type uint64 = n: nat | n <= U64_MAX
  type uint32 = n: nat | n <= U32_MAX
  type uint16 = n: nat | n <= 0xFFFF
  type uint8 = n: nat | n <= 0xFF
  type positive = n: nat | 0 < n witness 1

  datatype Option<+T> = None | Some(value: T)

  /** The word that saturating arithmetic leaves in place of the integer `n`. */
  function Cap(n: nat): uint64 {
    if n <= U64_MAX then n else U64_MAX
  }

  function Cap32(n: nat): uint32 {
    if n <= U32_MAX then n else U32_MAX
  }

  function SatAdd(a: nat, b: nat): uint64 {
    Cap(a + b)
  }

  function SatMul(a: nat, b: nat): uint64 {
    Cap(a * b)
  }

  function SatSub(a: nat, b: nat): nat {
    if a <= b then 0 else a - b
  }

  /** Quotient rounded up, computed from quotient and remainder as `u64::div_ceil` does. */
  function DivCeil(a: nat, b: positive): nat {
    if a % b == 0 then a / b else a / b + 1
  }

  /** Quotient and remainder are determined by what they mean. */
  lemma DivModUnique(x: nat, b: positive, q: nat, r: nat)
    requires x == q * b + r && r < b
    ensures x / b == q && x % b == r
  {
    var q' := x / b;
    assert x == q' * b + x % b;
    assert (q + 1) * b == q * b + b && (q' + 1) * b == q' * b + b;
    if q < q' {
      MulMono(q + 1, q', b);
    } else if q' < q {
      MulMono(q' + 1, q, b);
    }
  }

  /** `DivCeil` is the unique `q` with `(q - 1) * b < a <= q * b`. */
  lemma DivCeilBounds(a: nat, b: positive)
    ensures a <= DivCeil(a, b) * b < a + b
  {
    var q := a / b;
    assert a == q * b + a % b;
    assert (q + 1) * b == q * b + b;
  }

  lemma DivCeilLeast(a: nat, b: positive, q: nat)
    requires a <= q * b
    ensures DivCeil(a, b) <= q
  {
    DivCeilBounds(a, b);
    var d := DivCeil(a, b);
    assert (d - 1) * b == d * b - b;
    if q < d {
      MulMono(q, d - 1, b);
      assert false;
    }
  }

  /** How to recognise a rounded-up quotient. */
  lemma DivCeilUnique(a: nat, b: positive, q: nat)
    requires a <= q * b < a + b
    ensures DivCeil(a, b) == q
  {
    DivCeilLeast(a, b, q);
    DivCeilBounds(a, b);
    var d := DivCeil(a, b);
    assert (q - 1) * b == q * b - b;
    if d < q {
      MulMono(d, q - 1, b);
      assert false;
    }
  }

  /** More demand or a shorter period never lowers the number of activations. */
  lemma DivCeilMono(a: nat, a': nat, b: positive, b': positive)
    requires a <= a' && b' <= b
    ensures DivCeil(a, b) <= DivCeil(a', b')
  {
    DivCeilBounds(a', b');
    MulMono(b', b, DivCeil(a', b'));
    DivCeilLeast(a, b, DivCeil(a', b'));
  }

  lemma DivCeilScale(x: nat, b: positive, k: positive)
    ensures DivCeil(x * k, b * k) == DivCeil(x, b)
  {
    var q := DivCeil(x, b);
    DivCeilBounds(x, b);
    ScaleBounds(x, q * b, x + b, k);
    assert (q * b) * k == q * (b * k) && (x + b) * k == x * k + b * k;
    DivCeilUnique(x * k, b * k, q);
  }

  lemma ScaleBounds(x: nat, y: nat, z: nat, k: positive)
    requires x <= y < z
    ensures x * k <= y * k < z * k
  {
    MulMono(x, y, k);
    MulMono(y + 1, z, k);
    assert (y + 1) * k == y * k + k;
  }

  lemma MulMono(a: nat, b: nat, c: nat)
    requires a <= b
    ensures a * c <= b * c
  {}

  lemma ProductMono(a: nat, a': nat, b: nat, b': nat)
    requires a <= a' && b <= b'
    ensures a * b <= a' * b'
  {
    MulMono(a, a', b);
    MulMono(b, b', a');
  }

  lemma CancelFactor(a: nat, b: nat, c: positive)
    requires a * c <= b * c
    ensures a <= b
  {
    if b < a {
      MulMono(b + 1, a, c);
    }
  }

  lemma StrictlyLess(a: nat, b: nat, c: positive)
    requires a * c < b * c
    ensures a < b
  {
    if b <= a {
      MulMono(b, a, c);
    }
  }

  lemma CapAbsorbs(a: nat, b: nat)
    ensures Cap(Cap(a) + Cap(b)) == Cap(a + b)
  {}

  function Pow2(e: nat): positive {
    if e == 0 then 1 else 2 * Pow2(e - 1)
  }

  lemma {:induction false} Pow2Mono(e: nat, e': nat)
    requires e <= e'
    ensures Pow2(e) <= Pow2(e')
    decreases e'
  {
    if e < e' {
      Pow2Mono(e, e' - 1);
    }
  }

  lemma {:induction false} Pow2Sum(a: nat, b: nat)
    ensures Pow2(a + b) == Pow2(a) * Pow2(b)
  {
    if a != 0 {
      Pow2Sum(a - 1, b);
    }
  }
}
