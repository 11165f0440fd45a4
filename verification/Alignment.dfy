/** std::align, and the arithmetic of multiples behind it. */
module Alignment {
  import opened Bytes

  /** The first multiple of align that is not below a. */
  function AlignUp(a: nat, align: nat): nat
    requires align > 0
  {
    (a + align - 1) / align * align
  }

  lemma {:induction false} TimesMonotone(a: int, b: int, m: nat)
    ensures a <= b ==> a * m <= b * m
    ensures m > 0 && a * m <= b * m ==> a <= b
  {
    if a <= b {
      NonNegative(b - a, m);
      assert (b - a) * m == b * m - a * m;
    } else {
      NonNegative(a - b - 1, m);
      assert (a - b - 1) * m == a * m - b * m - m;
    }
  }

  lemma {:induction false} NonNegative(a: nat, b: nat)
    ensures a * b >= 0
  {}

  lemma {:induction false} MultiplesDivide(q: nat, m: nat)
    requires m > 0
    ensures (q * m) % m == 0
  {
    var x := q * m;
    var d := q - x / m;
    assert x == x / m * m + x % m;
    assert x % m == d * m;
    TimesMonotone(1, d, m);
    TimesMonotone(d, 0, m);
  }

  lemma {:induction false} AlignUpIsFirst(a: nat, align: nat, other: nat)
    requires align > 0
    ensures AlignUp(a, align) % align == 0
    ensures a <= AlignUp(a, align) < a + align
    ensures other % align == 0 && a <= other ==> AlignUp(a, align) <= other
  {
    var q := (a + align - 1) / align;
    MultiplesDivide(q, align);
    assert a + align - 1 == q * align + (a + align - 1) % align;
    if other % align == 0 && a <= other {
      var k := other / align;
      assert other == k * align;
      TimesMonotone(k + 1, q, align);
      TimesMonotone(q, k, align);
      assert (k + 1) * align == other + align;
    }
  }

  datatype Pointer = Null | At(address: nat)

  ghost predicate Aligned(p: nat, align: nat) {
    align > 0 && p % align == 0
  }

  /** Two aligned addresses less than align apart are one. */
  lemma {:induction false} AlignedUnique(p: nat, q: nat, align: nat)
    requires Aligned(p, align) && Aligned(q, align) && p < q + align && q < p + align
    ensures p == q
  {
    var i, j := p / align, q / align;
    assert p == i * align && q == j * align;
    TimesMonotone(i + 1, j, align);
    TimesMonotone(j + 1, i, align);
    assert (i + 1) * align == p + align && (j + 1) * align == q + align;
  }

  /** The first aligned address from a on. */
  ghost function FirstAligned(a: nat, align: nat): (p: nat)
    requires align > 0
    ensures Aligned(p, align) && a <= p < a + align
  {
    AlignUpIsFirst(a, align, 0);
    assert Aligned(AlignUp(a, align), align) && a <= AlignUp(a, align) < a + align;
    var p: nat :| Aligned(p, align) && a <= p < a + align;
    p
  }

  /** std::align(align, size, ptr, space): the first aligned address from which size bytes fit, or null. */
  method StdAlign(align: SizeT, size: SizeT, ptr: nat, space: SizeT) returns (r: Pointer)
    requires align > 0
    ensures r == if size + (FirstAligned(ptr, align) - ptr) <= space then At(FirstAligned(ptr, align)) else Null
    ensures forall a: nat :: Aligned(a, align) && ptr <= a ==> FirstAligned(ptr, align) <= a
  {
    var p := AlignUp(ptr, align);
    AlignUpIsFirst(ptr, align, 0);
    AlignedUnique(p, FirstAligned(ptr, align), align);
    forall a: nat | Aligned(a, align) && ptr <= a
      ensures p <= a
    {
      AlignUpIsFirst(ptr, align, a);
    }
    r := if size + (p - ptr) <= space then At(p) else Null;
  }
}
