/** Machine words and byte strings, shared by every other module. */
module Bytes {

  const U32_RANGE := 0x1_0000_0000

  type byte = b: int | 0 <= b < 0x100
  type u16 = x: int | 0 <= x < 0x1_0000
  type u32 = x: int | 0 <= x < 0x1_0000_0000

  datatype Option<+T> = None | Some(value: T)

  function Min(a: nat, b: nat): nat {
    if a < b then a else b
  }

  function Max(a: nat, b: nat): nat {
    if a < b then b else a
  }

  /** The value of a cast to u32, and of u32 arithmetic in a release build: both wrap. */
  function Wrap32(x: int): u32 {
    x % 0x1_0000_0000
  }

  lemma WrapOfU32(x: u32)
    ensures Wrap32(x) == x
  {
  }

  lemma ProductsAreApart(i: nat, j: nat, d: nat)
    requires i < j
    ensures i * d + d <= j * d
  {
    assert (j - i - 1) * d >= 0;
    assert j * d == i * d + d + (j - i - 1) * d;
  }

  lemma ModuloIsUnique(a: nat, q: nat, r: nat, d: nat)
    requires r < d && a == q * d + r
    ensures a % d == r && a / d == q
  {
    var q' := a / d;
    assert a == q' * d + a % d;
    if q' < q {
      ProductsAreApart(q', q, d);
    } else if q < q' {
      ProductsAreApart(q, q', d);
    }
  }

  /** Multiples of d, by repeated subtraction. */
  predicate Aligned(o: nat, d: nat)
    requires 0 < d
  {
    o == 0 || (d <= o && Aligned(o - d, d))
  }

  lemma {:induction false} AlignedIsMultiple(o: nat, d: nat)
    requires 0 < d
    ensures Aligned(o, d) <==> o % d == 0
  {
    if o >= d {
      AlignedIsMultiple(o - d, d);
      ModuloIsUnique(o, (o - d) / d + 1, (o - d) % d, d);
    } else {
      ModuloIsUnique(o, 0, o, d);
    }
  }

  lemma {:induction false} AlignedAreApart(a: nat, b: nat, d: nat)
    requires 0 < d && Aligned(a, d) && Aligned(b, d) && a < b
    ensures a + d <= b
  {
    if 0 < a {
      AlignedAreApart(a - d, b - d, d);
    }
  }

  /** The last multiple of d not above x. */
  function AlignDown(x: nat, d: nat): (o: nat)
    requires 0 < d
    ensures Aligned(o, d) && o <= x < o + d
  {
    if x < d then 0 else AlignDown(x - d, d) + d
  }

  /** n * d, by repeated addition: keeps piece offsets out of nonlinear arithmetic. */
  function Times(n: nat, d: nat): nat {
    if n == 0 then 0 else Times(n - 1, d) + d
  }

  lemma {:induction false} TimesIsProduct(n: nat, d: nat)
    ensures Times(n, d) == n * d
  {
    if n > 0 {
      TimesIsProduct(n - 1, d);
      assert n * d == (n - 1) * d + d;
    }
  }

  lemma {:induction false} TimesApart(i: nat, j: nat, d: nat)
    requires i < j
    ensures Times(i, d) + d <= Times(j, d)
  {
    if i + 1 < j {
      TimesApart(i, j - 1, d);
    }
  }
}
