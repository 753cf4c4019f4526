/** Powers of two and multiples, for address blocks. */
module Arithmetic {
  function Pow2(n: nat): (p: nat)
    ensures p >= 1
  {
    if n == 0 then 1 else 2 * Pow2(n - 1)
  }

  ghost predicate IsPowerOfTwo(n: nat) {
    n == 1 || (n >= 2 && n % 2 == 0 && IsPowerOfTwo(n / 2))
  }

  lemma {:induction false} Pow2IsPowerOfTwo(n: nat)
    ensures IsPowerOfTwo(Pow2(n))
  {
    if n == 0 {
    } else {
      Pow2IsPowerOfTwo(n - 1);
      assert Pow2(n) / 2 == Pow2(n - 1);
    }
  }

  lemma {:induction false} Pow2Grows(a: nat, b: nat)
    requires a < b
    ensures Pow2(a) < Pow2(b)
    decreases b
  {
    if a == b - 1 {
    } else {
      Pow2Grows(a, b - 1);
    }
  }

  predicate Between(a: int, x: int, b: int) {
    a <= x < b
  }

  ghost function Range(a: int, b: int): set<int> {
    set x | a <= x < b && Between(a, x, b)
  }

  lemma {:induction false} RangeSize(a: int, b: int)
    requires a <= b
    ensures forall x :: x in Range(a, b) <==> a <= x < b
    ensures |Range(a, b)| == b - a
    decreases b - a
  {
    assert forall x | a <= x < b :: Between(a, x, b);
    if a == b {
      assert Range(a, b) == {};
    } else {
      RangeSize(a, b - 1);
      assert Range(a, b) == Range(a, b - 1) + {b - 1};
    }
  }

  lemma {:induction false} MulSuccessor(b: nat, c: nat, k: nat)
    requires b < c
    ensures b * k + k <= c * k
    decreases c - b
  {
    if c == b + 1 {
    } else {
      MulSuccessor(b, c - 1, k);
    }
  }

  lemma {:induction false} MultipleAtLeast(size: int, d: int)
    requires size > 0 && d >= 1
    ensures size * d >= size
    decreases d
  {
    if d == 1 {
    } else {
      MultipleAtLeast(size, d - 1);
    }
  }

  lemma DivModUnique(size: int, q: int, i: int, x: int)
    requires size > 0 && 0 <= i < size && x == size * q + i
    ensures x % size == i
  {
    var d := x / size - q;
    assert size * d == i - x % size;
    if d >= 1 {
      MultipleAtLeast(size, d);
    } else if d <= -1 {
      MultipleAtLeast(size, -d);
    }
  }

  lemma OffsetInBlock(base: int, size: int, i: int)
    requires size > 0 && base % size == 0 && 0 <= i < size
    ensures (base + i) % size == i
  {
    DivModUnique(size, base / size, i, base + i);
  }

  /** Different multiples are a whole block apart. */
  lemma MultiplesApart(size: int, u: int, v: int)
    requires size > 0 && u % size == 0 && v % size == 0 && u < v
    ensures u + size <= v
  {
    var d := v / size - u / size;
    assert size * d == v - u;
    if d <= -1 {
      MultipleAtLeast(size, -d);
    } else if d >= 1 {
      MultipleAtLeast(size, d);
    }
  }

  /** A multiple of a power of two is a multiple of every smaller one. */
  lemma {:induction false} SmallerPowerDivides(x: int, a: nat, b: nat)
    requires a <= b && x % Pow2(b) == 0
    ensures x % Pow2(a) == 0
    decreases b
  {
    if a == b {
    } else {
      var q := x / Pow2(b);
      assert x == Pow2(b - 1) * (2 * q);
      DivModUnique(Pow2(b - 1), 2 * q, 0, x);
      SmallerPowerDivides(x, a, b - 1);
    }
  }
}
