/** The few facts of non-linear arithmetic the layouts need, each proved once. */
module Arith {

  lemma MulMono(a: int, b: int, d: int)
    requires a <= b && d >= 0
    ensures a * d <= b * d
  {
    assert (b - a) * d >= 0;
  }

  lemma DivMod(n: int, d: int)
    requires d > 0
    ensures n == n / d * d + n % d && 0 <= n % d < d
  {
  }

  lemma Remainder(n: nat, d: nat)
    requires d > 0
    ensures 0 <= n % d < d && 0 <= n / d
  {
  }

  lemma DivModUnique(n: int, d: int, q: int, r: int)
    requires d > 0 && n == q * d + r && 0 <= r < d
    ensures n / d == q && n % d == r
  {
    DivMod(n, d);
    var p := n / d;
    if p > q {
      MulMono(q + 1, p, d);
    } else if p < q {
      MulMono(p + 1, q, d);
    }
  }

  lemma QuotientBound(x: nat, d: nat, q: nat)
    requires d > 0 && x < q * d
    ensures x / d < q
  {
    DivMod(x, d);
    var p := x / d;
    if p >= q {
      MulMono(q, p, d);
    }
  }

  /** Slot `r` of block `q`, in blocks of `d`, lies below the end of the last of `n` blocks. */
  lemma BlockBound(q: nat, r: nat, d: nat, n: nat)
    requires q < n && r < d
    ensures q * d + r < n * d
  {
    MulMono(q + 1, n, d);
  }

  /** Counting up by one either moves within the block or to the start of the next one. */
  lemma BlockStep(n: nat, d: nat)
    requires d > 0
    ensures n % d + 1 < d ==> (n + 1) / d == n / d && (n + 1) % d == n % d + 1
    ensures n % d + 1 >= d ==> (n + 1) / d == n / d + 1 && (n + 1) % d == 0
  {
    DivMod(n, d);
    if n % d + 1 < d {
      DivModUnique(n + 1, d, n / d, n % d + 1);
    } else {
      DivModUnique(n + 1, d, n / d + 1, 0);
    }
  }

  /** Offset of a table index in a five-sector window that covers it. */
  lemma WindowOffset(index: int, pos: int)
    requires pos <= index / 512 < pos + 5
    ensures 0 <= index - pos * 512 < 2560
  {
  }

  /** An entry aligned to its own width does not stick out of the window. */
  lemma AlignedOffset(index: int, pos: int, width: int)
    requires 0 <= index - pos * 512 < 2560 && (width == 2 || width == 4) && index % width == 0
    ensures index - pos * 512 + width <= 2560
  {
    var a := index / width;
    assert index == a * width;
    if width == 2 {
      assert a - pos * 256 < 1280;
    } else {
      assert a - pos * 128 < 640;
    }
  }

  /** Wrapping a multiple of 2 or 4 to 32 bits keeps it one. */
  lemma WrapTwice(c: nat)
    ensures c * 2 % 0x1_0000_0000 % 2 == 0
  {
  }

  lemma WrapFourTimes(c: nat)
    ensures c * 4 % 0x1_0000_0000 % 4 == 0
  {
  }

  /** The quotient and remainder of a byte index by the sector size. */
  lemma SectorSplit(q: nat, i: nat)
    ensures (q * 512 + i) / 512 == q + i / 512 && (q * 512 + i) % 512 == i % 512
  {
  }

  /** Moving on by `take` bytes, at most to the end of the sector. */
  lemma SectorAdvance(p: nat, take: nat)
    requires 0 < take <= 512 - p % 512
    ensures take < 512 - p % 512 ==> (p + take) / 512 == p / 512 && (p + take) % 512 != 0
    ensures take == 512 - p % 512 ==> (p + take) / 512 == p / 512 + 1 && (p + take) % 512 == 0
  {
  }

  lemma WholeSectors(x: nat)
    ensures x * 512 % 512 == 0
  {
  }

  /** Where item `i` of a row of items of `size` starts: the product, without a multiplication. */
  function Offset(size: nat, i: nat): nat {
    if i == 0 then 0 else Offset(size, i - 1) + size
  }

  lemma {:induction false} OffsetIsProduct(size: nat, i: nat)
    ensures Offset(size, i) == i * size
  {
    if i > 0 {
      OffsetIsProduct(size, i - 1);
      assert i * size == (i - 1) * size + size;
    }
  }

  lemma {:induction false} OffsetMonotone(size: nat, i: nat, j: nat)
    requires i <= j
    ensures Offset(size, i) <= Offset(size, j)
    ensures i < j ==> Offset(size, i) + size <= Offset(size, j)
    decreases j
  {
    if i < j {
      OffsetMonotone(size, i, j - 1);
    }
  }
}
