/** Quotients and remainders of byte offsets, where blocks nest in chunks and chunks in sectors. */
module Division {
  lemma {:induction false} Multiply(m: nat, a: nat, b: nat)
    requires a < b
    ensures m * a + m <= m * b
    decreases b
  {
    assert m * b == m * (b - 1) + m;
    if a < b - 1 {
      Multiply(m, a, b - 1);
    }
  }

  lemma DivUnique(x: nat, m: nat, q: nat, r: nat)
    requires r < m && x == m * q + r
    ensures x / m == q && x % m == r
  {
    var p := x / m;
    assert x == m * p + x % m;
    if p < q {
      Multiply(m, p, q);
    } else if q < p {
      Multiply(m, q, p);
    }
  }

  /** The block of an offset lies in the sector of the offset, at the same place up to the rest in the block. */
  lemma BlockThenSector(x: nat)
    ensures x % 0x4000 % 16 == x % 16 && (x - x % 16) % 16 == 0
    ensures (x - x % 16) % 0x4000 == x % 0x4000 - x % 16
    ensures (x - x % 16) / 0x4000 == x / 0x4000
  {
    var q, r := x / 0x4000, x % 0x4000;
    var a, b := r / 16, r % 16;
    DivUnique(x, 16, 1024 * q + a, b);
    DivUnique(x - b, 16, 1024 * q + a, 0);
    DivUnique(x - b, 0x4000, q, r - b);
  }

  /** Moving on inside a sector. */
  lemma WithinSector(x: nat, n: nat)
    requires x % 0x4000 + n <= 0x4000
    ensures x % 0x4000 + n < 0x4000 ==> (x + n) % 0x4000 == x % 0x4000 + n && (x + n) / 0x4000 == x / 0x4000
    ensures x % 0x4000 + n == 0x4000 ==> (x + n) % 0x4000 == 0
  {
    var q, r := x / 0x4000, x % 0x4000;
    if r + n < 0x4000 {
      DivUnique(x + n, 0x4000, q, r + n);
    } else {
      DivUnique(x + n, 0x4000, q + 1, 0);
    }
  }

  /** Whole blocks added keep the rest in the block. */
  lemma AddBlocks(x: nat, n: nat)
    requires n % 16 == 0
    ensures (x + n) % 16 == x % 16 && (x + n) / 16 == x / 16 + n / 16
  {
    DivUnique(x + n, 16, x / 16 + n / 16, x % 16);
  }

  /** The rest in the block of a sum. */
  lemma AddRest(x: nat, n: nat)
    ensures (x % 16 + n) % 16 == (x + n) % 16
  {
    AddBlocks(x % 16 + n, x - x % 16);
  }

  lemma AddMultiple(x: nat, m: nat, k: nat)
    requires 0 < m
    ensures (x + m * k) % m == x % m && (x + m * k) / m == x / m + k
  {
    assert x == m * (x / m) + x % m;
    assert m * (x / m) + m * k == m * (x / m + k);
    DivUnique(x + m * k, m, x / m + k, x % m);
  }
}
