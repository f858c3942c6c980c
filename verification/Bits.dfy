/** Bitwise operations of unsigned machine words, on their values. */
module Bits {
  function And(a: nat, b: nat): nat
    decreases a
  {
    if a == 0 || b == 0 then 0 else 2 * And(a / 2, b / 2) + (if a % 2 == 1 && b % 2 == 1 then 1 else 0)
  }

  function Or(a: nat, b: nat): nat
    decreases a + b
  {
    if a == 0 then b else if b == 0 then a
    else 2 * Or(a / 2, b / 2) + (if a % 2 == 1 || b % 2 == 1 then 1 else 0)
  }

  function Pow2(n: nat): (p: nat)
    ensures p > 0
  {
    if n == 0 then 1 else 2 * Pow2(n - 1)
  }

  lemma {:induction false} PowersAdd(a: nat, b: nat)
    ensures Pow2(a + b) == Pow2(a) * Pow2(b)
  {
    if b != 0 {
      PowersAdd(a, b - 1);
      assert Pow2(a) * (2 * Pow2(b - 1)) == 2 * (Pow2(a) * Pow2(b - 1));
    }
  }

  lemma Powers()
    ensures Pow2(1) == 2 && Pow2(2) == 4 && Pow2(7) == 0x80 && Pow2(8) == 0x100 && Pow2(12) == 0x1000
    ensures Pow2(16) == 0x1_0000 && Pow2(24) == 0x100_0000
  {
    PowersAdd(8, 4);
    PowersAdd(8, 8);
    PowersAdd(16, 8);
  }

  lemma Twice(q: nat, k: nat)
    requires k > 0
    ensures q * Pow2(k) == 2 * (q * Pow2(k - 1))
  {
  }

  /** Low bits under a shifted mask are dropped. */
  lemma {:induction false} AndShifted(q: nat, r: nat, m: nat, k: nat)
    requires r < Pow2(k)
    ensures And(q * Pow2(k) + r, m * Pow2(k)) == And(q, m) * Pow2(k)
    decreases k
  {
    if k != 0 {
      var a, b := q * Pow2(k - 1), m * Pow2(k - 1);
      Twice(q, k);
      Twice(m, k);
      Twice(And(q, m), k);
      AndShifted(q, r / 2, m, k - 1);
      assert (2 * a + r) / 2 == a + r / 2 && (2 * b) / 2 == b && (2 * b) % 2 == 0;
    }
  }

  /** A mask of the low k bits keeps exactly those. */
  lemma {:induction false} AndLow(q: nat, r: nat, k: nat)
    requires r < Pow2(k)
    ensures And(q * Pow2(k) + r, Pow2(k) - 1) == r
    decreases k
  {
    if k != 0 {
      var a, p := q * Pow2(k - 1), Pow2(k - 1);
      Twice(q, k);
      AndLow(q, r / 2, k - 1);
      assert (2 * a + r) / 2 == a + r / 2 && (2 * a + r) % 2 == r % 2;
      assert (2 * p - 1) / 2 == p - 1 && (2 * p - 1) % 2 == 1;
    }
  }

  /** Joining a low part and a shifted high part adds them. */
  lemma {:induction false} OrShifted(a: nat, b: nat, k: nat)
    requires a < Pow2(k)
    ensures Or(a, b * Pow2(k)) == a + b * Pow2(k)
    decreases k
  {
    if k != 0 {
      var c := b * Pow2(k - 1);
      Twice(b, k);
      OrShifted(a / 2, b, k - 1);
      assert (2 * c) / 2 == c && (2 * c) % 2 == 0;
    }
  }

  lemma {:induction false} AndAll(q: nat, n: nat)
    requires q < Pow2(n)
    ensures And(q, Pow2(n) - 1) == q
  {
    var p := Pow2(n);
    assert 0 * p + q == q;
    AndLow(0, q, n);
  }

  /** A mask of n bits above k clear ones drops the remainder. */
  lemma {:induction false} DropLow(q: nat, r: nat, k: nat, n: nat)
    requires q < Pow2(n) && r < Pow2(k)
    ensures And(q * Pow2(k) + r, (Pow2(n) - 1) * Pow2(k)) == q * Pow2(k)
  {
    var mask := Pow2(n) - 1;
    AndAll(q, n);
    AndShifted(q, r, mask, k);
  }

  /** The same for a word and its mask given as numbers. */
  lemma {:induction false} DropAt(x: nat, mask: nat, q: nat, r: nat, k: nat, n: nat)
    requires q < Pow2(n) && r < Pow2(k) && x == q * Pow2(k) + r && mask == (Pow2(n) - 1) * Pow2(k)
    ensures And(x, mask) == q * Pow2(k)
  {
    DropLow(q, r, k, n);
  }

  lemma NextByte(n: nat)
    ensures Pow2(n + 8) == 256 * Pow2(n) && Pow2(n + 7) == 128 * Pow2(n) && Pow2(n + 4) == 16 * Pow2(n)
  {
    assert Pow2(n + 2) == 4 * Pow2(n);
    assert Pow2(n + 4) == 4 * Pow2(n + 2);
    assert Pow2(n + 6) == 4 * Pow2(n + 4);
  }

  lemma LargePowers()
    ensures Pow2(31) == 0x8000_0000 && Pow2(52) == 0x10_0000_0000_0000
  {
    NextByte(0);
    NextByte(8);
    NextByte(16);
    NextByte(24);
    NextByte(32);
    NextByte(40);
    NextByte(48);
  }

  /** A 64-bit mask whose low twelve bits are clear rounds down to a multiple of 4096. */
  lemma {:induction false} RoundDown(x: nat)
    requires x < 0x1_0000_0000_0000_0000
    ensures And(x, 0x1_0000_0000_0000_0000 - 0x1000) == x / 4096 * 4096
  {
    LargePowers();
    Powers();
    DropAt(x, 0x1_0000_0000_0000_0000 - 0x1000, x / 4096, x % 4096, 12, 52);
  }

  /** A 32-bit mask whose lowest bit is clear rounds down to an even number. */
  lemma {:induction false} RoundEven(x: nat)
    requires x < 0x1_0000_0000
    ensures And(x, 0xffff_fffe) == x / 2 * 2
  {
    LargePowers();
    Powers();
    DropAt(x, 0xffff_fffe, x / 2, x % 2, 1, 31);
  }
}
