/** Machine integers of the 32-bit target: wrap-around and the bitwise operators, defined bit by bit. */
module Words {

  type byte = x: int | 0 <= x < 0x100
  type u32 = x: int | 0 <= x < 0x1_0000_0000

  // Status codes of src/status.h, as the negated values that functions return.
  const OK := 0
  const EIO := -1
  const EINVARG := -2
  const ENOMEM := -3
  const EFSNOTUS := -5

  /** The 32-bit register value of a mathematical integer. */
  function Wrap(x: int): u32 {
    x % 0x1_0000_0000
  }

  function Pow2(n: nat): (p: nat)
    ensures p >= 1
  {
    if n == 0 then 1 else 2 * Pow2(n - 1)
  }

  lemma Pow2Values()
    ensures Pow2(12) == 4096 && Pow2(20) == 0x100000 && Pow2(32) == 0x1_0000_0000
  {
    assert Pow2(8) == 0x100;
    assert Pow2(16) == 0x1_0000;
    assert Pow2(24) == 0x100_0000;
  }

  /** Bitwise or of the low n bits. */
  function OrBits(x: nat, y: nat, n: nat): (r: nat)
    ensures r < Pow2(n)
  {
    if n == 0 then 0
    else (if x % 2 == 1 || y % 2 == 1 then 1 else 0) + 2 * OrBits(x / 2, y / 2, n - 1)
  }

  /** Bitwise and of the low n bits. */
  function AndBits(x: nat, y: nat, n: nat): (r: nat)
    ensures r < Pow2(n)
  {
    if n == 0 then 0
    else (if x % 2 == 1 && y % 2 == 1 then 1 else 0) + 2 * AndBits(x / 2, y / 2, n - 1)
  }

  const WIDTH: nat := 32

  function Or(x: u32, y: u32): u32 {
    Pow2Values();
    OrBits(x, y, WIDTH)
  }

  function And(x: u32, y: u32): u32 {
    Pow2Values();
    AndBits(x, y, WIDTH)
  }

  // Quotients and remainders of sums ---------------------------------------------------------------

  lemma HalfSum(a: int, r: int)
    ensures (2 * a + r) / 2 == a + r / 2 && (2 * a + r) % 2 == r % 2
  {
  }

  lemma QuarterSum(a: int, r: int)
    ensures (4 * a + r) / 4 == a + r / 4 && (4 * a + r) % 4 == r % 4
  {
  }

  lemma PageSum(a: int, r: int)
    ensures (a * 4096 + r) / 4096 == a + r / 4096 && (a * 4096 + r) % 4096 == r % 4096
  {
  }

  lemma WrapBelow(x: nat)
    requires x < 0x1_0000_0000
    ensures Wrap(x) == x
  {
  }

  lemma WrapLap(x: int)
    ensures Wrap(x + 0x1_0000_0000) == Wrap(x)
  {
  }

  lemma {:induction false} WrapLaps(x: int, laps: nat)
    ensures Wrap(x + laps * 0x1_0000_0000) == Wrap(x)
  {
    if laps > 0 {
      WrapLaps(x, laps - 1);
      WrapLap(x + (laps - 1) * 0x1_0000_0000);
    }
  }

  /** Wrapping in between does not matter. */
  lemma WrapAdd(x: nat, d: int)
    ensures Wrap(Wrap(x) + d) == Wrap(x + d)
  {
    WrapLaps(Wrap(x) + d, x / 0x1_0000_0000);
  }

  // Bits -------------------------------------------------------------------------------------------

  lemma {:induction false} OrBitsZero(x: nat, n: nat)
    requires x < Pow2(n)
    ensures OrBits(x, 0, n) == x
  {
    if n > 0 {
      OrBitsZero(x / 2, n - 1);
    }
  }

  /** x shifted to the left by k bits. */
  function ShiftUp(x: nat, k: nat): nat {
    if k == 0 then x else 2 * ShiftUp(x, k - 1)
  }

  lemma ShiftUpPage(x: nat)
    ensures ShiftUp(x, 12) == x * 4096
  {
    assert ShiftUp(x, 1) == x * 2;
    assert ShiftUp(x, 2) == x * 4;
    assert ShiftUp(x, 4) == x * 16;
    assert ShiftUp(x, 6) == x * 64;
    assert ShiftUp(x, 8) == x * 256;
    assert ShiftUp(x, 10) == x * 1024;
  }

  /** Below bits that are shifted up, or works on the low bits alone. */
  lemma {:induction false} OrBitsLow(h: nat, x: nat, y: nat, k: nat, n: nat)
    requires k <= n && x < Pow2(k) && y < Pow2(k) && ShiftUp(h, k) + x < Pow2(n)
    ensures OrBits(ShiftUp(h, k) + x, y, n) == ShiftUp(h, k) + OrBits(x, y, k)
  {
    if k == 0 {
      OrBitsZero(h, n);
    } else {
      OrBitsLow(h, x / 2, y / 2, k - 1, n - 1);
      OrBitsStep(ShiftUp(h, k - 1), x, y, n);
    }
  }

  lemma OrBitsStep(a: nat, x: nat, y: nat, n: nat)
    requires n > 0
    ensures OrBits(2 * a + x, y, n) == (if x % 2 == 1 || y % 2 == 1 then 1 else 0) + 2 * OrBits(a + x / 2, y / 2, n - 1)
  {
    HalfSum(a, x);
  }

  predicate Bit(x: nat, b: nat) {
    if b == 0 then x % 2 == 1 else Bit(x / 2, b - 1)
  }

  /** A bit of the result is set when it is set in one of the operands. */
  lemma {:induction false} OrBitsBit(x: nat, y: nat, n: nat, b: nat)
    requires b < n
    ensures Bit(OrBits(x, y, n), b) <==> Bit(x, b) || Bit(y, b)
  {
    if b > 0 {
      OrBitsBit(x / 2, y / 2, n - 1, b - 1);
    }
  }

  lemma {:induction false} AndBitsOnes(x: nat, n: nat)
    requires x < Pow2(n)
    ensures AndBits(x, Pow2(n) - 1, n) == x
  {
    if n > 0 {
      assert (Pow2(n) - 1) / 2 == Pow2(n - 1) - 1;
      AndBitsOnes(x / 2, n - 1);
    }
  }

  /** A mask above k zeros keeps exactly the bits from k on, if it keeps those. */
  lemma {:induction false} AndBitsMask(q: nat, r: nat, mask: nat, k: nat, n: nat)
    requires k <= n && r < Pow2(k) && AndBits(q, mask, n - k) == q
    ensures AndBits(ShiftUp(q, k) + r, ShiftUp(mask, k), n) == ShiftUp(q, k)
  {
    if k > 0 {
      HalfBelow(r, k);
      AndBitsMask(q, r / 2, mask, k - 1, n - 1);
      AndBitsStep(ShiftUp(q, k - 1), r, ShiftUp(mask, k - 1), n);
    }
  }

  lemma AndBitsStep(a: nat, r: nat, b: nat, n: nat)
    requires n > 0 && AndBits(a + r / 2, b, n - 1) == a
    ensures AndBits(2 * a + r, 2 * b, n) == 2 * a
  {
    HalfSum(a, r);
  }

  lemma HalfBelow(r: nat, k: nat)
    requires k > 0 && r < Pow2(k)
    ensures r / 2 < Pow2(k - 1)
  {
  }

  /** Tagging a page address, tagged or not, with flags below the page size tags its low bits. */
  lemma OrFlags(page: u32, low: u32, flags: u32)
    requires page % 4096 == 0 && low < 4096 && flags < 4096
    ensures Or(low, flags) < 4096
    ensures Or(page + low, flags) == page + Or(low, flags)
    ensures Or(page, flags) == page + flags
  {
    OrLow(page / 4096, low, flags);
    OrLow(page / 4096, 0, flags);
    OrLow(0, low, flags);
    Pow2Values();
    OrBitsZero(flags, 12);
    OrBitsSymmetric(flags, 0, 12);
  }

  lemma OrLow(h: nat, x: nat, y: nat)
    requires h < 0x10_0000 && x < 4096 && y < 4096
    ensures Or(h * 4096 + x, y) == h * 4096 + OrBits(x, y, 12)
  {
    Pow2Values();
    ShiftUpPage(h);
    OrBitsLow(h, x, y, 12, 32);
  }

  lemma {:induction false} OrBitsSymmetric(x: nat, y: nat, n: nat)
    ensures OrBits(x, y, n) == OrBits(y, x, n)
  {
    if n > 0 {
      OrBitsSymmetric(x / 2, y / 2, n - 1);
    }
  }

  /** Masking with 0xfffff000 recovers the page of a tagged address. */
  lemma AndPageMask(x: u32)
    ensures And(x, 0xfffff000) == x / 4096 * 4096
  {
    Pow2Values();
    ShiftUpPage(x / 4096);
    ShiftUpPage(0xfffff);
    AndBitsOnes(x / 4096, 20);
    AndBitsMask(x / 4096, x % 4096, 0xfffff, 12, 32);
  }
}
