/** The power-of-two and alignment helpers of Base.h. An unsigned machine word is a `nat` below
    `Pow2(width)`; `&` is defined bit by bit, and every wrap of the source is written out. */
module Base {

  const U16: nat := 0x1_0000
  const U32: nat := 0x1_0000_0000
  const U64: nat := 0x1_0000_0000_0000_0000

  function Pow2(k: nat): (r: nat)
    ensures r >= 1
  {
    if k == 0 then 1 else 2 * Pow2(k - 1)
  }

  ghost predicate PowerOfTwo(n: nat) {
    exists k: nat :: n == Pow2(k)
  }

  /** Bitwise conjunction of two unsigned words. */
  function BitAnd(a: nat, b: nat): nat {
    if a == 0 || b == 0 then 0
    else (if a % 2 == 1 && b % 2 == 1 then 1 else 0) + 2 * BitAnd(a / 2, b / 2)
  }

  predicate IsPowerOf2(num: nat) {
    num > 0 && BitAnd(num, num - 1) == 0
  }

  function FastModulo(value: nat, capacity: nat): nat
    requires capacity > 0
  {
    BitAnd(value, capacity - 1)
  }

  /** Rounds up by adding and then clearing the low bits, on 64-bit words. */
  function AlignSize(size: nat, alignment: nat): nat
    requires 0 < alignment <= U64
  {
    BitAnd((size + (alignment - 1)) % U64, U64 - 1 - (alignment - 1))
  }

  /** Position of the lowest set bit, as `_BitScanForward` reports it. */
  function BitScanForward(word: nat): nat
    requires word > 0
  {
    if word % 2 == 1 then 0 else 1 + BitScanForward(word / 2)
  }

  // ---------- Powers of two ----------

  lemma Pow2Constants()
    ensures Pow2(8) == 256 && Pow2(9) == 512 && Pow2(16) == U16 && Pow2(23) == 0x80_0000
    ensures Pow2(25) == 0x200_0000 && Pow2(31) == 0x8000_0000 && Pow2(32) == U32
    ensures Pow2(63) == 0x8000_0000_0000_0000 && Pow2(64) == U64
  {
    Pow2Adds(8, 8);
    Pow2Adds(16, 7);
    Pow2Adds(16, 9);
    Pow2Adds(16, 15);
    Pow2Adds(16, 16);
    Pow2Adds(32, 31);
    Pow2Adds(32, 32);
  }

  lemma {:induction false} Pow2Adds(a: nat, b: nat)
    ensures Pow2(a + b) == Pow2(a) * Pow2(b)
  {
    if b > 0 {
      Pow2Adds(a, b - 1);
      DoubleProduct(Pow2(a), Pow2(b - 1));
    }
  }

  lemma DoubleProduct(x: nat, y: nat)
    ensures x * (2 * y) == 2 * (x * y)
  {
  }

  lemma {:induction false} Pow2Monotone(a: nat, b: nat)
    requires a <= b
    ensures Pow2(a) <= Pow2(b)
    ensures a < b ==> 2 * Pow2(a) <= Pow2(b)
    decreases b
  {
    if a < b {
      Pow2Monotone(a, b - 1);
    }
  }

  lemma {:induction false} BitAndSelf(m: nat)
    ensures BitAnd(m, m) == m
  {
    if m > 0 {
      BitAndSelf(m / 2);
    }
  }

  /** The clear-lowest-bit test recognises exactly the powers of two. */
  lemma {:induction false} IsPowerOf2Correct(num: nat)
    ensures IsPowerOf2(num) <==> PowerOfTwo(num)
  {
    if num == 0 {
    } else if num == 1 {
      assert num == Pow2(0);
    } else if num % 2 == 1 {
      assert (num - 1) / 2 == num / 2;
      BitAndSelf(num / 2);
      forall k: nat ensures num != Pow2(k) {
      }
    } else {
      var half := num / 2;
      assert (num - 1) / 2 == half - 1;
      IsPowerOf2Correct(half);
      if k: nat :| half == Pow2(k) {
        assert num == Pow2(k + 1);
      }
      if k: nat :| num == Pow2(k) {
        assert half == Pow2(k - 1);
      }
    }
  }

  // ---------- Masking is remainder and rounding ----------

  lemma DivModUnique(value: nat, m: nat, q: nat, r: nat)
    requires m > 0 && r < m && value == q * m + r
    ensures value / m == q && value % m == r
  {
    QuotientUnique(m, q, r, value / m, value % m);
  }

  lemma QuotientUnique(m: nat, q: nat, r: nat, q': nat, r': nat)
    requires r < m && r' < m && q * m + r == m * q' + r'
    ensures q == q' && r == r'
  {
    if q < q' {
      MulLess(m, q, q');
    } else if q' < q {
      MulLess(m, q', q);
    }
  }

  lemma MulLess(m: nat, a: nat, b: nat)
    requires a < b
    ensures a * m + m <= b * m
  {
    assert (a + 1) * m <= b * m;
  }

  /** Peeling the lowest bit off a remainder by an even modulus. */
  lemma ModHalves(value: nat, m: nat)
    requires m > 0
    ensures value % (2 * m) == value % 2 + 2 * ((value / 2) % m)
  {
    var q, r := (value / 2) / m, (value / 2) % m;
    assert value / 2 == m * q + r;
    calc {
      value;
      2 * (m * q + r) + value % 2;
      q * (2 * m) + (2 * r + value % 2);
    }
    DivModUnique(value, 2 * m, q, 2 * r + value % 2);
  }

  lemma {:induction false} MaskIsMod(value: nat, k: nat)
    ensures BitAnd(value, Pow2(k) - 1) == value % Pow2(k)
    decreases k
  {
    if k > 0 {
      var m := Pow2(k - 1);
      assert Pow2(k) == 2 * m;
      MaskIsMod(value / 2, k - 1);
      hide Pow2, BitAnd;
      MaskStep(value, m);
      ModHalves(value, m);
    }
  }

  lemma MaskStep(value: nat, m: nat)
    requires m > 0
    ensures BitAnd(value, 2 * m - 1) == 2 * BitAnd(value / 2, m - 1) + value % 2
  {
    assert (2 * m - 1) / 2 == m - 1;
  }

  /** For a power-of-two capacity, `FastModulo` is the remainder. */
  lemma FastModuloIsMod(value: nat, capacity: nat)
    requires PowerOfTwo(capacity)
    ensures FastModulo(value, capacity) == value % capacity < capacity
  {
    var k: nat :| capacity == Pow2(k);
    MaskIsMod(value, k);
  }

  lemma EvenMaskStep(x: nat, top: nat, low: nat)
    requires low <= top
    ensures BitAnd(x, 2 * top - 2 * low) == 2 * BitAnd(x / 2, top - low)
  {
    assert (2 * top - 2 * low) / 2 == top - low;
  }

  lemma {:induction false} HighMaskTruncates(x: nat, w: nat, k: nat, top: nat, low: nat)
    requires k <= w && top == Pow2(w) && low == Pow2(k) && low <= top && x < top
    ensures BitAnd(x, top - low) == x - x % low
    decreases k
  {
    if k == 0 {
      MaskIsMod(x, w);
      DivModUnique(x, top, 0, x);
    } else {
      var t, m := Pow2(w - 1), Pow2(k - 1);
      Pow2Monotone(k - 1, w - 1);
      HighMaskTruncates(x / 2, w - 1, k - 1, t, m);
      EvenMaskStep(x, t, m);
      ModHalves(x, m);
    }
  }

  lemma RemainderDropped(x: nat, m: nat)
    requires m > 0
    ensures (x - x % m) % m == 0
  {
    assert x - x % m == (x / m) * m;
    DivModUnique(x - x % m, m, x / m, 0);
  }

  lemma WordExponent(k: nat)
    requires Pow2(k) <= U64
    ensures k <= 64 && Pow2(64) == U64
  {
    Pow2Constants();
    if k > 64 {
      Pow2Monotone(65, k);
    }
  }

  lemma AlignSizeValue(size: nat, alignment: nat, x: nat)
    requires PowerOfTwo(alignment) && alignment <= U64 && x == (size + (alignment - 1)) % U64
    ensures AlignSize(size, alignment) == x - x % alignment
  {
    var k: nat :| alignment == Pow2(k);
    WordExponent(k);
    HighMaskTruncates(x, 64, k, U64, alignment);
  }

  /** `AlignSize` is the least multiple of a power-of-two alignment that holds `size` if and only if
      the sum does not wrap; when it wraps the result is zero. */
  lemma AlignSizeLeastMultiple(size: nat, alignment: nat)
    requires PowerOfTwo(alignment) && size < U64 && alignment <= U64
    ensures size + alignment - 1 < U64 ==>
      AlignSize(size, alignment) % alignment == 0 && size <= AlignSize(size, alignment) < size + alignment
    ensures size + alignment - 1 >= U64 ==> AlignSize(size, alignment) == 0 < size
  {
    hide AlignSize;
    var sum := size + (alignment - 1);
    if sum < U64 {
      DivModUnique(sum, U64, 0, sum);
      AlignSizeValue(size, alignment, sum);
      RemainderDropped(sum, alignment);
    } else {
      DivModUnique(sum, U64, 1, sum - U64);
      AlignSizeValue(size, alignment, sum - U64);
      DivModUnique(sum - U64, alignment, 0, sum - U64);
    }
  }

  // ---------- Rounding up to a power of two ----------

  /** The least power of two that is at least `x`. */
  ghost predicate LeastPowerOfTwo(x: nat, r: nat) {
    PowerOfTwo(r) && x <= r && forall k: nat :: x <= Pow2(k) ==> r <= Pow2(k)
  }

  function CeilPow2(x: nat): (r: nat)
    ensures r > 0
  {
    if x <= 1 then 1 else 2 * CeilPow2((x + 1) / 2)
  }

  lemma {:induction false} CeilPow2Least(x: nat)
    ensures LeastPowerOfTwo(x, CeilPow2(x))
  {
    if x <= 1 {
      assert CeilPow2(x) == Pow2(0);
    } else {
      var half := (x + 1) / 2;
      CeilPow2Least(half);
      var j: nat :| CeilPow2(half) == Pow2(j);
      assert CeilPow2(x) == Pow2(j + 1);
      forall k: nat | x <= Pow2(k) ensures CeilPow2(x) <= Pow2(k) {
        assert half <= Pow2(k - 1);
      }
    }
  }

  lemma CeilPow2Fixed(x: nat)
    requires PowerOfTwo(x)
    ensures CeilPow2(x) == x
  {
    CeilPow2Least(x);
  }

  lemma CeilPow2Bounded(x: nat, k: nat)
    requires x <= Pow2(k)
    ensures CeilPow2(x) <= Pow2(k)
  {
    CeilPow2Least(x);
  }

  /** The shift loop shared by `AlignPowTwoCeil` (width 64) and `AlignPowTwoCeil32` (width 32). It is
      correct exactly up to half the word range; above that the doubling wraps to zero. */
  method AlignPowTwoCeil(x: nat, width: nat) returns (power: nat)
    requires width >= 1 && x < Pow2(width)
    ensures x <= Pow2(width - 1) <==> power == CeilPow2(x)
    ensures x > Pow2(width - 1) ==> power == 0
  {
    if x <= 1 {
      return 1;
    }
    power := 2;
    var n := x - 1;
    ghost var e := 1;
    ShiftRightZero(n, 0);
    n := n / 2;
    while n != 0
      invariant power == if e < width then Pow2(e) else 0
      invariant 1 <= e <= width
      invariant n == ShiftRight(x - 1, e)
      invariant Pow2(e - 1) <= x - 1
      decreases n
    {
      ShiftRightZero(x - 1, e);
      DoublingStep(width, e, x - 1);
      power := (power * 2) % Pow2(width);
      n := n / 2;
      e := e + 1;
    }
    ShiftRightZero(x - 1, e);
    BetweenPowers(x, e);
    if e < width {
      Pow2Monotone(e, width - 1);
    }
  }

  lemma DoublingStep(width: nat, e: nat, v: nat)
    requires Pow2(e) <= v < Pow2(width)
    ensures e < width
    ensures (Pow2(e) * 2) % Pow2(width) == if e + 1 < width then Pow2(e + 1) else 0
  {
    if e >= width {
      Pow2Monotone(width, e);
    } else if e + 1 < width {
      Pow2Monotone(e + 1, width);
      DivModUnique(Pow2(e + 1), Pow2(width), 0, Pow2(e + 1));
    } else {
      DivModUnique(Pow2(width), Pow2(width), 1, 0);
    }
  }

  /** `v >> e`. */
  ghost function ShiftRight(v: nat, e: nat): nat {
    if e == 0 then v else ShiftRight(v / 2, e - 1)
  }

  lemma {:induction false} ShiftRightZero(v: nat, e: nat)
    ensures ShiftRight(v, e) == 0 <==> v < Pow2(e)
    ensures ShiftRight(v, e + 1) == ShiftRight(v, e) / 2
    decreases e
  {
    if e > 0 {
      ShiftRightZero(v / 2, e - 1);
    }
  }

  lemma BetweenPowers(x: nat, e: nat)
    requires e >= 1 && Pow2(e - 1) < x <= Pow2(e)
    ensures CeilPow2(x) == Pow2(e)
  {
    CeilPow2Least(x);
    var j: nat :| CeilPow2(x) == Pow2(j);
    if j < e {
      Pow2Monotone(j, e - 1);
    } else {
      Pow2Monotone(e, j);
    }
  }

  lemma {:induction false} BitScanForwardOfPower(k: nat)
    ensures BitScanForward(Pow2(k)) == k
  {
    if k > 0 {
      BitScanForwardOfPower(k - 1);
    }
  }

  // ---------- Signed words ----------

  /** An `i32` holding `x`. */
  function ToI32(x: int): int {
    (x + 0x8000_0000) % 0x1_0000_0000 - 0x8000_0000
  }

  lemma ToI32Adds(x: int, k: int)
    ensures ToI32(ToI32(x) + k) == ToI32(x + k) == ToI32(ToI32(x + k))
    ensures -0x8000_0000 <= x < 0x8000_0000 ==> ToI32(x) == x
  {
    hide ToI32;
    ToI32Shift(x);
    ToI32Mod(x + k, ToI32(x) + k, (x + 0x8000_0000) / U32);
    ToI32Shift(x + k);
    ToI32Mod(x + k, ToI32(x + k), (x + k + 0x8000_0000) / U32);
  }

  lemma ToI32Shift(x: int)
    ensures ToI32(x) == x - (x + 0x8000_0000) / U32 * U32 && -0x8000_0000 <= ToI32(x) < 0x8000_0000
    ensures -0x8000_0000 <= x < 0x8000_0000 ==> ToI32(x) == x
  {
  }

  lemma ToI32Mod(x: int, y: int, q: int)
    requires y == x - q * U32
    ensures ToI32(y) == ToI32(x)
  {
    hide ToI32;
    ToI32Shift(x);
    ToI32Shift(y);
  }

  lemma ToI32OfWord(x: nat)
    requires x < U32
    ensures ToI32(x) == if x < 0x8000_0000 then x else x - U32
  {
  }

  lemma ToI32Positive(x: nat)
    ensures ToI32(x) > 0 <==> 0 < x % U32 < 0x8000_0000
  {
    var q, r := x / U32, x % U32;
    if r < 0x8000_0000 {
      DivModUnique(x + 0x8000_0000, U32, q, r + 0x8000_0000);
    } else {
      DivModUnique(x + 0x8000_0000, U32, q + 1, r - 0x8000_0000);
    }
  }
}
