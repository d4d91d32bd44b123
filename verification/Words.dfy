// Machine integers: explicit wrap-around, little-endian words and bitwise AND/OR
// on natural numbers.
module Words {

  const U32: nat := 0x1_0000_0000
  const U64: nat := 0x1_0000_0000_0000_0000

  type byte = x: int | 0 <= x < 0x100
  type u32 = x: int | 0 <= x < 0x1_0000_0000
  type u64 = x: int | 0 <= x < 0x1_0000_0000_0000_0000

  // A 32-bit unsigned result, as `size_t` on the ARM target and `uint32_t` compute it.
  function Wrap32(x: int): (r: u32) {
    x % 0x1_0000_0000
  }

  // A 64-bit unsigned result, as `iree_device_size_t` and `uint64_t` compute it.
  function Wrap64(x: int): (r: u64) {
    x % 0x1_0000_0000_0000_0000
  }

  // The value of a 32-bit pattern read as a two's complement integer.
  function Signed(x: u32): (r: int)
    ensures -0x8000_0000 <= r < 0x8000_0000
    ensures Wrap32(r) == x
  {
    if x < 0x8000_0000 then x else x - 0x1_0000_0000
  }

  function Pow2(k: nat): (r: nat)
    ensures r > 0
  {
    if k == 0 then 1 else 2 * Pow2(k - 1)
  }

  lemma {:induction false} Pow2Sum(a: nat, b: nat)
    ensures Pow2(a + b) == Pow2(a) * Pow2(b)
  {
    if a != 0 {
      Pow2Sum(a - 1, b);
      Assoc2(Pow2(a - 1), Pow2(b));
    }
  }

  lemma Pow2Is32()
    ensures Pow2(32) == U32
  {
    assert Pow2(2) == 4;
    Pow2Sum(2, 2);
    Pow2Sum(4, 4);
    Pow2Sum(8, 8);
    Pow2Sum(16, 16);
  }

  lemma Pow2Is58()
    ensures Pow2(58) == 0x400_0000_0000_0000
  {
    assert Pow2(2) == 4;
    Pow2Sum(2, 2);
    Pow2Sum(4, 4);
    Pow2Sum(8, 8);
    Pow2Sum(8, 2);
    Pow2Sum(16, 10);
    Pow2Is32();
    Pow2Sum(32, 26);
  }

  // ---- Little-endian words ----

  function DecodeWord(bytes: seq<byte>): (r: u32)
    requires |bytes| == 4
  {
    var b0: int, b1: int, b2: int, b3: int := bytes[0], bytes[1], bytes[2], bytes[3];
    b0 + 0x100 * (b1 + 0x100 * (b2 + 0x100 * b3))
  }

  function EncodeWord(x: u32): (bytes: seq<byte>)
    ensures |bytes| == 4
    ensures DecodeWord(bytes) == x
  {
    var y := x / 0x100;
    var z := y / 0x100;
    [x % 0x100, y % 0x100, z % 0x100, z / 0x100]
  }

  // ---- Bitwise operations on naturals ----

  function And(x: nat, y: nat): (r: nat) {
    if x == 0 || y == 0 then 0
    else (if x % 2 == 1 && y % 2 == 1 then 1 else 0) + 2 * And(x / 2, y / 2)
  }

  function Or(x: nat, y: nat): (r: nat) {
    if x == 0 then y else if y == 0 then x
    else (if x % 2 == 1 || y % 2 == 1 then 1 else 0) + 2 * Or(x / 2, y / 2)
  }

  lemma {:induction false} AndAllOnes(x: nat, k: nat)
    requires x < Pow2(k)
    ensures And(x, Pow2(k) - 1) == x
  {
    if x != 0 {
      AndAllOnes(x / 2, k - 1);
    }
  }

  lemma AndDouble(x: nat, y: nat)
    ensures And(x, 2 * y) == 2 * And(x / 2, y)
  {
  }

  lemma OrDouble(x: nat, y: nat)
    ensures Or(x, 2 * y) == x % 2 + 2 * Or(x / 2, y)
  {
  }

  // Unbounded shifts; the width of a machine shift is applied by the caller.
  function Shl(x: nat, k: nat): (r: nat) {
    if k == 0 then x else 2 * Shl(x, k - 1)
  }

  function Shr(x: nat, k: nat): (r: nat) {
    if k == 0 then x else Shr(x / 2, k - 1)
  }

  lemma {:induction false} ShlIsTimes(x: nat, k: nat)
    ensures Shl(x, k) == Pow2(k) * x
  {
    if k != 0 {
      ShlIsTimes(x, k - 1);
      Assoc2(Pow2(k - 1), x);
    }
  }

  lemma Assoc2(a: int, b: int)
    ensures 2 * (a * b) == (2 * a) * b
  {
  }

  // Masking off the low `k` bits.
  lemma {:induction false} AndShifted(x: nat, y: nat, k: nat)
    ensures And(x, Shl(y, k)) == Shl(And(Shr(x, k), y), k)
  {
    if k != 0 {
      AndDouble(x, Shl(y, k - 1));
      AndShifted(x / 2, y, k - 1);
    }
  }

  // OR of values with no bit in common is their sum: `low | high << k`.
  lemma {:induction false} OrIsSum(low: nat, high: nat, k: nat)
    requires low < Pow2(k)
    ensures Or(low, Shl(high, k)) == low + Shl(high, k)
  {
    if k != 0 {
      OrDouble(low, Shl(high, k - 1));
      OrIsSum(low / 2, high, k - 1);
    }
  }

  // ---- Products and quotients ----

  lemma TimesMonotone(i: nat, j: nat, n: nat)
    requires i <= j
    ensures i * n <= j * n
  {
    assert j * n == i * n + (j - i) * n;
  }

  lemma NextMultiple(i: nat, n: nat)
    ensures (i + 1) * n == i * n + n
  {
  }

  // Only i itself puts i * n within n of the number row * n + f.
  lemma SameQuotient(i: nat, row: nat, n: nat, f: nat)
    requires f < n
    ensures 0 <= row * n + f - i * n < n <==> i == row
  {
    NextMultiple(i, n);
    NextMultiple(row, n);
    if i < row {
      TimesMonotone(i + 1, row, n);
    } else if row < i {
      TimesMonotone(row + 1, i, n);
    }
  }

  lemma DivUnique(x: nat, d: nat, q: nat, r: nat)
    requires d > 0 && r < d && x == q * d + r
    ensures x / d == q && x % d == r
  {
    SameQuotient(x / d, q, d, r);
  }
}
