/** The C-level vocabulary the ESP32 firmware is written in: bytes, the 32-bit
    `size_t`, the `uint16_t` parameters of the converters, `esp_err_t` result
    codes and C's truncating integer division. */
module CTypes {

  /** `uint8_t` */
  type byte = bv8

  /** `size_t` is 32 bits wide on the ESP32. */
  const SIZE_T_MOD: nat := 0x1_0000_0000

  /** `uint16_t` */
  const UINT16_MOD: nat := 0x1_0000

  /** `esp_err_t` is a plain integer code; these are the two the core produces itself. */
  type EspErr = int
  const ESP_OK: EspErr := 0
  const ESP_FAIL: EspErr := -1

  datatype Option<+T> = None | Some(value: T)

  function Min(a: int, b: int): (m: int)
    ensures m <= a && m <= b
    ensures m == a || m == b
  {
    if a <= b then a else b
  }

  /** The implicit conversion of a wider unsigned value to `uint16_t`: keep the low 16 bits. */
  function ToUint16(n: nat): (r: nat)
    ensures r < UINT16_MOD
    ensures n < UINT16_MOD ==> r == n
    ensures (n - r) % UINT16_MOD == 0
  {
    n % UINT16_MOD
  }

  /** Unsigned addition in `size_t`, which wraps around. */
  function AddSizeT(a: nat, b: nat): (r: nat)
    ensures r < SIZE_T_MOD
    ensures a + b < SIZE_T_MOD ==> r == a + b
    ensures (a + b - r) % SIZE_T_MOD == 0
  {
    (a + b) % SIZE_T_MOD
  }

  /** Adding a multiple of 2^32 does not change a `size_t` value. */
  lemma ModMultipleSizeT(k: nat, x: nat)
    ensures (k * SIZE_T_MOD + x) % SIZE_T_MOD == x % SIZE_T_MOD
  {
  }

  /** Wrapping after every addition is wrapping once at the end. */
  lemma AddSizeTAssoc(a: nat, b: nat, c: nat)
    ensures AddSizeT(AddSizeT(a, b), c) == AddSizeT(a, b + c)
  {
    var q := (a + b) / SIZE_T_MOD;
    assert a + b == q * SIZE_T_MOD + (a + b) % SIZE_T_MOD;
    ModMultipleSizeT(q, (a + b) % SIZE_T_MOD + c);
  }

  /** Wrapping a factor before multiplying is wrapping the product. */
  lemma MulModSizeT(a: nat, b: nat)
    ensures ((a % SIZE_T_MOD) * b) % SIZE_T_MOD == (a * b) % SIZE_T_MOD
  {
    var q := a / SIZE_T_MOD;
    var r := a % SIZE_T_MOD;
    assert a == q * SIZE_T_MOD + r;
    assert a * b == (q * b) * SIZE_T_MOD + r * b by {
      assert a * b == (q * SIZE_T_MOD + r) * b;
    }
    ModMultipleSizeT(q * b, r * b);
  }

  /** Concatenation is associative. */
  lemma ConcatAssoc<T>(a: seq<T>, b: seq<T>, c: seq<T>)
    ensures (a + b) + c == a + (b + c)
  {
  }

  /** The last element of `[x] + xs` is `x` if `xs` is empty and the last of
      `xs` otherwise. */
  lemma LastOfCons<T>(x: T, xs: seq<T>)
    ensures ([x] + xs)[|xs|] == if |xs| == 0 then x else xs[|xs| - 1]
  {
  }

  function Abs(x: int): nat {
    if x < 0 then -x else x
  }

  /** C's `/` on signed integers: the quotient is truncated toward zero, so the
      remainder takes the sign of the dividend (C99 section 6.5.5). Only positive
      divisors occur in this core. */
  function CDiv(a: int, b: int): (q: int)
    requires b > 0
    ensures Abs(a - q * b) < b
    ensures a >= 0 ==> a - q * b >= 0
    ensures a <= 0 ==> a - q * b <= 0
  {
    if a >= 0 then a / b
    else
      var q0 := (-a) / b;
      assert -a == q0 * b + (-a) % b;
      -q0
  }

  /** For a non-negative dividend and positive divisor C's quotient is Dafny's. */
  lemma CDivAgreesOnNonNegative(a: int, b: int)
    requires a >= 0 && b > 0
    ensures CDiv(a, b) == a / b
  {
  }

  /** For a negative dividend the two divisions differ: C rounds toward zero. */
  lemma CDivRoundsTowardZero()
    ensures CDiv(-1500, 1000) == -1
    ensures -1500 / 1000 == -2
  {
  }
}
