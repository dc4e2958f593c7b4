/**
 * Machine types, Go's bit operations on them, and the failure wrappers shared
 * by the packet model.
 *
 * Go's fixed-width unsigned integers are integers in their range; the bit
 * operations the encoder uses are written out as arithmetic on those integers.
 */
module Common {

  /** A Go `byte`. */
  newtype byte = x: int | 0 <= x < 0x100

  /** A Go `uint16` (packet identifiers, keep-alive, 2-byte lengths). */
  newtype uint16 = x: int | 0 <= x < 0x1_0000

  /** A Go `uint32`; arithmetic on it is checked, so every use proves it does not wrap. */
  newtype uint32 = x: int | 0 <= x < 0x1_0000_0000

  const Two32: int := 0x1_0000_0000

  /** Go's `uint32(n)` conversion: keeps the low 32 bits. */
  function ToUint32(n: nat): (r: uint32)
    ensures n < Two32 ==> r as int == n
  {
    (n % Two32) as uint32
  }

  /** Go's `uint16(n)` conversion: keeps the low 16 bits. */
  function ToUint16(n: nat): (r: uint16)
    ensures n < 0x1_0000 ==> r as int == n
  {
    (n % 0x1_0000) as uint16
  }

  /** Truncating to 16 bits keeps the low byte. */
  lemma ToUint16LowByte(n: nat)
    ensures ToUint16(n) as int % 0x100 == n % 0x100
  {
    var a, m := n / 0x1_0000, n % 0x1_0000;
    DivUnique(n, 0x100, 0x100 * a + m / 0x100, m % 0x100);
  }

  /**
   * Go's `byte(x)` conversion of an `int`: keeps the low 8 bits. Dafny's `%`
   * is Euclidean, which gives the two's-complement low byte for negative `x` too.
   */
  function ToByte(x: int): (r: byte)
    ensures 0 <= x < 0x100 ==> r as int == x
  {
    (x % 0x100) as byte
  }

  function Pow2(k: nat): (r: nat)
    ensures r >= 1
  {
    if k == 0 then 1 else 2 * Pow2(k - 1)
  }

  /** Bitwise OR of the low `width` bits of `a` and `b`. */
  function OrBits(a: nat, b: nat, width: nat): (r: nat)
    ensures r < Pow2(width)
    decreases width
  {
    if width == 0 then 0
    else 2 * OrBits(a / 2, b / 2, width - 1) + (if a % 2 == 1 || b % 2 == 1 then 1 else 0)
  }

  /** Go's `a | b` on bytes. */
  function Or(a: byte, b: byte): byte
  {
    assert Pow2(8) == 0x100;
    OrBits(a as nat, b as nat, 8) as byte
  }

  /** The low `k` bits of `b` are all zero. */
  predicate LowZero(b: nat, k: nat)
    decreases k
  {
    k == 0 || (b % 2 == 0 && LowZero(b / 2, k - 1))
  }

  /** OR-ing a number below 2^k with one whose low k bits are zero adds them: their bits do not overlap. */
  lemma {:induction false} OrBitsDisjoint(a: nat, b: nat, k: nat, w: nat)
    requires k <= w && a < Pow2(k) && LowZero(b, k) && b < Pow2(w)
    ensures OrBits(a, b, w) == a + b
    decreases w
  {
    if w > 0 {
      if k == 0 {
        OrBitsDisjoint(0, b / 2, 0, w - 1);
      } else {
        OrBitsDisjoint(a / 2, b / 2, k - 1, w - 1);
      }
    }
  }

  /** A multiple of 16 has its low nibble clear. */
  lemma LowNibbleZero(b: nat)
    requires b % 16 == 0
    ensures LowZero(b, 4)
  {
    var b1 := b / 2;
    var b2 := b1 / 2;
    var b3 := b2 / 2;
    assert b % 2 == 0 && b1 % 2 == 0 && b2 % 2 == 0 && b3 % 2 == 0;
    assert LowZero(b3 / 2, 0);
    assert LowZero(b3, 1);
    assert LowZero(b2, 2);
    assert LowZero(b1, 3);
  }

  lemma {:induction false} OrBitsCommutes(a: nat, b: nat, w: nat)
    ensures OrBits(a, b, w) == OrBits(b, a, w)
    decreases w
  {
    if w > 0 { OrBitsCommutes(a / 2, b / 2, w - 1); }
  }

  /** Go's `|` on bytes is commutative. */
  lemma OrCommutes(a: byte, b: byte)
    ensures Or(a, b) == Or(b, a)
  {
    OrBitsCommutes(a as nat, b as nat, 8);
  }

  /** Setting bit 7 of a byte below 0x80 adds 0x80. */
  lemma OrHighBit(a: byte)
    requires a < 0x80
    ensures Or(a, 0x80) as int == a as int + 0x80
  {
    assert Pow2(7) == 0x80;
    assert LowZero(0x80, 7) by {
      assert LowZero(1, 0);
      assert LowZero(2, 1) && LowZero(4, 2) && LowZero(8, 3) && LowZero(16, 4);
      assert LowZero(32, 5) && LowZero(64, 6);
    }
    OrDisjoint(a, 0x80, 7);
  }

  /** Go's `a | b` is `a + b` when `a` lies below bit k and `b` has no bit below k. */
  lemma OrDisjoint(a: byte, b: byte, k: nat)
    requires k <= 8 && a as int < Pow2(k) && LowZero(b as nat, k)
    ensures Or(a, b) as int == a as int + b as int
  {
    assert Pow2(8) == 0x100;
    OrBitsDisjoint(a as nat, b as nat, k, 8);
  }

  /** OR-ing zero into a byte, on either side, leaves it unchanged. */
  lemma OrZero(a: byte)
    ensures Or(0, a) == a && Or(a, 0) == a
  {
    assert Pow2(0) == 1;
    OrDisjoint(0, a, 0);
    OrCommutes(0, a);
  }

  /** Go's `x & bit != 0` for a single-bit mask `bit` (a power of two). */
  predicate HasBit(x: int, bit: nat)
    requires x >= 0 && bit > 0
  {
    (x / bit) % 2 == 1
  }

  /** A number written as `lo + p * (b + 2 * hi)`, with `lo` below `p` and `b` a bit, has `b` at position `p`. */
  lemma BitAt(f: int, lo: int, b: int, hi: int, p: int)
    requires p > 0 && 0 <= lo < p && 0 <= b <= 1 && hi >= 0 && f == lo + p * (b + 2 * hi)
    ensures f >= 0 && (f / p) % 2 == b
  {
    DivUnique(f, p, b + 2 * hi, lo);
  }

  /** Division is unique: `q * p + lo` with `0 <= lo < p` divides by `p` to `q`. */
  lemma DivUnique(f: int, p: int, q: int, lo: int)
    requires p > 0 && 0 <= lo < p && f == lo + p * q
    ensures f / p == q
  {
    var d, m := f / p, f % p;
    assert f == p * d + m && 0 <= m < p;
    assert p * (q - d) == m - lo;
    if q - d >= 1 {
      MulAtLeast(p, q - d);
    } else if d - q >= 1 {
      MulAtLeast(p, d - q);
    }
  }

  lemma {:induction false} MulAtLeast(p: int, k: int)
    requires p > 0 && k >= 1
    ensures p * k >= p
    decreases k
  {
    if k > 1 {
      MulAtLeast(p, k - 1);
      assert p * k == p * (k - 1) + p;
    }
  }

  /** Go's `x & 0xF0` on a uint16: bits 7-4 of x, in place. */
  function MaskF0(x: uint16): (r: byte)
    ensures r as int == x as int % 0x100 - x as int % 0x10
  {
    LowByteNibbles(x as int);
    ((x as int / 0x10) % 0x10 * 0x10) as byte
  }

  /** The low byte of `x` is its second nibble times 16 plus its first nibble. */
  lemma LowByteNibbles(x: int)
    requires x >= 0
    ensures 0 <= (x / 0x10) % 0x10 * 0x10 < 0x100
    ensures x % 0x100 == (x / 0x10) % 0x10 * 0x10 + x % 0x10
  {
    var q, m := x / 0x10, x % 0x10;
    var lo := 0x10 * (q % 0x10) + m;
    assert x == 0x100 * (q / 0x10) + lo;
    DivUnique(x, 0x100, q / 0x10, lo);
  }

  /** Go's `x & 0x0F` on a uint16: bits 3-0 of x. */
  function Mask0F(x: uint16): (r: byte)
    ensures r < 0x10
  {
    (x as int % 0x10) as byte
  }

  datatype Option<+T> = None | Some(value: T)

  datatype Result<+R, +E> = Success(value: R) | Failure(error: E)

  /** The errors the encoder and the remaining-length decoder report. */
  datatype Error =
    | EOF                        // io.EOF from reading an exhausted buffer
    | MalformedRemainingLength   // "Malformed remaining length"
    | GobFailure(reason: string) // the payload serialiser refused the value
}
