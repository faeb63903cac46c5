/** The C integer types the firmware uses, its truncating division, its narrowing casts, and missing values. */
module CIntegers {

  const TWO_16: int := 0x1_0000
  const TWO_31: int := 0x8000_0000
  const TWO_32: int := 0x1_0000_0000
  const TWO_63: int := 0x8000_0000_0000_0000
  const TWO_64: int := 0x1_0000_0000_0000_0000

  type uint8 = x: int | 0 <= x < 0x100
  type uint16 = x: int | 0 <= x < 0x1_0000
  type uint32 = x: int | 0 <= x < 0x1_0000_0000
  type int16 = x: int | -0x8000 <= x < 0x8000
  type int32 = x: int | -0x8000_0000 <= x < 0x8000_0000

  // The 64-bit types are newtypes, so that every single operation on them must be shown to stay
  // in range: a method that computes with them cannot overflow anywhere.
  newtype int64 = x: int | -0x8000_0000_0000_0000 <= x < 0x8000_0000_0000_0000
  newtype uint64 = x: int | 0 <= x < 0x1_0000_0000_0000_0000

  /** A value that may be missing: None where the C code has NULL. */
  datatype Option<T> = None | Some(value: T)

  /** Division as in C: the quotient is rounded toward zero. */
  function TruncDiv(n: int, d: int): int
    requires d > 0
  {
    if n >= 0 then n / d else -(-n / d)
  }

  function Min(a: int, b: int): int {
    if a < b then a else b
  }

  function Max(a: int, b: int): int {
    if a < b then b else a
  }

  function Abs(x: int): nat {
    if x < 0 then -x else x
  }

  /** A signed value stored in an unsigned 16-bit or 32-bit object. */
  function ToUint16(x: int): uint16 {
    x % TWO_16
  }

  function ToUint32(x: int): uint32 {
    x % TWO_32
  }

  /** Two's complement reading of the low 16 or 32 bits. */
  function ToInt16(x: int): int16 {
    var w := x % TWO_16;
    if w < 0x8000 then w else w - TWO_16
  }

  function ToInt32(x: int): int32 {
    var w := x % TWO_32;
    if w < TWO_31 then w else w - TWO_32
  }

  /** A 32-bit counter counts modulo 2^32. */
  lemma CountOneMore(n: int)
    ensures ToUint32(n % TWO_32 + 1) == (n + 1) % TWO_32
  {
  }

  /** A 16-bit number counts modulo 2^16. */
  lemma NumberOneMore(n: nat)
    ensures ToUint16(n % TWO_16 + 1) == (n + 1) % TWO_16
  {
  }

  lemma MulMonotone(a: int, b: int, c: int)
    requires a <= b && c >= 0
    ensures a * c <= b * c
  {
  }

  /** The quotient and the remainder of a non-negative number. */
  lemma DivParts(n: int, d: int)
    requires n >= 0 && d > 0
    ensures 0 <= n / d <= n && (n / d) * d <= n < (n / d) * d + d
  {
    var q := n / d;
    assert n == q * d + n % d;
    MulMonotone(1, d, if q >= 0 then q else 0);
  }

  /** Truncating division keeps the sign, shrinks the magnitude and loses less than one unit. */
  lemma TruncDivBounds(n: int, d: int)
    requires d > 0
    ensures n >= 0 ==> 0 <= TruncDiv(n, d) <= n && TruncDiv(n, d) * d <= n < TruncDiv(n, d) * d + d
    ensures n <= 0 ==> n <= TruncDiv(n, d) <= 0 && TruncDiv(n, d) * d - d < n <= TruncDiv(n, d) * d
  {
    if n >= 0 {
      DivParts(n, d);
    } else {
      DivParts(-n, d);
      var q := -n / d;
      assert (-q) * d == -(q * d);
    }
  }

  lemma TruncDivMonotone(m: int, n: int, d: int)
    requires d > 0 && 0 <= m <= n
    ensures TruncDiv(m, d) <= TruncDiv(n, d)
  {
    DivParts(m, d);
    DivParts(n, d);
    var p, q := m / d, n / d;
    assert p > q ==> p * d >= q * d + d by {
      if p > q {
        MulMonotone(q + 1, p, d);
      }
    }
  }
}
