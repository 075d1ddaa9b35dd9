/**
 * Byte-level vocabulary shared by the container and file-system models:
 * the byte type, an optional value, bounded reads and writes over a byte
 * buffer, and the small pieces of C integer arithmetic the sources rely on.
 */
module Common {

  /** An unsigned 8-bit value (C `uint8_t` / `unsigned char`). */
  type byte = x: int | 0 <= x < 256

  datatype Option<T> = None | Some(value: T)

  function Min(a: int, b: int): int { if a <= b then a else b }

  function Max(a: int, b: int): int { if a <= b then b else a }

  /** 2^n */
  function Pow2(n: nat): (r: nat)
    ensures r >= 1
  {
    if n == 0 then 1 else 2 * Pow2(n - 1)
  }

  /**
   * Ceiling division. The sources' `SHIFTH(x, n)` macro is modelled as
   * CeilDiv(x, 2^n), the reading that agrees with the explicit `(x + 7) >> 3`
   * the sources use elsewhere.
   */
  function CeilDiv(x: nat, d: nat): (r: nat)
    requires d > 0
    ensures r * d >= x
    ensures r == 0 || (r - 1) * d < x
  {
    (x + d - 1) / d
  }

  /** C `%` on ints: the remainder takes the sign of the dividend. */
  function CRem(a: int, b: int): (r: int)
    requires b > 0
    ensures a >= 0 ==> r == a % b
    ensures -b < r < b
  {
    if a >= 0 then a % b else -((-a) % b)
  }

  /**
   * The byte at position k of a buffer. Positions outside the buffer are
   * undefined behaviour in C; the model reads them as 0.
   */
  function At(s: seq<byte>, k: int): byte
  {
    if 0 <= k < |s| then s[k] else 0
  }

  /** The n bytes starting at off (a `memcpy` out of the buffer). */
  function Slice(s: seq<byte>, off: int, n: nat): (r: seq<byte>)
    ensures |r| == n
    ensures 0 <= off && off + n <= |s| ==> r == s[off..off + n]
  {
    if 0 <= off && off + n <= |s| then s[off..off + n]
    else seq<byte>(n, k requires 0 <= k < n => At(s, off + k))
  }

  /** Byte k of a slice is byte off + k of the buffer, or 0 past its end. */
  lemma SliceAt(s: seq<byte>, off: int, n: nat)
    ensures forall k :: 0 <= k < n ==> Slice(s, off, n)[k] == At(s, off + k)
  {
  }

  /**
   * A `memcpy` into the buffer at off. A copy that would run past the end
   * of the buffer is undefined behaviour in C; the model leaves the buffer
   * unchanged then.
   */
  function Overwrite(s: seq<byte>, off: int, data: seq<byte>): (r: seq<byte>)
    ensures |r| == |s|
  {
    if 0 <= off && off + |data| <= |s|
    then seq(|s|, k requires 0 <= k < |s| => if off <= k < off + |data| then data[k - off] else s[k])
    else s
  }

  /**
   * A copy that fits puts data at off and leaves every other byte alone; one
   * that does not fit changes nothing.
   */
  lemma OverwriteAt(s: seq<byte>, off: int, data: seq<byte>)
    ensures var r := Overwrite(s, off, data);
      (0 <= off && off + |data| <= |s| ==>
        (forall k :: 0 <= k < |data| ==> r[off + k] == data[k]) &&
        (forall k :: 0 <= k < |s| && !(off <= k < off + |data|) ==> r[k] == s[k])) &&
      (!(0 <= off && off + |data| <= |s|) ==> r == s)
  {
  }

  /** n zero bytes (what `memset(…, 0, n)` leaves). */
  function Zeros(n: nat): (r: seq<byte>)
    ensures |r| == n
  {
    seq(n, _ => 0)
  }

  /** The bytes of an ASCII string literal. */
  function Ascii(s: string): (r: seq<byte>)
    requires forall i :: 0 <= i < |s| ==> s[i] as int < 256
    ensures |r| == |s|
    ensures forall i :: 0 <= i < |s| ==> r[i] == s[i] as int
  {
    seq<byte>(|s|, i requires 0 <= i < |s| => s[i] as int)
  }

  /** C `toupper` in the "C" locale: only 'a'..'z' change. */
  function ToUpper(c: byte): (r: byte)
    ensures 'a' as int <= c <= 'z' as int ==> r == c - 32
    ensures !('a' as int <= c <= 'z' as int) ==> r == c
  {
    if 'a' as int <= c <= 'z' as int then c - 32 else c
  }

  /** True when no byte of the string is a lower-case ASCII letter. */
  predicate NoLowerCase(s: seq<byte>)
  {
    forall i :: 0 <= i < |s| ==> !('a' as int <= s[i] <= 'z' as int)
  }

  /** The little-endian value of a byte pair. */
  function LE16(lo: byte, hi: byte): (r: nat)
    ensures r < 65536
  {
    lo + 256 * hi
  }

  /** q * n + r divided by n, for a remainder r below n. */
  lemma ModOfMultiplePlus(q: nat, n: nat, r: nat)
    requires r < n
    ensures (q * n + r) % n == r && (q * n + r) / n == q
  {
    DivModUnique(q * n + r, n, q, r);
  }

  /** Euclidean division has one quotient and remainder. */
  lemma DivModUnique(a: int, n: int, d: int, m: int)
    requires n > 0 && 0 <= m < n && a == d * n + m
    ensures a % n == m && a / n == d
  {
    var d0, m0 := a / n, a % n;
    assert a == n * d0 + m0;
    assert n * (d - d0) == m0 - m;
    if d - d0 >= 1 {
      MulAtLeast(n, d - d0);
    } else if d - d0 <= -1 {
      MulAtLeast(n, d0 - d);
    }
  }

  lemma MulAtLeast(n: int, k: int)
    requires n > 0 && k >= 1
    ensures n * k >= n
  {
  }


  /** Reducing the left operand first does not change a sum's remainder. */
  lemma ModAddLeft(a: nat, b: nat, m: nat)
    requires m > 0
    ensures (a % m + b) % m == (a + b) % m
  {
    var q, r := a / m, a % m;
    var q2, r2 := (r + b) / m, (r + b) % m;
    assert a + b == (q + q2) * m + r2;
    ModOfMultiplePlus(q + q2, m, r2);
  }
}
