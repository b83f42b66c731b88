/** Types shared by every part of the model. */
module Common {

  /** An unsigned 8-bit value (`uint8_t`, `unsigned char`). */
  type Byte = b: int | 0 <= b < 256

  /** A C `char`, represented by its unsigned byte value. */
  type CChar = c: char | c as int < 256

  const NUL: CChar := '\0'

  /** The conventional Some/None datatype, used for "may write nothing" and "may fail". */
  datatype Option<+T> = None | Some(value: T)

  /** The range of a C `int` on the targets the sources are built for. */
  const INT_MIN: int := -0x8000_0000
  const INT_MAX: int := 0x7FFF_FFFF

  predicate InInt32(x: int) {
    INT_MIN <= x <= INT_MAX
  }

  function Min(a: int, b: int): int {
    if a <= b then a else b
  }

  predicate IsDigit(c: char) {
    '0' <= c <= '9'
  }

  function DigitValue(c: char): int
    requires IsDigit(c)
  {
    c as int - '0' as int
  }

  function DigitChar(d: int): CChar
    requires 0 <= d < 10
  {
    (d + '0' as int) as char
  }

  /** Decimal text of a natural number, most significant digit first, no leading zeros. */
  function Digits(n: nat): (s: seq<CChar>)
    ensures 1 <= |s|
    ensures forall i :: 0 <= i < |s| ==> IsDigit(s[i])
    decreases n
  {
    if n < 10 then [DigitChar(n)] else Digits(n / 10) + [DigitChar(n % 10)]
  }

  /** Decimal text of an integer, with a leading '-' for negative values. */
  function Decimal(v: int): (s: seq<CChar>)
    ensures 1 <= |s|
  {
    if v < 0 then ['-'] + Digits(-v) else Digits(v)
  }

  /** Value of a string of decimal digits. */
  function DigitsValue(s: seq<char>): nat
    requires forall i :: 0 <= i < |s| ==> IsDigit(s[i])
  {
    if |s| == 0 then 0 else 10 * DigitsValue(s[..|s| - 1]) + DigitValue(s[|s| - 1])
  }

  /** Reading `Digits(n)` back gives `n`. */
  lemma {:induction false} DigitsValueOfDigits(n: nat)
    ensures DigitsValue(Digits(n)) == n
    decreases n
  {
    if n >= 10 {
      var s := Digits(n);
      assert s[..|s| - 1] == Digits(n / 10);
      DigitsValueOfDigits(n / 10);
    }
  }

  /** The C string `s` read at index `i`: characters past the end read as the terminator. */
  function At(s: seq<CChar>, i: nat): CChar {
    if i < |s| then s[i] else NUL
  }

  /** A C string buffer: the text before its first NUL. */
  predicate NoNul(s: seq<CChar>) {
    forall i :: 0 <= i < |s| ==> s[i] != NUL
  }

  /** `s` read back to front. */
  function Reverse<T>(s: seq<T>): (r: seq<T>)
    ensures |r| == |s|
    ensures forall i :: 0 <= i < |s| ==> r[i] == s[|s| - 1 - i]
  {
    seq(|s|, i requires 0 <= i < |s| => s[|s| - 1 - i])
  }

  /** Length of the longest common prefix of `a` and `b`. */
  function CommonPrefix<T(==)>(a: seq<T>, b: seq<T>): (k: nat)
    ensures k <= |a| && k <= |b| && a[..k] == b[..k]
    ensures k < |a| && k < |b| ==> a[k] != b[k]
    decreases |a|
  {
    if |a| > 0 && |b| > 0 && a[0] == b[0] then
      var k := 1 + CommonPrefix(a[1..], b[1..]);
      assert a[..k] == [a[0]] + a[1..][..k - 1];
      assert b[..k] == [b[0]] + b[1..][..k - 1];
      k
    else 0
  }

  /** The common prefix is the only index where the agreement ends. */
  lemma CommonPrefixUnique<T>(a: seq<T>, b: seq<T>, k: nat)
    requires k <= |a| && k <= |b| && a[..k] == b[..k]
    requires k < |a| && k < |b| ==> a[k] != b[k]
    ensures k == CommonPrefix(a, b)
  {
  }

  // Arithmetic facts about row-major indexing, used by the renderers.

  lemma MulDivMod(q: int, r: int, d: int)
    requires d > 0 && q >= 0 && 0 <= r < d
    ensures (q * d + r) / d == q && (q * d + r) % d == r
  {
    var x := q * d + r;
    var a := x / d - q;
    assert a * d == r - x % d;
  }

  lemma MulMonotone(a: int, b: int, c: int)
    requires 0 <= a <= b && 0 <= c
    ensures a * c <= b * c
  {
    assert b * c - a * c == (b - a) * c;
  }

  lemma RowMajorBound(y: int, x: int, h: int, w: int)
    requires 0 <= y < h && 0 <= x < w
    ensures 0 <= y * w + x < h * w
  {
    MulMonotone(y + 1, h, w);
    assert (y + 1) * w == y * w + w;
  }

  lemma DivLessThan(x: int, c: int, n: int)
    requires c > 0 && 0 <= x < n * c
    ensures x / c < n
  {
    if x / c >= n {
      MulMonotone(n, x / c, c);
    }
  }
}
