/**
 * The freestanding kernel's hand-written string routines. Buffers are sequences; a
 * routine that writes returns the whole buffer after the call. A C string is the text
 * of a buffer up to its first NUL.
 */
module StringLib {
  import opened Common

  // ---------------------------------------------------------------------------
  // C strings inside buffers

  /** The buffer holds a NUL, so a C string can be read from its start. */
  predicate Terminated(s: seq<CChar>) {
    exists i :: 0 <= i < |s| && s[i] == NUL
  }

  /**
   * The characters a scan bounded by `n` sees: at most `n` of them, stopping before the
   * first NUL and at the end of the buffer.
   */
  function Upto(s: seq<CChar>, n: nat): (t: seq<CChar>)
    ensures |t| <= n && |t| <= |s| && t == s[..|t|] && NoNul(t)
    ensures |t| < n && |t| < |s| ==> s[|t|] == NUL
    decreases n
  {
    if n == 0 || |s| == 0 || s[0] == NUL then []
    else
      var t := [s[0]] + Upto(s[1..], n - 1);
      assert s[..|t|] == [s[0]] + s[1..][..|t| - 1];
      t
  }

  /** The C string stored in a terminated buffer. */
  function Text(s: seq<CChar>): (t: seq<CChar>)
    requires Terminated(s)
    ensures |t| < |s| && s[|t|] == NUL && t == s[..|t|] && NoNul(t)
  {
    Upto(s, |s|)
  }

  /** A NUL-free prefix of a terminated buffer cannot run past its string. */
  lemma NoNulPrefixInText(s: seq<CChar>, i: nat)
    requires Terminated(s) && i <= |s| && NoNul(s[..i])
    ensures i <= |Text(s)|
  {
  }

  /** Reading the buffer where the bounded scan reads gives its character, or NUL where it stopped. */
  lemma {:induction false} UptoAt(s: seq<CChar>, n: nat, i: nat)
    requires i < n && i < |s| && NoNul(s[..i])
    ensures i <= |Upto(s, n)| && At(Upto(s, n), i) == s[i]
    decreases i
  {
    if i > 0 {
      assert s[1..][..i - 1] == s[..i][1..];
      UptoAt(s[1..], n - 1, i - 1);
    }
  }

  lemma {:induction false} UptoFull(s: seq<CChar>, n: nat)
    requires n <= |s| && NoNul(s[..n])
    ensures Upto(s, n) == s[..n]
    decreases n
  {
    if n > 0 {
      assert s[1..][..n - 1] == s[..n][1..];
      UptoFull(s[1..], n - 1);
    }
  }

  /**
   * The comparison result of two strings: the unsigned difference of the characters at the
   * first position where they disagree, a terminator counting as 0.
   */
  function Diff(a: seq<CChar>, b: seq<CChar>): int {
    var k := CommonPrefix(a, b);
    At(a, k) as int - At(b, k) as int
  }

  /** For strings without NULs the difference is 0 exactly when they are equal. */
  lemma DiffZeroIffEqual(a: seq<CChar>, b: seq<CChar>)
    requires NoNul(a) && NoNul(b)
    ensures Diff(a, b) == 0 <==> a == b
  {
    var k := CommonPrefix(a, b);
    if k == |a| && k == |b| {
      assert a == a[..k] && b == b[..k];
    }
  }

  // ---------------------------------------------------------------------------
  // Memory routines

  /** Copies the first `n` bytes of `src` over `dest`. */
  method Memcpy(dest: seq<Byte>, src: seq<Byte>, n: nat) returns (d: seq<Byte>)
    requires n <= |dest| && n <= |src|
    ensures |d| == |dest| && d[..n] == src[..n] && d[n..] == dest[n..]
  {
    d := dest;
    var i := 0;
    while i < n
      invariant 0 <= i <= n && |d| == |dest|
      invariant d[..i] == src[..i] && d[i..] == dest[i..]
    {
      d := d[i := src[i]];
      i := i + 1;
    }
  }

  /** Fills the first `n` bytes with `c` converted to an unsigned byte. */
  method Memset(s: seq<Byte>, c: int, n: nat) returns (d: seq<Byte>)
    requires n <= |s|
    ensures |d| == |s| && d[n..] == s[n..]
    ensures forall i :: 0 <= i < n ==> d[i] == c % 256
  {
    d := s;
    var i := 0;
    while i < n
      invariant 0 <= i <= n && |d| == |s| && d[i..] == s[i..]
      invariant forall k :: 0 <= k < i ==> d[k] == c % 256
    {
      d := d[i := c % 256];
      i := i + 1;
    }
  }

  // ---------------------------------------------------------------------------
  // String routines

  /** Length of the C string: the index of the first NUL. */
  method Strlen(s: seq<CChar>) returns (len: nat)
    requires Terminated(s)
    ensures len < |s| && s[len] == NUL
    ensures forall i :: 0 <= i < len ==> s[i] != NUL
    ensures len == |Text(s)|
  {
    len := 0;
    while s[len] != NUL
      invariant len <= |Text(s)|
      decreases |Text(s)| - len
    {
      len := len + 1;
    }
  }

  /** Lexicographic comparison of two C strings by unsigned character value. */
  method Strcmp(s1: seq<CChar>, s2: seq<CChar>) returns (r: int)
    requires Terminated(s1) && Terminated(s2)
    ensures r == Diff(Text(s1), Text(s2))
    ensures r == 0 <==> Text(s1) == Text(s2)
  {
    var t1, t2 := Text(s1), Text(s2);
    var i := 0;
    while s1[i] != NUL && s1[i] == s2[i]
      invariant i <= |t1| && i <= |t2| && t1[..i] == t2[..i]
      decreases |t1| - i
    {
      i := i + 1;
    }
    CommonPrefixUnique(t1, t2, i);
    r := s1[i] as int - s2[i] as int;
    DiffZeroIffEqual(t1, t2);
  }

  /** The scan may read position `i` of `s` when it has seen no NUL before it. */
  predicate Readable(s: seq<CChar>, n: nat) {
    Terminated(s) || n <= |s|
  }

  /** A scan that has seen no NUL before position `i < n` may read position `i`. */
  lemma ReadableAt(s: seq<CChar>, n: nat, i: nat)
    requires Readable(s, n) && i < n && i <= |s| && NoNul(s[..i])
    ensures i < |s|
  {
    if n > |s| {
      NoNulPrefixInText(s, i);
    }
  }

  /** Where the bounded comparison stops early, its result is the difference there. */
  lemma BoundedDiffAt(s1: seq<CChar>, s2: seq<CChar>, n: nat, i: nat)
    requires i < n && i < |s1| && i < |s2| && s1[..i] == s2[..i] && NoNul(s1[..i])
    requires s1[i] != s2[i] || s1[i] == NUL
    ensures Diff(Upto(s1, n), Upto(s2, n)) == s1[i] as int - s2[i] as int
  {
    UptoAt(s1, n, i);
    UptoAt(s2, n, i);
    var u1, u2 := Upto(s1, n), Upto(s2, n);
    assert u1[..i] == s1[..i] && u2[..i] == s2[..i];
    CommonPrefixUnique(u1, u2, i);
  }

  /** Comparison of at most `n` characters, stopping at the first terminator. */
  method Strncmp(s1: seq<CChar>, s2: seq<CChar>, n: nat) returns (r: int)
    requires Readable(s1, n) && Readable(s2, n)
    ensures r == Diff(Upto(s1, n), Upto(s2, n))
    ensures r == 0 <==> Upto(s1, n) == Upto(s2, n)
  {
    DiffZeroIffEqual(Upto(s1, n), Upto(s2, n));
    var i := 0;
    while i < n
      invariant 0 <= i <= n && i <= |s1| && i <= |s2|
      invariant s1[..i] == s2[..i] && NoNul(s1[..i])
    {
      ReadableAt(s1, n, i);
      ReadableAt(s2, n, i);
      if s1[i] != s2[i] || s1[i] == NUL || s2[i] == NUL {
        BoundedDiffAt(s1, s2, n, i);
        return s1[i] as int - s2[i] as int;
      }
      assert s1[..i + 1] == s1[..i] + [s1[i]];
      assert s2[..i + 1] == s2[..i] + [s2[i]];
      i := i + 1;
    }
    UptoFull(s1, n);
    UptoFull(s2, n);
    return 0;
  }

  /** Copies the string of `src` and its terminator to the start of `dest`. */
  method Strcpy(dest: seq<CChar>, src: seq<CChar>) returns (d: seq<CChar>)
    requires Terminated(src) && |Text(src)| < |dest|
    ensures |d| == |dest|
    ensures d[..|Text(src)| + 1] == Text(src) + [NUL]
    ensures d[|Text(src)| + 1..] == dest[|Text(src)| + 1..]
  {
    var t := Text(src);
    d := dest;
    var i := 0;
    while true
      invariant i <= |t| && |d| == |dest|
      invariant d[..i] == t[..i] && d[i..] == dest[i..]
      decreases |t| - i
    {
      d := d[i := src[i]];
      if src[i] == NUL {
        break;
      }
      i := i + 1;
    }
  }

  /** `k` NUL characters. */
  function Nuls(k: nat): (z: seq<CChar>)
    ensures |z| == k && forall i :: 0 <= i < k ==> z[i] == NUL
  {
    seq(k, _ => NUL)
  }

  /**
   * Writes exactly `n` characters: the string of `src` cut to `n`, then NULs. When the
   * string has `n` or more characters the result carries no terminator.
   */
  method Strncpy(dest: seq<CChar>, src: seq<CChar>, n: nat) returns (d: seq<CChar>)
    requires n <= |dest| && Readable(src, n)
    ensures |d| == |dest| && d[n..] == dest[n..]
    ensures d[..n] == Upto(src, n) + Nuls(n - |Upto(src, n)|)
    ensures NoNul(d[..n]) <==> |Upto(src, n)| == n
  {
    var u := Upto(src, n);
    var i;
    d, i := CopyUpto(dest, src, n);
    while i < n
      invariant |u| <= i <= n && |d| == |dest|
      invariant d[..i] == u + Nuls(i - |u|) && d[i..] == dest[i..]
    {
      d := d[i := NUL];
      i := i + 1;
    }
    if |u| < n {
      assert d[..n][|u|] == NUL;
    }
  }

  /** The copying loop of `strncpy`: characters of `src` until its NUL or until `n` are copied. */
  method CopyUpto(dest: seq<CChar>, src: seq<CChar>, n: nat) returns (d: seq<CChar>, i: nat)
    requires n <= |dest| && Readable(src, n)
    ensures i == |Upto(src, n)| && |d| == |dest|
    ensures d[..i] == Upto(src, n) && d[i..] == dest[i..]
  {
    ghost var u := Upto(src, n);
    d := dest;
    i := 0;
    while i < n && src[i] != NUL
      invariant 0 <= i <= |u| && |d| == |dest|
      invariant d[..i] == u[..i] && d[i..] == dest[i..]
    {
      if Terminated(src) {
        NoNulPrefixInText(src, i);
      }
      UptoAt(src, n, i);
      d := d[i := src[i]];
      i := i + 1;
    }
    if i < n {
      UptoAt(src, n, i);
    }
  }

  // ---------------------------------------------------------------------------
  // Integer formatting

  /** Ten to the power `k`. */
  function Pow10(k: nat): nat {
    if k == 0 then 1 else 10 * Pow10(k - 1)
  }

  /** Values `int_to_str` is defined for: every `int` but the one whose negation overflows. */
  predicate Formattable(v: int) {
    InInt32(v) && v != INT_MIN
  }

  /** A formattable value has at most ten digits, so its text has at most eleven characters. */
  lemma {:induction false} DigitsBound(n: nat, k: nat)
    requires n < Pow10(k)
    ensures |Digits(n)| <= k || (k == 0 && |Digits(n)| == 1)
    decreases k
  {
    if k > 0 && n >= 10 {
      DigitsBound(n / 10, k - 1);
    }
  }

  lemma DecimalLength(v: int)
    requires Formattable(v)
    ensures |Decimal(v)| <= 11
  {
    var a := if v < 0 then -v else v;
    assert Pow10(10) == 10000000000;
    DigitsBound(a, 10);
  }

  lemma ReverseSnoc(s: seq<CChar>, c: CChar)
    ensures Reverse(s + [c]) == [c] + Reverse(s)
  {
  }

  /**
   * One pass of a digit loop: the lowest digit of `v` moves from the digits still to
   * produce to the front of the digits produced, read in writing order.
   */
  lemma PushDigit(digits: seq<CChar>, v: nat, buffer: seq<CChar>)
    requires digits == Digits(v) + Reverse(buffer)
    ensures v / 10 == 0 ==> digits == Reverse(buffer + [DigitChar(v % 10)])
    ensures v / 10 != 0 ==> digits == Digits(v / 10) + Reverse(buffer + [DigitChar(v % 10)])
  {
    var d := DigitChar(v % 10);
    ReverseSnoc(buffer, d);
    if v >= 10 {
      assert Digits(v) == Digits(v / 10) + [d];
    }
  }

  lemma DivPow10(v: nat, k: nat)
    requires v < Pow10(k + 1)
    ensures v / 10 < Pow10(k)
  {
  }

  /**
   * Formats `value` into a buffer of `size` bytes: the decimal text cut to its first
   * `size - 1` characters, then a terminator. The returned length counts the characters.
   */
  method IntToStr(value: int, size: int) returns (written: seq<CChar>, len: int)
    requires Formattable(value) && 1 <= size <= INT_MAX
    ensures len == Min(|Decimal(value)|, size - 1)
    ensures written == Decimal(value)[..len] + [NUL]
  {
    var negative := value < 0;
    var v: nat := if negative then -value else value;
    ghost var digits := Digits(v);
    assert Pow10(10) == 10000000000;
    var buffer: seq<CChar> := [];
    // the first pass of the do-while loop
    PushDigit(digits, v, buffer);
    DivPow10(v, 9);
    buffer := buffer + [DigitChar(v % 10)];
    v := v / 10;
    while v != 0 && |buffer| < 15
      invariant 1 <= |buffer| <= 10 && v < Pow10(10 - |buffer|)
      invariant v == 0 ==> digits == Reverse(buffer)
      invariant v != 0 ==> digits == Digits(v) + Reverse(buffer)
    {
      PushDigit(digits, v, buffer);
      DivPow10(v, 9 - |buffer|);
      buffer := buffer + [DigitChar(v % 10)];
      v := v / 10;
    }
    if negative {
      ReverseSnoc(buffer, '-');
      buffer := buffer + ['-'];
    }
    assert Reverse(buffer) == Decimal(value);
    var i := |buffer|;
    len := if i < size - 1 then i else size - 1;
    var str := CopyReversed(buffer, len);
    written := str + [NUL];
  }

  /** The copy-out loop: the first `len` characters of the buffer read back to front. */
  method CopyReversed(buffer: seq<CChar>, len: int) returns (str: seq<CChar>)
    requires 0 <= len <= |buffer|
    ensures str == Reverse(buffer)[..len]
  {
    var i := |buffer|;
    str := [];
    var j := 0;
    while j < len
      invariant 0 <= j <= len && str == Reverse(buffer)[..j]
    {
      str := str + [buffer[i - j - 1]];
      j := j + 1;
    }
  }

  // ---------------------------------------------------------------------------
  // snprintf

  /** The format never ends in a lone '%': every '%' has a character after it. */
  predicate WellFormed(t: seq<CChar>)
    decreases |t|
  {
    if |t| == 0 then true
    else if t[0] == '%' then |t| >= 2 && WellFormed(t[2..])
    else WellFormed(t[1..])
  }

  /** Number of "%d" directives in a well-formed format. */
  function Directives(t: seq<CChar>): nat
    requires WellFormed(t)
    decreases |t|
  {
    if |t| == 0 then 0
    else if t[0] == '%' then (if t[1] == 'd' then 1 else 0) + Directives(t[2..])
    else Directives(t[1..])
  }

  predicate AllFormattable(args: seq<int>) {
    forall k :: 0 <= k < |args| ==> Formattable(args[k])
  }

  /**
   * The text the format describes with no size limit: "%d" takes the next argument's
   * decimal text, '%' before any other character stands for both characters, and the
   * rest is copied.
   */
  function Expand(t: seq<CChar>, args: seq<int>): seq<CChar>
    requires WellFormed(t) && Directives(t) <= |args| && AllFormattable(args)
    decreases |t|
  {
    if |t| == 0 then []
    else if t[0] == '%' then
      if t[1] == 'd' then Decimal(args[0]) + Expand(t[2..], args[1..])
      else ['%', t[1]] + Expand(t[2..], args)
    else [t[0]] + Expand(t[1..], args)
  }

  /** A plain character stands for itself. */
  lemma ExpandPlain(r: seq<CChar>, a: seq<int>)
    requires |r| > 0 && r[0] != '%' && WellFormed(r) && Directives(r) <= |a| && AllFormattable(a)
    ensures WellFormed(r[1..]) && Directives(r[1..]) == Directives(r)
    ensures Expand(r, a) == [r[0]] + Expand(r[1..], a)
  {
  }

  /** "%d" stands for the decimal text of the next argument. */
  lemma ExpandDirective(r: seq<CChar>, a: seq<int>)
    requires |r| > 0 && r[0] == '%' && WellFormed(r) && Directives(r) <= |a| && AllFormattable(a)
    requires |r| >= 2 && r[1] == 'd'
    ensures |a| > 0 && WellFormed(r[2..]) && Directives(r[2..]) <= |a[1..]| && AllFormattable(a[1..])
    ensures Expand(r, a) == Decimal(a[0]) + Expand(r[2..], a[1..])
  {
  }

  /** '%' before any other character stands for both characters. */
  lemma ExpandPercent(r: seq<CChar>, a: seq<int>)
    requires |r| > 0 && r[0] == '%' && WellFormed(r) && Directives(r) <= |a| && AllFormattable(a)
    ensures |r| >= 2
    ensures r[1] != 'd' ==> WellFormed(r[2..]) && Directives(r[2..]) == Directives(r)
    ensures r[1] != 'd' ==> Expand(r, a) == ['%', r[1]] + Expand(r[2..], a)
  {
  }

  /** Writes as much of `piece` at `pos` as fits before the last byte of a `size`-byte buffer. */
  method Put(out: seq<CChar>, pos: int, size: int, piece: seq<CChar>) returns (out': seq<CChar>, pos': int)
    requires 0 <= pos <= size - 1 && size <= |out|
    ensures pos' == pos + Min(|piece|, size - 1 - pos)
    ensures |out'| == |out| && out'[..pos'] == out[..pos] + piece[..pos' - pos] && out'[pos'..] == out[pos'..]
  {
    out', pos' := out, pos;
    var j := 0;
    while j < |piece| && pos' < size - 1
      invariant 0 <= j <= |piece| && pos' == pos + j && pos' <= size - 1
      invariant |out'| == |out| && out'[..pos'] == out[..pos] + piece[..j] && out'[pos'..] == out[pos'..]
    {
      out' := out'[pos' := piece[j]];
      pos' := pos' + 1;
      j := j + 1;
    }
  }

  /** Writing a prefix of the next piece keeps the output a prefix of the full expansion. */
  lemma PutKeepsPrefix(e: seq<CChar>, before: seq<CChar>, piece: seq<CChar>, rest: seq<CChar>,
                        out: seq<CChar>, pos: int, size: int)
    requires e == before + piece + rest
    requires pos == |before| + Min(|piece|, size - 1 - |before|) && |before| <= size - 1
    requires |before| <= pos <= |out| && out[..pos] == before + piece[..pos - |before|]
    ensures pos <= |e| && out[..pos] == e[..pos]
    ensures pos < size - 1 ==> e == out[..pos] + rest
  {
    var k := pos - |before|;
    assert e[..|before| + k] == before + piece[..k];
    if pos < size - 1 {
      assert piece[..k] == piece;
    }
  }

  /** A plain character at `i` of the format stands for itself. */
  lemma PlainAt(t: seq<CChar>, args: seq<int>, i: nat, ai: nat)
    requires i < |t| && t[i] != '%' && ai <= |args| && AllFormattable(args)
    requires WellFormed(t[i..]) && Directives(t[i..]) <= |args| - ai
    ensures WellFormed(t[i + 1..]) && Directives(t[i + 1..]) <= |args| - ai
    ensures Expand(t[i..], args[ai..]) == [t[i]] + Expand(t[i + 1..], args[ai..])
  {
    ExpandPlain(t[i..], args[ai..]);
    assert t[i..][1..] == t[i + 1..];
  }

  /** A '%' at `i` of the format has a character after it; with any but 'd' it stands for both. */
  lemma PercentAt(t: seq<CChar>, args: seq<int>, i: nat, ai: nat)
    requires i < |t| && t[i] == '%' && ai <= |args| && AllFormattable(args)
    requires WellFormed(t[i..]) && Directives(t[i..]) <= |args| - ai
    ensures i + 1 < |t|
    ensures t[i + 1] != 'd' ==> WellFormed(t[i + 2..]) && Directives(t[i + 2..]) <= |args| - ai
    ensures t[i + 1] != 'd' ==> Expand(t[i..], args[ai..]) == ['%', t[i + 1]] + Expand(t[i + 2..], args[ai..])
  {
    ExpandPercent(t[i..], args[ai..]);
    assert t[i..][1] == t[i + 1] && t[i..][2..] == t[i + 2..];
  }

  /** A "%d" at `i` of the format takes the next argument's decimal text. */
  lemma DirectiveAt(t: seq<CChar>, args: seq<int>, i: nat, ai: nat)
    requires i + 1 < |t| && t[i] == '%' && t[i + 1] == 'd' && ai <= |args| && AllFormattable(args)
    requires WellFormed(t[i..]) && Directives(t[i..]) <= |args| - ai
    ensures ai < |args| && WellFormed(t[i + 2..]) && Directives(t[i + 2..]) <= |args| - (ai + 1)
    ensures Expand(t[i..], args[ai..]) == Decimal(args[ai]) + Expand(t[i + 2..], args[ai + 1..])
  {
    var r, a := t[i..], args[ai..];
    assert r[1] == t[i + 1] && r[2..] == t[i + 2..];
    ExpandDirective(r, a);
    assert a[1..] == args[ai + 1..];
  }

  /**
   * Reads the format at `i`: a "%d" takes the next argument's text, '%' with any other
   * character stands for both, anything else for itself. Returns the piece and the
   * positions after it.
   */
  method NextPiece(format: seq<CChar>, args: seq<int>, i: nat, ai: nat) returns (piece: seq<CChar>, i': nat, ai': nat)
    requires Terminated(format) && i < |Text(format)| && ai <= |args| && AllFormattable(args)
    requires WellFormed(Text(format)[i..]) && Directives(Text(format)[i..]) <= |args| - ai
    ensures i < i' <= |Text(format)| && ai <= ai' <= |args|
    ensures WellFormed(Text(format)[i'..]) && Directives(Text(format)[i'..]) <= |args| - ai'
    ensures Expand(Text(format)[i..], args[ai..]) == piece + Expand(Text(format)[i'..], args[ai'..])
  {
    ghost var t := Text(format);
    assert format[i] == t[i];
    if format[i] == '%' {
      PercentAt(t, args, i, ai);
      assert format[i + 1] == t[i + 1];
      if format[i + 1] == 'd' {
        DirectiveAt(t, args, i, ai);
        var val := args[ai];
        DecimalLength(val);
        var buf, len := IntToStr(val, 16);
        assert buf[..len] == Decimal(val) by {
          assert Decimal(val)[..len] == Decimal(val);
        }
        piece, i', ai' := buf[..len], i + 2, ai + 1;
      } else {
        piece, i', ai' := ['%', format[i + 1]], i + 2, ai;
      }
    } else {
      PlainAt(t, args, i, ai);
      piece, i', ai' := [format[i]], i + 1, ai;
    }
    assert Expand(t[i..], args[ai..]) == piece + Expand(t[i'..], args[ai'..]);
  }

  /** What holds between passes of the formatting loop. */
  ghost predicate FormatProgress(str: seq<CChar>, size: int, t: seq<CChar>, args: seq<int>,
                                 out: seq<CChar>, pos: int, i: int, ai: int)
  {
    0 <= i <= |t| && 0 <= ai <= |args| && AllFormattable(args) &&
    WellFormed(t) && Directives(t) <= |args| &&
    WellFormed(t[i..]) && Directives(t[i..]) <= |args| - ai &&
    0 <= pos <= size - 1 && size <= |str| && |out| == |str| && out[pos..] == str[pos..] &&
    pos <= |Expand(t, args)| && out[..pos] == Expand(t, args)[..pos] &&
    (pos < size - 1 ==> Expand(t, args) == out[..pos] + Expand(t[i..], args[ai..]))
  }

  /** The output written so far, after one more piece of the expansion `e`. */
  lemma OutputAfterPut(str: seq<CChar>, size: int, e: seq<CChar>, before: seq<CChar>, current: seq<CChar>,
                       piece: seq<CChar>, rest: seq<CChar>, out: seq<CChar>, pos: int, out': seq<CChar>, pos': int)
    requires 0 <= pos < size - 1 && size <= |str| && |out| == |str| && out[pos..] == str[pos..]
    requires before == out[..pos] && e == before + current && current == piece + rest
    requires pos' == pos + Min(|piece|, size - 1 - pos)
    requires |out'| == |out| && out'[..pos'] == before + piece[..pos' - pos] && out'[pos'..] == out[pos'..]
    ensures 0 <= pos' <= size - 1 && |out'| == |str| && out'[pos'..] == str[pos'..]
    ensures pos' <= |e| && out'[..pos'] == e[..pos']
    ensures pos' < size - 1 ==> e == out'[..pos'] + rest
  {
    assert e == before + piece + rest;
    assert out'[pos'..] == str[pos'..] by {
      assert out[pos'..] == out[pos..][pos' - pos..];
    }
    PutKeepsPrefix(e, before, piece, rest, out', pos', size);
  }

  /** Writing what fits of the next piece of the expansion keeps the loop's progress. */
  lemma PassKeepsProgress(str: seq<CChar>, size: int, t: seq<CChar>, args: seq<int>,
                          out: seq<CChar>, pos: int, i: nat, ai: nat, piece: seq<CChar>,
                          out': seq<CChar>, pos': int, i': nat, ai': nat)
    requires FormatProgress(str, size, t, args, out, pos, i, ai) && pos < size - 1
    requires i' <= |t| && ai' <= |args| && WellFormed(t[i'..]) && Directives(t[i'..]) <= |args| - ai'
    requires Expand(t[i..], args[ai..]) == piece + Expand(t[i'..], args[ai'..])
    requires pos' == pos + Min(|piece|, size - 1 - pos)
    requires |out'| == |out| && out'[..pos'] == out[..pos] + piece[..pos' - pos] && out'[pos'..] == out[pos'..]
    ensures FormatProgress(str, size, t, args, out', pos', i', ai')
  {
    var e := Expand(t, args);
    OutputAfterPut(str, size, e, out[..pos], Expand(t[i..], args[ai..]), piece, Expand(t[i'..], args[ai'..]),
                   out, pos, out', pos');
  }

  /** One pass of the formatting loop: read the next piece of the format and write what fits. */
  method FormatPass(str: seq<CChar>, size: int, format: seq<CChar>, args: seq<int>,
                    out: seq<CChar>, pos: int, i: nat, ai: nat)
    returns (out': seq<CChar>, pos': int, i': nat, ai': nat)
    requires Terminated(format) && size <= |str|
    requires FormatProgress(str, size, Text(format), args, out, pos, i, ai)
    requires i < |Text(format)| && pos < size - 1
    ensures FormatProgress(str, size, Text(format), args, out', pos', i', ai')
    ensures i < i'
  {
    var piece;
    piece, i', ai' := NextPiece(format, args, i, ai);
    out', pos' := Put(out, pos, size, piece);
    PassKeepsProgress(str, size, Text(format), args, out, pos, i, ai, piece, out', pos', i', ai');
  }

  /**
   * Formats into a buffer of `size` bytes: the expansion cut to `size - 1` characters and
   * always terminated. The result counts the characters written.
   */
  method Snprintf(str: seq<CChar>, size: int, format: seq<CChar>, args: seq<int>) returns (out: seq<CChar>, pos: int)
    requires 1 <= size <= |str|
    requires Terminated(format) && WellFormed(Text(format))
    requires Directives(Text(format)) <= |args| && AllFormattable(args)
    ensures pos == Min(|Expand(Text(format), args)|, size - 1)
    ensures |out| == |str| && out[..pos] == Expand(Text(format), args)[..pos]
    ensures out[pos] == NUL && out[pos + 1..] == str[pos + 1..]
  {
    ghost var t := Text(format);
    out := str;
    pos := 0;
    var i := 0;
    var ai := 0;
    assert t[0..] == t && args[0..] == args;
    while format[i] != NUL && pos < size - 1
      invariant FormatProgress(str, size, t, args, out, pos, i, ai)
      decreases |t| - i
    {
      out, pos, i, ai := FormatPass(str, size, format, args, out, pos, i, ai);
    }
    if pos < size - 1 {
      assert i == |t| && t[i..] == [];
    }
    out := out[pos := NUL];
  }

  // ---------------------------------------------------------------------------
  // sscanf

  /** Position of the first non-space character at or after `i`. */
  function SkipSpaces(s: seq<CChar>, i: nat): (j: nat)
    ensures i <= j && At(s, j) != ' '
    ensures forall k :: i <= k < j ==> At(s, k) == ' '
    decreases |s| - i
  {
    if At(s, i) == ' ' then SkipSpaces(s, i + 1) else i
  }

  /** Number of consecutive digits starting at `i`. */
  function DigitRun(s: seq<CChar>, i: nat): (r: nat)
    ensures i + r <= |s| || r == 0
    ensures forall k :: i <= k < i + r ==> IsDigit(At(s, k))
    ensures !IsDigit(At(s, i + r))
    decreases |s| - i
  {
    if IsDigit(At(s, i)) then 1 + DigitRun(s, i + 1) else 0
  }

  /** What reading one integer gives: nothing, or its value and the characters it took. */
  datatype Scan = NoNumber | Number(value: int, len: nat)

  /**
   * Reads an optionally negative decimal integer at `i`: `NoNumber` when no digit follows the
   * optional '-', otherwise the value and the number of characters read.
   */
  function ScanInt(s: seq<CChar>, i: nat): (r: Scan)
    ensures r.NoNumber? <==> !IsDigit(At(s, if At(s, i) == '-' then i + 1 else i))
    ensures r.Number? ==> r.len >= 1 && i + r.len <= |s|
  {
    var j := if At(s, i) == '-' then i + 1 else i;
    if !IsDigit(At(s, j)) then NoNumber
    else
      var u := ScanDigits(s, j, 0, 0);
      Number(if At(s, i) == '-' then -u.value else u.value, u.len + (j - i))
  }

  /**
   * The digits from `j` on, read left to right onto the value `acc` of the `len` digits
   * before them.
   */
  function ScanDigits(s: seq<CChar>, j: nat, acc: nat, len: nat): (r: Scan)
    ensures r.Number? && r.len >= len && (IsDigit(At(s, j)) ==> j + r.len - len <= |s| && r.len > len)
    decreases |s| - j
  {
    if IsDigit(At(s, j)) then ScanDigits(s, j + 1, 10 * acc + DigitValue(At(s, j)), len + 1)
    else Number(acc, len)
  }

  /** The digits of `n`, followed by a non-digit, are a digit run of their own length. */
  lemma {:induction false} DigitRunOfDigits(d: seq<CChar>, rest: seq<CChar>, k: nat)
    requires forall x :: 0 <= x < |d| ==> IsDigit(d[x])
    requires !IsDigit(At(rest, 0)) && k <= |d|
    ensures DigitRun(d + rest, k) == |d| - k
    decreases |d| - k
  {
    if k < |d| {
      DigitRunOfDigits(d, rest, k + 1);
    } else {
      assert At(d + rest, k) == At(rest, 0);
    }
  }

  /** Reading digits left to right gives their decimal value and their count. */
  lemma {:induction false} ScanDigitsOfDigits(d: seq<CChar>, rest: seq<CChar>, k: nat)
    requires forall x :: 0 <= x < |d| ==> IsDigit(d[x])
    requires !IsDigit(At(rest, 0)) && k <= |d|
    ensures ScanDigits(d + rest, k, DigitsValue(d[..k]), k) == Number(DigitsValue(d), |d|)
    decreases |d| - k
  {
    var s := d + rest;
    if k < |d| {
      assert At(s, k) == d[k];
      assert d[..k + 1][..k] == d[..k];
      ScanDigitsOfDigits(d, rest, k + 1);
    } else {
      assert At(s, k) == At(rest, 0);
      assert d[..k] == d;
    }
  }

  /** Reading back the digits of a natural number gives the number. */
  lemma ScanIntOfDigits(n: nat, rest: seq<CChar>)
    requires !IsDigit(At(rest, 0))
    ensures ScanInt(Digits(n) + rest, 0) == Number(n, |Digits(n)|)
  {
    var d := Digits(n);
    var s := d + rest;
    assert At(s, 0) == d[0] && IsDigit(At(s, 0));
    assert d[..0] == [];
    ScanDigitsOfDigits(d, rest, 0);
    DigitsValueOfDigits(n);
  }

  /** Reading digits is unaffected by text in front of them. */
  lemma {:induction false} ScanDigitsShift(p: seq<CChar>, s: seq<CChar>, j: nat, acc: nat, len: nat)
    ensures ScanDigits(p + s, |p| + j, acc, len) == ScanDigits(s, j, acc, len)
    decreases |s| - j
  {
    assert At(p + s, |p| + j) == At(s, j);
    if IsDigit(At(s, j)) {
      ScanDigitsShift(p, s, j + 1, 10 * acc + DigitValue(At(s, j)), len + 1);
    }
  }

  /** A '-' in front of a readable number negates it and adds one character. */
  lemma ScanIntMinus(u: seq<CChar>, a: int, k: nat)
    requires IsDigit(At(u, 0)) && ScanInt(u, 0) == Number(a, k)
    ensures ScanInt(['-'] + u, 0) == Number(-a, k + 1)
  {
    var s := ['-'] + u;
    assert At(s, 0) == '-' && At(s, 1) == At(u, 0);
    ScanDigitsShift(['-'], u, 0, 0, 0);
  }

  /** Reading back "-" and the digits of a number gives its negation. */
  lemma ScanIntOfNegative(s: seq<CChar>, n: nat, rest: seq<CChar>)
    requires !IsDigit(At(rest, 0)) && s == ['-'] + (Digits(n) + rest)
    ensures ScanInt(s, 0) == Number(-(n as int), |Digits(n)| + 1)
  {
    var u := Digits(n) + rest;
    ScanIntOfDigits(n, rest);
    assert At(u, 0) == Digits(n)[0];
    ScanIntMinus(u, n, |Digits(n)|);
  }

  /** Reading back the decimal text of an integer gives the integer and consumes the whole text. */
  lemma ScanIntOfDecimal(v: int, rest: seq<CChar>)
    requires !IsDigit(At(rest, 0))
    ensures ScanInt(Decimal(v) + rest, 0) == Number(v, |Decimal(v)|)
  {
    var s := Decimal(v) + rest;
    if v < 0 {
      assert s == ['-'] + (Digits(-v) + rest);
      ScanIntOfNegative(s, -v, rest);
    } else {
      assert s == Digits(v) + rest;
      ScanIntOfDigits(v, rest);
    }
  }

  lemma {:induction false} DigitRunShift(p: seq<CChar>, s: seq<CChar>, k: nat)
    ensures DigitRun(p + s, |p| + k) == DigitRun(s, k)
    decreases |s| - k
  {
    assert At(p + s, |p| + k) == At(s, k);
    if IsDigit(At(s, k)) {
      DigitRunShift(p, s, k + 1);
    }
  }

  /** What `sscanf` fills in for "%d %c %d". */
  datatype Triple = Triple(a: int, op: CChar, b: int)

  /** What the reader gives: nothing, or the triple and the characters it took. */
  datatype Reading = Unread | Read(triple: Triple, consumed: nat)

  /**
   * The "%d %c %d" reader: spaces, an integer, spaces, one operator character taken as it
   * is, spaces, an integer. Positions past the buffer read as NUL.
   */
  function SscanfInternal(s: seq<CChar>): (r: Reading)
    ensures ScanInt(s, SkipSpaces(s, 0)).NoNumber? ==> r == Unread
    ensures var p0 := SkipSpaces(s, 0);
            var first := ScanInt(s, p0);
            first.Number? ==>
              var p1 := SkipSpaces(s, p0 + first.len);
              var p2 := SkipSpaces(s, p1 + 1);
              var second := ScanInt(s, p2);
              (r.Read? <==> second.Number?) &&
              (r.Read? ==> r.triple == Triple(first.value, At(s, p1), second.value) && r.consumed == p2 + second.len)
  {
    var p0 := SkipSpaces(s, 0);
    match ScanInt(s, p0)
    case NoNumber => Unread
    case Number(a, n) => ReadOperatorAndSecond(s, a, p0 + n)
  }

  /**
   * The reader after its first integer `a`, from position `p`: spaces, the operator
   * character, spaces, and the second integer, or nothing when that integer is missing.
   */
  function ReadOperatorAndSecond(s: seq<CChar>, a: int, p: nat): (r: Reading)
    ensures r.Read? ==> r.triple.a == a && r.triple.op == At(s, SkipSpaces(s, p))
    ensures r.Unread? <==> ScanInt(s, SkipSpaces(s, SkipSpaces(s, p) + 1)).NoNumber?
  {
    var p1 := SkipSpaces(s, p);
    var p2 := SkipSpaces(s, p1 + 1);
    match ScanInt(s, p2)
    case NoNumber => Unread
    case Number(b, n2) => Read(Triple(a, At(s, p1), b), p2 + n2)
  }

  /** The only format `sscanf` understands. */
  predicate IsTripleFormat(format: seq<CChar>) {
    At(format, 0) == '%' && At(format, 1) == 'd' && At(format, 2) == ' ' &&
    At(format, 3) == '%' && At(format, 4) == 'c' && At(format, 5) == ' ' &&
    At(format, 6) == '%' && At(format, 7) == 'd'
  }

  /**
   * Reads "%d %c %d": 3 and the three values on success; 0 and the caller's variables as
   * they were for any other format or unreadable input.
   */
  function Sscanf(s: seq<CChar>, format: seq<CChar>, old_: Triple): (r: (int, Triple))
    ensures r.0 == 3 || r.0 == 0
    ensures r.0 == 3 <==> IsTripleFormat(format) && SscanfInternal(s).Read?
    ensures r.0 == 3 ==> r.1 == SscanfInternal(s).triple
    ensures r.0 == 0 ==> r.1 == old_
  {
    if IsTripleFormat(format) then
      match SscanfInternal(s)
      case Read(t, _) => (3, t)
      case Unread => (0, old_)
    else (0, old_)
  }

  /** Scanning integers is unaffected by text in front of the starting point. */
  lemma ScanIntShift(p: seq<CChar>, s: seq<CChar>)
    ensures ScanInt(p + s, |p|) == ScanInt(s, 0)
  {
    var t := p + s;
    assert At(t, |p|) == At(s, 0);
    assert At(t, |p| + 1) == At(s, 1);
    var j := if At(s, 0) == '-' then 1 else 0;
    assert At(t, |p| + j) == At(s, j);
    ScanDigitsShift(p, s, j, 0, 0);
  }

  /** Decimal text never starts with a space. */
  lemma DecimalStart(v: int)
    ensures Decimal(v)[0] == '-' || IsDigit(Decimal(v)[0])
  {
  }

  /** `k` spaces. */
  function Spaces(k: nat): (r: seq<CChar>)
    ensures |r| == k && forall j :: 0 <= j < k ==> r[j] == ' '
  {
    if k == 0 then [] else [' '] + Spaces(k - 1)
  }

  /** A run of `k` spaces after `p`, ended by a non-space, is skipped in one go. */
  lemma {:induction false} SkipSpacesRun(p: seq<CChar>, k: nat, q: seq<CChar>)
    requires At(q, 0) != ' '
    ensures SkipSpaces(p + (Spaces(k) + q), |p|) == |p| + k
    decreases k
  {
    var s := p + (Spaces(k) + q);
    if k == 0 {
      assert At(s, |p|) == At(q, 0);
    } else {
      assert At(s, |p|) == ' ';
      assert s == (p + [' ']) + (Spaces(k - 1) + q);
      SkipSpacesRun(p + [' '], k - 1, q);
    }
  }

  /** Regrouping the five pieces of the reader's input at the points where it looks. */
  lemma Regroup(sp0: seq<CChar>, da: seq<CChar>, sp1: seq<CChar>, op: CChar, sp2: seq<CChar>, tail: seq<CChar>)
    ensures var s := sp0 + (da + (sp1 + ([op] + (sp2 + tail))));
      s == (sp0 + da) + (sp1 + ([op] + (sp2 + tail))) &&
      s == (sp0 + da + sp1) + ([op] + (sp2 + tail)) &&
      s == (sp0 + da + sp1 + [op]) + (sp2 + tail)
  {
  }

  /** Spaces and then an integer at the start of the text. */
  lemma FirstOperandAt(s: seq<CChar>, k0: nat, a: int, t: seq<CChar>)
    requires !IsDigit(At(t, 0))
    requires s == Spaces(k0) + (Decimal(a) + t)
    ensures SkipSpaces(s, 0) == k0 && ScanInt(s, k0) == Number(a, |Decimal(a)|)
  {
    var t1 := Decimal(a) + t;
    DecimalStart(a);
    assert At(t1, 0) == Decimal(a)[0];
    assert s == [] + (Spaces(k0) + t1);
    SkipSpacesRun([], k0, t1);
    ScanIntShift(Spaces(k0), t1);
    ScanIntOfDecimal(a, t);
  }

  /** What follows the first integer does not start with a digit. */
  lemma AfterFirstOperand(k1: nat, op: CChar, t: seq<CChar>)
    requires k1 == 0 ==> !IsDigit(op)
    ensures !IsDigit(At(Spaces(k1) + ([op] + t), 0))
  {
    if k1 == 0 {
      assert At(Spaces(k1) + ([op] + t), 0) == op;
    } else {
      assert At(Spaces(k1) + ([op] + t), 0) == ' ';
    }
  }

  /** Spaces after `h` and then the operator. */
  lemma OperatorAt(s: seq<CChar>, h: seq<CChar>, k1: nat, op: CChar, t: seq<CChar>, p: nat)
    requires op != ' ' && p == |h|
    requires s == h + (Spaces(k1) + ([op] + t))
    ensures SkipSpaces(s, p) == p + k1 && At(s, p + k1) == op
  {
    assert At([op] + t, 0) == op;
    SkipSpacesRun(h, k1, [op] + t);
    assert s == (h + Spaces(k1)) + ([op] + t);
  }

  /** Spaces after `h` and then the text the second integer is read from. */
  lemma SecondOperandAt(s: seq<CChar>, h: seq<CChar>, k2: nat, tail: seq<CChar>, p: nat, q: nat, second: Scan)
    requires At(tail, 0) != ' ' && p == |h| && q == p + k2 && ScanInt(tail, 0) == second
    requires s == h + (Spaces(k2) + tail)
    ensures SkipSpaces(s, p) == q && ScanInt(s, q) == second
  {
    SkipSpacesRun(h, k2, tail);
    assert s == (h + Spaces(k2)) + tail;
    ScanIntShift(h + Spaces(k2), tail);
  }

  /**
   * The reader's positions on text made of spaces, an integer, spaces, an operator,
   * spaces and then `tail`: the first integer is `a`, the operator is `op`, and the second
   * integer is read from the start of `tail`.
   */
  lemma ReaderPositions(s: seq<CChar>, k0: nat, a: int, n: nat, k1: nat, op: CChar, k2: nat, tail: seq<CChar>,
                        p1: nat, p2: nat, second: Scan)
    requires op != ' ' && (k1 == 0 ==> !IsDigit(op)) && At(tail, 0) != ' ' && ScanInt(tail, 0) == second
    requires n == |Decimal(a)| && p1 == k0 + n + k1 && p2 == p1 + 1 + k2
    requires s == Spaces(k0) + (Decimal(a) + (Spaces(k1) + ([op] + (Spaces(k2) + tail))))
    ensures SkipSpaces(s, 0) == k0 && ScanInt(s, k0) == Number(a, n)
    ensures SkipSpaces(s, k0 + n) == p1 && At(s, p1) == op
    ensures SkipSpaces(s, p1 + 1) == p2 && ScanInt(s, p2) == second
  {
    FirstOperandIn(s, k0, a, n, k1, op, k2, tail);
    OperatorIn(s, k0, a, n, k1, op, k2, tail, p1);
    SecondOperandIn(s, k0, a, n, k1, op, k2, tail, p1, p2, second);
  }

  /** The first integer of a two-operand text. */
  lemma FirstOperandIn(s: seq<CChar>, k0: nat, a: int, n: nat, k1: nat, op: CChar, k2: nat, tail: seq<CChar>)
    requires (k1 == 0 ==> !IsDigit(op)) && n == |Decimal(a)|
    requires s == Spaces(k0) + (Decimal(a) + (Spaces(k1) + ([op] + (Spaces(k2) + tail))))
    ensures SkipSpaces(s, 0) == k0 && ScanInt(s, k0) == Number(a, n)
  {
    var t4 := Spaces(k2) + tail;
    AfterFirstOperand(k1, op, t4);
    FirstOperandAt(s, k0, a, Spaces(k1) + ([op] + t4));
  }

  /** The operator of a two-operand text. */
  lemma OperatorIn(s: seq<CChar>, k0: nat, a: int, n: nat, k1: nat, op: CChar, k2: nat, tail: seq<CChar>, p1: nat)
    requires op != ' ' && n == |Decimal(a)| && p1 == k0 + n + k1
    requires s == Spaces(k0) + (Decimal(a) + (Spaces(k1) + ([op] + (Spaces(k2) + tail))))
    ensures SkipSpaces(s, k0 + n) == p1 && At(s, p1) == op
  {
    Regroup(Spaces(k0), Decimal(a), Spaces(k1), op, Spaces(k2), tail);
    OperatorAt(s, Spaces(k0) + Decimal(a), k1, op, Spaces(k2) + tail, k0 + n);
  }

  /** The second integer of a two-operand text. */
  lemma SecondOperandIn(s: seq<CChar>, k0: nat, a: int, n: nat, k1: nat, op: CChar, k2: nat, tail: seq<CChar>,
                        p1: nat, p2: nat, second: Scan)
    requires At(tail, 0) != ' ' && ScanInt(tail, 0) == second
    requires n == |Decimal(a)| && p1 == k0 + n + k1 && p2 == p1 + 1 + k2
    requires s == Spaces(k0) + (Decimal(a) + (Spaces(k1) + ([op] + (Spaces(k2) + tail))))
    ensures SkipSpaces(s, p1 + 1) == p2 && ScanInt(s, p2) == second
  {
    var h := Spaces(k0) + Decimal(a) + Spaces(k1) + [op];
    Regroup(Spaces(k0), Decimal(a), Spaces(k1), op, Spaces(k2), tail);
    SecondOperandAt(s, h, k2, tail, p1 + 1, p2, second);
  }

  /** After a readable first integer, the reader's result is what it reads from the end of that integer. */
  lemma ReadsFirstOperand(s: seq<CChar>, p0: nat, a: int, n: nat, r: Reading)
    requires SkipSpaces(s, 0) == p0 && ScanInt(s, p0) == Number(a, n)
    requires ReadOperatorAndSecond(s, a, p0 + n) == r
    ensures SscanfInternal(s) == r
  {
  }

  /** After the first integer: the operator at `p1`, then whatever is read at `p2`. */
  lemma ReadsSecondOperand(s: seq<CChar>, a: int, p: nat, p1: nat, p2: nat, second: Scan)
    requires SkipSpaces(s, p) == p1 && SkipSpaces(s, p1 + 1) == p2 && ScanInt(s, p2) == second
    ensures ReadOperatorAndSecond(s, a, p) == ReadingOf(a, At(s, p1), p2, second)
  {
  }

  /** The reader's result once its second integer has been scanned at `p2`. */
  function ReadingOf(a: int, op: CChar, p2: nat, second: Scan): (r: Reading)
    ensures r.Read? <==> second.Number?
  {
    match second
    case NoNumber => Unread
    case Number(b, n2) => Read(Triple(a, op, b), p2 + n2)
  }

  /** The reader's result, from the positions where it finds each of its pieces. */
  lemma ReadingAtPositions(s: seq<CChar>, p0: nat, a: int, n: nat, p1: nat, p2: nat, second: Scan)
    requires SkipSpaces(s, 0) == p0 && ScanInt(s, p0) == Number(a, n)
    requires SkipSpaces(s, p0 + n) == p1 && SkipSpaces(s, p1 + 1) == p2 && ScanInt(s, p2) == second
    ensures SscanfInternal(s) == ReadingOf(a, At(s, p1), p2, second)
  {
    ReadsSecondOperand(s, a, p0 + n, p1, p2, second);
    ReadsFirstOperand(s, p0, a, n, ReadingOf(a, At(s, p1), p2, second));
  }

  /** With the format it understands, `sscanf` reports what the reader read. */
  lemma SscanfOfReader(s: seq<CChar>, t: Triple)
    requires SscanfInternal(s).Read? && SscanfInternal(s).triple == t
    ensures Sscanf(s, "%d %c %d", Triple(0, NUL, 0)) == (3, t)
  {
    assert IsTripleFormat("%d %c %d");
  }

  /**
   * Text of the form "a op b", with any runs of spaces around the operator (none before
   * it only when it is not a digit), reads back as (a, op, b) with result 3.
   */
  lemma SscanfReadsTriple(s: seq<CChar>, k0: nat, a: int, k1: nat, op: CChar, k2: nat, b: int, rest: seq<CChar>)
    requires op != ' ' && (k1 == 0 ==> !IsDigit(op)) && !IsDigit(At(rest, 0))
    requires s == Spaces(k0) + (Decimal(a) + (Spaces(k1) + ([op] + (Spaces(k2) + (Decimal(b) + rest)))))
    ensures Sscanf(s, "%d %c %d", Triple(0, NUL, 0)) == (3, Triple(a, op, b))
  {
    var tail := Decimal(b) + rest;
    DecimalStart(b);
    assert At(tail, 0) == Decimal(b)[0];
    var n := |Decimal(a)|;
    var p1 := k0 + n + k1;
    var second := Number(b, |Decimal(b)|);
    ScanIntOfDecimal(b, rest);
    ReaderPositions(s, k0, a, n, k1, op, k2, tail, p1, p1 + 1 + k2, second);
    ReadingAtPositions(s, k0, a, n, p1, p1 + 1 + k2, second);
    SscanfOfReader(s, Triple(a, op, b));
  }

  /**
   * Text that stops after the operator, or whose second operand is not a number, is not
   * read: `sscanf` returns 0 and leaves the variables as they were.
   */
  lemma SscanfMissingSecondOperand(s: seq<CChar>, k0: nat, a: int, k1: nat, op: CChar, k2: nat,
                                    rest: seq<CChar>, old_: Triple)
    requires op != ' ' && (k1 == 0 ==> !IsDigit(op)) && At(rest, 0) != ' '
    requires !IsDigit(At(rest, 0)) && !(At(rest, 0) == '-' && IsDigit(At(rest, 1)))
    requires s == Spaces(k0) + (Decimal(a) + (Spaces(k1) + ([op] + (Spaces(k2) + rest))))
    ensures Sscanf(s, "%d %c %d", old_) == (0, old_)
  {
    var n := |Decimal(a)|;
    var p1 := k0 + n + k1;
    ReaderPositions(s, k0, a, n, k1, op, k2, rest, p1, p1 + 1 + k2, NoNumber);
    ReadingAtPositions(s, k0, a, n, p1, p1 + 1 + k2, NoNumber);
  }

  /** Text whose first non-space is not the start of a number is not read. */
  lemma SscanfMissingFirstOperand(s: seq<CChar>, k0: nat, rest: seq<CChar>, old_: Triple)
    requires At(rest, 0) != ' ' && !IsDigit(At(rest, 0)) && !(At(rest, 0) == '-' && IsDigit(At(rest, 1)))
    requires s == Spaces(k0) + rest
    ensures Sscanf(s, "%d %c %d", old_) == (0, old_)
  {
    assert s == [] + (Spaces(k0) + rest);
    SkipSpacesRun([], k0, rest);
    ScanIntShift(Spaces(k0), rest);
  }
}
