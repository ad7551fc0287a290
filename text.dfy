/**
 * The parts of the Arduino `String` class and of the C library that the
 * firmware's parsing and formatting rely on: `indexOf`, `substring`,
 * `toInt` (which is `atol`), `strtol` in base 16, `sprintf("%0Nd")` and C's
 * truncating integer division. `long` and `int` are 32 bits on the target.
 */
module Text {

  const LongMin: int := -0x8000_0000
  const LongMax: int := 0x7FFF_FFFF

  /** `String::indexOf(c, from)`: the first index at or after `from` holding `c`, or -1. */
  function IndexOf(s: string, c: char, from: nat): (k: int)
    ensures k == -1 || (from <= k < |s| && s[k] == c)
    decreases |s| - from
  {
    if from >= |s| then -1
    else if s[from] == c then from
    else IndexOf(s, c, from + 1)
  }

  /** The search skips nothing: no `c` lies between `from` and the hit, nor after `from` on a miss. */
  lemma {:induction false} IndexOfSkips(s: string, c: char, from: nat)
    ensures IndexOf(s, c, from) == -1 ==> forall i :: from <= i < |s| ==> s[i] != c
    ensures IndexOf(s, c, from) != -1 ==> forall i :: from <= i < IndexOf(s, c, from) ==> s[i] != c
    decreases |s| - from
  {
    if from < |s| && s[from] != c {
      IndexOfSkips(s, c, from + 1);
    }
  }

  /** The search stops at the first occurrence at or after `from`. */
  lemma {:induction false} IndexOfFinds(s: string, c: char, from: nat, k: nat)
    requires from <= k < |s| && s[k] == c
    requires forall i :: from <= i < k ==> s[i] != c
    ensures IndexOf(s, c, from) == k
    decreases k - from
  {
    if from < k {
      IndexOfFinds(s, c, from + 1, k);
    }
  }

  /** The search fails when nothing at or after `from` is `c`. */
  lemma {:induction false} IndexOfMisses(s: string, c: char, from: nat)
    requires forall i :: from <= i < |s| ==> s[i] != c
    ensures IndexOf(s, c, from) == -1
    decreases |s| - from
  {
    if from < |s| {
      IndexOfMisses(s, c, from + 1);
    }
  }

  /** An `int` index passed where `String` takes an `unsigned int`: -1 becomes 2^32 - 1. */
  function Unsigned(i: int): (u: nat)
    requires LongMin <= i
    ensures i >= 0 ==> u == i
    ensures i < 0 ==> u >= 0x8000_0000
  {
    if i < 0 then i + 0x1_0000_0000 else i
  }

  /**
   * `String::substring(left, right)`: the bounds are swapped when `left > right`,
   * a start at or past the end gives "", and an end past the end is clamped;
   * the characters in between are then copied out.
   */
  function Substring(s: string, left: nat, right: nat): string
  {
    var lo := if left > right then right else left;
    var hi := if left > right then left else right;
    if lo >= |s| then "" else Copy(s, lo, if hi > |s| then |s| else hi)
  }

  /** The characters of `s` from `lo` up to `hi`, copied one by one. */
  function Copy(s: string, lo: nat, hi: nat): string
    requires hi <= |s|
    decreases hi - lo
  {
    if lo >= hi then "" else [s[lo]] + Copy(s, lo + 1, hi)
  }

  /** The copy is the slice. */
  lemma {:induction false} CopySlice(s: string, lo: nat, hi: nat)
    requires lo <= hi <= |s|
    ensures Copy(s, lo, hi) == s[lo..hi]
    decreases hi - lo
  {
    if lo < hi {
      CopySlice(s, lo + 1, hi);
      assert s[lo..hi] == [s[lo]] + s[lo + 1..hi];
    }
  }

  /**
   * Within bounds `substring` is the slice, an end past the text reads to
   * the end, and the order of the two bounds does not matter.
   */
  lemma SubstringSlice(s: string, left: nat, right: nat)
    ensures left <= right <= |s| ==> Substring(s, left, right) == s[left..right]
    ensures left <= |s| <= right ==> Substring(s, left, right) == s[left..]
    ensures |s| <= left && |s| <= right ==> Substring(s, left, right) == ""
    ensures Substring(s, left, right) == Substring(s, right, left)
  {
    if left <= right <= |s| {
      SubstringInRange(s, left, right);
    } else if left <= |s| <= right {
      CopySlice(s, left, |s|);
    }
  }

  lemma SubstringInRange(s: string, left: nat, right: nat)
    requires left <= right <= |s|
    ensures Substring(s, left, right) == s[left..right]
  {
    CopySlice(s, left, right);
  }

  /** The number of occurrences of `c` in `s` at or after `from`. */
  function Count(s: string, c: char, from: nat): nat
    decreases |s| - from
  {
    if from >= |s| then 0 else (if s[from] == c then 1 else 0) + Count(s, c, from + 1)
  }

  /** The chained searches the frame decoder performs, stated through counts. */
  lemma {:induction false} IndexOfCount(s: string, c: char, from: nat)
    ensures IndexOf(s, c, from) == -1 <==> Count(s, c, from) == 0
    ensures IndexOf(s, c, from) != -1 ==> Count(s, c, IndexOf(s, c, from) + 1) + 1 == Count(s, c, from)
    decreases |s| - from
  {
    if from < |s| {
      IndexOfCount(s, c, from + 1);
    }
  }

  /** C's `isspace` in the "C" locale. */
  predicate IsSpace(ch: char)
  {
    ch == ' ' || ch == '\t' || ch == '\n' || ch == '\U{0B}' || ch == '\U{0C}' || ch == '\r'
  }

  /** `strtol`'s digit value: 0-9, then letters a/A = 10 up to z/Z = 35; 36 for anything else. */
  function DigitValue(ch: char): (d: nat)
    ensures d <= 36
    ensures d < 10 <==> '0' <= ch <= '9'
  {
    if '0' <= ch <= '9' then ch as int - '0' as int
    else if 'a' <= ch <= 'z' then ch as int - 'a' as int + 10
    else if 'A' <= ch <= 'Z' then ch as int - 'A' as int + 10
    else 36
  }

  /** The index of the first character at or after `i` that is not white space. */
  function SkipSpace(s: string, i: nat): (k: nat)
    ensures i <= k && (k >= |s| || !IsSpace(s[k]))
    decreases |s| - i
  {
    if i < |s| && IsSpace(s[i]) then SkipSpace(s, i + 1) else i
  }

  /** Every character `SkipSpace` steps over is white space. */
  lemma {:induction false} SkipSpaceSkips(s: string, i: nat)
    ensures forall j :: i <= j < SkipSpace(s, i) && j < |s| ==> IsSpace(s[j])
    decreases |s| - i
  {
    if i < |s| && IsSpace(s[i]) {
      SkipSpaceSkips(s, i + 1);
    }
  }

  /** The value of the longest run of digits below `base` from index `i`, accumulated onto `acc`. */
  function Digits(s: string, i: nat, base: nat, acc: int): (v: int)
    ensures acc >= 0 ==> v >= 0
    decreases |s| - i
  {
    if i < |s| && DigitValue(s[i]) < base then Digits(s, i + 1, base, acc * base + DigitValue(s[i]))
    else acc
  }

  function Clamp(v: int): (r: int)
    ensures LongMin <= r <= LongMax
    ensures LongMin <= v <= LongMax ==> r == v
  {
    if v < LongMin then LongMin else if v > LongMax then LongMax else v
  }

  /**
   * `strtol(s, NULL, base)`: leading white space, an optional sign, in base 16
   * an optional "0x"/"0X", then digits; no digits gives 0; out-of-range values
   * saturate at the bounds of a 32-bit `long`.
   */
  function StrToL(s: string, base: nat): (v: int)
    requires base == 10 || base == 16
    ensures LongMin <= v <= LongMax
  {
    Clamp(Signed(s, SkipSpace(s, 0), base))
  }

  /** An optional sign at `i` followed by a magnitude. */
  function Signed(s: string, i: nat, base: nat): int
    requires base == 10 || base == 16
  {
    if i < |s| && s[i] == '-' then 0 - Magnitude(s, i + 1, base) as int
    else if i < |s| && s[i] == '+' then Magnitude(s, i + 1, base)
    else Magnitude(s, i, base)
  }

  /** The digits from `i` after an optional "0x"/"0X", which only base 16 skips. */
  function Magnitude(s: string, i: nat, base: nat): nat
    requires base == 10 || base == 16
  {
    var hex := base == 16 && i + 1 < |s| && s[i] == '0' && (s[i + 1] == 'x' || s[i + 1] == 'X');
    Digits(s, if hex then i + 2 else i, base, 0)
  }

  /** `String::toInt()`, which is `atol`. */
  function ToInt(s: string): (v: int)
    ensures LongMin <= v <= LongMax
  {
    StrToL(s, 10)
  }

  function DigitChar(d: nat): (ch: char)
    requires d < 10
    ensures DigitValue(ch) == d
  {
    ('0' as int + d) as char
  }

  /** The decimal digits of `n`, most significant first, without leading zeros. */
  function Decimal(n: nat): (s: string)
    ensures |s| > 0
    ensures forall i :: 0 <= i < |s| ==> DigitValue(s[i]) < 10
    decreases n
  {
    if n < 10 then [DigitChar(n)] else Decimal(n / 10) + [DigitChar(n % 10)]
  }

  function Zeros(k: nat): (s: string)
    ensures |s| == k && forall i :: 0 <= i < k ==> s[i] == '0'
  {
    if k == 0 then "" else Zeros(k - 1) + "0"
  }

  function ZeroPad(d: string, width: nat): (s: string)
  {
    if |d| >= width then d else Zeros(width - |d|) + d
  }

  /** `sprintf("%0<width>d", n)`: a minus sign counts towards the width and zeros go after it. */
  function Printf(n: int, width: nat): (s: string)
  {
    if n < 0 then "-" + ZeroPad(Decimal(-n), if width > 0 then width - 1 else 0)
    else ZeroPad(Decimal(n), width)
  }

  /** C's `/` on `int` with a positive divisor: truncates toward zero. */
  function CDiv(a: int, b: int): (q: int)
    requires b > 0
    ensures a >= 0 ==> q * b <= a < q * b + b
    ensures a < 0 ==> q * b - b < a <= q * b
  {
    if a >= 0 then a / b else -((-a) / b)
  }

  /** C's `%` on `int` with a positive divisor: takes the sign of the dividend. */
  function CMod(a: int, b: int): (r: int)
    requires b > 0
    ensures CDiv(a, b) * b + r == a
    ensures a >= 0 ==> 0 <= r < b
    ensures a < 0 ==> -b < r <= 0
  {
    a - CDiv(a, b) * b
  }

  // ---------------------------------------------------------------------
  // Reading back what Printf writes

  /** Reading digits depends only on the text from the reading position on. */
  lemma {:induction false} DigitsShift(s: string, i: nat, t: string, j: nat, base: nat, acc: int)
    requires i <= |s| && j <= |t| && s[i..] == t[j..]
    ensures Digits(s, i, base, acc) == Digits(t, j, base, acc)
    decreases |s| - i
  {
    if i < |s| {
      assert s[i] == s[i..][0] && t[j] == t[j..][0];
      assert s[i + 1..] == s[i..][1..] && t[j + 1..] == t[j..][1..];
      DigitsShift(s, i + 1, t, j + 1, base, acc * base + DigitValue(s[i]));
    }
  }

  lemma {:induction false} DigitsAppend(a: string, b: string, i: nat, base: nat, acc: int)
    requires i <= |a|
    requires forall k :: i <= k < |a| ==> DigitValue(a[k]) < base
    ensures Digits(a + b, i, base, acc) == Digits(b, 0, base, Digits(a, i, base, acc))
    decreases |a| - i
  {
    if i == |a| {
      assert (a + b)[|a|..] == b[0..];
      DigitsShift(a + b, |a|, b, 0, base, acc);
    } else {
      assert (a + b)[i] == a[i];
      DigitsAppend(a, b, i + 1, base, acc * base + DigitValue(a[i]));
    }
  }

  lemma {:induction false} DigitsOfDecimal(n: nat)
    ensures Digits(Decimal(n), 0, 10, 0) == n
    decreases n
  {
    if n >= 10 {
      var d := [DigitChar(n % 10)];
      DigitsAppend(Decimal(n / 10), d, 0, 10, 0);
      DigitsOfDecimal(n / 10);
    }
  }

  lemma {:induction false} DigitsOfZeros(z: string, i: nat)
    requires forall k :: 0 <= k < |z| ==> z[k] == '0'
    ensures Digits(z, i, 10, 0) == 0
    decreases |z| - i
  {
    if i < |z| {
      DigitsOfZeros(z, i + 1);
    }
  }

  /** Digits written by `Decimal`, possibly after zero padding, read back to their value. */
  lemma DigitsOfPadded(n: nat, width: nat, rest: string)
    requires |rest| == 0 || DigitValue(rest[0]) >= 10
    ensures Digits(ZeroPad(Decimal(n), width) + rest, 0, 10, 0) == n
  {
    DigitsOfDecimal(n);
    DigitsAppend(Decimal(n), rest, 0, 10, 0);
    if |Decimal(n)| < width {
      DigitsAfterZeros(Zeros(width - |Decimal(n)|), Decimal(n) + rest);
      assert ZeroPad(Decimal(n), width) + rest == Zeros(width - |Decimal(n)|) + (Decimal(n) + rest);
    }
  }

  /** Leading zeros add nothing to the value read. */
  lemma DigitsAfterZeros(z: string, t: string)
    requires forall i :: 0 <= i < |z| ==> z[i] == '0'
    ensures Digits(z + t, 0, 10, 0) == Digits(t, 0, 10, 0)
  {
    DigitsAppend(z, t, 0, 10, 0);
    DigitsOfZeros(z, 0);
  }

  /** `atol` on text that starts with a digit reads the leading digits. */
  lemma ToIntDigitStart(s: string)
    requires |s| > 0 && DigitValue(s[0]) < 10
    ensures ToInt(s) == Clamp(Digits(s, 0, 10, 0))
  {
    assert SkipSpace(s, 0) == 0 by { assert !IsSpace(s[0]); }
  }

  /** `atol` on "-" followed by zero-padded digits and a non-digit reads the negated number. */
  lemma ToIntMinusPadded(m: nat, w: nat, rest: string)
    requires |rest| == 0 || DigitValue(rest[0]) >= 10
    requires m <= 0x8000_0000
    ensures ToInt("-" + (ZeroPad(Decimal(m), w) + rest)) == 0 - m as int
  {
    var digits := ZeroPad(Decimal(m), w) + rest;
    var s := "-" + digits;
    assert SkipSpace(s, 0) == 0 by { assert !IsSpace(s[0]); }
    assert ToInt(s) == Clamp(0 - Digits(s, 1, 10, 0)) by { assert s[0] == '-'; }
    assert s[1..] == digits[0..];
    DigitsShift(s, 1, digits, 0, 10, 0);
    DigitsOfPadded(m, w, rest);
  }

  lemma ToIntPrintfNegative(n: int, width: nat, rest: string)
    requires LongMin <= n < 0
    requires |rest| == 0 || DigitValue(rest[0]) >= 10
    ensures ToInt(Printf(n, width) + rest) == n
  {
    var m: nat := 0 - n;
    var w := if width > 0 then width - 1 else 0;
    assert Printf(n, width) + rest == "-" + (ZeroPad(Decimal(m), w) + rest);
    ToIntMinusPadded(m, w, rest);
  }

  lemma ToIntPrintfNatural(n: nat, width: nat, rest: string)
    requires n <= LongMax
    requires |rest| == 0 || DigitValue(rest[0]) >= 10
    ensures ToInt(Printf(n, width) + rest) == n
  {
    var pad := ZeroPad(Decimal(n), width);
    var s := pad + rest;
    assert pad[0] == '0' || pad[0] == Decimal(n)[0];
    ToIntDigitStart(s);
    DigitsOfPadded(n, width, rest);
  }

  /** `atol` reads back the number `sprintf("%0Nd")` wrote, up to the first non-digit. */
  lemma ToIntPrintf(n: int, width: nat, rest: string)
    requires LongMin <= n <= LongMax
    requires |rest| == 0 || DigitValue(rest[0]) >= 10
    ensures ToInt(Printf(n, width) + rest) == n
  {
    if n < 0 {
      ToIntPrintfNegative(n, width, rest);
    } else {
      ToIntPrintfNatural(n, width, rest);
    }
  }
}
