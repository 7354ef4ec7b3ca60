/** The parts of Python's `str` and `int` behaviour the calendar exporter relies
    on, restricted to ASCII: `isspace`, `\w`, `lower`, `strip`, `startswith`,
    `in`, `split`, `join`, `str(int)`, `int(str)`, `f"{n:0Wd}"` and slicing. */
module PyStr {
  import opened Wrappers

  // ---------------------------------------------------------------------------
  // Character classes

  /** `c.isspace()` on the ASCII range: space, \t \n \v \f \r and the four
      information separators 0x1C..0x1F. */
  predicate IsSpace(c: char) {
    c == ' ' || ('\t' <= c <= '\r') || ('\U{1C}' <= c <= '\U{1F}')
  }

  predicate IsDigit(c: char) {
    '0' <= c <= '9'
  }

  predicate IsUpper(c: char) {
    'A' <= c <= 'Z'
  }

  /** The regular-expression class `\w` on ASCII: letters, digits, underscore. */
  predicate IsWordChar(c: char) {
    ('a' <= c <= 'z') || IsUpper(c) || IsDigit(c) || c == '_'
  }

  predicate AllSpace(s: string) {
    forall i :: 0 <= i < |s| ==> IsSpace(s[i])
  }

  predicate AllDigits(s: string) {
    forall i :: 0 <= i < |s| ==> IsDigit(s[i])
  }

  predicate NoUpper(s: string) {
    forall i :: 0 <= i < |s| ==> !IsUpper(s[i])
  }

  // ---------------------------------------------------------------------------
  // str.lower()

  function LowerChar(c: char): (d: char)
    ensures !IsUpper(d)
    ensures IsSpace(d) <==> IsSpace(c)
    ensures IsWordChar(d) <==> IsWordChar(c)
    ensures !IsUpper(c) ==> d == c
  {
    if IsUpper(c) then (c as int + 32) as char else c
  }

  function Lower(s: string): (r: string)
    ensures |r| == |s|
    ensures forall i {:trigger r[i]} :: 0 <= i < |s| ==> r[i] == LowerChar(s[i])
    ensures NoUpper(r)
    decreases |s|
  {
    if |s| == 0 then "" else [LowerChar(s[0])] + Lower(s[1..])
  }

  lemma LowerOfLower(s: string)
    ensures Lower(s) == s <==> NoUpper(s)
    ensures Lower(Lower(s)) == Lower(s)
  {
    if NoUpper(s) {
      assert Lower(s) == s;
    }
  }

  lemma LowerAppend(a: string, b: string)
    ensures Lower(a + b) == Lower(a) + Lower(b)
  {
    assert Lower(a + b) == Lower(a) + Lower(b);
  }

  // ---------------------------------------------------------------------------
  // Slices of concatenations

  lemma TakeOfAppend<T>(a: seq<T>, b: seq<T>, k: int)
    requires 0 <= k <= |a|
    ensures (a + b)[..k] == a[..k]
  {
  }

  lemma DropOfAppend<T>(a: seq<T>, b: seq<T>, k: int)
    requires 0 <= k <= |a|
    ensures (a + b)[k..] == a[k..] + b
  {
  }

  /** If `x` is `h` before `t` before `r` and `y` is `h` before `t`, then `x`
      is `y` before `r`. */
  lemma RegroupAppend<T>(x: seq<T>, y: seq<T>, h: seq<T>, t: seq<T>, r: seq<T>)
    requires x == h + (t + r) && y == h + t
    ensures x == y + r
  {
  }

  // ---------------------------------------------------------------------------
  // str.strip()

  /** Number of whitespace characters at the start of `s`. */
  function LeadingSpaces(s: string): (k: nat)
    ensures k <= |s|
    ensures forall i :: 0 <= i < k ==> IsSpace(s[i])
    ensures k == |s| || !IsSpace(s[k])
    decreases |s|
  {
    if |s| > 0 && IsSpace(s[0]) then 1 + LeadingSpaces(s[1..]) else 0
  }

  /** Number of whitespace characters at the end of `s`. */
  function TrailingSpaces(s: string): (k: nat)
    ensures k <= |s|
    ensures forall i :: |s| - k <= i < |s| ==> IsSpace(s[i])
    ensures k == |s| || !IsSpace(s[|s| - k - 1])
    decreases |s|
  {
    if |s| > 0 && IsSpace(s[|s| - 1]) then 1 + TrailingSpaces(s[..|s| - 1]) else 0
  }

  function StripLeft(s: string): string {
    s[LeadingSpaces(s)..]
  }

  function StripRight(s: string): string {
    s[..|s| - TrailingSpaces(s)]
  }

  /** `s.strip()`: the substring left after removing whitespace at both ends. */
  function Strip(s: string): (r: string)
    ensures |r| == 0 || (!IsSpace(r[0]) && !IsSpace(r[|r| - 1]))
  {
    StripRight(StripLeft(s))
  }

  /** A string that neither starts nor ends with whitespace is left alone. */
  lemma StripTrimmed(s: string)
    requires |s| == 0 || (!IsSpace(s[0]) && !IsSpace(s[|s| - 1]))
    ensures Strip(s) == s
  {
  }

  lemma LeadingSpacesUnique(s: string, k: nat)
    requires k <= |s| && (forall i :: 0 <= i < k ==> IsSpace(s[i])) && (k == |s| || !IsSpace(s[k]))
    ensures LeadingSpaces(s) == k
  {
  }

  lemma TrailingSpacesUnique(s: string, k: nat)
    requires k <= |s| && (forall i :: |s| - k <= i < |s| ==> IsSpace(s[i]))
    requires k == |s| || !IsSpace(s[|s| - k - 1])
    ensures TrailingSpaces(s) == k
  {
  }

  /** Stripping removes exactly the whitespace margins around a trimmed core. */
  lemma StripPadded(pre: string, core: string, post: string)
    requires AllSpace(pre) && AllSpace(post)
    requires |core| > 0 && !IsSpace(core[0]) && !IsSpace(core[|core| - 1])
    ensures Strip(pre + core + post) == core
  {
    var s := pre + core + post;
    assert forall i :: 0 <= i < |pre| ==> s[i] == pre[i];
    assert s[|pre|] == core[0];
    LeadingSpacesUnique(s, |pre|);
    var l := s[|pre|..];
    assert l == core + post;
    assert forall i :: |l| - |post| <= i < |l| ==> l[i] == post[i - |core|];
    assert l[|l| - |post| - 1] == core[|core| - 1];
    TrailingSpacesUnique(l, |post|);
    assert l[..|l| - |post|] == core;
  }

  /** A blank string strips to nothing. */
  lemma StripBlank(s: string)
    requires AllSpace(s)
    ensures Strip(s) == ""
  {
    LeadingSpacesUnique(s, |s|);
  }

  lemma StripIdempotent(s: string)
    ensures Strip(Strip(s)) == Strip(s)
  {
    StripTrimmed(Strip(s));
  }

  // ---------------------------------------------------------------------------
  // Searching

  function StartsWith(s: string, prefix: string): bool {
    |prefix| <= |s| && s[..|prefix|] == prefix
  }

  lemma StartsWithAppend(prefix: string, rest: string)
    ensures StartsWith(prefix + rest, prefix)
  {
    assert (prefix + rest)[..|prefix|] == prefix;
  }

  /** `needle in s` for a string needle. */
  predicate ContainsStr(s: string, needle: string) {
    exists i :: 0 <= i <= |s| - |needle| && OccursAt(s, needle, i)
  }

  predicate OccursAt(s: string, needle: string, i: int) {
    0 <= i <= |s| - |needle| && s[i..i + |needle|] == needle
  }

  lemma ContainsAt(s: string, needle: string, i: int)
    requires 0 <= i <= |s| - |needle| && s[i..i + |needle|] == needle
    ensures ContainsStr(s, needle)
  {
    assert OccursAt(s, needle, i);
  }

  /** The largest index of `c` in `s` (`s.rfind(c)`), or -1. */
  function LastIndexOf(s: string, c: char): (i: int)
    ensures -1 <= i < |s|
    ensures i >= 0 ==> s[i] == c && c !in s[i + 1..]
    ensures i == -1 ==> c !in s
    decreases |s|
  {
    if |s| == 0 then -1
    else if s[|s| - 1] == c then |s| - 1
    else
      var i := LastIndexOf(s[..|s| - 1], c);
      assert s == s[..|s| - 1] + [s[|s| - 1]];
      i
  }

  // ---------------------------------------------------------------------------
  // str.split(sep) and sep.join(xs)

  /** `s.split(sep)` for a one-character separator: empty pieces are kept. */
  function Split(s: string, sep: char): (r: seq<string>)
    ensures |r| >= 1
    ensures forall k :: 0 <= k < |r| ==> sep !in r[k]
    ensures sep !in s ==> r == [s]
    decreases |s|
  {
    if |s| == 0 then [""]
    else
      var rest := Split(s[1..], sep);
      if s[0] == sep then [""] + rest
      else
        assert sep !in s[1..] ==> rest == [s[1..]] && [s[0]] + s[1..] == s;
        [[s[0]] + rest[0]] + rest[1..]
  }

  function Join(xs: seq<string>, sep: string): string
    decreases |xs|
  {
    if |xs| == 0 then ""
    else if |xs| == 1 then xs[0]
    else xs[0] + sep + Join(xs[1..], sep)
  }

  /** Joining the pieces of a split with the separator gives back the text. */
  lemma {:induction false} JoinSplit(s: string, sep: char)
    ensures Join(Split(s, sep), [sep]) == s
    decreases |s|
  {
    if |s| > 0 {
      JoinSplit(s[1..], sep);
      var rest := Split(s[1..], sep);
      if s[0] == sep {
        assert Split(s, sep) == [""] + rest;
        assert s == [sep] + s[1..];
      } else {
        var r := Split(s, sep);
        assert r == [[s[0]] + rest[0]] + rest[1..];
        if |rest| == 1 {
          assert s == [s[0]] + rest[0];
        } else {
          assert Join(rest, [sep]) == rest[0] + [sep] + Join(rest[1..], [sep]);
          assert r[1..] == rest[1..];
          assert s == [s[0]] + s[1..];
        }
      }
    }
  }

  lemma SplitPrepend(c: char, s: string, sep: char)
    requires c != sep
    ensures Split([c] + s, sep) == [[c] + Split(s, sep)[0]] + Split(s, sep)[1..]
  {
    assert ([c] + s)[1..] == s;
  }

  /** `[x.lower() for x in xs]` */
  function LowerEach(xs: seq<string>): (r: seq<string>)
    ensures |r| == |xs|
    ensures forall k :: 0 <= k < |xs| ==> r[k] == Lower(xs[k])
    decreases |xs|
  {
    if |xs| == 0 then [] else [Lower(xs[0])] + LowerEach(xs[1..])
  }

  /** Lower-casing commutes with splitting on a separator that is no letter. */
  lemma {:induction false} SplitLower(s: string, sep: char)
    requires !IsWordChar(sep)
    ensures Split(Lower(s), sep) == LowerEach(Split(s, sep))
    decreases |s|
  {
    if |s| > 0 {
      var l := Lower(s);
      assert l[1..] == Lower(s[1..]);
      SplitLower(s[1..], sep);
      var rest := Split(s[1..], sep);
      if s[0] != sep {
        SplitLowerHead(s, sep);
      } else {
        assert l[0] == sep;
        assert ([""] + rest)[1..] == rest;
      }
    }
  }

  lemma SplitLowerHead(s: string, sep: char)
    requires !IsWordChar(sep) && |s| > 0 && s[0] != sep
    requires Split(Lower(s[1..]), sep) == LowerEach(Split(s[1..], sep))
    ensures Split(Lower(s), sep) == LowerEach(Split(s, sep))
  {
    var l := Lower(s);
    var rest := Split(s[1..], sep);
    assert l[1..] == Lower(s[1..]);
    assert l[0] != sep;
    SplitPrepend(s[0], s[1..], sep);
    SplitPrepend(l[0], l[1..], sep);
    assert s == [s[0]] + s[1..];
    assert l == [l[0]] + l[1..];
    LowerAppend([s[0]], rest[0]);
    var head := [[s[0]] + rest[0]] + rest[1..];
    assert head[1..] == rest[1..];
    assert LowerEach(rest)[1..] == LowerEach(rest[1..]);
  }

  /** Splitting a join of separator-free pieces gives the pieces back. */
  lemma {:induction false} SplitJoin(xs: seq<string>, sep: char)
    requires |xs| >= 1
    requires forall k :: 0 <= k < |xs| ==> sep !in xs[k]
    ensures Split(Join(xs, [sep]), sep) == xs
    decreases |xs|, |xs[0]|
  {
    if |xs| == 1 {
    } else if |xs[0]| == 0 {
      SplitJoin(xs[1..], sep);
      SplitJoinEmptyHead(xs, sep);
    } else {
      var ys := [xs[0][1..]] + xs[1..];
      SeparatorFreeTail(xs, sep);
      SplitJoin(ys, sep);
      SplitJoinCons(xs, sep);
    }
  }

  /** The step of `SplitJoin` at an empty first piece. */
  lemma SplitJoinEmptyHead(xs: seq<string>, sep: char)
    requires |xs| >= 2 && xs[0] == ""
    requires Split(Join(xs[1..], [sep]), sep) == xs[1..]
    ensures Split(Join(xs, [sep]), sep) == xs
  {
    var j := Join(xs[1..], [sep]);
    assert Join(xs, [sep]) == [sep] + j;
    SplitAtSeparator(sep, j);
    assert xs == [""] + xs[1..];
  }

  lemma SplitAtSeparator(sep: char, s: string)
    ensures Split([sep] + s, sep) == [""] + Split(s, sep)
  {
    assert ([sep] + s)[1..] == s;
  }

  lemma SeparatorFreeTail(xs: seq<string>, sep: char)
    requires |xs| >= 1 && |xs[0]| > 0
    requires forall k :: 0 <= k < |xs| ==> sep !in xs[k]
    ensures var ys := [xs[0][1..]] + xs[1..];
      forall k :: 0 <= k < |ys| ==> sep !in ys[k]
  {
    var ys := [xs[0][1..]] + xs[1..];
    forall k | 0 <= k < |ys| ensures sep !in ys[k] {
      if k == 0 {
        assert forall ch :: ch in xs[0][1..] ==> ch in xs[0];
      } else {
        assert ys[k] == xs[k];
      }
    }
  }

  /** The step of `SplitJoin` that moves the first character of the first
      piece in front. */
  lemma SplitJoinCons(xs: seq<string>, sep: char)
    requires |xs| >= 2 && |xs[0]| > 0 && xs[0][0] != sep
    requires Split(Join([xs[0][1..]] + xs[1..], [sep]), sep) == [xs[0][1..]] + xs[1..]
    ensures Split(Join(xs, [sep]), sep) == xs
  {
    var c := xs[0][0];
    var ys := [xs[0][1..]] + xs[1..];
    assert ys[1..] == xs[1..];
    assert Join(xs, [sep]) == [c] + Join(ys, [sep]);
    SplitPrepend(c, Join(ys, [sep]), sep);
    assert [c] + xs[0][1..] == xs[0];
  }

  // ---------------------------------------------------------------------------
  // Decimal numerals

  function DigitChar(d: nat): (c: char)
    requires d < 10
    ensures IsDigit(c)
  {
    ('0' as int + d) as char
  }

  function DigitValue(c: char): (d: nat)
    requires IsDigit(c)
    ensures d < 10 && DigitChar(d) == c
  {
    c as int - '0' as int
  }

  /** The value of a string of decimal digits (leading zeros allowed). */
  function DigitsValue(s: string): nat
    requires AllDigits(s)
    decreases |s|
  {
    if |s| == 0 then 0 else DigitsValue(s[..|s| - 1]) * 10 + DigitValue(s[|s| - 1])
  }

  /** `str(n)` for a natural number: no sign, no leading zero. */
  function NatToString(n: nat): (r: string)
    ensures 1 <= |r| && AllDigits(r)
    ensures |r| > 1 ==> r[0] != '0'
    decreases n
  {
    if n < 10 then [DigitChar(n)]
    else
      var p := NatToString(n / 10);
      assert (p + [DigitChar(n % 10)])[0] == p[0];
      p + [DigitChar(n % 10)]
  }

  lemma {:induction false} NatToStringValue(n: nat)
    ensures DigitsValue(NatToString(n)) == n
    decreases n
  {
    if n >= 10 {
      NatToStringValue(n / 10);
      var r := NatToString(n);
      assert r[..|r| - 1] == NatToString(n / 10);
    }
  }

  function Pow10(k: nat): nat {
    if k == 0 then 1 else 10 * Pow10(k - 1)
  }

  lemma {:induction false} NatToStringLength(n: nat, k: nat)
    requires 1 <= k && n < Pow10(k)
    ensures |NatToString(n)| <= k
    decreases k
  {
    if n >= 10 {
      assert k > 1;
      NatToStringLength(n / 10, k - 1);
    }
  }

  /** `f"{n:0{width}d}"` for a natural number: zero-padded to `width`. */
  function ZeroPad(n: nat, width: nat): (r: string)
    ensures AllDigits(r)
    ensures |r| >= width
  {
    var digits := NatToString(n);
    if |digits| >= width then digits
    else seq(width - |digits|, _ => '0') + digits
  }

  lemma {:induction false} LeadingZeros(k: nat, s: string)
    requires AllDigits(s)
    ensures AllDigits(seq(k, _ => '0') + s)
    ensures DigitsValue(seq(k, _ => '0') + s) == DigitsValue(s)
    decreases |s|
  {
    var z := seq(k, _ => '0') + s;
    if |s| == 0 {
      ZeroesValue(k);
      assert z == seq(k, _ => '0');
    } else {
      LeadingZeros(k, s[..|s| - 1]);
      assert z[..|z| - 1] == seq(k, _ => '0') + s[..|s| - 1];
    }
  }

  lemma {:induction false} ZeroesValue(j: nat)
    ensures AllDigits(seq(j, _ => '0'))
    ensures DigitsValue(seq(j, _ => '0')) == 0
    decreases j
  {
    if j > 0 {
      ZeroesValue(j - 1);
      assert seq(j, _ => '0')[..j - 1] == seq(j - 1, _ => '0');
    }
  }

  /** A zero-padded numeral reads back as its number, and is exactly `width`
      long when the number has at most `width` digits. */
  lemma ZeroPadValue(n: nat, width: nat)
    ensures DigitsValue(ZeroPad(n, width)) == n
    ensures 1 <= width && n < Pow10(width) ==> |ZeroPad(n, width)| == width
  {
    NatToStringValue(n);
    var digits := NatToString(n);
    if |digits| < width {
      LeadingZeros(width - |digits|, digits);
    }
    if 1 <= width && n < Pow10(width) {
      NatToStringLength(n, width);
    }
  }

  /** A string of k digits denotes a number below 10^k. */
  lemma {:induction false} DigitsValueBound(s: string)
    requires AllDigits(s)
    ensures DigitsValue(s) < Pow10(|s|)
    decreases |s|
  {
    if |s| > 0 {
      DigitsValueBound(s[..|s| - 1]);
    }
  }

  /** A number has one last decimal digit and one number of tens. */
  lemma LastDigitUnique(p: nat, d: nat, q: nat, e: nat)
    requires d < 10 && e < 10 && p * 10 + d == q * 10 + e
    ensures p == q && d == e
  {
  }

  /** Numerals of one value and length end in the same digit, and what comes
      before it has one value too. */
  lemma LastDigitsAgree(a: string, b: string)
    requires AllDigits(a) && AllDigits(b) && |a| == |b| > 0
    requires DigitsValue(a) == DigitsValue(b)
    ensures a[|a| - 1] == b[|b| - 1]
    ensures AllDigits(a[..|a| - 1]) && AllDigits(b[..|b| - 1])
    ensures DigitsValue(a[..|a| - 1]) == DigitsValue(b[..|b| - 1])
  {
    var x, y := a[|a| - 1], b[|b| - 1];
    LastDigitUnique(DigitsValue(a[..|a| - 1]), DigitValue(x), DigitsValue(b[..|b| - 1]), DigitValue(y));
    assert x == DigitChar(DigitValue(x));
    assert y == DigitChar(DigitValue(y));
  }

  /** Two digit strings of one length with the same value are the same string. */
  lemma {:induction false} DigitsValueInjective(a: string, b: string)
    requires AllDigits(a) && AllDigits(b) && |a| == |b|
    requires DigitsValue(a) == DigitsValue(b)
    ensures a == b
    decreases |a|
  {
    if |a| > 0 {
      var n := |a|;
      LastDigitsAgree(a, b);
      DigitsValueInjective(a[..n - 1], b[..n - 1]);
      assert a == a[..n - 1] + [a[n - 1]];
      assert b == b[..n - 1] + [b[n - 1]];
    }
  }

  /** Zero-padding a numeral's value to its own width writes the numeral back. */
  lemma ZeroPadOfDigits(s: string)
    requires AllDigits(s) && |s| >= 1
    ensures ZeroPad(DigitsValue(s), |s|) == s
  {
    DigitsValueBound(s);
    ZeroPadValue(DigitsValue(s), |s|);
    DigitsValueInjective(ZeroPad(DigitsValue(s), |s|), s);
  }

  /** `str(n)` for any integer: a leading '-' for negatives. */
  function IntToString(n: int): (r: string)
    ensures |r| >= 1
    ensures n < 0 <==> r[0] == '-'
  {
    if n < 0 then "-" + NatToString(-n) else NatToString(n)
  }

  /** `int(s)` restricted to an optional '-' followed by decimal digits. */
  function ParseInt(s: string): Option<int> {
    if |s| >= 2 && s[0] == '-' && AllDigits(s[1..]) then Some(0 - DigitsValue(s[1..]) as int)
    else if |s| >= 1 && AllDigits(s) then Some(DigitsValue(s))
    else None
  }

  /** `str(n)` is canonical: a '-' exactly for negatives, then digits with no
      leading zero. */
  lemma IntToStringCanonical(n: int)
    ensures var h := IntToString(n);
      var digits := if n < 0 then h[1..] else h;
      |digits| >= 1 && AllDigits(digits) && (|digits| > 1 ==> digits[0] != '0')
  {
    if n < 0 {
      assert IntToString(n)[1..] == NatToString(-n);
    }
  }

  lemma IntToStringRoundTrip(n: int)
    ensures ParseInt(IntToString(n)) == Some(n)
  {
    if n < 0 {
      NatToStringValue(-n);
      assert IntToString(n)[1..] == NatToString(-n);
    } else {
      NatToStringValue(n);
    }
  }

  // ---------------------------------------------------------------------------
  // Slicing

  /** Python's `s[:k]`: a negative `k` counts from the end. */
  function SliceTo(s: string, k: int): (r: string)
    ensures |r| <= |s| && r == s[..|r|]
    ensures 0 <= k <= |s| ==> |r| == k
    ensures k >= |s| ==> r == s
    ensures k < 0 ==> |r| == if |s| + k < 0 then 0 else |s| + k
  {
    if k >= 0 then (if k <= |s| then s[..k] else s)
    else if |s| + k >= 0 then s[..|s| + k]
    else ""
  }
}
