/** Character classes and the two string conversions the collector relies on:
    Python's `str.strip()` and `int()` / f-string formatting of a natural number. */
module Text {

  /** Python's whitespace: the code points for which `str.isspace()` holds. The same set is
      what `\s` matches in a `str` pattern, so one predicate serves both. */
  predicate IsSpace(c: char)
  {
    ('\t' <= c <= '\r') || ('\U{1C}' <= c <= ' ') || c == '\U{85}' || c == '\U{A0}'
    || c == '\U{1680}' || ('\U{2000}' <= c <= '\U{200A}') || c == '\U{2028}' || c == '\U{2029}'
    || c == '\U{202F}' || c == '\U{205F}' || c == '\U{3000}'
  }

  /** The range `가-힣` of precomposed Hangul syllables, U+AC00 to U+D7A3. */
  predicate IsHangulSyllable(c: char)
  {
    '\U{AC00}' <= c <= '\U{D7A3}'
  }

  /** The character class `[가-힣\s]` of group 1 (the item name). */
  predicate IsNameChar(c: char)
  {
    IsHangulSyllable(c) || IsSpace(c)
  }

  /** `\d`, restricted to ASCII digits. */
  predicate IsDigit(c: char)
  {
    '0' <= c <= '9'
  }

  predicate AllDigits(s: string)
  {
    forall k :: 0 <= k < |s| ==> IsDigit(s[k])
  }

  predicate AllSpaces(s: string)
  {
    forall k :: 0 <= k < |s| ==> IsSpace(s[k])
  }

  /** A string that `strip()` leaves as it is: empty, or neither end is whitespace. */
  predicate IsTrimmed(s: string)
  {
    s == [] || (!IsSpace(s[0]) && !IsSpace(s[|s| - 1]))
  }

  /** The end of the run of whitespace starting at `i`. */
  function SpacesEnd(s: string, i: nat): (e: nat)
    requires i <= |s|
    ensures i <= e <= |s|
    ensures forall k :: i <= k < e ==> IsSpace(s[k])
    ensures e == |s| || !IsSpace(s[e])
    decreases |s| - i
  {
    if i < |s| && IsSpace(s[i]) then SpacesEnd(s, i + 1) else i
  }

  /** The start of the run of whitespace ending at `j`. */
  function SpacesStart(s: string, j: nat): (b: nat)
    requires j <= |s|
    ensures b <= j
    ensures forall k :: b <= k < j ==> IsSpace(s[k])
    ensures b == 0 || !IsSpace(s[b - 1])
  {
    if j > 0 && IsSpace(s[j - 1]) then SpacesStart(s, j - 1) else j
  }

  /** The three facts `SpacesEnd` ensures determine its value. */
  lemma SpacesEndUnique(s: string, i: nat, e: nat)
    requires i <= e <= |s| && (forall k :: i <= k < e ==> IsSpace(s[k])) && (e == |s| || !IsSpace(s[e]))
    ensures SpacesEnd(s, i) == e
  {
    var e' := SpacesEnd(s, i);
    assert e' == |s| || !IsSpace(s[e']);
  }

  /** The three facts `SpacesStart` ensures determine its value. */
  lemma SpacesStartUnique(s: string, j: nat, b: nat)
    requires b <= j <= |s| && (forall k :: b <= k < j ==> IsSpace(s[k])) && (b == 0 || !IsSpace(s[b - 1]))
    ensures SpacesStart(s, j) == b
  {
    var b' := SpacesStart(s, j);
    assert b' == 0 || !IsSpace(s[b' - 1]);
  }

  /** `strip()`: the result is the slice `s[a..a + |r|]` of `s` where `a` is the number of
      leading whitespace characters, everything cut off on either side is whitespace, and the
      result itself starts and ends with a non-space. */
  function Strip(s: string): (r: string)
    ensures IsTrimmed(r)
    ensures var a := SpacesEnd(s, 0);
      && a + |r| <= |s| && r == s[a..a + |r|]
      && (forall k :: 0 <= k < a ==> IsSpace(s[k]))
      && (forall k :: a + |r| <= k < |s| ==> IsSpace(s[k]))
  {
    var a := SpacesEnd(s, 0);
    if a == |s| then []
    else
      assert !IsSpace(s[a]);
      s[a..SpacesStart(s, |s|)]
  }

  /** Whitespace padding on either side of a trimmed string is exactly what `strip()` removes. */
  lemma StripPadded(w1: string, t: string, w2: string)
    requires AllSpaces(w1) && AllSpaces(w2) && IsTrimmed(t)
    ensures Strip(w1 + t + w2) == t
  {
    var s := w1 + t + w2;
    var a, b := |w1|, |w1| + |t|;
    assert forall k :: 0 <= k < a ==> s[k] == w1[k];
    assert forall k :: b <= k < |s| ==> s[k] == w2[k - b];
    if t == [] {
      SpacesEndUnique(s, 0, |s|);
    } else {
      assert s[a] == t[0] && s[b - 1] == t[|t| - 1];
      SpacesEndUnique(s, 0, a);
      SpacesStartUnique(s, |s|, b);
      assert s[a..b] == t;
    }
  }

  /** The digit a character stands for. */
  function DigitValue(c: char): (d: nat)
    requires IsDigit(c)
    ensures d < 10
  {
    (c as int) - ('0' as int)
  }

  /** The character of a digit value. */
  function DigitChar(d: nat): (c: char)
    requires d < 10
    ensures IsDigit(c) && DigitValue(c) == d
  {
    (('0' as int) + d) as char
  }

  /** `10^k`. */
  function Pow10(k: nat): (p: nat)
    ensures p >= 1
  {
    if k == 0 then 1 else 10 * Pow10(k - 1)
  }

  /** CPython's default `sys.get_int_max_str_digits()`: `int()` of a decimal string with more
      digits than this raises ValueError (leading zeros count), and so does `str()` of a number
      whose numeral would be longer. */
  const MaxStrDigits: nat := 4300

  /** `int(s)` for a run of ASCII digits: the value of `s` read in base 10, leading zeros
      allowed. It has at most `|s|` digits, and no leading zero means a positive value. */
  function DecimalValue(s: string): (n: nat)
    requires AllDigits(s)
    ensures n < Pow10(|s|)
    ensures |s| > 0 && s[0] != '0' ==> n > 0
  {
    if s == [] then 0
    else
      var init := s[..|s| - 1];
      assert AllDigits(init) by {
        forall k | 0 <= k < |init| ensures IsDigit(init[k]) { assert init[k] == s[k]; }
      }
      assert |init| > 0 ==> init[0] == s[0];
      assert Pow10(|s|) == 10 * Pow10(|init|);
      DecimalValue(init) * 10 + DigitValue(s[|s| - 1])
  }

  /** `str(n)` / `f"{n}"`: the shortest decimal numeral of `n`, so a digit string with no
      leading zero (other than the numeral "0" itself). */
  function FormatNat(n: nat): (s: string)
    ensures |s| > 0 && AllDigits(s)
    ensures s[0] == '0' ==> n == 0 && s == "0"
  {
    if n < 10 then [DigitChar(n)] else FormatNat(n / 10) + [DigitChar(n % 10)]
  }

  /** A number below `10^k` has a numeral of at most `k` digits. */
  lemma {:induction false} FormatNatFits(n: nat, k: nat)
    requires 0 < k && n < Pow10(k)
    ensures |FormatNat(n)| <= k
  {
    if n >= 10 {
      assert Pow10(1) == 10;
      assert k >= 2;
      assert Pow10(k) == 10 * Pow10(k - 1);
      FormatNatFits(n / 10, k - 1);
    }
  }

  /** The numeral of `int(s)` is never longer than `s`: a number that `int()` could read is one
      that `str()` can write. */
  lemma DecimalValueFits(s: string)
    requires 0 < |s| && AllDigits(s)
    ensures |FormatNat(DecimalValue(s))| <= |s|
  {
    FormatNatFits(DecimalValue(s), |s|);
  }

  /** Reading a formatted number gives the number back. */
  lemma {:induction false} DecimalValueOfFormat(n: nat)
    ensures DecimalValue(FormatNat(n)) == n
  {
    if n >= 10 {
      var s := FormatNat(n);
      assert s[..|s| - 1] == FormatNat(n / 10);
      DecimalValueOfFormat(n / 10);
    }
  }

  /** Conversely, a digit string without a leading zero is the formatting of its value. */
  lemma {:induction false} FormatOfDecimalValue(s: string)
    requires |s| > 0 && AllDigits(s) && (s[0] != '0' || s == "0")
    ensures FormatNat(DecimalValue(s)) == s
  {
    if |s| > 1 {
      var init := s[..|s| - 1];
      assert init[0] == s[0];
      assert AllDigits(init) by {
        forall k | 0 <= k < |init| ensures IsDigit(init[k]) { assert init[k] == s[k]; }
      }
      FormatOfDecimalValue(init);
      var n := DecimalValue(s);
      assert n / 10 == DecimalValue(init) && n % 10 == DigitValue(s[|s| - 1]);
      assert s == init + [s[|s| - 1]];
    }
  }
}
