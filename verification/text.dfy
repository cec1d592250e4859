/** String operations the task code relies on: JavaScript's `trim`,
    `toLowerCase`, `includes`, the `\d{4}-\d{2}-\d{2}` date shape, and
    decimal rendering of integers. */
module Text {

  /** The characters `String.prototype.trim` removes: the ECMAScript
      WhiteSpace and LineTerminator code points. */
  predicate IsWhitespace(c: char)
  {
    || c == '\t' || c == '\n' || c == '\U{000B}' || c == '\U{000C}' || c == '\r'
    || c == ' ' || c == '\U{00A0}' || c == '\U{1680}'
    || ('\U{2000}' <= c <= '\U{200A}')
    || c == '\U{2028}' || c == '\U{2029}' || c == '\U{202F}' || c == '\U{205F}'
    || c == '\U{3000}' || c == '\U{FEFF}'
  }

  predicate AllWhitespace(s: string)
  {
    forall i :: 0 <= i < |s| ==> IsWhitespace(s[i])
  }

  /** The first index at or after `k` that holds a visible character, or
      `|s|` when there is none. */
  function SkipBlanks(s: string, k: nat): (n: nat)
    requires k <= |s|
    ensures k <= n <= |s|
    ensures forall j :: k <= j < n ==> IsWhitespace(s[j])
    ensures n < |s| ==> !IsWhitespace(s[n])
    decreases |s| - k
  {
    if k < |s| && IsWhitespace(s[k]) then SkipBlanks(s, k + 1) else k
  }

  /** Just past the last visible character in `s[lo..k]`, or `lo` when
      there is none. */
  function BackOverBlanks(s: string, lo: nat, k: nat): (m: nat)
    requires lo <= k <= |s|
    ensures lo <= m <= k
    ensures forall j :: m <= j < k ==> IsWhitespace(s[j])
    ensures m > lo ==> !IsWhitespace(s[m - 1])
    decreases k
  {
    if k > lo && IsWhitespace(s[k - 1]) then BackOverBlanks(s, lo, k - 1) else k
  }

  /** `s.trim()`: the slice of `s` between its leading and trailing
      whitespace. It is empty exactly when `s` is all whitespace. */
  function Trim(s: string): (r: string)
    ensures var i := SkipBlanks(s, 0);
            && i + |r| <= |s| && r == s[i..i + |r|]
            && (forall j :: 0 <= j < i ==> IsWhitespace(s[j]))
            && (forall j :: i + |r| <= j < |s| ==> IsWhitespace(s[j]))
    ensures |r| > 0 ==> !IsWhitespace(r[0]) && !IsWhitespace(r[|r| - 1])
    ensures |r| == 0 <==> AllWhitespace(s)
  {
    var i := SkipBlanks(s, 0);
    s[i..BackOverBlanks(s, i, |s|)]
  }

  /** Trimming twice changes nothing. */
  lemma TrimIdempotent(s: string)
    ensures Trim(Trim(s)) == Trim(s)
  {
    var r := Trim(s);
    if |r| > 0 {
      assert SkipBlanks(r, 0) == 0;
      assert BackOverBlanks(r, 0, |r|) == |r|;
      assert r[0..|r|] == r;
    }
  }

  /** A blank string: the test `s.trim().length === 0`. */
  predicate IsBlank(s: string)
  {
    |Trim(s)| == 0
  }

  /** A string with a visible character is not blank. */
  lemma VisibleNotBlank(s: string, i: nat)
    requires i < |s| && !IsWhitespace(s[i])
    ensures !IsBlank(s)
  {
  }

  /** The UTF-16 code units JavaScript stores for one character: the
      character itself in the Basic Multilingual Plane, a surrogate pair
      above it. */
  function CodeUnitsOf(c: char): (r: seq<int>)
    ensures |r| == if c as int < 0x1_0000 then 1 else 2
    ensures forall k :: 0 <= k < |r| ==> 0 <= r[k] < 0x1_0000
  {
    if c as int < 0x1_0000 then [c as int]
    else
      var v := c as int - 0x1_0000;
      [0xD800 + v / 0x400, 0xDC00 + v % 0x400]
  }

  /** A string as the sequence of UTF-16 code units JavaScript sees. */
  function CodeUnits(s: string): (r: seq<int>)
    ensures |s| <= |r| <= 2 * |s|
  {
    if |s| == 0 then [] else CodeUnitsOf(s[0]) + CodeUnits(s[1..])
  }

  /** `s.length`: the number of UTF-16 code units, so a character outside
      the Basic Multilingual Plane (an emoji, say) counts twice. */
  function Utf16Length(s: string): nat
  {
    |CodeUnits(s)|
  }

  /** The code units of a concatenation are those of its parts. */
  lemma {:induction false} CodeUnitsAppend(a: string, b: string)
    ensures CodeUnits(a + b) == CodeUnits(a) + CodeUnits(b)
  {
    if |a| > 0 {
      assert (a + b)[1..] == a[1..] + b;
      CodeUnitsAppend(a[1..], b);
    } else {
      assert a + b == b;
    }
  }

  /** Trimming never makes a string longer in code units. */
  lemma TrimNoLonger(s: string)
    ensures Utf16Length(Trim(s)) <= Utf16Length(s)
  {
    var r := Trim(s);
    var i := SkipBlanks(s, 0);
    var j := i + |r|;
    assert s == s[..i] + (r + s[j..]);
    CodeUnitsAppend(s[..i], r + s[j..]);
    CodeUnitsAppend(r, s[j..]);
  }

  /** Without characters outside the Basic Multilingual Plane, `.length`
      is the number of characters. */
  lemma {:induction false} BmpLength(s: string)
    requires forall k :: 0 <= k < |s| ==> s[k] as int < 0x1_0000
    ensures Utf16Length(s) == |s|
  {
    if |s| > 0 {
      BmpLength(s[1..]);
    }
  }

  /** A string made only of characters outside the Basic Multilingual
      Plane has a `.length` of twice its number of characters. */
  lemma {:induction false} AstralLength(s: string)
    requires forall k :: 0 <= k < |s| ==> s[k] as int >= 0x1_0000
    ensures Utf16Length(s) == 2 * |s|
  {
    if |s| > 0 {
      AstralLength(s[1..]);
    }
  }

  function LowerChar(c: char): char
  {
    if 'A' <= c <= 'Z' then (c as int + 32) as char else c
  }

  /** `s.toLowerCase()` restricted to the ASCII letters. */
  function ToLower(s: string): (r: string)
    ensures |r| == |s|
    ensures forall i :: 0 <= i < |s| ==> r[i] == LowerChar(s[i])
  {
    if |s| == 0 then [] else [LowerChar(s[0])] + ToLower(s[1..])
  }

  /** `p` occurs in `s` at position `i`. */
  predicate OccursAt(s: string, p: string, i: int)
  {
    0 <= i && i + |p| <= |s| && s[i..i + |p|] == p
  }

  /** `s.includes(p)`. */
  predicate Contains(s: string, p: string)
  {
    exists i :: 0 <= i <= |s| - |p| && OccursAt(s, p, i)
  }

  /** A string that ends with `p` contains it. */
  lemma ContainsSuffix(a: string, p: string)
    ensures Contains(a + p, p)
  {
    assert OccursAt(a + p, p, |a|);
  }

  /** A string contains `p` as soon as one of its parts does. */
  lemma ContainsInLeft(a: string, b: string, p: string)
    requires Contains(a, p)
    ensures Contains(a + b, p)
  {
    var i :| 0 <= i <= |a| - |p| && OccursAt(a, p, i);
    assert (a + b)[i..i + |p|] == a[i..i + |p|];
    assert OccursAt(a + b, p, i);
  }

  /** If a character of `p` does not occur in `s`, neither does `p`. */
  lemma NoMatchMissingChar(s: string, p: string, k: nat)
    requires k < |p| && p[k] !in s
    ensures !Contains(s, p)
  {
    forall i | 0 <= i <= |s| - |p| ensures !OccursAt(s, p, i) {
      assert s[i..i + |p|][k] == s[i + k];
    }
  }

  /** `p` does not occur in `a + b` when it occurs in neither part and the
      last character of `a` cannot end a proper prefix of `p`, so no
      occurrence can straddle the join. */
  lemma NoMatchAcrossJoin(a: string, b: string, p: string)
    requires |a| > 0 && |p| > 0
    requires a[|a| - 1] !in p[..|p| - 1]
    requires !Contains(a, p) && !Contains(b, p)
    ensures !Contains(a + b, p)
  {
    var s := a + b;
    forall i | 0 <= i <= |s| - |p| ensures !OccursAt(s, p, i) {
      if i + |p| <= |a| {
        assert s[i..i + |p|] == a[i..i + |p|];
        assert !OccursAt(a, p, i);
      } else if i >= |a| {
        assert s[i..i + |p|] == b[i - |a|..i - |a| + |p|];
        assert !OccursAt(b, p, i - |a|);
      } else {
        var k := |a| - 1 - i;
        assert s[i..i + |p|][k] == a[|a| - 1];
        assert p[k] == p[..|p| - 1][k];
      }
    }
  }

  /** `s.split(c)[0]`: the text before the first `c`, or all of `s`. */
  function PrefixBefore(s: string, c: char): (r: string)
    ensures |r| <= |s| && r == s[..|r|]
    ensures c !in r
    ensures |r| < |s| ==> s[|r|] == c
  {
    if |s| == 0 || s[0] == c then "" else [s[0]] + PrefixBefore(s[1..], c)
  }

  /** Cutting at the first `c` twice is cutting once. */
  lemma PrefixBeforeIdempotent(s: string, c: char)
    ensures PrefixBefore(PrefixBefore(s, c), c) == PrefixBefore(s, c)
  {
    PrefixBeforeAbsent(PrefixBefore(s, c), c);
  }

  /** A string without `c` is its own prefix before `c`. */
  lemma {:induction false} PrefixBeforeAbsent(s: string, c: char)
    requires c !in s
    ensures PrefixBefore(s, c) == s
  {
    if |s| > 0 {
      assert c !in s[1..];
      PrefixBeforeAbsent(s[1..], c);
    }
  }

  predicate IsDigit(c: char)
  {
    '0' <= c <= '9'
  }

  /** The regular expression `^\d{4}-\d{2}-\d{2}`: the string starts with a
      `full-date` shaped prefix (section 5.6 of RFC 3339); anything may follow. */
  predicate HasDatePrefix(s: string)
  {
    && |s| >= 10
    && IsDigit(s[0]) && IsDigit(s[1]) && IsDigit(s[2]) && IsDigit(s[3])
    && s[4] == '-'
    && IsDigit(s[5]) && IsDigit(s[6])
    && s[7] == '-'
    && IsDigit(s[8]) && IsDigit(s[9])
  }

  /** The regular expression `^\d{4}-\d{2}-\d{2}$`: exactly a date shape. */
  predicate IsDateShape(s: string)
  {
    HasDatePrefix(s) && |s| == 10
  }

  function DigitChar(d: nat): char
    requires d < 10
  {
    ('0' as int + d) as char
  }

  /** Decimal digits of a natural number, most significant first. */
  function NatToString(n: nat): (r: string)
    ensures |r| > 0
    ensures forall i :: 0 <= i < |r| ==> IsDigit(r[i])
    decreases n
  {
    if n < 10 then [DigitChar(n)] else NatToString(n / 10) + [DigitChar(n % 10)]
  }

  /** Value of a string of decimal digits. */
  function DigitsValue(s: string): nat
    requires forall i :: 0 <= i < |s| ==> IsDigit(s[i])
  {
    if |s| == 0 then 0
    else assert IsDigit(s[|s| - 1]); 10 * DigitsValue(s[..|s| - 1]) + (s[|s| - 1] as int - '0' as int)
  }

  /** Reading back the rendered digits gives the number. */
  lemma {:induction false} NatToStringRoundTrip(n: nat)
    ensures DigitsValue(NatToString(n)) == n
    decreases n
  {
    var r := NatToString(n);
    if n >= 10 {
      NatToStringRoundTrip(n / 10);
      assert r[..|r| - 1] == NatToString(n / 10);
    }
  }

  /** JavaScript's rendering of an integer-valued number (`${n}`). */
  function IntToString(n: int): (r: string)
    ensures |r| > 0
    ensures n >= 0 ==> IsDigit(r[0])
    ensures n < 0 ==> r[0] == '-' && r[1..] == NatToString(-n)
  {
    if n < 0 then "-" + NatToString(-n) else NatToString(n)
  }

  /** Different integers are written differently. */
  lemma IntToStringInjective(n: int, m: int)
    requires n != m
    ensures IntToString(n) != IntToString(m)
  {
    var a, b := IntToString(n), IntToString(m);
    if n >= 0 && m >= 0 {
      NatToStringRoundTrip(n);
      NatToStringRoundTrip(m);
    } else if n < 0 && m < 0 {
      NatToStringRoundTrip(-n);
      NatToStringRoundTrip(-m);
      assert a[1..] != b[1..];
    } else {
      assert a[0] != b[0];
    }
  }
}
