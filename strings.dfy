/** Character-string helpers with the meaning Python gives them:
    `sub in s`, `s.startswith(p)`, `str` ordering, `int(s)` and `s.lstrip(c)`. */
module Strings {

  import opened Wrappers

  predicate IsDigit(c: char) {
    '0' <= c <= '9'
  }

  predicate AllDigits(s: string) {
    forall i :: 0 <= i < |s| ==> IsDigit(s[i])
  }

  /** Python's `sub in s`, case-sensitive. */
  predicate Contains(s: string, sub: string)
    decreases |s|
  {
    sub <= s || (|s| > 0 && Contains(s[1..], sub))
  }

  /** `sub` occurs in `s` starting at position `i`. */
  predicate OccursAt(s: string, sub: string, i: int) {
    0 <= i <= |s| - |sub| && s[i..i + |sub|] == sub
  }

  /** `Contains` agrees with the positional definition of a substring. */
  lemma {:induction false} ContainsAt(s: string, sub: string)
    ensures Contains(s, sub) <==> exists i :: OccursAt(s, sub, i)
    decreases |s|
  {
    if Contains(s, sub) {
      if sub <= s {
        assert OccursAt(s, sub, 0);
      } else {
        ContainsAt(s[1..], sub);
        var i :| OccursAt(s[1..], sub, i);
        TailSlice(s, i, i + |sub|);
        assert OccursAt(s, sub, i + 1);
      }
    }
    if exists i :: OccursAt(s, sub, i) {
      var i :| OccursAt(s, sub, i);
      if i == 0 {
        assert sub <= s;
      } else {
        TailSlice(s, i - 1, i - 1 + |sub|);
        assert OccursAt(s[1..], sub, i - 1);
        ContainsAt(s[1..], sub);
      }
    }
  }

  /** A slice of the tail is the slice of the whole shifted by one. */
  lemma TailSlice(s: string, i: int, j: int)
    requires 0 <= i <= j <= |s| - 1
    ensures s[1..][i..j] == s[i + 1..j + 1]
  {
    forall k | 0 <= k < j - i ensures s[1..][i..j][k] == s[i + 1..j + 1][k] {
      assert s[1..][i..j][k] == s[1..][i + k] == s[i + 1 + k];
    }
  }

  /** A prefix is contained. */
  lemma PrefixIsContained(s: string, p: string)
    requires p <= s
    ensures Contains(s, p)
  {
  }

  /** Containment is transitive: a column containing "G11" contains "G1". */
  lemma ContainsTransitive(s: string, m: string, sub: string)
    requires Contains(s, m) && Contains(m, sub)
    ensures Contains(s, sub)
  {
    ContainsAt(s, m);
    ContainsAt(m, sub);
    var i :| OccursAt(s, m, i);
    var j :| OccursAt(m, sub, j);
    forall k | 0 <= k < |sub|
      ensures s[i + j + k] == sub[k]
    {
      assert m[j + k] == sub[k];
      assert s[i + (j + k)] == m[j + k];
    }
    assert s[i + j..i + j + |sub|] == sub;
    assert OccursAt(s, sub, i + j);
    ContainsAt(s, sub);
  }

  /** Python's ordering of `str` values: lexicographic by code point. */
  predicate LexLess(a: string, b: string)
    decreases |a|
  {
    if a == [] then b != []
    else if b == [] then false
    else if a[0] != b[0] then a[0] < b[0]
    else LexLess(a[1..], b[1..])
  }

  lemma {:induction false} LexLessIrreflexive(a: string)
    ensures !LexLess(a, a)
    decreases |a|
  {
    if a != [] {
      LexLessIrreflexive(a[1..]);
    }
  }

  lemma {:induction false} LexLessTransitive(a: string, b: string, c: string)
    requires LexLess(a, b) && LexLess(b, c)
    ensures LexLess(a, c)
    decreases |a|
  {
    if a != [] && a[0] == b[0] && b[0] == c[0] {
      LexLessTransitive(a[1..], b[1..], c[1..]);
    }
  }

  lemma {:induction false} LexLessTotal(a: string, b: string)
    ensures a == b || LexLess(a, b) || LexLess(b, a)
    decreases |a|
  {
    if a != [] && b != [] && a[0] == b[0] {
      LexLessTotal(a[1..], b[1..]);
      if a[1..] == b[1..] {
        assert a == [a[0]] + a[1..] && b == [b[0]] + b[1..];
      }
    }
  }

  /** The numeric value of a string of decimal digits. */
  function DigitsValue(s: string): (n: nat)
    requires AllDigits(s)
  {
    if s == [] then 0 else DigitsValue(s[..|s| - 1]) * 10 + (s[|s| - 1] - '0') as int
  }

  /** The decimal digits of a natural number, without leading zeros. */
  function DecimalString(n: nat): (s: string)
    ensures AllDigits(s) && s != []
  {
    if n < 10 then ['0' + n as char] else DecimalString(n / 10) + ['0' + (n % 10) as char]
  }

  lemma {:induction false} DecimalRoundTrip(n: nat)
    ensures DigitsValue(DecimalString(n)) == n
  {
    var s := DecimalString(n);
    if n >= 10 {
      DecimalRoundTrip(n / 10);
      assert s[..|s| - 1] == DecimalString(n / 10);
    }
  }

  /** The value of a nonempty string of decimal digits; None for any
      other string. Scans from the right, one digit at a time. */
  function ScanDigits(s: string): Option<nat> {
    if s == [] || !IsDigit(s[|s| - 1]) then None
    else if |s| == 1 then Some((s[0] - '0') as int)
    else
      match ScanDigits(s[..|s| - 1])
      case None => None
      case Some(v) => Some(v * 10 + (s[|s| - 1] - '0') as int)
  }

  /** The scanner accepts exactly the nonempty all-digit strings, with their value. */
  lemma {:induction false} ScanDigitsCorrect(s: string)
    ensures ScanDigits(s) == if s != [] && AllDigits(s) then Some(DigitsValue(s)) else None
  {
    if s != [] && IsDigit(s[|s| - 1]) && |s| > 1 {
      var init := s[..|s| - 1];
      ScanDigitsCorrect(init);
      if AllDigits(s) {
        assert AllDigits(init);
      } else {
        var i :| 0 <= i < |s| && !IsDigit(s[i]);
        assert i < |s| - 1 && init[i] == s[i];
      }
    }
  }

  /** Python's `int(s)` on an optionally signed string of ASCII digits;
      any other string raises ValueError, modelled as None. */
  function ParseInt(s: string): Option<int> {
    if s != [] && (s[0] == '+' || s[0] == '-') then
      match ScanDigits(s[1..])
      case None => None
      case Some(v) => Some(if s[0] == '-' then -(v as int) else v as int)
    else
      match ScanDigits(s)
      case None => None
      case Some(v) => Some(v)
  }

  /** A plain digit string parses to its value; printing a number and
      parsing it back gives the number. */
  lemma ParseIntDigits(s: string)
    requires s != [] && AllDigits(s)
    ensures ParseInt(s) == Some(DigitsValue(s))
  {
    ScanDigitsCorrect(s);
    assert IsDigit(s[0]);
  }

  /** `int()` on text: an optional sign followed by at least one digit,
      and nothing else, has a value. */
  lemma ParseIntCorrect(s: string)
    ensures ParseInt(s) ==
      if s != [] && AllDigits(s) then Some(DigitsValue(s))
      else if |s| >= 2 && (s[0] == '+' || s[0] == '-') && AllDigits(s[1..]) then
        Some(if s[0] == '-' then -(DigitsValue(s[1..]) as int) else DigitsValue(s[1..]) as int)
      else None
  {
    if s != [] && (s[0] == '+' || s[0] == '-') {
      ScanDigitsCorrect(s[1..]);
      assert !IsDigit(s[0]);
    } else {
      ScanDigitsCorrect(s);
    }
  }

  lemma ParseDecimalString(n: nat)
    ensures ParseInt(DecimalString(n)) == Some(n)
  {
    ParseIntDigits(DecimalString(n));
    DecimalRoundTrip(n);
  }

  /** Python's `s.lstrip(c)` for a single character. */
  function LStrip(s: string, c: char): (r: string)
    ensures |r| <= |s| && r == s[|s| - |r|..] && (r == [] || r[0] != c)
    ensures forall i :: 0 <= i < |s| - |r| ==> s[i] == c
  {
    if s != [] && s[0] == c then LStrip(s[1..], c) else s
  }

  /** The text before the first occurrence of `c` (Python's `s.split(c)[0]`). */
  function UpTo(s: string, c: char): (r: string)
    ensures r <= s && c !in r
    ensures |r| < |s| ==> s[|r|] == c
  {
    if s == [] || s[0] == c then [] else [s[0]] + UpTo(s[1..], c)
  }

  /** Splitting `word + rest` at `c` yields `word` when `word` holds no `c`
      and `rest` is empty or starts with `c`. */
  lemma {:induction false} UpToHead(word: string, rest: string, c: char)
    requires c !in word && (rest == [] || rest[0] == c)
    ensures UpTo(word + rest, c) == word
  {
    if word != [] {
      assert (word + rest)[1..] == word[1..] + rest;
      UpToHead(word[1..], rest, c);
    }
  }

  /** Stripping `c` from `[c] + s`, where `s` does not start with `c`, gives `s`. */
  lemma LStripOne(s: string, c: char)
    requires s == [] || s[0] != c
    ensures LStrip([c] + s, c) == s
  {
    assert ([c] + s)[1..] == s;
  }
}
