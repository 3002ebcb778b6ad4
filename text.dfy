/** String helpers with Python's meaning: the whitespace set of `str.strip()`
    and of the regular-expression class `\s`, `strip`, `rstrip`, `replace`,
    `startswith`/`endswith`, `count`, `str(int)` and `int(str)`. */
module Text {
  import opened Wrappers

  /** Python's whitespace characters (`Py_UNICODE_ISSPACE`): the set that
      `str.strip()`, `str.isspace()` and `\s` in a `str` pattern all use. */
  predicate IsSpace(c: char) {
    ('\t' <= c <= '\r') || ('\U{1C}' <= c <= '\U{1F}') || c == ' '
    || c == '\U{85}' || c == '\U{A0}' || c == '\U{1680}'
    || ('\U{2000}' <= c <= '\U{200A}') || c == '\U{2028}' || c == '\U{2029}'
    || c == '\U{202F}' || c == '\U{205F}' || c == '\U{3000}'
  }

  /** `s.strip() == ""`: every character is whitespace. */
  predicate IsBlank(s: string) {
    forall i | 0 <= i < |s| :: IsSpace(s[i])
  }

  /** Python's `s.lstrip()`. */
  function TrimStart(s: string): (r: string)
    ensures |r| <= |s|
  {
    if s != [] && IsSpace(s[0]) then TrimStart(s[1..]) else s
  }

  /** lstrip removes whitespace only, and all of it. */
  lemma {:induction false} TrimStartMargins(s: string)
    ensures TrimStart(s) == s[|s| - |TrimStart(s)|..]
    ensures IsBlank(s[..|s| - |TrimStart(s)|])
    ensures TrimStart(s) == [] || !IsSpace(TrimStart(s)[0])
  {
    if s != [] && IsSpace(s[0]) {
      TrimStartMargins(s[1..]);
      var k := |s| - |TrimStart(s)|;
      assert s[..k] == [s[0]] + s[1..][..k - 1];
    }
  }

  /** Python's `s.rstrip()`. */
  function TrimEnd(s: string): (r: string)
    ensures |r| <= |s|
  {
    if s != [] && IsSpace(s[|s| - 1]) then TrimEnd(s[..|s| - 1]) else s
  }

  /** rstrip removes whitespace only, and all of it. */
  lemma {:induction false} TrimEndMargins(s: string)
    ensures TrimEnd(s) == s[..|TrimEnd(s)|]
    ensures IsBlank(s[|TrimEnd(s)|..])
    ensures TrimEnd(s) == [] || !IsSpace(TrimEnd(s)[|TrimEnd(s)| - 1])
  {
    if s != [] && IsSpace(s[|s| - 1]) {
      TrimEndMargins(s[..|s| - 1]);
      var k := |TrimEnd(s)|;
      assert s[k..] == s[..|s| - 1][k..] + [s[|s| - 1]];
    }
  }

  /** Python's `s.strip()`. */
  function Strip(s: string): (r: string)
    ensures |r| <= |s|
    ensures r == [] <==> IsBlank(s)
    ensures r == [] || (!IsSpace(r[0]) && !IsSpace(r[|r| - 1]))
  {
    var t := TrimStart(s);
    TrimStartMargins(s);
    TrimEndMargins(t);
    assert IsBlank(t) ==> IsBlank(s) by {
      if IsBlank(t) {
        assert t == [];
        assert s == s[..|s| - |t|];
      }
    }
    TrimEnd(t)
  }

  /** Strip removes only blank margins: its result is a slice of the input
      with whitespace on either side. */
  lemma StripSlice(s: string) returns (i: nat, j: nat)
    ensures i <= j <= |s| && Strip(s) == s[i..j]
    ensures IsBlank(s[..i]) && IsBlank(s[j..])
  {
    var t := TrimStart(s);
    TrimStartMargins(s);
    TrimEndMargins(t);
    i := |s| - |t|;
    j := i + |TrimEnd(t)|;
    assert t[|TrimEnd(t)|..] == s[j..];
  }

  /** The characters of `s` other than whitespace, in order: the text a
      whitespace clean-up has to keep. */
  function NonSpace(s: string): (r: string)
    ensures |r| <= |s|
    ensures forall i | 0 <= i < |r| :: !IsSpace(r[i])
  {
    if s == [] then []
    else if IsSpace(s[0]) then NonSpace(s[1..])
    else [s[0]] + NonSpace(s[1..])
  }

  lemma {:induction false} NonSpaceAppend(a: string, b: string)
    ensures NonSpace(a + b) == NonSpace(a) + NonSpace(b)
  {
    if a != [] {
      assert (a + b)[0] == a[0];
      assert (a + b)[1..] == a[1..] + b;
      NonSpaceAppend(a[1..], b);
      if !IsSpace(a[0]) {
        assert [a[0]] + (NonSpace(a[1..]) + NonSpace(b)) == ([a[0]] + NonSpace(a[1..])) + NonSpace(b);
      }
    } else {
      assert a + b == b;
    }
  }

  /** Nothing but whitespace is lost exactly when the text is blank. */
  lemma {:induction false} NonSpaceEmpty(s: string)
    ensures NonSpace(s) == [] <==> IsBlank(s)
  {
    if s != [] {
      NonSpaceEmpty(s[1..]);
      assert IsBlank(s) <==> IsSpace(s[0]) && IsBlank(s[1..]) by {
        assert forall k | 1 <= k < |s| :: s[k] == s[1..][k - 1];
      }
    }
  }

  /** strip() keeps every character that is not whitespace. */
  lemma StripKeepsText(s: string)
    ensures NonSpace(Strip(s)) == NonSpace(s)
  {
    var i, j := StripSlice(s);
    assert s == (s[..i] + s[i..j]) + s[j..];
    NonSpaceAppend(s[..i] + s[i..j], s[j..]);
    NonSpaceAppend(s[..i], s[i..j]);
    NonSpaceEmpty(s[..i]);
    NonSpaceEmpty(s[j..]);
  }

  /** Python's `s.split()`: the maximal runs of non-whitespace, in order. */
  function Words(s: string): (r: seq<string>)
    ensures s != [] && !IsSpace(s[0]) ==> r != []
    decreases |s|
  {
    if s == [] then []
    else if IsSpace(s[0]) then Words(s[1..])
    else if |s| > 1 && !IsSpace(s[1]) then
      var rest := Words(s[1..]);
      [[s[0]] + rest[0]] + rest[1..]
    else [[s[0]]] + Words(s[1..])
  }

  /** `" ".join(words)`. */
  function JoinWords(words: seq<string>): string
    decreases |words|
  {
    if words == [] then []
    else if |words| == 1 then words[0]
    else words[0] + " " + JoinWords(words[1..])
  }

  /** A leading non-space character joins the first word of the rest, or
      starts a word of its own. */
  lemma WordsCons(c: char, x: string)
    requires !IsSpace(c)
    ensures Words([c] + x) ==
      if x != [] && !IsSpace(x[0]) then [[c] + Words(x)[0]] + Words(x)[1..]
      else [[c]] + Words(x)
  {
    assert ([c] + x)[1..] == x;
  }

  lemma WordsSpaceCons(c: char, x: string)
    requires IsSpace(c)
    ensures Words([c] + x) == Words(x)
  {
    assert ([c] + x)[1..] == x;
  }

  /** Leading whitespace does not change the words. */
  lemma {:induction false} WordsBlankPrefix(p: string, x: string)
    requires IsBlank(p)
    ensures Words(p + x) == Words(x)
  {
    if p != [] {
      WordsBlankPrefix(p[1..], x);
      assert p + x == [p[0]] + (p[1..] + x);
      WordsSpaceCons(p[0], p[1..] + x);
    } else {
      assert p + x == x;
    }
  }

  /** Trailing whitespace does not change the words. */
  lemma {:induction false} WordsBlankSuffix(x: string, q: string)
    requires IsBlank(q)
    ensures Words(x + q) == Words(x)
  {
    if x == [] {
      assert x + q == q + [];
      WordsBlankPrefix(q, []);
    } else {
      WordsBlankSuffix(x[1..], q);
      assert x + q == [x[0]] + (x[1..] + q);
      assert x == [x[0]] + x[1..];
      if IsSpace(x[0]) {
        WordsSpaceCons(x[0], x[1..] + q);
        WordsSpaceCons(x[0], x[1..]);
      } else {
        WordsCons(x[0], x[1..] + q);
        WordsCons(x[0], x[1..]);
        if x[1..] != [] {
          assert (x[1..] + q)[0] == x[1..][0];
        }
      }
    }
  }

  /** strip() keeps the words. */
  lemma StripWords(s: string)
    ensures Words(Strip(s)) == Words(s)
  {
    var i, j := StripSlice(s);
    assert s == s[..i] + (s[i..j] + s[j..]);
    WordsBlankPrefix(s[..i], s[i..j] + s[j..]);
    WordsBlankSuffix(s[i..j], s[j..]);
  }

  /** Strip leaves a string without whitespace margins unchanged. */
  lemma StripUnchanged(s: string)
    requires s == [] || (!IsSpace(s[0]) && !IsSpace(s[|s| - 1]))
    ensures Strip(s) == s
  {
  }

  /** Python's `s.rstrip(c)` for a single character. */
  function TrimEndChar(s: string, c: char): (r: string)
    ensures |r| <= |s|
    ensures r == [] || r[|r| - 1] != c
  {
    if s != [] && s[|s| - 1] == c then TrimEndChar(s[..|s| - 1], c) else s
  }

  /** rstrip(c) removes a run of `c` at the end and nothing else. */
  lemma {:induction false} TrimEndCharSlice(s: string, c: char)
    ensures TrimEndChar(s, c) == s[..|TrimEndChar(s, c)|]
    ensures forall k | |TrimEndChar(s, c)| <= k < |s| :: s[k] == c
  {
    if s != [] && s[|s| - 1] == c {
      TrimEndCharSlice(s[..|s| - 1], c);
    }
  }

  predicate StartsWith(s: string, p: string) {
    |p| <= |s| && s[..|p|] == p
  }

  predicate EndsWith(s: string, p: string) {
    |p| <= |s| && s[|s| - |p|..] == p
  }

  /** `p` occurs in `s` starting at index `i`. */
  predicate OccursAt(s: string, p: string, i: int) {
    0 <= i && i + |p| <= |s| && s[i..i + |p|] == p
  }

  /** Python's `s.replace(pat, rep)`: every non-overlapping occurrence of
      `pat`, scanning left to right, is replaced. */
  function Replace(s: string, pat: string, rep: string): (r: string)
    requires pat != []
    ensures |rep| <= |pat| ==> |r| <= |s|
    ensures |pat| <= |rep| ==> |s| <= |r|
    ensures rep == pat ==> r == s
    decreases |s|
  {
    if |s| < |pat| then s
    else if s[..|pat|] == pat then
      assert s == s[..|pat|] + s[|pat|..];
      rep + Replace(s[|pat|..], pat, rep)
    else
      assert s == [s[0]] + s[1..];
      [s[0]] + Replace(s[1..], pat, rep)
  }

  /** Replacing a pattern that does not occur changes nothing. */
  lemma {:induction false} ReplaceAbsent(s: string, pat: string, rep: string)
    requires pat != []
    requires forall i :: !OccursAt(s, pat, i)
    ensures Replace(s, pat, rep) == s
    decreases |s|
  {
    if |s| >= |pat| {
      assert !OccursAt(s, pat, 0);
      assert s[..|pat|] == s[0..|pat|];
      forall i ensures !OccursAt(s[1..], pat, i) {
        if OccursAt(s[1..], pat, i) {
          assert s[1..][i..i + |pat|] == s[i + 1..i + 1 + |pat|];
          assert OccursAt(s, pat, i + 1);
        }
      }
      ReplaceAbsent(s[1..], pat, rep);
    }
  }

  /** A pattern whose first character is absent from `s` does not occur. */
  lemma FirstCharAbsent(s: string, pat: string)
    requires pat != [] && pat[0] !in s
    ensures forall i :: !OccursAt(s, pat, i)
  {
  }

  /** Python's `s.count(c)` for a single character. */
  function Count(s: string, c: char): (n: nat)
    ensures n <= |s|
    ensures n == 0 <==> c !in s
  {
    if s == [] then 0 else Count(s[..|s| - 1], c) + (if s[|s| - 1] == c then 1 else 0)
  }

  lemma {:induction false} CountAppend(a: string, b: string, c: char)
    ensures Count(a + b, c) == Count(a, c) + Count(b, c)
    decreases |b|
  {
    if b == [] {
      assert a + b == a;
    } else {
      assert (a + b)[..|a + b| - 1] == a + b[..|b| - 1];
      CountAppend(a, b[..|b| - 1], c);
    }
  }

  /** Deleting every occurrence of a pattern that does not contain `c`
      leaves the number of `c` characters unchanged. */
  lemma {:induction false} CountAfterDeletion(s: string, pat: string, c: char)
    requires pat != [] && c !in pat
    ensures Count(Replace(s, pat, ""), c) == Count(s, c)
    decreases |s|
  {
    if |s| < |pat| {
    } else if s[..|pat|] == pat {
      var rest := s[|pat|..];
      assert s == pat + rest;
      assert Replace(s, pat, "") == Replace(rest, pat, "") by {
        assert "" + Replace(rest, pat, "") == Replace(rest, pat, "");
      }
      CountAppend(pat, rest, c);
      CountAfterDeletion(rest, pat, c);
    } else {
      var rest := s[1..];
      assert s == [s[0]] + rest;
      assert Replace(s, pat, "") == [s[0]] + Replace(rest, pat, "");
      CountAppend([s[0]], rest, c);
      CountAppend([s[0]], Replace(rest, pat, ""), c);
      CountAfterDeletion(rest, pat, c);
    }
  }

  predicate IsDigit(c: char) {
    '0' <= c <= '9'
  }

  predicate AllDigits(s: string) {
    forall i | 0 <= i < |s| :: IsDigit(s[i])
  }

  function DigitChar(d: nat): (c: char)
    requires d < 10
    ensures IsDigit(c) && c as int - '0' as int == d
  {
    ('0' as int + d) as char
  }

  /** The value of a non-empty run of decimal digits. */
  function DigitsValue(s: string): nat
    requires AllDigits(s)
  {
    if s == [] then 0 else DigitsValue(s[..|s| - 1]) * 10 + (s[|s| - 1] as int - '0' as int)
  }

  /** Python's `str(n)` for a non-negative integer. */
  function NatToString(n: nat): (r: string)
    ensures |r| > 0 && AllDigits(r)
    ensures r[0] == '0' ==> n == 0
  {
    if n < 10 then [DigitChar(n)] else NatToString(n / 10) + [DigitChar(n % 10)]
  }

  /** Python's `str(i)`. */
  function IntToString(i: int): (r: string)
    ensures |r| > 0 && (r[0] == '-' <==> i < 0)
    ensures i >= 0 ==> AllDigits(r)
    ensures i < 0 ==> AllDigits(r[1..])
  {
    if i < 0 then "-" + NatToString(-i) else NatToString(i)
  }

  lemma {:induction false} NatToStringValue(n: nat)
    ensures DigitsValue(NatToString(n)) == n
  {
    if n >= 10 {
      var s := NatToString(n);
      assert s[..|s| - 1] == NatToString(n / 10);
      NatToStringValue(n / 10);
    }
  }

  /** `str` is injective on integers: distinct counts give distinct text. */
  lemma IntToStringInjective(a: int, b: int)
    requires IntToString(a) == IntToString(b)
    ensures a == b
  {
    if a < 0 {
      assert NatToString(-a) == IntToString(a)[1..] == IntToString(b)[1..] == NatToString(-b);
      NatToStringValue(-a);
      NatToStringValue(-b);
    } else {
      NatToStringValue(a);
      NatToStringValue(b);
    }
  }

  /** Digits with single underscores between them, as Python's `int()`
      accepts them (`1_000`). */
  predicate IsDigitGroup(s: string) {
    && |s| > 0 && IsDigit(s[0]) && IsDigit(s[|s| - 1])
    && (forall i | 0 <= i < |s| :: IsDigit(s[i]) || s[i] == '_')
    && NoDoubleUnderscore(s)
  }

  /** No two underscores are adjacent. */
  predicate NoDoubleUnderscore(s: string) {
    |s| < 2 || (!(s[0] == '_' && s[1] == '_') && NoDoubleUnderscore(s[1..]))
  }

  lemma {:induction false} DigitsHaveNoDoubleUnderscore(s: string)
    requires AllDigits(s)
    ensures NoDoubleUnderscore(s)
  {
    if |s| >= 2 {
      DigitsHaveNoDoubleUnderscore(s[1..]);
    }
  }

  function RemoveUnderscores(s: string): (r: string)
    requires forall i | 0 <= i < |s| :: IsDigit(s[i]) || s[i] == '_'
    ensures AllDigits(r)
  {
    if s == [] then []
    else if s[0] == '_' then RemoveUnderscores(s[1..])
    else [s[0]] + RemoveUnderscores(s[1..])
  }

  lemma RemoveUnderscoresOfDigits(s: string)
    requires AllDigits(s)
    ensures RemoveUnderscores(s) == s
  {
  }

  /** The value of a digit group. */
  function GroupValue(s: string): nat
    requires IsDigitGroup(s)
  {
    DigitsValue(RemoveUnderscores(s))
  }

  /** The ASCII information separators U+001C to U+001F: whitespace to
      `str.strip()`, but not to `int()`, which skips only ASCII's space, tab
      and line-break characters and the non-ASCII whitespace. */
  predicate IsSeparator(c: char) {
    '\U{1C}' <= c <= '\U{1F}'
  }

  /** Python's `int(text)` in base 10: surrounding whitespace, an optional
      sign and a digit group; `None` where Python raises `ValueError`. A
      separator is refused wherever it stands; without one, the whitespace
      `int()` skips is the whitespace `strip()` removes. */
  function ParseInt(text: string): (r: Option<int>)
    ensures IsBlank(text) ==> r.None?
  {
    if exists i | 0 <= i < |text| :: IsSeparator(text[i]) then None
    else ParseSigned(Strip(text))
  }

  /** `int` on text that has no whitespace margins. */
  function ParseSigned(t: string): Option<int> {
    if t != [] && t[0] == '-' then
      if IsDigitGroup(t[1..]) then Some(-(GroupValue(t[1..]) as int)) else None
    else if t != [] && t[0] == '+' then
      if IsDigitGroup(t[1..]) then Some(GroupValue(t[1..])) else None
    else if IsDigitGroup(t) then Some(GroupValue(t))
    else None
  }

  /** A bare digit string is a digit group worth its decimal value. */
  lemma ParseDigits(s: string)
    requires |s| > 0 && AllDigits(s)
    ensures IsDigitGroup(s) && GroupValue(s) == DigitsValue(s)
  {
    DigitsHaveNoDoubleUnderscore(s);
    RemoveUnderscoresOfDigits(s);
  }

  /** Digit strings have no whitespace margins. */
  lemma DigitsUnstripped(s: string)
    requires |s| > 0 && IsDigit(s[|s| - 1]) && (IsDigit(s[0]) || s[0] == '-')
    ensures Strip(s) == s
  {
    StripUnchanged(s);
  }

  /** A digit string is read as its value. */
  lemma ParseSignedDigits(d: string)
    requires |d| > 0 && AllDigits(d)
    ensures ParseSigned(d) == Some(DigitsValue(d) as int)
  {
    ParseDigits(d);
  }

  /** `int(s)` for a minus sign followed by digits is minus their value. */
  lemma ParseNegativeDigits(s: string)
    requires |s| > 1 && s[0] == '-' && AllDigits(s[1..])
    ensures ParseInt(s) == Some(-(DigitsValue(s[1..]) as int))
  {
    ParseDigits(s[1..]);
    assert s[|s| - 1] == s[1..][|s| - 2];
    DigitsUnstripped(s);
    assert forall i | 1 <= i < |s| :: s[i] == s[1..][i - 1];
  }

  /** `int(d)` for a digit string `d` is its value. */
  lemma ParseNonNegativeDigits(d: string)
    requires |d| > 0 && AllDigits(d)
    ensures ParseInt(d) == Some(DigitsValue(d) as int)
  {
    ParseSignedDigits(d);
    DigitsUnstripped(d);
  }

  /** `int(str(n)) == n`. */
  lemma ParseIntRoundTrip(n: int)
    ensures ParseInt(IntToString(n)) == Some(n)
  {
    var s := IntToString(n);
    if n < 0 {
      var digits := s[1..];
      assert digits == NatToString(-n);
      NatToStringValue(-n);
      assert DigitsValue(digits) as int == -n;
      ParseNegativeDigits(s);
    } else {
      NatToStringValue(n);
      ParseNonNegativeDigits(s);
    }
  }

  /** Python's `c.lower()` restricted to ASCII letters. */
  function AsciiLower(c: char): char {
    if 'A' <= c <= 'Z' then (c as int + 32) as char else c
  }
}
