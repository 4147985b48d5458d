/** The handful of Python string operations the panel designer relies on:
    `str.strip()`, `str.split(sep)`, `str.replace(pat, "")`, `str.lower()`,
    the substring test `a in b`, and `int(text)` / `str(n)` for decimal
    numbers. Whitespace is Python's full set; case is ASCII only. */
module Text {
  import opened Wrappers

  // ---------------------------------------------------------------- strip

  /** The characters Python's `str.strip()` treats as whitespace (those for
      which `str.isspace()` holds): tab to carriage return, the four ASCII
      separators 0x1C-0x1F, space, and the Unicode line and space separators. */
  predicate IsSpace(c: char) {
    c == ' ' || '\t' <= c <= '\r' || '\U{1C}' <= c <= '\U{1F}'
    || c == '\U{85}' || c == '\U{A0}' || c == '\U{1680}' || '\U{2000}' <= c <= '\U{200A}'
    || c == '\U{2028}' || c == '\U{2029}' || c == '\U{202F}' || c == '\U{205F}' || c == '\U{3000}'
  }

  predicate AllSpace(s: string) {
    forall i :: 0 <= i < |s| ==> IsSpace(s[i])
  }

  /** `s.lstrip()`: the longest suffix of `s` that does not start with whitespace. */
  function TrimLeft(s: string): (r: string)
    ensures |r| <= |s|
    ensures r == [] || !IsSpace(r[0])
  {
    if s != [] && IsSpace(s[0]) then TrimLeft(s[1..]) else s
  }

  /** `s.rstrip()`: the longest prefix of `s` that does not end with whitespace. */
  function TrimRight(s: string): (r: string)
    ensures |r| <= |s|
    ensures r == [] || !IsSpace(r[|r| - 1])
  {
    if s != [] && IsSpace(s[|s| - 1]) then TrimRight(s[..|s| - 1]) else s
  }

  /** `s.strip()`. */
  function Strip(s: string): (r: string)
    ensures |r| <= |s|
    ensures r == [] || (!IsSpace(r[0]) && !IsSpace(r[|r| - 1]))
  {
    TrimRightSpec(TrimLeft(s));
    TrimRight(TrimLeft(s))
  }

  /** `lstrip` keeps a suffix, drops only whitespace, and leaves no leading
      whitespace. */
  lemma {:induction false} TrimLeftSpec(s: string)
    ensures var r := TrimLeft(s);
      |r| <= |s| && r == s[|s| - |r|..] && AllSpace(s[..|s| - |r|]) && (r == [] || !IsSpace(r[0]))
    decreases |s|
  {
    if s != [] && IsSpace(s[0]) {
      TrimLeftSpec(s[1..]);
      var r := TrimLeft(s[1..]);
      assert s[1..][..|s| - 1 - |r|] == s[1..|s| - |r|];
      assert s[..|s| - |r|] == [s[0]] + s[1..|s| - |r|];
    }
  }

  /** `rstrip` keeps a prefix, drops only whitespace, and leaves no trailing
      whitespace. */
  lemma {:induction false} TrimRightSpec(s: string)
    ensures var r := TrimRight(s);
      |r| <= |s| && r == s[..|r|] && AllSpace(s[|r|..]) && (r == [] || !IsSpace(r[|r| - 1]))
    decreases |s|
  {
    if s != [] && IsSpace(s[|s| - 1]) {
      var t := s[..|s| - 1];
      TrimRightSpec(t);
      var r := TrimRight(t);
      assert t[|r|..] + [s[|s| - 1]] == s[|r|..];
    }
  }

  lemma {:induction false} TrimLeftPadded(pre: string, rest: string)
    requires AllSpace(pre) && rest != [] && !IsSpace(rest[0])
    ensures TrimLeft(pre + rest) == rest
    decreases |pre|
  {
    if pre != [] {
      assert (pre + rest)[1..] == pre[1..] + rest;
      TrimLeftPadded(pre[1..], rest);
    }
  }

  lemma {:induction false} TrimRightPadded(rest: string, post: string)
    requires AllSpace(post) && rest != [] && !IsSpace(rest[|rest| - 1])
    ensures TrimRight(rest + post) == rest
    decreases |post|
  {
    if post != [] {
      var n := |post| - 1;
      assert (rest + post)[..|rest + post| - 1] == rest + post[..n];
      TrimRightPadded(rest, post[..n]);
    } else {
      assert rest + post == rest;
    }
  }

  /** Whitespace around a core that neither starts nor ends with whitespace is
      exactly what `strip()` removes. */
  lemma StripPadded(pre: string, core: string, post: string)
    requires AllSpace(pre) && AllSpace(post)
    requires core != [] && !IsSpace(core[0]) && !IsSpace(core[|core| - 1])
    ensures Strip(pre + core + post) == core
  {
    assert pre + core + post == pre + (core + post);
    TrimLeftPadded(pre, core + post);
    TrimRightPadded(core, post);
  }

  /** `strip()` only removes characters, so it never brings in a new one. */
  lemma StripNoNew(s: string, c: char)
    requires c !in s
    ensures c !in Strip(s)
  {
    var l := TrimLeft(s);
    TrimLeftSpec(s);
    TrimRightSpec(l);
  }

  /** Stripping twice is stripping once. */
  lemma StripIdempotent(s: string)
    ensures Strip(Strip(s)) == Strip(s)
  {
  }

  // ---------------------------------------------------------------- digits

  predicate IsDigit(c: char) {
    '0' <= c <= '9'
  }

  predicate AllDigits(s: string) {
    forall i :: 0 <= i < |s| ==> IsDigit(s[i])
  }

  function DigitValue(c: char): (d: nat)
    requires IsDigit(c)
    ensures d < 10
  {
    c as int - '0' as int
  }

  function DigitChar(d: nat): (c: char)
    requires d < 10
    ensures IsDigit(c) && DigitValue(c) == d
  {
    ('0' as int + d) as char
  }

  /** `str(n)` for a non-negative integer: its decimal digits, no leading zero. */
  function NatToString(n: nat): (s: string)
    ensures s != [] && AllDigits(s)
    ensures |s| > 1 ==> s[0] != '0'
  {
    if n < 10 then [DigitChar(n)] else NatToString(n / 10) + [DigitChar(n % 10)]
  }

  /** The value of a string of decimal digits, read most significant first. */
  function DigitsValue(s: string): nat
    requires AllDigits(s)
  {
    if s == [] then 0 else DigitsValue(s[..|s| - 1]) * 10 + DigitValue(s[|s| - 1])
  }

  lemma {:induction false} DigitsRoundTrip(n: nat)
    ensures DigitsValue(NatToString(n)) == n
  {
    if n >= 10 {
      var s := NatToString(n);
      assert s[..|s| - 1] == NatToString(n / 10);
      DigitsRoundTrip(n / 10);
    }
  }

  /** Distinct numbers print differently. */
  lemma NatToStringInjective(m: nat, n: nat)
    requires m != n
    ensures NatToString(m) != NatToString(n)
  {
    DigitsRoundTrip(m);
    DigitsRoundTrip(n);
  }

  /** `int(s)` on a string: surrounding whitespace is ignored, then an optional
      sign and at least one decimal digit; anything else is a `ValueError`,
      modelled as `None`. */
  function ParseInt(s: string): (r: Option<int>)
    ensures r.Some? ==> Strip(s) != [] && AllDigits(Strip(s)[1..])
    ensures r.Some? && r.value < 0 ==> Strip(s)[0] == '-'
  {
    var t := Strip(s);
    if t == [] then None
    else if t[0] == '-' || t[0] == '+' then
      var body := t[1..];
      if body != [] && AllDigits(body) then
        var v: int := DigitsValue(body);
        Some(if t[0] == '-' then -v else v)
      else None
    else if AllDigits(t) then Some(DigitsValue(t))
    else None
  }

  /** `int()` reads back what `str()` printed, whatever whitespace surrounds it. */
  lemma ParseIntOfNat(pre: string, n: nat, post: string)
    requires AllSpace(pre) && AllSpace(post)
    ensures ParseInt(pre + NatToString(n) + post) == Some(n)
  {
    var d := NatToString(n);
    StripPadded(pre, d, post);
    DigitsRoundTrip(n);
  }

  // ---------------------------------------------------------------- split

  /** The inverse of `Split`: the parts glued together with `sep`. */
  function Join(parts: seq<string>, sep: char): string
    requires parts != []
  {
    if |parts| == 1 then parts[0] else parts[0] + [sep] + Join(parts[1..], sep)
  }

  /** `s.split(sep)`: the maximal runs between occurrences of `sep`; there is
      always at least one part, and joining the parts with `sep` gives `s`. */
  function Split(s: string, sep: char): (parts: seq<string>)
    ensures parts != []
    ensures forall i :: 0 <= i < |parts| ==> sep !in parts[i]
    ensures Join(parts, sep) == s
  {
    if s == [] then [[]]
    else
      var rest := Split(s[1..], sep);
      if s[0] == sep then
        assert Join([[]] + rest, sep) == [sep] + Join(rest, sep);
        [[]] + rest
      else
        var parts := [[s[0]] + rest[0]] + rest[1..];
        assert |rest| > 1 ==> rest == [rest[0]] + rest[1..];
        assert Join(parts, sep) == [s[0]] + Join(rest, sep);
        parts
  }

  lemma {:induction false} SplitAfterPrefix(a: string, sep: char, b: string)
    requires sep !in a
    ensures Split(a + [sep] + b, sep) == [a] + Split(b, sep)
  {
    if a != [] {
      assert (a + [sep] + b)[1..] == a[1..] + [sep] + b;
      SplitAfterPrefix(a[1..], sep, b);
      assert [a[0]] + a[1..] == a;
    } else {
      assert (a + [sep] + b)[1..] == b;
    }
  }

  lemma {:induction false} SplitWithoutSep(a: string, sep: char)
    requires sep !in a
    ensures Split(a, sep) == [a]
  {
    if a != [] {
      SplitWithoutSep(a[1..], sep);
      assert [a[0]] + a[1..] == a;
    }
  }

  /** `Split` undoes `Join` when no part contains the separator. */
  lemma {:induction false} SplitOfJoin(parts: seq<string>, sep: char)
    requires parts != []
    requires forall i :: 0 <= i < |parts| ==> sep !in parts[i]
    ensures Split(Join(parts, sep), sep) == parts
  {
    if |parts| == 1 {
      SplitWithoutSep(parts[0], sep);
    } else {
      SplitOfJoin(parts[1..], sep);
      SplitAfterPrefix(parts[0], sep, Join(parts[1..], sep));
    }
  }

  // ---------------------------------------------------------------- replace

  /** `s.replace(pat, "")`: occurrences are removed left to right, never overlapping. */
  function RemoveAll(s: string, pat: string): (r: string)
    requires pat != []
    ensures |r| <= |s|
    decreases |s|
  {
    if |pat| <= |s| && s[..|pat|] == pat then RemoveAll(s[|pat|..], pat)
    else if s == [] then []
    else [s[0]] + RemoveAll(s[1..], pat)
  }

  /** Text free of the pattern's first character passes through untouched. */
  lemma {:induction false} RemoveAllPrefix(a: string, b: string, pat: string)
    requires pat != [] && pat[0] !in a
    ensures RemoveAll(a + b, pat) == a + RemoveAll(b, pat)
  {
    if a != [] {
      var s := a + b;
      assert s[0] == a[0] != pat[0];
      assert !(|pat| <= |s| && s[..|pat|] == pat) by {
        if |pat| <= |s| { assert s[..|pat|][0] == a[0]; }
      }
      assert RemoveAll(s, pat) == [s[0]] + RemoveAll(s[1..], pat);
      assert s[1..] == a[1..] + b;
      RemoveAllPrefix(a[1..], b, pat);
      assert a == [a[0]] + a[1..];
    } else {
      assert a + b == b;
    }
  }

  lemma RemoveAllLeading(b: string, pat: string)
    requires pat != []
    ensures RemoveAll(pat + b, pat) == RemoveAll(b, pat)
  {
    assert (pat + b)[..|pat|] == pat;
    assert (pat + b)[|pat|..] == b;
  }

  // ---------------------------------------------------------------- case, search

  function LowerChar(c: char): char {
    if 'A' <= c <= 'Z' then (c as int + 32) as char else c
  }

  /** `s.lower()` on ASCII letters. */
  function Lower(s: string): (r: string)
    ensures |r| == |s|
    ensures forall i :: 0 <= i < |s| ==> r[i] == LowerChar(s[i])
  {
    seq(|s|, i requires 0 <= i < |s| => LowerChar(s[i]))
  }

  /** Python's `needle in hay` on strings. */
  predicate Contains(hay: string, needle: string) {
    exists i :: 0 <= i <= |hay| && needle <= hay[i..]
  }
}
