/** Python string primitives that the scripts rely on, with the character
    classes CPython uses for `str` (not `bytes`) values. */
module PyText {

  /** The characters for which CPython's `str.isspace()` holds.  The regex
      class `\s` on a `str` pattern and the argument-less `str.strip()` use
      the same set. */
  predicate IsSpace(c: char) {
    || ('\t' <= c <= '\r')
    || ('\U{1C}' <= c <= '\U{1F}')
    || c == ' ' || c == '\U{85}' || c == '\U{A0}' || c == '\U{1680}'
    || ('\U{2000}' <= c <= '\U{200A}')
    || c == '\U{2028}' || c == '\U{2029}' || c == '\U{202F}' || c == '\U{205F}' || c == '\U{3000}'
  }

  /** The line boundaries of `str.splitlines()` (`\r\n` counts as one). */
  predicate IsLineBreak(c: char) {
    || c == '\n' || c == '\r' || c == '\U{0B}' || c == '\U{0C}'
    || ('\U{1C}' <= c <= '\U{1E}')
    || c == '\U{85}' || c == '\U{2028}' || c == '\U{2029}'
  }

  predicate IsAsciiDigit(c: char) { '0' <= c <= '9' }

  /** The regex class `[A-Za-z0-9]`. */
  predicate IsAsciiAlnum(c: char) { ('A' <= c <= 'Z') || ('a' <= c <= 'z') || ('0' <= c <= '9') }

  predicate AllSpace(s: string) { forall k :: 0 <= k < |s| ==> IsSpace(s[k]) }

  /** `r` occurs in `s` as a contiguous piece. */
  ghost predicate IsInfix(r: string, s: string) {
    exists a, b :: 0 <= a <= b <= |s| && r == s[a..b]
  }

  lemma InfixTransitive(r: string, s: string, t: string)
    requires IsInfix(r, s) && IsInfix(s, t)
    ensures IsInfix(r, t)
  {
    var a, b :| 0 <= a <= b <= |s| && r == s[a..b];
    var c, d :| 0 <= c <= d <= |t| && s == t[c..d];
    assert forall k :: 0 <= k < |r| ==> r[k] == s[a + k];
    assert forall k :: 0 <= k < |s| ==> s[k] == t[c + k];
    assert r == t[c + a..c + b];
  }

  // ---------------------------------------------------------------------
  // Whitespace

  /** The first index at or after `i` that does not hold a space: what the
      greedy regex `\s*` consumes when it starts at `i`. */
  function SkipSpace(s: string, i: nat): (j: nat)
    requires i <= |s|
    ensures i <= j <= |s|
    ensures forall k :: i <= k < j ==> IsSpace(s[k])
    ensures j < |s| ==> !IsSpace(s[j])
    decreases |s| - i
  {
    if i == |s| || !IsSpace(s[i]) then i else SkipSpace(s, i + 1)
  }

  /** The end of `s[lo..hi]` once its trailing spaces are dropped. */
  function TrimEnd(s: string, lo: nat, hi: nat): (e: nat)
    requires lo <= hi <= |s|
    ensures lo <= e <= hi
    ensures forall k :: e <= k < hi ==> IsSpace(s[k])
    ensures e > lo ==> !IsSpace(s[e - 1])
    decreases hi
  {
    if hi == lo || !IsSpace(s[hi - 1]) then hi else TrimEnd(s, lo, hi - 1)
  }

  /** `r` is `s` without its leading and trailing spaces. */
  ghost predicate IsStripOf(r: string, s: string) {
    exists a, b ::
      && 0 <= a <= b <= |s| && r == s[a..b]
      && AllSpace(s[..a]) && AllSpace(s[b..])
      && (r != [] ==> !IsSpace(r[0]) && !IsSpace(r[|r| - 1]))
  }

  /** `str.strip()` with no argument. */
  function Strip(s: string): (r: string)
    ensures IsStripOf(r, s)
    ensures IsInfix(r, s)
    ensures r == [] <==> AllSpace(s)
  {
    var a := SkipSpace(s, 0);
    var b := TrimEnd(s, a, |s|);
    assert AllSpace(s[..a]) && AllSpace(s[b..]);
    assert a == |s| ==> AllSpace(s);
    s[a..b]
  }

  /** A string with no space at either end is its own strip. */
  lemma StripUnpadded(s: string)
    requires s != [] ==> !IsSpace(s[0]) && !IsSpace(s[|s| - 1])
    ensures Strip(s) == s
  {
  }

  // ---------------------------------------------------------------------
  // Lines

  /** The first line break at or after `i`, or `|s|`. */
  function NextBreak(s: string, i: nat): (j: nat)
    requires i <= |s|
    ensures i <= j <= |s|
    ensures forall k :: i <= k < j ==> !IsLineBreak(s[k])
    ensures j < |s| ==> IsLineBreak(s[j])
    decreases |s| - i
  {
    if i == |s| || IsLineBreak(s[i]) then i else NextBreak(s, i + 1)
  }

  /** `str.splitlines()`: a final line break does not open an empty line. */
  function SplitLines(s: string): (r: seq<string>)
    ensures forall k :: 0 <= k < |r| ==> IsInfix(r[k], s)
    ensures forall k, i :: 0 <= k < |r| && 0 <= i < |r[k]| ==> !IsLineBreak(r[k][i])
    ensures s != [] ==> r != []
    decreases |s|
  {
    if s == [] then []
    else
      var j := NextBreak(s, 0);
      if j == |s| then
        assert s == s[0..|s|];
        [s]
      else
        var skip := if s[j] == '\r' && j + 1 < |s| && s[j + 1] == '\n' then 2 else 1;
        var rest := SplitLines(s[j + skip..]);
        assert s[..j] == s[0..j];
        forall k | 0 <= k < |rest| ensures IsInfix(rest[k], s) {
          assert s[j + skip..] == s[j + skip..|s|];
          InfixTransitive(rest[k], s[j + skip..], s);
        }
        [s[..j]] + rest
  }

  /** `[x.strip() for x in pieces if x.strip()]`. */
  function StrippedNonEmpty(pieces: seq<string>): (r: seq<string>)
    ensures forall k :: 0 <= k < |r| ==> r[k] != ""
    ensures forall k :: 0 <= k < |r| ==> exists j :: 0 <= j < |pieces| && r[k] == Strip(pieces[j])
    decreases |pieces|
  {
    if pieces == [] then []
    else
      var p := Strip(pieces[0]);
      var rest := StrippedNonEmpty(pieces[1..]);
      forall k | 0 <= k < |rest| ensures exists j :: 0 <= j < |pieces| && rest[k] == Strip(pieces[j]) {
        var j :| 0 <= j < |pieces[1..]| && rest[k] == Strip(pieces[1..][j]);
        assert pieces[1..][j] == pieces[j + 1];
      }
      (if p == "" then [] else [p]) + rest
  }

  // ---------------------------------------------------------------------
  // Replacement

  /** `s.replace(k, v)` for a one-character `k`: every occurrence of `k` is
      replaced, characters are never rescanned. */
  function ReplaceChar(s: string, k: char, v: string): (r: string)
    ensures |s| == 0 ==> r == []
    decreases |s|
  {
    if s == [] then []
    else (if s[0] == k then v else [s[0]]) + ReplaceChar(s[1..], k, v)
  }

  /** A text without `k` is left as it is. */
  lemma {:induction false} ReplaceCharAbsent(s: string, k: char, v: string)
    requires k !in s
    ensures ReplaceChar(s, k, v) == s
    decreases |s|
  {
    if s != [] {
      ReplaceCharAbsent(s[1..], k, v);
      assert s == [s[0]] + s[1..];
    }
  }

  /** When the replacement holds no `k`, none is left. */
  lemma {:induction false} ReplaceCharRemoves(s: string, k: char, v: string)
    requires k !in v
    ensures k !in ReplaceChar(s, k, v)
    decreases |s|
  {
    if s != [] {
      ReplaceCharRemoves(s[1..], k, v);
    }
  }

  lemma {:induction false} ReplaceCharAppend(a: string, b: string, k: char, v: string)
    ensures ReplaceChar(a + b, k, v) == ReplaceChar(a, k, v) + ReplaceChar(b, k, v)
    decreases |a|
  {
    if a == [] {
      assert a + b == b;
    } else {
      var head := if a[0] == k then v else [a[0]];
      calc {
        ReplaceChar(a + b, k, v);
        { assert (a + b)[0] == a[0]; assert (a + b)[1..] == a[1..] + b; }
        head + ReplaceChar(a[1..] + b, k, v);
        { ReplaceCharAppend(a[1..], b, k, v); }
        head + (ReplaceChar(a[1..], k, v) + ReplaceChar(b, k, v));
      }
    }
  }

  /** `s.replace(pat, rep)` for a non-empty `pat`: leftmost, non-overlapping
      occurrences, scanning resumes after each replaced occurrence. */
  function ReplaceAll(s: string, pat: string, rep: string): (r: string)
    requires |pat| > 0
    ensures |s| < |pat| ==> r == s
    decreases |s|
  {
    if |s| < |pat| then s
    else if s[..|pat|] == pat then rep + ReplaceAll(s[|pat|..], pat, rep)
    else [s[0]] + ReplaceAll(s[1..], pat, rep)
  }

  /** Every character of the result comes from the text or from the
      replacement. */
  lemma {:induction false} ReplaceAllChars(s: string, pat: string, rep: string, c: char)
    requires |pat| > 0
    ensures c in ReplaceAll(s, pat, rep) ==> c in s || c in rep
    decreases |s|
  {
    if |s| >= |pat| && c in ReplaceAll(s, pat, rep) {
      if s[..|pat|] == pat {
        if c !in rep {
          ReplaceAllChars(s[|pat|..], pat, rep, c);
          assert s[|pat|..] == s[|pat|..];
          assert forall x :: x in s[|pat|..] ==> x in s;
        }
      } else if c != s[0] {
        ReplaceAllChars(s[1..], pat, rep, c);
      }
    }
  }

  /** With a one-character pattern the two definitions agree. */
  lemma {:induction false} ReplaceAllOneChar(s: string, k: char, v: string)
    ensures ReplaceAll(s, [k], v) == ReplaceChar(s, k, v)
    decreases |s|
  {
    if s != [] {
      ReplaceAllOneChar(s[1..], k, v);
      if s[0] == k {
        assert s[..1] == [k];
      } else {
        assert s[..1] != [k];
      }
    }
  }

  /** `sep.join(parts)`. */
  function Join(sep: string, parts: seq<string>): (r: string)
    ensures |parts| == 1 ==> r == parts[0]
    ensures parts == [] ==> r == []
  {
    if parts == [] then []
    else if |parts| == 1 then parts[0]
    else parts[0] + sep + Join(sep, parts[1..])
  }

  /** `sep` occurs in `s` at index `j`. */
  predicate OccursAt(s: string, sep: string, j: nat) {
    j + |sep| <= |s| && s[j..j + |sep|] == sep
  }

  /** The first index `j >= i` at which `sep` occurs in `s`, or `|s|`. */
  function FindFrom(s: string, sep: string, i: nat): (r: nat)
    requires |sep| > 0 && i <= |s|
    ensures i <= r <= |s|
    ensures r < |s| ==> OccursAt(s, sep, r)
    ensures forall j :: i <= j < r ==> !OccursAt(s, sep, j)
    decreases |s| - i
  {
    if i + |sep| > |s| then |s|
    else if s[i..i + |sep|] == sep then i
    else FindFrom(s, sep, i + 1)
  }

  /** `s.split(sep)` for a non-empty separator. */
  function Split(s: string, sep: string): (r: seq<string>)
    requires |sep| > 0
    ensures |r| > 0
    ensures forall k :: 0 <= k < |r| ==> IsInfix(r[k], s)
    decreases |s|
  {
    var j := FindFrom(s, sep, 0);
    if j == |s| then
      assert s == s[0..|s|];
      [s]
    else
      var rest := Split(s[j + |sep|..], sep);
      assert s[..j] == s[0..j];
      forall k | 0 <= k < |rest| ensures IsInfix(rest[k], s) {
        assert s[j + |sep|..] == s[j + |sep|..|s|];
        InfixTransitive(rest[k], s[j + |sep|..], s);
      }
      [s[..j]] + rest
  }

  /** Splitting and joining with the same separator gives back the string. */
  lemma {:induction false} JoinSplit(s: string, sep: string)
    requires |sep| > 0
    ensures Join(sep, Split(s, sep)) == s
    decreases |s|
  {
    var j := FindFrom(s, sep, 0);
    if j < |s| {
      var tail := s[j + |sep|..];
      var rest := Split(tail, sep);
      JoinSplit(tail, sep);
      assert Split(s, sep) == [s[..j]] + rest;
      assert Join(sep, [s[..j]] + rest) == s[..j] + sep + Join(sep, rest);
      assert s[j..j + |sep|] == sep;
      assert s == s[..j] + s[j..j + |sep|] + tail;
    }
  }

  // ---------------------------------------------------------------------
  // Integers

  function DigitChar(d: nat): (c: char)
    requires d < 10
    ensures IsAsciiDigit(c) && (c as int) - ('0' as int) == d
  {
    (('0' as int) + d) as char
  }

  /** `str(n)` for a non-negative integer. */
  function NatToString(n: nat): (r: string)
    ensures |r| > 0
    ensures forall k :: 0 <= k < |r| ==> IsAsciiDigit(r[k])
    ensures |r| > 1 ==> r[0] != '0'
    decreases n
  {
    if n < 10 then [DigitChar(n)] else NatToString(n / 10) + [DigitChar(n % 10)]
  }

  /** `str(i)` for any integer. */
  function IntToString(i: int): (r: string)
    ensures i >= 0 ==> r == NatToString(i)
    ensures i < 0 ==> r == "-" + NatToString(-i)
  {
    if i < 0 then "-" + NatToString(-i) else NatToString(i)
  }

  /** The value of a string of ASCII digits (`int(s)` on such a string). */
  function DigitsValue(s: string): (n: nat)
    requires forall k :: 0 <= k < |s| ==> IsAsciiDigit(s[k])
    decreases |s|
  {
    if s == [] then 0
    else
      assert IsAsciiDigit(s[|s| - 1]);
      10 * DigitsValue(s[..|s| - 1]) + ((s[|s| - 1] as int) - ('0' as int))
  }

  lemma {:induction false} DigitsValueOfNatToString(n: nat)
    ensures DigitsValue(NatToString(n)) == n
    decreases n
  {
    if n >= 10 {
      DigitsValueOfNatToString(n / 10);
      var s := NatToString(n);
      assert s[..|s| - 1] == NatToString(n / 10);
    }
  }

  /** Leading zeros do not change the value. */
  lemma {:induction false} DigitsValueLeadingZero(s: string)
    requires forall k :: 0 <= k < |s| ==> IsAsciiDigit(s[k])
    ensures DigitsValue("0" + s) == DigitsValue(s)
    decreases |s|
  {
    if s != [] {
      assert ("0" + s)[..|"0" + s| - 1] == "0" + s[..|s| - 1];
      DigitsValueLeadingZero(s[..|s| - 1]);
    }
  }

  /** `f"{n:0{width}d}"` for a non-negative integer. */
  function ZeroPad(n: nat, width: nat): (r: string)
    ensures |r| == if |NatToString(n)| < width then width else |NatToString(n)|
    ensures forall k :: 0 <= k < |r| ==> IsAsciiDigit(r[k])
  {
    var d := NatToString(n);
    if |d| < width then seq(width - |d|, _ => '0') + d else d
  }

  /** The padding is zeros and the digits of `n` end the string. */
  lemma ZeroPadShape(n: nat, width: nat)
    ensures var r, d := ZeroPad(n, width), NatToString(n);
      && r[|r| - |d|..] == d
      && forall k :: 0 <= k < |r| - |d| ==> r[k] == '0'
  {
  }

  /** `ZeroPad` loses nothing: distinct numbers give distinct strings. */
  lemma ZeroPadInjective(m: nat, n: nat, width: nat)
    requires ZeroPad(m, width) == ZeroPad(n, width)
    ensures m == n
  {
    var s := ZeroPad(m, width);
    ZeroPadValue(m, width);
    ZeroPadValue(n, width);
  }

  lemma {:induction false} ZeroPadValue(n: nat, width: nat)
    ensures DigitsValue(ZeroPad(n, width)) == n
  {
    var d := NatToString(n);
    DigitsValueOfNatToString(n);
    if |d| < width {
      ZerosPrefixValue(width - |d|, d);
    }
  }

  lemma {:induction false} ZerosPrefixValue(k: nat, d: string)
    requires forall i :: 0 <= i < |d| ==> IsAsciiDigit(d[i])
    ensures DigitsValue(seq(k, _ => '0') + d) == DigitsValue(d)
    decreases k
  {
    if k > 0 {
      var rest := seq(k - 1, _ => '0') + d;
      assert seq(k, _ => '0') + d == "0" + rest;
      DigitsValueLeadingZero(rest);
      ZerosPrefixValue(k - 1, d);
    } else {
      assert seq(k, _ => '0') + d == d;
    }
  }
}
