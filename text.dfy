/** The Python `str` built-ins that the monitor, helper and window code rely on
    (`isspace`, `strip`, `startswith`, `replace`, `int`), the character classes
    of Python regular expressions, and leftmost search as `re.search` does it. */
module Text {

  datatype Option<+T> = None | Some(value: T)

  /** `str.isspace()`; the same set is what `\s` matches in a `str` pattern. */
  predicate IsSpace(c: char) {
    ('\t' <= c <= '\r') || ('\U{1c}' <= c <= '\U{1f}') || c == ' ' || c == '\U{85}' || c == '\U{a0}'
    || c == '\U{1680}' || ('\U{2000}' <= c <= '\U{200a}') || c == '\U{2028}' || c == '\U{2029}'
    || c == '\U{202f}' || c == '\U{205f}' || c == '\U{3000}'
  }

  /** `\d`, restricted to ASCII digits. */
  predicate IsDigit(c: char) {
    '0' <= c <= '9'
  }

  /** `\w`, restricted to ASCII letters, digits and underscore. */
  predicate IsWordChar(c: char) {
    'a' <= c <= 'z' || 'A' <= c <= 'Z' || IsDigit(c) || c == '_'
  }

  /** `\b` at position `e` of `s`: a word character on exactly one side. */
  predicate Boundary(s: string, e: nat)
    requires e <= |s|
  {
    (0 < e && IsWordChar(s[e - 1])) != (e < |s| && IsWordChar(s[e]))
  }

  /** Every character of `s[a..b]` satisfies `p`. */
  predicate AllIn(s: string, a: nat, b: nat, p: char -> bool)
    requires a <= b <= |s|
  {
    forall j :: a <= j < b ==> p(s[j])
  }

  /** The end of the longest run of `p`-characters starting at `k`. */
  function SkipWhile(s: string, k: nat, p: char -> bool): (e: nat)
    requires k <= |s|
    ensures k <= e <= |s| && AllIn(s, k, e, p)
    ensures e < |s| ==> !p(s[e])
    decreases |s| - k
  {
    if k < |s| && p(s[k]) then SkipWhile(s, k + 1, p) else k
  }

  /** Any run of `p`-characters starting at `k` ends at or before `SkipWhile(s, k, p)`,
      and a run that stops early stops at a `p`-character. */
  lemma RunWithin(s: string, k: nat, e: nat, p: char -> bool)
    requires k <= e <= |s| && AllIn(s, k, e, p)
    ensures e <= SkipWhile(s, k, p)
    ensures e < SkipWhile(s, k, p) ==> p(s[e])
  {
  }

  function StartsWith(s: string, prefix: string): bool {
    |prefix| <= |s| && s[..|prefix|] == prefix
  }

  /** `pat` occurs somewhere in `s`. */
  ghost predicate Contains(s: string, pat: string) {
    exists i :: 0 <= i <= |s| && StartsWith(s[i..], pat)
  }

  /** `s.rstrip()` */
  function TrimRight(s: string): (r: string)
    ensures |r| <= |s| && r == s[..|r|] && AllIn(s, |r|, |s|, IsSpace)
    ensures r == [] || !IsSpace(r[|r| - 1])
  {
    if |s| > 0 && IsSpace(s[|s| - 1]) then TrimRight(s[..|s| - 1]) else s
  }

  /** s[a..b] is s with its leading and trailing whitespace runs taken off. */
  ghost predicate StrippedSpan(s: string, a: nat, b: nat) {
    a <= b <= |s| && AllIn(s, 0, a, IsSpace) && AllIn(s, b, |s|, IsSpace)
    && (a == b || (!IsSpace(s[a]) && !IsSpace(s[b - 1])))
  }

  /** `s.strip()`: the result is the middle of `s` between two runs of whitespace,
      and neither begins nor ends with whitespace. */
  function Strip(s: string): (r: string)
    ensures r == [] || (!IsSpace(r[0]) && !IsSpace(r[|r| - 1]))
    ensures exists a: nat, b: nat :: StrippedSpan(s, a, b) && r == s[a..b]
  {
    var a := SkipWhile(s, 0, IsSpace);
    var r := TrimRight(s[a..]);
    assert r == s[a..a + |r|];
    assert AllIn(s, a + |r|, |s|, IsSpace) by {
      forall j | a + |r| <= j < |s| ensures IsSpace(s[j]) {
        assert s[j] == s[a..][j - a];
      }
    }
    assert r != [] ==> s[a] == r[0] && s[a + |r| - 1] == r[|r| - 1];
    assert StrippedSpan(s, a, a + |r|);
    r
  }

  /** Two such spans cut out the same text. */
  lemma {:induction false} StrippedSpanUnique(s: string, a: nat, b: nat, a': nat, b': nat)
    requires StrippedSpan(s, a, b) && StrippedSpan(s, a', b')
    ensures s[a..b] == s[a'..b']
  {
    if a < b && a' < b' {
      assert a == a' && b == b';
    } else if a < b {
      assert false;
    } else if a' < b' {
      assert false;
    }
  }

  /** The two runs of whitespace around the stripped text are the longest ones,
      so stripping is determined by the characterisation in Strip's contract. */
  lemma {:induction false} StripUnique(s: string, a: nat, b: nat)
    requires a <= b <= |s| && AllIn(s, 0, a, IsSpace) && AllIn(s, b, |s|, IsSpace)
    requires a == b || (!IsSpace(s[a]) && !IsSpace(s[b - 1]))
    ensures Strip(s) == s[a..b]
  {
    var r := Strip(s);
    var a': nat, b': nat :| StrippedSpan(s, a', b') && r == s[a'..b'];
    StrippedSpanUnique(s, a, b, a', b');
  }

  /** Stripping twice is stripping once (`load_character_monitor` strips the
      selection and `get_latest_log` strips the same name again). */
  lemma StripIdempotent(s: string)
    ensures Strip(Strip(s)) == Strip(s)
  {
    var r := Strip(s);
    StripUnique(r, 0, |r|);
  }

  /** `s.replace(pat, rep)`: scan left to right, replacing each non-overlapping
      occurrence of `pat`. */
  function ReplaceAll(s: string, pat: string, rep: string): (r: string)
    requires pat != []
    ensures rep == [] ==> |r| <= |s|
    decreases |s|
  {
    if s == [] then []
    else if StartsWith(s, pat) then rep + ReplaceAll(s[|pat|..], pat, rep)
    else [s[0]] + ReplaceAll(s[1..], pat, rep)
  }

  /** With nothing to find, `replace` returns its input unchanged. */
  lemma {:induction false} ReplaceAllAbsent(s: string, pat: string, rep: string)
    requires pat != [] && !Contains(s, pat)
    ensures ReplaceAll(s, pat, rep) == s
    decreases |s|
  {
    if s != [] {
      assert s[0..] == s;
      assert !StartsWith(s, pat);
      assert !Contains(s[1..], pat) by {
        forall i | 0 <= i <= |s[1..]| ensures !StartsWith(s[1..][i..], pat) {
          assert s[1..][i..] == s[i + 1..];
        }
      }
      ReplaceAllAbsent(s[1..], pat, rep);
    }
  }

  /** Text in which no occurrence of `pat` starts is copied as it is, and the
      scan carries on with what follows. */
  lemma {:induction false} ReplaceSkipsHead(a: string, pat: string, rest: string)
    requires pat != []
    requires forall i :: 0 <= i < |a| ==> !StartsWith((a + rest)[i..], pat)
    ensures ReplaceAll(a + rest, pat, "") == a + ReplaceAll(rest, pat, "")
    decreases |a|
  {
    if a == [] {
      assert a + rest == rest;
    } else {
      var s := a + rest;
      assert s[0..] == s;
      assert s[1..] == a[1..] + rest;
      forall i | 0 <= i < |a[1..]| ensures !StartsWith((a[1..] + rest)[i..], pat) {
        assert (a[1..] + rest)[i..] == s[i + 1..];
      }
      ReplaceSkipsHead(a[1..], pat, rest);
      assert [a[0]] + (a[1..] + ReplaceAll(rest, pat, "")) == a + ReplaceAll(rest, pat, "");
    }
  }

  /** An occurrence of `pat` after `a` is removed, not only one at the start:
      removing from `a + pat + b` gives `a` followed by the removal from `b`,
      when no occurrence starts inside `a`. */
  lemma ReplaceRemovesOccurrence(a: string, pat: string, b: string)
    requires pat != []
    requires forall i :: 0 <= i < |a| ==> !StartsWith((a + pat + b)[i..], pat)
    ensures ReplaceAll(a + pat + b, pat, "") == a + ReplaceAll(b, pat, "")
  {
    assert a + pat + b == a + (pat + b);
    ReplaceSkipsHead(a, pat, pat + b);
    assert (pat + b)[..|pat|] == pat && (pat + b)[|pat|..] == b;
    assert ReplaceAll(pat + b, pat, "") == "" + ReplaceAll(b, pat, "");
    assert "" + ReplaceAll(b, pat, "") == ReplaceAll(b, pat, "");
  }

  function DigitValue(c: char): nat
    requires IsDigit(c)
  {
    c as int - '0' as int
  }

  /** The value of a string of ASCII decimal digits. */
  function DigitsValue(t: string): nat
    requires forall j :: 0 <= j < |t| ==> IsDigit(t[j])
  {
    if t == [] then 0 else 10 * DigitsValue(t[..|t| - 1]) + DigitValue(t[|t| - 1])
  }

  /** `int(t)` for the strings a `\d+` group can hold: `None` stands for the
      `ValueError` that `int` raises on anything else. */
  function ParseInt(t: string): (r: Option<nat>)
    ensures r.Some? <==> t != [] && forall j :: 0 <= j < |t| ==> IsDigit(t[j])
  {
    if t != [] && forall j :: 0 <= j < |t| ==> IsDigit(t[j]) then Some(DigitsValue(t)) else None
  }

  /** `re.search`: try start positions 0, 1, ..., |s| in turn and keep the first
      at which the pattern (here `at`) matches; the result is that position and
      what the match captured. */
  function FirstFrom<T>(s: string, i: nat, at: (string, nat) -> Option<T>): (r: Option<(nat, T)>)
    ensures r.Some? ==> i <= r.value.0 <= |s| && at(s, r.value.0) == Some(r.value.1)
                        && forall j :: i <= j < r.value.0 ==> at(s, j).None?
    ensures r.None? ==> forall j :: i <= j <= |s| ==> at(s, j).None?
    decreases |s| + 1 - i
  {
    if i > |s| then None
    else match at(s, i)
      case Some(v) => Some((i, v))
      case None => FirstFrom(s, i + 1, at)
  }

  function Search<T>(s: string, at: (string, nat) -> Option<T>): Option<(nat, T)> {
    FirstFrom(s, 0, at)
  }
}
