/** The counting classifier that `monitor_log_updates` (monitor.py) applies to
    every line read from the tail of a fleet log: a line with a dash resets the
    counter to 0; otherwise an "x-up" token (` > x`, ` > x5`, ` > 5x`, ...) adds
    its multiplier; any other line leaves the counter alone. */
module LineClassifier {
  import opened Text

  /** `x` under `re.IGNORECASE`. */
  predicate IsX(c: char) {
    c == 'x' || c == 'X'
  }

  /** The literal space of ` *` (not `\s`). */
  predicate IsBlank(c: char) {
    c == ' '
  }

  // ---------------------------------------------------------------------------
  // The two patterns read literally: which spans s[i..e] they match.
  // ---------------------------------------------------------------------------

  /** ` > *` matches s[i..k]. */
  ghost predicate LeadSpan(s: string, i: nat, k: nat) {
    i + 2 <= k <= |s| && s[i] == ' ' && s[i + 1] == '>' && AllIn(s, i + 2, k, IsBlank)
  }

  /** `x+\s?\d*` matches s[k..e]. */
  ghost predicate XRunSpan(s: string, k: nat, e: nat) {
    exists a: nat, b: nat :: k < a <= b <= e <= |s| && AllIn(s, k, a, IsX)
      && (b == a || (b == a + 1 && IsSpace(s[a]))) && AllIn(s, b, e, IsDigit)
  }

  /** `\d\s?x` matches s[k..e]. */
  ghost predicate DigitXSpan(s: string, k: nat, e: nat) {
    (e == k + 2 && e <= |s| && IsDigit(s[k]) && IsX(s[k + 1]))
    || (e == k + 3 && e <= |s| && IsDigit(s[k]) && IsSpace(s[k + 1]) && IsX(s[k + 2]))
  }

  /** `x_pattern`, ` > *(?:x+\s?\d*|\d\s?x)\b` (case-insensitive), matches s[i..e]. */
  ghost predicate XPatternSpan(s: string, i: nat, e: nat) {
    exists k: nat :: LeadSpan(s, i, k) && k <= e <= |s| && (XRunSpan(s, k, e) || DigitXSpan(s, k, e))
      && Boundary(s, e)
  }

  /** `x_pattern.search(s)` finds a match. */
  ghost predicate XPatternFound(s: string) {
    exists i: nat, e: nat :: XPatternSpan(s, i, e)
  }

  /** What a match of `multi_x_pattern` captured: group 1 (digits after the x's)
      and group 2 (digits before the x). */
  datatype Groups = Groups(group1: Option<string>, group2: Option<string>)

  /** `x+\s?(\d+)` matches s[k..e], capturing g. */
  ghost predicate XRunDigitsSpan(s: string, k: nat, e: nat, g: string) {
    exists a: nat, b: nat :: k < a <= b < e <= |s| && AllIn(s, k, a, IsX)
      && (b == a || (b == a + 1 && IsSpace(s[a]))) && AllIn(s, b, e, IsDigit) && g == s[b..e]
  }

  /** `(\d+)\s?x` matches s[k..e], capturing g. */
  ghost predicate DigitsXSpan(s: string, k: nat, e: nat, g: string) {
    exists d: nat :: k < d <= |s| && AllIn(s, k, d, IsDigit) && g == s[k..d]
      && ((e == d + 1 && d < |s| && IsX(s[d]))
          || (e == d + 2 && d + 1 < |s| && IsSpace(s[d]) && IsX(s[d + 1])))
  }

  /** `multi_x_pattern`, ` > *(?:x+\s?(\d+)|(\d+)\s?x)\b` (case-insensitive),
      matches s[i..e] with groups m. */
  ghost predicate MultiSpan(s: string, i: nat, e: nat, m: Groups) {
    exists k: nat :: LeadSpan(s, i, k) && k <= e <= |s| && Boundary(s, e)
      && ((m.group1.Some? && m.group2.None? && XRunDigitsSpan(s, k, e, m.group1.value))
          || (m.group1.None? && m.group2.Some? && DigitsXSpan(s, k, e, m.group2.value)))
  }

  ghost predicate MultiFound(s: string) {
    exists i: nat, e: nat, m :: MultiSpan(s, i, e, m)
  }

  // ---------------------------------------------------------------------------
  // The same patterns as a scan, with backtracking resolved.
  // ---------------------------------------------------------------------------

  /** `x_pattern` matches at start position i. */
  predicate XAt(s: string, i: nat) {
    i + 1 < |s| && s[i] == ' ' && s[i + 1] == '>' &&
    var k := SkipWhile(s, i + 2, IsBlank);
    k < |s| &&
    ((IsX(s[k]) && Boundary(s, SkipWhile(s, SkipWhile(s, k, IsX), IsDigit)))
     || (IsDigit(s[k]) && k + 1 < |s|
         && ((IsX(s[k + 1]) && Boundary(s, k + 2))
             || (IsSpace(s[k + 1]) && k + 2 < |s| && IsX(s[k + 2]) && Boundary(s, k + 3)))))
  }

  /** `multi_x_pattern` at start position i, and the groups it captures. */
  function MultiAt(s: string, i: nat): Option<Groups> {
    if !(i + 1 < |s| && s[i] == ' ' && s[i + 1] == '>') then None
    else
      var k := SkipWhile(s, i + 2, IsBlank);
      if k == |s| then None
      else if IsX(s[k]) then
        var q := SkipWhile(s, k, IsX);
        var b := if q < |s| && IsSpace(s[q]) then q + 1 else q;
        var e := SkipWhile(s, b, IsDigit);
        if b < e && Boundary(s, e) then Some(Groups(Some(s[b..e]), None)) else None
      else if IsDigit(s[k]) then
        var d := SkipWhile(s, k, IsDigit);
        if d < |s| && IsX(s[d]) && Boundary(s, d + 1) then Some(Groups(None, Some(s[k..d])))
        else if d + 1 < |s| && IsSpace(s[d]) && IsX(s[d + 1]) && Boundary(s, d + 2) then
          Some(Groups(None, Some(s[k..d])))
        else None
      else None
  }

  /** `x_pattern.search(line)` is truthy. */
  predicate XFound(s: string) {
    exists i | 0 <= i <= |s| :: XAt(s, i)
  }

  /** `multi_x_pattern.search(line)`: the groups of the leftmost match. */
  function MultiSearch(s: string): Option<Groups> {
    match Search(s, MultiAt)
    case None => None
    case Some((_, m)) => Some(m)
  }

  // ---------------------------------------------------------------------------
  // The scan and the patterns agree.
  // ---------------------------------------------------------------------------

  /** After ` > ` the spaces are taken greedily: the match goes on at the first
      character that is not a space. */
  lemma LeadIsGreedy(s: string, i: nat, k: nat)
    requires LeadSpan(s, i, k) && k < |s| && !IsBlank(s[k])
    ensures k == SkipWhile(s, i + 2, IsBlank)
  {
    RunWithin(s, i + 2, k, IsBlank);
  }

  /** A match of `x+\s?\d*` followed by a word boundary takes every x and then
      either the whitespace or every digit. */
  lemma XRunSpanIsGreedy(s: string, k: nat, e: nat)
    requires XRunSpan(s, k, e) && Boundary(s, e)
    ensures k < |s| && IsX(s[k])
    ensures Boundary(s, SkipWhile(s, SkipWhile(s, k, IsX), IsDigit))
  {
    var a: nat, b: nat :| k < a <= b <= e <= |s| && AllIn(s, k, a, IsX)
      && (b == a || (b == a + 1 && IsSpace(s[a]))) && AllIn(s, b, e, IsDigit);
    var q := SkipWhile(s, k, IsX);
    RunWithin(s, k, a, IsX);
    assert IsX(s[k]) && IsX(s[a - 1]);
    assert a == q;
    var d := SkipWhile(s, q, IsDigit);
    if b == q {
      RunWithin(s, q, e, IsDigit);
      assert e == d;
    } else {
      assert d == q;
    }
  }

  /** A scan that succeeds has found a match of `x_pattern` as written. */
  lemma XAtSound(s: string, i: nat)
    requires XAt(s, i)
    ensures exists e: nat :: XPatternSpan(s, i, e)
  {
    var k := SkipWhile(s, i + 2, IsBlank);
    assert LeadSpan(s, i, k);
    if IsX(s[k]) {
      var q := SkipWhile(s, k, IsX);
      var d := SkipWhile(s, q, IsDigit);
      assert XRunSpan(s, k, d) by {
        assert k < q <= q <= d <= |s| && AllIn(s, k, q, IsX) && AllIn(s, q, d, IsDigit);
      }
      assert XPatternSpan(s, i, d);
    } else if IsX(s[k + 1]) && Boundary(s, k + 2) {
      assert DigitXSpan(s, k, k + 2);
      assert XPatternSpan(s, i, k + 2);
    } else {
      assert DigitXSpan(s, k, k + 3);
      assert XPatternSpan(s, i, k + 3);
    }
  }

  /** A match of `x_pattern` as written is found by the scan. */
  lemma XAtComplete(s: string, i: nat, e: nat)
    requires XPatternSpan(s, i, e)
    ensures XAt(s, i)
  {
    var k: nat :| LeadSpan(s, i, k) && k <= e <= |s| && (XRunSpan(s, k, e) || DigitXSpan(s, k, e))
      && Boundary(s, e);
    if XRunSpan(s, k, e) {
      XRunSpanIsGreedy(s, k, e);
      LeadIsGreedy(s, i, k);
    } else {
      LeadIsGreedy(s, i, k);
    }
  }

  /** `x_pattern` matches at i exactly when the scan says so. */
  lemma XAtMeans(s: string, i: nat)
    ensures XAt(s, i) <==> exists e: nat :: XPatternSpan(s, i, e)
  {
    if XAt(s, i) {
      XAtSound(s, i);
    }
    if e: nat :| XPatternSpan(s, i, e) {
      XAtComplete(s, i, e);
    }
  }

  /** `x+\s?(\d+)\b` after the lead takes every x, the whitespace if there is
      one, and every digit. */
  lemma XRunDigitsIsGreedy(s: string, k: nat, a: nat, b: nat, e: nat)
    requires k < a <= b < e <= |s| && AllIn(s, k, a, IsX)
    requires b == a || (b == a + 1 && IsSpace(s[a]))
    requires AllIn(s, b, e, IsDigit) && Boundary(s, e)
    ensures a == SkipWhile(s, k, IsX)
    ensures b == (if a < |s| && IsSpace(s[a]) then a + 1 else a)
    ensures e == SkipWhile(s, b, IsDigit)
  {
    assert IsDigit(s[b]) && IsDigit(s[e - 1]);
    RunWithin(s, k, a, IsX);
    RunWithin(s, b, e, IsDigit);
  }

  /** `(\d+)\s?x\b` after the lead takes every digit. */
  lemma DigitsXIsGreedy(s: string, k: nat, d: nat, e: nat)
    requires k < d <= |s| && AllIn(s, k, d, IsDigit)
    requires (e == d + 1 && d < |s| && IsX(s[d])) || (e == d + 2 && d + 1 < |s| && IsSpace(s[d]) && IsX(s[d + 1]))
    ensures d == SkipWhile(s, k, IsDigit)
  {
    RunWithin(s, k, d, IsDigit);
  }

  /** A match through the first alternative is the one the scan finds. */
  lemma XRunDigitsMatch(s: string, i: nat, k: nat, a: nat, b: nat, e: nat)
    requires LeadSpan(s, i, k) && k < a <= b < e <= |s| && AllIn(s, k, a, IsX)
    requires b == a || (b == a + 1 && IsSpace(s[a]))
    requires AllIn(s, b, e, IsDigit) && Boundary(s, e)
    ensures MultiAt(s, i) == Some(Groups(Some(s[b..e]), None))
  {
    assert IsX(s[k]);
    LeadIsGreedy(s, i, k);
    XRunDigitsIsGreedy(s, k, a, b, e);
  }

  /** A match through the second alternative is the one the scan finds. */
  lemma DigitsXMatch(s: string, i: nat, k: nat, d: nat, e: nat)
    requires LeadSpan(s, i, k) && k < d <= |s| && AllIn(s, k, d, IsDigit)
    requires (e == d + 1 && d < |s| && IsX(s[d])) || (e == d + 2 && d + 1 < |s| && IsSpace(s[d]) && IsX(s[d + 1]))
    requires Boundary(s, e)
    ensures MultiAt(s, i) == Some(Groups(None, Some(s[k..d])))
  {
    assert IsDigit(s[k]);
    LeadIsGreedy(s, i, k);
    DigitsXIsGreedy(s, k, d, e);
  }

  /** The first alternative, as written, after the lead. */
  lemma XRunDigitsSpanMatch(s: string, i: nat, k: nat, e: nat, g: string)
    requires LeadSpan(s, i, k) && XRunDigitsSpan(s, k, e, g) && Boundary(s, e)
    ensures MultiAt(s, i) == Some(Groups(Some(g), None))
  {
    var a: nat, b: nat :| k < a <= b < e <= |s| && AllIn(s, k, a, IsX)
      && (b == a || (b == a + 1 && IsSpace(s[a]))) && AllIn(s, b, e, IsDigit) && g == s[b..e];
    XRunDigitsMatch(s, i, k, a, b, e);
  }

  /** The second alternative, as written, after the lead. */
  lemma DigitsXSpanMatch(s: string, i: nat, k: nat, e: nat, g: string)
    requires LeadSpan(s, i, k) && DigitsXSpan(s, k, e, g) && Boundary(s, e)
    ensures MultiAt(s, i) == Some(Groups(None, Some(g)))
  {
    var d: nat :| k < d <= |s| && AllIn(s, k, d, IsDigit) && g == s[k..d]
      && ((e == d + 1 && d < |s| && IsX(s[d]))
          || (e == d + 2 && d + 1 < |s| && IsSpace(s[d]) && IsX(s[d + 1])));
    DigitsXMatch(s, i, k, d, e);
  }

  /** A match of `multi_x_pattern` at i leaves the regular expression no choice:
      its groups are the ones the scan computes. */
  lemma MultiSpanIsGreedy(s: string, i: nat, e: nat, m: Groups)
    requires MultiSpan(s, i, e, m)
    ensures MultiAt(s, i) == Some(m)
  {
    var k: nat :| LeadSpan(s, i, k) && k <= e <= |s| && Boundary(s, e)
      && ((m.group1.Some? && m.group2.None? && XRunDigitsSpan(s, k, e, m.group1.value))
          || (m.group1.None? && m.group2.Some? && DigitsXSpan(s, k, e, m.group2.value)));
    if m.group1.Some? {
      XRunDigitsSpanMatch(s, i, k, e, m.group1.value);
    } else {
      DigitsXSpanMatch(s, i, k, e, m.group2.value);
    }
  }

  /** `multi_x_pattern` matches at i exactly when the scan finds groups there, and
      then with exactly those groups. */
  lemma MultiAtMeans(s: string, i: nat)
    ensures MultiAt(s, i).Some? ==> exists e: nat :: MultiSpan(s, i, e, MultiAt(s, i).value)
    ensures forall e: nat, m :: MultiSpan(s, i, e, m) ==> MultiAt(s, i) == Some(m)
  {
    if MultiAt(s, i).Some? {
      var m := MultiAt(s, i).value;
      var k := SkipWhile(s, i + 2, IsBlank);
      assert LeadSpan(s, i, k);
      if IsX(s[k]) {
        var q := SkipWhile(s, k, IsX);
        var b := if q < |s| && IsSpace(s[q]) then q + 1 else q;
        var e := SkipWhile(s, b, IsDigit);
        assert XRunDigitsSpan(s, k, e, m.group1.value) by {
          assert k < q <= b < e <= |s| && AllIn(s, k, q, IsX) && AllIn(s, b, e, IsDigit);
        }
        assert MultiSpan(s, i, e, m);
      } else {
        var d := SkipWhile(s, k, IsDigit);
        if d < |s| && IsX(s[d]) && Boundary(s, d + 1) {
          assert DigitsXSpan(s, k, d + 1, m.group2.value);
          assert MultiSpan(s, i, d + 1, m);
        } else {
          assert DigitsXSpan(s, k, d + 2, m.group2.value);
          assert MultiSpan(s, i, d + 2, m);
        }
      }
    }
    forall e: nat, m | MultiSpan(s, i, e, m) ensures MultiAt(s, i) == Some(m) {
      MultiSpanIsGreedy(s, i, e, m);
    }
  }

  /** `x_pattern.search(line)` is truthy exactly when the pattern matches somewhere. */
  lemma XFoundMeans(s: string)
    ensures XFound(s) <==> XPatternFound(s)
  {
    if XFound(s) {
      var i :| 0 <= i <= |s| && XAt(s, i);
      XAtMeans(s, i);
    }
    if XPatternFound(s) {
      var i: nat, e: nat :| XPatternSpan(s, i, e);
      XAtMeans(s, i);
      assert i <= |s|;
    }
  }

  /** The match `re.search` reports: at i, no match further left. */
  ghost predicate LeftmostMulti(s: string, i: nat, m: Groups) {
    (exists e: nat :: MultiSpan(s, i, e, m))
    && forall j: nat, e: nat, m': Groups :: j < i ==> !MultiSpan(s, j, e, m')
  }

  /** `multi_x_pattern.search(line)` returns the groups of the leftmost match,
      and nothing exactly when there is no match. */
  lemma MultiSearchMeans(s: string)
    ensures MultiSearch(s).None? <==> !MultiFound(s)
    ensures MultiSearch(s).Some? ==> exists i: nat :: LeftmostMulti(s, i, MultiSearch(s).value)
  {
    forall i: nat, e: nat, m | MultiSpan(s, i, e, m) ensures i <= |s| && MultiAt(s, i) == Some(m) {
      MultiAtMeans(s, i);
    }
    match Search(s, MultiAt)
    case None =>
    case Some((i, m)) =>
      MultiAtMeans(s, i);
      assert LeftmostMulti(s, i, m);
  }

  /** The groups the scan reports hold one non-empty run of digits. */
  lemma MultiAtCaptures(s: string, i: nat)
    requires MultiAt(s, i).Some?
    ensures MultiAt(s, i).value.group1.Some? != MultiAt(s, i).value.group2.Some?
    ensures ParseInt(Captured(MultiAt(s, i).value)).Some?
  {
    var g := Captured(MultiAt(s, i).value);
    var k := SkipWhile(s, i + 2, IsBlank);
    if IsX(s[k]) {
      var q := SkipWhile(s, k, IsX);
      var b := if q < |s| && IsSpace(s[q]) then q + 1 else q;
      var e := SkipWhile(s, b, IsDigit);
      assert g == s[b..e];
      assert forall j :: 0 <= j < |g| ==> g[j] == s[b + j];
    } else {
      var d := SkipWhile(s, k, IsDigit);
      assert g == s[k..d];
      assert forall j :: 0 <= j < |g| ==> g[j] == s[k + j];
    }
  }

  // ---------------------------------------------------------------------------
  // One line, and the tail as a fold.
  // ---------------------------------------------------------------------------

  /** The digits a match captured (whichever group took part). */
  function Captured(m: Groups): string {
    if m.group1.Some? then m.group1.value else if m.group2.Some? then m.group2.value else ""
  }

  /** `int(match.group(1) or match.group(2))` with `ValueError`/`TypeError`
      giving 1, and 1 when `multi_x_pattern` finds nothing. */
  function Multiplier(m: Option<Groups>): (r: nat)
    ensures m.None? ==> r == 1
    ensures m.Some? && (m.value.group1.Some? != m.value.group2.Some?) && ParseInt(Captured(m.value)).Some? ==>
              r == ParseInt(Captured(m.value)).value
  {
    match m
    case None => 1
    case Some(Groups(g1, g2)) =>
      var chosen := if g1.Some? && g1.value != [] then g1 else g2;
      if chosen.None? then 1
      else match ParseInt(chosen.value)
        case Some(v) => v
        case None => 1
  }

  /** One pass of the loop body of `monitor_log_updates` on the counter: a
      dash resets it, and otherwise it never goes down. */
  function Step(count: int, line: string): (r: int)
    ensures '-' in line ==> r == 0
    ensures '-' !in line ==> count <= r
    ensures '-' !in line && !XFound(line) ==> r == count
  {
    if '-' in line then 0
    else if XFound(line) then count + Multiplier(MultiSearch(line))
    else count
  }

  /** The multiplier is the number the leftmost `multi_x_pattern` match
      captured, and 1 when that pattern matches nowhere in the line. */
  lemma MultiplierMeaning(line: string)
    ensures !MultiFound(line) ==> Multiplier(MultiSearch(line)) == 1
    ensures MultiFound(line) ==>
              exists i: nat, m :: LeftmostMulti(line, i, m)
                                  && ParseInt(Captured(m)) == Some(Multiplier(MultiSearch(line)))
  {
    MultiSearchMeans(line);
    if MultiFound(line) {
      var m := MultiSearch(line).value;
      var i: nat :| LeftmostMulti(line, i, m);
      var e: nat :| MultiSpan(line, i, e, m);
      MultiSpanIsGreedy(line, i, e, m);
      MultiAtCaptures(line, i);
    }
  }

  /** What one line does to the counter, in terms of the two patterns as written:
      a dash resets it whatever else the line holds; with no `x_pattern` match it is
      unchanged; with one, it grows by the number `multi_x_pattern`'s leftmost match
      captured, or by 1 when that pattern matches nowhere. */
  lemma StepMeaning(count: int, line: string)
    ensures '-' in line ==> Step(count, line) == 0
    ensures '-' !in line && !XPatternFound(line) ==> Step(count, line) == count
    ensures '-' !in line && XPatternFound(line) && !MultiFound(line) ==> Step(count, line) == count + 1
    ensures '-' !in line && XPatternFound(line) && MultiFound(line) ==>
              exists i: nat, m :: LeftmostMulti(line, i, m)
                                  && ParseInt(Captured(m)) == Some(Step(count, line) - count)
  {
    if '-' !in line {
      XFoundMeans(line);
      if XPatternFound(line) {
        assert XFound(line);
        StepByMultiplier(count, line);
      }
    }
  }

  lemma StepByMultiplier(count: int, line: string)
    requires '-' !in line && XFound(line)
    ensures !MultiFound(line) ==> Step(count, line) == count + 1
    ensures MultiFound(line) ==>
              exists i: nat, m :: LeftmostMulti(line, i, m)
                                  && ParseInt(Captured(m)) == Some(Step(count, line) - count)
  {
    var k := Multiplier(MultiSearch(line));
    assert Step(count, line) - count == k;
    MultiplierMeaning(line);
  }

  /** The counter after the loop has handled `lines`, in order. */
  function Fold(count: int, lines: seq<string>): (r: int)
    ensures count >= 0 ==> r >= 0
    decreases |lines|
  {
    if lines == [] then count else Fold(Step(count, lines[0]), lines[1..])
  }

  /** Lines are handled strictly in read order: the tail after `a + b` is the tail
      over `b` from where `a` left the counter. */
  lemma {:induction false} FoldAppend(count: int, a: seq<string>, b: seq<string>)
    ensures Fold(count, a + b) == Fold(Fold(count, a), b)
    decreases |a|
  {
    if a != [] {
      assert (a + b)[0] == a[0] && (a + b)[1..] == a[1..] + b;
      FoldAppend(Step(count, a[0]), a[1..], b);
    } else {
      assert a + b == b;
    }
  }

  /** Over lines without a dash the counter never goes down. */
  lemma {:induction false} FoldWithoutDashNeverLowers(count: int, lines: seq<string>)
    requires forall k :: 0 <= k < |lines| ==> '-' !in lines[k]
    ensures count <= Fold(count, lines)
    decreases |lines|
  {
    if lines != [] {
      FoldWithoutDashNeverLowers(Step(count, lines[0]), lines[1..]);
    }
  }

  /** After a line with a dash, the count no longer depends on what came before. */
  lemma FoldForgetsBeforeDash(c1: int, c2: int, lines: seq<string>, j: nat)
    requires j < |lines| && '-' in lines[j]
    ensures Fold(c1, lines) == Fold(c2, lines) == Fold(0, lines[j + 1..])
  {
    assert lines == lines[..j] + [lines[j]] + lines[j + 1..];
    FoldAppend(c1, lines[..j] + [lines[j]], lines[j + 1..]);
    FoldAppend(c1, lines[..j], [lines[j]]);
    FoldAppend(c2, lines[..j] + [lines[j]], lines[j + 1..]);
    FoldAppend(c2, lines[..j], [lines[j]]);
  }
}

/** Worked examples of the classifier on single lines. */
module LineClassifierExamples {
  import opened Text
  import opened LineClassifier

  /** In " > x" followed by digits, the lead ends at the x and the digits run
      to the end of the line. */
  lemma XDigitsScan(d: string)
    requires d != [] && forall j :: 0 <= j < |d| ==> IsDigit(d[j])
    ensures var s := " > x" + d;
      SkipWhile(s, 2, IsBlank) == 3 && SkipWhile(s, 3, IsX) == 4 && !IsSpace(s[4])
      && SkipWhile(s, 4, IsDigit) == |s| && s[4..|s|] == d && Boundary(s, |s|)
  {
    var s := " > x" + d;
    assert forall j :: 4 <= j < |s| ==> s[j] == d[j - 4];
    assert SkipWhile(s, 2, IsBlank) == 3;
    assert SkipWhile(s, 3, IsX) == 4;
    RunWithin(s, 4, |s|, IsDigit);
    assert IsWordChar(s[|s| - 1]);
  }

  /** " > x" followed by digits has no dash, matches `x_pattern` from 0, and
      `multi_x_pattern` captures the digits in group 1 from 0. */
  lemma XDigitsMatch(d: string)
    requires d != [] && forall j :: 0 <= j < |d| ==> IsDigit(d[j])
    ensures var s := " > x" + d;
      '-' !in s && XAt(s, 0) && MultiAt(s, 0) == Some(Groups(Some(d), None))
  {
    var s := " > x" + d;
    XDigitsScan(d);
    assert XAt(s, 0);
    assert MultiAt(s, 0) == Some(Groups(Some(d), None));
    assert '-' !in s by {
      assert forall j :: 0 <= j < |s| ==> s[j] != '-';
    }
  }

  /** " > x" followed by digits adds the number the digits spell, however large. */
  lemma XThenDigits(c: int, d: string)
    requires d != [] && forall j :: 0 <= j < |d| ==> IsDigit(d[j])
    ensures Step(c, " > x" + d) == c + DigitsValue(d)
  {
    var s := " > x" + d;
    XDigitsMatch(d);
    assert XFound(s);
    assert Search(s, MultiAt) == Some((0, Groups(Some(d), None)));
    assert ParseInt(d) == Some(DigitsValue(d));
    assert Multiplier(MultiSearch(s)) == DigitsValue(d);
  }

  /** " > " followed by one digit and an x adds that digit. */
  lemma DigitThenX(c: int, digit: char)
    requires IsDigit(digit)
    ensures Step(c, " > " + [digit] + "x") == c + DigitValue(digit)
  {
    var s := " > " + [digit] + "x";
    assert SkipWhile(s, 2, IsBlank) == 3;
    assert SkipWhile(s, 3, IsDigit) == 4;
    assert XAt(s, 0);
    assert s[3..4] == [digit] && [digit][..0] == [];
    assert DigitsValue([digit]) == DigitValue(digit);
    assert MultiAt(s, 0) == Some(Groups(None, Some([digit])));
    assert '-' !in s by {
      assert forall j :: 0 <= j < |s| ==> s[j] != '-';
    }
  }

  /** " > " followed by a run of n x's adds 1, not n. */
  lemma XRunCountsOnce(c: int, n: nat)
    requires n >= 1
    ensures Step(c, " > " + seq(n, _ => 'x')) == c + 1
  {
    var s := " > " + seq(n, _ => 'x');
    assert forall j :: 3 <= j < |s| ==> s[j] == 'x';
    assert SkipWhile(s, 2, IsBlank) == 3;
    RunWithin(s, 3, |s|, IsX);
    assert XAt(s, 0);
    forall i | 0 <= i <= |s| ensures MultiAt(s, i).None? {
      if i == 0 {
        assert SkipWhile(s, |s|, IsDigit) == |s|;
      }
    }
    assert '-' !in s by {
      assert forall j :: 0 <= j < |s| ==> s[j] != '-';
    }
  }

  /** The examples of the multiplier's precedence: digits after the x's count... */
  lemma DigitsAfterXCount(c: int)
    ensures Step(c, " > x5") == c + 5
  {
    XThenDigits(c, "5");
    assert " > x" + "5" == " > x5";
  }

  /** ... else a digit before the x ... */
  lemma DigitBeforeXCounts(c: int)
    ensures Step(c, " > 5x") == c + 5
  {
    DigitThenX(c, '5');
    assert " > " + ['5'] + "x" == " > 5x";
  }

  /** ... else the line counts once, however many x's it has. */
  lemma PlainXCountsOnce(c: int)
    ensures Step(c, " > xxxxx") == c + 1
    ensures Step(c, " > x") == c + 1
  {
    XRunCountsOnce(c, 5);
    assert " > " + seq(5, _ => 'x') == " > xxxxx";
    XRunCountsOnce(c, 1);
    assert " > " + seq(1, _ => 'x') == " > x";
  }

  lemma HundredValue()
    ensures DigitsValue("100") == 100
  {
    assert "100"[..2] == "10" && "10"[..1] == "1" && "1"[..0] == "";
  }

  /** Nothing caps the increment at 25. */
  lemma IncrementUncapped(c: int)
    ensures Step(c, " > x100") == c + 100
  {
    HundredValue();
    XThenDigits(c, "100");
    assert " > x" + "100" == " > x100";
  }

  /** `x_pattern` allows a single digit before the x, so " > 15x" is not counted
      even though `multi_x_pattern` would read 15 from it. */
  lemma TwoDigitsBeforeXIgnored(c: int)
    ensures Step(c, " > 15x") == c
  {
    var s := " > 15x";
    assert '-' !in s by {
      assert forall j :: 0 <= j < |s| ==> s[j] != '-';
    }
    forall i | 0 <= i <= |s| ensures !XAt(s, i) {
      if i == 0 {
        assert SkipWhile(s, 2, IsBlank) == 3;
        assert s[3] == '1' && s[4] == '5';
      }
    }
    assert !XFound(s);
  }

  /** The token needs a literal space before `>`, and only spaces after it. */
  lemma SpaceBeforeArrowRequired(c: int)
    ensures Step(c, "Bob> x") == c
    ensures Step(c, " >\tx") == c
  {
    forall i | 0 <= i <= |"Bob> x"| ensures !XAt("Bob> x", i) { }
    forall i | 0 <= i <= |" >\tx"| ensures !XAt(" >\tx", i) {
      if i == 0 {
        assert SkipWhile(" >\tx", 2, IsBlank) == 2;
      }
    }
  }

  /** A dash anywhere resets, even inside a name on an x-up line. */
  lemma DashInNameResets(c: int)
    ensures Step(c, "Jean-Luc > x5") == 0
  {
    assert "Jean-Luc > x5"[4] == '-';
  }
}
