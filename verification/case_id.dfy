/**
 * Case identifiers embedded in raw file names.
 *
 * A file name carries `MGHNICU_<digits>-VISIT_<digits>` somewhere inside it;
 * the canonical case id is `MGHNICU_<digits>_VISIT_<visit>`, the visit
 * zero-padded to at least two characters. The pattern is matched here by hand:
 * `MatchAt` is the regular expression anchored at one position (`re.match`
 * when that position is 0) and `Search` is its leftmost occurrence
 * (`re.search`). Only ASCII digits count as `\d`.
 */
module CaseId {
  import opened Wrappers
  import opened Strings

  const PidPrefix: string := "MGHNICU_"
  const VisitSep: string := "-VISIT_"
  const IdSep: string := "_VISIT_"

  /** The two named groups of the pattern: `pid` (with its prefix) and `visit`. */
  datatype Groups = Groups(pid: string, visit: string)

  /** Length of the run of digits starting at `i` (what a greedy `\d*` consumes). */
  function DigitRun(s: string, i: nat): (n: nat)
    requires i <= |s|
    ensures i + n <= |s|
    ensures forall k :: i <= k < i + n ==> IsDigit(s[k])
    ensures i + n == |s| || !IsDigit(s[i + n])
    decreases |s| - i
  {
    if i < |s| && IsDigit(s[i]) then 1 + DigitRun(s, i + 1) else 0
  }

  /** The pattern anchored at position `i`, with its groups when it matches. */
  function MatchAt(s: string, i: nat): Option<Groups>
    requires i <= |s|
  {
    if !OccursAt(s, PidPrefix, i) then None
    else
      var d := DigitRun(s, i + |PidPrefix|);
      var j := i + |PidPrefix| + d;
      if d == 0 || !OccursAt(s, VisitSep, j) then None
      else
        var v := DigitRun(s, j + |VisitSep|);
        if v == 0 then None
        else Some(Groups(s[i..j], s[j + |VisitSep|..j + |VisitSep| + v]))
  }

  /** The first position at or after `i` where the pattern matches. */
  function LeftmostFrom(s: string, i: nat): (k: Option<nat>)
    requires i <= |s|
    ensures k.Some? ==> i <= k.value <= |s| && MatchAt(s, k.value).Some?
    ensures k.Some? ==> forall j :: i <= j < k.value ==> MatchAt(s, j).None?
    ensures k.None? ==> forall j :: i <= j <= |s| ==> MatchAt(s, j).None?
    decreases |s| - i
  {
    if MatchAt(s, i).Some? then Some(i)
    else if i == |s| then None
    else LeftmostFrom(s, i + 1)
  }

  /** `re.search`: the groups of the leftmost match. */
  function Search(s: string): Option<Groups>
  {
    match LeftmostFrom(s, 0)
    case Some(k) => MatchAt(s, k)
    case None => None
  }

  /** The canonical id: the `pid` group, `_VISIT_`, and the visit zero-filled to two digits. */
  function Canonical(g: Groups): string
  {
    g.pid + IdSep + ZFill(g.visit, 2)
  }

  function CanonicalOf(g: Option<Groups>): Option<string>
  {
    match g
    case Some(m) => Some(Canonical(m))
    case None => None
  }

  /** `parse_case_id_from_adc_filename`, also used for Z-map names: search anywhere. */
  function ParseCaseId(name: string): Option<string>
  {
    CanonicalOf(Search(name))
  }

  /** The label-file variant: the pattern must start the name (`re.match`). */
  function MatchCaseId(name: string): Option<string>
  {
    CanonicalOf(MatchAt(name, 0))
  }

  // ---------------------------------------------------------------------
  // Declarative description of the pattern, independent of the matcher.

  /** `t` belongs to the language `MGHNICU_\d+-VISIT_\d+`. */
  ghost predicate InPattern(t: string)
  {
    exists d1: string, d2: string {:trigger PidPrefix + d1 + VisitSep + d2} ::
      && |d1| > 0 && AllDigits(d1) && |d2| > 0 && AllDigits(d2)
      && t == PidPrefix + d1 + VisitSep + d2
  }

  /** Some substring of `s` belongs to the pattern's language. */
  ghost predicate Contains(s: string)
  {
    exists i: nat, j: nat :: i <= j <= |s| && InPattern(s[i..j])
  }

  /**
   * What the regex engine captures at `i`: `pid` is the prefix and a run of
   * digits, `visit` a run of digits, they occur at `i` around the separator,
   * and `visit` is not followed by another digit (greedy `\d+`).
   */
  ghost predicate CapturesAt(s: string, i: nat, g: Groups)
  {
    && StartsWith(g.pid, PidPrefix) && |g.pid| > |PidPrefix| && AllDigits(g.pid[|PidPrefix|..])
    && |g.visit| > 0 && AllDigits(g.visit)
    && OccursAt(s, g.pid + VisitSep + g.visit, i)
    && var e := i + |g.pid| + |VisitSep| + |g.visit|;
       e == |s| || !IsDigit(s[e])
  }

  /** The canonical case id: prefix, pid digits, `_VISIT_`, at least two visit digits. */
  ghost predicate IsCaseId(c: string)
  {
    exists d: string, v: string {:trigger PidPrefix + d + IdSep + v} ::
      |d| > 0 && AllDigits(d) && |v| >= 2 && AllDigits(v) && c == PidPrefix + d + IdSep + v
  }

  // ---------------------------------------------------------------------
  // The matcher agrees with the declarative description.

  lemma {:induction false} DigitRunCovers(s: string, i: nat, n: nat)
    requires i + n <= |s|
    requires forall k :: i <= k < i + n ==> IsDigit(s[k])
    ensures DigitRun(s, i) >= n
    decreases n
  {
    if n > 0 {
      DigitRunCovers(s, i + 1, n - 1);
    }
  }

  lemma DigitRunExact(s: string, i: nat, n: nat)
    requires i + n <= |s|
    requires forall k :: i <= k < i + n ==> IsDigit(s[k])
    requires i + n == |s| || !IsDigit(s[i + n])
    ensures DigitRun(s, i) == n
  {
    DigitRunCovers(s, i, n);
  }

  /** What `MatchAt` returns is what the regex engine captures at `i`. */
  lemma MatchAtSound(s: string, i: nat)
    requires i <= |s| && MatchAt(s, i).Some?
    ensures CapturesAt(s, i, MatchAt(s, i).value)
  {
    var P, V := |PidPrefix|, |VisitSep|;
    var d := DigitRun(s, i + P);
    var j := i + P + d;
    var v := DigitRun(s, j + V);
    var g := Groups(s[i..j], s[j + V..j + V + v]);
    assert MatchAt(s, i) == Some(g);
    assert StartsWith(g.pid, PidPrefix) by {
      assert g.pid[..P] == s[i..i + P];
    }
    assert AllDigits(g.pid[P..]) by {
      assert g.pid[P..] == s[i + P..j];
    }
    OccursConcat(s, i, g.pid, VisitSep, g.visit);
    assert i + |g.pid| + V + |g.visit| == j + V + v;
  }

  /** Three pieces occurring one after another form one occurrence. */
  lemma OccursConcat(s: string, i: nat, a: string, b: string, c: string)
    requires OccursAt(s, a, i) && OccursAt(s, b, i + |a|) && OccursAt(s, c, i + |a| + |b|)
    ensures OccursAt(s, a + b + c, i)
  {
    var w := a + b + c;
    forall k | 0 <= k < |w| ensures s[i..i + |w|][k] == w[k] {
      if k < |a| {
        assert w[k] == a[k] == s[i..i + |a|][k];
      } else if k < |a| + |b| {
        assert w[k] == b[k - |a|] == s[i + |a|..i + |a| + |b|][k - |a|];
      } else {
        assert w[k] == c[k - |a| - |b|] == s[i + |a| + |b|..i + |w|][k - |a| - |b|];
      }
    }
  }

  /** A slice of an occurrence of `w` is the matching slice of `w`. */
  lemma SliceOfOccurrence(s: string, w: string, i: nat, a: nat, b: nat)
    requires OccursAt(s, w, i) && a <= b <= |w|
    ensures s[i + a..i + b] == w[a..b]
  {
    forall k | 0 <= k < b - a ensures s[i + a..i + b][k] == w[a..b][k] {
      assert w[a..b][k] == w[a + k] == s[i..i + |w|][a + k] == s[i + a + k];
    }
  }

  /** A run of digits of `w`, where `w` occurs at `i`, is a run of digits of `s`. */
  lemma DigitsInside(s: string, i: nat, w: string, a: nat, n: nat)
    requires OccursAt(s, w, i) && a + n <= |w|
    requires forall k :: a <= k < a + n ==> IsDigit(w[k])
    ensures forall k :: i + a <= k < i + a + n ==> IsDigit(s[k])
  {
    forall k | i + a <= k < i + a + n ensures IsDigit(s[k]) {
      assert s[k] == s[i..i + |w|][k - i];
    }
  }

  /** `MatchAt` returns `g` once each of its steps is known to yield `g`'s parts. */
  lemma MatchAtIs(s: string, i: nat, g: Groups)
    requires |g.pid| > |PidPrefix| && |g.visit| > 0
    requires i + |g.pid| + |VisitSep| + |g.visit| <= |s|
    requires OccursAt(s, PidPrefix, i)
    requires DigitRun(s, i + |PidPrefix|) == |g.pid| - |PidPrefix|
    requires OccursAt(s, VisitSep, i + |g.pid|)
    requires DigitRun(s, i + |g.pid| + |VisitSep|) == |g.visit|
    requires s[i..i + |g.pid|] == g.pid
    requires s[i + |g.pid| + |VisitSep|..i + |g.pid| + |VisitSep| + |g.visit|] == g.visit
    ensures MatchAt(s, i) == Some(g)
  {
  }

  /** The literal parts and groups of a capture sit where `MatchAt` looks for them. */
  lemma CapturePieces(s: string, i: nat, g: Groups)
    requires i <= |s| && CapturesAt(s, i, g)
    ensures OccursAt(s, PidPrefix, i)
    ensures OccursAt(s, VisitSep, i + |g.pid|)
    ensures s[i..i + |g.pid|] == g.pid
    ensures s[i + |g.pid| + |VisitSep|..i + |g.pid| + |VisitSep| + |g.visit|] == g.visit
  {
    var P, V := |PidPrefix|, |VisitSep|;
    var w := g.pid + VisitSep + g.visit;
    assert w[0..P] == g.pid[..P];
    SliceOfOccurrence(s, w, i, 0, P);
    assert w[|g.pid|..|g.pid| + V] == VisitSep;
    SliceOfOccurrence(s, w, i, |g.pid|, |g.pid| + V);
    assert w[0..|g.pid|] == g.pid;
    SliceOfOccurrence(s, w, i, 0, |g.pid|);
    assert w[|g.pid| + V..|w|] == g.visit;
    SliceOfOccurrence(s, w, i, |g.pid| + V, |w|);
  }

  /** The digits of the `pid` group are exactly the run `MatchAt` measures. */
  lemma CapturePidRun(s: string, i: nat, g: Groups)
    requires i <= |s| && CapturesAt(s, i, g)
    ensures DigitRun(s, i + |PidPrefix|) == |g.pid| - |PidPrefix|
  {
    var P := |PidPrefix|;
    var w := g.pid + VisitSep + g.visit;
    forall k | P <= k < |g.pid| ensures IsDigit(w[k]) {
      assert w[k] == g.pid[P..][k - P];
    }
    DigitsInside(s, i, w, P, |g.pid| - P);
    assert s[i + |g.pid|] == s[i..i + |w|][|g.pid|];
    DigitRunExact(s, i + P, |g.pid| - P);
  }

  /** The digits of the `visit` group are exactly the run `MatchAt` measures. */
  lemma CaptureVisitRun(s: string, i: nat, g: Groups)
    requires i <= |s| && CapturesAt(s, i, g)
    ensures DigitRun(s, i + |g.pid| + |VisitSep|) == |g.visit|
  {
    var V := |VisitSep|;
    var w := g.pid + VisitSep + g.visit;
    forall k | |g.pid| + V <= k < |w| ensures IsDigit(w[k]) {
      assert w[k] == g.visit[k - |g.pid| - V];
    }
    DigitsInside(s, i, w, |g.pid| + V, |g.visit|);
    DigitRunExact(s, i + |g.pid| + V, |g.visit|);
  }

  /** Whatever the regex engine captures at `i` is what `MatchAt` returns. */
  lemma CapturesMatchAt(s: string, i: nat, g: Groups)
    requires i <= |s| && CapturesAt(s, i, g)
    ensures MatchAt(s, i) == Some(g)
  {
    CapturePieces(s, i, g);
    CapturePidRun(s, i, g);
    CaptureVisitRun(s, i, g);
    MatchAtIs(s, i, g);
  }

  /** `MatchAt` returns exactly the groups the regex engine captures at `i`. */
  lemma MatchAtCaptures(s: string, i: nat, g: Groups)
    requires i <= |s|
    ensures MatchAt(s, i) == Some(g) <==> CapturesAt(s, i, g)
  {
    if MatchAt(s, i) == Some(g) {
      MatchAtSound(s, i);
    }
    if CapturesAt(s, i, g) {
      CapturesMatchAt(s, i, g);
    }
  }

  /** Where `MatchAt` succeeds, the text it spans belongs to the pattern's language. */
  lemma MatchAtInPattern(s: string, i: nat)
    requires i <= |s| && MatchAt(s, i).Some?
    ensures var g := MatchAt(s, i).value;
      i + |g.pid| + |VisitSep| + |g.visit| <= |s|
      && InPattern(s[i..i + |g.pid| + |VisitSep| + |g.visit|])
  {
    var g := MatchAt(s, i).value;
    MatchAtCaptures(s, i, g);
    var d1 := g.pid[|PidPrefix|..];
    assert g.pid == PidPrefix + d1 by {
      assert g.pid == g.pid[..|PidPrefix|] + d1;
    }
    assert PidPrefix + d1 + VisitSep + g.visit == s[i..i + |g.pid| + |VisitSep| + |g.visit|];
  }

  /** `MatchAt` succeeds once its four steps succeed. */
  lemma MatchAtFromSteps(s: string, i: nat, n1: nat)
    requires OccursAt(s, PidPrefix, i)
    requires n1 > 0 && DigitRun(s, i + |PidPrefix|) == n1
    requires OccursAt(s, VisitSep, i + |PidPrefix| + n1)
    requires DigitRun(s, i + |PidPrefix| + n1 + |VisitSep|) > 0
    ensures MatchAt(s, i).Some?
  {
  }

  /** An occurrence of a word of the language, seen through `MatchAt`'s steps. */
  lemma WordPieces(s: string, i: nat, d1: string, d2: string)
    requires |d1| > 0 && AllDigits(d1) && |d2| > 0 && AllDigits(d2)
    requires OccursAt(s, PidPrefix + d1 + VisitSep + d2, i)
    ensures OccursAt(s, PidPrefix, i)
    ensures DigitRun(s, i + |PidPrefix|) == |d1|
    ensures OccursAt(s, VisitSep, i + |PidPrefix| + |d1|)
    ensures DigitRun(s, i + |PidPrefix| + |d1| + |VisitSep|) >= |d2|
  {
    var P, V, n1 := |PidPrefix|, |VisitSep|, |d1|;
    var t := PidPrefix + d1 + VisitSep + d2;
    assert t[0..P] == PidPrefix;
    SliceOfOccurrence(s, t, i, 0, P);
    assert t[P + n1..P + n1 + V] == VisitSep;
    SliceOfOccurrence(s, t, i, P + n1, P + n1 + V);
    forall k | P <= k < P + n1 ensures IsDigit(t[k]) {
      assert t[k] == d1[k - P];
    }
    DigitsInside(s, i, t, P, n1);
    assert s[i + P + n1] == s[i..i + |t|][P + n1];
    DigitRunExact(s, i + P, n1);
    forall k | P + n1 + V <= k < |t| ensures IsDigit(t[k]) {
      assert t[k] == d2[k - P - n1 - V];
    }
    DigitsInside(s, i, t, P + n1 + V, |d2|);
    DigitRunCovers(s, i + P + n1 + V, |d2|);
  }

  /** Wherever a substring starting at `i` belongs to the language, `MatchAt` succeeds at `i`. */
  lemma InPatternMatchAt(s: string, i: nat, j: nat)
    requires i <= j <= |s| && InPattern(s[i..j])
    ensures MatchAt(s, i).Some?
  {
    var d1: string, d2: string :| |d1| > 0 && AllDigits(d1) && |d2| > 0 && AllDigits(d2)
      && s[i..j] == PidPrefix + d1 + VisitSep + d2;
    WordPieces(s, i, d1, d2);
    MatchAtFromSteps(s, i, |d1|);
  }

  /** No substring starting at `i` is in the language when `MatchAt` fails there. */
  lemma NoPatternAt(s: string, i: nat)
    requires i <= |s| && MatchAt(s, i).None?
    ensures forall j :: i <= j <= |s| ==> !InPattern(s[i..j])
  {
    forall j | i <= j <= |s| ensures !InPattern(s[i..j]) {
      if InPattern(s[i..j]) {
        InPatternMatchAt(s, i, j);
      }
    }
  }

  /** The leftmost position holding a match, in the declarative sense. */
  ghost predicate LeftmostCapture(s: string, k: nat, g: Groups)
  {
    && k <= |s| && CapturesAt(s, k, g)
    && forall i: nat, j: nat :: i < k && i <= j <= |s| ==> !InPattern(s[i..j])
  }

  /** `re.search` finds nothing exactly when no substring is in the pattern's language. */
  lemma SearchNoneIffAbsent(s: string)
    ensures Search(s).None? <==> !Contains(s)
  {
    match LeftmostFrom(s, 0)
    case None =>
      forall i: nat, j: nat | i <= j <= |s| ensures !InPattern(s[i..j]) {
        NoPatternAt(s, i);
      }
    case Some(k) =>
      MatchAtInPattern(s, k);
  }

  /** When `re.search` succeeds it reports the groups of the leftmost match. */
  lemma SearchIsLeftmost(s: string)
    requires Search(s).Some?
    ensures exists k: nat :: LeftmostCapture(s, k, Search(s).value)
  {
    var k := LeftmostFrom(s, 0).value;
    MatchAtCaptures(s, k, Search(s).value);
    forall i: nat, j: nat | i < k && i <= j <= |s| ensures !InPattern(s[i..j]) {
      NoPatternAt(s, i);
    }
    assert LeftmostCapture(s, k, Search(s).value);
  }

  /** Any leftmost capture is what `re.search` reports. */
  lemma LeftmostIsSearch(s: string, k: nat, g: Groups)
    requires LeftmostCapture(s, k, g)
    ensures Search(s) == Some(g)
  {
    MatchAtCaptures(s, k, g);
    match LeftmostFrom(s, 0)
    case None =>
      assert false;
    case Some(k') =>
      if k' < k {
        MatchAtInPattern(s, k');
        assert false;
      }
  }

  // ---------------------------------------------------------------------
  // Canonical ids.

  /** The canonical id of a pid and a visit of digits has the documented shape and keeps the visit number. */
  lemma CanonicalShape(d: string, visit: string)
    requires |d| > 0 && AllDigits(d) && |visit| > 0 && AllDigits(visit)
    ensures var c := Canonical(Groups(PidPrefix + d, visit));
      && IsCaseId(c)
      && StartsWith(c, PidPrefix + d + IdSep)
      && var v := c[|PidPrefix + d| + |IdSep|..];
         AllDigits(v) && Value(v) == Value(visit) && |v| >= 2
  {
    var pid := PidPrefix + d;
    var v := ZFill(visit, 2);
    ZFillKeepsValue(visit, 2);
    var c := Canonical(Groups(pid, visit));
    assert c == PidPrefix + d + IdSep + v;
    assert c[..|pid + IdSep|] == pid + IdSep;
    assert c[|pid| + |IdSep|..] == v;
  }

  /** A canonical id built from a match has the documented shape and keeps the visit number. */
  lemma CanonicalIsCaseId(s: string, i: nat, g: Groups)
    requires i <= |s| && MatchAt(s, i) == Some(g)
    ensures IsCaseId(Canonical(g))
    ensures StartsWith(Canonical(g), g.pid + IdSep)
    ensures var v := Canonical(g)[|g.pid| + |IdSep|..];
      AllDigits(v) && Value(v) == Value(g.visit) && |v| >= 2
  {
    MatchAtCaptures(s, i, g);
    var d := g.pid[|PidPrefix|..];
    assert g.pid == PidPrefix + d by {
      assert g.pid == g.pid[..|PidPrefix|] + d;
    }
    CanonicalShape(d, g.visit);
  }

  /** Every id `parse_case_id_from_adc_filename` returns is canonical. */
  lemma ParseCaseIdIsCaseId(name: string)
    requires ParseCaseId(name).Some?
    ensures IsCaseId(ParseCaseId(name).value)
  {
    var k := LeftmostFrom(name, 0).value;
    CanonicalIsCaseId(name, k, Search(name).value);
  }

  /** Every id the anchored label matcher returns is canonical. */
  lemma MatchCaseIdIsCaseId(name: string)
    requires MatchCaseId(name).Some?
    ensures IsCaseId(MatchCaseId(name).value)
  {
    CanonicalIsCaseId(name, 0, MatchAt(name, 0).value);
  }

  /** An anchored match is also the leftmost one, so a label name maps as a search would. */
  lemma MatchImpliesSearch(name: string)
    requires MatchCaseId(name).Some?
    ensures ParseCaseId(name) == MatchCaseId(name)
  {
  }

  /** `zfill(2)` only left-pads to two characters. */
  lemma VisitPadding()
    ensures ZFill("1", 2) == "01"
    ensures ZFill("01", 2) == "01"
    ensures ZFill("123", 2) == "123"
  {
  }

  // ---------------------------------------------------------------------
  // What the two file-name parsers return.

  /** `parse_case_id_from_adc_filename` returns None exactly when no substring matches the pattern. */
  lemma ParseCaseIdNoneIffAbsent(name: string)
    ensures ParseCaseId(name).None? <==> !Contains(name)
  {
    SearchNoneIffAbsent(name);
  }

  /** A successful parse is the canonical id of the leftmost match's groups. */
  lemma ParseCaseIdIsLeftmost(name: string)
    requires ParseCaseId(name).Some?
    ensures exists k: nat, g: Groups :: LeftmostCapture(name, k, g) && ParseCaseId(name) == Some(Canonical(g))
  {
    SearchIsLeftmost(name);
  }

  /** Conversely, the leftmost match determines the parse. */
  lemma LeftmostDeterminesParse(name: string, k: nat, g: Groups)
    requires LeftmostCapture(name, k, g)
    ensures ParseCaseId(name) == Some(Canonical(g))
  {
    LeftmostIsSearch(name, k, g);
  }

  /** The label matcher succeeds exactly when the name starts with a word of the pattern. */
  lemma MatchCaseIdIffPrefix(name: string)
    ensures MatchCaseId(name).Some? <==> exists j: nat :: j <= |name| && InPattern(name[0..j])
  {
    if MatchCaseId(name).Some? {
      MatchAtInPattern(name, 0);
    }
    if exists j: nat :: j <= |name| && InPattern(name[0..j]) {
      var j: nat :| j <= |name| && InPattern(name[0..j]);
      InPatternMatchAt(name, 0, j);
    }
  }

  /** Every word of the pattern starts with the letter M. */
  lemma InPatternStartsWithM(t: string)
    requires InPattern(t)
    ensures |t| > 0 && t[0] == 'M'
  {
    var d1: string, d2: string :| |d1| > 0 && AllDigits(d1) && |d2| > 0 && AllDigits(d2)
      && t == PidPrefix + d1 + VisitSep + d2;
    assert t[0] == PidPrefix[0];
  }

  /** The pattern at the very start of `s`, followed by `rest`, is what both parsers find. */
  lemma CaptureAtStart(s: string, d: string, v: string, rest: string)
    requires |d| > 0 && AllDigits(d) && |v| > 0 && AllDigits(v)
    requires s == PidPrefix + d + VisitSep + v + rest
    requires |rest| == 0 || !IsDigit(rest[0])
    ensures ParseCaseId(s) == Some(PidPrefix + d + IdSep + ZFill(v, 2))
    ensures MatchCaseId(s) == Some(PidPrefix + d + IdSep + ZFill(v, 2))
  {
    var g := Groups(PidPrefix + d, v);
    var w := g.pid + VisitSep + g.visit;
    assert s[0..|w|] == w;
    assert |rest| > 0 ==> s[|w|] == rest[0];
    assert g.pid[|PidPrefix|..] == d;
    assert CapturesAt(s, 0, g);
    CapturesMatchAt(s, 0, g);
  }

  /** The canonical id the examples below expect, spelled out. */
  lemma ExampleId()
    ensures PidPrefix + "010" + IdSep + ZFill("1", 2) == "MGHNICU_010_VISIT_01"
    ensures PidPrefix + "010" + IdSep + ZFill("01", 2) == "MGHNICU_010_VISIT_01"
    ensures PidPrefix + "010" + IdSep + ZFill("123", 2) == "MGHNICU_010_VISIT_123"
  {
    VisitPadding();
  }

  /** An ADC file name with a one-digit visit gets a two-digit canonical visit. */
  lemma ExampleAdcName(s: string)
    requires s == "MGHNICU_010-VISIT_1-ADC_ss.mha"
    ensures ParseCaseId(s) == Some("MGHNICU_010_VISIT_01")
  {
    assert s == PidPrefix + "010" + VisitSep + "1" + "-ADC_ss.mha";
    CaptureAtStart(s, "010", "1", "-ADC_ss.mha");
    ExampleId();
  }

  /** A three-digit visit is kept as it is, by both parsers. */
  lemma ExampleAdcNameThreeDigits(t: string)
    requires t == "MGHNICU_010-VISIT_123-ADC_ss.mha"
    ensures ParseCaseId(t) == Some("MGHNICU_010_VISIT_123")
    ensures MatchCaseId(t) == ParseCaseId(t)
  {
    assert t == PidPrefix + "010" + VisitSep + "123" + "-ADC_ss.mha";
    CaptureAtStart(t, "010", "123", "-ADC_ss.mha");
    ExampleId();
  }

  /** A label name starts with the pattern, so the anchored matcher accepts it. */
  lemma ExampleLabelName(s: string)
    requires s == "MGHNICU_010-VISIT_01_lesion.mha"
    ensures MatchCaseId(s) == Some("MGHNICU_010_VISIT_01")
  {
    assert s == PidPrefix + "010" + VisitSep + "01" + "_lesion.mha";
    CaptureAtStart(s, "010", "01", "_lesion.mha");
    ExampleId();
  }

  /** A Z-map name carries the pattern after a prefix: searching finds it. */
  lemma ExampleZmapName(s: string)
    requires s == "Zmap_" + "MGHNICU_010-VISIT_01" + "-ADC_smooth2mm_clipped10.mha"
    ensures ParseCaseId(s) == Some("MGHNICU_010_VISIT_01")
  {
    var g := Groups(PidPrefix + "010", "01");
    var w := g.pid + VisitSep + g.visit;
    assert s == "Zmap_" + w + "-ADC_smooth2mm_clipped10.mha";
    assert s[5..5 + |w|] == w;
    assert s[5 + |w|] == '-';
    assert g.pid[|PidPrefix|..] == "010";
    assert CapturesAt(s, 5, g);
    forall i: nat, j: nat | i < 5 && i <= j <= |s| ensures !InPattern(s[i..j]) {
      if InPattern(s[i..j]) {
        InPatternStartsWithM(s[i..j]);
      }
    }
    LeftmostDeterminesParse(s, 5, g);
    ExampleId();
  }

  /** The same Z-map name does not start with the pattern: the anchored matcher rejects it. */
  lemma ExampleZmapNameNotAnchored(s: string)
    requires s == "Zmap_" + "MGHNICU_010-VISIT_01" + "-ADC_smooth2mm_clipped10.mha"
    ensures MatchCaseId(s) == None
  {
    assert s[0..|PidPrefix|][0] == s[0] == 'Z';
  }
}
