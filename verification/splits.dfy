/**
 * The manifest: a text file listing approved case ids, one per line.
 * Lines are stripped of surrounding whitespace; blank lines and lines whose
 * stripped form starts with `#` are dropped; everything else is kept in file
 * order, repeats included. A missing file and a file with nothing left are
 * errors.
 */
module Splits {
  import opened Wrappers
  import opened Strings
  import opened Fs

  predicate AllSpace(s: string)
  {
    forall i :: 0 <= i < |s| ==> IsSpace(s[i])
  }

  /** Neither end of `s` is whitespace. */
  predicate IsStripped(s: string)
  {
    |s| == 0 || (!IsSpace(s[0]) && !IsSpace(s[|s| - 1]))
  }

  /** Python's `s.lstrip()`. */
  function LStrip(s: string): (r: string)
    ensures |r| <= |s|
  {
    if |s| > 0 && IsSpace(s[0]) then LStrip(s[1..]) else s
  }

  /** Python's `s.rstrip()`. */
  function RStrip(s: string): (r: string)
    ensures |r| <= |s|
  {
    if |s| > 0 && IsSpace(s[|s| - 1]) then RStrip(s[..|s| - 1]) else s
  }

  /** `lstrip` removes a whitespace prefix, and exactly the whole of it. */
  lemma {:induction false} LStripRemovesLeadingSpace(s: string)
    ensures LStrip(s) == s[|s| - |LStrip(s)|..]
    ensures AllSpace(s[..|s| - |LStrip(s)|])
    ensures |LStrip(s)| > 0 ==> !IsSpace(LStrip(s)[0])
    decreases |s|
  {
    if |s| > 0 && IsSpace(s[0]) {
      var r := LStrip(s[1..]);
      LStripRemovesLeadingSpace(s[1..]);
      assert s[..|s| - |r|] == [s[0]] + s[1..][..|s| - 1 - |r|];
    }
  }

  /** `rstrip` removes a whitespace suffix, and exactly the whole of it. */
  lemma {:induction false} RStripRemovesTrailingSpace(s: string)
    ensures RStrip(s) == s[..|RStrip(s)|]
    ensures AllSpace(s[|RStrip(s)|..])
    ensures |RStrip(s)| > 0 ==> !IsSpace(RStrip(s)[|RStrip(s)| - 1])
    decreases |s|
  {
    if |s| > 0 && IsSpace(s[|s| - 1]) {
      var r := RStrip(s[..|s| - 1]);
      RStripRemovesTrailingSpace(s[..|s| - 1]);
      assert s[|r|..] == s[..|s| - 1][|r|..] + [s[|s| - 1]];
    }
  }

  /** Python's `s.strip()`: whitespace removed from both ends. */
  function Strip(s: string): (r: string)
    ensures |r| <= |s|
  {
    RStrip(LStrip(s))
  }

  /** `s` is whitespace, then `Strip(s)`, then whitespace. */
  lemma StripSurroundedBySpace(s: string)
    ensures exists a :: (0 <= a && a + |Strip(s)| <= |s| && s[a..a + |Strip(s)|] == Strip(s)
                         && AllSpace(s[..a]) && AllSpace(s[a + |Strip(s)|..]))
  {
    var l := LStrip(s);
    var r := RStrip(l);
    var a := |s| - |l|;
    LStripRemovesLeadingSpace(s);
    RStripRemovesTrailingSpace(l);
    assert s[a..a + |r|] == r;
    assert s[a + |r|..] == l[|r|..];
    assert AllSpace(s[..a]) && AllSpace(s[a + |r|..]);
  }

  lemma StripIsStripped(s: string)
    ensures IsStripped(Strip(s))
  {
    LStripRemovesLeadingSpace(s);
    var l := LStrip(s);
    RStripRemovesTrailingSpace(l);
    var r := RStrip(l);
    if |r| > 0 {
      assert r[0] == l[0];
    }
  }

  /** A line that names a case: non-blank after stripping and not a comment. */
  predicate Kept(line: string)
  {
    var s := Strip(line);
    |s| > 0 && s[0] != '#'
  }

  /** The case ids of a manifest's lines, in file order, repeats included. */
  function ManifestIds(lines: seq<string>): (ids: seq<string>)
    ensures |ids| <= |lines|
  {
    if |lines| == 0 then []
    else
      var last := lines[|lines| - 1];
      ManifestIds(lines[..|lines| - 1]) + (if Kept(last) then [Strip(last)] else [])
  }

  /**
   * `load_subset_list`: `present` says whether the manifest file exists and
   * `lines` are its lines; the lines are not looked at when it does not.
   */
  function LoadSubsetList(path: string, present: bool, lines: seq<string>): (r: Result<seq<string>, Error>)
    ensures !present ==> r == Err(ManifestNotFound(path))
    ensures present && ManifestIds(lines) == [] ==> r == Err(EmptyManifest(path))
    ensures present && ManifestIds(lines) != [] ==> r == Ok(ManifestIds(lines))
    ensures r.Ok? ==> r.value == ManifestIds(lines) && |r.value| > 0
  {
    if !present then Err(ManifestNotFound(path))
    else
      var ids := ManifestIds(lines);
      if |ids| == 0 then Err(EmptyManifest(path)) else Ok(ids)
  }

  /** The manifest at `path` in a filesystem snapshot. */
  function LoadManifest(fs: FileSystem, path: string): Result<seq<string>, Error>
  {
    LoadSubsetList(path, path in fs.paths, Lines(fs, path))
  }

  // ---------------------------------------------------------------------
  // Properties.

  /** Leading whitespace makes no difference to `lstrip`. */
  lemma {:induction false} LStripSkipsSpace(p: string, u: string)
    requires AllSpace(p)
    ensures LStrip(p + u) == LStrip(u)
    decreases |p|
  {
    if |p| == 0 {
      assert p + u == u;
    } else {
      assert IsSpace(p[0]);
      assert (p + u)[0] == p[0];
      assert (p + u)[1..] == p[1..] + u;
      LStripSkipsSpace(p[1..], u);
    }
  }

  /** Trailing whitespace makes no difference to `rstrip`. */
  lemma {:induction false} RStripSkipsSpace(u: string, q: string)
    requires AllSpace(q)
    ensures RStrip(u + q) == RStrip(u)
    decreases |q|
  {
    if |q| == 0 {
      assert u + q == u;
    } else {
      assert IsSpace(q[|q| - 1]);
      var q' := q[..|q| - 1];
      assert (u + q)[|u + q| - 1] == q[|q| - 1];
      assert (u + q)[..|u + q| - 1] == u + q';
      RStripSkipsSpace(u, q');
    }
  }

  /** Stripping is determined by the text between the surrounding whitespace. */
  lemma StripUnique(p: string, t: string, q: string)
    requires AllSpace(p) && AllSpace(q) && IsStripped(t)
    ensures Strip(p + t + q) == t
  {
    assert p + t + q == p + (t + q);
    LStripSkipsSpace(p, t + q);
    if |t| == 0 {
      assert t + q == q + [];
      LStripSkipsSpace(q, []);
      assert LStrip([]) == [] && RStrip([]) == [];
    } else {
      assert (t + q)[0] == t[0];
      RStripSkipsSpace(t, q);
    }
  }

  /** Stripping twice changes nothing more. */
  lemma StripIdempotent(s: string)
    ensures Strip(Strip(s)) == Strip(s)
  {
    StripIsStripped(s);
    StripUnique([], Strip(s), []);
    assert [] + Strip(s) + [] == Strip(s);
  }

  /** A line whose first non-space character is `#` is a comment, however indented. */
  lemma IndentedCommentDropped(p: string, rest: string)
    requires AllSpace(p)
    ensures !Kept(p + "#" + rest)
  {
    var u := "#" + rest;
    assert p + "#" + rest == p + u;
    LStripSkipsSpace(p, u);
    RStripRemovesTrailingSpace(u);
    var r := RStrip(u);
    VisibleIsNotSpace('#');
    assert r == u[..|r|];
    assert r[0] == u[0];
  }

  /** One line contributes its stripped self when kept, nothing otherwise. */
  lemma ManifestIdsSingle(line: string)
    ensures ManifestIds([line]) == if Kept(line) then [Strip(line)] else []
  {
    assert [line][..0] == [];
  }

  /** The ids of consecutive chunks of lines are consecutive: order and repeats are kept. */
  lemma {:induction false} ManifestIdsAppend(a: seq<string>, b: seq<string>)
    ensures ManifestIds(a + b) == ManifestIds(a) + ManifestIds(b)
    decreases |b|
  {
    if |b| == 0 {
      assert a + b == a;
    } else {
      var b' := b[..|b| - 1];
      assert (a + b)[..|a + b| - 1] == a + b';
      assert b[..|b| - 1] == b';
      ManifestIdsAppend(a, b');
    }
  }

  /** An id is listed exactly when some kept line strips to it. */
  lemma {:induction false} ManifestIdsMembers(lines: seq<string>, x: string)
    ensures x in ManifestIds(lines) <==> exists i :: 0 <= i < |lines| && Kept(lines[i]) && Strip(lines[i]) == x
    decreases |lines|
  {
    if |lines| > 0 {
      var front := lines[..|lines| - 1];
      var last := lines[|lines| - 1];
      ManifestIdsMembers(front, x);
      var tail := if Kept(last) then [Strip(last)] else [];
      assert ManifestIds(lines) == ManifestIds(front) + tail;
      if x in ManifestIds(front) {
        var i :| 0 <= i < |front| && Kept(front[i]) && Strip(front[i]) == x;
        assert lines[i] == front[i];
      } else if x in tail {
        assert Kept(lines[|lines| - 1]) && Strip(lines[|lines| - 1]) == x;
      } else {
        forall i | 0 <= i < |lines| && Kept(lines[i])
          ensures Strip(lines[i]) != x
        {
          if i < |front| {
            assert lines[i] == front[i];
          }
        }
      }
    }
  }

  /** Every listed id is non-empty, not a comment and has no surrounding whitespace. */
  lemma ManifestIdsWellFormed(lines: seq<string>, x: string)
    requires x in ManifestIds(lines)
    ensures |x| > 0 && x[0] != '#' && IsStripped(x)
  {
    ManifestIdsMembers(lines, x);
    var i :| 0 <= i < |lines| && Kept(lines[i]) && Strip(lines[i]) == x;
    StripIsStripped(lines[i]);
  }

  /** The manifest is empty exactly when every line is blank or a comment. */
  lemma {:induction false} ManifestIdsEmpty(lines: seq<string>)
    ensures ManifestIds(lines) == [] <==> forall i :: 0 <= i < |lines| ==> !Kept(lines[i])
    decreases |lines|
  {
    if |lines| > 0 {
      var front := lines[..|lines| - 1];
      ManifestIdsEmpty(front);
      assert forall i :: 0 <= i < |front| ==> front[i] == lines[i];
    }
  }

  /** A repeated id is passed through twice, not merged. */
  lemma RepeatsKept(line: string)
    requires Kept(line)
    ensures ManifestIds([line, line]) == [Strip(line), Strip(line)]
  {
    ManifestIdsAppend([line], [line]);
    ManifestIdsSingle(line);
    assert [line] + [line] == [line, line];
  }
}
