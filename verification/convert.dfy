/**
 * Conversion of the raw volumes of the manifest's cases into the converted
 * root, one file per modality per case.
 *
 * The converted root is created first. The manifest is read and turned
 * into a set; the Train and Val splits that exist are indexed and merged,
 * Val winning on a shared id. A manifest id in neither index stops the
 * stage before anything is converted. Otherwise the cases are visited in
 * ascending id order: the ADC volume, the label when the index has one, and
 * the Z-map when the configuration enables it and the index has one. An
 * output that already exists is left alone, so a rerun only does what is
 * missing.
 */
module Convert {
  import opened Wrappers
  import opened Strings
  import opened Sorting
  import opened Fs
  import opened Splits
  import opened DatasetIndex
  import opened Paths
  import opened CaseId

  const AdcSuffix: string := "_ADC.nii.gz"
  const LabelSuffix: string := "_lesion.nii.gz"
  const ZSuffix: string := "_Z.nii.gz"

  /** At most this many missing ids are named in the error. */
  const MaxShown: nat := 10

  function AdcOut(root: string, cid: string): string
  {
    Join(root, cid + AdcSuffix)
  }

  function LabelOut(root: string, cid: string): string
  {
    Join(root, cid + LabelSuffix)
  }

  function ZOut(root: string, cid: string): string
  {
    Join(root, cid + ZSuffix)
  }

  /** Read the volume at `src` and write it, compressed, to `dst`. */
  datatype Job = Job(src: string, dst: string)

  /** The two indexes merged: every id of either, the Val entry winning on a shared id. */
  function Merge(train: CaseIndex, val: CaseIndex): (m: CaseIndex)
    ensures forall c :: c in m <==> c in train || c in val
    ensures forall c :: c in val ==> m[c] == val[c]
    ensures forall c :: c in train && c !in val ==> m[c] == train[c]
  {
    train + val
  }

  /**
   * The index of a split folder, or an empty index when the folder does not
   * exist: an existing split without `1ADC_ss` stops the converter.
   */
  function IndexIfPresent(fs: FileSystem, dir: string): (r: Result<CaseIndex, Error>)
    ensures dir !in fs.paths ==> r == Ok(map[])
    ensures dir in fs.paths ==> r == IndexSplit(fs, dir)
    ensures r.Err? <==> dir in fs.paths && Join(dir, AdcFolder) !in fs.paths
  {
    if dir in fs.paths then IndexSplit(fs, dir) else Ok(map[])
  }

  /** The ids of `ids` that the index lacks, in the order of `ids`. */
  function Unindexed(ids: seq<string>, idx: CaseIndex): (r: seq<string>)
    ensures |r| <= |ids|
  {
    if |ids| == 0 then []
    else
      var last := ids[|ids| - 1];
      Unindexed(ids[..|ids| - 1], idx) + (if last in idx then [] else [last])
  }

  /** The first ten missing ids, which is all the error message shows. */
  function Shown(missing: seq<string>): (r: seq<string>)
    ensures |r| == if |missing| <= MaxShown then |missing| else MaxShown
    ensures forall k :: 0 <= k < |r| ==> r[k] == missing[k]
  {
    if |missing| <= MaxShown then missing else missing[..MaxShown]
  }

  /** The outputs of one case, in the order the converter writes them. */
  function CaseJobs(root: string, useZmap: bool, cid: string, cf: CaseFiles): seq<Job>
  {
    [Job(cf.adcMha, AdcOut(root, cid))]
    + (if cf.labelMha.Some? then [Job(cf.labelMha.value, LabelOut(root, cid))] else [])
    + (if useZmap && cf.zmapMha.Some? then [Job(cf.zmapMha.value, ZOut(root, cid))] else [])
  }

  /** The outputs of every case of `ids`, case after case. */
  function Jobs(root: string, useZmap: bool, ids: seq<string>, idx: CaseIndex): seq<Job>
    requires forall c :: c in ids ==> c in idx
  {
    if |ids| == 0 then []
    else CaseJobs(root, useZmap, ids[0], idx[ids[0]]) + Jobs(root, useZmap, ids[1..], idx)
  }

  /** One output: skipped when it exists, otherwise the source is read and written out. */
  function Step(fs: FileSystem, j: Job): (r: Result<FileSystem, Error>)
  {
    if j.dst in fs.paths then Ok(fs)
    else if j.src !in fs.images then Err(Unreadable(j.src))
    else Ok(WriteImage(fs, j.dst, fs.images[j.src]))
  }

  /** The outputs in order; the first unreadable source stops the run, earlier outputs stay. */
  function RunJobs(fs: FileSystem, jobs: seq<Job>): (r: Run)
    decreases |jobs|
  {
    if |jobs| == 0 then Run(fs, None)
    else match Step(fs, jobs[0])
      case Err(e) => Run(fs, Some(e))
      case Ok(fs') => RunJobs(fs', jobs[1..])
  }

  /** The converter's `main` for a loaded configuration. */
  function ConvertMain(dp: DatasetPaths, fs: FileSystem): (r: Run)
  {
    var fs1 := MakeDir(fs, dp.convertedRoot);
    match LoadManifest(fs1, dp.manifestsPath)
    case Err(e) => Run(fs1, Some(e))
    case Ok(ids) =>
      var wanted := SortUnique(ids);
      var dirs := FindRawSplitDirs(dp.rawRoot);
      match IndexIfPresent(fs1, dirs.train)
      case Err(e) => Run(fs1, Some(e))
      case Ok(train) =>
        match IndexIfPresent(fs1, dirs.val)
        case Err(e) => Run(fs1, Some(e))
        case Ok(val) =>
          ConvertIndexed(dp, fs1, wanted, Merge(train, val))
  }

  /**
   * The part after indexing: reconcile the wanted ids with the merged index,
   * then convert case by case.
   */
  function ConvertIndexed(dp: DatasetPaths, fs1: FileSystem, wanted: seq<string>, idx: CaseIndex): (r: Run)
  {
    var missing := Unindexed(wanted, idx);
    if |missing| > 0 then Run(fs1, Some(ManifestIdsNotIndexed(Shown(missing))))
    else
      UnindexedEmpty(wanted, idx);
      RunJobs(fs1, Jobs(dp.convertedRoot, dp.useZmap, wanted, idx))
  }

  // ---------------------------------------------------------------------
  // Reconciling the manifest with the index.

  /** An id is reported missing exactly when it is wanted and not indexed. */
  lemma {:induction false} UnindexedMembers(ids: seq<string>, idx: CaseIndex, c: string)
    ensures c in Unindexed(ids, idx) <==> c in ids && c !in idx
    decreases |ids|
  {
    if |ids| > 0 {
      var front := ids[..|ids| - 1];
      UnindexedMembers(front, idx, c);
      assert ids == front + [ids[|ids| - 1]];
    }
  }

  /** Nothing is missing exactly when every wanted id is indexed. */
  lemma UnindexedEmpty(ids: seq<string>, idx: CaseIndex)
    ensures Unindexed(ids, idx) == [] <==> forall c :: c in ids ==> c in idx
  {
    if Unindexed(ids, idx) != [] {
      var c := Unindexed(ids, idx)[0];
      UnindexedMembers(ids, idx, c);
    } else {
      forall c | c in ids ensures c in idx {
        UnindexedMembers(ids, idx, c);
      }
    }
  }

  // ---------------------------------------------------------------------
  // Running the outputs.

  predicate AllPresent(fs: FileSystem, jobs: seq<Job>)
  {
    forall k :: 0 <= k < |jobs| ==> jobs[k].dst in fs.paths
  }

  /** When every output exists, a run reads nothing and changes nothing. */
  lemma {:induction false} RunJobsAllPresent(fs: FileSystem, jobs: seq<Job>)
    requires AllPresent(fs, jobs)
    ensures RunJobs(fs, jobs) == Run(fs, None)
    decreases |jobs|
  {
    if |jobs| > 0 {
      assert jobs[0].dst in fs.paths;
      assert AllPresent(fs, jobs[1..]) by {
        forall k | 0 <= k < |jobs| - 1 ensures jobs[1..][k].dst in fs.paths {
          assert jobs[1..][k] == jobs[k + 1];
        }
      }
      RunJobsAllPresent(fs, jobs[1..]);
    }
  }

  /**
   * A completed run leaves every output in place, adds no other path, and
   * never touches a path that is not an output.
   */
  lemma {:induction false} RunJobsCompleted(fs: FileSystem, jobs: seq<Job>)
    requires RunJobs(fs, jobs).failure.None?
    ensures var out := RunJobs(fs, jobs).fs;
      && AllPresent(out, jobs)
      && (forall p :: p in out.paths <==> p in fs.paths || exists k :: 0 <= k < |jobs| && jobs[k].dst == p)
      && (forall p :: p !in fs.paths ==> (p in out.images ==> p in fs.images || exists k :: 0 <= k < |jobs| && jobs[k].dst == p))
      && (forall p :: p in fs.paths && p in fs.images ==> p in out.images && out.images[p] == fs.images[p])
      && out.listings == fs.listings && out.texts == fs.texts
    decreases |jobs|
  {
    if |jobs| > 0 {
      var fs' := Step(fs, jobs[0]).value;
      RunJobsCompleted(fs', jobs[1..]);
      var out := RunJobs(fs, jobs).fs;
      assert out == RunJobs(fs', jobs[1..]).fs;
      forall k | 0 <= k < |jobs| ensures jobs[k].dst in out.paths {
        if k > 0 {
          assert jobs[1..][k - 1] == jobs[k];
        }
      }
      forall p | p in out.paths ensures p in fs.paths || exists k :: 0 <= k < |jobs| && jobs[k].dst == p {
        if p !in fs'.paths {
          var k :| 0 <= k < |jobs| - 1 && jobs[1..][k].dst == p;
          assert jobs[k + 1].dst == p;
        } else if p !in fs.paths {
          assert jobs[0].dst == p;
        }
      }
      forall p | p !in fs.paths && p in out.images
        ensures p in fs.images || exists k :: 0 <= k < |jobs| && jobs[k].dst == p
      {
        if p !in fs'.paths {
          if p !in fs'.images {
            var k :| 0 <= k < |jobs| - 1 && jobs[1..][k].dst == p;
            assert jobs[k + 1].dst == p;
          }
        } else {
          assert jobs[0].dst == p;
        }
      }
    }
  }

  /** Running the same outputs a second time does nothing: conversion is idempotent. */
  lemma RunJobsIdempotent(fs: FileSystem, jobs: seq<Job>)
    requires RunJobs(fs, jobs).failure.None?
    ensures var out := RunJobs(fs, jobs).fs;
      RunJobs(out, jobs) == Run(out, None)
  {
    RunJobsCompleted(fs, jobs);
    RunJobsAllPresent(RunJobs(fs, jobs).fs, jobs);
  }

  /**
   * An output written by a run holds the geometry of its source, as long as
   * no output of the run is also a source of it: the converter never
   * resamples.
   */
  lemma {:induction false} RunJobsPreservesGeometry(fs: FileSystem, jobs: seq<Job>, k: nat)
    requires k < |jobs| && RunJobs(fs, jobs).failure.None?
    requires jobs[k].dst !in fs.paths
    requires forall a, b :: 0 <= a < |jobs| && 0 <= b < |jobs| ==> jobs[a].src != jobs[b].dst
    requires forall a :: 0 <= a < k ==> jobs[a].dst != jobs[k].dst
    ensures jobs[k].src in fs.images
    ensures var out := RunJobs(fs, jobs).fs;
      jobs[k].dst in out.images && out.images[jobs[k].dst] == fs.images[jobs[k].src]
    decreases k
  {
    var j := jobs[0];
    var fs' := Step(fs, j).value;
    var rest := jobs[1..];
    assert RunJobs(fs, jobs) == RunJobs(fs', rest);
    if k == 0 {
      assert fs' == WriteImage(fs, j.dst, fs.images[j.src]);
      RunJobsCompleted(fs', rest);
    } else {
      assert rest[k - 1] == jobs[k];
      assert j.dst != jobs[k].dst;
      assert jobs[k].src != j.dst;
      assert jobs[k].src in fs'.images <==> jobs[k].src in fs.images;
      assert jobs[k].src in fs'.images ==> fs'.images[jobs[k].src] == fs.images[jobs[k].src];
      forall a, b | 0 <= a < |rest| && 0 <= b < |rest| ensures rest[a].src != rest[b].dst {
        assert rest[a] == jobs[a + 1] && rest[b] == jobs[b + 1];
      }
      forall a | 0 <= a < k - 1 ensures rest[a].dst != rest[k - 1].dst {
        assert rest[a] == jobs[a + 1];
      }
      RunJobsPreservesGeometry(fs', rest, k - 1);
    }
  }

  /**
   * `jobs[k]` is where a run stops: every earlier job succeeded, and at that
   * point its output does not exist yet and its source cannot be read.
   */
  predicate StopsAt(fs: FileSystem, jobs: seq<Job>, k: int)
  {
    && 0 <= k < |jobs|
    && RunJobs(fs, jobs[..k]).failure.None?
    && jobs[k].dst !in RunJobs(fs, jobs[..k]).fs.paths
    && jobs[k].src !in RunJobs(fs, jobs[..k]).fs.images
  }

  /**
   * A run that fails stops at the first job whose output is still missing
   * and whose source cannot be read; the error names that source, and the
   * outputs of the jobs before it stay written.
   */
  lemma {:induction false} RunJobsFailure(fs: FileSystem, jobs: seq<Job>)
    requires RunJobs(fs, jobs).failure.Some?
    ensures exists k :: 0 <= k < |jobs| && RunJobs(fs, jobs).failure == Some(Unreadable(jobs[k].src))
    ensures exists k :: (StopsAt(fs, jobs, k) &&
      RunJobs(fs, jobs) == Run(RunJobs(fs, jobs[..k]).fs, Some(Unreadable(jobs[k].src))))
    decreases |jobs|
  {
    if Step(fs, jobs[0]).Ok? {
      var fs' := Step(fs, jobs[0]).value;
      var rest := jobs[1..];
      RunJobsFailure(fs', rest);
      var k :| StopsAt(fs', rest, k) && RunJobs(fs', rest) == Run(RunJobs(fs', rest[..k]).fs, Some(Unreadable(rest[k].src)));
      assert rest[k] == jobs[k + 1];
      assert jobs[..k + 1][0] == jobs[0] && jobs[..k + 1][1..] == rest[..k];
      assert RunJobs(fs, jobs[..k + 1]) == RunJobs(fs', rest[..k]);
      assert StopsAt(fs, jobs, k + 1);
    } else {
      assert jobs[..0] == [];
      assert StopsAt(fs, jobs, 0);
    }
  }

  // ---------------------------------------------------------------------
  // The outputs of the cases.

  /** An output name determines its case. */
  lemma OutputCancel(root: string, c: string, c': string, suffix: string)
    requires Join(root, c + suffix) == Join(root, c' + suffix)
    ensures c == c'
  {
    var s := Join(root, c + suffix);
    assert |c| == |c'|;
    assert c == s[|root| + 1..|root| + 1 + |c|];
  }

  /** The three kinds of output never share a name, whatever the cases. */
  lemma OutputsDistinct(root: string, c: string, c': string)
    ensures AdcOut(root, c) != LabelOut(root, c')
    ensures AdcOut(root, c) != ZOut(root, c')
    ensures LabelOut(root, c) != ZOut(root, c')
  {
    var a := AdcOut(root, c);
    var l := LabelOut(root, c');
    var l2 := LabelOut(root, c);
    var z := ZOut(root, c');
    assert a[|a| - 11] == '_' && a[|a| - 9] == 'D';
    assert l[|l| - 11] == 's' && l[|l| - 9] == 'o';
    assert l2[|l2| - 9] == 'o';
    assert z[|z| - 9] == '_';
  }

  /** The three outputs of a case, in the order the converter writes them. */
  datatype Output = AdcOutput | LabelOutput | ZOutput

  function OutputName(root: string, cid: string, o: Output): string
  {
    match o
    case AdcOutput => AdcOut(root, cid)
    case LabelOutput => LabelOut(root, cid)
    case ZOutput => ZOut(root, cid)
  }

  function Rank(o: Output): nat
  {
    match o
    case AdcOutput => 0
    case LabelOutput => 1
    case ZOutput => 2
  }

  /**
   * Output `o1` of case `c1` is written before output `o2` of case `c2`:
   * cases in ascending id order, and within a case ADC, then label, then Z-map.
   */
  predicate WrittenBefore(c1: string, o1: Output, c2: string, o2: Output)
  {
    (c1 != c2 && LexLe(c1, c2)) || (c1 == c2 && Rank(o1) < Rank(o2))
  }

  /** An output name determines both its case and its kind. */
  lemma OutputNameInjective(root: string, c: string, c': string, o: Output, o': Output)
    requires OutputName(root, c, o) == OutputName(root, c', o')
    ensures c == c' && o == o'
  {
    OutputsDistinct(root, c, c');
    OutputsDistinct(root, c', c);
    match o
    case AdcOutput => OutputCancel(root, c, c', AdcSuffix);
    case LabelOutput => OutputCancel(root, c, c', LabelSuffix);
    case ZOutput => OutputCancel(root, c, c', ZSuffix);
  }

  /** Within one case, the outputs come in the order ADC, label, Z-map. */
  lemma CaseJobsOrder(root: string, useZmap: bool, cid: string, cf: CaseFiles, k1: nat, k2: nat,
                      c1: string, o1: Output, c2: string, o2: Output)
    requires k1 <= k2 < |CaseJobs(root, useZmap, cid, cf)|
    requires CaseJobs(root, useZmap, cid, cf)[k1].dst == OutputName(root, c1, o1)
    requires CaseJobs(root, useZmap, cid, cf)[k2].dst == OutputName(root, c2, o2)
    ensures c1 == cid && c2 == cid
    ensures k1 < k2 ==> Rank(o1) < Rank(o2)
  {
    var h := CaseJobs(root, useZmap, cid, cf);
    var a := [Job(cf.adcMha, AdcOut(root, cid))];
    var l := if cf.labelMha.Some? then [Job(cf.labelMha.value, LabelOut(root, cid))] else [];
    var z := if useZmap && cf.zmapMha.Some? then [Job(cf.zmapMha.value, ZOut(root, cid))] else [];
    assert h == a + l + z;
    var ok1 := if k1 == 0 then AdcOutput else if k1 == 1 && |l| == 1 then LabelOutput else ZOutput;
    var ok2 := if k2 == 0 then AdcOutput else if k2 == 1 && |l| == 1 then LabelOutput else ZOutput;
    assert h[k1].dst == OutputName(root, cid, ok1);
    assert h[k2].dst == OutputName(root, cid, ok2);
    OutputNameInjective(root, c1, cid, o1, ok1);
    OutputNameInjective(root, c2, cid, o2, ok2);
  }

  /** Every output of the run is written after the outputs that precede it in `WrittenBefore`. */
  lemma {:induction false} JobsOrderForward(root: string, useZmap: bool, ids: seq<string>, idx: CaseIndex,
                                            k1: nat, k2: nat, c1: string, o1: Output, c2: string, o2: Output)
    requires forall x :: x in ids ==> x in idx
    requires Ascending(ids)
    requires k1 < k2 < |Jobs(root, useZmap, ids, idx)|
    requires Jobs(root, useZmap, ids, idx)[k1].dst == OutputName(root, c1, o1)
    requires Jobs(root, useZmap, ids, idx)[k2].dst == OutputName(root, c2, o2)
    ensures WrittenBefore(c1, o1, c2, o2)
    decreases |ids|
  {
    var head := CaseJobs(root, useZmap, ids[0], idx[ids[0]]);
    var rest := Jobs(root, useZmap, ids[1..], idx);
    var js := Jobs(root, useZmap, ids, idx);
    assert js == head + rest;
    if k2 < |head| {
      assert js[k1] == head[k1] && js[k2] == head[k2];
      CaseJobsOrder(root, useZmap, ids[0], idx[ids[0]], k1, k2, c1, o1, c2, o2);
    } else if k1 < |head| {
      assert js[k1] == head[k1];
      CaseJobsOrder(root, useZmap, ids[0], idx[ids[0]], k1, k1, c1, o1, c1, o1);
      var j := rest[k2 - |head|];
      assert js[k2] == j && j in rest;
      JobsOnly(root, useZmap, ids[1..], idx, j, c2);
      var i :| 0 <= i < |ids[1..]| && ids[1..][i] == c2;
      assert ids[i + 1] == c2;
    } else {
      assert js[k1] == rest[k1 - |head|] && js[k2] == rest[k2 - |head|];
      assert Ascending(ids[1..]) by {
        forall a, b | 0 <= a < b < |ids[1..]| ensures LexLe(ids[1..][a], ids[1..][b]) && ids[1..][a] != ids[1..][b] {
          assert ids[1..][a] == ids[a + 1] && ids[1..][b] == ids[b + 1];
        }
      }
      JobsOrderForward(root, useZmap, ids[1..], idx, k1 - |head|, k2 - |head|, c1, o1, c2, o2);
    }
  }

  /**
   * The order of the run: over ids in ascending order (as the converter's
   * sorted manifest is), one output comes before another exactly when its
   * case comes first, or it is the same case and an earlier kind. In
   * particular no output name is written twice.
   */
  lemma JobsOrder(root: string, useZmap: bool, ids: seq<string>, idx: CaseIndex,
                  k1: nat, k2: nat, c1: string, o1: Output, c2: string, o2: Output)
    requires forall x :: x in ids ==> x in idx
    requires Ascending(ids)
    requires k1 < |Jobs(root, useZmap, ids, idx)| && k2 < |Jobs(root, useZmap, ids, idx)|
    requires Jobs(root, useZmap, ids, idx)[k1].dst == OutputName(root, c1, o1)
    requires Jobs(root, useZmap, ids, idx)[k2].dst == OutputName(root, c2, o2)
    ensures k1 < k2 <==> WrittenBefore(c1, o1, c2, o2)
    ensures k1 == k2 <==> c1 == c2 && o1 == o2
  {
    if k1 < k2 {
      JobsOrderForward(root, useZmap, ids, idx, k1, k2, c1, o1, c2, o2);
      assert !(c1 == c2 && o1 == o2);
    } else if k2 < k1 {
      JobsOrderForward(root, useZmap, ids, idx, k2, k1, c2, o2, c1, o1);
      if c1 != c2 && LexLe(c1, c2) {
        LexLeAntisymmetric(c1, c2);
      }
    } else {
      OutputNameInjective(root, c1, c2, o1, o2);
    }
  }

  /**
   * Conversely, every output of the run belongs to a wanted case and comes
   * from the file the index holds for it: an ADC output from its ADC, a
   * label output only from an indexed label, a Z output only with Z-maps
   * enabled and from an indexed Z-map.
   */
  lemma {:induction false} JobsOnly(root: string, useZmap: bool, ids: seq<string>, idx: CaseIndex, j: Job, c: string)
    requires forall x :: x in ids ==> x in idx
    requires j in Jobs(root, useZmap, ids, idx)
    ensures j.dst == AdcOut(root, c) ==> c in ids && j.src == idx[c].adcMha
    ensures j.dst == LabelOut(root, c) ==> c in ids && idx[c].labelMha == Some(j.src)
    ensures j.dst == ZOut(root, c) ==> c in ids && useZmap && idx[c].zmapMha == Some(j.src)
    decreases |ids|
  {
    var c0 := ids[0];
    var cf := idx[c0];
    var head := CaseJobs(root, useZmap, c0, cf);
    var rest := Jobs(root, useZmap, ids[1..], idx);
    assert Jobs(root, useZmap, ids, idx) == head + rest;
    OutputsDistinct(root, c0, c);
    OutputsDistinct(root, c, c0);
    if j in head {
      if j.dst == AdcOut(root, c) {
        OutputCancel(root, c0, c, AdcSuffix);
      }
      if j.dst == LabelOut(root, c) {
        OutputCancel(root, c0, c, LabelSuffix);
      }
      if j.dst == ZOut(root, c) {
        OutputCancel(root, c0, c, ZSuffix);
      }
    } else {
      JobsOnly(root, useZmap, ids[1..], idx, j, c);
    }
  }

  /**
   * Each case gets its ADC output, its label output exactly when indexed
   * with a label, and its Z output exactly when Z-maps are enabled and it is
   * indexed with a Z-map; each output is read from the indexed file.
   */
  lemma {:induction false} JobsCover(root: string, useZmap: bool, ids: seq<string>, idx: CaseIndex, c: string)
    requires forall x :: x in ids ==> x in idx
    requires c in ids
    ensures Job(idx[c].adcMha, AdcOut(root, c)) in Jobs(root, useZmap, ids, idx)
    ensures idx[c].labelMha.Some? ==> Job(idx[c].labelMha.value, LabelOut(root, c)) in Jobs(root, useZmap, ids, idx)
    ensures useZmap && idx[c].zmapMha.Some? ==> Job(idx[c].zmapMha.value, ZOut(root, c)) in Jobs(root, useZmap, ids, idx)
    ensures forall j :: j in Jobs(root, useZmap, ids, idx) && j.dst == AdcOut(root, c) ==> j.src == idx[c].adcMha
    ensures forall j :: j in Jobs(root, useZmap, ids, idx) && j.dst == LabelOut(root, c) ==> idx[c].labelMha == Some(j.src)
    ensures forall j :: j in Jobs(root, useZmap, ids, idx) && j.dst == ZOut(root, c) ==>
      useZmap && idx[c].zmapMha == Some(j.src)
    decreases |ids|
  {
    forall j | j in Jobs(root, useZmap, ids, idx)
      ensures j.dst == AdcOut(root, c) ==> j.src == idx[c].adcMha
      ensures j.dst == LabelOut(root, c) ==> idx[c].labelMha == Some(j.src)
      ensures j.dst == ZOut(root, c) ==> useZmap && idx[c].zmapMha == Some(j.src)
    {
      JobsOnly(root, useZmap, ids, idx, j, c);
    }
    var head := CaseJobs(root, useZmap, ids[0], idx[ids[0]]);
    var rest := Jobs(root, useZmap, ids[1..], idx);
    var js := Jobs(root, useZmap, ids, idx);
    assert js == head + rest;
    if ids[0] == c {
      var cf := idx[c];
      var a := [Job(cf.adcMha, AdcOut(root, c))];
      var l := if cf.labelMha.Some? then [Job(cf.labelMha.value, LabelOut(root, c))] else [];
      var z := if useZmap && cf.zmapMha.Some? then [Job(cf.zmapMha.value, ZOut(root, c))] else [];
      assert head == a + l + z;
      assert js[0] == a[0];
      if cf.labelMha.Some? {
        assert js[1] == l[0];
      }
      if useZmap && cf.zmapMha.Some? {
        assert js[|a| + |l|] == z[0];
      }
    } else {
      JobsCover(root, useZmap, ids[1..], idx, c);
    }
  }

  /** Every output lies directly in the converted root and is named after a case of `ids`. */
  lemma {:induction false} JobsOutputs(root: string, useZmap: bool, ids: seq<string>, idx: CaseIndex, k: nat)
    requires forall x :: x in ids ==> x in idx
    requires k < |Jobs(root, useZmap, ids, idx)|
    ensures exists c :: (c in ids &&
      Jobs(root, useZmap, ids, idx)[k].dst in {AdcOut(root, c), LabelOut(root, c), ZOut(root, c)})
    decreases |ids|
  {
    var head := CaseJobs(root, useZmap, ids[0], idx[ids[0]]);
    var rest := Jobs(root, useZmap, ids[1..], idx);
    var js := Jobs(root, useZmap, ids, idx);
    assert js == head + rest;
    if k < |head| {
      assert js[k] == head[k];
      assert ids[0] in ids;
    } else {
      assert js[k] == rest[k - |head|];
      JobsOutputs(root, useZmap, ids[1..], idx, k - |head|);
      var c :| c in ids[1..] && rest[k - |head|].dst in {AdcOut(root, c), LabelOut(root, c), ZOut(root, c)};
      assert c in ids;
    }
  }

  // ---------------------------------------------------------------------
  // The converter as a whole.

  /**
   * The reconciliation step: it fails exactly when a wanted id is not
   * indexed, and then before any conversion, naming at most ten ids, each
   * wanted and unindexed.
   */
  lemma ConvertIndexedNotIndexed(dp: DatasetPaths, fs1: FileSystem, wanted: seq<string>, idx: CaseIndex)
    ensures var r := ConvertIndexed(dp, fs1, wanted, idx);
      && (r.failure.Some? && r.failure.value.ManifestIdsNotIndexed? <==> exists c :: c in wanted && c !in idx)
      && (r.failure.Some? && r.failure.value.ManifestIdsNotIndexed? ==>
            && r.fs == fs1
            && 0 < |r.failure.value.shown| <= MaxShown
            && forall c :: c in r.failure.value.shown ==> c in wanted && c !in idx)
  {
    var missing := Unindexed(wanted, idx);
    UnindexedEmpty(wanted, idx);
    if |missing| == 0 {
      var js := Jobs(dp.convertedRoot, dp.useZmap, wanted, idx);
      if RunJobs(fs1, js).failure.Some? {
        RunJobsFailure(fs1, js);
      }
    } else {
      forall c | c in Shown(missing) ensures c in wanted && c !in idx {
        var k :| 0 <= k < |Shown(missing)| && Shown(missing)[k] == c;
        assert missing[k] == c;
        UnindexedMembers(wanted, idx, c);
      }
    }
  }

  /** The stages before reconciliation report only their own errors. */
  lemma ConvertMainStages(dp: DatasetPaths, fs: FileSystem)
    ensures var fs1 := MakeDir(fs, dp.convertedRoot);
      var m := LoadManifest(fs1, dp.manifestsPath);
      var dirs := FindRawSplitDirs(dp.rawRoot);
      var t := IndexIfPresent(fs1, dirs.train);
      var v := IndexIfPresent(fs1, dirs.val);
      var r := ConvertMain(dp, fs);
      && (m.Err? ==> r == Run(fs1, Some(m.error)) && (m.error.ManifestNotFound? || m.error.EmptyManifest?))
      && (m.Ok? && t.Err? ==> r == Run(fs1, Some(t.error)) && t.error.MissingAdcFolder?)
      && (m.Ok? && t.Ok? && v.Err? ==> r == Run(fs1, Some(v.error)) && v.error.MissingAdcFolder?)
      && (m.Ok? && t.Ok? && v.Ok? ==> r == ConvertIndexed(dp, fs1, SortUnique(m.value), Merge(t.value, v.value)))
  {
  }

  /**
   * A manifest id missing from both indexes stops the stage before any
   * conversion: only the converted root has been created, and the error
   * names at most ten ids, each in the manifest and in neither index. The
   * error is raised exactly when the manifest and both indexes load and some
   * manifest id is in neither index.
   */
  lemma NotIndexedIff(dp: DatasetPaths, fs: FileSystem)
    ensures var fs1 := MakeDir(fs, dp.convertedRoot);
      var m := LoadManifest(fs1, dp.manifestsPath);
      var dirs := FindRawSplitDirs(dp.rawRoot);
      var t := IndexIfPresent(fs1, dirs.train);
      var v := IndexIfPresent(fs1, dirs.val);
      var r := ConvertMain(dp, fs);
      && (r.failure.Some? && r.failure.value.ManifestIdsNotIndexed?
          <==> m.Ok? && t.Ok? && v.Ok? && exists c :: c in m.value && c !in t.value && c !in v.value)
      && (r.failure.Some? && r.failure.value.ManifestIdsNotIndexed? ==>
            && r.fs == fs1
            && 0 < |r.failure.value.shown| <= MaxShown
            && forall c :: c in r.failure.value.shown ==> c in m.value && c !in t.value && c !in v.value)
  {
    var fs1 := MakeDir(fs, dp.convertedRoot);
    var m := LoadManifest(fs1, dp.manifestsPath);
    var dirs := FindRawSplitDirs(dp.rawRoot);
    var t := IndexIfPresent(fs1, dirs.train);
    var v := IndexIfPresent(fs1, dirs.val);
    ConvertMainStages(dp, fs);
    if m.Ok? && t.Ok? && v.Ok? {
      var wanted := SortUnique(m.value);
      var idx := Merge(t.value, v.value);
      ConvertIndexedNotIndexed(dp, fs1, wanted, idx);
    }
  }

  /**
   * A manifest id that some `.mha` name in the `1ADC_ss` listing of an
   * existing Train or Val split carries is never reported as not indexed.
   */
  lemma ListedCaseNotReported(dp: DatasetPaths, fs: FileSystem, split: string, names: seq<string>, n: string, c: string)
    requires split == FindRawSplitDirs(dp.rawRoot).train || split == FindRawSplitDirs(dp.rawRoot).val
    requires split in fs.paths && Listing(fs, Join(split, AdcFolder)) == Some(names)
    requires n in names && EndsWith(n, MhaSuffix) && ParseCaseId(n) == Some(c)
    ensures var r := ConvertMain(dp, fs);
      r.failure.Some? && r.failure.value.ManifestIdsNotIndexed? ==> c !in r.failure.value.shown
  {
    var fs1 := MakeDir(fs, dp.convertedRoot);
    assert Listing(fs1, Join(split, AdcFolder)) == Some(names);
    IndexSplitEntries(fs1, split, c);
    NotIndexedIff(dp, fs);
  }

  /**
   * After a completed run every manifest case has its converted ADC, its
   * converted label when indexed with one, and its converted Z-map when
   * enabled and indexed with one.
   */
  lemma CompletedRunHasOutputs(dp: DatasetPaths, fs: FileSystem, c: string)
    requires ConvertMain(dp, fs).failure.None?
    requires c in LoadManifest(MakeDir(fs, dp.convertedRoot), dp.manifestsPath).value
    ensures var fs1 := MakeDir(fs, dp.convertedRoot);
      var dirs := FindRawSplitDirs(dp.rawRoot);
      var idx := Merge(IndexIfPresent(fs1, dirs.train).value, IndexIfPresent(fs1, dirs.val).value);
      var out := ConvertMain(dp, fs).fs;
      && c in idx
      && AdcOut(dp.convertedRoot, c) in out.paths
      && (idx[c].labelMha.Some? ==> LabelOut(dp.convertedRoot, c) in out.paths)
      && (dp.useZmap && idx[c].zmapMha.Some? ==> ZOut(dp.convertedRoot, c) in out.paths)
  {
    ConvertMainStages(dp, fs);
    var fs1 := MakeDir(fs, dp.convertedRoot);
    var ids := LoadManifest(fs1, dp.manifestsPath).value;
    var wanted := SortUnique(ids);
    var dirs := FindRawSplitDirs(dp.rawRoot);
    var idx := Merge(IndexIfPresent(fs1, dirs.train).value, IndexIfPresent(fs1, dirs.val).value);
    UnindexedEmpty(wanted, idx);
    var js := Jobs(dp.convertedRoot, dp.useZmap, wanted, idx);
    assert ConvertMain(dp, fs) == RunJobs(fs1, js);
    RunJobsCompleted(fs1, js);
    JobsCover(dp.convertedRoot, dp.useZmap, wanted, idx, c);
  }

  // ---------------------------------------------------------------------
  // Rerunning the converter.

  /** The last character of a joined path is the last character of its name. */
  lemma JoinLast(dir: string, name: string)
    requires |name| > 0
    ensures Join(dir, name)[|Join(dir, name)| - 1] == name[|name| - 1]
  {
  }

  /** A path not ending in `z` is no output of any case: every output ends in `.nii.gz`. */
  lemma NotAnOutput(root: string, useZmap: bool, ids: seq<string>, idx: CaseIndex, p: string)
    requires forall x :: x in ids ==> x in idx
    requires |p| > 0 && p[|p| - 1] != 'z'
    ensures forall k :: 0 <= k < |Jobs(root, useZmap, ids, idx)| ==> Jobs(root, useZmap, ids, idx)[k].dst != p
  {
    forall k | 0 <= k < |Jobs(root, useZmap, ids, idx)| ensures Jobs(root, useZmap, ids, idx)[k].dst != p {
      JobsOutputs(root, useZmap, ids, idx, k);
      var c :| c in ids && Jobs(root, useZmap, ids, idx)[k].dst in {AdcOut(root, c), LabelOut(root, c), ZOut(root, c)};
      JoinLast(root, c + AdcSuffix);
      JoinLast(root, c + LabelSuffix);
      JoinLast(root, c + ZSuffix);
    }
  }

  /** Indexing a split folder looks only at the listings and at which of four folders exist. */
  lemma IndexUnchanged(fs: FileSystem, fs': FileSystem, dir: string)
    requires fs'.listings == fs.listings
    requires dir in fs'.paths <==> dir in fs.paths
    requires Join(dir, AdcFolder) in fs'.paths <==> Join(dir, AdcFolder) in fs.paths
    requires Join(dir, ZFolder) in fs'.paths <==> Join(dir, ZFolder) in fs.paths
    requires Join(dir, LabelFolder) in fs'.paths <==> Join(dir, LabelFolder) in fs.paths
    ensures IndexIfPresent(fs', dir) == IndexIfPresent(fs, dir)
  {
  }

  /**
   * A completed conversion leaves a split folder's index as it was: no
   * output is a split folder or one of its modality folders.
   */
  lemma RunKeepsIndex(fs: FileSystem, jobs: seq<Job>, dir: string, root: string, useZmap: bool, ids: seq<string>, idx: CaseIndex)
    requires forall x :: x in ids ==> x in idx
    requires jobs == Jobs(root, useZmap, ids, idx) && RunJobs(fs, jobs).failure.None?
    requires |dir| > 0 && dir[|dir| - 1] != 'z'
    ensures IndexIfPresent(RunJobs(fs, jobs).fs, dir) == IndexIfPresent(fs, dir)
  {
    RunJobsCompleted(fs, jobs);
    var out := RunJobs(fs, jobs).fs;
    JoinLast(dir, AdcFolder);
    JoinLast(dir, ZFolder);
    JoinLast(dir, LabelFolder);
    NotAnOutput(root, useZmap, ids, idx, dir);
    NotAnOutput(root, useZmap, ids, idx, Join(dir, AdcFolder));
    NotAnOutput(root, useZmap, ids, idx, Join(dir, ZFolder));
    NotAnOutput(root, useZmap, ids, idx, Join(dir, LabelFolder));
    IndexUnchanged(fs, out, dir);
  }

  /**
   * Rerunning the converter on what a completed run left behind succeeds
   * and writes nothing: every output already exists and is skipped.
   */
  lemma ConvertMainRerun(dp: DatasetPaths, fs: FileSystem)
    requires ConvertMain(dp, fs).failure.None?
    ensures var out := ConvertMain(dp, fs).fs;
      ConvertMain(dp, out) == Run(out, None)
  {
    ConvertMainStages(dp, fs);
    var fs1 := MakeDir(fs, dp.convertedRoot);
    var ids := LoadManifest(fs1, dp.manifestsPath).value;
    var wanted := SortUnique(ids);
    var dirs := FindRawSplitDirs(dp.rawRoot);
    var idx := Merge(IndexIfPresent(fs1, dirs.train).value, IndexIfPresent(fs1, dirs.val).value);
    UnindexedEmpty(wanted, idx);
    var js := Jobs(dp.convertedRoot, dp.useZmap, wanted, idx);
    assert ConvertMain(dp, fs) == RunJobs(fs1, js);
    RunJobsCompleted(fs1, js);
    var out := RunJobs(fs1, js).fs;
    assert MakeDir(out, dp.convertedRoot) == out;
    assert LoadManifest(out, dp.manifestsPath) == LoadManifest(fs1, dp.manifestsPath);
    assert dirs.train[|dirs.train| - 1] == 'n' && dirs.val[|dirs.val| - 1] == 'l';
    RunKeepsIndex(fs1, js, dirs.train, dp.convertedRoot, dp.useZmap, wanted, idx);
    RunKeepsIndex(fs1, js, dirs.val, dp.convertedRoot, dp.useZmap, wanted, idx);
    ConvertMainStages(dp, out);
    RunJobsAllPresent(out, js);
  }
}
