/**
 * Assembly of the nnU-Net raw dataset from the converted volumes.
 *
 * The dataset directory `Dataset<id:03d>_<name>` gets `imagesTr`,
 * `labelsTr` and an empty `imagesTs`. For each manifest case, in manifest
 * order, the converted ADC and label must exist; the ADC is copied as
 * channel 0000, the Z-map (when enabled, and then required) as channel
 * 0001, and the label into `labelsTr`. The first missing file stops the
 * stage, leaving the copies already made. Only a complete pass writes the
 * `dataset.json` descriptor.
 */
module NnUNet {
  import opened Wrappers
  import opened Strings
  import opened Fs
  import opened Splits
  import opened Paths
  import opened Convert

  const DefaultDatasetId: int := 1
  const DefaultDatasetName: string := "BONBID"

  const ImagesTr: string := "imagesTr"
  const LabelsTr: string := "labelsTr"
  const ImagesTs: string := "imagesTs"
  const DescriptorName: string := "dataset.json"
  const FileEnding: string := ".nii.gz"

  /** The `dataset.json` content. */
  datatype Descriptor = Descriptor(
    channelNames: map<string, string>,
    labels: map<string, int>,
    numTraining: nat,
    fileEnding: string)

  /** What the assembler does to the filesystem, in order. */
  datatype Action =
    | MakeDirAt(path: string)
    | CopyTo(src: string, dst: string)
    | WriteDescriptor(path: string, descriptor: Descriptor)

  /** The actions done so far, the filesystem they produced, and the error that stopped them. */
  datatype Assembly = Assembly(actions: seq<Action>, fs: FileSystem, failure: Option<Error>)

  /**
   * The dataset directory name: `Dataset`, the id zero-padded to three
   * digits (longer ids are written out in full), an underscore, the name.
   */
  function DatasetDirName(id: int, name: string): (r: string)
    ensures |r| >= 11 + |name|
    ensures StartsWith(r, "Dataset") && EndsWith(r, "_" + name)
    ensures id >= 0 ==> var digits := r[7..|r| - |name| - 1]; AllDigits(digits) && Strings.Value(digits) == id && |digits| >= 3
    ensures id >= 0 ==> var digits := r[7..|r| - |name| - 1];
      && |digits| == (if |Decimal(id)| >= 3 then |Decimal(id)| else 3)
      && (|digits| > 3 ==> digits[0] != '0')
    ensures id < 0 ==> var field := r[7..|r| - |name| - 1];
      field[0] == '-' && AllDigits(field[1..]) && Strings.Value(field[1..]) == -id
  {
    var f := Format03(id);
    ThreeParts("Dataset", f, "_" + name);
    "Dataset" + f + ("_" + name)
  }

  /** Cutting `a + b + c` back into its three parts. */
  lemma ThreeParts(a: string, b: string, c: string)
    ensures var s := a + b + c;
      s[..|a|] == a && s[|a|..|s| - |c|] == b && s[|s| - |c|..] == c
  {
  }

  function ImageTarget(dsDir: string, cid: string, channel: string): string
  {
    Join(Join(dsDir, ImagesTr), cid + "_" + channel + FileEnding)
  }

  function LabelTarget(dsDir: string, cid: string): string
  {
    Join(Join(dsDir, LabelsTr), cid + FileEnding)
  }

  /** The descriptor of a dataset of `count` training cases. */
  function MakeDescriptor(useZmap: bool, count: nat): (d: Descriptor)
    ensures "0" in d.channelNames && d.channelNames["0"] == "ADC"
    ensures ("1" in d.channelNames <==> useZmap) && (useZmap ==> d.channelNames["1"] == "Z_ADC")
    ensures d.channelNames.Keys <= {"0", "1"}
    ensures d.labels == map["background" := 0, "lesion" := 1]
    ensures d.numTraining == count && d.fileEnding == FileEnding
  {
    var channels := map["0" := "ADC"];
    Descriptor(if useZmap then channels["1" := "Z_ADC"] else channels,
               map["background" := 0, "lesion" := 1], count, FileEnding)
  }

  function Apply(fs: FileSystem, a: Action): FileSystem
  {
    match a
    case MakeDirAt(p) => MakeDir(fs, p)
    case CopyTo(src, dst) => CopyFile(fs, src, dst)
    case WriteDescriptor(p, _) => fs.(paths := fs.paths + {p})
  }

  function Do(st: Assembly, a: Action): Assembly
  {
    Assembly(st.actions + [a], Apply(st.fs, a), st.failure)
  }

  function Fail(st: Assembly, e: Error): Assembly
  {
    st.(failure := Some(e))
  }

  /** One manifest case: check, copy the ADC, check and copy the Z-map, copy the label. */
  function AddCase(st: Assembly, dp: DatasetPaths, dsDir: string, cid: string): Assembly
  {
    var adc := AdcOut(dp.convertedRoot, cid);
    var lbl := LabelOut(dp.convertedRoot, cid);
    if adc !in st.fs.paths then Fail(st, MissingConverted(adc))
    else if lbl !in st.fs.paths then Fail(st, MissingConverted(lbl))
    else
      var s1 := Do(st, CopyTo(adc, ImageTarget(dsDir, cid, "0000")));
      var z := ZOut(dp.convertedRoot, cid);
      if dp.useZmap && z !in s1.fs.paths then Fail(s1, MissingConverted(z))
      else
        var s2 := if dp.useZmap then Do(s1, CopyTo(z, ImageTarget(dsDir, cid, "0001"))) else s1;
        Do(s2, CopyTo(lbl, LabelTarget(dsDir, cid)))
  }

  /** The cases in order; after a failure nothing more is done. */
  function AddCases(st: Assembly, dp: DatasetPaths, dsDir: string, ids: seq<string>): Assembly
    decreases |ids|
  {
    if st.failure.Some? || |ids| == 0 then st
    else AddCases(AddCase(st, dp, dsDir, ids[0]), dp, dsDir, ids[1..])
  }

  /** The assembler's `main` for a loaded configuration and its two arguments. */
  function Assemble(dp: DatasetPaths, fs: FileSystem, datasetId: int, datasetName: string): Assembly
  {
    match LoadManifest(fs, dp.manifestsPath)
    case Err(e) => Assembly([], fs, Some(e))
    case Ok(ids) =>
      var dsDir := Join(dp.nnunetRawRoot, DatasetDirName(datasetId, datasetName));
      var st0 := Do(Do(Do(Assembly([], fs, None), MakeDirAt(Join(dsDir, ImagesTr))),
                       MakeDirAt(Join(dsDir, LabelsTr))), MakeDirAt(Join(dsDir, ImagesTs)));
      var st := AddCases(st0, dp, dsDir, ids);
      if st.failure.Some? then st
      else Do(st, WriteDescriptor(Join(dsDir, DescriptorName), MakeDescriptor(dp.useZmap, |ids|)))
  }

  // ---------------------------------------------------------------------
  // Where the assembler writes.

  /** `p` lies strictly inside `dir`. */
  predicate Under(p: string, dir: string)
  {
    StartsWith(p, dir + "/")
  }

  lemma JoinUnder(dir: string, name: string)
    ensures Under(Join(dir, name), dir)
  {
    assert Join(dir, name)[..|dir| + 1] == dir + "/";
  }

  lemma UnderTransitive(p: string, a: string, b: string)
    requires Under(p, Join(a, b))
    ensures Under(p, a)
  {
    JoinUnder(a, b);
    assert p[..|a| + 1] == Join(a, b)[..|a| + 1];
  }

  /** Nothing under `imagesTr` or `labelsTr` is under `imagesTs`. */
  lemma TrainingIsNotTest(p: string, dsDir: string)
    requires Under(p, Join(dsDir, ImagesTr)) || Under(p, Join(dsDir, LabelsTr))
    ensures !Under(p, Join(dsDir, ImagesTs))
  {
    var k := |dsDir| + 8;
    assert Join(dsDir, ImagesTs)[k] == 's';
    if Under(p, Join(dsDir, ImagesTr)) {
      assert p[k] == Join(dsDir, ImagesTr)[k] == 'r';
    } else {
      assert p[k] == Join(dsDir, LabelsTr)[k] == 'r';
    }
  }

  /** Every copy of the assembler lands in `imagesTr` or `labelsTr`. */
  predicate CopiesIntoTraining(actions: seq<Action>, dsDir: string)
  {
    forall k :: 0 <= k < |actions| && actions[k].CopyTo? ==>
      Under(actions[k].dst, Join(dsDir, ImagesTr)) || Under(actions[k].dst, Join(dsDir, LabelsTr))
  }

  /** The filesystems agree outside `dsDir`. */
  ghost predicate SameOutside(fs: FileSystem, fs': FileSystem, dsDir: string)
  {
    && (forall p :: !Under(p, dsDir) ==> (p in fs'.paths <==> p in fs.paths))
    && (forall p :: !Under(p, dsDir) ==> (p in fs'.images <==> p in fs.images))
    && (forall p :: !Under(p, dsDir) && p in fs.images ==> fs'.images[p] == fs.images[p])
  }

  /** The invariant of a pass over the cases started from `fs`. */
  ghost predicate Inv(st: Assembly, fs: FileSystem, dsDir: string)
  {
    CopiesIntoTraining(st.actions, dsDir) && SameOutside(fs, st.fs, dsDir)
  }

  lemma DoCopyKeepsInv(st: Assembly, fs: FileSystem, dsDir: string, src: string, dst: string, sub: string)
    requires Inv(st, fs, dsDir) && sub in {ImagesTr, LabelsTr} && Under(dst, Join(dsDir, sub))
    ensures Inv(Do(st, CopyTo(src, dst)), fs, dsDir)
  {
    UnderTransitive(dst, dsDir, sub);
    var r := Do(st, CopyTo(src, dst));
    forall k | 0 <= k < |r.actions| && r.actions[k].CopyTo?
      ensures Under(r.actions[k].dst, Join(dsDir, ImagesTr)) || Under(r.actions[k].dst, Join(dsDir, LabelsTr))
    {
      if k < |st.actions| {
        assert r.actions[k] == st.actions[k];
      }
    }
  }

  lemma AddCaseKeepsInv(st: Assembly, fs: FileSystem, dp: DatasetPaths, dsDir: string, cid: string)
    requires st.failure.None? && Inv(st, fs, dsDir)
    ensures Inv(AddCase(st, dp, dsDir, cid), fs, dsDir)
  {
    var adc := AdcOut(dp.convertedRoot, cid);
    var lbl := LabelOut(dp.convertedRoot, cid);
    var z := ZOut(dp.convertedRoot, cid);
    if adc in st.fs.paths && lbl in st.fs.paths {
      var t0 := ImageTarget(dsDir, cid, "0000");
      JoinUnder(Join(dsDir, ImagesTr), cid + "_0000" + FileEnding);
      DoCopyKeepsInv(st, fs, dsDir, adc, t0, ImagesTr);
      var s1 := Do(st, CopyTo(adc, t0));
      if !(dp.useZmap && z !in s1.fs.paths) {
        var s2 := s1;
        if dp.useZmap {
          JoinUnder(Join(dsDir, ImagesTr), cid + "_0001" + FileEnding);
          DoCopyKeepsInv(s1, fs, dsDir, z, ImageTarget(dsDir, cid, "0001"), ImagesTr);
          s2 := Do(s1, CopyTo(z, ImageTarget(dsDir, cid, "0001")));
        }
        JoinUnder(Join(dsDir, LabelsTr), cid + FileEnding);
        DoCopyKeepsInv(s2, fs, dsDir, lbl, LabelTarget(dsDir, cid), LabelsTr);
      }
    }
  }

  lemma {:induction false} AddCasesKeepsInv(st: Assembly, fs: FileSystem, dp: DatasetPaths, dsDir: string, ids: seq<string>)
    requires Inv(st, fs, dsDir)
    ensures Inv(AddCases(st, dp, dsDir, ids), fs, dsDir)
    decreases |ids|
  {
    if st.failure.None? && |ids| > 0 {
      AddCaseKeepsInv(st, fs, dp, dsDir, ids[0]);
      AddCasesKeepsInv(AddCase(st, dp, dsDir, ids[0]), fs, dp, dsDir, ids[1..]);
    }
  }

  // ---------------------------------------------------------------------
  // Completeness.

  /** Case `cid` lacks a converted file the assembler requires. */
  predicate Missing(fs: FileSystem, dp: DatasetPaths, cid: string)
  {
    || AdcOut(dp.convertedRoot, cid) !in fs.paths
    || LabelOut(dp.convertedRoot, cid) !in fs.paths
    || (dp.useZmap && ZOut(dp.convertedRoot, cid) !in fs.paths)
  }

  /** The file the assembler reports for an incomplete case: ADC first, then label, then Z-map. */
  function FirstMissing(fs: FileSystem, dp: DatasetPaths, cid: string): string
  {
    if AdcOut(dp.convertedRoot, cid) !in fs.paths then AdcOut(dp.convertedRoot, cid)
    else if LabelOut(dp.convertedRoot, cid) !in fs.paths then LabelOut(dp.convertedRoot, cid)
    else ZOut(dp.convertedRoot, cid)
  }

  /** `ids[k]` is the first incomplete case. */
  predicate FirstIncomplete(fs: FileSystem, dp: DatasetPaths, ids: seq<string>, k: int)
  {
    0 <= k < |ids| && Missing(fs, dp, ids[k]) && forall j :: 0 <= j < k ==> !Missing(fs, dp, ids[j])
  }

  /** None of the converted files of `ids` lies inside the dataset directory. */
  predicate Apart(dp: DatasetPaths, dsDir: string, ids: seq<string>)
  {
    forall k :: 0 <= k < |ids| ==>
      && !Under(AdcOut(dp.convertedRoot, ids[k]), dsDir)
      && !Under(LabelOut(dp.convertedRoot, ids[k]), dsDir)
      && !Under(ZOut(dp.convertedRoot, ids[k]), dsDir)
  }

  /** The copies of a complete case, in order: the ADC, the Z-map (when enabled), the label. */
  function CaseCopies(dp: DatasetPaths, dsDir: string, cid: string): seq<Action>
  {
    [CopyTo(AdcOut(dp.convertedRoot, cid), ImageTarget(dsDir, cid, "0000"))]
    + (if dp.useZmap then [CopyTo(ZOut(dp.convertedRoot, cid), ImageTarget(dsDir, cid, "0001"))] else [])
    + [CopyTo(LabelOut(dp.convertedRoot, cid), LabelTarget(dsDir, cid))]
  }

  /** The copies of complete cases, case after case. */
  function Copies(dp: DatasetPaths, dsDir: string, ids: seq<string>): seq<Action>
  {
    if |ids| == 0 then [] else CaseCopies(dp, dsDir, ids[0]) + Copies(dp, dsDir, ids[1..])
  }

  /**
   * The copies an incomplete case leaves behind: none when its ADC or label
   * is missing, since both are checked before any copy; its ADC copy when
   * only the Z-map is missing.
   */
  function PartialCopies(fs: FileSystem, dp: DatasetPaths, dsDir: string, cid: string): seq<Action>
  {
    if AdcOut(dp.convertedRoot, cid) in fs.paths && LabelOut(dp.convertedRoot, cid) in fs.paths
    then [CopyTo(AdcOut(dp.convertedRoot, cid), ImageTarget(dsDir, cid, "0000"))]
    else []
  }

  /** One case fails exactly when it is incomplete, naming its first missing file; otherwise its copies are made. */
  lemma AddCaseOutcome(st: Assembly, fs: FileSystem, dp: DatasetPaths, dsDir: string, cid: string)
    requires st.failure.None? && Inv(st, fs, dsDir)
    requires !Under(AdcOut(dp.convertedRoot, cid), dsDir) && !Under(LabelOut(dp.convertedRoot, cid), dsDir)
    requires !Under(ZOut(dp.convertedRoot, cid), dsDir)
    ensures var r := AddCase(st, dp, dsDir, cid);
      && (r.failure.Some? <==> Missing(fs, dp, cid))
      && (r.failure.Some? ==> r.failure == Some(MissingConverted(FirstMissing(fs, dp, cid))))
      && (r.failure.None? ==>
            && CopyTo(AdcOut(dp.convertedRoot, cid), ImageTarget(dsDir, cid, "0000")) in r.actions
            && CopyTo(LabelOut(dp.convertedRoot, cid), LabelTarget(dsDir, cid)) in r.actions
            && (dp.useZmap ==> CopyTo(ZOut(dp.convertedRoot, cid), ImageTarget(dsDir, cid, "0001")) in r.actions))
      && st.actions <= r.actions
      && (AdcOut(dp.convertedRoot, cid) !in fs.paths || LabelOut(dp.convertedRoot, cid) !in fs.paths ==>
            r.actions == st.actions && r.fs == st.fs)
      && (r.failure.None? ==> r.actions == st.actions + CaseCopies(dp, dsDir, cid))
      && (r.failure.Some? ==> r.actions == st.actions + PartialCopies(fs, dp, dsDir, cid))
  {
    var adc := AdcOut(dp.convertedRoot, cid);
    if adc in st.fs.paths && LabelOut(dp.convertedRoot, cid) in st.fs.paths {
      JoinUnder(Join(dsDir, ImagesTr), cid + "_0000" + FileEnding);
      DoCopyKeepsInv(st, fs, dsDir, adc, ImageTarget(dsDir, cid, "0000"), ImagesTr);
    }
  }

  /** Whether one case fails, what it reports, and which copies a complete case makes. */
  lemma AddCaseVerdict(st: Assembly, fs: FileSystem, dp: DatasetPaths, dsDir: string, cid: string)
    requires st.failure.None? && Inv(st, fs, dsDir)
    requires !Under(AdcOut(dp.convertedRoot, cid), dsDir) && !Under(LabelOut(dp.convertedRoot, cid), dsDir)
    requires !Under(ZOut(dp.convertedRoot, cid), dsDir)
    ensures var r := AddCase(st, dp, dsDir, cid);
      && (r.failure.Some? <==> Missing(fs, dp, cid))
      && (r.failure.Some? ==> r.failure == Some(MissingConverted(FirstMissing(fs, dp, cid))))
      && (r.failure.None? ==>
            && CopyTo(AdcOut(dp.convertedRoot, cid), ImageTarget(dsDir, cid, "0000")) in r.actions
            && CopyTo(LabelOut(dp.convertedRoot, cid), LabelTarget(dsDir, cid)) in r.actions
            && (dp.useZmap ==> CopyTo(ZOut(dp.convertedRoot, cid), ImageTarget(dsDir, cid, "0001")) in r.actions))
      && st.actions <= r.actions
  {
    var adc := AdcOut(dp.convertedRoot, cid);
    if adc in st.fs.paths && LabelOut(dp.convertedRoot, cid) in st.fs.paths {
      JoinUnder(Join(dsDir, ImagesTr), cid + "_0000" + FileEnding);
      DoCopyKeepsInv(st, fs, dsDir, adc, ImageTarget(dsDir, cid, "0000"), ImagesTr);
    }
  }

  /**
   * A pass over the cases fails exactly when some case is incomplete, and
   * then names the first missing file of the first incomplete case. The
   * actions are the copies of every case before it, in order, followed by
   * what the failing case copied before its check failed; a pass without
   * failure made the copies of every case.
   */
  lemma AddCasesOutcome(st: Assembly, fs: FileSystem, dp: DatasetPaths, dsDir: string, ids: seq<string>)
    requires st.failure.None? && Inv(st, fs, dsDir) && Apart(dp, dsDir, ids)
    ensures var r := AddCases(st, dp, dsDir, ids);
      && (r.failure.Some? <==> exists k :: 0 <= k < |ids| && Missing(fs, dp, ids[k]))
      && (r.failure.Some? ==>
            exists k :: FirstIncomplete(fs, dp, ids, k) && r.failure == Some(MissingConverted(FirstMissing(fs, dp, ids[k]))))
      && (r.failure.Some? ==>
            exists k :: (FirstIncomplete(fs, dp, ids, k) &&
              r.actions == st.actions + Copies(dp, dsDir, ids[..k]) + PartialCopies(fs, dp, dsDir, ids[k])))
      && (r.failure.None? ==> r.actions == st.actions + Copies(dp, dsDir, ids))
      && (forall k :: 0 <= k < |ids| && (forall j :: 0 <= j <= k ==> !Missing(fs, dp, ids[j])) ==>
            && CopyTo(AdcOut(dp.convertedRoot, ids[k]), ImageTarget(dsDir, ids[k], "0000")) in r.actions
            && CopyTo(LabelOut(dp.convertedRoot, ids[k]), LabelTarget(dsDir, ids[k])) in r.actions
            && (dp.useZmap ==> CopyTo(ZOut(dp.convertedRoot, ids[k]), ImageTarget(dsDir, ids[k], "0001")) in r.actions))
      && st.actions <= r.actions
  {
    AddCasesVerdict(st, fs, dp, dsDir, ids);
    AddCasesActions(st, fs, dp, dsDir, ids);
  }

  /**
   * Which case a pass over the cases fails on and what it reports, and
   * which cases it copied.
   */
  lemma {:induction false} AddCasesVerdict(st: Assembly, fs: FileSystem, dp: DatasetPaths, dsDir: string, ids: seq<string>)
    requires st.failure.None? && Inv(st, fs, dsDir) && Apart(dp, dsDir, ids)
    ensures var r := AddCases(st, dp, dsDir, ids);
      && (r.failure.Some? <==> exists k :: 0 <= k < |ids| && Missing(fs, dp, ids[k]))
      && (r.failure.Some? ==>
            exists k :: FirstIncomplete(fs, dp, ids, k) && r.failure == Some(MissingConverted(FirstMissing(fs, dp, ids[k]))))
      && (forall k :: 0 <= k < |ids| && (forall j :: 0 <= j <= k ==> !Missing(fs, dp, ids[j])) ==>
            && CopyTo(AdcOut(dp.convertedRoot, ids[k]), ImageTarget(dsDir, ids[k], "0000")) in r.actions
            && CopyTo(LabelOut(dp.convertedRoot, ids[k]), LabelTarget(dsDir, ids[k])) in r.actions
            && (dp.useZmap ==> CopyTo(ZOut(dp.convertedRoot, ids[k]), ImageTarget(dsDir, ids[k], "0001")) in r.actions))
      && st.actions <= r.actions
    decreases |ids|
  {
    if |ids| > 0 {
      var c := ids[0];
      AddCaseVerdict(st, fs, dp, dsDir, c);
      AddCaseKeepsInv(st, fs, dp, dsDir, c);
      var s1 := AddCase(st, dp, dsDir, c);
      var r := AddCases(st, dp, dsDir, ids);
      if s1.failure.None? {
        var rest := ids[1..];
        ApartTail(dp, dsDir, ids);
        AddCasesVerdict(s1, fs, dp, dsDir, rest);
        assert r == AddCases(s1, dp, dsDir, rest);
        if r.failure.Some? {
          var k :| FirstIncomplete(fs, dp, rest, k) && r.failure == Some(MissingConverted(FirstMissing(fs, dp, rest[k])));
          FirstIncompleteShift(fs, dp, ids, k);
        } else {
          forall k | 0 <= k < |ids| ensures !Missing(fs, dp, ids[k]) {
            if k > 0 {
              assert ids[k] == rest[k - 1];
            }
          }
        }
        forall k | 0 <= k < |ids| && (forall j :: 0 <= j <= k ==> !Missing(fs, dp, ids[j]))
          ensures CopyTo(AdcOut(dp.convertedRoot, ids[k]), ImageTarget(dsDir, ids[k], "0000")) in r.actions
          ensures CopyTo(LabelOut(dp.convertedRoot, ids[k]), LabelTarget(dsDir, ids[k])) in r.actions
          ensures dp.useZmap ==> CopyTo(ZOut(dp.convertedRoot, ids[k]), ImageTarget(dsDir, ids[k], "0001")) in r.actions
        {
          if k > 0 {
            assert ids[k] == rest[k - 1];
            forall j | 0 <= j <= k - 1 ensures !Missing(fs, dp, rest[j]) {
              assert rest[j] == ids[j + 1];
            }
          }
        }
      } else {
        assert r == AddCases(s1, dp, dsDir, ids[1..]);
        assert r == s1;
        assert FirstIncomplete(fs, dp, ids, 0);
      }
    }
  }

  /**
   * The actions of a pass over the cases: the copies of every complete
   * case in order, and, when a case is incomplete, the copies of the cases
   * before the first incomplete one followed by what that one copied
   * before its check failed.
   */
  lemma AddCasesActions(st: Assembly, fs: FileSystem, dp: DatasetPaths, dsDir: string, ids: seq<string>)
    requires st.failure.None? && Inv(st, fs, dsDir) && Apart(dp, dsDir, ids)
    ensures var r := AddCases(st, dp, dsDir, ids);
      && (r.failure.Some? ==>
            exists k :: (FirstIncomplete(fs, dp, ids, k) &&
              r.actions == st.actions + Copies(dp, dsDir, ids[..k]) + PartialCopies(fs, dp, dsDir, ids[k])))
      && (r.failure.None? ==> r.actions == st.actions + Copies(dp, dsDir, ids))
  {
    if AddCases(st, dp, dsDir, ids).failure.Some? {
      AddCasesActionsFailed(st, fs, dp, dsDir, ids);
    } else {
      AddCasesActionsPassed(st, fs, dp, dsDir, ids);
    }
  }

  /** A pass without failure made exactly the copies of every case, in order. */
  lemma {:induction false} AddCasesActionsPassed(st: Assembly, fs: FileSystem, dp: DatasetPaths, dsDir: string, ids: seq<string>)
    requires st.failure.None? && Inv(st, fs, dsDir) && Apart(dp, dsDir, ids)
    requires AddCases(st, dp, dsDir, ids).failure.None?
    ensures AddCases(st, dp, dsDir, ids).actions == st.actions + Copies(dp, dsDir, ids)
    decreases |ids|
  {
    if |ids| > 0 {
      var c := ids[0];
      var rest := ids[1..];
      AddCaseStep(st, fs, dp, dsDir, c);
      var s1 := AddCase(st, dp, dsDir, c);
      assert AddCases(st, dp, dsDir, ids) == AddCases(s1, dp, dsDir, rest);
      if s1.failure.None? {
        ApartTail(dp, dsDir, ids);
        AddCasesActionsPassed(s1, fs, dp, dsDir, rest);
        assert Copies(dp, dsDir, ids) == CaseCopies(dp, dsDir, c) + Copies(dp, dsDir, rest);
      }
    }
  }

  /**
   * A failed pass made the copies of the cases before the first incomplete
   * one, then what that case copied before its check failed.
   */
  lemma {:induction false} AddCasesActionsFailed(st: Assembly, fs: FileSystem, dp: DatasetPaths, dsDir: string, ids: seq<string>)
    requires st.failure.None? && Inv(st, fs, dsDir) && Apart(dp, dsDir, ids)
    requires AddCases(st, dp, dsDir, ids).failure.Some?
    ensures exists k :: (FirstIncomplete(fs, dp, ids, k) &&
      AddCases(st, dp, dsDir, ids).actions == st.actions + Copies(dp, dsDir, ids[..k]) + PartialCopies(fs, dp, dsDir, ids[k]))
    decreases |ids|
  {
    var c := ids[0];
    var rest := ids[1..];
    AddCaseStep(st, fs, dp, dsDir, c);
    var s1 := AddCase(st, dp, dsDir, c);
    var r := AddCases(st, dp, dsDir, ids);
    assert r == AddCases(s1, dp, dsDir, rest);
    if s1.failure.None? {
      ApartTail(dp, dsDir, ids);
      AddCasesActionsFailed(s1, fs, dp, dsDir, rest);
      var k :| FirstIncomplete(fs, dp, rest, k) &&
        AddCases(s1, dp, dsDir, rest).actions == s1.actions + Copies(dp, dsDir, rest[..k]) + PartialCopies(fs, dp, dsDir, rest[k]);
      FailedLater(st, fs, dp, dsDir, ids, k);
    } else {
      FailedAtFirst(st, fs, dp, dsDir, ids);
    }
  }

  /** When a later case is the first incomplete one, the first case's copies come before the rest. */
  lemma FailedLater(st: Assembly, fs: FileSystem, dp: DatasetPaths, dsDir: string, ids: seq<string>, k: int)
    requires |ids| > 0 && st.failure.None? && !Missing(fs, dp, ids[0])
    requires AddCase(st, dp, dsDir, ids[0]).failure.None?
    requires AddCase(st, dp, dsDir, ids[0]).actions == st.actions + CaseCopies(dp, dsDir, ids[0])
    requires FirstIncomplete(fs, dp, ids[1..], k)
    requires var s1 := AddCase(st, dp, dsDir, ids[0]);
      AddCases(s1, dp, dsDir, ids[1..]).actions == s1.actions + Copies(dp, dsDir, ids[1..][..k]) + PartialCopies(fs, dp, dsDir, ids[1..][k])
    ensures FirstIncomplete(fs, dp, ids, k + 1)
    ensures AddCases(st, dp, dsDir, ids).actions == st.actions + Copies(dp, dsDir, ids[..k + 1]) + PartialCopies(fs, dp, dsDir, ids[k + 1])
  {
    FirstIncompleteShift(fs, dp, ids, k);
    CopiesCons(dp, dsDir, ids, k + 1);
    assert AddCases(st, dp, dsDir, ids) == AddCases(AddCase(st, dp, dsDir, ids[0]), dp, dsDir, ids[1..]);
  }

  /** When the first case is incomplete, the pass stops there with that case's partial copies. */
  lemma FailedAtFirst(st: Assembly, fs: FileSystem, dp: DatasetPaths, dsDir: string, ids: seq<string>)
    requires |ids| > 0 && st.failure.None?
    requires AddCase(st, dp, dsDir, ids[0]).failure.Some? && Missing(fs, dp, ids[0])
    requires AddCase(st, dp, dsDir, ids[0]).actions == st.actions + PartialCopies(fs, dp, dsDir, ids[0])
    ensures FirstIncomplete(fs, dp, ids, 0)
    ensures AddCases(st, dp, dsDir, ids).actions == st.actions + Copies(dp, dsDir, ids[..0]) + PartialCopies(fs, dp, dsDir, ids[0])
  {
    var s1 := AddCase(st, dp, dsDir, ids[0]);
    assert AddCases(st, dp, dsDir, ids) == AddCases(s1, dp, dsDir, ids[1..]) == s1;
    assert ids[..0] == [];
  }

  /** The facts about one case that a pass over the cases builds on. */
  lemma AddCaseStep(st: Assembly, fs: FileSystem, dp: DatasetPaths, dsDir: string, cid: string)
    requires st.failure.None? && Inv(st, fs, dsDir)
    requires !Under(AdcOut(dp.convertedRoot, cid), dsDir) && !Under(LabelOut(dp.convertedRoot, cid), dsDir)
    requires !Under(ZOut(dp.convertedRoot, cid), dsDir)
    ensures var r := AddCase(st, dp, dsDir, cid);
      && (r.failure.Some? <==> Missing(fs, dp, cid))
      && (r.failure.None? ==> Inv(r, fs, dsDir) && r.actions == st.actions + CaseCopies(dp, dsDir, cid))
      && (r.failure.Some? ==> r.actions == st.actions + PartialCopies(fs, dp, dsDir, cid))
  {
    AddCaseOutcome(st, fs, dp, dsDir, cid);
    AddCaseKeepsInv(st, fs, dp, dsDir, cid);
  }

  /** The converted files of the later cases are apart from the dataset directory too. */
  lemma ApartTail(dp: DatasetPaths, dsDir: string, ids: seq<string>)
    requires |ids| > 0 && Apart(dp, dsDir, ids)
    ensures Apart(dp, dsDir, ids[1..])
  {
    var rest := ids[1..];
    forall k | 0 <= k < |rest|
      ensures !Under(AdcOut(dp.convertedRoot, rest[k]), dsDir)
      ensures !Under(LabelOut(dp.convertedRoot, rest[k]), dsDir)
      ensures !Under(ZOut(dp.convertedRoot, rest[k]), dsDir)
    {
      assert rest[k] == ids[k + 1];
    }
  }

  /** Behind a complete first case, the first incomplete case moves one place on. */
  lemma FirstIncompleteShift(fs: FileSystem, dp: DatasetPaths, ids: seq<string>, k: int)
    requires |ids| > 0 && !Missing(fs, dp, ids[0]) && FirstIncomplete(fs, dp, ids[1..], k)
    ensures FirstIncomplete(fs, dp, ids, k + 1)
  {
    var rest := ids[1..];
    assert ids[k + 1] == rest[k];
    forall j | 0 <= j < k + 1 ensures !Missing(fs, dp, ids[j]) {
      if j > 0 {
        assert ids[j] == rest[j - 1];
      }
    }
  }

  /** At most one position is the first incomplete case. */
  lemma FirstIncompleteUnique(fs: FileSystem, dp: DatasetPaths, ids: seq<string>, k: int, k': int)
    requires FirstIncomplete(fs, dp, ids, k) && FirstIncomplete(fs, dp, ids, k')
    ensures k == k'
  {
  }

  /** The copies of a non-empty prefix begin with those of its first case. */
  lemma CopiesCons(dp: DatasetPaths, dsDir: string, ids: seq<string>, n: nat)
    requires 0 < n <= |ids|
    ensures Copies(dp, dsDir, ids[..n]) == CaseCopies(dp, dsDir, ids[0]) + Copies(dp, dsDir, ids[1..][..n - 1])
  {
    assert ids[..n][0] == ids[0];
    assert ids[..n][1..] == ids[1..][..n - 1];
  }

  // ---------------------------------------------------------------------
  // The assembler as a whole.

  /**
   * Completeness law: once the manifest loads, assembly fails with a
   * missing converted file exactly when some manifest case lacks its ADC,
   * its label, or (when enabled) its Z-map; the file named is the first
   * missing one of the first incomplete case. Otherwise the descriptor is
   * written, last, and every case's copies have been made.
   */
  lemma AssembleCompleteness(dp: DatasetPaths, fs: FileSystem, datasetId: int, datasetName: string)
    requires LoadManifest(fs, dp.manifestsPath).Ok?
    requires Apart(dp, Join(dp.nnunetRawRoot, DatasetDirName(datasetId, datasetName)), LoadManifest(fs, dp.manifestsPath).value)
    ensures var ids := LoadManifest(fs, dp.manifestsPath).value;
      var dsDir := Join(dp.nnunetRawRoot, DatasetDirName(datasetId, datasetName));
      var r := Assemble(dp, fs, datasetId, datasetName);
      && (r.failure.Some? <==> exists k :: 0 <= k < |ids| && Missing(fs, dp, ids[k]))
      && (r.failure.Some? ==>
            exists k :: FirstIncomplete(fs, dp, ids, k) && r.failure == Some(MissingConverted(FirstMissing(fs, dp, ids[k]))))
      && (r.failure.None? ==>
            && r.actions[|r.actions| - 1] == WriteDescriptor(Join(dsDir, DescriptorName), MakeDescriptor(dp.useZmap, |ids|))
            && forall c :: c in ids ==>
                 && CopyTo(AdcOut(dp.convertedRoot, c), ImageTarget(dsDir, c, "0000")) in r.actions
                 && CopyTo(LabelOut(dp.convertedRoot, c), LabelTarget(dsDir, c)) in r.actions
                 && (dp.useZmap ==> CopyTo(ZOut(dp.convertedRoot, c), ImageTarget(dsDir, c, "0001")) in r.actions))
  {
    var ids := LoadManifest(fs, dp.manifestsPath).value;
    var dsDir := Join(dp.nnunetRawRoot, DatasetDirName(datasetId, datasetName));
    var st0 := Do(Do(Do(Assembly([], fs, None), MakeDirAt(Join(dsDir, ImagesTr))),
                     MakeDirAt(Join(dsDir, LabelsTr))), MakeDirAt(Join(dsDir, ImagesTs)));
    StartInv(fs, dsDir);
    AddCasesOutcome(st0, fs, dp, dsDir, ids);
    var st := AddCases(st0, dp, dsDir, ids);
    if st.failure.None? {
      forall c | c in ids
        ensures CopyTo(AdcOut(dp.convertedRoot, c), ImageTarget(dsDir, c, "0000")) in st.actions
        ensures CopyTo(LabelOut(dp.convertedRoot, c), LabelTarget(dsDir, c)) in st.actions
        ensures dp.useZmap ==> CopyTo(ZOut(dp.convertedRoot, c), ImageTarget(dsDir, c, "0001")) in st.actions
      {
        var k :| 0 <= k < |ids| && ids[k] == c;
      }
    }
  }

  /** The three directories, made before any case is looked at, keep the invariant. */
  lemma StartInv(fs: FileSystem, dsDir: string)
    ensures var st0 := Do(Do(Do(Assembly([], fs, None), MakeDirAt(Join(dsDir, ImagesTr))),
                             MakeDirAt(Join(dsDir, LabelsTr))), MakeDirAt(Join(dsDir, ImagesTs)));
      Inv(st0, fs, dsDir) && st0.failure.None?
      && st0.actions == [MakeDirAt(Join(dsDir, ImagesTr)), MakeDirAt(Join(dsDir, LabelsTr)), MakeDirAt(Join(dsDir, ImagesTs))]
  {
    JoinUnder(dsDir, ImagesTr);
    JoinUnder(dsDir, LabelsTr);
    JoinUnder(dsDir, ImagesTs);
  }

  /**
   * The three directories come first, in order, and `imagesTs` never
   * receives a copy: every copy lands in `imagesTr` or `labelsTr`.
   */
  lemma AssembleLayout(dp: DatasetPaths, fs: FileSystem, datasetId: int, datasetName: string)
    requires LoadManifest(fs, dp.manifestsPath).Ok?
    ensures var dsDir := Join(dp.nnunetRawRoot, DatasetDirName(datasetId, datasetName));
      var r := Assemble(dp, fs, datasetId, datasetName);
      && [MakeDirAt(Join(dsDir, ImagesTr)), MakeDirAt(Join(dsDir, LabelsTr)), MakeDirAt(Join(dsDir, ImagesTs))] <= r.actions
      && forall a :: a in r.actions && a.CopyTo? ==>
           (Under(a.dst, Join(dsDir, ImagesTr)) || Under(a.dst, Join(dsDir, LabelsTr))) && !Under(a.dst, Join(dsDir, ImagesTs))
  {
    var ids := LoadManifest(fs, dp.manifestsPath).value;
    var dsDir := Join(dp.nnunetRawRoot, DatasetDirName(datasetId, datasetName));
    var st0 := Do(Do(Do(Assembly([], fs, None), MakeDirAt(Join(dsDir, ImagesTr))),
                     MakeDirAt(Join(dsDir, LabelsTr))), MakeDirAt(Join(dsDir, ImagesTs)));
    StartInv(fs, dsDir);
    AddCasesKeepsInv(st0, fs, dp, dsDir, ids);
    AddCasesPrefix(st0, dp, dsDir, ids);
    var st := AddCases(st0, dp, dsDir, ids);
    var r := Assemble(dp, fs, datasetId, datasetName);
    assert st.actions <= r.actions;
    forall a | a in r.actions && a.CopyTo?
      ensures Under(a.dst, Join(dsDir, ImagesTr)) || Under(a.dst, Join(dsDir, LabelsTr))
      ensures !Under(a.dst, Join(dsDir, ImagesTs))
    {
      var k :| 0 <= k < |r.actions| && r.actions[k] == a;
      if k < |st.actions| {
        assert st.actions[k] == a;
      }
      TrainingIsNotTest(a.dst, dsDir);
    }
  }

  /** A pass over the cases only appends actions. */
  lemma {:induction false} AddCasesPrefix(st: Assembly, dp: DatasetPaths, dsDir: string, ids: seq<string>)
    ensures st.actions <= AddCases(st, dp, dsDir, ids).actions
    decreases |ids|
  {
    if st.failure.None? && |ids| > 0 {
      var s1 := AddCase(st, dp, dsDir, ids[0]);
      assert st.actions <= s1.actions;
      AddCasesPrefix(s1, dp, dsDir, ids[1..]);
    }
  }

  /**
   * The descriptor is written exactly when no case failed, and then last;
   * it counts the manifest lines, repeats included.
   */
  lemma DescriptorIffComplete(dp: DatasetPaths, fs: FileSystem, datasetId: int, datasetName: string)
    requires LoadManifest(fs, dp.manifestsPath).Ok?
    ensures var r := Assemble(dp, fs, datasetId, datasetName);
      var ids := LoadManifest(fs, dp.manifestsPath).value;
      && ((exists a :: a in r.actions && a.WriteDescriptor?) <==> r.failure.None?)
      && (r.failure.None? ==>
            && r.actions[|r.actions| - 1].WriteDescriptor?
            && r.actions[|r.actions| - 1].descriptor == MakeDescriptor(dp.useZmap, |ids|))
  {
    var ids := LoadManifest(fs, dp.manifestsPath).value;
    var dsDir := Join(dp.nnunetRawRoot, DatasetDirName(datasetId, datasetName));
    var st0 := Do(Do(Do(Assembly([], fs, None), MakeDirAt(Join(dsDir, ImagesTr))),
                     MakeDirAt(Join(dsDir, LabelsTr))), MakeDirAt(Join(dsDir, ImagesTs)));
    StartInv(fs, dsDir);
    NoDescriptorDuringCases(st0, dp, dsDir, ids);
    var st := AddCases(st0, dp, dsDir, ids);
    var r := Assemble(dp, fs, datasetId, datasetName);
    if st.failure.None? {
      var d := WriteDescriptor(Join(dsDir, DescriptorName), MakeDescriptor(dp.useZmap, |ids|));
      assert r.actions == st.actions + [d];
      assert d in r.actions;
    } else {
      assert r == st;
    }
  }

  /** No descriptor among `actions`. */
  predicate NoDescriptor(actions: seq<Action>)
  {
    forall a :: a in actions ==> !a.WriteDescriptor?
  }

  /** One case only appends copies. */
  lemma AddCaseOnlyCopies(st: Assembly, dp: DatasetPaths, dsDir: string, cid: string)
    ensures var r := AddCase(st, dp, dsDir, cid);
      st.actions <= r.actions && forall a :: a in r.actions ==> a in st.actions || a.CopyTo?
  {
  }

  /** Passing over the cases never writes a descriptor. */
  lemma {:induction false} NoDescriptorDuringCases(st: Assembly, dp: DatasetPaths, dsDir: string, ids: seq<string>)
    requires NoDescriptor(st.actions)
    ensures NoDescriptor(AddCases(st, dp, dsDir, ids).actions)
    decreases |ids|
  {
    if st.failure.None? && |ids| > 0 {
      AddCaseOnlyCopies(st, dp, dsDir, ids[0]);
      NoDescriptorDuringCases(AddCase(st, dp, dsDir, ids[0]), dp, dsDir, ids[1..]);
    }
  }

  /**
   * With Z-maps enabled, a case whose ADC and label are converted but whose
   * Z-map is not stops the stage on the Z-map, after its ADC was copied and
   * before its label was.
   */
  lemma MissingZmapAfterAdcCopy(st: Assembly, dp: DatasetPaths, dsDir: string, cid: string)
    requires st.failure.None? && dp.useZmap
    requires AdcOut(dp.convertedRoot, cid) in st.fs.paths && LabelOut(dp.convertedRoot, cid) in st.fs.paths
    requires ZOut(dp.convertedRoot, cid) !in st.fs.paths
    requires ZOut(dp.convertedRoot, cid) != ImageTarget(dsDir, cid, "0000")
    ensures var r := AddCase(st, dp, dsDir, cid);
      && r.failure == Some(MissingConverted(ZOut(dp.convertedRoot, cid)))
      && r.actions == st.actions + [CopyTo(AdcOut(dp.convertedRoot, cid), ImageTarget(dsDir, cid, "0000"))]
  {
  }

  /** The default dataset directory is `Dataset001_BONBID`. */
  lemma DefaultDatasetDirName()
    ensures DatasetDirName(DefaultDatasetId, DefaultDatasetName) == "Dataset001_BONBID"
  {
    assert Decimal(1) == "1";
    assert ZFill("1", 3) == "001";
  }
}
