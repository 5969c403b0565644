/**
 * The geometry sanity check over the converted volumes.
 *
 * For each manifest case, in manifest order, the converted ADC and label
 * must exist and be readable, and their geometries (size, spacing, origin,
 * direction) must be equal; with Z-maps enabled the converted Z-map must
 * exist and have the ADC's geometry too. The first problem stops the check.
 */
module GeometryCheck {
  import opened Wrappers
  import opened Fs
  import opened Splits
  import opened Paths
  import opened Convert

  /** Reading a volume: its geometry, or the library's failure. */
  function ReadGeometry(fs: FileSystem, p: string): (r: Result<Geometry, Error>)
    ensures r.Ok? <==> p in fs.images
    ensures r.Ok? ==> r.value == fs.images[p]
    ensures r.Err? ==> r.error == Unreadable(p)
  {
    if p in fs.images then Ok(fs.images[p]) else Err(Unreadable(p))
  }

  /** The check of one case: None when it passes, otherwise the error it raises. */
  function CheckCase(fs: FileSystem, dp: DatasetPaths, cid: string): Option<Error>
  {
    var adc := AdcOut(dp.convertedRoot, cid);
    var lbl := LabelOut(dp.convertedRoot, cid);
    var z := ZOut(dp.convertedRoot, cid);
    if adc !in fs.paths then Some(MissingConverted(adc))
    else if lbl !in fs.paths then Some(MissingConverted(lbl))
    else match (ReadGeometry(fs, adc), ReadGeometry(fs, lbl))
      case (Err(e), _) => Some(e)
      case (_, Err(e)) => Some(e)
      case (Ok(gAdc), Ok(gLbl)) =>
        if gAdc != gLbl then Some(GeometryMismatch(cid, AdcVsLabel))
        else if !dp.useZmap then None
        else if z !in fs.paths then Some(MissingConverted(z))
        else match ReadGeometry(fs, z)
          case Err(e) => Some(e)
          case Ok(gZ) => if gZ != gAdc then Some(GeometryMismatch(cid, ZmapVsAdc)) else None
  }

  /** The cases in order; the first failing one decides. */
  function CheckCases(fs: FileSystem, dp: DatasetPaths, ids: seq<string>): Option<Error>
    decreases |ids|
  {
    if |ids| == 0 then None
    else
      var e := CheckCase(fs, dp, ids[0]);
      if e.Some? then e else CheckCases(fs, dp, ids[1..])
  }

  /** The check's `main` for a loaded configuration: load the manifest, then check every case. */
  function SanityCheck(dp: DatasetPaths, fs: FileSystem): Option<Error>
  {
    match LoadManifest(fs, dp.manifestsPath)
    case Err(e) => Some(e)
    case Ok(ids) => CheckCases(fs, dp, ids)
  }

  /**
   * The loop of the check as written: it reports each case that passed,
   * in order, and stops at the first that does not.
   */
  method CheckLoop(fs: FileSystem, dp: DatasetPaths, ids: seq<string>) returns (passed: seq<string>, failure: Option<Error>)
    ensures passed <= ids
    ensures forall k :: 0 <= k < |passed| ==> Consistent(fs, dp, passed[k])
    ensures failure.None? <==> passed == ids
    ensures failure.Some? ==> |passed| < |ids| && failure == CheckCase(fs, dp, ids[|passed|])
    ensures failure == CheckCases(fs, dp, ids)
  {
    passed := [];
    var i := 0;
    while i < |ids|
      invariant 0 <= i <= |ids| && passed == ids[..i]
      invariant forall k :: 0 <= k < i ==> Consistent(fs, dp, ids[k])
      invariant CheckCases(fs, dp, ids) == CheckCases(fs, dp, ids[i..])
    {
      var e := CheckCase(fs, dp, ids[i]);
      if e.Some? {
        assert ids[i..][0] == ids[i];
        return passed, e;
      }
      CheckCaseOkIff(fs, dp, ids[i]);
      assert ids[i..][1..] == ids[i + 1..];
      passed := passed + [ids[i]];
      i := i + 1;
    }
    assert passed == ids[..|ids|] == ids;
    return passed, None;
  }

  // ---------------------------------------------------------------------
  // What passing means.

  /** Case `cid` has every required converted volume, readable, all with one geometry. */
  predicate Consistent(fs: FileSystem, dp: DatasetPaths, cid: string)
  {
    var adc := AdcOut(dp.convertedRoot, cid);
    var lbl := LabelOut(dp.convertedRoot, cid);
    var z := ZOut(dp.convertedRoot, cid);
    && adc in fs.paths && adc in fs.images
    && lbl in fs.paths && lbl in fs.images
    && fs.images[lbl] == fs.images[adc]
    && (dp.useZmap ==> z in fs.paths && z in fs.images && fs.images[z] == fs.images[adc])
  }

  /** A case passes exactly when it is consistent. */
  lemma CheckCaseOkIff(fs: FileSystem, dp: DatasetPaths, cid: string)
    ensures CheckCase(fs, dp, cid).None? <==> Consistent(fs, dp, cid)
  {
  }

  /**
   * How a case fails: ADC and label are checked for existence, then read
   * and compared; only when they agree is the Z-map (with Z-maps enabled)
   * checked for existence, read and compared with the ADC. Every error names
   * the file or the case and pair it is about.
   */
  lemma CheckCaseErrors(fs: FileSystem, dp: DatasetPaths, cid: string)
    ensures var adc := AdcOut(dp.convertedRoot, cid);
      var lbl := LabelOut(dp.convertedRoot, cid);
      var z := ZOut(dp.convertedRoot, cid);
      var r := CheckCase(fs, dp, cid);
      && (adc !in fs.paths ==> r == Some(MissingConverted(adc)))
      && (adc in fs.paths && lbl !in fs.paths ==> r == Some(MissingConverted(lbl)))
      && (adc in fs.paths && lbl in fs.paths && adc !in fs.images ==> r == Some(Unreadable(adc)))
      && (adc in fs.paths && lbl in fs.paths && adc in fs.images && lbl in fs.images ==>
            (fs.images[adc] != fs.images[lbl] <==> r == Some(GeometryMismatch(cid, AdcVsLabel))))
      && (adc in fs.paths && lbl in fs.paths && adc in fs.images && lbl !in fs.images ==> r == Some(Unreadable(lbl)))
      && (adc in fs.paths && lbl in fs.paths && adc in fs.images && lbl in fs.images && fs.images[adc] == fs.images[lbl] ==>
            && (!dp.useZmap ==> r == None)
            && (dp.useZmap && z !in fs.paths ==> r == Some(MissingConverted(z)))
            && (dp.useZmap && z in fs.paths && z !in fs.images ==> r == Some(Unreadable(z)))
            && (dp.useZmap && z in fs.paths && z in fs.images ==>
                  (fs.images[z] != fs.images[adc] <==> r == Some(GeometryMismatch(cid, ZmapVsAdc)))))
      && (r.Some? && r.value.GeometryMismatch? ==> r.value.caseId == cid)
      && (r.Some? && r.value.GeometryMismatch? && r.value.pair == ZmapVsAdc ==> dp.useZmap)
  {
  }

  /**
   * Only the configuration's `use_zmap` brings the Z-map into the check: a
   * case whose ADC and label agree passes without Z-maps whatever its Z-map
   * looks like.
   */
  lemma ZmapIgnoredWhenDisabled(fs: FileSystem, dp: DatasetPaths, cid: string)
    requires !dp.useZmap
    requires AdcOut(dp.convertedRoot, cid) in fs.paths && LabelOut(dp.convertedRoot, cid) in fs.paths
    requires AdcOut(dp.convertedRoot, cid) in fs.images && LabelOut(dp.convertedRoot, cid) in fs.images
    requires fs.images[AdcOut(dp.convertedRoot, cid)] == fs.images[LabelOut(dp.convertedRoot, cid)]
    ensures CheckCase(fs, dp, cid) == None
  {
  }

  /**
   * Geometry keys are compared as a whole: ADC and label volumes that agree
   * on size, spacing and origin but differ in one direction cosine are a
   * mismatch of that case.
   */
  lemma DirectionEntryMismatch(fs: FileSystem, dp: DatasetPaths, cid: string, i: nat)
    requires AdcOut(dp.convertedRoot, cid) in fs.paths && LabelOut(dp.convertedRoot, cid) in fs.paths
    requires AdcOut(dp.convertedRoot, cid) in fs.images && LabelOut(dp.convertedRoot, cid) in fs.images
    requires var a := fs.images[AdcOut(dp.convertedRoot, cid)];
      var l := fs.images[LabelOut(dp.convertedRoot, cid)];
      i < |a.direction| && i < |l.direction| && a.direction[i] != l.direction[i]
    ensures CheckCase(fs, dp, cid) == Some(GeometryMismatch(cid, AdcVsLabel))
  {
  }

  /** `ids[k]` is the first case that fails. */
  predicate FirstFailing(fs: FileSystem, dp: DatasetPaths, ids: seq<string>, k: int)
  {
    0 <= k < |ids| && CheckCase(fs, dp, ids[k]).Some? && forall j :: 0 <= j < k ==> CheckCase(fs, dp, ids[j]).None?
  }

  /**
   * The check passes exactly when every case is consistent; otherwise it
   * reports the error of the first failing case.
   */
  lemma {:induction false} CheckCasesOutcome(fs: FileSystem, dp: DatasetPaths, ids: seq<string>)
    ensures CheckCases(fs, dp, ids).None? <==> forall c :: c in ids ==> Consistent(fs, dp, c)
    ensures CheckCases(fs, dp, ids).Some? ==>
      exists k :: FirstFailing(fs, dp, ids, k) && CheckCases(fs, dp, ids) == CheckCase(fs, dp, ids[k])
    decreases |ids|
  {
    if |ids| > 0 {
      CheckCaseOkIff(fs, dp, ids[0]);
      var rest := ids[1..];
      CheckCasesOutcome(fs, dp, rest);
      if CheckCase(fs, dp, ids[0]).Some? {
        assert FirstFailing(fs, dp, ids, 0);
      } else {
        assert forall c :: c in ids ==> c == ids[0] || c in rest;
        if CheckCases(fs, dp, rest).Some? {
          var k :| FirstFailing(fs, dp, rest, k) && CheckCases(fs, dp, rest) == CheckCase(fs, dp, rest[k]);
          assert ids[k + 1] == rest[k];
          forall j | 0 <= j < k + 1 ensures CheckCase(fs, dp, ids[j]).None? {
            if j > 0 {
              assert ids[j] == rest[j - 1];
            }
          }
          assert FirstFailing(fs, dp, ids, k + 1);
        }
      }
    }
  }

  /** The order of the manifest matters only for which error is reported, never for whether the check passes. */
  lemma CheckCasesPermutation(fs: FileSystem, dp: DatasetPaths, ids: seq<string>, ids': seq<string>)
    requires forall c :: c in ids <==> c in ids'
    ensures CheckCases(fs, dp, ids).None? <==> CheckCases(fs, dp, ids').None?
  {
    CheckCasesOutcome(fs, dp, ids);
    CheckCasesOutcome(fs, dp, ids');
  }

  /** The whole check: a manifest error first, then the verdict of the cases. */
  lemma SanityCheckOutcome(dp: DatasetPaths, fs: FileSystem)
    ensures var m := LoadManifest(fs, dp.manifestsPath);
      var r := SanityCheck(dp, fs);
      && (m.Err? ==> r == Some(m.error) && (m.error.ManifestNotFound? || m.error.EmptyManifest?))
      && (m.Ok? ==> (r.None? <==> forall c :: c in m.value ==> Consistent(fs, dp, c)))
  {
    var m := LoadManifest(fs, dp.manifestsPath);
    if m.Ok? {
      CheckCasesOutcome(fs, dp, m.value);
    }
  }
}
