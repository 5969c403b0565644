/**
 * Indexing one split folder of the raw dataset.
 *
 * A split folder holds `1ADC_ss` (required), `2Z_ADC` and `3LABEL`
 * (both optional). Every `.mha` ADC file whose name carries a case id
 * becomes one entry, keyed by the canonical id, with the Z-map and label
 * of the same id when those folders have one. Z-map names are searched
 * for the id anywhere; label names must start with it.
 */
module DatasetIndex {
  import opened Wrappers
  import opened Strings
  import opened Sorting
  import opened Fs
  import opened CaseId

  const AdcFolder: string := "1ADC_ss"
  const ZFolder: string := "2Z_ADC"
  const LabelFolder: string := "3LABEL"

  const TrainFolder: string := "BONBID2023_Train"
  const ValFolder: string := "BONBID2023_Val"
  const TestFolder: string := "BONBID2023_Test"

  const MhaSuffix: string := ".mha"

  datatype SplitDirs = SplitDirs(train: string, val: string, test: string)

  /**
   * The three split folders: fixed names directly under the raw root,
   * whether or not they exist (nothing is listed or checked).
   */
  function FindRawSplitDirs(rawRoot: string): (r: SplitDirs)
    ensures r.train != r.val && r.val != r.test && r.train != r.test
    ensures StartsWith(r.train, rawRoot + "/") && StartsWith(r.val, rawRoot + "/")
    ensures StartsWith(r.test, rawRoot + "/")
    ensures r.train[|rawRoot| + 1..] == TrainFolder && r.val[|rawRoot| + 1..] == ValFolder
    ensures r.test[|rawRoot| + 1..] == TestFolder
    ensures forall i :: |rawRoot| < i < |r.train| ==> r.train[i] != '/'
    ensures forall i :: |rawRoot| < i < |r.val| ==> r.val[i] != '/'
    ensures forall i :: |rawRoot| < i < |r.test| ==> r.test[i] != '/'
  {
    var r := SplitDirs(Join(rawRoot, TrainFolder), Join(rawRoot, ValFolder), Join(rawRoot, TestFolder));
    assert r.train[..|rawRoot| + 1] == rawRoot + "/";
    assert r.val[..|rawRoot| + 1] == rawRoot + "/";
    assert r.test[..|rawRoot| + 1] == rawRoot + "/";
    assert |r.train| == |rawRoot| + 17 && |r.val| == |rawRoot| + 15 && |r.test| == |rawRoot| + 16;
    r
  }

  /** One indexed case: its ADC volume and, when found, its label and Z-map. */
  datatype CaseFiles = CaseFiles(caseId: string, adcMha: string, labelMha: Option<string>, zmapMha: Option<string>)

  type CaseIndex = map<string, CaseFiles>

  /** What `glob("*.mha")` selects from a directory listing, in listing order. */
  function MhaNames(names: seq<string>): (r: seq<string>)
    ensures |r| <= |names|
  {
    if |names| == 0 then []
    else
      var last := names[|names| - 1];
      MhaNames(names[..|names| - 1]) + (if EndsWith(last, MhaSuffix) then [last] else [])
  }

  /**
   * The dictionary built by looping over `names` and storing each one whose
   * id parses under that id: a later name overwrites an earlier one.
   */
  function Lookup(dir: string, names: seq<string>, id: string -> Option<string>): (m: map<string, string>)
  {
    if |names| == 0 then map[]
    else
      var last := names[|names| - 1];
      var m := Lookup(dir, names[..|names| - 1], id);
      match id(last)
      case Some(c) => m[c := Join(dir, last)]
      case None => m
  }

  /** The lookup of an optional folder: empty when the folder is absent. */
  function FolderLookup(dir: string, listing: Option<seq<string>>, id: string -> Option<string>): map<string, string>
  {
    match listing
    case Some(names) => Lookup(dir, MhaNames(names), id)
    case None => map[]
  }

  /**
   * `index_split` over the listings of its three sub-folders (None when a
   * folder does not exist).
   */
  function IndexListings(splitDir: string, adc: Option<seq<string>>, z: Option<seq<string>>,
                         labels: Option<seq<string>>): (r: Result<CaseIndex, Error>)
    ensures r.Err? <==> adc.None?
    ensures r.Err? ==> r.error == MissingAdcFolder(Join(splitDir, AdcFolder))
  {
    match adc
    case None => Err(MissingAdcFolder(Join(splitDir, AdcFolder)))
    case Some(names) =>
      var adcs := Lookup(Join(splitDir, AdcFolder), SortUnique(MhaNames(names)), ParseCaseId);
      var zmaps := FolderLookup(Join(splitDir, ZFolder), z, ParseCaseId);
      var lesions := FolderLookup(Join(splitDir, LabelFolder), labels, MatchCaseId);
      Ok(map c | c in adcs :: CaseFiles(c, adcs[c], Get(lesions, c), Get(zmaps, c)))
  }

  /**
   * Indexing a split folder of a filesystem snapshot: it fails exactly when
   * the split has no `1ADC_ss` folder, and a present `1ADC_ss` gives an index
   * even when the other two folders are missing.
   */
  function IndexSplit(fs: FileSystem, splitDir: string): (r: Result<CaseIndex, Error>)
    ensures r.Err? <==> Join(splitDir, AdcFolder) !in fs.paths
    ensures r.Err? ==> r.error == MissingAdcFolder(Join(splitDir, AdcFolder))
  {
    IndexListings(splitDir, Listing(fs, Join(splitDir, AdcFolder)),
                  Listing(fs, Join(splitDir, ZFolder)), Listing(fs, Join(splitDir, LabelFolder)))
  }

  // ---------------------------------------------------------------------
  // The `*.mha` filter.

  /** A name is selected exactly when it ends in `.mha`. */
  lemma {:induction false} MhaNamesMembers(names: seq<string>, n: string)
    ensures n in MhaNames(names) <==> n in names && EndsWith(n, MhaSuffix)
    decreases |names|
  {
    if |names| > 0 {
      var front := names[..|names| - 1];
      MhaNamesMembers(front, n);
      assert names == front + [names[|names| - 1]];
    }
  }

  // ---------------------------------------------------------------------
  // The lookup dictionary.

  /** An id is a key exactly when some name carries it. */
  lemma {:induction false} LookupKeys(dir: string, names: seq<string>, id: string -> Option<string>, c: string)
    ensures c in Lookup(dir, names, id) <==>
      exists i :: 0 <= i < |names| && id(names[i]) == Some(c)
    decreases |names|
  {
    if |names| > 0 {
      var front := names[..|names| - 1];
      LookupKeys(dir, front, id, c);
      if c in Lookup(dir, front, id) {
        var i :| 0 <= i < |front| && id(front[i]) == Some(c);
        assert names[i] == front[i];
      } else if c !in Lookup(dir, names, id) {
        forall i | 0 <= i < |names| ensures id(names[i]) != Some(c) {
          if i < |front| {
            assert names[i] == front[i];
          }
        }
      }
    }
  }

  /**
   * The value stored under an id is the path of the LAST name carrying it:
   * Python's dictionary assignment in a loop overwrites.
   */
  lemma {:induction false} LookupLastWins(dir: string, names: seq<string>, id: string -> Option<string>, i: nat, c: string)
    requires i < |names| && id(names[i]) == Some(c)
    requires forall j :: i < j < |names| ==> id(names[j]) != Some(c)
    ensures c in Lookup(dir, names, id)
    ensures Lookup(dir, names, id)[c] == Join(dir, names[i])
    decreases |names|
  {
    var front := names[..|names| - 1];
    if i < |names| - 1 {
      forall j | i < j < |front| ensures id(front[j]) != Some(c) {
        assert front[j] == names[j];
      }
      assert front[i] == names[i];
      LookupLastWins(dir, front, id, i, c);
    }
  }

  /** Every value of the lookup is the path of a name in the folder that carries its key. */
  lemma LookupValues(dir: string, names: seq<string>, id: string -> Option<string>, c: string)
    requires c in Lookup(dir, names, id)
    ensures exists i :: 0 <= i < |names| && id(names[i]) == Some(c)
                        && Lookup(dir, names, id)[c] == Join(dir, names[i])
  {
    LookupKeys(dir, names, id, c);
    var i :| 0 <= i < |names| && id(names[i]) == Some(c);
    var k := LastCarrier(names, id, c, i);
    LookupLastWins(dir, names, id, k, c);
  }

  /** The last position carrying `c`, at or after a known one. */
  lemma {:induction false} LastCarrier(names: seq<string>, id: string -> Option<string>, c: string, i: nat) returns (k: nat)
    requires i < |names| && id(names[i]) == Some(c)
    ensures i <= k < |names| && id(names[k]) == Some(c)
    ensures forall j :: k < j < |names| ==> id(names[j]) != Some(c)
    decreases |names| - i
  {
    if exists j :: i < j < |names| && id(names[j]) == Some(c) {
      var j :| i < j < |names| && id(names[j]) == Some(c);
      k := LastCarrier(names, id, c, j);
    } else {
      k := i;
    }
  }

  // ---------------------------------------------------------------------
  // The index of a split.

  /** The keys of the index are the ids of the `.mha` ADC files. */
  lemma IndexKeys(splitDir: string, adc: seq<string>, z: Option<seq<string>>, labels: Option<seq<string>>, c: string)
    ensures var r := IndexListings(splitDir, Some(adc), z, labels);
      c in r.value <==> exists n :: n in adc && EndsWith(n, MhaSuffix) && ParseCaseId(n) == Some(c)
  {
    var sorted := SortUnique(MhaNames(adc));
    LookupKeys(Join(splitDir, AdcFolder), sorted, ParseCaseId, c);
    if exists n :: n in adc && EndsWith(n, MhaSuffix) && ParseCaseId(n) == Some(c) {
      var n :| n in adc && EndsWith(n, MhaSuffix) && ParseCaseId(n) == Some(c);
      MhaNamesMembers(adc, n);
      var i :| 0 <= i < |sorted| && sorted[i] == n;
    }
    if exists i :: 0 <= i < |sorted| && ParseCaseId(sorted[i]) == Some(c) {
      var i :| 0 <= i < |sorted| && ParseCaseId(sorted[i]) == Some(c);
      assert sorted[i] in sorted;
      MhaNamesMembers(adc, sorted[i]);
    }
  }

  /** Every key of the index is a canonical case id and names its own entry. */
  lemma IndexEntriesAreCanonical(splitDir: string, adc: seq<string>, z: Option<seq<string>>,
                                 labels: Option<seq<string>>, c: string)
    requires c in IndexListings(splitDir, Some(adc), z, labels).value
    ensures IsCaseId(c)
    ensures IndexListings(splitDir, Some(adc), z, labels).value[c].caseId == c
  {
    IndexKeys(splitDir, adc, z, labels, c);
    var n :| n in adc && EndsWith(n, MhaSuffix) && ParseCaseId(n) == Some(c);
    ParseCaseIdIsCaseId(n);
  }

  /**
   * When two ADC files carry the same id, the entry keeps the one that sorts
   * last: `sorted(...)` is walked in ascending order and later ones overwrite.
   */
  lemma AdcWinnerIsGreatest(splitDir: string, adc: seq<string>, z: Option<seq<string>>,
                            labels: Option<seq<string>>, n: string, c: string)
    requires n in adc && EndsWith(n, MhaSuffix) && ParseCaseId(n) == Some(c)
    requires forall m :: m in adc && EndsWith(m, MhaSuffix) && ParseCaseId(m) == Some(c) ==> LexLe(m, n)
    ensures c in IndexListings(splitDir, Some(adc), z, labels).value
    ensures IndexListings(splitDir, Some(adc), z, labels).value[c].adcMha == Join(Join(splitDir, AdcFolder), n)
  {
    var sorted := SortUnique(MhaNames(adc));
    MhaNamesMembers(adc, n);
    var i :| 0 <= i < |sorted| && sorted[i] == n;
    forall j | i < j < |sorted| ensures ParseCaseId(sorted[j]) != Some(c) {
      if ParseCaseId(sorted[j]) == Some(c) {
        assert sorted[j] in sorted;
        MhaNamesMembers(adc, sorted[j]);
        LexLeAntisymmetric(sorted[i], sorted[j]);
      }
    }
    LookupLastWins(Join(splitDir, AdcFolder), sorted, ParseCaseId, i, c);
  }

  /**
   * An entry has a label exactly when the label folder exists and one of its
   * `.mha` names starts with the case's pattern; the label is one of those files.
   */
  lemma IndexLabel(splitDir: string, adc: seq<string>, z: Option<seq<string>>, labels: Option<seq<string>>, c: string)
    requires c in IndexListings(splitDir, Some(adc), z, labels).value
    ensures var e := IndexListings(splitDir, Some(adc), z, labels).value[c];
      && (e.labelMha.Some? <==> labels.Some? && exists n :: n in labels.value && EndsWith(n, MhaSuffix) && MatchCaseId(n) == Some(c))
      && (e.labelMha.Some? ==> exists n :: n in labels.value && EndsWith(n, MhaSuffix) && MatchCaseId(n) == Some(c)
                                         && e.labelMha.value == Join(Join(splitDir, LabelFolder), n))
  {
    if labels.Some? {
      FolderLookupFacts(Join(splitDir, LabelFolder), labels.value, MatchCaseId, c);
    }
  }

  /**
   * An entry has a Z-map exactly when the Z folder exists and one of its
   * `.mha` names contains the case's pattern; the Z-map is one of those files.
   */
  lemma IndexZmap(splitDir: string, adc: seq<string>, z: Option<seq<string>>, labels: Option<seq<string>>, c: string)
    requires c in IndexListings(splitDir, Some(adc), z, labels).value
    ensures var e := IndexListings(splitDir, Some(adc), z, labels).value[c];
      && (e.zmapMha.Some? <==> z.Some? && exists n :: n in z.value && EndsWith(n, MhaSuffix) && ParseCaseId(n) == Some(c))
      && (e.zmapMha.Some? ==> exists n :: n in z.value && EndsWith(n, MhaSuffix) && ParseCaseId(n) == Some(c)
                                        && e.zmapMha.value == Join(Join(splitDir, ZFolder), n))
  {
    if z.Some? {
      FolderLookupFacts(Join(splitDir, ZFolder), z.value, ParseCaseId, c);
    }
  }

  /**
   * The index of a split folder in terms of the folders themselves: the keys
   * are the ids of the `.mha` names listed in `1ADC_ss`, each ADC file is one
   * of those names; a label comes only from a `.mha` name in `3LABEL` that
   * starts with the case's pattern, and a Z-map only from one in `2Z_ADC`
   * that contains it, and each is present exactly when such a name exists.
   */
  lemma IndexSplitEntries(fs: FileSystem, splitDir: string, c: string)
    requires Join(splitDir, AdcFolder) in fs.paths
    ensures var adc := Listing(fs, Join(splitDir, AdcFolder)).value;
      var r := IndexSplit(fs, splitDir).value;
      && (c in r <==> exists n :: n in adc && EndsWith(n, MhaSuffix) && ParseCaseId(n) == Some(c))
      && (c in r ==> exists n :: n in adc && EndsWith(n, MhaSuffix) && ParseCaseId(n) == Some(c)
                                && r[c].adcMha == Join(Join(splitDir, AdcFolder), n))
    ensures var labels := Listing(fs, Join(splitDir, LabelFolder));
      var r := IndexSplit(fs, splitDir).value;
      c in r ==>
        && (r[c].labelMha.Some? <==> labels.Some? && exists n :: n in labels.value && EndsWith(n, MhaSuffix) && MatchCaseId(n) == Some(c))
        && (r[c].labelMha.Some? ==> exists n :: n in labels.value && EndsWith(n, MhaSuffix) && MatchCaseId(n) == Some(c)
                                               && r[c].labelMha.value == Join(Join(splitDir, LabelFolder), n))
    ensures var z := Listing(fs, Join(splitDir, ZFolder));
      var r := IndexSplit(fs, splitDir).value;
      c in r ==>
        && (r[c].zmapMha.Some? <==> z.Some? && exists n :: n in z.value && EndsWith(n, MhaSuffix) && ParseCaseId(n) == Some(c))
        && (r[c].zmapMha.Some? ==> exists n :: n in z.value && EndsWith(n, MhaSuffix) && ParseCaseId(n) == Some(c)
                                              && r[c].zmapMha.value == Join(Join(splitDir, ZFolder), n))
  {
    var adcDir := Join(splitDir, AdcFolder);
    var adc := Listing(fs, adcDir).value;
    var z := Listing(fs, Join(splitDir, ZFolder));
    var labels := Listing(fs, Join(splitDir, LabelFolder));
    assert IndexSplit(fs, splitDir) == IndexListings(splitDir, Some(adc), z, labels);
    IndexKeys(splitDir, adc, z, labels, c);
    if c in IndexListings(splitDir, Some(adc), z, labels).value {
      var sorted := SortUnique(MhaNames(adc));
      LookupValues(adcDir, sorted, ParseCaseId, c);
      var i :| 0 <= i < |sorted| && ParseCaseId(sorted[i]) == Some(c)
               && Lookup(adcDir, sorted, ParseCaseId)[c] == Join(adcDir, sorted[i]);
      assert sorted[i] in sorted;
      MhaNamesMembers(adc, sorted[i]);
      IndexLabel(splitDir, adc, z, labels, c);
      IndexZmap(splitDir, adc, z, labels, c);
    }
  }

  /** The lookup of a present folder, in terms of the folder's names. */
  lemma FolderLookupFacts(dir: string, names: seq<string>, id: string -> Option<string>, c: string)
    ensures var m := FolderLookup(dir, Some(names), id);
      && (c in m <==> exists n :: n in names && EndsWith(n, MhaSuffix) && id(n) == Some(c))
      && (c in m ==> exists n :: n in names && EndsWith(n, MhaSuffix) && id(n) == Some(c)
                                 && m[c] == Join(dir, n))
  {
    var mha := MhaNames(names);
    var m := Lookup(dir, mha, id);
    LookupKeys(dir, mha, id, c);
    if c in m {
      LookupValues(dir, mha, id, c);
      var i :| 0 <= i < |mha| && id(mha[i]) == Some(c) && m[c] == Join(dir, mha[i]);
      assert mha[i] in mha;
      MhaNamesMembers(names, mha[i]);
    } else if exists n :: n in names && EndsWith(n, MhaSuffix) && id(n) == Some(c) {
      var n :| n in names && EndsWith(n, MhaSuffix) && id(n) == Some(c);
      MhaNamesMembers(names, n);
    }
  }
}
