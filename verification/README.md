# Lesion segmentation dataset preparation, modelled in Dafny

This project models the dataset-preparation pipeline of the BONBID lesion
segmentation repository: the part that turns raw MetaImage volumes spread
over `BONBID2023_{Train,Val,Test}/{1ADC_ss,2Z_ADC,3LABEL}` folders into an
nnU-Net raw dataset. Its stages, each one a module here, are:

- **CaseId** — the case-id pattern `MGHNICU_<digits>-VISIT_<digits>`. ADC and Z-map
  names are searched anywhere (`re.search`); label names must start with the pattern
  (`re.match`). The canonical id is `MGHNICU_<digits>_VISIT_<visit zero-filled to 2>`.
- **DatasetIndex** — `index_split`. A split folder's three listings become a map from
  case id to `CaseFiles`.
- **Splits** — `load_subset_list`. The manifest keeps the stripped lines that are
  neither empty nor comments, in order and with repeats.
- **Paths** — `load_dataset_paths`. It reads the configuration and resolves its paths
  against the repository root.
- **Convert** — the converter's `main`:
  - it merges the Train and Val indexes and reconciles the manifest against them;
  - it then runs one conversion job per output file, skipping outputs that already exist.
- **NnUNet** — the assembler's `main`. It runs the directory creation, the per-case
  existence checks and copies, and the `dataset.json` descriptor, in that order.
- **GeometryCheck** — the geometry sanity check. Per case it checks existence, reads
  the volumes and compares geometry keys, stopping at the first failure.

Support modules:

- **Wrappers** — `Option` and `Result`.
- **Fs** — an abstract filesystem. It is a set of existing paths plus:
  - directory listings in enumeration order;
  - text files as lines;
  - for every readable volume, its geometry key (size, spacing, origin, direction).
- **Strings** — Python's `str.isspace`, `str` ordering, `str(n)`, `zfill` and `f"{n:03d}"`.
- **Sorting** — `sorted(set(...))`.

Every stage is a pure function. It takes the filesystem snapshot and returns
what the program would leave behind, plus the error that stopped it, if any. The
converter returns a `Run`. The assembler returns an `Assembly`: the ordered
actions it performed, the resulting filesystem and the failure, so partial work
before an error stays visible.

Three behaviours of the code that are easy to miss:

- **The assembler does not keep cases whole.** It checks a case's ADC and label, copies
  the ADC, and only then checks the Z-map. So with Z-maps enabled, a case without a
  Z-map leaves its ADC copy behind (`NnUNet.MissingZmapAfterAdcCopy`,
  `NnUNet.AddCaseOutcome`).
- **Visits are padded to at least two digits.** `zfill(2)` pads a one-digit visit and
  leaves longer visits as they are (`CaseId.VisitPadding`).
- **A missing `manifest` section fails on its `path` key.** The section defaults to
  `{}`, so loading still fails on the missing `path` (`Paths.NoManifestSectionFails`). A
  `manifest` value that is not a mapping fails too (`ManifestSectionNotMapping`).

## Model

| member | source | states |
|---|---|---|
| Strings.VisibleIsNotSpace | src/lesion_segmentation/data/splits.py:20 | no visible ASCII character (in particular `#`) counts as whitespace for `strip` |
| Strings.LexLeTransitive | src/lesion_segmentation/data/dataset_index.py:67 | the code-point order `sorted` uses on names is transitive |
| Strings.LexLeTotal | src/lesion_segmentation/data/dataset_index.py:67 | any two names are comparable in that order |
| Strings.LexLeAntisymmetric | src/lesion_segmentation/data/dataset_index.py:67 | two names each no greater than the other are equal |
| Strings.ZFill | src/lesion_segmentation/data/dataset_index.py:42 | `zfill` keeps a string at least as long as the width, otherwise pads it on the left with zeros to exactly the width |
| Strings.ZFillKeepsValue | src/lesion_segmentation/data/dataset_index.py:42 | zero-filling a digit string keeps the number it denotes |
| Strings.Decimal | src/lesion_segmentation/data/make_nnunet_dataset.py:35 | `str(n)` is a digit string denoting n, with no leading zero |
| Strings.Format03 | src/lesion_segmentation/data/make_nnunet_dataset.py:35 | `{:03d}` gives digits denoting n (after a minus sign when n < 0), exactly three characters wide unless the plain decimal form is longer, and then without a leading zero |
| Sorting.SortUnique | src/lesion_segmentation/data/convert_mha_to_nifti.py:45 | `sorted(set(xs))` is strictly ascending and has exactly the elements of xs |
| Sorting.InsertUnique | src/lesion_segmentation/data/convert_mha_to_nifti.py:34 | adding one element to an ascending duplicate-free list keeps it so and adds exactly that element |
| Sorting.AscendingIsDistinct | src/lesion_segmentation/data/convert_mha_to_nifti.py:45 | each distinct id is visited exactly once |
| CaseId.DigitRun | src/lesion_segmentation/data/dataset_index.py:19 | the greedy `\d+` run covers only digits and stops at a non-digit or the end |
| CaseId.LeftmostFrom | src/lesion_segmentation/data/dataset_index.py:37 | the scan finds the first position with a match, and none exists before it |
| CaseId.MatchAtCaptures | src/lesion_segmentation/data/dataset_index.py:19 | the anchored matcher returns exactly the groups a regex engine captures at that position |
| CaseId.SearchNoneIffAbsent | src/lesion_segmentation/data/dataset_index.py:37-39 | the search finds nothing exactly when no substring of the name is in the pattern's language |
| CaseId.ParseCaseIdNoneIffAbsent | src/lesion_segmentation/data/dataset_index.py:30-39 | `parse_case_id_from_adc_filename` returns None exactly when no substring matches |
| CaseId.ParseCaseIdIsLeftmost | src/lesion_segmentation/data/dataset_index.py:37-43 | a successful parse is the canonical id built from the leftmost match |
| CaseId.LeftmostDeterminesParse | src/lesion_segmentation/data/dataset_index.py:37-43 | conversely, the leftmost match fixes the parse |
| CaseId.CanonicalIsCaseId | src/lesion_segmentation/data/dataset_index.py:41-43 | a canonical id is `pid + "_VISIT_" + visit`, with the visit of at least two digits and the same number |
| CaseId.ParseCaseIdIsCaseId | src/lesion_segmentation/data/dataset_index.py:30-43 | every id the search parser returns has the canonical shape |
| CaseId.MatchCaseIdIsCaseId | src/lesion_segmentation/data/dataset_index.py:87-91 | every id the anchored label parser returns has the canonical shape |
| CaseId.MatchCaseIdIffPrefix | src/lesion_segmentation/data/dataset_index.py:87 | the label parser succeeds exactly when the name starts with a word of the pattern |
| CaseId.MatchImpliesSearch | src/lesion_segmentation/data/dataset_index.py:76-87 | where the anchored parser succeeds, the search parser gives the same id |
| CaseId.VisitPadding | src/lesion_segmentation/data/dataset_index.py:42 | "1" becomes "01"; "01" and "123" are unchanged |
| CaseId.ExampleAdcName | src/lesion_segmentation/data/dataset_index.py:37-43 | `MGHNICU_010-VISIT_1-ADC_ss.mha` parses to `MGHNICU_010_VISIT_01` |
| CaseId.ExampleAdcNameThreeDigits | src/lesion_segmentation/data/dataset_index.py:41-43 | `MGHNICU_010-VISIT_123-ADC_ss.mha` parses to `MGHNICU_010_VISIT_123`, by the search and the anchored parser alike |
| CaseId.ExampleLabelName | src/lesion_segmentation/data/dataset_index.py:86-92 | `MGHNICU_010-VISIT_01_lesion.mha` is accepted by the anchored label parser |
| CaseId.ExampleZmapName | src/lesion_segmentation/data/dataset_index.py:74-81 | a Z-map name with a `Zmap_` prefix is found by searching |
| CaseId.ExampleZmapNameNotAnchored | src/lesion_segmentation/data/dataset_index.py:87 | the same Z-map name is rejected by the anchored matcher |
| Splits.LStripRemovesLeadingSpace | src/lesion_segmentation/data/splits.py:20 | left-stripping removes a prefix that is all whitespace and stops at a non-space |
| Splits.RStripRemovesTrailingSpace | src/lesion_segmentation/data/splits.py:20 | right-stripping removes a suffix that is all whitespace and stops at a non-space |
| Splits.StripSurroundedBySpace | src/lesion_segmentation/data/splits.py:20 | a stripped line is a slice of the line with only whitespace around it |
| Splits.StripIsStripped | src/lesion_segmentation/data/splits.py:20 | a stripped line neither starts nor ends with whitespace |
| Splits.StripUnique | src/lesion_segmentation/data/splits.py:20 | whitespace around a stripped text is removed and nothing else |
| Splits.StripIdempotent | src/lesion_segmentation/data/splits.py:20 | stripping twice is stripping once |
| Splits.IndentedCommentDropped | src/lesion_segmentation/data/splits.py:20-21 | an indented `#` line is a comment and is dropped |
| Splits.ManifestIdsAppend | src/lesion_segmentation/data/splits.py:19-23 | the lines are filtered one by one, in order |
| Splits.ManifestIdsMembers | src/lesion_segmentation/data/splits.py:19-23 | an id is in the manifest exactly when it is the strip of some kept line |
| Splits.ManifestIdsWellFormed | src/lesion_segmentation/data/splits.py:20-23 | every manifest id is non-empty, stripped, and does not start with `#` |
| Splits.ManifestIdsEmpty | src/lesion_segmentation/data/splits.py:19-25 | no id survives exactly when every line is blank or a comment |
| Splits.RepeatsKept | src/lesion_segmentation/data/splits.py:18-23 | repeated ids are passed through, not deduplicated |
| Splits.LoadSubsetList | src/lesion_segmentation/data/splits.py:14-26 | a missing file fails with ManifestNotFound, an empty result with EmptyManifest; a present file with ids returns exactly its filtered list |
| DatasetIndex.FindRawSplitDirs | src/lesion_segmentation/data/dataset_index.py:46-51 | the three split folders are `BONBID2023_Train`, `_Val` and `_Test` directly under the raw root (one path component each), distinct, and not checked for existence |
| DatasetIndex.MhaNamesMembers | src/lesion_segmentation/data/dataset_index.py:67 | the glob keeps exactly the listed names ending in `.mha` |
| DatasetIndex.IndexListings | src/lesion_segmentation/data/dataset_index.py:59-64 | indexing fails exactly when the `1ADC_ss` folder is missing, whatever the other two folders hold |
| DatasetIndex.IndexSplit | src/lesion_segmentation/data/dataset_index.py:59-64 | indexing a split folder fails, naming `<split>/1ADC_ss`, exactly when that folder does not exist; the other two folders may be missing |
| DatasetIndex.IndexSplitEntries | src/lesion_segmentation/data/dataset_index.py:59-105 | over the folders themselves: the keys are the ids of the `.mha` names in `1ADC_ss`, each ADC path one of them; a label comes only from a `3LABEL` name starting with the case's pattern and a Z-map only from a `2Z_ADC` name containing it, each present exactly when its folder exists and has such a name |
| DatasetIndex.LookupKeys | src/lesion_segmentation/data/dataset_index.py:71-92 | a lookup has an id exactly when some listed name parses to it |
| DatasetIndex.LookupLastWins | src/lesion_segmentation/data/dataset_index.py:83-92 | when several names give the same id, the last one in listing order wins |
| DatasetIndex.LookupValues | src/lesion_segmentation/data/dataset_index.py:73-81 | every looked-up id comes from some listed name |
| DatasetIndex.IndexKeys | src/lesion_segmentation/data/dataset_index.py:94-103 | the index keys are exactly the ids of parseable `.mha` ADC names; unparseable names are skipped |
| DatasetIndex.IndexEntriesAreCanonical | src/lesion_segmentation/data/dataset_index.py:94-103 | every key is a canonical id, and its entry's `case_id` equals the key |
| DatasetIndex.AdcWinnerIsGreatest | src/lesion_segmentation/data/dataset_index.py:94-98 | of several ADC files with one id, the greatest in sorted name order is kept |
| DatasetIndex.IndexLabel | src/lesion_segmentation/data/dataset_index.py:83-92 | an entry has a label exactly when the label folder exists and one of its `.mha` names starts with the case's pattern |
| DatasetIndex.IndexZmap | src/lesion_segmentation/data/dataset_index.py:71-81 | an entry has a Z-map exactly when the Z folder exists and one of its `.mha` names contains the case's pattern |
| DatasetIndex.FolderLookupFacts | src/lesion_segmentation/data/dataset_index.py:71-92 | an absent folder contributes nothing; a present one maps an id exactly when one of its `.mha` names yields it |
| Paths.LoadYaml | src/lesion_segmentation/paths.py:22-30 | a missing file gives ConfigNotFound, a document that is not a mapping gives ConfigNotMapping, otherwise its entries |
| Paths.ResolveFromRepo | src/lesion_segmentation/paths.py:33-35 | an absolute path is unchanged; a relative path goes under the repository root, never the working directory |
| Paths.ResolveIdempotent | src/lesion_segmentation/paths.py:33-35 | resolving an already-resolved path changes nothing |
| Paths.ResolveEntry | src/lesion_segmentation/paths.py:53-59 | a missing key gives MissingKey, a non-string value NotAPath |
| Paths.LoadDatasetPathsOkIff | src/lesion_segmentation/paths.py:50-70 | loading succeeds exactly when the three roots and `manifest.path` are present as strings |
| Paths.LoadDatasetPathsFields | src/lesion_segmentation/paths.py:53-61 | every path field is resolved from its entry and absolute; the type defaults to `subset`; `use_zmap` is the truthiness of the entry, false when absent |
| Paths.NoManifestSectionFails | src/lesion_segmentation/paths.py:57-59 | without a `manifest` section, loading fails on the missing `path` key |
| Paths.MissingRawRootFirst | src/lesion_segmentation/paths.py:53 | a missing `raw_root` is reported first |
| Fs.CopyFile | src/lesion_segmentation/data/make_nnunet_dataset.py:20-22 | the destination gets the source's content and geometry; no other volume changes |
| Convert.Merge | src/lesion_segmentation/data/convert_mha_to_nifti.py:39 | the merged index has the ids of both, the Val entry winning on a shared id |
| Convert.IndexIfPresent | src/lesion_segmentation/data/convert_mha_to_nifti.py:37-38 | an absent split folder contributes an empty index; an existing one is indexed, and fails exactly when it has no `1ADC_ss` |
| Convert.UnindexedMembers | src/lesion_segmentation/data/convert_mha_to_nifti.py:41 | an id is reported missing exactly when it is wanted and not indexed |
| Convert.UnindexedEmpty | src/lesion_segmentation/data/convert_mha_to_nifti.py:41-42 | nothing is missing exactly when every wanted id is indexed |
| Convert.Shown | src/lesion_segmentation/data/convert_mha_to_nifti.py:43 | the message lists the first ten missing ids, or all of them when there are fewer |
| Convert.ConvertIndexedNotIndexed | src/lesion_segmentation/data/convert_mha_to_nifti.py:41-45 | reconciliation fails exactly when a wanted id is unindexed; it fails before any conversion, naming 1 to 10 such ids |
| Convert.NotIndexedIff | src/lesion_segmentation/data/convert_mha_to_nifti.py:31-43 | the converter stops with unindexed ids exactly when the manifest and both indexes load and some manifest id is in neither index; only the converted root exists then |
| Convert.ConvertMainStages | src/lesion_segmentation/data/convert_mha_to_nifti.py:31-39 | the converted root is made first; manifest and indexing errors stop the run in that order |
| Convert.JobsCover | src/lesion_segmentation/data/convert_mha_to_nifti.py:45-65 | each wanted case gets its ADC output; its label output exactly when indexed with a label; its Z output exactly when Z-maps are enabled and it is indexed with a Z-map; each is read from the indexed file |
| Convert.JobsOnly | src/lesion_segmentation/data/convert_mha_to_nifti.py:45-65 | every output of the run belongs to a wanted case; a label output only comes from an indexed label, a Z output only with Z-maps enabled and from an indexed Z-map |
| Convert.OutputNameInjective | src/lesion_segmentation/data/convert_mha_to_nifti.py:48-62 | an output name determines its case and its kind |
| Convert.CaseJobsOrder | src/lesion_segmentation/data/convert_mha_to_nifti.py:47-65 | the outputs of one case belong to that case and come ADC, then label, then Z-map |
| Convert.JobsOrder | src/lesion_segmentation/data/convert_mha_to_nifti.py:45-65 | over the sorted ids, one output is written before another exactly when its case id is smaller, or it is the same case and an earlier kind (ADC, label, Z-map); two positions write the same name only if they are the same position |
| Convert.OutputsDistinct | src/lesion_segmentation/data/convert_mha_to_nifti.py:48-62 | an ADC, a label and a Z output never share a path, whatever their cases |
| Convert.JobsOutputs | src/lesion_segmentation/data/convert_mha_to_nifti.py:48-62 | every output is `{cid}_ADC`, `{cid}_lesion` or `{cid}_Z` `.nii.gz` under the converted root, for a wanted cid |
| Convert.RunJobsAllPresent | src/lesion_segmentation/data/convert_mha_to_nifti.py:49-63 | when every output exists, a run reads nothing and changes nothing |
| Convert.RunJobsCompleted | src/lesion_segmentation/data/convert_mha_to_nifti.py:45-65 | a completed run creates all outputs and nothing else, leaving other volumes unchanged |
| Convert.RunJobsIdempotent | src/lesion_segmentation/data/convert_mha_to_nifti.py:49-63 | rerunning the conversion on its own result does nothing |
| Convert.ConvertMainRerun | src/lesion_segmentation/data/convert_mha_to_nifti.py:32-65 | running the whole converter again on what a completed run left succeeds and changes nothing: the root exists, the manifest and indexes are unchanged, and every output is skipped |
| Convert.RunJobsPreservesGeometry | src/lesion_segmentation/data/convert_mha_to_nifti.py:48-65 | a newly written output has its source's geometry |
| Convert.RunJobsFailure | src/lesion_segmentation/data/convert_mha_to_nifti.py:45-65 | a failed run stops at the first job whose output is still missing and whose source cannot be read, after every earlier job succeeded; it names that source and keeps the earlier outputs |
| Convert.CompletedRunHasOutputs | src/lesion_segmentation/data/convert_mha_to_nifti.py:45-65 | after a completed run every manifest case has its converted ADC, and its label and Z-map outputs under their conditions |
| Convert.ListedCaseNotReported | src/lesion_segmentation/data/convert_mha_to_nifti.py:36-43 | a manifest id carried by a `.mha` name in the `1ADC_ss` folder of an existing Train or Val split is never reported as not indexed |
| NnUNet.DatasetDirName | src/lesion_segmentation/data/make_nnunet_dataset.py:35 | the folder is `Dataset`, the id's digits padded to exactly three (longer ids in full, with no leading zero), then `_` and the name; a negative id keeps its minus sign |
| NnUNet.DefaultDatasetDirName | src/lesion_segmentation/data/make_nnunet_dataset.py:28-35 | the defaults give `Dataset001_BONBID` |
| NnUNet.MakeDescriptor | src/lesion_segmentation/data/make_nnunet_dataset.py:66-75 | channel 0 is ADC, channel 1 Z_ADC exactly when Z-maps are enabled; labels are background 0 and lesion 1; the count and `.nii.gz` ending |
| NnUNet.TrainingIsNotTest | src/lesion_segmentation/data/make_nnunet_dataset.py:36-38 | nothing inside `imagesTr` or `labelsTr` is inside `imagesTs` |
| NnUNet.AssembleLayout | src/lesion_segmentation/data/make_nnunet_dataset.py:36-61 | the three folders are made first; every copy lands in `imagesTr` or `labelsTr`, never in `imagesTs` |
| NnUNet.AddCasesKeepsInv | src/lesion_segmentation/data/make_nnunet_dataset.py:44-61 | the cases write only inside the dataset folder, and every copy goes into a training folder |
| NnUNet.AddCaseOutcome | src/lesion_segmentation/data/make_nnunet_dataset.py:45-61 | a case fails exactly when a required converted file is missing, naming ADC, then label, then Z-map; a missing ADC or label copies nothing, a missing Z-map leaves only the ADC copy; a complete case copies ADC to `_0000`, then the Z-map to `_0001` (only with Z-maps), then the label to `labelsTr` |
| NnUNet.AddCasesOutcome | src/lesion_segmentation/data/make_nnunet_dataset.py:44-61 | the cases fail exactly when one is incomplete, naming the first missing file of the first incomplete case; the actions are exactly the copies of the earlier cases in order, then what the failing case copied before its check |
| NnUNet.AddCasesActions | src/lesion_segmentation/data/make_nnunet_dataset.py:44-61 | the actions of the case loop are the ordered copies of each complete case, cut off after the first incomplete case's partial copies |
| NnUNet.AssembleCompleteness | src/lesion_segmentation/data/make_nnunet_dataset.py:32-78 | assembly fails with a missing converted file exactly when some manifest case lacks its ADC, label or enabled Z-map; otherwise every case is copied and the descriptor is written last |
| NnUNet.DescriptorIffComplete | src/lesion_segmentation/data/make_nnunet_dataset.py:44-78 | `dataset.json` is written exactly when every case succeeded, last, and counts the manifest lines with repeats |
| NnUNet.NoDescriptorDuringCases | src/lesion_segmentation/data/make_nnunet_dataset.py:44-63 | the per-case loop never writes the descriptor |
| NnUNet.MissingZmapAfterAdcCopy | src/lesion_segmentation/data/make_nnunet_dataset.py:53-61 | with Z-maps enabled, a missing Z-map fails the case after its ADC copy and before its label copy |
| GeometryCheck.ReadGeometry | utils/sanity_check_geometry.py:47-48 | reading gives the volume's geometry key, or an unreadable-file error |
| GeometryCheck.CheckCaseOkIff | utils/sanity_check_geometry.py:37-63 | a case passes exactly when its required volumes exist, are readable and share one geometry key |
| GeometryCheck.CheckCaseErrors | utils/sanity_check_geometry.py:42-61 | ADC and label existence, reading ADC then label, ADC against label; only then, with Z-maps, Z-map existence, reading and Z-map against ADC; each error names its file, or its case and pair |
| GeometryCheck.DirectionEntryMismatch | utils/sanity_check_geometry.py:50-54 | one differing direction cosine between ADC and label is a mismatch of that case |
| GeometryCheck.ZmapIgnoredWhenDisabled | utils/sanity_check_geometry.py:56 | without Z-maps, the Z-map is never looked at |
| GeometryCheck.CheckCasesOutcome | utils/sanity_check_geometry.py:37-65 | the check passes exactly when every case is consistent; otherwise it reports the first failing case's error |
| GeometryCheck.CheckCasesPermutation | utils/sanity_check_geometry.py:37 | whether the check passes does not depend on the order or repetition of the manifest |
| GeometryCheck.CheckLoop | utils/sanity_check_geometry.py:37-65 | the loop reports the cases that passed, as a prefix of the manifest, and stops at the first failure with that case's error |
| GeometryCheck.SanityCheckOutcome | utils/sanity_check_geometry.py:34-37 | a manifest error comes first; after that, the check passes exactly when every manifest case is consistent |

## Left out

- Reading and writing of volumes (SimpleITK) is not modelled. A readable volume is
  represented only by its geometry key; voxel values and compression are not modelled.
  Writing is assumed to keep the geometry it read, so Convert.RunJobsPreservesGeometry
  proves that each output gets its own source's volume, not that the library preserves
  geometry.
- Geometry keys are compared by equality only. Floating-point details of spacing,
  origin and direction (NaN, rounding) are not modelled.
- YAML parsing is not modelled. The configuration document arrives already parsed as a
  `Paths.Value`.
- The repository root (`repo_root()`, derived from the module's own location) is a
  parameter.
- `Path.resolve()` normalisation of `..` and symlinks is not modelled.
- Fs.Join: paths are joined as plain strings, `dir + "/" + name`. pathlib's `/` also
  returns `name` alone when `name` is absolute, and a `Path` never keeps a trailing
  separator (`Path("a/") / "b"` is `a/b`). The operating system also resolves a `..`
  segment in a path it opens, while the model treats `..` as an ordinary name. The
  converter joins only canonical ids taken from the index, and fixed folder names, so
  neither rule reaches it. The assembler and the geometry check, however, join the raw
  manifest lines, which nothing checks. For a manifest line such as `/tmp/x`, pathlib
  reads `/tmp/x_ADC.nii.gz` and copies to `/tmp/x_0000.nii.gz`. For `../imagesTs/x`
  the copy goes to `<dataset>/imagesTr/../imagesTs/x_0000.nii.gz`, which is inside
  `imagesTs`, and for `../../x` it leaves the dataset folder. The model reads and writes
  under the converted root and `imagesTr` in all three cases. Configured path strings
  are taken as written, so one written with a trailing `/` joins here with a doubled
  separator.
- NnUNet.AssembleLayout: every copy lands in `imagesTr` or `labelsTr`, and none in
  `imagesTs`, only for manifest ids that are not absolute and contain no `..` segment.
  For other ids the program copies into `imagesTs` or outside the dataset folder (see
  the Fs.Join line).
- NnUNet.AddCasesKeepsInv: "writes only inside the dataset folder" holds in the program
  only for manifest ids that are not absolute and contain no `..` segment, for the same
  reason. The file names that NnUNet.AddCaseOutcome and GeometryCheck.CheckCaseErrors
  check and report differ from the program's for such ids too.
- `mkdir(parents=True)` records only the named directory, not its ancestors.
- `shutil.copy2` metadata, `argparse`, the progress lines, and the reporting loop of
  `dataset_index.main` are left out. They produce output only and decide nothing.
- Writes do not update the directory listings, because no stage lists a directory it
  writes into.
- Errors the program does not raise itself are not modelled: permission errors, a path
  that is a directory, an interrupted write.
- `str.splitlines` is not modelled. The manifest file is given as its lines.
- `\d` matches ASCII digits only here. Python also accepts other Unicode decimal digits.
- `glob` enumeration order is not modelled; the listing order is a parameter of the
  filesystem. For labels and Z-maps, the model says which file wins in that order, and
  the lemmas only say that some file with the id was chosen. Case sensitivity of
  `*.mha` is the POSIX one.
- Convert.Shown: Python lists the missing ids in set-iteration order, which is
  unspecified. The model uses ascending order. Its lemmas state only the bound and that
  every shown id is wanted and unindexed, not which ten ids appear.
- NnUNet.AssembleCompleteness: the law is proved only when no converted file lies inside
  the dataset folder. Otherwise the assembler's own copies could create a file it later
  checks for.
- Convert.RunJobsPreservesGeometry: proved only for outputs that did not exist before the
  run, and only when no output of the run is also one of its sources. An existing output
  is skipped and keeps whatever it held.
- `utils/inspect_case.py`, the training and prediction wrappers and the metrics module
  hold no code and are not part of this model.
