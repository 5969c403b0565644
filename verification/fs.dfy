/** The abstract filesystem the pipeline stages look at, and the errors they raise. */
module Fs {
  import opened Wrappers

  /** Which pair of volumes disagreed in a geometry check. */
  datatype Pair = AdcVsLabel | ZmapVsAdc

  /** Every error the pipeline raises; each one aborts the stage that raised it. */
  datatype Error =
    | MissingAdcFolder(path: string)          // FileNotFoundError in index_split
    | ManifestNotFound(path: string)          // FileNotFoundError in load_subset_list
    | EmptyManifest(path: string)             // ValueError in load_subset_list
    | ManifestIdsNotIndexed(shown: seq<string>) // ValueError in the converter, at most 10 ids
    | MissingConverted(path: string)          // FileNotFoundError in assembly / geometry check
    | GeometryMismatch(caseId: string, pair: Pair)
    | Unreadable(path: string)                // the image library could not read a file
    | ConfigNotFound(path: string)
    | ConfigNotMapping(path: string)
    | MissingKey(key: string)                 // KeyError on a required config key
    | NotAPath(key: string)                   // TypeError: a config value that is not a string
    | ManifestSectionNotMapping               // AttributeError: `manifest` is not a mapping

  /**
   * The spatial geometry of a volume, as the image library reports it:
   * size per axis, spacing, origin and the direction cosines.
   */
  datatype Geometry = Geometry(size: seq<int>, spacing: seq<real>, origin: seq<real>, direction: seq<real>)

  /**
   * A snapshot of the filesystem: the set of existing paths (files and
   * directories), the names each directory lists, in enumeration order, the
   * lines of each text file, and the geometry of each file the image library
   * can read.
   */
  datatype FileSystem = FileSystem(
    paths: set<string>,
    listings: map<string, seq<string>>,
    texts: map<string, seq<string>>,
    images: map<string, Geometry>)

  /** The state a stage leaves behind, and the error that stopped it, if any. */
  datatype Run = Run(fs: FileSystem, failure: Option<Error>)

  /** `dir / name` for a single relative component. */
  function Join(dir: string, name: string): string
  {
    dir + "/" + name
  }

  /** The names listed in `dir`, or None when `dir` does not exist. */
  function Listing(fs: FileSystem, dir: string): Option<seq<string>>
  {
    if dir !in fs.paths then None
    else if dir in fs.listings then Some(fs.listings[dir])
    else Some([])
  }

  /** `mkdir(parents=True, exist_ok=True)` of one directory. */
  function MakeDir(fs: FileSystem, dir: string): (r: FileSystem)
    ensures r.paths == fs.paths + {dir}
    ensures r.listings == fs.listings && r.texts == fs.texts && r.images == fs.images
  {
    fs.(paths := fs.paths + {dir})
  }

  /** Writing a volume with geometry `g` to `dst`, replacing whatever was there. */
  function WriteImage(fs: FileSystem, dst: string, g: Geometry): (r: FileSystem)
    ensures r.paths == fs.paths + {dst}
    ensures dst in r.images && r.images[dst] == g
    ensures forall p :: p != dst ==> (p in r.images <==> p in fs.images)
    ensures forall p :: p != dst && p in fs.images ==> r.images[p] == fs.images[p]
    ensures r.listings == fs.listings && r.texts == fs.texts
  {
    fs.(paths := fs.paths + {dst}, images := fs.images[dst := g])
  }

  /** `shutil.copy2(src, dst)`: `dst` gets the content of `src`. */
  function CopyFile(fs: FileSystem, src: string, dst: string): (r: FileSystem)
    ensures r.paths == fs.paths + {dst}
    ensures (dst in r.images <==> src in fs.images) && (src in fs.images ==> r.images[dst] == fs.images[src])
    ensures (dst in r.texts <==> src in fs.texts) && (src in fs.texts ==> r.texts[dst] == fs.texts[src])
    ensures forall p :: p != dst ==> (p in r.images <==> p in fs.images)
    ensures forall p :: p != dst && p in fs.images ==> r.images[p] == fs.images[p]
    ensures r.listings == fs.listings
  {
    fs.(paths := fs.paths + {dst},
        images := if src in fs.images then fs.images[dst := fs.images[src]] else fs.images - {dst},
        texts := if src in fs.texts then fs.texts[dst := fs.texts[src]] else fs.texts - {dst})
  }

  /** The lines of the text file at `path` (no lines when it has none). */
  function Lines(fs: FileSystem, path: string): seq<string>
  {
    if path in fs.texts then fs.texts[path] else []
  }
}
