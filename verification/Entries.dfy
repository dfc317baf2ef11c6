/** Paths, typed paths and cache entries. */
module Entries {

  /** The largest Java int; as a depth it stands for "no limit". */
  const MAX_INT := 0x7fff_ffff

  const MIN_INT := -0x8000_0000

  predicate IsInt(x: int) {
    MIN_INT <= x <= MAX_INT
  }

  /** The Java int that an exact sum or difference wraps to. */
  function Wrap(x: int): (r: int)
    ensures IsInt(r) && (IsInt(x) ==> r == x)
  {
    (x - MIN_INT) % 0x1_0000_0000 + MIN_INT
  }

  /** One name of a path. `NoName` is the single component of the empty relative path. */
  datatype Name = NoName | Name(text: string)

  /** The names of an absolute path below the file system root, or of a relative path. */
  type Path = seq<Name>

  /** A path as it is stored in an entry: relative to its directory, or absolute. */
  datatype JPath = Rel(names: Path) | Abs(names: Path)

  /** What a path is, as the bits DIRECTORY, FILE and LINK. */
  datatype Kind = Kind(dir: bool, file: bool, link: bool)

  datatype TypedPath = TypedPath(path: JPath, present: bool, kind: Kind)

  /** What the converter computes for a path: its value, or the exception it threw. */
  type Value(==, !new)

  datatype Entry = Entry(tp: TypedPath, value: Value)

  const FILE := Kind(false, true, false)
  const DIRECTORY := Kind(true, false, false)
  const LINK := Kind(false, false, true)

  /** Links are never followed here, so a directory is a path with DIRECTORY and without LINK. */
  predicate IsDirectory(tp: TypedPath) {
    tp.kind.dir && !tp.kind.link
  }

  predicate AllPass(tp: TypedPath) {
    true
  }

  predicate EveryEntry(e: Entry) {
    true
  }

  predicate Proper(path: Path) {
    NoName !in path
  }

  /** `base.resolve(path)`: an absolute argument wins. */
  function ResolvePath(base: Path, path: JPath): Path {
    if path.Abs? then path.names else base + path.names
  }

  /** The names of `base.relativize(path)`: one empty name when the two are equal. */
  function Relativize(base: Path, path: Path): Path
    requires base <= path
  {
    if base == path then [NoName] else path[|base|..]
  }

  /** `Entries.resolve`: an absolute path, the same kind and value; the result always exists. */
  function Resolve(base: Path, e: Entry): Entry {
    Entry(TypedPath(Abs(ResolvePath(base, e.tp.path)), true, e.tp.kind), e.value)
  }

  /** `Entries.setExists`, on an entry that already has an absolute path. */
  function SetExists(e: Entry, present: bool): Entry {
    e.(tp := e.tp.(present := present))
  }

  /** The path of an entry as the key of a map of absolute paths. */
  function PathOf(e: Entry): Path {
    e.tp.path.names
  }
}
