/** The cached directory tree as a value: what each operation of the class `CachedDirectory`
    computes. The modules beside this one prove what the operations are for. */
module CacheTree {
  import opened Wrappers
  import opened Entries
  import opened Snapshots

  /** One cached directory: its own entry, its depth limit, the entries it keeps as files
      (keyed by a relative name) and the cached directories below it. */
  datatype Cached = Cached(entry: Entry, depth: int, files: map<JPath, Entry>, subs: map<Name, Cached>)

  /** The events of one update, as sets: the order within a list follows a hash map. */
  datatype Changes = Changes(creations: set<Entry>, updates: set<(Entry, Entry)>, deletions: set<Entry>)

  const NOTHING := Changes({}, {}, {})

  /** `subdirectoryDepth`, saturating at MAX_INT. */
  function SubdirectoryDepth(depth: int): int {
    if depth == MAX_INT then depth else if depth > 0 then depth - 1 else 0
  }

  /** Whether a path that many levels below a directory of this depth is cached. */
  predicate Within(depth: int, levels: int) {
    depth == MAX_INT || levels <= depth + 1
  }

  function Key(n: Name): JPath {
    Rel([n])
  }

  // ----- looking paths up

  /** The cached entry at a path relative to `c`, resolved. */
  function At(c: Cached, rel: Path): Option<Entry> {
    if rel == [] then Some(c.entry)
    else if rel[0] in c.subs then At(c.subs[rel[0]], rel[1..])
    else if |rel| == 1 && Key(rel[0]) in c.files then Some(Resolve(PathOf(c.entry), c.files[Key(rel[0])]))
    else None
  }

  /** The cached entry at an absolute path. */
  function Look(c: Cached, q: Path): Option<Entry> {
    if PathOf(c.entry) <= q then At(c, q[|PathOf(c.entry)|..]) else None
  }

  /** The paths cached below `c`, relative to it. */
  function Rels(c: Cached): set<Path> {
    {[]}
    + (set k | k in c.files && k.Rel? && |k.names| == 1 :: k.names)
    + (set n, r | n in c.subs && r in Rels(c.subs[n]) :: [n] + r)
  }

  /** The cache as a map from absolute path to entry. */
  function Flat(c: Cached): map<Path, Entry> {
    var paths := set r | r in Rels(c) :: PathOf(c.entry) + r;
    map q | q in paths && Look(c, q).Some? :: Look(c, q).value
  }

  // ----- listing

  /** What `listImpl` adds to its result: a directory of negative depth, or one reached with a
      negative depth argument, reports its own entry and does not consult the filter. */
  function ListSet(c: Cached, maxDepth: int, accept: Entry -> bool): set<Entry>
    decreases c, 1
  {
    if c.depth < 0 || maxDepth < 0 then {c.entry}
    else
      (set k | k in c.files && accept(Resolve(PathOf(c.entry), c.files[k])) :: Resolve(PathOf(c.entry), c.files[k]))
      + (set n | n in c.subs && accept(Resolve(PathOf(c.entry), c.subs[n].entry))
             :: Resolve(PathOf(c.entry), c.subs[n].entry))
      + (if maxDepth > 0 then ListBelow(c, maxDepth - 1, accept) else {})
  }

  function ListBelow(c: Cached, maxDepth: int, accept: Entry -> bool): set<Entry>
    decreases c, 0
  {
    set n, e | n in c.subs && e in ListSet(c.subs[n], maxDepth, accept) :: e
  }

  /** Every entry of the cache: its own and all it lists. */
  function AllEntries(c: Cached): set<Entry> {
    {c.entry} + ListSet(c, MAX_INT, EveryEntry)
  }

  // ----- init

  /** `init`: scans the snapshot. A child that fails to list still exists and stays empty. */
  function InitTree(node: Node, path: Path, entry: Entry, depth: int, accept: TypedPath -> bool,
                    convert: Path -> Value): Cached
    decreases node
  {
    if depth < 0 || !node.Folder? || !node.readable then Cached(entry, depth, map[], map[])
    else
      Cached(
        entry, depth,
        map k | k in KeysOf(node.children) && IsLeaf(node, k.names[0], path, depth, accept)
          :: Entry(TypedPath(k, true, ListedKind(node.children[k.names[0]])), convert(path + k.names)),
        map n | n in node.children && IsBranch(node, n, path, depth, accept)
          :: InitTree(node.children[n], path + [n], Entry(Listed(node.children[n], path + [n]), convert(path + [n])),
                      SubdirectoryDepth(depth), accept, convert))
  }

  /** What a scan stores for the child directory `n`. */
  function BranchOf(node: Node, path: Path, n: Name, depth: int, accept: TypedPath -> bool, convert: Path -> Value)
    : Cached
    requires node.Folder? && n in node.children
  {
    InitTree(node.children[n], path + [n], Entry(Listed(node.children[n], path + [n]), convert(path + [n])),
             SubdirectoryDepth(depth), accept, convert)
  }

  function KeysOf(children: map<Name, Node>): (keys: set<JPath>)
    ensures forall k <- keys :: k.Rel? && |k.names| == 1 && k.names[0] in children
    ensures forall n <- children :: Key(n) in keys
  {
    set n | n in children :: Key(n)
  }

  predicate IsLeaf(node: Node, n: Name, path: Path, depth: int, accept: TypedPath -> bool)
    requires node.Folder? && n in node.children
  {
    accept(Listed(node.children[n], path + [n])) && !(node.children[n].Folder? && depth > 0)
  }

  predicate IsBranch(node: Node, n: Name, path: Path, depth: int, accept: TypedPath -> bool)
    requires node.Folder? && n in node.children
  {
    accept(Listed(node.children[n], path + [n])) && node.children[n].Folder? && depth > 0
  }

  /** The tree `init` leaves in a directory with this entry and depth. */
  function InitAt(fs: Snapshot, entry: Entry, depth: int, accept: TypedPath -> bool): Cached {
    match NodeAt(fs.root, PathOf(entry))
    case Some(node) => InitTree(node, PathOf(entry), entry, depth, accept, fs.convert)
    case None => Cached(entry, depth, map[], map[])
  }

  // ----- remove

  function RemoveChild(c: Cached, p: Name): Cached {
    c.(files := c.files - {Key(p)}, subs := c.subs - {p})
  }

  /** What `removeImpl` returns at the last name: the file entry, then the directory's entries. */
  function RemovedChild(c: Cached, p: Name): set<Entry> {
    (if Key(p) in c.files then {SetExists(Resolve(PathOf(c.entry), c.files[Key(p)]), false)} else {})
    + (if p in c.subs then set e | e in AllEntries(c.subs[p]) :: SetExists(e, false) else {})
  }

  function RemoveParts(c: Cached, parts: Path): (Cached, set<Entry>)
    requires parts != []
    decreases |parts|
  {
    if |parts| == 1 then (RemoveChild(c, parts[0]), RemovedChild(c, parts[0]))
    else if parts[0] in c.subs then
      var (sub, removed) := RemoveParts(c.subs[parts[0]], parts[1..]);
      (c.(subs := c.subs[parts[0] := sub]), removed)
    else (c, {})
  }

  /** `remove`: relativizing the directory's own path gives one empty name, which removes nothing. */
  function Remove(c: Cached, path: Path): (Cached, set<Entry>) {
    if PathOf(c.entry) <= path then RemoveParts(c, Relativize(PathOf(c.entry), path)) else (c, {})
  }

  // ----- update

  /** `MapOps.diffDirectoryEntries`. */
  function Diff(before: map<Path, Entry>, after: map<Path, Entry>): Changes {
    Changes(
      set q | q in after && q !in before :: after[q],
      set q | q in after && q in before :: (before[q], after[q]),
      set q | q in before && q !in after :: before[q])
  }

  /** `addDirectory` for the child `p` of `c`. */
  function AddDirectory(c: Cached, p: Name, tp: TypedPath, accept: TypedPath -> bool, fs: Snapshot): (Cached, Changes) {
    var entry := Entry(tp, fs.convert(tp.path.names));
    if !IsDirectory(tp) then
      var stray := c.(files := c.files[tp.path := entry]);
      (RemoveChild(stray, p), Changes({}, {}, RemovedChild(stray, p)))
    else if ListDirectory(fs, tp.path.names) == Failed(NoSuchFile) then
      (RemoveChild(c, p), Changes({}, {}, RemovedChild(c, p)))
    else
      var dir := InitAt(fs, entry, SubdirectoryDepth(c.depth), accept);
      (c.(subs := c.subs[p := dir]), Diff(if p in c.subs then Flat(c.subs[p]) else map[], Flat(dir)))
  }

  /** The entry `updateImpl` stores at the last name. */
  function LeafEntry(c: Cached, p: Name, tp: TypedPath, fs: Snapshot): Entry {
    var path := PathOf(c.entry) + [p];
    Entry(TypedPath(Abs(path), tp.present, tp.kind), fs.convert(path))
  }

  /** Where `updateImpl` stores it, for a path that is no directory or lies at the depth limit. */
  function LeafTree(c: Cached, p: Name, entry: Entry, rescan: bool): Cached {
    if !IsDirectory(entry.tp) then c.(files := c.files[Key(p) := entry])
    else if p !in c.subs || rescan then
      c.(files := c.files - {Key(p)}, subs := c.subs[p := Cached(entry, -1, map[], map[])])
    else c.(files := c.files - {Key(p)}, subs := c.subs[p := c.subs[p].(entry := entry)])
  }

  /** The events of that step; a directory updated in place is reported twice. */
  function LeafChanges(c: Cached, p: Name, entry: Entry, rescan: bool): Changes {
    var base := PathOf(c.entry);
    var previous := if IsDirectory(entry.tp) && p in c.subs then Some(c.subs[p].entry) else None;
    var before := if Key(p) in c.files then Some(Resolve(base, c.files[Key(p)]))
                  else if previous.Some? then Some(Resolve(base, previous.value)) else None;
    var inPlace := if previous.Some? && !rescan then {(previous.value, entry)} else {};
    if before.None? then Changes({Resolve(base, entry)}, inPlace, {})
    else Changes({}, inPlace + {(before.value, Resolve(base, entry))}, {})
  }

  function UpdateLeaf(c: Cached, p: Name, tp: TypedPath, rescan: bool, fs: Snapshot): (Cached, Changes) {
    var entry := LeafEntry(c, p, tp, fs);
    (LeafTree(c, p, entry, rescan), LeafChanges(c, p, entry, rescan))
  }

  /** `updateImpl` at the last name. */
  function UpdateLast(c: Cached, p: Name, tp: TypedPath, rescan: bool, accept: TypedPath -> bool,
                      fs: Snapshot): (Cached, Changes) {
    if !IsDirectory(tp) || c.depth <= 0 then UpdateLeaf(c, p, tp, rescan, fs)
    else if p !in c.subs || rescan then AddDirectory(c, p, tp, accept, fs)
    else
      var entry := Entry(tp, fs.convert(tp.path.names));
      (c.(subs := c.subs[p := c.subs[p].(entry := entry)]), Changes({}, {(c.subs[p].entry, entry)}, {}))
  }

  /** `updateImpl` below the root: walks down the names, and stops at the depth limit or at the
      first missing directory, which it adds. */
  function UpdateParts(c: Cached, parts: Path, tp: TypedPath, rescan: bool, accept: TypedPath -> bool,
                       fs: Snapshot): (Cached, Changes)
    requires parts != []
    decreases |parts|
  {
    var p := parts[0];
    if c.depth < 0 || p == NoName then (c, NOTHING)
    else if |parts| == 1 then UpdateLast(c, p, tp, rescan, accept, fs)
    else if p in c.subs then
      var (sub, u) := UpdateParts(c.subs[p], parts[1..], tp, rescan, accept, fs);
      (c.(subs := c.subs[p := sub]), u)
    else if c.depth > 0 then AddDirectory(c, p, Stat(fs, PathOf(c.entry) + [p]), accept, fs)
    else (c, NOTHING)
  }

  /** What `listEntries(getMaxDepth(), AllPass)` of the directory itself holds, by path. */
  function ListedMap(c: Cached): map<Path, Entry> {
    if !c.entry.tp.present then map[]
    else map q | q in Flat(c) && (c.depth >= 0 ==> q != PathOf(c.entry)) :: Flat(c)[q]
  }

  datatype UpdateResult = Updated(tree: Cached, changes: Changes) | Threw(tree: Cached, error: ListError)

  /** `updateImpl` on the directory itself. A rescan that cannot list it leaves it empty. */
  function UpdateRoot(c: Cached, tp: TypedPath, rescan: bool, accept: TypedPath -> bool, fs: Snapshot): UpdateResult {
    if tp.kind.dir && rescan then
      var c' := InitAt(fs, c.entry, c.depth, accept);
      var listing := ListDirectory(fs, PathOf(c.entry));
      if c.depth >= 0 && listing.Failed? then Threw(c', listing.error)
      else Updated(c', Diff(ListedMap(c), ListedMap(c')))
    else
      var entry := Entry(tp, fs.convert(PathOf(c.entry)));
      Updated(c.(entry := entry), Changes({}, {(c.entry, entry)}, {}))
  }

  /** `update`, for a path at or below the directory. */
  function Update(c: Cached, tp: TypedPath, rescan: bool, accept: TypedPath -> bool, fs: Snapshot): UpdateResult
    requires PathOf(c.entry) <= tp.path.names
  {
    var path := PathOf(c.entry);
    if !accept(tp) then Updated(c, NOTHING)
    else if !tp.present then
      var (c', removed) := Remove(c, tp.path.names);
      Updated(c', Changes({}, {}, removed))
    else if path == tp.path.names then UpdateRoot(c, tp, rescan, accept, fs)
    else
      var (c', changes) := UpdateParts(c, Relativize(path, tp.path.names), tp, rescan, accept, fs);
      Updated(c', changes)
  }
}
