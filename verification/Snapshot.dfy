/** The file system, held fixed during one call. */
module Snapshots {
  import opened Wrappers
  import opened Entries

  /** A file, a symbolic link (to a directory or not) or a directory with its children.
      A directory that cannot be read fails to list. */
  datatype Node = File | Link(toDirectory: bool) | Folder(children: map<Name, Node>, readable: bool)

  /** The tree below the file system root, and the converter as a function of the path. */
  datatype Snapshot = Snapshot(root: Node, convert: Path -> Value)

  /** Why listing one directory fails. */
  datatype ListError = NoSuchFile | NotDirectory | AccessDenied

  datatype Listing = Children(children: map<Name, Node>) | Failed(error: ListError)

  function NodeAt(node: Node, rel: Path): Option<Node> {
    if rel == [] then Some(node)
    else if node.Folder? && rel[0] in node.children then NodeAt(node.children[rel[0]], rel[1..])
    else None
  }

  /** What listing `path` to depth 0 finds. */
  function ListDirectory(fs: Snapshot, path: Path): Listing {
    match NodeAt(fs.root, path)
    case None => Failed(NoSuchFile)
    case Some(Folder(children, readable)) => if readable then Children(children) else Failed(AccessDenied)
    case Some(_) => Failed(NotDirectory)
  }

  /** The kind a directory lister reports when it does not follow links. */
  function ListedKind(node: Node): Kind {
    match node
    case File => FILE
    case Link(_) => LINK
    case Folder(_, _) => DIRECTORY
  }

  /** `TypedPaths.get(path)`: reads the attributes of the path, and looks through a link. */
  function Stat(fs: Snapshot, path: Path): TypedPath {
    match NodeAt(fs.root, path)
    case None => TypedPath(Abs(path), false, Kind(false, false, false))
    case Some(Link(toDirectory)) => TypedPath(Abs(path), true, Kind(toDirectory, !toDirectory, true))
    case Some(node) => TypedPath(Abs(path), true, ListedKind(node))
  }

  /** The bits of a link are LINK and those of what it leads to; every other path has one bit. */
  lemma StatKind(fs: Snapshot, path: Path)
    ensures var tp, node := Stat(fs, path), NodeAt(fs.root, path);
            && tp.path == Abs(path) && (tp.present <==> node.Some?)
            && (tp.kind.link <==> node.Some? && node.value.Link?)
            && (tp.kind.dir <==> node.Some? && (node.value.Folder? || node.value == Link(true)))
            && (tp.kind.file <==> node.Some? && (node.value.File? || node.value == Link(false)))
  {
  }

  /** The typed path that a listing or an event reports for an existing path. */
  function Listed(node: Node, path: Path): TypedPath {
    TypedPath(Abs(path), true, ListedKind(node))
  }

  /** No empty names, no visible children below an unreadable directory,
      and no path with more names than an int can count. */
  ghost predicate WellFormed(node: Node, path: Path) {
    && |path| <= MAX_INT
    && (node.Folder? ==>
          && NoName !in node.children
          && (!node.readable ==> node.children == map[])
          && forall n <- node.children :: WellFormed(node.children[n], path + [n]))
  }

  lemma {:induction false} NodeAtSplit(node: Node, a: Path, b: Path)
    requires NodeAt(node, a).Some?
    ensures NodeAt(node, a + b) == NodeAt(NodeAt(node, a).value, b)
  {
    if a == [] {
      assert a + b == b;
    } else {
      NodeAtSplit(node.children[a[0]], a[1..], b);
      assert (a + b)[1..] == a[1..] + b;
    }
  }

  lemma {:induction false} WellFormedAt(node: Node, path: Path, rel: Path)
    requires WellFormed(node, path)
    requires NodeAt(node, rel).Some?
    ensures WellFormed(NodeAt(node, rel).value, path + rel)
  {
    if rel == [] {
      assert path + rel == path;
    } else {
      WellFormedAt(node.children[rel[0]], path + [rel[0]], rel[1..]);
      assert path + [rel[0]] + rel[1..] == path + rel;
    }
  }
}
