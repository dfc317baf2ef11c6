/** What `init` caches of a snapshot. */
module CacheInit {
  import opened Wrappers
  import opened Entries
  import opened Snapshots
  import opened CacheTree

  /** Every directory on the way to a path, and the path itself, passes the filter. */
  predicate AcceptedAlong(node: Node, path: Path, rel: Path, accept: TypedPath -> bool) {
    rel == []
    || (&& node.Folder? && rel[0] in node.children
        && accept(Listed(node.children[rel[0]], path + [rel[0]]))
        && AcceptedAlong(node.children[rel[0]], path + [rel[0]], rel[1..], accept))
  }

  /** The entry of the snapshot at a relative path within a depth limit. */
  function ExpectedAt(node: Node, path: Path, depth: int, convert: Path -> Value, rel: Path): Option<Entry> {
    match NodeAt(node, rel)
    case None => None
    case Some(n) =>
      if Within(depth, |rel|) then Some(Entry(Listed(n, path + rel), convert(path + rel))) else None
  }

  lemma {:induction false} InitTreeAt(node: Node, path: Path, entry: Entry, depth: int, accept: TypedPath -> bool,
                                      convert: Path -> Value, rel: Path)
    requires WellFormed(node, path) && entry.tp.path == Abs(path) && depth <= MAX_INT && rel != []
    ensures At(InitTree(node, path, entry, depth, accept, convert), rel)
         == if AcceptedAlong(node, path, rel, accept) then ExpectedAt(node, path, depth, convert, rel) else None
    decreases |rel|
  {
    var c := InitTree(node, path, entry, depth, accept, convert);
    var n, rest := rel[0], rel[1..];
    if node.Folder? && n in node.children {
      var child := node.children[n];
      assert path + rel == path + [n] + rest;
      if |rel| == 1 {
        assert rel == [n] && rest == [] && NodeAt(node, rel) == Some(child);
        assert AcceptedAlong(child, path + [n], rest, accept);
        LeafOrBranch(node, path, entry, depth, accept, convert, n);
      } else if n in c.subs {
        var sub := Entry(Listed(child, path + [n]), convert(path + [n]));
        assert c.subs[n] == InitTree(child, path + [n], sub, SubdirectoryDepth(depth), accept, convert);
        InitTreeAt(child, path + [n], sub, SubdirectoryDepth(depth), accept, convert, rest);
      }
    }
  }

  lemma LeafOrBranch(node: Node, path: Path, entry: Entry, depth: int, accept: TypedPath -> bool,
                     convert: Path -> Value, n: Name)
    requires WellFormed(node, path) && entry.tp.path == Abs(path) && node.Folder? && n in node.children
    ensures At(InitTree(node, path, entry, depth, accept, convert), [n])
         == if depth >= 0 && accept(Listed(node.children[n], path + [n]))
            then Some(Entry(Listed(node.children[n], path + [n]), convert(path + [n]))) else None
  {
    var c := InitTree(node, path, entry, depth, accept, convert);
    assert Key(n).names[0] == n && Key(n).names == [n];
    if depth >= 0 && IsBranch(node, n, path, depth, accept) {
      assert At(c, [n]) == Some(c.subs[n].entry);
    }
  }

  /** A filter that accepts a path only together with the directories above it. */
  ghost predicate AncestorClosed(node: Node, path: Path, accept: TypedPath -> bool) {
    forall rel, i | 0 < i <= |rel| && NodeAt(node, rel).Some? && accept(Listed(NodeAt(node, rel).value, path + rel)) ::
      NodeAt(node, rel[..i]).Some? && accept(Listed(NodeAt(node, rel[..i]).value, path + rel[..i]))
  }

  lemma {:induction false} AcceptedAlongClosed(node: Node, path: Path, rel: Path, accept: TypedPath -> bool)
    requires NodeAt(node, rel).Some?
    requires forall i | 0 < i <= |rel| ::
               NodeAt(node, rel[..i]).Some? && accept(Listed(NodeAt(node, rel[..i]).value, path + rel[..i]))
    ensures AcceptedAlong(node, path, rel, accept)
    decreases |rel|
  {
    if rel != [] {
      var n, rest := rel[0], rel[1..];
      assert rel[..1] == [n] && [n][1..] == [];
      assert NodeAt(node, [n]) == Some(node.children[n]);
      forall i | 0 < i <= |rest|
        ensures NodeAt(node.children[n], rest[..i]).Some?
        ensures accept(Listed(NodeAt(node.children[n], rest[..i]).value, path + [n] + rest[..i]))
      {
        assert rel[..i + 1][1..] == rest[..i] && rel[..i + 1][0] == n;
        assert path + rel[..i + 1] == path + [n] + rest[..i];
      }
      AcceptedAlongClosed(node.children[n], path + [n], rest, accept);
    }
  }

  function Restrict(entry: Option<Entry>, accept: TypedPath -> bool): Option<Entry> {
    if entry.Some? && accept(entry.value.tp) then entry else None
  }

  /** Under an ancestor-closed filter `init` caches exactly what unfiltered `init` caches and the
      filter accepts. */
  lemma InitIsRestriction(node: Node, path: Path, entry: Entry, depth: int, accept: TypedPath -> bool,
                          convert: Path -> Value, rel: Path)
    requires WellFormed(node, path) && entry.tp.path == Abs(path) && depth <= MAX_INT && rel != []
    requires AncestorClosed(node, path, accept)
    ensures At(InitTree(node, path, entry, depth, accept, convert), rel)
         == Restrict(At(InitTree(node, path, entry, depth, AllPass, convert), rel), accept)
  {
    InitTreeAt(node, path, entry, depth, accept, convert, rel);
    InitTreeAt(node, path, entry, depth, AllPass, convert, rel);
    if NodeAt(node, rel).Some? {
      AllPassAlong(node, path, rel);
      assert rel[..|rel|] == rel;
      if accept(Listed(NodeAt(node, rel).value, path + rel)) {
        AcceptedAlongClosed(node, path, rel, accept);
      } else {
        NotAlong(node, path, rel, accept);
      }
    }
  }

  lemma {:induction false} AllPassAlong(node: Node, path: Path, rel: Path)
    requires NodeAt(node, rel).Some?
    ensures AcceptedAlong(node, path, rel, AllPass)
    decreases |rel|
  {
    if rel != [] {
      AllPassAlong(node.children[rel[0]], path + [rel[0]], rel[1..]);
    }
  }

  lemma {:induction false} NotAlong(node: Node, path: Path, rel: Path, accept: TypedPath -> bool)
    requires rel != [] && NodeAt(node, rel).Some? && !accept(Listed(NodeAt(node, rel).value, path + rel))
    ensures !AcceptedAlong(node, path, rel, accept)
    decreases |rel|
  {
    assert path + rel == path + [rel[0]] + rel[1..];
    if |rel| == 1 {
      assert rel[1..] == [] && path + rel == path + [rel[0]];
    } else {
      NotAlong(node.children[rel[0]], path + [rel[0]], rel[1..], accept);
    }
  }

  /** Without a filter `init` caches the snapshot down to the depth limit. */
  lemma InitIsSnapshot(node: Node, path: Path, entry: Entry, depth: int, convert: Path -> Value, rel: Path)
    requires WellFormed(node, path) && entry.tp.path == Abs(path) && depth <= MAX_INT && rel != []
    ensures At(InitTree(node, path, entry, depth, AllPass, convert), rel) == ExpectedAt(node, path, depth, convert, rel)
  {
    InitTreeAt(node, path, entry, depth, AllPass, convert, rel);
    if NodeAt(node, rel).Some? {
      AllPassAlong(node, path, rel);
    }
  }
}
