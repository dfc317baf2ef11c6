/** The cache refines the direct listing. */
module CacheRefinesListing {
  import opened Wrappers
  import opened Entries
  import opened Snapshots
  import opened CacheTree
  import opened CacheInvariants
  import opened CacheListing
  import opened CacheInit
  import opened CachePut
  import View = SimpleFileTreeView

  /** How often `listImpl` reports an entry: once when it is in range and accepted, and once more,
      whatever the filter, when it is a directory of negative depth the listing descends into. */
  function Times(c: Cached, path: Path, maxDepth: int, accept: Entry -> bool, e: Entry): nat {
    One(Below(path, maxDepth + 1, PathOf(e)) && Look(c, PathOf(e)) == Some(e) && accept(e))
    + One(Look(c, PathOf(e)) == Some(e) && Unfiltered(c, path, maxDepth, PathOf(e)))
  }

  lemma {:induction false} ListCountMeans(c: Cached, path: Path, maxDepth: int, accept: Entry -> bool, e: Entry)
    requires Struct(c, path) && Clean(c) && c.depth >= 0 && maxDepth >= 0 && e.tp.path.Abs?
    ensures ListCount(c, maxDepth, accept, e) == Times(c, path, maxDepth, accept, e)
    decreases c
  {
    var q := PathOf(e);
    if path < q {
      var n := q[|path|];
      assert path + [n] <= q;
      if n in c.subs {
        assert SubOk(c, n) && Struct(c.subs[n], path + [n]);
        CountSub(c, path, n, maxDepth, accept, e);
        if maxDepth > 0 && c.subs[n].depth >= 0 {
          ListCountMeans(c.subs[n], path + [n], maxDepth - 1, accept, e);
        }
        TimesSub(c, path, n, maxDepth, accept, e);
      } else {
        CountFile(c, path, n, maxDepth, accept, e);
      }
    }
  }

  lemma TimesSub(c: Cached, path: Path, n: Name, maxDepth: int, accept: Entry -> bool, e: Entry)
    requires Struct(c, path) && Clean(c) && n in c.subs && path + [n] <= PathOf(e) && maxDepth >= 0 && c.depth >= 0
    requires e.tp.path.Abs?
    ensures Times(c, path, maxDepth, accept, e)
         == One(c.subs[n].entry == e && accept(e))
            + if maxDepth > 0 then
                if c.subs[n].depth < 0 then One(c.subs[n].entry == e)
                else Times(c.subs[n], path + [n], maxDepth - 1, accept, e)
              else 0
  {
    var q := PathOf(e);
    assert SubOk(c, n) && Struct(c.subs[n], path + [n]);
    LookStep(c, path, n, q);
    assert DirAt(c, q[|path|..]) == DirAt(c.subs[n], q[|path + [n]|..]);
    if q == path + [n] {
      assert q[|path| + 1..] == [];
    }
  }

  lemma CountFile(c: Cached, path: Path, n: Name, maxDepth: int, accept: Entry -> bool, e: Entry)
    requires Struct(c, path) && Clean(c) && n !in c.subs && path + [n] <= PathOf(e) && maxDepth >= 0 && c.depth >= 0
    ensures ListCount(c, maxDepth, accept, e) == Times(c, path, maxDepth, accept, e)
  {
    var q := PathOf(e);
    assert Abs(path + [n]) !in c.files;
    assert q[|path|] == n && q[|path|..][0] == n && (|q| == |path| + 1 ==> q == path + [n]);
    if Key(n) in c.files {
      assert FileOk(c, path, Key(n));
      FileHere(c, path, n);
    }
  }

  lemma FileHere(c: Cached, path: Path, n: Name)
    requires Struct(c, path) && Key(n) in c.files
    ensures PathOf(Resolve(path, c.files[Key(n)])) == path + [n]
  {
    assert FileOk(c, path, Key(n));
  }

  lemma CountSub(c: Cached, path: Path, n: Name, maxDepth: int, accept: Entry -> bool, e: Entry)
    requires Struct(c, path) && Clean(c) && n in c.subs && path + [n] <= PathOf(e) && maxDepth >= 0 && c.depth >= 0
    ensures ListCount(c, maxDepth, accept, e)
         == One(c.subs[n].entry == e && accept(e))
            + if maxDepth > 0 then ListCount(c.subs[n], maxDepth - 1, accept, e) else 0
  {
    assert SubOk(c, n) && Struct(c.subs[n], path + [n]);
    assert PathOf(e)[|path|] == n && Abs(path + [n]) !in c.files;
    assert Resolve(path, c.subs[n].entry) == c.subs[n].entry;
  }

  /** A scan makes no directory of negative depth. */
  lemma {:induction false} ScanDepths(node: Node, path: Path, entry: Entry, depth: int, accept: TypedPath -> bool,
                                      convert: Path -> Value, rel: Path)
    requires depth >= 0
    ensures var dir := DirAt(InitTree(node, path, entry, depth, accept, convert), rel);
            dir.Some? ==> dir.value.depth >= 0
    decreases |rel|
  {
    var c := InitTree(node, path, entry, depth, accept, convert);
    if rel != [] && rel[0] in c.subs {
      var n := rel[0];
      var sub := Entry(Listed(node.children[n], path + [n]), convert(path + [n]));
      assert c.subs[n] == InitTree(node.children[n], path + [n], sub, SubdirectoryDepth(depth), accept, convert);
      ScanDepths(node.children[n], path + [n], sub, SubdirectoryDepth(depth), accept, convert, rel[1..]);
    }
  }

  /** The typed paths of a list of entries. */
  function Paths(entries: seq<Entry>): seq<TypedPath> {
    seq(|entries|, i requires 0 <= i < |entries| => entries[i].tp)
  }

  /** When one typed path can only belong to one entry, it occurs as often as that entry. */
  lemma {:induction false} PathsCount(entries: seq<Entry>, t: TypedPath, e: Entry)
    requires e.tp == t && forall e' <- entries :: e'.tp == t ==> e' == e
    ensures multiset(Paths(entries))[t] == multiset(entries)[e]
    decreases |entries|
  {
    if entries != [] {
      var k := |entries| - 1;
      assert entries == entries[..k] + [entries[k]];
      assert Paths(entries) == Paths(entries[..k]) + [entries[k].tp];
      PathsCount(entries[..k], t, e);
    }
  }

  /** After `init` at depth d >= 0, `list(root, m, f)` for m >= 0 reports every typed path exactly
      as often as listing the file system directly to depth min(m, d) does, for every filter;
      although the one stops counting at MAX_INT and the other does not. */
  lemma ListRefinesDirect(node: Node, path: Path, entry: Entry, depth: int, convert: Path -> Value, maxDepth: int,
                          filter: TypedPath -> bool, entries: seq<Entry>, t: TypedPath)
    requires WellFormed(node, path) && entry.tp.path == Abs(path) && entry.tp.present
    requires 0 <= depth <= MAX_INT && 0 <= maxDepth <= MAX_INT
    requires forall e :: multiset(entries)[e] ==
                         ListCount(InitTree(node, path, entry, depth, AllPass, convert), maxDepth,
                                   (x: Entry) => filter(x.tp), e)
    requires forall e <- entries :: e.tp.path.Abs?
    ensures multiset(Paths(entries))[t] == View.DirectCount(node, path, Min(maxDepth, depth), filter, t)
  {
    var c := InitTree(node, path, entry, depth, AllPass, convert);
    var accept := (x: Entry) => filter(x.tp);
    InitTreeStruct(node, path, entry, depth, AllPass, convert);
    var e := Entry(t, convert(t.path.names));
    forall e' | e' in entries && e'.tp == t
      ensures e' == e
    {
      assert multiset(entries)[e'] > 0;
      ListedOnce(node, path, entry, depth, convert, maxDepth, filter, e');
    }
    PathsCount(entries, t, e);
    View.DirectCountMeans(node, path, Min(maxDepth, depth), filter, t);
    if t.path.Abs? {
      ListedOnce(node, path, entry, depth, convert, maxDepth, filter, e);
      if path < t.path.names && NodeAt(node, t.path.names[|path|..]).Some? {
        RelBound(node, path, t.path.names[|path|..]);
      }
    } else {
      assert e !in entries;
    }
  }

  /** So the two listings are the same multiset of typed paths. */
  lemma CacheEqualsDirect(node: Node, path: Path, entry: Entry, depth: int, convert: Path -> Value, maxDepth: int,
                          filter: TypedPath -> bool, entries: seq<Entry>, direct: seq<TypedPath>)
    requires WellFormed(node, path) && entry.tp.path == Abs(path) && entry.tp.present
    requires 0 <= depth <= MAX_INT && 0 <= maxDepth <= MAX_INT
    requires forall e :: multiset(entries)[e] ==
                         ListCount(InitTree(node, path, entry, depth, AllPass, convert), maxDepth,
                                   (x: Entry) => filter(x.tp), e)
    requires forall e <- entries :: e.tp.path.Abs?
    requires forall t :: multiset(direct)[t] == View.DirectCount(node, path, Min(maxDepth, depth), filter, t)
    ensures multiset(Paths(entries)) == multiset(direct)
  {
    forall t
      ensures multiset(Paths(entries))[t] == multiset(direct)[t]
    {
      ListRefinesDirect(node, path, entry, depth, convert, maxDepth, filter, entries, t);
    }
  }

  lemma {:induction false} RelBound(node: Node, path: Path, rel: Path)
    requires WellFormed(node, path) && NodeAt(node, rel).Some?
    ensures |path| + |rel| <= MAX_INT
  {
    WellFormedAt(node, path, rel);
  }

  /** What a listing of a fresh scan reports of one entry. */
  lemma ListedOnce(node: Node, path: Path, entry: Entry, depth: int, convert: Path -> Value, maxDepth: int,
                   filter: TypedPath -> bool, e: Entry)
    requires WellFormed(node, path) && entry.tp.path == Abs(path) && entry.tp.present
    requires 0 <= depth <= MAX_INT && 0 <= maxDepth <= MAX_INT && e.tp.path.Abs?
    ensures var q := PathOf(e);
            ListCount(InitTree(node, path, entry, depth, AllPass, convert), maxDepth, (x: Entry) => filter(x.tp), e)
            == One(Below(path, maxDepth + 1, q) && Within(depth, |q| - |path|) && NodeAt(node, q[|path|..]).Some?
                   && e == Entry(Listed(NodeAt(node, q[|path|..]).value, q), convert(q)) && filter(e.tp))
  {
    var c, q := InitTree(node, path, entry, depth, AllPass, convert), PathOf(e);
    InitTreeStruct(node, path, entry, depth, AllPass, convert);
    ListCountMeans(c, path, maxDepth, (x: Entry) => filter(x.tp), e);
    assert Times(c, path, maxDepth, (x: Entry) => filter(x.tp), e)
        == One(Below(path, maxDepth + 1, q) && Look(c, q) == Some(e) && filter(e.tp))
           + One(Look(c, q) == Some(e) && Unfiltered(c, path, maxDepth, q));
    if path < q {
      ScanDepths(node, path, entry, depth, AllPass, convert, q[|path|..]);
      InitIsSnapshot(node, path, entry, depth, convert, q[|path|..]);
      assert path + q[|path|..] == q;
    }
  }
}
