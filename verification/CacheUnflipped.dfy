/** Trees in which no name has changed its kind: they stay free of names that are both a file and a
    directory while the events of a fixed file system are delivered. */
module CacheUnflipped {
  import opened Wrappers
  import opened Entries
  import opened Snapshots
  import opened CacheTree
  import opened CacheInvariants
  import opened CacheDeliveries

  /** No path flipped between file and directory: what is cached and still exists has kept its
      kind. Below a directory that is gone nothing is asked. */
  ghost predicate NoFlip(c: Cached, node: Node) {
    && (forall n <- c.subs :: n in Kids(node) ==> Kids(node)[n].Folder? && NoFlip(c.subs[n], Kids(node)[n]))
    && (forall k <- c.files :: k.Rel? && |k.names| == 1 && k.names[0] in Kids(node) ==>
                                 (Kids(node)[k.names[0]].Folder? <==> IsDirectory(c.files[k].tp)))
  }

  /** The directory `c` at `path` in the snapshot, with its contents apart and unflipped. */
  ghost predicate Settling(c: Cached, path: Path, node: Node, fs: Snapshot) {
    Placed(c, path, node, fs) && Clean(c) && NoFlip(c, node)
  }

  /** An unflipped tree has no stale directory. */
  lemma {:induction false} NoFlipNotStale(c: Cached, node: Node, rel: Path)
    requires NoFlip(c, node)
    ensures !Stale(c, node, rel)
    decreases |rel|
  {
    if |rel| > 1 && rel[0] in c.subs && rel[0] in Kids(node) {
      NoFlipNotStale(c.subs[rel[0]], Kids(node)[rel[0]], rel[1..]);
    } else if |rel| == 1 && rel[0] in c.subs && rel[0] in Kids(node) {
      assert rel[1..] == [] && NodeAt(node, rel) == Some(Kids(node)[rel[0]]);
    }
  }

  lemma {:induction false} InitNoFlip(node: Node, path: Path, entry: Entry, depth: int, accept: TypedPath -> bool,
                                      convert: Path -> Value)
    ensures NoFlip(InitTree(node, path, entry, depth, accept, convert), node)
    decreases node
  {
    var c := InitTree(node, path, entry, depth, accept, convert);
    forall n | n in c.subs
      ensures n in Kids(node) && Kids(node)[n].Folder? && NoFlip(c.subs[n], Kids(node)[n])
    {
      var sub := Entry(Listed(node.children[n], path + [n]), convert(path + [n]));
      assert c.subs[n] == InitTree(node.children[n], path + [n], sub, SubdirectoryDepth(depth), accept, convert);
      InitNoFlip(node.children[n], path + [n], sub, SubdirectoryDepth(depth), accept, convert);
    }
  }

  /** The rest of `NoFlip` carries over when the child `p` is unflipped afterwards. */
  lemma NoFlipChild(c: Cached, c': Cached, p: Name, node: Node)
    requires NoFlip(c, node) && OnlyChild(c, c', p)
    requires p in c'.subs && p in Kids(node) ==> Kids(node)[p].Folder? && NoFlip(c'.subs[p], Kids(node)[p])
    requires Key(p) in c'.files && p in Kids(node) ==> (Kids(node)[p].Folder? <==> IsDirectory(c'.files[Key(p)].tp))
    ensures NoFlip(c', node)
  {
    forall n | n in c'.subs && n in Kids(node)
      ensures Kids(node)[n].Folder? && NoFlip(c'.subs[n], Kids(node)[n])
    {
      if n != p {
        assert n in c'.subs - {p};
        assert c'.subs[n] == (c'.subs - {p})[n] == (c.subs - {p})[n] == c.subs[n];
      }
    }
    forall k | k in c'.files && k.Rel? && |k.names| == 1 && k.names[0] in Kids(node)
      ensures Kids(node)[k.names[0]].Folder? <==> IsDirectory(c'.files[k].tp)
    {
      assert k.names == [k.names[0]];
      if k != Key(p) {
        assert k in c'.files - {Key(p)};
        assert c'.files[k] == (c'.files - {Key(p)})[k] == (c.files - {Key(p)})[k] == c.files[k];
      }
    }
  }

  lemma AddedNoFlip(c: Cached, path: Path, node: Node, fs: Snapshot, p: Name)
    requires Settling(c, path, node, fs) && c.depth > 0 && p in Kids(node) && Kids(node)[p].Folder?
    ensures NoFlip(c.(subs := c.subs[p := Scanned(path, c.depth, Kids(node)[p], fs, p)]), node)
  {
    var child := Kids(node)[p];
    var c' := c.(subs := c.subs[p := Scanned(path, c.depth, child, fs, p)]);
    InitNoFlip(child, path + [p], Entry(Listed(child, path + [p]), fs.convert(path + [p])), SubdirectoryDepth(c.depth),
               AllPass, fs.convert);
    assert Key(p).names[0] == p;
    assert Key(p) !in c.files;
    assert OnlyChild(c, c', p);
    NoFlipChild(c, c', p, node);
  }

  lemma LeafNoFlip(c: Cached, path: Path, node: Node, fs: Snapshot, p: Name, rescan: bool)
    requires Settling(c, path, node, fs) && p in Kids(node)
    requires Kids(node)[p].Folder? ==> c.depth == 0
    ensures var c' := LeafTree(c, p, Entry(Listed(Kids(node)[p], path + [p]), fs.convert(path + [p])), rescan);
            NoFlip(c', node) && OnlyChild(c, c', p)
  {
    var entry := Entry(Listed(Kids(node)[p], path + [p]), fs.convert(path + [p]));
    var c' := LeafTree(c, p, entry, rescan);
    assert NoFlip(Cached(entry, -1, map[], map[]), Kids(node)[p]);
    if p in c.subs {
      EntryNoFlip(c.subs[p], entry, Kids(node)[p]);
    }
    LeafOnlyChild(c, p, entry, rescan);
    NoFlipChild(c, c', p, node);
  }

  lemma LastElsewhere(c: Cached, path: Path, node: Node, fs: Snapshot, p: Name, rescan: bool)
    requires Settling(c, path, node, fs) && c.depth >= 0 && p in Kids(node)
    ensures var c' := UpdateLast(c, p, Listed(Kids(node)[p], path + [p]), rescan, AllPass, fs).0;
            OnlyChild(c, c', p) && NoFlip(c', node)
            && KeepsSlotsApart(c, [p], Listed(Kids(node)[p], path + [p]), rescan, fs)
  {
    var child := Kids(node)[p];
    var tp := Listed(child, path + [p]);
    var c' := UpdateLast(c, p, tp, rescan, AllPass, fs).0;
    if !child.Folder? || c.depth == 0 {
      assert LeafEntry(c, p, tp, fs) == Entry(tp, fs.convert(path + [p]));
      LeafNoFlip(c, path, node, fs, p, rescan);
    } else if p !in c.subs || rescan {
      AddScans(c, path, node, fs, p);
      AddedNoFlip(c, path, node, fs, p);
    } else {
      InPlaceNoFlip(c, p, Entry(tp, fs.convert(path + [p])), node);
    }
  }

  lemma InPlaceNoFlip(c: Cached, p: Name, entry: Entry, node: Node)
    requires NoFlip(c, node) && p in c.subs && p in Kids(node)
    ensures var c' := c.(subs := c.subs[p := c.subs[p].(entry := entry)]);
            OnlyChild(c, c', p) && NoFlip(c', node)
  {
    var c' := c.(subs := c.subs[p := c.subs[p].(entry := entry)]);
    EntryNoFlip(c.subs[p], entry, Kids(node)[p]);
    NoFlipChild(c, c', p, node);
  }

  lemma EntryNoFlip(c: Cached, entry: Entry, node: Node)
    requires NoFlip(c, node)
    ensures NoFlip(c.(entry := entry), node)
  {
  }

  /** An update below the child `p` that leaves it unflipped. */
  lemma BelowNoFlip(c: Cached, node: Node, fs: Snapshot, parts: Path, tp: TypedPath, rescan: bool)
    requires |parts| > 1 && c.depth >= 0 && parts[0] in c.subs && parts[0] in Kids(node) && NoFlip(c, node)
    requires NoFlip(UpdateParts(c.subs[parts[0]], parts[1..], tp, rescan, AllPass, fs).0, Kids(node)[parts[0]])
    ensures NoFlip(UpdateParts(c, parts, tp, rescan, AllPass, fs).0, node)
  {
    var c' := UpdateParts(c, parts, tp, rescan, AllPass, fs).0;
    assert OnlyChild(c, c', parts[0]);
    NoFlipChild(c, c', parts[0], node);
  }

  /** `update(p)` for an existing path never flips and keeps the slots apart. */
  lemma {:induction false} DeliverKeeps(c: Cached, path: Path, node: Node, fs: Snapshot, parts: Path, rescan: bool)
    requires Settling(c, path, node, fs) && parts != [] && NodeAt(node, parts).Some?
    ensures var tp := Listed(NodeAt(node, parts).value, path + parts);
            && KeepsSlotsApart(c, parts, tp, rescan, fs)
            && NoFlip(UpdateParts(c, parts, tp, rescan, AllPass, fs).0, node)
    decreases |parts|
  {
    var p, rest := parts[0], parts[1..];
    DeliverStep(c, path, node, fs, parts);
    if c.depth >= 0 {
      if |parts| == 1 {
        assert parts == [p] && rest == [];
        LastElsewhere(c, path, node, fs, p, rescan);
      } else if p in c.subs {
        PlacedSub(c, path, node, fs, p);
        DeliverKeeps(c.subs[p], path + [p], Kids(node)[p], fs, rest, rescan);
        BelowNoFlip(c, node, fs, parts, Listed(NodeAt(node, parts).value, path + parts), rescan);
      } else if c.depth > 0 {
        AddScans(c, path, node, fs, p);
        AddedNoFlip(c, path, node, fs, p);
      }
    }
  }

  lemma {:induction false} RemovedNoFlip(c: Cached, node: Node, parts: Path)
    requires NoFlip(c, node) && parts != []
    ensures NoFlip(RemoveParts(c, parts).0, node)
    decreases |parts|
  {
    var p, c' := parts[0], RemoveParts(c, parts).0;
    if |parts| == 1 {
      NoFlipChild(c, c', p, node);
    } else if p in c.subs {
      if p in Kids(node) {
        RemovedNoFlip(c.subs[p], Kids(node)[p], parts[1..]);
      }
      RemovePartsSame(c.subs[p], parts[1..]);
      assert OnlyChild(c, c', p);
      assert Key(p) in c.files ==> Key(p).names[0] == p;
      NoFlipChild(c, c', p, node);
    }
  }

  /** One event keeps an unflipped tree unflipped, and its contents apart. */
  lemma DeliverKeepsSettling(c: Cached, path: Path, node: Node, fs: Snapshot, q: Path, rescan: bool)
    requires Settling(c, path, node, fs) && path < q
    ensures Settling(Update(c, Reading(fs, q), rescan, AllPass, fs).tree, path, node, fs)
  {
    var parts := q[|path|..];
    assert path + parts == q;
    NodeAtSplit(fs.root, path, parts);
    if NodeAt(node, parts).Some? {
      var tp := Listed(NodeAt(node, parts).value, q);
      DeliverStep(c, path, node, fs, parts);
      DeliverKeeps(c, path, node, fs, parts, rescan);
      UpdatePartsStruct(c, path, parts, tp, rescan, AllPass, fs);
    } else {
      RemovedNoFlip(c, node, parts);
      RemovePartsStruct(c, path, parts);
    }
  }
}
