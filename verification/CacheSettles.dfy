/** Settling: once the file system stays fixed and every path that differs has been delivered, the
    cache finds what the file system holds, up to the directories that have become something else. */
module CacheSettles {
  import opened Entries
  import opened Snapshots
  import opened CacheTree
  import opened CacheInvariants
  import opened CacheListing
  import opened CacheDeliveries

  /** `update` delivered for one path after the other, each with its rescan flag. */
  function Deliver(c: Cached, fs: Snapshot, events: seq<(Path, bool)>): Cached
    requires c.entry.tp.path.Abs? && forall i | 0 <= i < |events| :: PathOf(c.entry) <= events[i].0
    decreases |events|
  {
    if events == [] then c
    else
      UpdateSameEntry(c, fs, events[0].0, events[0].1);
      Deliver(Update(c, Reading(fs, events[0].0), events[0].1, AllPass, fs).tree, fs, events[1..])
  }

  predicate IsDelivered(path: Path, events: seq<(Path, bool)>, rel: Path) {
    exists i :: 0 <= i < |events| && events[i].0 == path + rel
  }

  /** An event refreshes all below a path strictly above `rel`. */
  predicate RefreshedAbove(path: Path, node: Node, events: seq<(Path, bool)>, rel: Path) {
    exists i :: 0 <= i < |events| && RefreshesAt(path, node, events[i], rel)
  }

  predicate RefreshesAt(path: Path, node: Node, event: (Path, bool), rel: Path) {
    path <= event.0 && Refreshes(node, event.0[|path|..], event.1, rel)
  }

  /** An event gives the directory its own entry. */
  predicate OwnDelivered(path: Path, node: Node, events: seq<(Path, bool)>) {
    exists i :: 0 <= i < |events| && Renews(node, path, events[i].0, events[i].1)
  }

  /** What a sequence of deliveries has to supply: every path that is wrong, but for the stale ones, or a path
      above it that is gone or rescanned. */
  ghost predicate DeliversAll(c: Cached, path: Path, node: Node, fs: Snapshot, events: seq<(Path, bool)>) {
    && (forall i | 0 <= i < |events| :: path <= events[i].0)
    && (forall rel | rel != [] :: Accounted(c, path, node, fs, events, rel))
  }

  ghost predicate Accounted(c: Cached, path: Path, node: Node, fs: Snapshot, events: seq<(Path, bool)>, rel: Path) {
    || Right(c, node, path, fs.convert, rel) || Stale(c, node, rel)
    || IsDelivered(path, events, rel) || RefreshedAbove(path, node, events, rel)
  }

  /** The first event and the rest of them. */
  lemma EventsSplit(path: Path, node: Node, events: seq<(Path, bool)>, rel: Path)
    requires events != [] && path <= events[0].0
    ensures IsDelivered(path, events, rel) <==>
            events[0].0[|path|..] == rel || IsDelivered(path, events[1..], rel)
    ensures RefreshedAbove(path, node, events, rel) <==>
            Refreshes(node, events[0].0[|path|..], events[0].1, rel) || RefreshedAbove(path, node, events[1..], rel)
    ensures OwnDelivered(path, node, events) <==>
            Renews(node, path, events[0].0, events[0].1) || OwnDelivered(path, node, events[1..])
  {
    var rest, parts := events[1..], events[0].0[|path|..];
    assert events[0].0 == path + parts;
    assert path + rel == path + parts <==> rel == parts by {
      PrefixCancel(path, parts, rel);
      PrefixCancel(path, rel, parts);
    }
    forall i | 0 <= i < |rest|
      ensures rest[i] == events[i + 1]
    {
    }
    if i :| 1 <= i < |events| && events[i].0 == path + rel { assert rest[i - 1] == events[i]; }
    if i :| 1 <= i < |events| && RefreshesAt(path, node, events[i], rel) { assert rest[i - 1] == events[i]; }
    if i :| 1 <= i < |events| && Renews(node, path, events[i].0, events[i].1) { assert rest[i - 1] == events[i]; }
  }

  /** One event leaves a path accounted for by the rest of the events. */
  lemma StillAccounted(c: Cached, c': Cached, path: Path, node: Node, fs: Snapshot, events: seq<(Path, bool)>,
                       rel: Path)
    requires events != [] && path <= events[0].0 && rel != []
    requires Outcome(c, c', path, node, fs.convert, events[0].0[|path|..], events[0].1, rel)
    requires Accounted(c, path, node, fs, events, rel)
    ensures Accounted(c', path, node, fs, events[1..], rel)
  {
    EventsSplit(path, node, events, rel);
  }

  /** What has flipped and the first event refreshes stays so. */
  lemma FlippedOnce(c: Cached, c': Cached, path: Path, node: Node, fs: Snapshot, events: seq<(Path, bool)>, rel: Path)
    requires events != [] && path <= events[0].0 && rel != []
    requires Outcome(c, c', path, node, fs.convert, events[0].0[|path|..], events[0].1, rel)
    ensures Stale(c, node, rel) && !RefreshedAbove(path, node, events, rel)
       <==> Stale(c', node, rel) && !RefreshedAbove(path, node, events[1..], rel)
    ensures FileOver(c, node, rel) && !RefreshedAbove(path, node, events, rel)
       <==> FileOver(c', node, rel) && !RefreshedAbove(path, node, events[1..], rel)
  {
    EventsSplit(path, node, events, rel);
  }

  /** How a path ends: right, but for a directory that has become something else and is not rescanned from
      above; beside it stays the file entry of what has become a directory, on the same condition. (What has
      flipped exists, and so does all above it: for it to be refreshed means to be rescanned.) */
  ghost predicate Ends(c: Cached, c': Cached, path: Path, node: Node, fs: Snapshot, events: seq<(Path, bool)>,
                       rel: Path)
  {
    && (Right(c', node, path, fs.convert, rel) <==> !Stale(c, node, rel) || RefreshedAbove(path, node, events, rel))
    && (Stale(c', node, rel) <==> Stale(c, node, rel) && !RefreshedAbove(path, node, events, rel))
    && (FileOver(c', node, rel) <==> FileOver(c, node, rel) && !RefreshedAbove(path, node, events, rel))
  }

  /** Deliver every path that differs, or a path above it that is gone or rescanned, in any order, and perhaps
      other paths too. A path ends right if and only if it is not a directory that has become something
      else, or a path strictly above it is rescanned. The directory's own entry ends as the snapshot has
      it when an event for the directory itself does not rescan it, and is left alone otherwise. */
  lemma {:induction false} Settles(c: Cached, path: Path, node: Node, fs: Snapshot, events: seq<(Path, bool)>)
    requires Placed(c, path, node, fs) && DeliversAll(c, path, node, fs, events)
    ensures var c' := Deliver(c, fs, events);
            && Placed(c', path, node, fs) && c'.depth == c.depth
            && (c.entry.tp.present ==> c'.entry.tp.present)
            && c'.entry == (if OwnDelivered(path, node, events) then OwnEntry(node, path, fs) else c.entry)
            && forall rel | rel != [] :: Ends(c, c', path, node, fs, events, rel)
    decreases |events|
  {
    if events == [] {
      forall rel | rel != []
        ensures Ends(c, c, path, node, fs, events, rel)
      {
        assert Accounted(c, path, node, fs, events, rel);
        if Stale(c, node, rel) { StaleWrong(c, path, node, fs.convert, rel); }
      }
    } else {
      var (q, rescan) := events[0];
      DeliverOne(c, path, node, fs, q, rescan);
      var c1 := Update(c, Reading(fs, q), rescan, AllPass, fs).tree;
      forall rel | rel != []
        ensures Accounted(c1, path, node, fs, events[1..], rel)
      {
        assert Accounted(c, path, node, fs, events, rel);
        assert Outcome(c, c1, path, node, fs.convert, q[|path|..], rescan, rel);
        StillAccounted(c, c1, path, node, fs, events, rel);
      }
      Settles(c1, path, node, fs, events[1..]);
      EventsSplit(path, node, events, []);
      forall rel | rel != []
        ensures Ends(c, Deliver(c, fs, events), path, node, fs, events, rel)
      {
        assert Outcome(c, c1, path, node, fs.convert, q[|path|..], rescan, rel);
        assert Ends(c1, Deliver(c, fs, events), path, node, fs, events[1..], rel);
        FlippedOnce(c, c1, path, node, fs, events, rel);
      }
    }
  }

  /** Every stale directory lies strictly below a path that is delivered with a rescan. */
  ghost predicate StaleRescanned(c: Cached, path: Path, node: Node, events: seq<(Path, bool)>) {
    forall rel | Stale(c, node, rel) :: RefreshedAbove(path, node, events, rel)
  }

  /** So `find` ends with what it finds after a fresh scan, at every path, the directory's own included, if and
      only if every stale directory is rescanned from above and the own entry is right or delivered. */
  lemma SettlesToScan(c: Cached, path: Path, node: Node, fs: Snapshot, events: seq<(Path, bool)>)
    requires Placed(c, path, node, fs) && DeliversAll(c, path, node, fs, events)
    ensures Flat(Deliver(c, fs, events)) == Flat(InitAt(fs, OwnEntry(node, path, fs), c.depth, AllPass))
       <==> StaleRescanned(c, path, node, events) && OwnRight(c, path, node, fs, events)
  {
    Settles(c, path, node, fs, events);
    var c' := Deliver(c, fs, events);
    SameAsScan(c', path, node, fs);
    if StaleRescanned(c, path, node, events) {
      forall rel | rel != []
        ensures Right(c', node, path, fs.convert, rel)
      {
        assert Ends(c, c', path, node, fs, events, rel);
      }
    }
    if AllRight(c', node, path, fs.convert) {
      forall rel | Stale(c, node, rel)
        ensures RefreshedAbove(path, node, events, rel)
      {
        assert Right(c', node, path, fs.convert, rel) && Ends(c, c', path, node, fs, events, rel);
      }
    }
  }

  /** The own entry is right from the start, or delivered. */
  ghost predicate OwnRight(c: Cached, path: Path, node: Node, fs: Snapshot, events: seq<(Path, bool)>) {
    c.entry == OwnEntry(node, path, fs) || OwnDelivered(path, node, events)
  }

  /** A tree holds what a fresh scan holds if and only if every path is right, its own included. */
  lemma SameAsScan(c: Cached, path: Path, node: Node, fs: Snapshot)
    requires Placed(c, path, node, fs)
    ensures Flat(c) == Flat(InitAt(fs, OwnEntry(node, path, fs), c.depth, AllPass))
       <==> AllRight(c, node, path, fs.convert) && c.entry == OwnEntry(node, path, fs)
  {
    if AllRight(c, node, path, fs.convert) && c.entry == OwnEntry(node, path, fs) {
      RightIsScan(c, path, node, fs);
    }
    if Flat(c) == Flat(InitAt(fs, OwnEntry(node, path, fs), c.depth, AllPass)) {
      ScannedIsRight(c, path, node, fs);
    }
  }

  lemma RightIsScan(c: Cached, path: Path, node: Node, fs: Snapshot)
    requires Placed(c, path, node, fs) && AllRight(c, node, path, fs.convert)
    ensures Flat(c) == Flat(InitAt(fs, c.entry, c.depth, AllPass))
  {
    var scan := InitAt(fs, c.entry, c.depth, AllPass);
    forall q
      ensures q in Flat(c) <==> q in Flat(scan)
      ensures q in Flat(c) ==> Flat(c)[q] == Flat(scan)[q]
    {
      if path < q {
        assert Right(c, node, path, fs.convert, q[|path|..]);
      }
      ScanIsRight(c, path, node, fs, q);
      FlatLook(c, q);
      FlatLook(scan, q);
    }
  }

  lemma ScannedIsRight(c: Cached, path: Path, node: Node, fs: Snapshot)
    requires Placed(c, path, node, fs)
    requires Flat(c) == Flat(InitAt(fs, OwnEntry(node, path, fs), c.depth, AllPass))
    ensures AllRight(c, node, path, fs.convert) && c.entry == OwnEntry(node, path, fs)
  {
    var own := OwnEntry(node, path, fs);
    var scan := InitAt(fs, own, c.depth, AllPass);
    SameEntryPath(c, path, own);
    forall rel | rel != []
      ensures Right(c, node, path, fs.convert, rel)
    {
      SameLook(c, scan, path + rel);
      assert (path + rel)[|path|..] == rel;
      ScanIsRight(c.(entry := own), path, node, fs, path + rel);
    }
    SameLook(c, scan, path);
    ScanIsRight(c.(entry := own), path, node, fs, path);
  }

  lemma SameLook(a: Cached, b: Cached, q: Path)
    requires Flat(a) == Flat(b)
    ensures Look(a, q) == Look(b, q)
  {
    FlatLook(a, q);
    FlatLook(b, q);
  }
}
