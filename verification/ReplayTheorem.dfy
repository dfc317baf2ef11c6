/** Observer replay: an observer that mirrors the events of an update holds the cache's contents
    exactly when the update keeps files and directories apart. */
module ReplayTheorem {
  import opened Entries
  import opened Snapshots
  import opened CacheTree
  import opened CacheInvariants
  import opened CacheListing
  import opened CacheUpdates
  import opened Replays

  /** How a tree that breaks the guard shows it: two entries for one path, or an entry that no
      creation or update announced and that was not there before, or was reported deleted. */
  ghost predicate Unannounced(c: Cached, u: Changes, e: Entry) {
    && u.creations == {} && u.updates == {}
    && (Look(c, PathOf(e)).None? || exists e' :: e' in u.deletions && PathOf(e') == PathOf(e))
  }

  ghost predicate Witness(c: Cached, u: Changes, listed: set<Entry>, e1: Entry, e2: Entry) {
    && e1 in listed && e2 in listed
    && PathOf(e1) == PathOf(e2)
    && (e1 != e2 || Unannounced(c, u, e1))
  }

  lemma StrayWitness(c: Cached, path: Path, p: Name, tp: TypedPath, accept: TypedPath -> bool, fs: Snapshot,
                     m: nat)
    returns (e: Entry)
    requires Struct(c, path) && Clean(c) && c.depth > 0 && p !in c.subs
    requires tp.path == Abs(path + [p]) && !IsDirectory(tp)
    ensures var (c', u) := AddDirectory(c, p, tp, accept, fs); Witness(c, u, ListSet(c', m, EveryEntry), e, e)
    ensures path < PathOf(e)
  {
    var (c', u) := AddDirectory(c, p, tp, accept, fs);
    e := Resolve(path, Entry(tp, fs.convert(tp.path.names)));
    assert tp.path in c'.files && e == Resolve(path, c'.files[tp.path]);
    assert (path + [p])[|path|..] == [p];
    if Key(p) in c.files {
      assert FileOk(c, path, Key(p));
      var e' := SetExists(Resolve(path, c.files[Key(p)]), false);
      assert e' in u.deletions && PathOf(e') == PathOf(e);
    }
  }

  lemma AddWitness(c: Cached, path: Path, p: Name, tp: TypedPath, accept: TypedPath -> bool, fs: Snapshot, m: nat)
    returns (e1: Entry, e2: Entry)
    requires Struct(c, path) && Clean(c) && c.depth > 0 && p !in c.subs
    requires tp.path == Abs(path + [p]) && !AddsCleanly(c, p, tp, fs)
    ensures var (c', u) := AddDirectory(c, p, tp, accept, fs); Witness(c, u, ListSet(c', m, EveryEntry), e1, e2)
    ensures path < PathOf(e1)
  {
    if IsDirectory(tp) {
      var c' := AddDirectory(c, p, tp, accept, fs).0;
      assert Key(p) in c'.files && p in c'.subs;
      assert FileOk(c, path, Key(p));
      e1, e2 := Resolve(path, c'.files[Key(p)]), Resolve(path, c'.subs[p].entry);
    } else {
      e1 := StrayWitness(c, path, p, tp, accept, fs, m);
      e2 := e1;
    }
  }

  lemma LastWitness(c: Cached, path: Path, p: Name, tp: TypedPath, rescan: bool, accept: TypedPath -> bool,
                    fs: Snapshot, m: nat)
    returns (e1: Entry, e2: Entry)
    requires Struct(c, path) && Clean(c) && c.depth >= 0 && ValidUpdate(path, [p], tp, fs)
    requires !KeepsSlotsApart(c, [p], tp, rescan, fs)
    ensures var (c', u) := UpdateLast(c, p, tp, rescan, accept, fs);
            Witness(c, u, ListSet(c', m, EveryEntry), e1, e2)
    ensures path < PathOf(e1)
  {
    var c' := UpdateLast(c, p, tp, rescan, accept, fs).0;
    assert p != NoName by { assert [p][0] == p; }
    assert Key(p) in c'.files && p in c'.subs;
    e1, e2 := Resolve(path, c'.files[Key(p)]), Resolve(path, c'.subs[p].entry);
    if IsDirectory(tp) {
      assert FileOk(c, path, Key(p));
    } else {
      assert SubOk(c, p);
    }
  }

  lemma LiftWitness(c: Cached, path: Path, p: Name, u: Changes, sub: Cached, m: int, e1: Entry, e2: Entry)
    requires Struct(c, path) && c.depth >= 0 && p in c.subs && m > 0
    requires Witness(c.subs[p], u, ListSet(sub, m - 1, EveryEntry), e1, e2) && path + [p] < PathOf(e1)
    ensures Witness(c, u, ListSet(c.(subs := c.subs[p := sub]), m, EveryEntry), e1, e2) && path < PathOf(e1)
  {
    var c' := c.(subs := c.subs[p := sub]);
    assert e1 in ListSet(c'.subs[p], m - 1, EveryEntry) && e2 in ListSet(c'.subs[p], m - 1, EveryEntry);
    assert e1 in ListBelow(c', m - 1, EveryEntry) && e2 in ListBelow(c', m - 1, EveryEntry);
    LookStep(c, path, p, PathOf(e1));
  }

  lemma {:induction false} FindWitness(c: Cached, path: Path, parts: Path, tp: TypedPath, rescan: bool,
                                       accept: TypedPath -> bool, fs: Snapshot, m: int)
    returns (e1: Entry, e2: Entry)
    requires Struct(c, path) && Clean(c) && ValidUpdate(path, parts, tp, fs) && |parts| - 1 <= m
    requires !KeepsSlotsApart(c, parts, tp, rescan, fs)
    ensures var (c', u) := UpdateParts(c, parts, tp, rescan, accept, fs);
            Witness(c, u, ListSet(c', m, EveryEntry), e1, e2)
    ensures path < PathOf(e1)
    decreases |parts|
  {
    var p := parts[0];
    if |parts| == 1 {
      assert parts == [p];
      e1, e2 := LastWitness(c, path, p, tp, rescan, accept, fs, m);
    } else if p in c.subs {
      assert SubOk(c, p);
      ValidUpdateBelow(path, parts, tp, fs);
      e1, e2 := FindWitness(c.subs[p], path + [p], parts[1..], tp, rescan, accept, fs, m - 1);
      var (sub, u) := UpdateParts(c.subs[p], parts[1..], tp, rescan, accept, fs);
      LiftWitness(c, path, p, u, sub, m, e1, e2);
    } else {
      e1, e2 := AddWitness(c, path, p, Stat(fs, path + [p]), accept, fs, m);
    }
  }

  /** For one update strictly below the directory, in every branch and with either rescan flag:
      replaying its events, in any order, on the old contents gives the new contents if and only
      if the guard holds. */
  lemma ReplayIsCoherent(c: Cached, path: Path, parts: Path, tp: TypedPath, rescan: bool,
                         accept: TypedPath -> bool, fs: Snapshot, events: seq<Event>)
    requires Struct(c, path) && Clean(c) && ValidUpdate(path, parts, tp, fs)
    requires Records(events, UpdateParts(c, parts, tp, rescan, accept, fs).1)
    ensures var c' := UpdateParts(c, parts, tp, rescan, accept, fs).0;
            Replay(Flat(c), events).Values == AllEntries(c') <==> KeepsSlotsApart(c, parts, tp, rescan, fs)
  {
    var (c', u) := UpdateParts(c, parts, tp, rescan, accept, fs);
    UpdatePartsStruct(c, path, parts, tp, rescan, accept, fs);
    if KeepsSlotsApart(c, parts, tp, rescan, fs) {
      UpdatePartsExplains(c, path, parts, tp, rescan, accept, fs);
      ReplayExplains(c, path, u, c', events);
    } else {
      assert |parts| <= MAX_INT;
      var e1, e2 := FindWitness(c, path, parts, tp, rescan, accept, fs, MAX_INT);
      ReplayFails(c, path, u, c', events, e1, e2);
    }
  }

  /** Explained events replay to the new contents. */
  lemma ReplayExplains(c: Cached, path: Path, u: Changes, c': Cached, events: seq<Event>)
    requires Struct(c', path) && Clean(c') && Explains(c, u, c') && Records(events, u)
    ensures Replay(Flat(c), events) == Flat(c')
    ensures Flat(c').Values == AllEntries(c')
  {
    forall q
      ensures ExplainedAt(Observed(u), q, Lookup(Flat(c), q), Lookup(Flat(c'), q))
    {
      FlatLook(c, q);
      FlatLook(c', q);
      assert ExplainedAt(u, q, Look(c, q), Look(c', q));
      ObservedExplains(u, q, Look(c, q), Look(c', q));
    }
    ReplayExplained(Flat(c), Flat(c), Flat(c'), events);
    FlatValues(c', path);
  }

  lemma FlatValues(c: Cached, path: Path)
    requires Struct(c, path) && Clean(c)
    ensures Flat(c).Values == AllEntries(c)
  {
    forall e
      ensures e in Flat(c).Values <==> e in AllEntries(c)
    {
      AllEntriesFlat(c, path, e);
      if e in Flat(c).Values {
        var q :| q in Flat(c) && Flat(c)[q] == e;
        FlatLook(c, q);
        LookKeyed(c, path, q);
      }
    }
  }

  lemma ReplayFails(c: Cached, path: Path, u: Changes, c': Cached, events: seq<Event>, e1: Entry, e2: Entry)
    requires Struct(c, path) && Records(events, u)
    requires Witness(c, u, ListSet(c', MAX_INT, EveryEntry), e1, e2)
    ensures Replay(Flat(c), events).Values != AllEntries(c')
  {
    var replayed, q := Replay(Flat(c), events), PathOf(e1);
    forall k | k in Flat(c)
      ensures PathOf(Flat(c)[k]) == k
    {
      FlatKeyed(c, path, k);
    }
    ReplayKeyed(Flat(c), events);
    if replayed.Values == AllEntries(c') {
      assert e1 in replayed.Values && e2 in replayed.Values;
      assert q in replayed && replayed[q] == e1 && replayed[q] == e2;
      FlatLook(c, q);
      if e' :| e' in u.deletions && PathOf(e') == q {
        var gone := Delete(SetExists(e', false));
        assert Has(Observed(u), gone) && Concerns(gone, q);
      }
      ReplayGainsNothing(Flat(c), events, q);
    }
  }

  /** Why directories above an updated path have to be directories: one that turns out not to be one is
      kept under its absolute path, where it is listed but never found, and no event tells of it. */
  lemma StrayAncestor(c: Cached, path: Path, parts: Path, tp: TypedPath, rescan: bool, accept: TypedPath -> bool,
                      fs: Snapshot)
    requires Struct(c, path) && c.depth > 0 && |parts| > 1 && parts[0] != NoName
    requires parts[0] !in c.subs && Key(parts[0]) !in c.files && !IsDirectory(Stat(fs, path + [parts[0]]))
    ensures var (c', u) := UpdateParts(c, parts, tp, rescan, accept, fs);
            var stray := Resolve(path, Entry(Stat(fs, path + [parts[0]]), fs.convert(path + [parts[0]])));
            && stray in ListSet(c', 0, EveryEntry) && Look(c', path + [parts[0]]).None? && u == NOTHING
  {
    var (c', u) := UpdateParts(c, parts, tp, rescan, accept, fs);
    var q := path + [parts[0]];
    var stat := Stat(fs, q);
    assert stat.path in c'.files && c'.files[stat.path] == Entry(stat, fs.convert(q));
    assert q[|path|..] == [parts[0]];
  }
}
