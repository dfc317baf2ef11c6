/** Whole calls of `update`, and runs of `init`, `update` and `remove` in any order. */
module CacheRuns {
  import opened Wrappers
  import opened Entries
  import opened Snapshots
  import opened CacheTree
  import opened CacheInvariants
  import opened CacheListing
  import opened CacheUpdates
  import opened CacheRemove
  import opened Replays
  import opened ReplayTheorem

  /** What a caller of `update` supplies: an absolute path at or below the directory. */
  ghost predicate ValidCall(path: Path, tp: TypedPath, fs: Snapshot) {
    && tp.path.Abs? && path <= tp.path.names && Proper(tp.path.names)
    && |tp.path.names| <= MAX_INT && WellFormed(fs.root, [])
  }

  predicate UpdateGuard(c: Cached, tp: TypedPath, rescan: bool, accept: TypedPath -> bool, fs: Snapshot)
    requires PathOf(c.entry) <= tp.path.names
  {
    !accept(tp) || !tp.present || PathOf(c.entry) == tp.path.names
    || KeepsSlotsApart(c, Relativize(PathOf(c.entry), tp.path.names), tp, rescan, fs)
  }

  lemma ValidBelow(path: Path, tp: TypedPath, fs: Snapshot)
    requires ValidCall(path, tp, fs) && path != tp.path.names && tp.present
    ensures ValidUpdate(path, Relativize(path, tp.path.names), tp, fs)
  {
    assert path + tp.path.names[|path|..] == tp.path.names;
  }

  // ----- the structure

  lemma UpdateRootStruct(c: Cached, path: Path, tp: TypedPath, rescan: bool, accept: TypedPath -> bool, fs: Snapshot)
    requires Struct(c, path) && ValidCall(path, tp, fs) && path == tp.path.names
    ensures Struct(UpdateRoot(c, tp, rescan, accept, fs).tree, path)
    ensures Clean(c) && tp.present ==> Clean(UpdateRoot(c, tp, rescan, accept, fs).tree)
    ensures UpdateRoot(c, tp, rescan, accept, fs).tree.depth == c.depth
  {
    InitAtStruct(fs, c.entry, c.depth, accept);
    if !(tp.kind.dir && rescan) {
      SameEntryPath(c, path, Entry(tp, fs.convert(path)));
    }
  }

  /** An update of the directory's own path without a rescan stores its new entry, reports exactly that, and
      changes nothing below; a rescan leaves the own entry alone, and throws exactly when the directory
      cannot be listed, which leaves nothing below it. When the own entry does not exist, a rescan tells nothing. */
  lemma UpdateItself(c: Cached, path: Path, tp: TypedPath, rescan: bool, accept: TypedPath -> bool, fs: Snapshot)
    requires Struct(c, path) && ValidCall(path, tp, fs) && tp.path.names == path && tp.present && accept(tp)
    ensures var r := Update(c, tp, rescan, accept, fs);
            var entry := Entry(tp, fs.convert(path));
            if tp.kind.dir && rescan then
              && Look(r.tree, path) == Look(c, path) == Some(c.entry)
              && (r.Threw? <==> c.depth >= 0 && ListDirectory(fs, path).Failed?)
              && (r.Threw? ==> Failed(r.error) == ListDirectory(fs, path) && Everything(r.tree) == {})
              && (r.Updated? && !c.entry.tp.present ==> r.changes == NOTHING)
            else
              && r.Updated? && Look(r.tree, path) == Some(entry)
              && (forall q | q != path :: Look(r.tree, q) == Look(c, q)) && Everything(r.tree) == Everything(c)
              && forall event :: Has(r.changes, event) <==> event == Modify(c.entry, entry)
  {
    if tp.kind.dir && rescan {
      RescanStays(c, path, accept, fs);
    } else {
      EntryReplaced(c, path, Entry(tp, fs.convert(path)));
    }
  }

  lemma RescanStays(c: Cached, path: Path, accept: TypedPath -> bool, fs: Snapshot)
    requires Struct(c, path)
    ensures Look(c, path) == Look(InitAt(fs, c.entry, c.depth, accept), path) == Some(c.entry)
    ensures c.depth >= 0 && ListDirectory(fs, path).Failed? ==> Everything(InitAt(fs, c.entry, c.depth, accept)) == {}
  {
    assert path[|path|..] == [];
  }

  lemma EntryReplaced(c: Cached, path: Path, entry: Entry)
    requires Struct(c, path) && entry.tp.path == Abs(path)
    ensures Look(c.(entry := entry), path) == Some(entry)
    ensures forall q | q != path :: Look(c.(entry := entry), q) == Look(c, q)
    ensures Everything(c.(entry := entry)) == Everything(c)
  {
    assert path[|path|..] == [];
    forall q | q != path
      ensures Look(c.(entry := entry), q) == Look(c, q)
    {
      if path <= q { assert q[|path|..] != []; }
    }
  }

  /** Every call of `update` keeps the structure; it keeps the contents apart exactly when the
      guard holds. */
  lemma UpdateStruct(c: Cached, path: Path, tp: TypedPath, rescan: bool, accept: TypedPath -> bool, fs: Snapshot)
    requires Struct(c, path) && ValidCall(path, tp, fs)
    ensures var c' := Update(c, tp, rescan, accept, fs).tree;
            && Struct(c', path) && c'.depth == c.depth
            && (Clean(c) ==> (Clean(c') <==> UpdateGuard(c, tp, rescan, accept, fs)))
  {
    if accept(tp) {
      if !tp.present {
        RemovePartsStruct(c, path, Relativize(path, tp.path.names));
      } else if path == tp.path.names {
        UpdateRootStruct(c, path, tp, rescan, accept, fs);
      } else {
        ValidBelow(path, tp, fs);
        UpdatePartsStruct(c, path, Relativize(path, tp.path.names), tp, rescan, accept, fs);
      }
    }
  }

  datatype Op =
    | InitOp(accept: TypedPath -> bool, fs: Snapshot)
    | UpdateOp(tp: TypedPath, rescan: bool, accept: TypedPath -> bool, fs: Snapshot)
    | RemoveOp(path: Path)

  ghost predicate ValidOp(path: Path, op: Op) {
    match op
    case InitOp(_, fs) => WellFormed(fs.root, [])
    case UpdateOp(tp, _, _, fs) => ValidCall(path, tp, fs)
    case RemoveOp(_) => true
  }

  function Step(c: Cached, op: Op): Cached
    requires op.UpdateOp? ==> PathOf(c.entry) <= op.tp.path.names
  {
    match op
    case InitOp(accept, fs) => InitAt(fs, c.entry, c.depth, accept)
    case UpdateOp(tp, rescan, accept, fs) => Update(c, tp, rescan, accept, fs).tree
    case RemoveOp(path) => Remove(c, path).0
  }

  /** The states of a run, each reached from the one before by one valid operation. */
  ghost predicate IsRun(states: seq<Cached>, path: Path, ops: seq<Op>) {
    && |states| == |ops| + 1
    && states[0].entry.tp.path == Abs(path)
    && forall i | 0 <= i < |ops| ::
         ValidOp(path, ops[i]) && PathOf(states[i].entry) == path && states[i + 1] == Step(states[i], ops[i])
  }

  lemma StepStruct(c: Cached, path: Path, op: Op)
    requires Struct(c, path) && ValidOp(path, op)
    ensures Struct(Step(c, op), path) && Step(c, op).depth == c.depth
  {
    match op {
      case InitOp(accept, fs) => InitAtStruct(fs, c.entry, c.depth, accept);
      case UpdateOp(tp, rescan, accept, fs) => UpdateStruct(c, path, tp, rescan, accept, fs);
      case RemoveOp(p) => if path <= p { RemovePartsStruct(c, path, Relativize(path, p)); }
    }
  }

  /** In every state reached by `init`, `update` and `remove` in any order, whatever the file
      system did: the depths decrease, keys resolve to the paths they store, and no listed path is
      more than depth + 1 levels below the root. */
  lemma {:induction false} RunsKeepStructure(states: seq<Cached>, path: Path, ops: seq<Op>, i: nat, maxDepth: int,
                                             accept: Entry -> bool)
    requires IsRun(states, path, ops) && Struct(states[0], path) && i <= |ops|
    ensures Struct(states[i], path) && states[i].depth == states[0].depth
    ensures forall e <- ListSet(states[i], maxDepth, accept) ::
              e == states[i].entry || (path < PathOf(e) && Within(states[0].depth, |PathOf(e)| - |path|))
    decreases i
  {
    if i > 0 {
      RunsKeepStructure(states, path, ops, i - 1, maxDepth, accept);
      StepStruct(states[i - 1], path, ops[i - 1]);
    }
    forall e | e in ListSet(states[i], maxDepth, accept)
      ensures e == states[i].entry || (path < PathOf(e) && Within(states[0].depth, |PathOf(e)| - |path|))
    {
      ListedWithin(states[i], path, maxDepth, accept, e);
    }
  }

  lemma {:induction false} ListedWithin(c: Cached, path: Path, maxDepth: int, accept: Entry -> bool, e: Entry)
    requires Struct(c, path) && e in ListSet(c, maxDepth, accept)
    ensures e == c.entry || (path < PathOf(e) && Within(c.depth, |PathOf(e)| - |path|))
    decreases c
  {
    if c.depth >= 0 && maxDepth >= 0 {
      if k :| k in c.files && e == Resolve(path, c.files[k]) {
        assert FileOk(c, path, k);
      } else if n :| n in c.subs && e == Resolve(path, c.subs[n].entry) {
        assert SubOk(c, n);
      } else {
        assert e in ListBelow(c, maxDepth - 1, accept);
        var n :| n in c.subs && e in ListSet(c.subs[n], maxDepth - 1, accept);
        assert SubOk(c, n);
        ListedWithin(c.subs[n], path + [n], maxDepth - 1, accept, e);
      }
    }
  }

  // ----- replay of whole calls

  lemma ListedLook(c: Cached, path: Path, q: Path)
    requires Struct(c, path) && Clean(c)
    ensures Lookup(ListedMap(c), q) == if c.depth >= 0 && q == path then None else Look(c, q)
    ensures q in ListedMap(c) ==> PathOf(ListedMap(c)[q]) == q
  {
    FlatLook(c, q);
    if q in Flat(c) { FlatKeyed(c, path, q); }
  }

  lemma UpdateRootExplains(c: Cached, path: Path, tp: TypedPath, rescan: bool, accept: TypedPath -> bool, fs: Snapshot)
    requires Struct(c, path) && Clean(c) && ValidCall(path, tp, fs) && path == tp.path.names && tp.present
    requires UpdateRoot(c, tp, rescan, accept, fs).Updated?
    ensures var r := UpdateRoot(c, tp, rescan, accept, fs); Explains(c, r.changes, r.tree)
  {
    var r := UpdateRoot(c, tp, rescan, accept, fs);
    UpdateRootStruct(c, path, tp, rescan, accept, fs);
    if tp.kind.dir && rescan {
      forall q
        ensures q in ListedMap(c) ==> PathOf(ListedMap(c)[q]) == q
        ensures q in ListedMap(r.tree) ==> PathOf(ListedMap(r.tree)[q]) == q
      {
        ListedLook(c, path, q);
        ListedLook(r.tree, path, q);
      }
      forall q
        ensures ExplainedAt(r.changes, q, Look(c, q), Look(r.tree, q))
      {
        ListedLook(c, path, q);
        ListedLook(r.tree, path, q);
        DiffExplains(ListedMap(c), ListedMap(r.tree), q);
      }
    } else {
      forall q
        ensures ExplainedAt(r.changes, q, Look(c, q), Look(r.tree, q))
      {
        assert Has(r.changes, Modify(c.entry, r.tree.entry));
      }
    }
  }

  /** The events of a call explain every change when its guard holds. */
  lemma UpdateExplains(c: Cached, path: Path, tp: TypedPath, rescan: bool, accept: TypedPath -> bool, fs: Snapshot)
    requires Struct(c, path) && Clean(c) && ValidCall(path, tp, fs)
    requires Update(c, tp, rescan, accept, fs).Updated? && UpdateGuard(c, tp, rescan, accept, fs)
    ensures var r := Update(c, tp, rescan, accept, fs); Explains(c, r.changes, r.tree)
  {
    if accept(tp) {
      if !tp.present {
        RemoveExplains(c, path, tp.path.names);
      } else if path == tp.path.names {
        UpdateRootExplains(c, path, tp, rescan, accept, fs);
      } else {
        ValidBelow(path, tp, fs);
        UpdatePartsExplains(c, path, Relativize(path, tp.path.names), tp, rescan, accept, fs);
      }
    }
  }

  /** One call of `update`, in any branch: an observer that replays its events, in any order, on
      the old contents holds the new contents if and only if the guard holds. */
  lemma UpdateIsCoherent(c: Cached, path: Path, tp: TypedPath, rescan: bool, accept: TypedPath -> bool, fs: Snapshot,
                         events: seq<Event>)
    requires Struct(c, path) && Clean(c) && ValidCall(path, tp, fs)
    requires Update(c, tp, rescan, accept, fs).Updated?
    requires Records(events, Update(c, tp, rescan, accept, fs).changes)
    ensures Replay(Flat(c), events).Values == AllEntries(Update(c, tp, rescan, accept, fs).tree)
            <==> UpdateGuard(c, tp, rescan, accept, fs)
  {
    var r := Update(c, tp, rescan, accept, fs);
    if UpdateGuard(c, tp, rescan, accept, fs) {
      UpdateExplains(c, path, tp, rescan, accept, fs);
      UpdateStruct(c, path, tp, rescan, accept, fs);
      ReplayExplains(c, path, r.changes, r.tree, events);
    } else {
      ValidBelow(path, tp, fs);
      ReplayIsCoherent(c, path, Relativize(path, tp.path.names), tp, rescan, accept, fs, events);
    }
  }

  /** A call of `update` together with the events its observer saw. */
  datatype Call = Call(tp: TypedPath, rescan: bool, accept: TypedPath -> bool, fs: Snapshot, events: seq<Event>)

  ghost predicate ObservedRun(c: Cached, path: Path, calls: seq<Call>, end: Cached)
    decreases |calls|
  {
    if calls == [] then c == end
    else
      var call := calls[0];
      && ValidCall(path, call.tp, call.fs) && PathOf(c.entry) == path
      && UpdateGuard(c, call.tp, call.rescan, call.accept, call.fs)
      && var r := Update(c, call.tp, call.rescan, call.accept, call.fs);
      && r.Updated? && Records(call.events, r.changes)
      && ObservedRun(r.tree, path, calls[1..], end)
  }

  function EventsOf(calls: seq<Call>): seq<Event> {
    if calls == [] then [] else calls[0].events + EventsOf(calls[1..])
  }

  lemma {:induction false} ReplayConcat(m: map<Path, Entry>, a: seq<Event>, b: seq<Event>)
    ensures Replay(m, a + b) == Replay(Replay(m, a), b)
    decreases |a|
  {
    if a == [] {
      assert a + b == b;
    } else {
      ReplayConcat(Apply(m, a[0]), a[1..], b);
      assert (a + b)[1..] == a[1..] + b;
    }
  }

  /** Over any run of updates against any file systems, an observer that replays all events it is
      sent mirrors the cache. */
  lemma {:induction false} ObserverMirrors(c: Cached, path: Path, calls: seq<Call>, end: Cached)
    requires Struct(c, path) && Clean(c) && ObservedRun(c, path, calls, end)
    ensures Replay(Flat(c), EventsOf(calls)) == Flat(end)
    decreases |calls|
  {
    if calls != [] {
      var call := calls[0];
      var r := Update(c, call.tp, call.rescan, call.accept, call.fs);
      UpdateExplains(c, path, call.tp, call.rescan, call.accept, call.fs);
      UpdateStruct(c, path, call.tp, call.rescan, call.accept, call.fs);
      ReplayExplains(c, path, r.changes, r.tree, call.events);
      ReplayConcat(Flat(c), call.events, EventsOf(calls[1..]));
      ObserverMirrors(r.tree, path, calls[1..], end);
    }
  }
}
