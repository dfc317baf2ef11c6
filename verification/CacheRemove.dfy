/** Removing a path removes what lies at or below it, and nothing else. */
module CacheRemove {
  import opened Wrappers
  import opened Entries
  import opened CacheTree
  import opened CacheInvariants
  import opened CacheListing
  import opened CacheUpdates
  import opened Replays

  lemma PrefixStep(path: Path, parts: Path, q: Path)
    requires parts != []
    ensures path + [parts[0]] + parts[1..] == path + parts
    ensures path + parts <= q ==> path + [parts[0]] <= q
  {
    if path + parts <= q {
      assert q[..|path| + 1] == (path + parts)[..|path| + 1];
    }
  }

  lemma {:induction false} RemovePartsLook(c: Cached, path: Path, parts: Path, q: Path)
    requires Struct(c, path) && parts != []
    ensures Look(RemoveParts(c, parts).0, q) == if path + parts <= q then None else Look(c, q)
    decreases |parts|
  {
    var p, c' := parts[0], RemoveParts(c, parts).0;
    PrefixStep(path, parts, q);
    if |parts| == 1 {
      RemoveChildLook(c, path, p, q);
      assert path + parts == path + [p];
    } else if p in c.subs {
      assert SubOk(c, p);
      RemovePartsStruct(c.subs[p], path + [p], parts[1..]);
      RemovePartsLook(c.subs[p], path + [p], parts[1..], q);
      if path + [p] <= q {
        LookChild(c, path, p, q);
        LookChild(c', path, p, q);
        FlatLook(c.subs[p], q);
        FlatLook(c'.subs[p], q);
      } else {
        LookElsewhere(c, c', path, p, q);
      }
    } else if path + parts <= q {
      assert q[|path|..][0] == p && |q[|path|..]| > 1;
    }
  }

  /** When no name is both a file and a directory, the entries reported are those found at or below the
      path, marked as gone. */
  lemma {:induction false} RemovedPartsFound(c: Cached, path: Path, parts: Path, e: Entry)
    requires Struct(c, path) && Clean(c) && parts != []
    ensures e in RemoveParts(c, parts).1 <==>
            (&& path + parts <= PathOf(e) && Look(c, PathOf(e)).Some?
             && e == SetExists(Look(c, PathOf(e)).value, false))
    decreases |parts|
  {
    var p, q := parts[0], PathOf(e);
    PrefixStep(path, parts, q);
    if |parts| == 1 {
      assert path + parts == path + [p];
      if e in RemovedChild(c, p) { RemovedSound(c, path, p, e); }
      if path + parts <= q && Look(c, q).Some? { RemovedComplete(c, path, p, q); }
    } else if p in c.subs {
      assert SubOk(c, p);
      RemovedPartsFound(c.subs[p], path + [p], parts[1..], e);
      if path + [p] <= q {
        LookStep(c, path, p, q);
      }
    } else if path + parts <= q {
      assert q[|path|..][0] == p && |q[|path|..]| > 1;
    }
  }

  // ----- every reachable tree

  /** The stored entries that removing the names takes away: a file of the last name, a directory of that
      name and everything it holds. */
  function Taken(c: Cached, parts: Path): set<Entry>
    requires parts != []
    decreases |parts|
  {
    var p := parts[0];
    if |parts| > 1 then if p in c.subs then Taken(c.subs[p], parts[1..]) else {}
    else TakenFile(c, p) + if p in c.subs then {c.subs[p].entry} + Everything(c.subs[p]) else {}
  }

  function TakenFile(c: Cached, p: Name): set<Entry> {
    if Key(p) in c.files then {Resolve(PathOf(c.entry), c.files[Key(p)])} else {}
  }

  /** What stays at the path all the same: an entry kept under the absolute path. */
  function Stray(c: Cached, parts: Path): set<Entry>
    requires parts != []
    decreases |parts|
  {
    var p := parts[0];
    if |parts| > 1 then if p in c.subs then Stray(c.subs[p], parts[1..]) else {}
    else
      var k := Abs(PathOf(c.entry) + [p]);
      if k in c.files then {Resolve(PathOf(c.entry), c.files[k])} else {}
  }

  /** An unlimited listing of a tree, and its own entry, are all it stores. */
  lemma AllStored(c: Cached, path: Path)
    requires Struct(c, path)
    ensures AllEntries(c) == {c.entry} + Everything(c)
  {
    forall e
      ensures e in AllEntries(c) <==> e == c.entry || e in Everything(c)
    {
      if c.depth >= 0 {
        ListLevels(c, path, MAX_INT, e);
        if e in Everything(c) { EverythingBelow(c, path, e); }
      }
    }
  }

  /** The entries reported are exactly those taken away, marked as gone. */
  lemma {:induction false} RemovedPartsExactly(c: Cached, path: Path, parts: Path)
    requires Struct(c, path) && parts != []
    ensures RemoveParts(c, parts).1 == set e | e in Taken(c, parts) :: SetExists(e, false)
    decreases |parts|
  {
    var p := parts[0];
    if |parts| > 1 && p in c.subs {
      RemovedPartsExactly(c.subs[p], path + [p], parts[1..]);
    } else if |parts| == 1 && p in c.subs {
      AllStored(c.subs[p], path + [p]);
    }
  }

  predicate FromFile(c: Cached, k: JPath, e: Entry) {
    k in c.files && e == Resolve(PathOf(c.entry), c.files[k])
  }

  predicate FromSub(c: Cached, n: Name, e: Entry) {
    n in c.subs && (e == c.subs[n].entry || e in Everything(c.subs[n]))
  }

  /** Everything is kept as a file, or by a child directory. */
  lemma EverythingIs(c: Cached, e: Entry)
    ensures e in Everything(c) <==> (exists k :: FromFile(c, k, e)) || exists n :: FromSub(c, n, e)
  {
    if e in Everything(c) {
      if k :| k in c.files && e == Resolve(PathOf(c.entry), c.files[k]) {
        assert FromFile(c, k, e);
      } else if n :| n in c.subs && (e == c.subs[n].entry || e in Everything(c.subs[n])) {
        assert FromSub(c, n, e);
      }
    }
    if n :| FromSub(c, n, e) {
      assert e == c.subs[n].entry ==> e in OwnEntries(c);
    }
  }

  lemma SubIsBelow(c: Cached, path: Path, n: Name, p: Name, e: Entry)
    requires Struct(c, path) && FromSub(c, n, e)
    ensures path + [n] <= PathOf(e) && (path + [p] <= PathOf(e) <==> n == p)
  {
    assert Struct(c.subs[n], path + [n]);
    if e in Everything(c.subs[n]) { EverythingBelow(c.subs[n], path + [n], e); }
    assert PathOf(e)[|path|] == n;
  }

  lemma FileIsAt(c: Cached, path: Path, k: JPath, p: Name, e: Entry)
    requires Struct(c, path) && FromFile(c, k, e)
    ensures path + [p] <= PathOf(e) <==> k == Key(p) || k == Abs(path + [p])
  {
    assert FileOk(c, path, k);
    var n :| ResolvePath(path, k) == path + [n];
    assert PathOf(e) == path + [n] && (path + [n])[|path|] == n;
    if path + [p] <= PathOf(e) {
      assert (path + [p])[|path|] == p == n;
    }
    if k.Rel? {
      assert k.names == [k.names[0]] && (path + k.names)[|path|] == k.names[0];
    }
  }

  lemma TakenIs(c: Cached, path: Path, p: Name, e: Entry)
    requires c.entry.tp.path == Abs(path)
    ensures e in Taken(c, [p]) <==> FromFile(c, Key(p), e) || FromSub(c, p, e)
    ensures e in Stray(c, [p]) <==> FromFile(c, Abs(path + [p]), e)
  {
  }

  /** What lies at or below a child is the file, the stray file, or the child directory. */
  lemma AtChild(c: Cached, path: Path, p: Name, e: Entry)
    requires Struct(c, path)
    ensures e in Everything(c) && path + [p] <= PathOf(e) <==> e in Taken(c, [p]) + Stray(c, [p])
  {
    EverythingIs(c, e);
    TakenIs(c, path, p, e);
    forall k | FromFile(c, k, e)
      ensures path + [p] <= PathOf(e) <==> k == Key(p) || k == Abs(path + [p])
    {
      FileIsAt(c, path, k, p, e);
    }
    forall n | FromSub(c, n, e)
      ensures path + [p] <= PathOf(e) <==> n == p
    {
      SubIsBelow(c, path, n, p, e);
    }
  }

  lemma RemovedFrom(c: Cached, p: Name, e: Entry)
    ensures forall k :: FromFile(RemoveChild(c, p), k, e) <==> FromFile(c, k, e) && k != Key(p)
    ensures forall n :: FromSub(RemoveChild(c, p), n, e) <==> FromSub(c, n, e) && n != p
  {
  }

  /** Removing a child takes away all at or below its path but a stray entry ... */
  lemma ChildGone(c: Cached, path: Path, p: Name, e: Entry)
    requires Struct(c, path) && path + [p] <= PathOf(e)
    ensures e in Everything(RemoveChild(c, p)) <==> e in Stray(c, [p])
  {
    EverythingIs(RemoveChild(c, p), e);
    RemovedFrom(c, p, e);
    TakenIs(c, path, p, e);
    forall k | FromFile(c, k, e)
      ensures k == Key(p) || k == Abs(path + [p])
    {
      FileIsAt(c, path, k, p, e);
    }
    forall n | FromSub(c, n, e)
      ensures n == p
    {
      SubIsBelow(c, path, n, p, e);
    }
    assert FromFile(c, Abs(path + [p]), e) ==> FromFile(RemoveChild(c, p), Abs(path + [p]), e);
  }

  /** ... and nothing else. */
  lemma OthersKept(c: Cached, path: Path, p: Name, e: Entry)
    requires Struct(c, path) && !(path + [p] <= PathOf(e))
    ensures e in Everything(RemoveChild(c, p)) <==> e in Everything(c)
    ensures e !in Stray(c, [p])
  {
    EverythingIs(c, e);
    EverythingIs(RemoveChild(c, p), e);
    RemovedFrom(c, p, e);
    TakenIs(c, path, p, e);
    forall k | FromFile(c, k, e)
      ensures k != Key(p) && k != Abs(path + [p])
    {
      FileIsAt(c, path, k, p, e);
    }
    forall n | FromSub(c, n, e)
      ensures n != p
    {
      SubIsBelow(c, path, n, p, e);
    }
  }

  /** What lies strictly below a child is stored by the child directory. */
  lemma Through(c: Cached, path: Path, p: Name, e: Entry)
    requires Struct(c, path) && path + [p] < PathOf(e)
    ensures e in Everything(c) <==> p in c.subs && e in Everything(c.subs[p])
  {
    if e in Everything(c) {
      if e in OwnEntries(c) {
        var n := OwnEntryPath(c, path, e);
      } else {
        var n :| n in c.subs && e in Everything(c.subs[n]);
        EverythingBelow(c.subs[n], path + [n], e);
        assert PathOf(e)[|path|] == n == p;
      }
    }
  }

  /** Replacing a child directory by one with the same entry changes only what lies strictly below it. */
  lemma Elsewhere(c: Cached, path: Path, p: Name, sub: Cached, e: Entry)
    requires Struct(c, path) && p in c.subs && sub.entry == c.subs[p].entry && Struct(sub, path + [p])
    requires !(path + [p] < PathOf(e))
    ensures e in Everything(c.(subs := c.subs[p := sub])) <==> e in Everything(c)
  {
    var c' := c.(subs := c.subs[p := sub]);
    assert Struct(c.subs[p], path + [p]);
    if e in Everything(c.subs[p]) { EverythingBelow(c.subs[p], path + [p], e); }
    if e in Everything(sub) { EverythingBelow(sub, path + [p], e); }
    assert forall n <- c.subs :: c'.subs[n].entry == c.subs[n].entry && (n != p ==> c'.subs[n] == c.subs[n]);
    assert OwnEntries(c') == OwnEntries(c);
  }

  /** In every reachable tree: what lies at or below the path is what is taken, and a stray entry; and
      what is stored afterwards is what does not lie there, and the stray entry. */
  lemma {:induction false} RemovedEverything(c: Cached, path: Path, parts: Path, e: Entry)
    requires Struct(c, path) && parts != []
    ensures e in Everything(c) && path + parts <= PathOf(e) <==> e in Taken(c, parts) + Stray(c, parts)
    ensures e in Everything(RemoveParts(c, parts).0) <==>
            (e in Everything(c) && !(path + parts <= PathOf(e))) || e in Stray(c, parts)
    decreases |parts|
  {
    var p := parts[0];
    PrefixStep(path, parts, PathOf(e));
    if |parts| == 1 {
      assert parts == [p];
      AtChild(c, path, p, e);
      if path + [p] <= PathOf(e) { ChildGone(c, path, p, e); } else { OthersKept(c, path, p, e); }
    } else {
      if path + [p] < PathOf(e) { Through(c, path, p, e); }
      if p in c.subs {
        RemovedBelow(c, path, parts, e);
      }
    }
  }

  lemma {:induction false} RemovedBelow(c: Cached, path: Path, parts: Path, e: Entry)
    requires Struct(c, path) && |parts| > 1 && parts[0] in c.subs
    ensures e in Everything(c) && path + parts <= PathOf(e) <==> e in Taken(c, parts) + Stray(c, parts)
    ensures e in Everything(RemoveParts(c, parts).0) <==>
            (e in Everything(c) && !(path + parts <= PathOf(e))) || e in Stray(c, parts)
    decreases |parts|, 0
  {
    var p, rest := parts[0], parts[1..];
    var sub := RemoveParts(c.subs[p], rest).0;
    PrefixStep(path, parts, PathOf(e));
    RemovePartsStruct(c, path, parts);
    RemovePartsStruct(c.subs[p], path + [p], rest);
    RemovedEverything(c.subs[p], path + [p], rest, e);
    if path + [p] < PathOf(e) {
      Through(c, path, p, e);
      Through(c.(subs := c.subs[p := sub]), path, p, e);
    } else {
      Elsewhere(c, path, p, sub, e);
      if e in Everything(c.subs[p]) { EverythingBelow(c.subs[p], path + [p], e); }
      if e in Everything(sub) { EverythingBelow(sub, path + [p], e); }
      assert !(path + parts <= PathOf(e)) by { assert |path + parts| > |path + [p]|; }
    }
  }

  /** A second removal finds nothing. */
  lemma {:induction false} RemoveAgain(c: Cached, parts: Path)
    requires parts != []
    ensures RemoveParts(RemoveParts(c, parts).0, parts) == (RemoveParts(c, parts).0, {})
    decreases |parts|
  {
    var p, c' := parts[0], RemoveParts(c, parts).0;
    if |parts| == 1 {
      assert c'.files - {Key(p)} == c'.files && c'.subs - {p} == c'.subs;
      assert RemovedChild(c', p) == {};
    } else if p in c.subs {
      RemoveAgain(c.subs[p], parts[1..]);
      assert c'.subs[p := c'.subs[p]] == c'.subs;
    }
  }

  /** `remove(p)` for `p` strictly below the directory, in every reachable tree: it takes away exactly what
      is stored at or below `p`, but for an entry kept under the absolute path, and leaves all else; it
      returns exactly what it takes, marked as not existing; nothing is found at or below `p` any more,
      and a second `remove(p)` finds nothing. */
  lemma RemoveIsExact(c: Cached, path: Path, p: Path)
    requires Struct(c, path) && path < p
    ensures var (c', removed) := Remove(c, p);
            var parts := p[|path|..];
            && Struct(c', path) && (Clean(c) ==> Clean(c')) && c'.entry == c.entry
            && (forall q :: Look(c', q) == if p <= q then None else Look(c, q))
            && removed == (set e | e in Taken(c, parts) :: SetExists(e, false))
            && (forall e :: e in Everything(c) && p <= PathOf(e) <==> e in Taken(c, parts) + Stray(c, parts))
            && (forall e :: e in Everything(c') <==> (e in Everything(c) && !(p <= PathOf(e))) || e in Stray(c, parts))
            && Remove(c', p) == (c', {})
  {
    var parts := p[|path|..];
    assert path + parts == p;
    RemovePartsStruct(c, path, parts);
    RemovedPartsExactly(c, path, parts);
    RemoveAgain(c, parts);
    forall q
      ensures Look(Remove(c, p).0, q) == if p <= q then None else Look(c, q)
    {
      RemovePartsLook(c, path, parts, q);
    }
    forall e
      ensures e in Everything(c) && p <= PathOf(e) <==> e in Taken(c, parts) + Stray(c, parts)
      ensures e in Everything(Remove(c, p).0) <==> (e in Everything(c) && !(p <= PathOf(e))) || e in Stray(c, parts)
    {
      RemovedEverything(c, path, parts, e);
    }
  }

  /** When no name is both a file and a directory, what is removed is what is found. */
  lemma RemoveFound(c: Cached, path: Path, p: Path)
    requires Struct(c, path) && Clean(c) && path < p
    ensures forall e :: e in Remove(c, p).1 <==>
              p <= PathOf(e) && Look(c, PathOf(e)).Some? && e == SetExists(Look(c, PathOf(e)).value, false)
  {
    var parts := p[|path|..];
    assert path + parts == p;
    forall e
      ensures e in Remove(c, p).1 <==>
              p <= PathOf(e) && Look(c, PathOf(e)).Some? && e == SetExists(Look(c, PathOf(e)).value, false)
    {
      RemovedPartsFound(c, path, parts, e);
    }
  }

  /** Removing the directory's own path removes nothing: the relative path has one empty name. */
  lemma RemoveSelf(c: Cached, path: Path)
    requires Struct(c, path)
    ensures Remove(c, path) == (c, {})
  {
    assert NoName in Key(NoName).names;
    assert NoName !in c.subs && Key(NoName) !in c.files;
    assert c.files - {Key(NoName)} == c.files && c.subs - {NoName} == c.subs;
    assert RemovedChild(c, NoName) == {};
  }

  /** So does a path that is not below the directory. */
  lemma RemoveOutside(c: Cached, path: Path, p: Path)
    requires Struct(c, path) && !(path < p)
    ensures Remove(c, p) == (c, {})
  {
    if p == path { RemoveSelf(c, path); }
  }

  lemma RemoveExplains(c: Cached, path: Path, p: Path)
    requires Struct(c, path) && Clean(c) && path <= p
    ensures Explains(c, Changes({}, {}, Remove(c, p).1), Remove(c, p).0)
  {
    var (c', removed) := Remove(c, p);
    var u := Changes({}, {}, removed);
    if path == p {
      RemoveSelf(c, path);
    } else {
      RemoveIsExact(c, path, p);
      RemoveFound(c, path, p);
      forall q
        ensures ExplainedAt(u, q, Look(c, q), Look(c', q))
      {
        if Look(c, q) != Look(c', q) {
          LookKeyed(c, path, q);
          assert Has(u, Delete(SetExists(Look(c, q).value, false)));
        }
      }
    }
  }
}
