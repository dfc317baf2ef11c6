/** The callbacks of one event are sorted by path before they run. */
module Callbacks {
  import opened Wrappers
  import opened Entries
  import opened CacheTree
  import opened Replays

  /** The path a callback is created with: of the old entry, unless there is none. */
  function KeyOf(callback: Event): Path {
    match callback
    case Create(e) => PathOf(e)
    case Modify(before, _) => PathOf(before)
    case Delete(e) => PathOf(e)
  }

  /** The string of an absolute path. */
  function Text(path: Path): string {
    if path == [] then ""
    else Text(path[..|path| - 1]) + "/" + if path[|path| - 1].Name? then path[|path| - 1].text else ""
  }

  /** The order of strings: the first difference decides, and a prefix comes first. */
  predicate Precedes(a: string, b: string) {
    a == [] || (b != [] && (a[0] < b[0] || (a[0] == b[0] && Precedes(a[1..], b[1..]))))
  }

  lemma {:induction false} PrecedesTotal(a: string, b: string)
    ensures Precedes(a, b) || Precedes(b, a)
    decreases |a|
  {
    if a != [] && b != [] && a[0] == b[0] {
      PrecedesTotal(a[1..], b[1..]);
    }
  }

  /** A prefix comes first, and otherwise the first difference decides. */
  lemma {:induction false} PrecedesMeans(a: string, b: string)
    ensures Precedes(a, b) <==> a <= b || exists n :: DifferAt(a, b, n) && a[n] < b[n]
    decreases |a|
  {
    if a != [] && b != [] {
      assert a == [a[0]] + a[1..] && b == [b[0]] + b[1..];
      assert a <= b <==> a[0] == b[0] && a[1..] <= b[1..];
      if a[0] == b[0] {
        PrecedesMeans(a[1..], b[1..]);
        DifferLater(a, b);
      } else {
        assert DifferAt(a, b, 0);
        assert forall n | DifferAt(a, b, n) :: n == 0;
      }
    }
  }

  predicate DifferAt(a: string, b: string, n: int) {
    0 <= n < |a| && n < |b| && a[..n] == b[..n] && a[n] != b[n]
  }

  lemma DifferLater(a: string, b: string)
    requires a != [] && b != [] && a[0] == b[0]
    ensures (exists n :: DifferAt(a, b, n) && a[n] < b[n])
       <==> exists n :: DifferAt(a[1..], b[1..], n) && a[1..][n] < b[1..][n]
  {
    if n :| DifferAt(a, b, n) && a[n] < b[n] {
      assert a[..n][1..] == a[1..][..n - 1] && b[..n][1..] == b[1..][..n - 1];
      assert DifferAt(a[1..], b[1..], n - 1);
    }
    if n :| DifferAt(a[1..], b[1..], n) && a[1..][n] < b[1..][n] {
      assert a[..n + 1] == [a[0]] + a[1..][..n] && b[..n + 1] == [b[0]] + b[1..][..n];
      assert DifferAt(a, b, n + 1);
    }
  }

  lemma {:induction false} PrecedesTransitive(a: string, b: string, c: string)
    requires Precedes(a, b) && Precedes(b, c)
    ensures Precedes(a, c)
    decreases |a|
  {
    if a != [] && a[0] == b[0] && b[0] == c[0] {
      PrecedesTransitive(a[1..], b[1..], c[1..]);
    }
  }

  /** `compareTo` of two callbacks is not positive. */
  predicate Before(a: Event, b: Event) {
    Precedes(Text(KeyOf(a)), Text(KeyOf(b)))
  }

  // ----- the strings of paths

  /** Every name is there and holds no separator. */
  predicate Plain(path: Path) {
    forall n <- path :: n.Name? && '/' !in n.text
  }

  /** Different paths have different strings. */
  lemma {:induction false} TextInjective(a: Path, b: Path)
    requires Plain(a) && Plain(b) && Text(a) == Text(b)
    ensures a == b
    decreases |a|
  {
    if a != [] && b != [] {
      var m, n := a[|a| - 1].text, b[|b| - 1].text;
      assert a[|a| - 1] in a && b[|b| - 1] in b;
      LastSeparator(Text(a[..|a| - 1]), m, Text(b[..|b| - 1]), n);
      TextInjective(a[..|a| - 1], b[..|b| - 1]);
      assert a == a[..|a| - 1] + [a[|a| - 1]] && b == b[..|b| - 1] + [b[|b| - 1]];
    }
  }

  lemma LongerTail(s: string, m: string, t: string, n: string)
    requires s + "/" + m == t + "/" + n
    ensures |s| < |t| ==> '/' in m
  {
    if |s| < |t| {
      assert (s + "/" + m)[|t|] == (t + "/" + n)[|t|] == '/';
      assert m[|t| - |s| - 1] == '/';
    }
  }

  lemma LastSeparator(s: string, m: string, t: string, n: string)
    requires s + "/" + m == t + "/" + n && '/' !in m && '/' !in n
    ensures s == t && m == n
  {
    var whole := s + "/" + m;
    LongerTail(s, m, t, n);
    LongerTail(t, n, s, m);
    assert s == whole[..|s|] && t == (t + "/" + n)[..|t|];
    assert m == whole[|s| + 1..] && n == (t + "/" + n)[|t| + 1..];
  }

  /** The string of a path is a proper prefix of those of the paths below it. */
  lemma {:induction false} TextBelow(a: Path, b: Path)
    requires a < b
    ensures Text(a) < Text(b)
    decreases |b|
  {
    var up := b[..|b| - 1];
    if a == up {
    } else {
      assert a == up[..|a|] && a < up;
      TextBelow(a, up);
    }
    assert Text(b)[..|Text(up)|] == Text(up);
  }

  /** The callbacks for one path, in their order. */
  function OfPath(callbacks: seq<Event>, q: Path): seq<Event> {
    if callbacks == [] then []
    else OfPath(callbacks[..|callbacks| - 1], q)
         + if KeyOf(callbacks[|callbacks| - 1]) == q then [callbacks[|callbacks| - 1]] else []
  }

  /** `sorted` holds the callbacks in order of their paths, those of one path in their old order. */
  ghost predicate StablySorted(callbacks: seq<Event>, sorted: seq<Event>) {
    && (forall i, j | 0 <= i < j < |sorted| :: Before(sorted[i], sorted[j]))
    && multiset(sorted) == multiset(callbacks)
    && (forall q :: OfPath(sorted, q) == OfPath(callbacks, q))
  }

  lemma {:induction false} OfPathConcat(a: seq<Event>, b: seq<Event>, q: Path)
    ensures OfPath(a + b, q) == OfPath(a, q) + OfPath(b, q)
    decreases |b|
  {
    if b == [] {
      assert a + b == a;
    } else {
      assert (a + b)[..|a + b| - 1] == a + b[..|b| - 1];
      OfPathConcat(a, b[..|b| - 1], q);
    }
  }

  lemma {:induction false} NoneOfPath(callbacks: seq<Event>, q: Path)
    requires forall c <- callbacks :: KeyOf(c) != q
    ensures OfPath(callbacks, q) == []
    decreases |callbacks|
  {
    if callbacks != [] {
      NoneOfPath(callbacks[..|callbacks| - 1], q);
    }
  }

  /** Inserting a callback behind all that do not come after it keeps the order of every path. */
  lemma InsertedOfPath(a: seq<Event>, b: seq<Event>, c: Event, q: Path)
    requires forall x <- b :: KeyOf(x) != KeyOf(c)
    ensures OfPath(a + [c] + b, q) == OfPath(a + b + [c], q)
  {
    var x, y, z := OfPath(a, q), OfPath(b, q), OfPath([c], q);
    assert OfPath(a + [c] + b, q) == x + z + y by {
      OfPathConcat(a + [c], b, q);
      OfPathConcat(a, [c], q);
    }
    assert OfPath(a + b + [c], q) == x + y + z by {
      OfPathConcat(a + b, [c], q);
      OfPathConcat(a, b, q);
    }
    assert y == [] || z == [] by {
      if KeyOf(c) == q { NoneOfPath(b, q); } else { NoneOfPath([c], q); }
    }
    assert y == [] ==> x + z + y == x + y + z;
    assert z == [] ==> x + z + y == x + y + z;
  }

  lemma InsertKeeps(callbacks: seq<Event>, k: nat, sorted: seq<Event>, i: nat)
    requires k < |callbacks| && i <= |sorted| && StablySorted(callbacks[..k], sorted)
    requires i == 0 || Before(sorted[i - 1], callbacks[k])
    requires forall j | i <= j < |sorted| :: !Before(sorted[j], callbacks[k])
    ensures StablySorted(callbacks[..k + 1], sorted[..i] + [callbacks[k]] + sorted[i..])
  {
    var c := callbacks[k];
    var inserted := sorted[..i] + [c] + sorted[i..];
    assert callbacks[..k + 1] == callbacks[..k] + [c];
    forall q
      ensures OfPath(inserted, q) == OfPath(callbacks[..k + 1], q)
    {
      PrecedesTotal(Text(KeyOf(c)), Text(KeyOf(c)));
      assert sorted == sorted[..i] + sorted[i..];
      InsertedOfPath(sorted[..i], sorted[i..], c, q);
      OfPathConcat(sorted, [c], q);
      OfPathConcat(callbacks[..k], [c], q);
    }
    InsertInOrder(sorted, i, c);
    assert sorted == sorted[..i] + sorted[i..];
  }

  lemma InsertInOrder(sorted: seq<Event>, i: nat, c: Event)
    requires i <= |sorted| && forall m, n | 0 <= m < n < |sorted| :: Before(sorted[m], sorted[n])
    requires i == 0 || Before(sorted[i - 1], c)
    requires forall j | i <= j < |sorted| :: !Before(sorted[j], c)
    ensures var inserted := sorted[..i] + [c] + sorted[i..];
            forall m, n | 0 <= m < n < |inserted| :: Before(inserted[m], inserted[n])
  {
    var inserted := sorted[..i] + [c] + sorted[i..];
    forall m, n | 0 <= m < n < |inserted|
      ensures Before(inserted[m], inserted[n])
    {
      if n == i && m < i - 1 {
        PrecedesTransitive(Text(KeyOf(sorted[m])), Text(KeyOf(sorted[i - 1])), Text(KeyOf(c)));
      }
      if m == i {
        PrecedesTotal(Text(KeyOf(c)), Text(KeyOf(sorted[n - 1])));
      }
    }
  }

  /** `Collections.sort`, which is stable. */
  method Sort(callbacks: seq<Event>) returns (sorted: seq<Event>)
    ensures StablySorted(callbacks, sorted)
  {
    sorted := [];
    for k := 0 to |callbacks|
      invariant StablySorted(callbacks[..k], sorted)
    {
      var i := |sorted|;
      while i > 0 && !Before(sorted[i - 1], callbacks[k])
        invariant 0 <= i <= |sorted|
        invariant forall j | i <= j < |sorted| :: !Before(sorted[j], callbacks[k])
      {
        i := i - 1;
      }
      InsertKeeps(callbacks, k, sorted, i);
      sorted := sorted[..i] + [callbacks[k]] + sorted[i..];
    }
    assert callbacks[..|callbacks|] == callbacks;
  }

  /** So in the sorted callbacks those for a directory come before those for what lies below it. */
  lemma AboveFirst(callbacks: seq<Event>, sorted: seq<Event>, i: nat, j: nat)
    requires StablySorted(callbacks, sorted) && i < |sorted| && j < |sorted|
    requires KeyOf(sorted[i]) < KeyOf(sorted[j])
    ensures i < j
  {
    TextBelow(KeyOf(sorted[i]), KeyOf(sorted[j]));
    PrefixFirst(Text(KeyOf(sorted[i])), Text(KeyOf(sorted[j])));
  }

  lemma PrefixFirst(a: string, b: string)
    requires a < b
    ensures !Precedes(b, a)
  {
    PrecedesMeans(b, a);
    assert forall n | 0 <= n < |a| :: a[n] == b[n];
  }

  // ----- sorting is harmless

  /** An update keeps the path of its entry. */
  ghost predicate SamePaths(callbacks: seq<Event>) {
    forall c <- callbacks :: c.Modify? ==> PathOf(c.before) == PathOf(c.after)
  }

  ghost predicate UpdatesKeepPaths(u: Changes) {
    forall pair <- u.updates :: PathOf(pair.0) == PathOf(pair.1)
  }

  lemma RecordedSamePaths(callbacks: seq<Event>, u: Changes)
    requires Records(callbacks, u) && UpdatesKeepPaths(u)
    ensures SamePaths(callbacks)
  {
    forall c | c in callbacks && c.Modify?
      ensures PathOf(c.before) == PathOf(c.after)
    {
      assert Has(Observed(u), c) && (c.before, c.after) in u.updates;
    }
  }

  /** What a path holds after the callbacks for it. */
  function After(entry: Option<Entry>, callbacks: seq<Event>): Option<Entry> {
    if callbacks == [] then entry
    else
      match callbacks[|callbacks| - 1]
      case Create(e) => Some(e)
      case Modify(_, e) => Some(e)
      case Delete(_) => None
  }

  lemma {:induction false} ReplayAt(m: map<Path, Entry>, callbacks: seq<Event>, q: Path)
    requires SamePaths(callbacks)
    ensures Lookup(Replay(m, callbacks), q) == After(Lookup(m, q), OfPath(callbacks, q))
    decreases |callbacks|
  {
    if callbacks != [] {
      var k := |callbacks| - 1;
      assert callbacks == callbacks[..k] + [callbacks[k]];
      ReplayAt(m, callbacks[..k], q);
      ReplayLast(m, callbacks);
      OnePath(callbacks, q);
    }
  }

  /** The last callback, when it is for this path, is the last of the callbacks for it. */
  lemma OnePath(callbacks: seq<Event>, q: Path)
    requires callbacks != []
    ensures var last := callbacks[|callbacks| - 1];
            forall entry :: After(entry, OfPath(callbacks, q))
                            == if KeyOf(last) == q then After(entry, [last])
                               else After(entry, OfPath(callbacks[..|callbacks| - 1], q))
  {
  }

  lemma {:induction false} ReplayLast(m: map<Path, Entry>, events: seq<Event>)
    requires events != []
    ensures Replay(m, events) == Apply(Replay(m, events[..|events| - 1]), events[|events| - 1])
    decreases |events|
  {
    if |events| > 1 {
      ReplayLast(Apply(m, events[0]), events[1..]);
      assert events[..|events| - 1][1..] == events[1..][..|events| - 2];
    }
  }

  /** Replaying the sorted callbacks yields the same map as replaying them as recorded. */
  lemma SortingIsHarmless(m: map<Path, Entry>, callbacks: seq<Event>, sorted: seq<Event>)
    requires StablySorted(callbacks, sorted) && SamePaths(callbacks)
    ensures Replay(m, sorted) == Replay(m, callbacks)
  {
    assert SamePaths(sorted) by {
      assert forall c <- sorted :: c in multiset(sorted);
    }
    forall q
      ensures Lookup(Replay(m, sorted), q) == Lookup(Replay(m, callbacks), q)
    {
      ReplayAt(m, sorted, q);
      ReplayAt(m, callbacks, q);
    }
    SameLookups(Replay(m, sorted), Replay(m, callbacks));
  }

  lemma SameLookups(a: map<Path, Entry>, b: map<Path, Entry>)
    requires forall q :: Lookup(a, q) == Lookup(b, q)
    ensures a == b
  {
    assert forall q :: q in a <==> Lookup(a, q).Some?;
    assert forall q :: q in b <==> Lookup(b, q).Some?;
  }
}
