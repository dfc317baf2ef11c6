/** The native event streams of one run loop: those that lie below another are pruned. */
module AppleFileSystem {
  /** A stream: its id and the path that it watches. */
  type Stream = (int, string)

  /** One stream makes another redundant: its path is a string prefix, and of two streams with the
      same path the later one is kept. */
  predicate MakesRedundant(streams: seq<Stream>, m: nat, k: nat)
    requires m < |streams| && k < |streams|
  {
    m != k && streams[m].1 <= streams[k].1 && (streams[m].1 == streams[k].1 ==> k < m)
  }

  ghost predicate Redundant(streams: seq<Stream>, k: nat)
    requires k < |streams|
  {
    exists m :: 0 <= m < |streams| && MakesRedundant(streams, m, k)
  }

  ghost predicate Survives(streams: seq<Stream>, k: nat)
    requires k < |streams|
  {
    !Redundant(streams, k)
  }

  /** No surviving path is a string prefix of another one, and no path survives twice. */
  lemma SurvivorsApart(streams: seq<Stream>, k: nat, m: nat)
    requires k < |streams| && m < |streams| && k != m && Survives(streams, k) && Survives(streams, m)
    ensures !(streams[m].1 <= streams[k].1)
  {
    if streams[m].1 <= streams[k].1 {
      var first, second := if k < m then k else m, if k < m then m else k;
      if streams[m].1 == streams[k].1 {
        assert MakesRedundant(streams, second, first);
      } else {
        assert MakesRedundant(streams, m, k);
      }
    }
  }

  /** For every stream, one survives whose path is a string prefix of its own. */
  lemma {:induction false} SomePrefixSurvives(streams: seq<Stream>, k: nat) returns (m: nat)
    requires k < |streams|
    ensures m < |streams| && Survives(streams, m) && streams[m].1 <= streams[k].1
    decreases |streams[k].1|, |streams| - k
  {
    if Survives(streams, k) {
      m := k;
    } else {
      var other: nat :| other < |streams| && MakesRedundant(streams, other, k);
      if |streams[other].1| == |streams[k].1| {
        assert streams[other].1 == streams[k].1;
      }
      m := SomePrefixSurvives(streams, other);
    }
  }

  // ----- string prefixes and directories

  /** A stream for `dir` reports what happens to `path`: it is the directory or lies below it. */
  predicate Under(dir: string, path: string) {
    path == dir || (dir < path && ((dir != [] && dir[|dir| - 1] == '/') || path[|dir|] == '/'))
  }

  lemma UnderTransitive(a: string, b: string, c: string)
    requires Under(a, b) && Under(b, c)
    ensures Under(a, c)
  {
  }

  /** A surviving stream reports what happens to this path. */
  ghost predicate WatchedBy(streams: seq<Stream>, m: nat, path: string)
    requires m < |streams|
  {
    Survives(streams, m) && Under(streams[m].1, path)
  }

  ghost predicate Watched(streams: seq<Stream>, path: string) {
    exists m: nat :: m < |streams| && WatchedBy(streams, m, path)
  }

  /** Every path that some stream reported is still reported. */
  ghost predicate StillWatched(streams: seq<Stream>) {
    forall k: nat, path: string | k < |streams| && Under(streams[k].1, path) :: Watched(streams, path)
  }

  /** No stream has a path that is a proper string prefix of this one. */
  predicate Shortest(streams: seq<Stream>, m: nat)
    requires m < |streams|
  {
    forall j | 0 <= j < |streams| :: !(streams[j].1 < streams[m].1)
  }

  /** A shortest string prefix of a watched path is always a directory prefix. */
  ghost predicate PrefixesAreDirectories(streams: seq<Stream>) {
    forall k: nat, m: nat | k < |streams| && m < |streams| :: PrefixIsDirectory(streams, k, m)
  }

  predicate PrefixIsDirectory(streams: seq<Stream>, k: nat, m: nat)
    requires k < |streams| && m < |streams|
  {
    streams[m].1 <= streams[k].1 && Shortest(streams, m) ==> Under(streams[m].1, streams[k].1)
  }

  /** Pruning compares strings, not names. It keeps every path watched if and only if a shortest
      string prefix is always a directory prefix. */
  lemma PruningKeepsWatch(streams: seq<Stream>)
    ensures StillWatched(streams) <==> PrefixesAreDirectories(streams)
  {
    if StillWatched(streams) { WatchedThenDirectories(streams); }
    if PrefixesAreDirectories(streams) { DirectoriesThenWatched(streams); }
  }

  lemma WatchedThenDirectories(streams: seq<Stream>)
    requires StillWatched(streams)
    ensures PrefixesAreDirectories(streams)
  {
    forall k: nat, m: nat | k < |streams| && m < |streams|
      ensures PrefixIsDirectory(streams, k, m)
    {
      if streams[m].1 <= streams[k].1 && Shortest(streams, m) {
        assert Under(streams[k].1, streams[k].1) && Watched(streams, streams[k].1);
        var s: nat :| s < |streams| && WatchedBy(streams, s, streams[k].1);
        SameShortest(streams, k, m, s);
      }
    }
  }

  lemma DirectoriesThenWatched(streams: seq<Stream>)
    requires PrefixesAreDirectories(streams)
    ensures StillWatched(streams)
  {
    forall k: nat, path: string | k < |streams| && Under(streams[k].1, path)
      ensures Watched(streams, path)
    {
      var m := SomePrefixSurvives(streams, k);
      SurvivorShortest(streams, m);
      assert PrefixIsDirectory(streams, k, m);
      UnderTransitive(streams[m].1, streams[k].1, path);
      assert WatchedBy(streams, m, path);
    }
  }

  lemma SurvivorShortest(streams: seq<Stream>, m: nat)
    requires m < |streams| && Survives(streams, m)
    ensures Shortest(streams, m)
  {
    forall j | 0 <= j < |streams|
      ensures !(streams[j].1 < streams[m].1)
    {
      assert !MakesRedundant(streams, j, m);
    }
  }

  lemma SameShortest(streams: seq<Stream>, k: nat, m: nat, s: nat)
    requires k < |streams| && m < |streams| && s < |streams|
    requires streams[m].1 <= streams[k].1 && streams[s].1 <= streams[k].1
    requires Shortest(streams, m) && Survives(streams, s)
    ensures streams[m].1 == streams[s].1
  {
    var p, q := streams[m].1, streams[s].1;
    SurvivorShortest(streams, s);
    assert p == streams[k].1[..|p|] && q == streams[k].1[..|q|];
    assert !(p < q) && !(q < p);
  }

  // ----- starting streams

  /** `startStream`: no stream is started when the path of one that is running is a string prefix. */
  function Started(handles: map<int, string>, id: int, path: string): map<int, string> {
    if exists k :: k in handles && handles[k] <= path then handles else handles[id := path]
  }

  /** No path is a string prefix of a path started later. */
  ghost predicate StartedApart(handles: map<int, string>, nextId: int) {
    && (forall id <- handles :: id < nextId)
    && (forall id, later | id in handles && later in handles && id < later :: !(handles[id] <= handles[later]))
  }

  lemma StartKeepsApart(handles: map<int, string>, nextId: int, path: string)
    requires StartedApart(handles, nextId)
    ensures StartedApart(Started(handles, nextId, path), nextId + 1)
  {
  }

  /** Stopping streams keeps the rest apart. */
  lemma FewerApart(handles: map<int, string>, nextId: int, redundant: set<int>, toRemove: seq<int>, ids: seq<int>)
    requires StartedApart(handles, nextId)
    requires forall id :: id in ids <==> id in redundant || id in toRemove
    ensures handles - (set id | id in ids) == handles - redundant - (set id | id in toRemove)
    ensures StartedApart(handles - (set id | id in ids), nextId)
  {
    var gone, removed := set id | id in ids, set id | id in toRemove;
    forall id: int
      ensures id in gone <==> id in redundant + removed
    {
      assert id in gone <==> id in ids;
      assert id in removed <==> id in toRemove;
    }
    assert gone == redundant + removed;
    assert handles - gone == handles - redundant - removed;
  }

  /** So of two streams that have been started, only the earlier one can be pruned, in favour of one
      started later with a shorter path. */
  lemma OnlyEarlierPruned(handles: map<int, string>, nextId: int, streams: seq<Stream>, m: nat, k: nat)
    requires StartedApart(handles, nextId) && Lists(handles, streams)
    requires m < |streams| && k < |streams| && MakesRedundant(streams, m, k)
    ensures k < m
  {
  }

  /** The stream of "/a", when it is started after that of "/ab", replaces it, and does not report it. In
      the other order the second stream would not have been started. */
  lemma NotADirectoryPrefix()
    ensures var handles := Started(Started(map[], 0, "/ab"), 1, "/a");
            var streams := [(0, "/ab"), (1, "/a")];
            Lists(handles, streams) && !StillWatched(streams)
  {
    var handles := Started(Started(map[], 0, "/ab"), 1, "/a");
    var streams := [(0, "/ab"), (1, "/a")];
    assert streams[0].1 == "/ab" && streams[1].1 == "/a" && |"/ab"| == 3 && |"/a"| == 2;
    assert handles == map[0 := "/ab", 1 := "/a"];
    assert Lists(handles, streams) by {
      assert streams[0].0 == 0 && streams[1].0 == 1;
    }
    assert Shortest(streams, 1);
    assert streams[1].1 <= streams[0].1 && !Under(streams[1].1, streams[0].1);
    assert !PrefixIsDirectory(streams, 0, 1);
    PruningKeepsWatch(streams);
  }

  // ----- the objects

  /** The streams of a map are visited in the order of their ids. */
  ghost predicate Lists(handles: map<int, string>, streams: seq<Stream>) {
    && (forall i, j | 0 <= i < j < |streams| :: streams[i].0 < streams[j].0)
    && (forall i | 0 <= i < |streams| :: streams[i].0 in handles && handles[streams[i].0] == streams[i].1)
    && (forall id <- handles :: exists i :: 0 <= i < |streams| && streams[i].0 == id)
  }

  /** The ids of streams that pruning finds redundant. */
  ghost function RedundantIds(streams: seq<Stream>): set<int> {
    set k | 0 <= k < |streams| && Redundant(streams, k) :: streams[k].0
  }

  lemma {:induction false} LeastId(ids: set<int>) returns (least: int)
    requires ids != {}
    ensures least in ids && forall id <- ids :: least <= id
    decreases |ids|
  {
    assert (forall id: int :: id !in ids) ==> ids == {};
    var some :| some in ids;
    var rest := ids - {some};
    assert forall id <- ids :: id == some || id in rest;
    least := some;
    if rest != {} {
      var next := LeastId(rest);
      least := if next < some then next else some;
    }
  }

  lemma ListsMore(handles: map<int, string>, todo: set<int>, id: int, streams: seq<Stream>)
    requires id in todo && todo <= handles.Keys && Lists(handles - todo, streams)
    requires forall i | 0 <= i < |streams| :: streams[i].0 < id
    ensures Lists(handles - (todo - {id}), streams + [(id, handles[id])])
  {
    var more := streams + [(id, handles[id])];
    forall other | other in handles - (todo - {id})
      ensures exists i :: 0 <= i < |more| && more[i].0 == other
    {
      if other == id {
        assert more[|streams|].0 == other;
      } else {
        assert other in handles - todo;
        var i :| 0 <= i < |streams| && streams[i].0 == other;
        assert more[i].0 == other;
      }
    }
  }

  /** The pair of streams `x` and `y` makes the one with this id redundant. */
  predicate Blames(streams: seq<Stream>, x: nat, y: nat, id: int)
    requires x < |streams| && y < |streams|
  {
    (MakesRedundant(streams, x, y) && id == streams[y].0) || (MakesRedundant(streams, y, x) && id == streams[x].0)
  }

  /** The ids of all pairs that the nested loops have visited. */
  ghost predicate Collected(streams: seq<Stream>, ids: seq<int>, i: nat, j: nat) {
    forall id :: id in ids <==>
      exists x: nat, y: nat :: x < y < |streams| && (x < i || (x == i && y < j)) && Blames(streams, x, y, id)
  }

  lemma CollectedMore(streams: seq<Stream>, ids: seq<int>, i: nat, j: nat, more: seq<int>)
    requires i < j < |streams| && Collected(streams, ids, i, j)
    requires forall id :: id in more <==> id in ids || Blames(streams, i, j, id)
    ensures Collected(streams, more, i, j + 1)
  {
    forall id
      ensures id in more <==>
              exists x: nat, y: nat ::
                x < y < |streams| && (x < i || (x == i && y < j + 1)) && Blames(streams, x, y, id)
    {
    }
  }

  /** The outer loop moves on. */
  lemma CollectedRow(streams: seq<Stream>, ids: seq<int>, i: nat)
    requires i < |streams| && Collected(streams, ids, i, |streams|)
    ensures Collected(streams, ids, i + 1, i + 2)
  {
    forall id
      ensures id in ids <==>
              exists x: nat, y: nat ::
                x < y < |streams| && (x < i + 1 || (x == i + 1 && y < i + 2)) && Blames(streams, x, y, id)
    {
    }
  }

  lemma CollectedAll(streams: seq<Stream>, ids: seq<int>, j: nat)
    requires Collected(streams, ids, |streams|, j)
    ensures forall id :: id in ids <==> id in RedundantIds(streams)
  {
    forall id
      ensures id in ids <==> id in RedundantIds(streams)
    {
      if id in ids {
        var x: nat, y: nat :| x < y < |streams| && Blames(streams, x, y, id);
        assert Redundant(streams, if MakesRedundant(streams, x, y) then y else x);
      }
      if id in RedundantIds(streams) {
        var k: nat :| k < |streams| && Redundant(streams, k) && streams[k].0 == id;
        var m: nat :| m < |streams| && MakesRedundant(streams, m, k);
        assert if m < k then Blames(streams, m, k, id) else Blames(streams, k, m, id);
      }
    }
  }

  /** The streams of a run loop, by id, and the ids of those that are to be stopped. */
  class Handle {
    var streamHandles: map<int, string>
    var streamsToRemove: seq<int>
    var currentId: int
    var stopped: bool
    var closed: bool

    /** What holds of every handle. */
    ghost predicate Valid()
      reads this
    {
      StartedApart(streamHandles, currentId)
    }

    constructor ()
      ensures Valid() && streamHandles == map[] && streamsToRemove == [] && !stopped && !closed
    {
      streamHandles, streamsToRemove := map[], [];
      currentId, stopped, closed := 0, false, false;
    }

    /** The streams of the map, in the order of their ids. */
    method ListStreams() returns (streams: seq<Stream>)
      ensures Lists(streamHandles, streams)
    {
      streams := [];
      var todo: set<int> := streamHandles.Keys;
      while todo != {}
        invariant todo <= streamHandles.Keys
        invariant Lists(streamHandles - todo, streams)
        invariant forall i, id | 0 <= i < |streams| && id in todo :: streams[i].0 < id
        decreases todo
      {
        ghost var least := LeastId(todo);
        var id :| id in todo && forall other <- todo :: id <= other;
        ListsMore(streamHandles, todo, id, streams);
        streams, todo := streams + [(id, streamHandles[id])], todo - {id};
      }
      assert streamHandles - {} == streamHandles;
    }

    /** `startStream`: the id of a running stream whose path is a string prefix, or a new stream;
        `starts` says whether the system starts it. */
    method StartStream(path: string, starts: bool) returns (id: int)
      requires Valid()
      modifies this`streamHandles, this`currentId
      ensures Valid()
      ensures if stopped then id == -1 && streamHandles == old(streamHandles)
              else if exists k :: k in old(streamHandles) && old(streamHandles)[k] <= path then
                && streamHandles == old(streamHandles) && id in streamHandles && streamHandles[id] <= path
              else if starts then
                id == old(currentId) && streamHandles == Started(old(streamHandles), id, path)
              else id == -1 && streamHandles == old(streamHandles)
    {
      if stopped {
        return -1;
      }
      var streams := ListStreams();
      for i := 0 to |streams|
        invariant forall j | 0 <= j < i :: !(streams[j].1 <= path)
      {
        if streams[i].1 <= path {
          return streams[i].0;
        }
      }
      if !starts {
        return -1;
      }
      StartKeepsApart(streamHandles, currentId, path);
      id := currentId;
      currentId := currentId + 1;
      streamHandles := streamHandles[id := path];
    }

    /** The ids that the two nested loops collect. */
    method FindRedundant(streams: seq<Stream>) returns (redundantIds: seq<int>)
      ensures forall id :: id in redundantIds <==> id in RedundantIds(streams)
    {
      redundantIds := [];
      var i := 0;
      while i < |streams|
        invariant 0 <= i <= |streams| && Collected(streams, redundantIds, i, i + 1)
      {
        var j := i + 1;
        while j < |streams|
          invariant i < j <= |streams| && Collected(streams, redundantIds, i, j)
        {
          ghost var before := redundantIds;
          var lpath, rpath := streams[i].1, streams[j].1;
          if |rpath| > |lpath| {
            if lpath == rpath[..|lpath|] {
              redundantIds := redundantIds + [streams[j].0];
            }
          } else if rpath == lpath[..|rpath|] {
            redundantIds := redundantIds + [streams[i].0];
          }
          CollectedMore(streams, before, i, j, redundantIds);
          j := j + 1;
        }
        CollectedRow(streams, redundantIds, i);
        i := i + 1;
      }
      CollectedAll(streams, redundantIds, i + 1);
    }

    /** `cleanupFunc`: stops all streams of a run loop that has been stopped, and otherwise the redundant
        ones and those that are to be removed. */
    method Cleanup() returns (ghost streams: seq<Stream>)
      requires Valid()
      modifies this`streamHandles, this`streamsToRemove, this`closed
      ensures Valid()
      ensures Lists(old(streamHandles), streams)
      ensures if stopped then streamHandles == map[] && closed && streamsToRemove == old(streamsToRemove)
              else
                && streamHandles
                   == old(streamHandles) - RedundantIds(streams) - (set id | id in old(streamsToRemove))
                && streamsToRemove == [] && closed == old(closed)
    {
      var listed := ListStreams();
      streams := listed;
      if stopped {
        streamHandles := map[];
        closed := true;
        return;
      }
      var redundantIds := FindRedundant(listed);
      redundantIds := redundantIds + streamsToRemove;
      FewerApart(streamHandles, currentId, RedundantIds(listed), streamsToRemove, redundantIds);
      streamsToRemove := [];
      StopStreams(redundantIds);
    }

    /** Stops the streams with these ids that are still running. */
    method StopStreams(ids: seq<int>)
      modifies this`streamHandles
      ensures streamHandles == old(streamHandles) - set id | id in ids
    {
      for i := 0 to |ids|
        invariant streamHandles == old(streamHandles) - set id | id in ids[..i]
      {
        if ids[i] in streamHandles {
          streamHandles := streamHandles - {ids[i]};
        }
        assert ids[..i + 1] == ids[..i] + [ids[i]];
      }
      assert ids[..|ids|] == ids;
    }
  }

  /** Surviving native streams: with nothing else to be removed, no surviving path is a string prefix
      of another, and every stream has a surviving one whose path is a string prefix of its own. */
  lemma PrunedStreams(handles: map<int, string>, streams: seq<Stream>)
    requires Lists(handles, streams)
    ensures var after := handles - RedundantIds(streams);
            && (forall id, other | id in after && other in after && id != other :: !(after[other] <= after[id]))
            && (forall id <- handles :: exists other :: other in after && after[other] <= handles[id])
  {
    var after := handles - RedundantIds(streams);
    forall id, other | id in after && other in after && id != other
      ensures !(after[other] <= after[id])
    {
      var k, m := IndexOf(handles, streams, id), IndexOf(handles, streams, other);
      SurvivorsApart(streams, k, m);
    }
    forall id | id in handles
      ensures exists other :: other in after && after[other] <= handles[id]
    {
      var m := SomePrefixSurvives(streams, IndexOf(handles, streams, id));
      SurvivorStays(handles, streams, m);
      assert after[streams[m].0] <= handles[id];
    }
  }

  ghost function IndexOf(handles: map<int, string>, streams: seq<Stream>, id: int): (k: nat)
    requires Lists(handles, streams) && id in handles
    ensures k < |streams| && streams[k] == (id, handles[id])
    ensures id !in RedundantIds(streams) ==> Survives(streams, k)
  {
    var k :| 0 <= k < |streams| && streams[k].0 == id;
    k
  }

  lemma SurvivorStays(handles: map<int, string>, streams: seq<Stream>, m: nat)
    requires Lists(handles, streams) && m < |streams| && Survives(streams, m)
    ensures streams[m].0 in handles && streams[m].0 !in RedundantIds(streams)
    ensures handles[streams[m].0] == streams[m].1
  {
  }
}
