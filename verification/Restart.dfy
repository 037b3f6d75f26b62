/** The life of a store: created, run, shut down, and loaded again from a list of directories in any order. */
module Restart {
  import opened Bytes
  import opened Spans
  import opened LevelDb
  import opened Index
  import opened Options
  import opened Ingest
  import opened Pipeline
  import opened Conservation
  import opened Loader
  import opened Counting

  /** The world that `CreateDataStore` starts on loaded shards. */
  function Started(dbs: seq<Db>): World {
    World([], seq(|dbs|, _ => []), seq(|dbs|, _ => Idle), seq(|dbs|, _ => []), dbs, 0, 0, 0)
  }

  function DbsAt(disk: Disk, paths: seq<ByteString>): (dbs: seq<Db>)
    requires forall i :: 0 <= i < |paths| ==> paths[i] in disk
    ensures |dbs| == |paths|
  {
    seq(|paths|, i requires 0 <= i < |paths| => disk[paths[i]])
  }

  /** Newly created shards make a fresh store. */
  lemma InitializedIsFresh(disk: Disk, paths: seq<ByteString>, daemonId: UInt64)
    requires Initialized(disk, paths, daemonId, |paths|)
    ensures Fresh(Started(DbsAt(disk, paths)))
  {
  }

  /** The directories hold these databases, numbered in this order, and belong to one daemon. */
  ghost predicate Holds(disk: Disk, paths: seq<ByteString>, dbs: seq<Db>, daemonId: UInt64) {
    |paths| == |dbs| && Distinct(paths) &&
    forall i :: 0 <= i < |paths| ==>
      paths[i] in disk && disk[paths[i]] == dbs[i] &&
      ReadInfo(dbs[i]) == Some(ShardInfo(CURRENT_LAYOUT_VERSION, daemonId, |paths|, i))
  }

  /** Every run leaves the shards' descriptions alone. */
  lemma RunKeepsInfos(w: World, route: SpanId -> int, run: seq<Pipeline.Event>, i: nat)
    requires WellRouted(w, route) && Routes(route, |w.channels|) && EnabledRun(w, route, run) && i < |w.dbs|
    ensures ReadInfo(After(w, route, run).dbs[i]) == ReadInfo(w.dbs[i])
  {
    RunIsIndexRun(w, route, run, i);
    assert ShardOk(w.channels[i], w.workers[i], w.dbs[i], route, i);
    RunKeepsInfo(w.dbs[i], DbEvents(w, route, run, i));
  }

  ghost predicate NoErrors(ioErr: ByteString -> bool) {
    forall p :: !ioErr(p)
  }

  lemma LoadsItsShard(disk: Disk, paths: seq<ByteString>, dbs: seq<Db>, daemonId: UInt64, ioErr: ByteString -> bool,
                      listed: seq<ByteString>, k: nat, i: nat)
    requires Holds(disk, paths, dbs, daemonId) && NoErrors(ioErr) && Distinct(listed)
    requires k < |listed| && i < |paths| && listed[k] == paths[i]
    ensures LoadEach(disk, ioErr, listed)[k] ==
            ShardLoader(paths[i], true, Some(ShardInfo(CURRENT_LAYOUT_VERSION, daemonId, |paths|, i)), false)
  {
    assert listed[k] !in listed[..k];
  }

  /** Listed in any order, the directories load, and shard i comes out at place i. */
  lemma ReloadRestoresOrder(disk: Disk, paths: seq<ByteString>, dbs: seq<Db>, daemonId: UInt64,
                            ioErr: ByteString -> bool, listed: seq<ByteString>)
    requires Holds(disk, paths, dbs, daemonId) && NoErrors(ioErr) && |paths| > 0
    requires |listed| == |paths| && Distinct(listed) && forall p :: p in listed <==> p in paths
    ensures var found := LoadEach(disk, ioErr, listed);
            Consistent(found) && forall r :: Reordered(found, r) ==> Paths(r) == paths
  {
    var found := LoadEach(disk, ioErr, listed);
    forall k | 0 <= k < |listed|
      ensures exists i :: 0 <= i < |paths| && listed[k] == paths[i] &&
                found[k] == ShardLoader(paths[i], true,
                                        Some(ShardInfo(CURRENT_LAYOUT_VERSION, daemonId, |paths|, i)), false)
    {
      assert listed[k] in paths;
      var i :| 0 <= i < |paths| && listed[k] == paths[i];
      LoadsItsShard(disk, paths, dbs, daemonId, ioErr, listed, k, i);
    }
    forall r: seq<ShardLoader> | Reordered(found, r) ensures Paths(r) == paths {
      forall i | 0 <= i < |r| ensures r[i].path == paths[i] {
        assert r[i] in found;
        var k :| 0 <= k < |found| && found[k] == r[i];
      }
    }
  }

  /** The loaded shard that an id is routed to answers for it as the running one did. */
  ghost predicate FindsIt(loaded: seq<ShardLoader>, disk: Disk, dbs: seq<Db>, route: SpanId -> int, id: SpanId) {
    0 <= route(id) < |loaded| == |dbs| && loaded[route(id)].path in disk &&
    FindSpan(disk[loaded[route(id)].path], id) == FindSpan(dbs[route(id)], id)
  }

  ghost predicate FindsSame(loaded: seq<ShardLoader>, disk: Disk, dbs: seq<Db>, route: SpanId -> int) {
    forall id :: FindsIt(loaded, disk, dbs, route, id)
  }

  /**
   * Create a store, run it in any way, stop, list the directories in any other order and load
   * again: every shard is back in its place with its database, so a span is found under its id
   * after the restart exactly as before.
   */
  lemma RestartFindsSame(disk: Disk, paths: seq<ByteString>, daemonId: UInt64, route: SpanId -> int,
                         run: seq<Pipeline.Event>, stopped: Disk, listed: seq<ByteString>, ioErr: ByteString -> bool)
    requires |paths| > 0 && Distinct(paths) && Initialized(disk, paths, daemonId, |paths|) && Routes(route, |paths|)
    requires EnabledRun(Started(DbsAt(disk, paths)), route, run)
    requires forall i :: 0 <= i < |paths| ==>
               paths[i] in stopped && stopped[paths[i]] == After(Started(DbsAt(disk, paths)), route, run).dbs[i]
    requires |listed| == |paths| && Distinct(listed) && (forall p :: p in listed <==> p in paths) && NoErrors(ioErr)
    ensures Consistent(LoadEach(stopped, ioErr, listed))
    ensures forall loaded :: Reordered(LoadEach(stopped, ioErr, listed), loaded) ==>
              FindsSame(loaded, stopped, After(Started(DbsAt(disk, paths)), route, run).dbs, route)
  {
    var w := Started(DbsAt(disk, paths));
    InitializedIsFresh(disk, paths, daemonId);
    FreshIsGood(w, route);
    var dbs := After(w, route, run).dbs;
    forall i | 0 <= i < |paths|
      ensures ReadInfo(dbs[i]) == Some(ShardInfo(CURRENT_LAYOUT_VERSION, daemonId, |paths|, i))
    {
      RunKeepsInfos(w, route, run, i);
    }
    hide After, EnabledRun;
    ReloadRestoresOrder(stopped, paths, dbs, daemonId, ioErr, listed);
    forall loaded: seq<ShardLoader> | Reordered(LoadEach(stopped, ioErr, listed), loaded)
      ensures FindsSame(loaded, stopped, dbs, route)
    {
      forall id ensures FindsIt(loaded, stopped, dbs, route, id) {
        assert Paths(loaded)[route(id)] == paths[route(id)];
      }
    }
  }
}
