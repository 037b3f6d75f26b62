/** Checking the shards' descriptions and putting the shards in order (loader.go). */
module Loader {
  import opened Bytes
  import opened Spans
  import opened LevelDb
  import opened Index
  import opened Options
  import opened Counting

  const CURRENT_LAYOUT_VERSION: UInt64 := 3

  /** The leveldb instances on disk by directory; an empty or missing directory has none. */
  type Disk = map<ByteString, Db>

  /** A configured directory: whether its leveldb is open, its description or the error met reading it. */
  datatype ShardLoader = ShardLoader(path: ByteString, isOpen: bool, info: Option<ShardInfo>, infoErr: bool)

  datatype LoadError =
    | NoShards | InfoError | SomeEmpty | LayoutMismatch | DaemonMismatch | TotalMismatch | BadShardIndex
    | UnsupportedLayout | WrongTotal | DuplicateIndex
    | CreateError
    | IndexPanic // an index expression out of range

  datatype LoadResult = Loaded | Failed(error: LoadError)

  // ---------------------------------------------------------------- when loading succeeds

  ghost predicate AllEmpty(shards: seq<ShardLoader>) {
    |shards| > 0 && forall i :: 0 <= i < |shards| ==> shards[i].info.None? && !shards[i].infoErr
  }

  /** Every shard is described, in the supported layout, as one of these shards of one daemon. */
  ghost predicate SameDaemon(shards: seq<ShardLoader>) {
    |shards| > 0 &&
    (forall i :: 0 <= i < |shards| ==> shards[i].info.Some? && !shards[i].infoErr) &&
    forall i :: 0 <= i < |shards| ==>
      shards[i].info.value.layoutVersion == CURRENT_LAYOUT_VERSION &&
      shards[i].info.value.daemonId == shards[0].info.value.daemonId &&
      shards[i].info.value.totalShards == |shards|
  }

  ghost predicate IndexesInRange(shards: seq<ShardLoader>, from: nat)
    requires SameDaemon(shards)
  {
    forall i :: from <= i < |shards| ==> shards[i].info.value.shardIndex < |shards|
  }

  ghost predicate IndexesDistinct(shards: seq<ShardLoader>, n: nat)
    requires SameDaemon(shards) && n <= |shards|
  {
    forall i, j :: 0 <= i < j < n ==> shards[i].info.value.shardIndex != shards[j].info.value.shardIndex
  }

  /** The descriptions number the shards from zero up, each once. */
  ghost predicate Consistent(shards: seq<ShardLoader>) {
    SameDaemon(shards) && IndexesInRange(shards, 0) && IndexesDistinct(shards, |shards|)
  }

  /** The second list is the first one put in order of shard index. */
  ghost predicate Reordered(shards: seq<ShardLoader>, r: seq<ShardLoader>) {
    |r| == |shards| && Consistent(shards) &&
    (forall i :: 0 <= i < |r| ==> r[i].info.Some? && r[i].info.value.shardIndex == i && r[i] in shards) &&
    forall j :: 0 <= j < |shards| ==> shards[j] == r[shards[j].info.value.shardIndex]
  }

  // ---------------------------------------------------------------- reading the shards

  /** `readShardInfo`. */
  function ReadInfo(db: Db): Option<ShardInfo> {
    if INFO_KEY in db && db[INFO_KEY].InfoRecord? then Some(db[INFO_KEY].info) else None
  }

  /** `ShardLoader.load` for the i-th directory; a leveldb that an earlier entry has opened is locked. */
  function LoadOne(disk: Disk, ioErr: ByteString -> bool, paths: seq<ByteString>, i: nat): ShardLoader
    requires i < |paths|
  {
    var path := paths[i];
    if ioErr(path) then ShardLoader(path, false, None, true)
    else if path !in disk then ShardLoader(path, false, None, false)
    else if path in paths[..i] then ShardLoader(path, false, None, true)
    else
      match ReadInfo(disk[path])
      case None => ShardLoader(path, true, None, true)
      case Some(info) => ShardLoader(path, true, Some(info), false)
  }

  function LoadEach(disk: Disk, ioErr: ByteString -> bool, paths: seq<ByteString>): (shards: seq<ShardLoader>)
    ensures |shards| == |paths|
  {
    seq(|paths|, i requires 0 <= i < |paths| => LoadOne(disk, ioErr, paths, i))
  }

  /** What reading the i-th directory finds. */
  lemma LoadOneFinds(disk: Disk, ioErr: ByteString -> bool, paths: seq<ByteString>, i: nat, info: ShardInfo)
    requires i < |paths|
    ensures var r := LoadEach(disk, ioErr, paths)[i];
            r.path == paths[i] &&
            (r.info == None && !r.infoErr <==> !ioErr(paths[i]) && paths[i] !in disk) &&
            (r.info == Some(info) <==>
             !ioErr(paths[i]) && paths[i] in disk && (forall j :: 0 <= j < i ==> paths[j] != paths[i]) &&
             ['w' as int] in disk[paths[i]] && disk[paths[i]][['w' as int]] == InfoRecord(info)) &&
            (r.info.Some? ==> r.isOpen && !r.infoErr)
  {
    assert paths[i] in paths[..i] <==> exists j :: 0 <= j < i && paths[j] == paths[i];
  }

  /** A store is wholly empty exactly if directories are given, all can be read, and none holds a leveldb. */
  lemma AllEmptyIff(disk: Disk, ioErr: ByteString -> bool, paths: seq<ByteString>)
    ensures AllEmpty(LoadEach(disk, ioErr, paths)) <==>
            |paths| > 0 && forall i :: 0 <= i < |paths| ==> !ioErr(paths[i]) && paths[i] !in disk
  {
    var found := LoadEach(disk, ioErr, paths);
    forall i | 0 <= i < |paths|
      ensures found[i].info.None? && !found[i].infoErr <==> !ioErr(paths[i]) && paths[i] !in disk
    {
      LoadOneFinds(disk, ioErr, paths, i, ShardInfo(0, 0, 0, 0));
    }
    hide LoadEach;
  }

  function Paths(shards: seq<ShardLoader>): (paths: seq<ByteString>)
    ensures |paths| == |shards|
  {
    seq(|shards|, i requires 0 <= i < |shards| => shards[i].path)
  }

  /** The database of a shard that has just been created: its description alone. */
  function NewDb(daemonId: UInt64, total: nat, i: nat): Db {
    map[INFO_KEY := InfoRecord(ShardInfo(CURRENT_LAYOUT_VERSION, daemonId, total, i))]
  }

  /** The first n directories hold new shards, numbered in the order of configuration. */
  ghost predicate Initialized(disk: Disk, paths: seq<ByteString>, daemonId: UInt64, n: nat)
    requires n <= |paths|
  {
    forall i :: 0 <= i < n ==> paths[i] in disk && disk[paths[i]] == NewDb(daemonId, |paths|, i)
  }

  class DataStoreLoader {
    var disk: Disk
    var shards: seq<ShardLoader>

    constructor (disk: Disk, paths: seq<ByteString>)
      ensures this.disk == disk && Paths(shards) == paths
    {
      this.disk := disk;
      shards := seq(|paths|, i requires 0 <= i < |paths| => ShardLoader(paths[i], false, None, false));
    }

    method LoadShards(ioErr: ByteString -> bool)
      modifies this`shards
      ensures shards == LoadEach(disk, ioErr, old(Paths(shards)))
    {
      ghost var paths := Paths(shards);
      for i := 0 to |shards|
        invariant |shards| == |paths| && Paths(shards) == paths
        invariant forall k :: 0 <= k < i ==> shards[k] == LoadOne(disk, ioErr, paths, k)
      {
        assert Paths(shards)[i] == shards[i].path;
        shards := shards[i := LoadOne(disk, ioErr, Paths(shards), i)];
      }
    }

    /**
     * `Load`: read and verify the shards. A consistent store comes up in order with the disk as it
     * was; a wholly empty one is initialised, and nothing else succeeds.
     */
    method Load(ioErr: ByteString -> bool, createOk: nat -> bool, daemonId: UInt64) returns (r: LoadResult)
      modifies this
      ensures var paths := old(Paths(shards));
              var found := LoadEach(old(disk), ioErr, paths);
              (Consistent(found) ==> r == Loaded && disk == old(disk) && Reordered(found, shards)) &&
              (AllEmpty(found) && r == Loaded ==>
                 Distinct(paths) && Initialized(disk, paths, daemonId, |paths|) && Paths(shards) == paths) &&
              (AllEmpty(found) && Distinct(paths) && (forall i: nat :: createOk(i)) ==> r == Loaded) &&
              (r == Loaded ==> Consistent(found) || AllEmpty(found))
    {
      ghost var paths := Paths(shards);
      LoadShards(ioErr);
      ghost var found := shards;
      r := VerifyShardInfos();
      if r != Loaded {
        return;
      }
      if shards[0].isOpen {
        OpenIsNotEmpty(found, paths, disk, ioErr, shards);
        return;
      }
      ClosedIsEmpty(found, paths, disk, ioErr, shards);
      r := CreateShards(createOk, daemonId);
    }

    /** Create a leveldb in every directory; a directory that was created a moment ago is locked. */
    method CreateShards(createOk: nat -> bool, daemonId: UInt64) returns (r: LoadResult)
      requires forall i :: 0 <= i < |shards| ==> shards[i].path !in disk
      modifies this
      ensures Paths(shards) == old(Paths(shards))
      ensures r == Loaded ==> Distinct(Paths(shards)) && Initialized(disk, Paths(shards), daemonId, |shards|)
      ensures Distinct(Paths(shards)) && (forall i: nat :: createOk(i)) ==> r == Loaded
    {
      ghost var paths, was := Paths(shards), disk;
      for i := 0 to |shards|
        invariant |shards| == |paths| && Paths(shards) == paths
        invariant Initialized(disk, paths, daemonId, i) && Distinct(paths[..i])
        invariant forall p :: p in disk <==> p in was || p in paths[..i]
      {
        var shd := shards[i];
        assert Paths(shards)[i] == shd.path && paths[i] !in was;
        assert paths[..i + 1] == paths[..i] + [paths[i]];
        if shd.path in disk || !createOk(i) {
          assert shd.path in disk ==> !Distinct(paths);
          return Failed(CreateError);
        }
        disk := disk[shd.path := NewDb(daemonId, |shards|, i)];
        shards := shards[i := shd.(isOpen := true)];
      }
      assert paths[..|paths|] == paths;
      r := Loaded;
    }

    /** Succeeds on an empty store and on a consistent one, which it puts in order; otherwise changes nothing. */
    method VerifyShardInfos() returns (r: LoadResult)
      modifies this`shards
      ensures r == Loaded <==> AllEmpty(old(shards)) || Consistent(old(shards))
      ensures Consistent(old(shards)) ==> Reordered(old(shards), shards)
      ensures !Consistent(old(shards)) ==> shards == old(shards)
      ensures r == Failed(IndexPanic) <==>
              SameDaemon(old(shards)) && IndexesInRange(old(shards), 1) && !IndexesInRange(old(shards), 0)
    {
      r := CheckInfos(shards);
      if r != Loaded || shards[0].info.None? {
        return;
      }
      var reordered;
      r, reordered := Reorder(shards);
      if r == Loaded {
        shards := reordered;
      }
    }
  }

  lemma OpenIsNotEmpty(found: seq<ShardLoader>, paths: seq<ByteString>, disk: Disk, ioErr: ByteString -> bool,
                       shards: seq<ShardLoader>)
    requires found == LoadEach(disk, ioErr, paths) && |shards| > 0 && shards[0].isOpen
    requires (AllEmpty(found) && shards == found) || Reordered(found, shards)
    ensures !AllEmpty(found)
  {
  }

  lemma ClosedIsEmpty(found: seq<ShardLoader>, paths: seq<ByteString>, disk: Disk, ioErr: ByteString -> bool,
                      shards: seq<ShardLoader>)
    requires found == LoadEach(disk, ioErr, paths) && |shards| > 0 && !shards[0].isOpen
    requires (AllEmpty(found) && !Consistent(found) && shards == found) || Reordered(found, shards)
    ensures AllEmpty(found) && !Consistent(found) && Paths(shards) == paths
    ensures forall i :: 0 <= i < |shards| ==> shards[i].path !in disk
  {
    forall i | 0 <= i < |found| ensures found[i] == LoadOne(disk, ioErr, paths, i) {
    }
  }

  /** Everything up to the reordering. */
  method CheckInfos(shards: seq<ShardLoader>) returns (r: LoadResult)
    ensures r == Loaded <==> AllEmpty(shards) || (SameDaemon(shards) && IndexesInRange(shards, 1))
    ensures r != Failed(IndexPanic)
  {
    if |shards| < 1 {
      return Failed(NoShards);
    }
    for i := 0 to |shards|
      invariant forall j :: 0 <= j < i ==> !shards[j].infoErr
    {
      if shards[i].infoErr {
        return Failed(InfoError);
      }
    }
    var someEmpty := false;
    for i := 0 to |shards|
      invariant someEmpty <==> exists j :: 0 <= j < i && shards[j].info.None?
    {
      if shards[i].info.None? {
        someEmpty := true;
      }
    }
    if someEmpty {
      for i := 0 to |shards|
        invariant forall j :: 0 <= j < i ==> shards[j].info.None?
      {
        if shards[i].info.Some? {
          return Failed(SomeEmpty);
        }
      }
      return Loaded;
    }
    r := CheckDescriptions(shards);
  }

  method CheckDescriptions(shards: seq<ShardLoader>) returns (r: LoadResult)
    requires |shards| > 0 && forall i :: 0 <= i < |shards| ==> shards[i].info.Some? && !shards[i].infoErr
    ensures r == Loaded <==> SameDaemon(shards) && IndexesInRange(shards, 1)
    ensures r != Failed(IndexPanic)
  {
    var first := shards[0].info.value;
    for i := 1 to |shards|
      invariant forall j :: 1 <= j < i ==>
                  shards[j].info.value.layoutVersion == first.layoutVersion &&
                  shards[j].info.value.daemonId == first.daemonId &&
                  shards[j].info.value.totalShards == first.totalShards &&
                  shards[j].info.value.shardIndex < first.totalShards
    {
      var info := shards[i].info.value;
      if first.layoutVersion != info.layoutVersion {
        return Failed(LayoutMismatch);
      }
      if first.daemonId != info.daemonId {
        return Failed(DaemonMismatch);
      }
      if first.totalShards != info.totalShards {
        return Failed(TotalMismatch);
      }
      if info.shardIndex >= first.totalShards {
        return Failed(BadShardIndex);
      }
    }
    if first.layoutVersion != CURRENT_LAYOUT_VERSION {
      return Failed(UnsupportedLayout);
    }
    if first.totalShards != |shards| {
      return Failed(WrongTotal);
    }
    return Loaded;
  }

  /** Place each shard at its index. */
  method Reorder(shards: seq<ShardLoader>) returns (r: LoadResult, reordered: seq<ShardLoader>)
    requires SameDaemon(shards) && IndexesInRange(shards, 1)
    ensures r == Loaded <==> Consistent(shards)
    ensures r == Loaded ==> Reordered(shards, reordered)
    ensures r == Failed(IndexPanic) <==> !IndexesInRange(shards, 0)
  {
    var slots: seq<Option<ShardLoader>> := seq(|shards|, _ => None);
    reordered := [];
    PlaceNone(shards, slots);
    hide Placed, IndexesDistinct;
    for i := 0 to |shards|
      invariant |slots| == |shards| && (i > 0 ==> IndexesInRange(shards, 0))
      invariant IndexesDistinct(shards, i) && Placed(shards, i, slots)
    {
      var shardIdx := shards[i].info.value.shardIndex;
      if shardIdx >= |shards| {
        return Failed(IndexPanic), []; // only the first shard's index is unchecked
      }
      if slots[shardIdx].Some? {
        SlotTaken(shards, i, slots);
        return Failed(DuplicateIndex), [];
      }
      PlaceNext(shards, i, slots);
      slots := slots[shardIdx := Some(shards[i])];
    }
    AllPlaced(shards, slots);
    reordered := seq(|slots|, i requires 0 <= i < |slots| => slots[i].value);
    PlacedIsReordered(shards, slots, reordered);
    r := Loaded;
  }

  /** The first n shards are in their slots, and the other slots are free. */
  ghost predicate Placed(shards: seq<ShardLoader>, n: nat, slots: seq<Option<ShardLoader>>)
    requires SameDaemon(shards) && n <= |shards| == |slots|
  {
    (forall j :: 0 <= j < n ==>
       shards[j].info.value.shardIndex < |slots| && slots[shards[j].info.value.shardIndex] == Some(shards[j])) &&
    forall k :: 0 <= k < |slots| && slots[k].Some? ==>
      exists j :: 0 <= j < n && shards[j] == slots[k].value && shards[j].info.value.shardIndex == k
  }

  lemma PlaceNone(shards: seq<ShardLoader>, slots: seq<Option<ShardLoader>>)
    requires SameDaemon(shards) && |slots| == |shards| && forall k :: 0 <= k < |slots| ==> slots[k].None?
    ensures Placed(shards, 0, slots) && IndexesDistinct(shards, 0)
  {
  }

  lemma PlaceNext(shards: seq<ShardLoader>, i: nat, slots: seq<Option<ShardLoader>>)
    requires SameDaemon(shards) && i < |shards| == |slots| && IndexesDistinct(shards, i) && Placed(shards, i, slots)
    requires var k := shards[i].info.value.shardIndex; k < |slots| && slots[k].None?
    ensures var k := shards[i].info.value.shardIndex;
            Placed(shards, i + 1, slots[k := Some(shards[i])]) && IndexesDistinct(shards, i + 1)
  {
  }

  lemma SlotTaken(shards: seq<ShardLoader>, i: nat, slots: seq<Option<ShardLoader>>)
    requires SameDaemon(shards) && i < |shards| == |slots| && Placed(shards, i, slots)
    requires var k := shards[i].info.value.shardIndex; k < |slots| && slots[k].Some?
    ensures !IndexesDistinct(shards, |shards|)
  {
  }

  lemma PlacedIsReordered(shards: seq<ShardLoader>, slots: seq<Option<ShardLoader>>, r: seq<ShardLoader>)
    requires Consistent(shards) && |shards| == |slots| == |r| && Placed(shards, |shards|, slots)
    requires forall k :: 0 <= k < |slots| ==> slots[k] == Some(r[k])
    ensures Reordered(shards, r)
  {
  }

  /** As many distinct indexes as there are slots leave no slot free. */
  lemma AllPlaced(shards: seq<ShardLoader>, slots: seq<Option<ShardLoader>>)
    requires SameDaemon(shards) && |shards| == |slots| && IndexesInRange(shards, 0) && IndexesDistinct(shards, |shards|)
    requires Placed(shards, |shards|, slots)
    ensures forall k :: 0 <= k < |slots| ==> slots[k].Some?
  {
    var ixs := seq(|shards|, j requires 0 <= j < |shards| => shards[j].info.value.shardIndex);
    Pigeonhole(ixs, |shards|);
    forall k | 0 <= k < |slots| ensures slots[k].Some? {
      assert k in ixs;
      var j :| 0 <= j < |shards| && ixs[j] == k;
    }
  }

  // ---------------------------------------------------------------- order of configuration

  /** However the directories are listed, the same shard ends up in the same place. */
  lemma OrderDoesNotMatter(a: seq<ShardLoader>, b: seq<ShardLoader>, ra: seq<ShardLoader>, rb: seq<ShardLoader>)
    requires Reordered(a, ra) && Reordered(b, rb) && forall s :: s in a <==> s in b
    ensures ra == rb
  {
    assert |ra| == |rb| by {
      assert a[0] in b;
    }
    forall i | 0 <= i < |ra| ensures ra[i] == rb[i] {
      assert ra[i] in b;
      var j :| 0 <= j < |b| && b[j] == ra[i];
    }
  }
}
