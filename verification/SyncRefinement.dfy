/**
 The sync engine's storage is the physical store seen from above: the in-order check, a commit
 and a rollback of the physical store are those of module SyncStorage.
 */
module SyncRefinement {
  import opened Basics
  import opened Versions
  import opened Physical
  import opened Rollback
  import Store
  import S = SyncStorage

  function RecordHeights(db: Db): set<nat> {
    set pk | pk in db && pk.HashAt? :: pk.height
  }

  function ListedHeights(db: Db): set<nat> {
    set pk | pk in db && pk.ManifestAt? :: pk.height
  }

  lemma HeightsAre(db: Db)
    ensures forall h :: h in RecordHeights(db) <==> HashAt(h) in db
    ensures forall h :: h in ListedHeights(db) <==> ManifestAt(h) in db
  {
    forall h
      ensures HashAt(h) in db ==> h in RecordHeights(db)
      ensures ManifestAt(h) in db ==> h in ListedHeights(db)
    {
      assert HashAt(h).HashAt? && HashAt(h).height == h;
      assert ManifestAt(h).ManifestAt? && ManifestAt(h).height == h;
    }
  }

  /** The runtime's pointer; a missing one counts as zero. */
  function StoredRuntimeTip(db: Db): nat {
    if RuntimeTip in db && db[RuntimeTip].Num? then db[RuntimeTip].n else 0
  }

  function KeysIn(cell: Cell): set<Key> {
    if cell.Keys? then set k | k in cell.keys else {}
  }

  /** The keys in each manifest. */
  function Manifests(db: Db): map<nat, set<Key>> {
    map h | h in ListedHeights(db) && ManifestAt(h) in db :: KeysIn(db[ManifestAt(h)])
  }

  function RecordBytes(cell: Cell): Bytes {
    if cell.Blob? then cell.bytes else []
  }

  /** The storage a physical store stands for; `decode` reads a hash out of a record. */
  function Abstract(db: Db, decode: Bytes -> S.BlockHash): S.Storage {
    S.Storage(Store.StoredTip(db), StoredRuntimeTip(db), Records(db, decode), VersionsIn(db), Manifests(db))
  }

  lemma {:induction false} SameInOrder(db: Db, decode: Bytes -> S.BlockHash, height: nat)
    ensures Store.InOrder(db, height) <==> S.InOrder(Abstract(db, decode), height)
  {
    HeightsAre(db);
  }

  function Records(db: Db, decode: Bytes -> S.BlockHash): map<nat, S.BlockHash> {
    map h | h in RecordHeights(db) && HashAt(h) in db :: decode(RecordBytes(db[HashAt(h)]))
  }

  lemma {:induction false} CommitRecords(db: Db, height: nat, hash: Bytes, writes: seq<Write>, root: Bytes, h: nat)
    requires Shaped(db)
    ensures var after := Committed(db, height, hash, writes, root);
            && (HashAt(h) in after <==> h == height || HashAt(h) in db)
            && (HashAt(h) in after ==> after[HashAt(h)] == if h == height then Blob(hash) else db[HashAt(h)])
            && (ManifestAt(h) in after <==> (h == height && writes != []) || ManifestAt(h) in db)
  {
    AppendAllShaped(db, height, writes);
  }

  lemma {:induction false} CommitHashes(db: Db, decode: Bytes -> S.BlockHash, height: nat, hash: Bytes,
                                        writes: seq<Write>, root: Bytes)
    requires Shaped(db)
    ensures Records(Committed(db, height, hash, writes, root), decode) == Records(db, decode)[height := decode(hash)]
  {
    var after := Committed(db, height, hash, writes, root);
    HeightsAre(db);
    HeightsAre(after);
    forall h: nat
      ensures HashAt(h) in after <==> h == height || HashAt(h) in db
      ensures HashAt(h) in after ==> after[HashAt(h)] == if h == height then Blob(hash) else db[HashAt(h)]
    {
      CommitRecords(db, height, hash, writes, root, h);
    }
  }

  lemma {:induction false} CommitListed(db: Db, height: nat, hash: Bytes, writes: seq<Write>, root: Bytes)
    requires Shaped(db)
    ensures Manifests(Committed(db, height, hash, writes, root)) ==
            if writes == [] then Manifests(db) else Manifests(db)[height := KeysWritten(writes)]
  {
    var after := Committed(db, height, hash, writes, root);
    HeightsAre(db);
    HeightsAre(after);
    assert KeysIn(Keys(UniqueKeys(writes))) == KeysWritten(writes);
    forall h: nat
      ensures ManifestAt(h) in after <==> (h == height && writes != []) || ManifestAt(h) in db
      ensures ManifestAt(h) in after ==>
                after[ManifestAt(h)] == if h == height && writes != [] then Keys(UniqueKeys(writes)) else db[ManifestAt(h)]
    {
      AppendAllShaped(db, height, writes);
    }
  }

  lemma {:induction false} CommitFields(st: S.Storage, height: nat, hash: S.BlockHash, writes: seq<Write>, after: S.Storage)
    requires after.tip == height && after.runtimeTip == height && after.hashes == st.hashes[height := hash]
    requires after.versions == AppendBlock(st.versions, height, writes)
    requires after.listed == if writes == [] then st.listed else st.listed[height := KeysWritten(writes)]
    ensures after == S.Commit(st, height, hash, writes)
  {
  }

  lemma {:induction false} CommitPointers(db: Db, height: nat, hash: Bytes, writes: seq<Write>, root: Bytes)
    ensures var after := Committed(db, height, hash, writes, root);
            Store.StoredTip(after) == StoredRuntimeTip(after) == height
  {
  }

  lemma {:induction false} CommitLists(db: Db, height: nat, hash: Bytes, writes: seq<Write>, root: Bytes)
    requires WellFormed(db) && Bounded(db, height - 1)
    ensures VersionsIn(Committed(db, height, hash, writes, root)) == AppendBlock(VersionsIn(db), height, writes)
  {
    CommitRefines(db, height, hash, writes, root);
  }

  lemma {:induction false} ShapedCommit(db: Db, decode: Bytes -> S.BlockHash, height: nat, hash: Bytes,
                                        writes: seq<Write>, root: Bytes, after: Db)
    requires Shaped(db) && after == Committed(db, height, hash, writes, root)
    requires VersionsIn(after) == AppendBlock(VersionsIn(db), height, writes)
    ensures Abstract(after, decode) == S.Commit(Abstract(db, decode), height, decode(hash), writes)
  {
    CommitHashes(db, decode, height, hash, writes, root);
    CommitListed(db, height, hash, writes, root);
    CommitPointers(db, height, hash, writes, root);
    CommitFields(Abstract(db, decode), height, decode(hash), writes, Abstract(after, decode));
  }

  /** A physical commit is a commit. */
  lemma {:induction false} CommitIsCommit(db: Db, decode: Bytes -> S.BlockHash, height: nat, hash: Bytes,
                                          writes: seq<Write>, root: Bytes, after: Db)
    requires WellFormed(db) && Bounded(db, height - 1) && after == Committed(db, height, hash, writes, root)
    ensures Abstract(after, decode) == S.Commit(Abstract(db, decode), height, decode(hash), writes)
  {
    CommitLists(db, height, hash, writes, root);
    ShapedCommit(db, decode, height, hash, writes, root, after);
  }

  ghost predicate RolledBackAt(db: Db, height: nat, current: nat, pk: PhysKey)
    requires pk.HashAt? || pk.ManifestAt?
  {
    var after := RolledBack(db, height, current);
    && (pk in after <==> (pk in db && !(height < pk.height <= current && ManifestsPresent(db, height, current))))
    && (pk in after ==> after[pk] == db[pk])
  }

  lemma {:induction false} RolledBackRecords(db: Db, height: nat, current: nat, pk: PhysKey)
    requires pk.HashAt? || pk.ManifestAt?
    ensures RolledBackAt(db, height, current, pk)
  {
    if height < current {
      FastRecords(db, height, current, height, pk);
    }
  }

  lemma {:induction false} RolledBackVersions(db: Db, height: nat, current: nat)
    requires WellFormed(db) && Bounded(db, current)
    ensures VersionsIn(RolledBack(db, height, current)) ==
            if height >= current then VersionsIn(db) else TrimTo(VersionsIn(db), height)
  {
    if height >= current {
      PointerKeepsVersions(db, Num(height));
    } else {
      RollbackRefines(db, height, current);
    }
  }

  lemma {:induction false} PresentIsListed(db: Db, decode: Bytes -> S.BlockHash, target: nat, current: nat)
    ensures S.Listed(Abstract(db, decode), target, current) <==> ManifestsPresent(db, target, current)
  {
    HeightsAre(db);
    forall h: nat ensures h in Abstract(db, decode).listed <==> ManifestAt(h) in db {
    }
    if S.Listed(Abstract(db, decode), target, current) {
      forall h | target < h <= current ensures ManifestAt(h) in db {
        assert h in Abstract(db, decode).listed;
      }
    }
  }

  /** The hash records above `low`, up to `top`, are gone and the others are there. */
  ghost predicate DropsHashes(db: Db, after: Db, low: nat, top: nat) {
    forall h: nat ::
      && (HashAt(h) in after <==> HashAt(h) in db && !(low < h <= top))
      && (HashAt(h) in after ==> after[HashAt(h)] == db[HashAt(h)])
  }

  ghost predicate DropsManifests(db: Db, after: Db, low: nat, top: nat) {
    forall h: nat ::
      && (ManifestAt(h) in after <==> ManifestAt(h) in db && !(low < h <= top))
      && (ManifestAt(h) in after ==> after[ManifestAt(h)] == db[ManifestAt(h)])
  }

  lemma {:induction false} DroppedHashes(db: Db, after: Db, decode: Bytes -> S.BlockHash, low: nat, st: S.Storage)
    requires DropsHashes(db, after, low, st.tip) && st.hashes == Records(db, decode)
    ensures Records(after, decode) == S.HashesWithout(st, low)
  {
    HeightsAre(db);
    HeightsAre(after);
    assert forall h :: h in st.hashes <==> HashAt(h) in db;
  }

  lemma {:induction false} DroppedManifests(db: Db, after: Db, low: nat, st: S.Storage)
    requires DropsManifests(db, after, low, st.tip) && st.listed == Manifests(db)
    ensures Manifests(after) == S.ListedWithout(st, low)
  {
    HeightsAre(db);
    HeightsAre(after);
    assert forall h :: h in st.listed <==> ManifestAt(h) in db;
  }

  lemma {:induction false} NothingDropped(st: S.Storage)
    ensures S.HashesWithout(st, st.tip) == st.hashes && S.ListedWithout(st, st.tip) == st.listed
  {
  }

  lemma {:induction false} RolledBackDrops(db: Db, height: nat, current: nat)
    ensures var low := if height < current && ManifestsPresent(db, height, current) then height else current;
            var after := RolledBack(db, height, current);
            DropsHashes(db, after, low, current) && DropsManifests(db, after, low, current)
  {
    forall h: nat
      ensures RolledBackAt(db, height, current, HashAt(h)) && RolledBackAt(db, height, current, ManifestAt(h))
    {
      RolledBackRecords(db, height, current, HashAt(h));
      RolledBackRecords(db, height, current, ManifestAt(h));
    }
  }

  lemma {:induction false} RolledBackMetadata(db: Db, decode: Bytes -> S.BlockHash, height: nat, st: S.Storage)
    requires st == Abstract(db, decode)
    ensures var after := RolledBack(db, height, st.tip);
            && Records(after, decode) == (if S.Listed(st, height, st.tip) then S.HashesWithout(st, height) else st.hashes)
            && Manifests(after) == (if S.Listed(st, height, st.tip) then S.ListedWithout(st, height) else st.listed)
  {
    var after := RolledBack(db, height, st.tip);
    var low := if height < st.tip && S.Listed(st, height, st.tip) then height else st.tip;
    PresentIsListed(db, decode, height, st.tip);
    RolledBackDrops(db, height, st.tip);
    DroppedHashes(db, after, decode, low, st);
    DroppedManifests(db, after, low, st);
    NothingDropped(st);
    if height >= st.tip {
      assert S.HashesWithout(st, height) == st.hashes && S.ListedWithout(st, height) == st.listed;
    }
  }

  lemma {:induction false} RolledBackPointers(db: Db, height: nat, current: nat)
    ensures Store.StoredTip(RolledBack(db, height, current)) == height
    ensures StoredRuntimeTip(RolledBack(db, height, current)) == StoredRuntimeTip(db)
  {
    FastKeepsPointer(db, height, current, height, RuntimeTip);
  }

  lemma {:induction false} RollbackFields(st: S.Storage, height: nat, after: S.Storage)
    requires after.tip == height && after.runtimeTip == st.runtimeTip
    requires after.versions == if height >= st.tip then st.versions else TrimTo(st.versions, height)
    requires after.hashes == if S.Listed(st, height, st.tip) then S.HashesWithout(st, height) else st.hashes
    requires after.listed == if S.Listed(st, height, st.tip) then S.ListedWithout(st, height) else st.listed
    ensures after == S.RollbackTo(st, height)
  {
    if height >= st.tip {
      assert after.hashes == st.hashes && after.listed == st.listed;
    }
  }

  lemma {:induction false} FastKeepsPointer(db: Db, height: nat, top: nat, low: nat, pk: PhysKey)
    requires pk.RuntimeTip? || pk.IndexedHeight?
    ensures pk in FastPartial(db, height, top, low) <==> pk in db
    ensures pk in db ==> FastPartial(db, height, top, low)[pk] == db[pk]
    decreases top
  {
    if low < top {
      FastKeepsPointer(FastStep(db, height, top), height, top - 1, low, pk);
    }
  }

  /** A physical rollback, on whichever path, is a rollback. */
  lemma {:induction false} RollbackIsRollback(db: Db, decode: Bytes -> S.BlockHash, height: nat)
    requires WellFormed(db) && Bounded(db, Store.StoredTip(db))
    ensures Abstract(RolledBack(db, height, Store.StoredTip(db)), decode) == S.RollbackTo(Abstract(db, decode), height)
  {
    var st := Abstract(db, decode);
    RolledBackPointers(db, height, st.tip);
    RolledBackMetadata(db, decode, height, st);
    RolledBackVersions(db, height, st.tip);
    RollbackFields(st, height, Abstract(RolledBack(db, height, st.tip), decode));
  }

  /** The batch that ends the heal: both pointers, nothing else. */
  function BothPointers(db: Db, height: nat): Db {
    db[IndexedHeight := Num(height)][RuntimeTip := Num(height)]
  }

  lemma {:induction false} PointersKeepLists(db: Db, height: nat)
    ensures VersionsIn(BothPointers(db, height)) == VersionsIn(db)
  {
    var after := BothPointers(db, height);
    forall k ensures HistoryOf(VersionsIn(after), k) == HistoryOf(VersionsIn(db), k) {
      assert Len(after, k) == Len(db, k);
      assert forall i :: EntryAt(after, k, i) == EntryAt(db, k, i);
      assert Hist(after, k) == Hist(db, k);
      VersionsInHistory(after, k);
      VersionsInHistory(db, k);
    }
    VersionsInHistory(after, []);
    VersionsInHistory(db, []);
    SameHistories(VersionsIn(after), VersionsIn(db));
  }

  lemma {:induction false} SameRecords(db: Db, after: Db, decode: Bytes -> S.BlockHash)
    requires forall h: nat :: (HashAt(h) in after <==> HashAt(h) in db) && (HashAt(h) in db ==> after[HashAt(h)] == db[HashAt(h)])
    ensures Records(after, decode) == Records(db, decode)
  {
    HeightsAre(db);
    HeightsAre(after);
  }

  lemma {:induction false} SameManifests(db: Db, after: Db)
    requires forall h: nat ::
               (ManifestAt(h) in after <==> ManifestAt(h) in db) && (ManifestAt(h) in db ==> after[ManifestAt(h)] == db[ManifestAt(h)])
    ensures Manifests(after) == Manifests(db)
  {
    HeightsAre(db);
    HeightsAre(after);
  }

  lemma {:induction false} SameButPointers(st: S.Storage, after: S.Storage, height: nat)
    requires after.tip == height && after.runtimeTip == height
    requires after.hashes == st.hashes && after.versions == st.versions && after.listed == st.listed
    ensures after == st.(tip := height, runtimeTip := height)
  {
  }

  lemma {:induction false} PointersKeepRecords(db: Db, decode: Bytes -> S.BlockHash, height: nat)
    ensures Records(BothPointers(db, height), decode) == Records(db, decode)
  {
    SameRecords(db, BothPointers(db, height), decode);
  }

  lemma {:induction false} PointersKeepManifests(db: Db, height: nat)
    ensures Manifests(BothPointers(db, height)) == Manifests(db)
  {
    SameManifests(db, BothPointers(db, height));
  }

  lemma {:induction false} PointersMove(db: Db, height: nat)
    ensures Store.StoredTip(BothPointers(db, height)) == StoredRuntimeTip(BothPointers(db, height)) == height
  {
  }

  /** The physical pointer batch moves both pointers of the storage. */
  lemma {:induction false} PointersArePointers(db: Db, decode: Bytes -> S.BlockHash, height: nat, after: Db)
    requires after == BothPointers(db, height)
    ensures Abstract(after, decode) == Abstract(db, decode).(tip := height, runtimeTip := height)
  {
    PointersKeepLists(db, height);
    PointersKeepRecords(db, decode, height);
    PointersKeepManifests(db, height);
    PointersMove(db, height);
    SameButPointers(Abstract(db, decode), Abstract(after, decode), height);
  }

  // ---------------------------------------------------------------- killed rollbacks

  lemma {:induction false} StoppedMetadata(db: Db, current: nat, crash: Crash, pk: PhysKey)
    requires pk.HashAt? || pk.ManifestAt?
    ensures var after := Stopped(db, current, crash);
            && (pk in after <==> pk in db && !(ReachedLow(db, current, crash) < pk.height <= current))
            && (pk in after ==> after[pk] == db[pk])
  {
    if crash.target < current && ManifestsPresent(db, crash.target, current) {
      FastRecords(db, crash.target, current, ReachedLow(db, current, crash), pk);
    }
  }

  lemma {:induction false} StoppedDrops(db: Db, current: nat, crash: Crash)
    ensures var low := ReachedLow(db, current, crash);
            var after := Stopped(db, current, crash);
            DropsHashes(db, after, low, current) && DropsManifests(db, after, low, current)
  {
    forall h: nat
      ensures var after, low := Stopped(db, current, crash), ReachedLow(db, current, crash);
              && (HashAt(h) in after <==> HashAt(h) in db && !(low < h <= current))
              && (HashAt(h) in after ==> after[HashAt(h)] == db[HashAt(h)])
              && (ManifestAt(h) in after <==> ManifestAt(h) in db && !(low < h <= current))
              && (ManifestAt(h) in after ==> after[ManifestAt(h)] == db[ManifestAt(h)])
    {
      StoppedMetadata(db, current, crash, HashAt(h));
      StoppedMetadata(db, current, crash, ManifestAt(h));
    }
  }

  lemma {:induction false} ReachedIsReached(db: Db, decode: Bytes -> S.BlockHash, crash: Crash, st: S.Storage)
    requires st == Abstract(db, decode)
    ensures S.Reached(st, crash.target, S.Kill(crash.low, crash.done)) == ReachedLow(db, st.tip, crash)
  {
    PresentIsListed(db, decode, crash.target, st.tip);
  }

  lemma {:induction false} ListedIsListed(db: Db, low: nat, st: S.Storage, key: Key)
    requires Shaped(db) && st.listed == Manifests(db)
    ensures key in S.KeysListed(st, low) <==> ListedAbove(db, low, st.tip, key)
  {
    HeightsAre(db);
    forall h: nat
      ensures (h in st.listed && key in st.listed[h]) <==> InManifest(db, h, key)
    {
    }
  }

  lemma {:induction false} TrimmedIff(db: Db, decode: Bytes -> S.BlockHash, crash: Crash, st: S.Storage, key: Key)
    requires Shaped(db) && st == Abstract(db, decode)
    ensures key in S.KeysTrimmed(st, crash.target, S.Kill(crash.low, crash.done)) <==> Trimmed(db, st.tip, crash, key)
  {
    PresentIsListed(db, decode, crash.target, st.tip);
    ReachedIsReached(db, decode, crash, st);
    ListedIsListed(db, ReachedLow(db, st.tip, crash), st, key);
  }

  lemma {:induction false} StoppedKey(db: Db, current: nat, crash: Crash, keys: set<Key>, key: Key)
    requires WellFormed(db) && (key in keys <==> Trimmed(db, current, crash, key))
    ensures HistoryOf(VersionsIn(Stopped(db, current, crash)), key) ==
            HistoryOf(S.TrimKeys(VersionsIn(db), keys, crash.target), key)
  {
    StoppedHist(db, current, crash, key);
    VersionsInHistory(db, key);
    VersionsInHistory(Stopped(db, current, crash), key);
    S.TrimKeysHistory(VersionsIn(db), keys, crash.target, key);
  }

  lemma {:induction false} StoppedVersions(db: Db, current: nat, crash: Crash, keys: set<Key>)
    requires WellFormed(db) && forall k :: k in keys <==> Trimmed(db, current, crash, k)
    ensures VersionsIn(Stopped(db, current, crash)) == S.TrimKeys(VersionsIn(db), keys, crash.target)
  {
    var a, b := VersionsIn(Stopped(db, current, crash)), S.TrimKeys(VersionsIn(db), keys, crash.target);
    assert NoEmptyHistory(a) && NoEmptyHistory(b) by {
      VersionsInHistory(db, []);
      VersionsInHistory(Stopped(db, current, crash), []);
      S.TrimKeysHistory(VersionsIn(db), keys, crash.target, []);
    }
    forall k ensures HistoryOf(a, k) == HistoryOf(b, k) {
      StoppedKey(db, current, crash, keys, k);
    }
    SameHistories(a, b);
  }

  lemma {:induction false} StoppedPointers(db: Db, current: nat, crash: Crash)
    ensures Store.StoredTip(Stopped(db, current, crash)) == Store.StoredTip(db)
    ensures StoredRuntimeTip(Stopped(db, current, crash)) == StoredRuntimeTip(db)
  {
    FastKeepsPointer(db, crash.target, current, ReachedLow(db, current, crash), RuntimeTip);
    FastKeepsPointer(db, crash.target, current, ReachedLow(db, current, crash), IndexedHeight);
  }

  lemma {:induction false} StoppedLists(db: Db, decode: Bytes -> S.BlockHash, crash: Crash, st: S.Storage)
    requires WellFormed(db) && st == Abstract(db, decode)
    ensures VersionsIn(Stopped(db, st.tip, crash)) ==
            S.Interrupted(st, crash.target, S.Kill(crash.low, crash.done)).versions
  {
    var keys := S.KeysTrimmed(st, crash.target, S.Kill(crash.low, crash.done));
    forall k ensures k in keys <==> Trimmed(db, st.tip, crash, k) {
      TrimmedIff(db, decode, crash, st, k);
    }
    StoppedVersions(db, st.tip, crash, keys);
  }

  lemma {:induction false} StoppedMetadataIs(db: Db, decode: Bytes -> S.BlockHash, crash: Crash, st: S.Storage)
    requires st == Abstract(db, decode)
    ensures var interrupted := S.Interrupted(st, crash.target, S.Kill(crash.low, crash.done));
            && Records(Stopped(db, st.tip, crash), decode) == interrupted.hashes
            && Manifests(Stopped(db, st.tip, crash)) == interrupted.listed
  {
    ReachedIsReached(db, decode, crash, st);
    StoppedDrops(db, st.tip, crash);
    DroppedHashes(db, Stopped(db, st.tip, crash), decode, ReachedLow(db, st.tip, crash), st);
    DroppedManifests(db, Stopped(db, st.tip, crash), ReachedLow(db, st.tip, crash), st);
  }

  /** A physical rollback killed on either path is a killed rollback. */
  lemma {:induction false} StopIsInterruption(db: Db, decode: Bytes -> S.BlockHash, crash: Crash, st: S.Storage)
    requires WellFormed(db) && st == Abstract(db, decode)
    ensures Abstract(Stopped(db, st.tip, crash), decode) ==
            S.Interrupted(st, crash.target, S.Kill(crash.low, crash.done))
  {
    StoppedPointers(db, st.tip, crash);
    StoppedMetadataIs(db, decode, crash, st);
    StoppedLists(db, decode, crash, st);
  }
}
