/**
 The physical store: one flat map from storage keys to cells. A user key's versions live in
 a length cell and numbered slots; block metadata lives beside them. The map is tied here to
 the version lists of module Versions; module Formats gives the bytes of keys and cells.
 */
module Physical {
  import opened Basics
  import opened Versions

  datatype PhysKey =
    | LengthOf(key: Key)             // key/length
    | Slot(key: Key, index: nat)     // key/index
    | Root(height: nat)              // smt:root:height
    | ManifestAt(height: nat)        // /__INTERNAL/keys-at-height/height
    | HashAt(height: nat)            // /__INTERNAL/height-to-hash/height
    | BlockHashAt(height: nat)       // block_hash_height
    | StateRootAt(height: nat)       // state_root_height
    | RuntimeTip                     // /__INTERNAL/tip-height
    | IndexedHeight                  // __INTERNAL/height

  datatype Cell = Num(n: nat) | Ver(entry: Entry) | Keys(keys: seq<Key>) | Blob(bytes: Bytes)

  type Db = map<PhysKey, Cell>

  // ---------------------------------------------------------------- reading

  /** The stored length of a key; a missing or unreadable length counts as zero. */
  function Len(db: Db, key: Key): nat {
    if LengthOf(key) in db && db[LengthOf(key)].Num? then db[LengthOf(key)].n else 0
  }

  function EntryAt(db: Db, key: Key, i: nat): Entry {
    if Slot(key, i) in db && db[Slot(key, i)].Ver? then db[Slot(key, i)].entry else Entry(0, [])
  }

  function Hist(db: Db, key: Key): (hist: History)
    ensures |hist| == Len(db, key)
    ensures forall i :: 0 <= i < |hist| ==> hist[i] == EntryAt(db, key, i)
  {
    seq(Len(db, key), i requires i >= 0 => EntryAt(db, key, i))
  }

  function UserKeys(db: Db): set<Key> {
    set pk | pk in db && pk.LengthOf? :: pk.key
  }

  lemma UserKeysAre(db: Db)
    ensures forall k :: k in UserKeys(db) <==> LengthOf(k) in db
  {
    forall k | LengthOf(k) in db
      ensures k in UserKeys(db)
    {
      assert LengthOf(k).LengthOf? && LengthOf(k).key == k;
    }
  }

  /** The version lists a physical store stands for. */
  function VersionsIn(db: Db): Versions {
    map k | k in UserKeys(db) && Len(db, k) > 0 :: Hist(db, k)
  }

  lemma {:induction false} VersionsInHistory(db: Db, key: Key)
    ensures HistoryOf(VersionsIn(db), key) == Hist(db, key)
    ensures NoEmptyHistory(VersionsIn(db))
  {
    if Len(db, key) > 0 {
      assert LengthOf(key) in db;
    }
  }

  ghost predicate Bounded(db: Db, tip: int) {
    forall k, i :: 0 <= i < Len(db, k) ==> EntryAt(db, k, i).height <= tip
  }

  ghost predicate Shaped(db: Db) {
    && (forall k :: LengthOf(k) in db ==> db[LengthOf(k)].Num?)
    && (forall k, i: nat :: Slot(k, i) in db ==> db[Slot(k, i)].Ver?)
    && (forall k, i: nat :: Slot(k, i) in db <==> i < Len(db, k))
    && (forall h :: ManifestAt(h) in db ==> db[ManifestAt(h)].Keys?)
  }

  /** `key` is listed in the manifest of `height`. */
  predicate InManifest(db: Db, height: nat, key: Key) {
    ManifestAt(height) in db && db[ManifestAt(height)].Keys? && key in db[ManifestAt(height)].keys
  }

  /** Every version's key is listed in the manifest of the version's height. */
  ghost predicate Covered(db: Db) {
    forall k, i :: 0 <= i < Len(db, k) ==> InManifest(db, EntryAt(db, k, i).height, k)
  }

  /** What every block commit and every rollback keeps. */
  ghost predicate WellFormed(db: Db) {
    && Shaped(db)
    && (forall k :: Ordered(Hist(db, k)))
    && Covered(db)
  }

  // ---------------------------------------------------------------- batches

  datatype Op = Put(key: PhysKey, cell: Cell) | Delete(key: PhysKey)

  function ApplyOp(db: Db, op: Op): Db {
    match op
    case Put(k, c) => db[k := c]
    case Delete(k) => db - {k}
  }

  /** A batch is one atomic step; inside it the operations take effect in order. */
  function ApplyOps(db: Db, ops: seq<Op>): Db {
    if ops == [] then db
    else ApplyOp(ApplyOps(db, ops[..|ops| - 1]), ops[|ops| - 1])
  }

  lemma {:induction false} ApplySnoc(db: Db, ops: seq<Op>, op: Op)
    ensures ApplyOps(db, ops + [op]) == ApplyOp(ApplyOps(db, ops), op)
  {
    assert (ops + [op])[..|ops + [op]| - 1] == ops;
  }

  lemma {:induction false} ApplyAppend(db: Db, a: seq<Op>, b: seq<Op>)
    ensures ApplyOps(db, a + b) == ApplyOps(ApplyOps(db, a), b)
    decreases |b|
  {
    if b == [] {
      assert a + b == a;
    } else {
      assert (a + b)[..|a + b| - 1] == a + b[..|b| - 1];
      ApplyAppend(db, a, b[..|b| - 1]);
    }
  }

  // ---------------------------------------------------------------- block writes

  /** One version stored by itself: read the length, fill the next slot, bump the length. */
  function AppendOne(db: Db, height: nat, w: Write): Db {
    db[Slot(w.key, Len(db, w.key)) := Ver(Entry(height, w.value))]
      [LengthOf(w.key) := Num(Len(db, w.key) + 1)]
  }

  function AppendAll(db: Db, height: nat, writes: seq<Write>): Db {
    if writes == [] then db
    else AppendOne(AppendAll(db, height, writes[..|writes| - 1]), height, writes[|writes| - 1])
  }

  /** Each written key once. */
  function UniqueKeys(writes: seq<Write>): (keys: seq<Key>)
    ensures forall k :: k in keys <==> exists i :: 0 <= i < |writes| && writes[i].key == k
  {
    if writes == [] then []
    else
      var front := UniqueKeys(writes[..|writes| - 1]);
      var last := writes[|writes| - 1].key;
      assert writes[..|writes| - 1] + [writes[|writes| - 1]] == writes;
      if last in front then front else front + [last]
  }

  /** The store after the batch built for a block: versions, carried root, manifest, runtime tip. */
  function Flushed(db: Db, height: nat, writes: seq<Write>, root: Bytes): Db {
    var rooted := AppendAll(db, height, writes)[Root(height) := Blob(root)];
    var listed := if writes == [] then rooted else rooted[ManifestAt(height) := Keys(UniqueKeys(writes))];
    listed[RuntimeTip := Num(height)]
  }

  /** The store after the same batch has been extended with the sync metadata and committed. */
  function Committed(db: Db, height: nat, hash: Bytes, writes: seq<Write>, root: Bytes): Db {
    Flushed(db, height, writes, root)
      [HashAt(height) := Blob(hash)][Root(height) := Blob(root)][IndexedHeight := Num(height)]
  }

  lemma {:induction false} AppendOneHist(db: Db, height: nat, w: Write, key: Key)
    ensures Hist(AppendOne(db, height, w), key) ==
            if key == w.key then Hist(db, key) + [Entry(height, w.value)] else Hist(db, key)
  {
    var after := AppendOne(db, height, w);
    assert Len(after, key) == if key == w.key then Len(db, key) + 1 else Len(db, key);
    forall i | 0 <= i < Len(db, key)
      ensures EntryAt(after, key, i) == EntryAt(db, key, i)
    {
    }
  }

  lemma {:induction false} AppendAllHist(db: Db, height: nat, writes: seq<Write>, key: Key)
    ensures Hist(AppendAll(db, height, writes), key) == Hist(db, key) + VersionsOf(writes, key, height)
  {
    if writes == [] {
      assert Hist(db, key) + [] == Hist(db, key);
    } else {
      var front := writes[..|writes| - 1];
      AppendAllHist(db, height, front, key);
      AppendOneHist(AppendAll(db, height, front), height, writes[|writes| - 1], key);
    }
  }

  lemma {:induction false} AppendAllShaped(db: Db, height: nat, writes: seq<Write>)
    requires Shaped(db)
    ensures Shaped(AppendAll(db, height, writes))
    ensures forall pk: PhysKey :: !pk.Slot? && !pk.LengthOf? ==>
              (pk in AppendAll(db, height, writes) <==> pk in db) &&
              (pk in db ==> AppendAll(db, height, writes)[pk] == db[pk])
  {
    if writes != [] {
      var front := writes[..|writes| - 1];
      AppendAllShaped(db, height, front);
      var before, w := AppendAll(db, height, front), writes[|writes| - 1];
      var after := AppendAll(db, height, writes);
      assert forall k :: Len(after, k) == if k == w.key then Len(before, k) + 1 else Len(before, k);
    }
  }

  lemma {:induction false} CommittedHist(db: Db, height: nat, hash: Bytes, writes: seq<Write>, root: Bytes, key: Key)
    ensures Hist(Committed(db, height, hash, writes, root), key) == Hist(db, key) + VersionsOf(writes, key, height)
  {
    AppendAllHist(db, height, writes, key);
    var appended, after := AppendAll(db, height, writes), Committed(db, height, hash, writes, root);
    assert Len(after, key) == Len(appended, key);
    assert forall i :: EntryAt(after, key, i) == EntryAt(appended, key, i);
    assert Hist(after, key) == Hist(appended, key);
  }

  /** A block commit above the tip keeps the store well formed and appends exactly the block's versions. */
  lemma {:induction false} CommitRefines(db: Db, height: nat, hash: Bytes, writes: seq<Write>, root: Bytes)
    requires WellFormed(db) && Bounded(db, height - 1)
    ensures var after := Committed(db, height, hash, writes, root);
            && WellFormed(after)
            && Bounded(after, height)
            && VersionsIn(after) == AppendBlock(VersionsIn(db), height, writes)
  {
    var after := Committed(db, height, hash, writes, root);
    AppendAllShaped(db, height, writes);
    CommitShaped(db, height, hash, writes, root);
    forall k
      ensures Ordered(Hist(after, k)) && AllAtMost(Hist(after, k), height)
    {
      CommittedHist(db, height, hash, writes, root, k);
      assert forall i :: 0 <= i < Len(db, k) ==> Hist(db, k)[i].height <= height - 1;
    }
    forall k, i | 0 <= i < Len(after, k)
      ensures EntryAt(after, k, i).height <= height
    {
      assert Hist(after, k)[i].height <= height;
    }
    CommitCovered(db, height, hash, writes, root);
    forall k
      ensures HistoryOf(VersionsIn(after), k) == HistoryOf(AppendBlock(VersionsIn(db), height, writes), k)
    {
      CommittedHist(db, height, hash, writes, root, k);
      VersionsInHistory(db, k);
      VersionsInHistory(after, k);
      AppendBlockHistory(VersionsIn(db), height, writes, k);
    }
    VersionsInHistory(db, []);
    VersionsInHistory(after, []);
    AppendBlockHistory(VersionsIn(db), height, writes, []);
    SameHistories(VersionsIn(after), AppendBlock(VersionsIn(db), height, writes));
  }

  lemma {:induction false} CommitShaped(db: Db, height: nat, hash: Bytes, writes: seq<Write>, root: Bytes)
    requires Shaped(db)
    ensures Shaped(Committed(db, height, hash, writes, root))
  {
    AppendAllShaped(db, height, writes);
    var appended, after := AppendAll(db, height, writes), Committed(db, height, hash, writes, root);
    assert forall k :: Len(after, k) == Len(appended, k);
  }

  lemma {:induction false} CommitCovered(db: Db, height: nat, hash: Bytes, writes: seq<Write>, root: Bytes)
    requires WellFormed(db) && Bounded(db, height - 1)
    ensures Covered(Committed(db, height, hash, writes, root))
  {
    var after := Committed(db, height, hash, writes, root);
    AppendAllShaped(db, height, writes);
    forall k, i | 0 <= i < Len(after, k)
      ensures InManifest(after, EntryAt(after, k, i).height, k)
    {
      CommittedHist(db, height, hash, writes, root, k);
      assert Hist(after, k)[i] == EntryAt(after, k, i);
      if i < Len(db, k) {
        assert EntryAt(after, k, i) == Hist(db, k)[i] == EntryAt(db, k, i);
        assert InManifest(db, EntryAt(db, k, i).height, k);
      } else {
        assert EntryAt(after, k, i) == VersionsOf(writes, k, height)[i - Len(db, k)];
        VersionsOfWritten(writes, k, height);
      }
    }
  }
}
