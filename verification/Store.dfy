/**
 The store as the program changes it: batches are built operation by operation and applied in
 one step. Each method is proved to compute the function of modules Physical and Rollback.
 */
module Store {
  import opened Basics
  import opened Versions
  import opened Physical
  import opened Rollback

  /** The tip the in-order check reads. */
  function StoredTip(db: Db): nat {
    if IndexedHeight in db && db[IndexedHeight].Num? then db[IndexedHeight].n else 0
  }

  /** A commit is in order at the tip plus one, or anywhere while height 0 has no hash and the tip is 0. */
  predicate InOrder(db: Db, height: nat) {
    height == StoredTip(db) + 1 || (StoredTip(db) == 0 && HashAt(0) !in db)
  }

  /** A key's slots from `lo` to `hi` gone. */
  function SlotsDropped(db: Db, key: Key, lo: nat, hi: nat): Db {
    map pk | pk in db && !(pk.Slot? && pk.key == key && lo <= pk.index < hi) :: db[pk]
  }

  /** A key's slots from `kept` to `length` gone and its length cell brought to `kept`. */
  function CutShort(db: Db, key: Key, kept: nat, length: nat): Db {
    if kept == length then db
    else if kept == 0 then SlotsDropped(db, key, kept, length) - {LengthOf(key)}
    else SlotsDropped(db, key, kept, length)[LengthOf(key) := Num(kept)]
  }

  predicate OfKeys(done: set<Key>, pk: PhysKey) {
    (pk.Slot? || pk.LengthOf?) && pk.key in done
  }

  /** `db` with only the keys in `done` trimmed by the batch of height `h`. */
  function TrimmedKeys(db: Db, height: nat, h: nat, done: set<Key>): Db {
    map pk | pk in db && !(OfKeys(done, pk) && StepDrops(db, height, h, pk)) ::
      if OfKeys(done, pk) then StepCell(db, height, h, pk) else db[pk]
  }

  predicate CompactDrops(key: Key, kept: nat, pk: PhysKey) {
    || (pk == LengthOf(key) && kept == 0)
    || (pk.Slot? && pk.key == key && pk.index >= kept)
  }

  /** `db` with one key's versions replaced by `valid`, which has no more of them. */
  function Compacted(db: Db, key: Key, valid: History): Db {
    map pk | pk in db && !CompactDrops(key, |valid|, pk) ::
      if pk == LengthOf(key) then Num(|valid|)
      else if pk.Slot? && pk.key == key then Ver(valid[pk.index])
      else db[pk]
  }

  lemma {:induction false} CompactedIsScanStep(start: Db, height: nat, done: set<Key>, key: Key)
    requires Shaped(start) && key !in done
    ensures Compacted(ScanPartial(start, height, done), key, Survivors(start, key, height)) ==
            ScanPartial(start, height, done + {key})
  {
  }

  function WithoutSlots(db: Db, key: Key, n: nat): Db {
    map pk | pk in db && !(pk.Slot? && pk.key == key && pk.index < n) :: db[pk]
  }

  function WithSlots(db: Db, key: Key, valid: History, n: nat): Db
    requires n <= |valid|
  {
    if n == 0 then db else WithSlots(db, key, valid, n - 1)[Slot(key, n - 1) := Ver(valid[n - 1])]
  }

  lemma {:induction false} WithSlotsCells(db: Db, key: Key, valid: History, n: nat, pk: PhysKey)
    requires n <= |valid|
    ensures var after := WithSlots(db, key, valid, n);
            if pk.Slot? && pk.key == key && pk.index < n then pk in after && after[pk] == Ver(valid[pk.index])
            else (pk in after <==> pk in db) && (pk in db ==> after[pk] == db[pk])
  {
    if n > 0 {
      WithSlotsCells(db, key, valid, n - 1, pk);
    }
  }

  /** Clearing a key's slots, storing `valid` and its length again, compacts the key. */
  lemma {:induction false} RefilledIsCompacted(db: Db, key: Key, valid: History)
    requires Shaped(db) && LengthOf(key) in db && |valid| <= Len(db, key)
    ensures var refilled := WithSlots(WithoutSlots(db, key, Len(db, key)), key, valid, |valid|);
            (if valid == [] then refilled - {LengthOf(key)} else refilled[LengthOf(key) := Num(|valid|)]) ==
            Compacted(db, key, valid)
  {
    var cleared := WithoutSlots(db, key, Len(db, key));
    var refilled := WithSlots(cleared, key, valid, |valid|);
    forall pk
      ensures pk in refilled <==> if pk.Slot? && pk.key == key then pk.index < |valid| else pk in db
      ensures pk in refilled ==>
                refilled[pk] == if pk.Slot? && pk.key == key then Ver(valid[pk.index]) else db[pk]
    {
      WithSlotsCells(cleared, key, valid, |valid|, pk);
    }
  }

  /** The local lengths, with the stored ones for keys not yet written, are the lengths in `now`. */
  ghost predicate Tracks(keyLengths: map<Key, nat>, db: Db, now: Db) {
    forall k :: Len(now, k) == if k in keyLengths then keyLengths[k] else Len(db, k)
  }

  lemma {:induction false} TracksOneMore(keyLengths: map<Key, nat>, db: Db, now: Db, height: nat, w: Write)
    requires Tracks(keyLengths, db, now)
    ensures Tracks(keyLengths[w.key := Len(now, w.key) + 1], db, AppendOne(now, height, w))
  {
  }

  lemma {:induction false} AppendOneOps(db: Db, ops: seq<Op>, height: nat, w: Write)
    ensures var n := Len(ApplyOps(db, ops), w.key);
            ApplyOps(db, ops + [Put(Slot(w.key, n), Ver(Entry(height, w.value)))] + [Put(LengthOf(w.key), Num(n + 1))]) ==
            AppendOne(ApplyOps(db, ops), height, w)
  {
    var n := Len(ApplyOps(db, ops), w.key);
    ApplySnoc(db, ops, Put(Slot(w.key, n), Ver(Entry(height, w.value))));
    ApplySnoc(db, ops + [Put(Slot(w.key, n), Ver(Entry(height, w.value)))], Put(LengthOf(w.key), Num(n + 1)));
  }

  /** The versions' operations followed by the root, the manifest unless nothing was written, and the tip. */
  lemma {:induction false} FlushedOps(db: Db, ops: seq<Op>, height: nat, writes: seq<Write>, root: Bytes)
    requires ApplyOps(db, ops) == AppendAll(db, height, writes)
    ensures var rooted := ops + [Put(Root(height), Blob(root))];
            var listed := if writes == [] then rooted else rooted + [Put(ManifestAt(height), Keys(UniqueKeys(writes)))];
            ApplyOps(db, listed + [Put(RuntimeTip, Num(height))]) == Flushed(db, height, writes, root)
  {
    var rooted := ops + [Put(Root(height), Blob(root))];
    ApplySnoc(db, ops, Put(Root(height), Blob(root)));
    ApplySnoc(db, rooted, Put(ManifestAt(height), Keys(UniqueKeys(writes))));
    var listed := if writes == [] then rooted else rooted + [Put(ManifestAt(height), Keys(UniqueKeys(writes)))];
    ApplySnoc(db, listed, Put(RuntimeTip, Num(height)));
  }

  class VersionedStore {
    var db: Db

    constructor ()
      ensures db == map[]
    {
      db := map[];
    }

    /** Binary search for the newest version at or below `height`; the midpoint is a 32-bit sum. */
    method GetAtHeight(key: Key, height: nat) returns (r: Result<Option<Bytes>>)
      requires Len(db, key) <= 0x8000_0000
      ensures Shaped(db) && Ordered(Hist(db, key)) ==> r == Ok(LookupAt(Hist(db, key), height))
    {
      if LengthOf(key) !in db {
        return Ok(None);
      }
      var length := Len(db, key);
      if length == 0 {
        return Ok(None);
      }
      ghost var hist := Hist(db, key);
      var left, right := 0, length;
      var best: Option<Bytes> := None;
      while left < right
        invariant 0 <= left <= right <= length
        invariant left == 0 ==> best == None
        invariant left > 0 ==> hist[left - 1].height <= height && best == Some(hist[left - 1].value)
        invariant right < length ==> hist[right].height > height
      {
        var mid := (left + right) % U32_LIMIT / 2;
        if Slot(key, mid) !in db || !db[Slot(key, mid)].Ver? {
          return Err;
        }
        var update := db[Slot(key, mid)].entry;
        if update.height <= height {
          best := Some(update.value);
          left := mid + 1;
        } else {
          right := mid;
        }
      }
      if Ordered(hist) {
        LookupAtBoundary(hist, height, left);
      }
      r := Ok(best);
    }

    /** Store versions one at a time, each in its own batch. */
    method PutEach(height: nat, writes: seq<Write>)
      modifies this
      ensures db == AppendAll(old(db), height, writes)
    {
      for i := 0 to |writes|
        invariant db == AppendAll(old(db), height, writes[..i])
      {
        var w, length := writes[i], Len(db, writes[i].key);
        var ops := [Put(Slot(w.key, length), Ver(Entry(height, w.value)))];
        ApplySnoc(db, ops, Put(LengthOf(w.key), Num(length + 1)));
        ApplySnoc(db, [], ops[0]);
        ops := ops + [Put(LengthOf(w.key), Num(length + 1))];
        assert writes[..i + 1][..i] == writes[..i];
        db := ApplyOps(db, ops);
      }
      assert writes[..|writes|] == writes;
    }

    /**
     Build a block's batch without writing it. Lengths of keys written earlier in the batch
     come from a local map, since the store does not see the batch yet.
     */
    method BuildBatch(height: nat, writes: seq<Write>, root: Bytes) returns (ops: seq<Op>)
      ensures ApplyOps(db, ops) == Flushed(db, height, writes, root)
    {
      var keyLengths: map<Key, nat> := map[];
      var unique: seq<Key> := [];
      ops := [];
      for i := 0 to |writes|
        invariant ApplyOps(db, ops) == AppendAll(db, height, writes[..i])
        invariant unique == UniqueKeys(writes[..i])
        invariant Tracks(keyLengths, db, AppendAll(db, height, writes[..i]))
      {
        var w := writes[i];
        var length := if w.key in keyLengths then keyLengths[w.key] else Len(db, w.key);
        TracksOneMore(keyLengths, db, ApplyOps(db, ops), height, w);
        AppendOneOps(db, ops, height, w);
        ops := ops + [Put(Slot(w.key, length), Ver(Entry(height, w.value)))];
        ops := ops + [Put(LengthOf(w.key), Num(length + 1))];
        keyLengths := keyLengths[w.key := length + 1];
        if w.key !in unique {
          unique := unique + [w.key];
        }
        assert writes[..i + 1][..i] == writes[..i];
      }
      assert writes[..|writes|] == writes;
      ghost var versions := ops;
      ops := ops + [Put(Root(height), Blob(root))];
      if writes != [] {
        ops := ops + [Put(ManifestAt(height), Keys(unique))];
      }
      ops := ops + [Put(RuntimeTip, Num(height))];
      FlushedOps(db, versions, height, writes, root);
    }

    /** Append the sync metadata to a block's batch and apply everything at once, or nothing. */
    method CommitAtomic(height: nat, hash: Bytes, root: Bytes, batch: seq<Op>) returns (r: Result<()>)
      modifies this
      ensures r.Ok? <==> InOrder(old(db), height)
      ensures r.Err? ==> db == old(db)
      ensures r.Ok? ==> db == ApplyOps(old(db), batch)[HashAt(height) := Blob(hash)]
                                [Root(height) := Blob(root)][IndexedHeight := Num(height)]
    {
      var current := StoredTip(db);
      var isFresh := current == 0 && HashAt(0) !in db;
      if !isFresh && height != current + 1 {
        return Err;
      }
      var ops := batch + [Put(HashAt(height), Blob(hash))];
      ApplySnoc(db, batch, Put(HashAt(height), Blob(hash)));
      ApplySnoc(db, ops, Put(Root(height), Blob(root)));
      ops := ops + [Put(Root(height), Blob(root))];
      ApplySnoc(db, ops, Put(IndexedHeight, Num(height)));
      ops := ops + [Put(IndexedHeight, Num(height))];
      db := ApplyOps(db, ops);
      r := Ok(());
    }

    /** A block applied through the two calls above. */
    method ApplyBlock(height: nat, hash: Bytes, writes: seq<Write>, root: Bytes) returns (r: Result<()>)
      modifies this
      ensures r.Ok? <==> InOrder(old(db), height)
      ensures db == if r.Ok? then Committed(old(db), height, hash, writes, root) else old(db)
    {
      var batch := BuildBatch(height, writes, root);
      r := CommitAtomic(height, hash, root, batch);
    }

    // -------------------------------------------------------------- full scan

    /** The versions of a key at or below `height`, read slot by slot. */
    method ReadSurvivors(key: Key, height: nat) returns (valid: History)
      requires Shaped(db)
      ensures valid == Survivors(db, key, height)
    {
      valid := [];
      ghost var hist := Hist(db, key);
      for i := 0 to Len(db, key)
        invariant valid == Trim(hist[..i], height)
      {
        if Slot(key, i) in db && db[Slot(key, i)].Ver? {
          var update := db[Slot(key, i)].entry;
          if update.height <= height {
            valid := valid + [update];
          }
        }
        assert hist[..i + 1][..i] == hist[..i];
      }
      assert hist[..|hist|] == hist;
    }

    /** The operations that compact one key: delete every old slot, store the survivors again. */
    method CompactKey(key: Key, height: nat) returns (ops: seq<Op>)
      requires Shaped(db) && LengthOf(key) in db
      ensures ApplyOps(db, ops) == Compacted(db, key, Survivors(db, key, height))
    {
      var valid := ReadSurvivors(key, height);
      TrimBounded(Hist(db, key), height);
      ops := [];
      for i := 0 to Len(db, key)
        invariant ApplyOps(db, ops) == WithoutSlots(db, key, i)
      {
        ApplySnoc(db, ops, Delete(Slot(key, i)));
        ops := ops + [Delete(Slot(key, i))];
      }
      ghost var cleared := WithoutSlots(db, key, Len(db, key));
      for i := 0 to |valid|
        invariant ApplyOps(db, ops) == WithSlots(cleared, key, valid, i)
      {
        ApplySnoc(db, ops, Put(Slot(key, i), Ver(valid[i])));
        ops := ops + [Put(Slot(key, i), Ver(valid[i]))];
      }
      var last := if |valid| > 0 then Put(LengthOf(key), Num(|valid|)) else Delete(LengthOf(key));
      ApplySnoc(db, ops, last);
      ops := ops + [last];
      RefilledIsCompacted(db, key, valid);
    }

    /** One pass over all keys: the stale metadata to delete and the user keys to compact. */
    method ScanKeys(height: nat) returns (stale: seq<Op>, bases: set<Key>)
      ensures bases == UserKeys(db)
      ensures ApplyOps(db, stale) == ScanPartial(db, height, {})
    {
      var toVisit: set<PhysKey> := db.Keys;
      stale, bases := [], {};
      while toVisit != {}
        invariant toVisit <= db.Keys
        invariant forall k :: k in bases <==> LengthOf(k) in db.Keys - toVisit
        invariant ApplyOps(db, stale) == map pk | pk in db && (pk in toVisit || SurvivesScan(db, height, {}, pk)) :: db[pk]
        decreases toVisit
      {
        var pk :| pk in toVisit;
        toVisit := toVisit - {pk};
        if MetaHeight(pk).Some? {
          if MetaHeight(pk).value > height {
            ApplySnoc(db, stale, Delete(pk));
            stale := stale + [Delete(pk)];
          }
        } else if pk.LengthOf? {
          bases := bases + {pk.key};
        }
      }
      UserKeysAre(db);
    }

    /** Scan all keys, delete stale metadata, then compact every key that has a length, in any order. */
    method RollbackScan(height: nat, current: nat)
      requires WellFormed(db)
      modifies this
      ensures db == if height >= current then old(db) else FullScanned(old(db), height)
    {
      if height >= current {
        return;
      }
      ghost var start := db;
      var stale, bases := ScanKeys(height);
      UserKeysAre(start);
      db := ApplyOps(db, stale);
      var todo := bases;
      while todo != {}
        invariant todo <= bases
        invariant db == ScanPartial(start, height, bases - todo)
        decreases todo
      {
        var key :| key in todo;
        ScanWellFormed(start, height, bases - todo);
        assert LengthOf(key) in start;
        ScanHist(start, height, bases - todo, key);
        CompactedIsScanStep(start, height, bases - todo, key);
        assert bases - (todo - {key}) == bases - todo + {key};
        var ops := CompactKey(key, height);
        db := ApplyOps(db, ops);
        todo := todo - {key};
      }
      assert bases - todo == bases;
    }

    // -------------------------------------------------------------- manifest path

    /**
     Walk one key's versions backward and queue the deletion of those above `height`, then the
     new length. `base` is the store with the operations queued so far applied.
     */
    method TrimKey(key: Key, height: nat, ghost base: Db) returns (ops: seq<Op>)
      requires Shaped(db)
      ensures ApplyOps(base, ops) == CutShort(base, key, Kept(db, key, height), Len(db, key))
    {
      ops := [];
      if LengthOf(key) !in db {
        return;
      }
      ghost var hist := Hist(db, key);
      var length := Len(db, key);
      var newLength, i := length, length;
      while i > 0
        invariant 0 <= i == newLength <= length
        invariant forall j :: i <= j < length ==> hist[j].height > height
        invariant ApplyOps(base, ops) == SlotsDropped(base, key, newLength, length)
      {
        if db[Slot(key, i - 1)].entry.height <= height {
          assert hist[i - 1].height <= height;
          break;
        }
        ApplySnoc(base, ops, Delete(Slot(key, i - 1)));
        ops := ops + [Delete(Slot(key, i - 1))];
        i, newLength := i - 1, i - 1;
      }
      KeepLenBoundary(hist, height, newLength);
      if newLength != length {
        var last := if newLength > 0 then Put(LengthOf(key), Num(newLength)) else Delete(LengthOf(key));
        ApplySnoc(base, ops, last);
        ops := ops + [last];
      }
    }

    /** The operations that trim every key listed at height `h`. */
    method TrimBatch(height: nat, h: nat) returns (ops: seq<Op>, ghost done: set<Key>)
      requires Shaped(db) && ManifestAt(h) in db
      ensures ApplyOps(db, ops) == TrimmedKeys(db, height, h, done)
      ensures forall k :: k in done <==> InManifest(db, h, k)
    {
      var keys := db[ManifestAt(h)].keys;
      ops, done := [], {};
      for i := 0 to |keys|
        invariant forall j :: 0 <= j < i ==> keys[j] in done
        invariant forall k :: k in done ==> k in keys
        invariant ApplyOps(db, ops) == TrimmedKeys(db, height, h, done)
      {
        ghost var base := ApplyOps(db, ops);
        var more := TrimKey(keys[i], height, base);
        ApplyAppend(db, ops, more);
        ops := ops + more;
        assert InManifest(db, h, keys[i]);
        TrimmedOneMore(db, height, h, done, keys[i]);
        done := done + {keys[i]};
      }
    }

    /** The batch that undoes one height, built from its manifest. */
    method StepBatch(height: nat, h: nat) returns (ops: seq<Op>)
      requires Shaped(db) && ManifestAt(h) in db
      ensures ApplyOps(db, ops) == FastStep(db, height, h)
    {
      ghost var done;
      ops, done := TrimBatch(height, h);
      AllKeysTrimmed(db, height, h, done);
      ApplySnoc(db, ops, Delete(ManifestAt(h)));
      ops := ops + [Delete(ManifestAt(h))];
      ApplySnoc(db, ops, Delete(Root(h)));
      ops := ops + [Delete(Root(h))];
      ApplySnoc(db, ops, Delete(BlockHashAt(h)));
      ops := ops + [Delete(BlockHashAt(h))];
      ApplySnoc(db, ops, Delete(StateRootAt(h)));
      ops := ops + [Delete(StateRootAt(h))];
      ApplySnoc(db, ops, Delete(HashAt(h)));
      ops := ops + [Delete(HashAt(h))];
    }

    method HaveManifests(low: nat, top: nat) returns (all: bool)
      requires low <= top
      ensures all == ManifestsPresent(db, low, top)
    {
      for h := low + 1 to top + 1
        invariant ManifestsPresent(db, low, h - 1)
      {
        if ManifestAt(h) !in db {
          return false;
        }
      }
      all := true;
    }

    /** Roll back by manifests, newest height first; touch nothing if any manifest is missing. */
    method RollbackWithManifests(height: nat, current: nat) returns (done: bool)
      requires WellFormed(db)
      modifies this
      ensures done <==> height >= current || ManifestsPresent(old(db), height, current)
      ensures db == if done && height < current then FastPartial(old(db), height, current, height) else old(db)
    {
      if height >= current {
        return true;
      }
      done := HaveManifests(height, current);
      if !done {
        return;
      }
      var h := current;
      while h > height
        invariant height <= h <= current
        invariant WellFormed(db) && ManifestsPresent(db, height, h)
        invariant FastPartial(db, height, h, height) == FastPartial(old(db), height, current, height)
      {
        assert ManifestAt(h) in db;
        var ops := StepBatch(height, h);
        StepWellFormed(db, height, h);
        ManifestsStay(db, height, h);
        ghost var next := FastStep(db, height, h);
        assert FastPartial(db, height, h, height) == FastPartial(next, height, h - 1, height);
        db := ApplyOps(db, ops);
        assert db == next;
        h := h - 1;
      }
    }

    /** The storage adapter's rollback: manifests first, the full scan as fallback, then the pointer. */
    method RollbackToHeight(height: nat)
      requires WellFormed(db)
      modifies this
      ensures db == RolledBack(old(db), height, StoredTip(old(db)))
    {
      var current := StoredTip(db);
      var usedFast := RollbackWithManifests(height, current);
      if !usedFast {
        RollbackScan(height, current);
      }
      db := db[IndexedHeight := Num(height)];
    }

    /** The operations that undo one key: a forward pass deleting newer versions, then the length. */
    method RollbackKeyBatch(key: Key, height: nat) returns (ops: seq<Op>)
      requires WellFormed(db)
      ensures ApplyOps(db, ops) == KeyRolledBack(db, height, key)
    {
      if LengthOf(key) !in db {
        MissingKeyStays(db, height, key);
        return [];
      }
      ghost var hist := Hist(db, key);
      var newLength := 0;
      ops := [];
      EmptyRange(db, key, 0);
      for i := 0 to Len(db, key)
        invariant newLength == KeepLen(hist[..i], height)
        invariant ApplyOps(db, ops) == SlotsDropped(db, key, newLength, i)
      {
        assert hist[..i + 1][..i] == hist[..i] && hist[..i + 1][i] == EntryAt(db, key, i);
        if db[Slot(key, i)].entry.height <= height {
          OlderAllKept(hist, height, i);
          EmptyRange(db, key, i);
          newLength := i + 1;
        } else {
          DropOneMore(db, ops, key, newLength, i);
          ops := ops + [Delete(Slot(key, i))];
        }
      }
      assert hist[..|hist|] == hist;
      ApplySnoc(db, ops, Put(LengthOf(key), Num(newLength)));
      ops := ops + [Put(LengthOf(key), Num(newLength))];
      HelperIsCut(db, height, key);
    }

    /** The per-key helper: the batch above in one write. */
    method RollbackKey(key: Key, height: nat)
      requires WellFormed(db)
      modifies this
      ensures db == KeyRolledBack(old(db), height, key)
    {
      var ops := RollbackKeyBatch(key, height);
      db := ApplyOps(db, ops);
    }
  }

  lemma {:induction false} DropOneMore(db: Db, ops: seq<Op>, key: Key, lo: nat, i: nat)
    requires ApplyOps(db, ops) == SlotsDropped(db, key, lo, i) && lo <= i
    ensures ApplyOps(db, ops + [Delete(Slot(key, i))]) == SlotsDropped(db, key, lo, i + 1)
  {
    ApplySnoc(db, ops, Delete(Slot(key, i)));
  }

  /** Before an old enough version of an ordered list, every version is kept. */
  lemma {:induction false} OlderAllKept(hist: History, height: nat, i: nat)
    requires Ordered(hist) && i < |hist| && hist[i].height <= height
    ensures KeepLen(hist[..i], height) == i
  {
    assert i > 0 ==> hist[i - 1].height <= hist[i].height;
    KeepLenBoundary(hist[..i], height, i);
  }

  lemma {:induction false} ManifestsStay(db: Db, height: nat, h: nat)
    requires height < h && ManifestsPresent(db, height, h)
    ensures ManifestsPresent(FastStep(db, height, h), height, h - 1)
  {
  }

  lemma {:induction false} EmptyRange(db: Db, key: Key, i: nat)
    ensures SlotsDropped(db, key, i, i) == db == SlotsDropped(db, key, i + 1, i + 1)
  {
  }

  lemma {:induction false} MissingKeyStays(db: Db, height: nat, key: Key)
    requires WellFormed(db) && LengthOf(key) !in db
    ensures KeyRolledBack(db, height, key) == db
  {
  }

  lemma {:induction false} HelperIsCut(db: Db, height: nat, key: Key)
    requires LengthOf(key) in db
    ensures SlotsDropped(db, key, Kept(db, key, height), Len(db, key))[LengthOf(key) := Num(Kept(db, key, height))] ==
            KeyRolledBack(db, height, key)
  {
  }

  lemma {:induction false} TrimmedOneMore(db: Db, height: nat, h: nat, done: set<Key>, key: Key)
    requires Shaped(db) && InManifest(db, h, key)
    ensures CutShort(TrimmedKeys(db, height, h, done), key, Kept(db, key, height), Len(db, key)) ==
            TrimmedKeys(db, height, h, done + {key})
  {
  }

  lemma {:induction false} AllKeysTrimmed(db: Db, height: nat, h: nat, done: set<Key>)
    requires forall k :: k in done <==> InManifest(db, h, k)
    ensures TrimmedKeys(db, height, h, done) - {ManifestAt(h)} - {Root(h)} - {BlockHashAt(h)} - {StateRootAt(h)} - {HashAt(h)} ==
            FastStep(db, height, h)
  {
  }
}
