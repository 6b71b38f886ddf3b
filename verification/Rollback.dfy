/**
 Rollback of the physical store: the full scan, the manifest-driven fast path, and the per-key
 helper, each given as a function on stores, and the theorems relating them. Class
 VersionedStore carries the loops that compute these functions.
 */
module Rollback {
  import opened Basics
  import opened Versions
  import opened Physical

  // ---------------------------------------------------------------- full scan

  /** The height in a block_hash_, state_root_ or smt:root: key. */
  function MetaHeight(pk: PhysKey): Option<nat> {
    match pk
    case Root(h) => Some(h)
    case BlockHashAt(h) => Some(h)
    case StateRootAt(h) => Some(h)
    case _ => None
  }

  function Survivors(db: Db, key: Key, height: nat): History {
    Trim(Hist(db, key), height)
  }

  predicate SurvivesScan(db: Db, height: nat, done: set<Key>, pk: PhysKey) {
    match pk
    case LengthOf(k) => k in done ==> Survivors(db, k, height) != []
    case Slot(k, i) => k in done ==> i < |Survivors(db, k, height)|
    case _ => MetaHeight(pk).Some? ==> MetaHeight(pk).value <= height
  }

  function ScannedCell(db: Db, height: nat, done: set<Key>, pk: PhysKey): Cell
    requires pk in db && SurvivesScan(db, height, done, pk)
  {
    match pk
    case LengthOf(k) => if k in done then Num(|Survivors(db, k, height)|) else db[pk]
    case Slot(k, i) => if k in done then Ver(Survivors(db, k, height)[i]) else db[pk]
    case _ => db[pk]
  }

  /** The store after the scan has removed stale metadata and compacted the keys in `done`. */
  function ScanPartial(db: Db, height: nat, done: set<Key>): Db {
    map pk | pk in db && SurvivesScan(db, height, done, pk) :: ScannedCell(db, height, done, pk)
  }

  function FullScanned(db: Db, height: nat): Db {
    ScanPartial(db, height, UserKeys(db))
  }

  lemma {:induction false} ScanHist(db: Db, height: nat, done: set<Key>, key: Key)
    requires Shaped(db)
    ensures Hist(ScanPartial(db, height, done), key) ==
            if key in done then Survivors(db, key, height) else Hist(db, key)
  {
    var after := ScanPartial(db, height, done);
    var kept := Survivors(db, key, height);
    TrimBounded(Hist(db, key), height);
    if key in done {
      assert LengthOf(key) in db <==> (LengthOf(key) in after || (kept == [] && LengthOf(key) in db));
      assert Len(after, key) == |kept|;
      forall i | 0 <= i < |kept|
        ensures EntryAt(after, key, i) == kept[i]
      {
        assert Slot(key, i) in db;
      }
    } else {
      assert Len(after, key) == Len(db, key);
      forall i | 0 <= i < Len(db, key)
        ensures EntryAt(after, key, i) == EntryAt(db, key, i)
      {
        assert Slot(key, i) in db;
      }
    }
  }

  lemma {:induction false} ScanWellFormed(db: Db, height: nat, done: set<Key>)
    requires WellFormed(db)
    ensures WellFormed(ScanPartial(db, height, done))
  {
    var after := ScanPartial(db, height, done);
    forall k
      ensures Len(after, k) == if k in done then |Survivors(db, k, height)| else Len(db, k)
      ensures Ordered(Hist(after, k))
      ensures forall i: nat :: Slot(k, i) in after <==> i < Len(after, k)
    {
      ScanHist(db, height, done, k);
      TrimBounded(Hist(db, k), height);
      TrimOrdered(Hist(db, k), height);
    }
    forall k, i | 0 <= i < Len(after, k)
      ensures InManifest(after, EntryAt(after, k, i).height, k)
    {
      ScanHist(db, height, done, k);
      TrimBounded(Hist(db, k), height);
      var e := Hist(after, k)[i];
      assert e in Hist(db, k);
      var j :| 0 <= j < |Hist(db, k)| && Hist(db, k)[j] == e;
      assert InManifest(db, EntryAt(db, k, j).height, k);
    }
  }

  // ---------------------------------------------------------------- manifest path

  /** How many of a key's versions the backward walk leaves in place. */
  function Kept(db: Db, key: Key, height: nat): nat {
    KeepLen(Hist(db, key), height)
  }

  predicate StepDrops(db: Db, height: nat, h: nat, pk: PhysKey) {
    match pk
    case Slot(k, i) => InManifest(db, h, k) && Kept(db, k, height) <= i < Len(db, k)
    case LengthOf(k) => InManifest(db, h, k) && Kept(db, k, height) == 0 && Len(db, k) != 0
    case ManifestAt(g) => g == h
    case Root(g) => g == h
    case HashAt(g) => g == h
    case BlockHashAt(g) => g == h
    case StateRootAt(g) => g == h
    case RuntimeTip => false
    case IndexedHeight => false
  }

  function StepCell(db: Db, height: nat, h: nat, pk: PhysKey): Cell
    requires pk in db
  {
    if pk.LengthOf? && InManifest(db, h, pk.key) && Kept(db, pk.key, height) != Len(db, pk.key)
    then Num(Kept(db, pk.key, height))
    else db[pk]
  }

  /** The atomic batch of one rolled-back height: trim its keys to the target, drop its metadata. */
  function FastStep(db: Db, height: nat, h: nat): Db {
    map pk | pk in db && !StepDrops(db, height, h, pk) :: StepCell(db, height, h, pk)
  }

  /** The batches of the heights from `top` down to `low + 1`. */
  function FastPartial(db: Db, height: nat, top: nat, low: nat): Db
    decreases top
  {
    if top <= low then db else FastPartial(FastStep(db, height, top), height, top - 1, low)
  }

  predicate ManifestsPresent(db: Db, low: nat, top: nat) {
    forall h :: low < h <= top ==> ManifestAt(h) in db
  }

  /** A rollback as the storage adapter runs it: manifests if all are there, else the full scan. */
  function RolledBack(db: Db, height: nat, current: nat): Db {
    var trimmed :=
      if height >= current then db
      else if ManifestsPresent(db, height, current) then FastPartial(db, height, current, height)
      else FullScanned(db, height);
    trimmed[IndexedHeight := Num(height)]
  }

  lemma {:induction false} StepHist(db: Db, height: nat, h: nat, key: Key)
    requires Shaped(db) && Ordered(Hist(db, key))
    ensures Hist(FastStep(db, height, h), key) ==
            if InManifest(db, h, key) then Trim(Hist(db, key), height) else Hist(db, key)
  {
    var after := FastStep(db, height, h);
    TrimIsPrefix(Hist(db, key), height);
    var expected := if InManifest(db, h, key) then Hist(db, key)[..Kept(db, key, height)] else Hist(db, key);
    assert Len(after, key) == |expected|;
    forall i | 0 <= i < |expected|
      ensures EntryAt(after, key, i) == expected[i]
    {
      assert Slot(key, i) in db;
    }
  }

  lemma {:induction false} StepShaped(db: Db, height: nat, h: nat)
    requires Shaped(db) && forall k :: Ordered(Hist(db, k))
    ensures Shaped(FastStep(db, height, h))
  {
    var after := FastStep(db, height, h);
    forall k, i: nat
      ensures Slot(k, i) in after <==> i < Len(after, k)
    {
      StepHist(db, height, h, k);
      TrimIsPrefix(Hist(db, k), height);
      assert Len(after, k) == |Hist(after, k)|;
    }
  }

  /** A version the batch leaves in place was there before, and one of a listed key is old enough. */
  lemma {:induction false} StepEntry(db: Db, height: nat, h: nat, key: Key, i: nat)
    requires Shaped(db) && Ordered(Hist(db, key))
    requires i < Len(FastStep(db, height, h), key)
    ensures i < Len(db, key) && EntryAt(FastStep(db, height, h), key, i) == EntryAt(db, key, i)
    ensures InManifest(db, h, key) ==> EntryAt(db, key, i).height <= height
  {
    var after := FastStep(db, height, h);
    StepHist(db, height, h, key);
    TrimIsPrefix(Hist(db, key), height);
    TrimBounded(Hist(db, key), height);
    assert Hist(after, key)[i] == Hist(db, key)[i] == EntryAt(db, key, i);
    assert InManifest(db, h, key) ==> Trim(Hist(db, key), height)[i].height <= height;
  }

  lemma {:induction false} StepWellFormed(db: Db, height: nat, h: nat)
    requires WellFormed(db) && height < h
    ensures WellFormed(FastStep(db, height, h))
  {
    var after := FastStep(db, height, h);
    StepShaped(db, height, h);
    forall k
      ensures Ordered(Hist(after, k))
    {
      StepHist(db, height, h, k);
      TrimOrdered(Hist(db, k), height);
    }
    forall k, i | 0 <= i < Len(after, k)
      ensures InManifest(after, EntryAt(after, k, i).height, k)
    {
      StepEntry(db, height, h, k, i);
      assert InManifest(db, EntryAt(db, k, i).height, k);
    }
  }

  /** After the batch of the newest height, every version lies below that height. */
  lemma {:induction false} StepLowersBound(db: Db, height: nat, h: nat)
    requires WellFormed(db) && height < h && Bounded(db, h)
    ensures Bounded(FastStep(db, height, h), h - 1)
  {
    forall k, i | 0 <= i < Len(FastStep(db, height, h), k)
      ensures EntryAt(FastStep(db, height, h), k, i).height <= h - 1
    {
      StepEntry(db, height, h, k, i);
      assert InManifest(db, EntryAt(db, k, i).height, k);
    }
  }

  /**
   Any number of per-height batches keeps the store well formed, keeps every version at or
   below the target, and brings the bound down with the heights processed.
   */
  lemma {:induction false} FastPartialKeeps(db: Db, height: nat, top: nat, low: nat, key: Key, target: nat)
    requires WellFormed(db) && Bounded(db, top)
    requires target <= height <= low <= top
    ensures var after := FastPartial(db, height, top, low);
            && WellFormed(after)
            && Bounded(after, low)
            && Trim(Hist(after, key), target) == Trim(Hist(db, key), target)
    decreases top
  {
    if low < top {
      var next := FastStep(db, height, top);
      StepWellFormed(db, height, top);
      StepLowersBound(db, height, top);
      FastPartialKeeps(next, height, top - 1, low, key, target);
      StepHist(db, height, top, key);
      TrimTrim(Hist(db, key), height, target);
    }
  }

  // ---------------------------------------------------------------- main results

  /** Fast rollback refines the full scan: both leave the lists trimmed to the target. */
  lemma {:induction false} FastRefinesSlow(db: Db, height: nat, current: nat)
    requires WellFormed(db) && Bounded(db, current) && height < current
    ensures VersionsIn(FastPartial(db, height, current, height)) == TrimTo(VersionsIn(db), height)
    ensures VersionsIn(FullScanned(db, height)) == TrimTo(VersionsIn(db), height)
  {
    var fast, slow := FastPartial(db, height, current, height), FullScanned(db, height);
    forall k
      ensures Hist(fast, k) == Trim(Hist(db, k), height)
      ensures Hist(slow, k) == Trim(Hist(db, k), height)
    {
      FastPartialKeeps(db, height, current, height, k, height);
      assert forall i :: 0 <= i < Len(fast, k) ==> Hist(fast, k)[i] == EntryAt(fast, k, i);
      TrimAllBelow(Hist(fast, k), height);
      ScanHist(db, height, UserKeys(db), k);
      if k !in UserKeys(db) {
        assert LengthOf(k) !in db;
        assert Hist(db, k) == [];
      }
    }
    TrimmedVersions(db, fast, height);
    TrimmedVersions(db, slow, height);
  }

  lemma {:induction false} TrimmedVersions(db: Db, after: Db, height: nat)
    requires forall k :: Hist(after, k) == Trim(Hist(db, k), height)
    ensures VersionsIn(after) == TrimTo(VersionsIn(db), height)
  {
    forall k
      ensures HistoryOf(VersionsIn(after), k) == HistoryOf(TrimTo(VersionsIn(db), height), k)
    {
      VersionsInHistory(after, k);
      VersionsInHistory(db, k);
      TrimToHistory(VersionsIn(db), height, k);
    }
    VersionsInHistory(after, []);
    SameHistories(VersionsIn(after), TrimTo(VersionsIn(db), height));
  }

  lemma {:induction false} PointerKeepsHist(db: Db, cell: Cell, key: Key)
    ensures Hist(db[IndexedHeight := cell], key) == Hist(db, key)
  {
    var moved := db[IndexedHeight := cell];
    assert Len(moved, key) == Len(db, key);
    assert forall i: nat :: EntryAt(moved, key, i) == EntryAt(db, key, i);
  }

  lemma {:induction false} PointerKeepsVersions(db: Db, cell: Cell)
    ensures VersionsIn(db[IndexedHeight := cell]) == VersionsIn(db)
  {
    var moved := db[IndexedHeight := cell];
    forall k
      ensures HistoryOf(VersionsIn(moved), k) == HistoryOf(VersionsIn(db), k)
    {
      PointerKeepsHist(db, cell, k);
      VersionsInHistory(db, k);
      VersionsInHistory(moved, k);
    }
    VersionsInHistory(db, []);
    VersionsInHistory(moved, []);
    SameHistories(VersionsIn(moved), VersionsIn(db));
  }

  lemma {:induction false} PointerKeepsWellFormed(db: Db, cell: Cell)
    requires WellFormed(db)
    ensures WellFormed(db[IndexedHeight := cell])
  {
    var moved := db[IndexedHeight := cell];
    assert forall k :: Len(moved, k) == Len(db, k);
    forall k ensures Ordered(Hist(moved, k)) {
      PointerKeepsHist(db, cell, k);
    }
    forall k, i | 0 <= i < Len(moved, k)
      ensures InManifest(moved, EntryAt(moved, k, i).height, k)
    {
      assert InManifest(db, EntryAt(db, k, i).height, k);
    }
  }

  /** A complete rollback, on whichever path, trims every list to the target and keeps the store well formed. */
  lemma {:induction false} RollbackRefines(db: Db, height: nat, current: nat)
    requires WellFormed(db) && Bounded(db, current) && height <= current
    ensures var after := RolledBack(db, height, current);
            && WellFormed(after)
            && Bounded(after, height)
            && VersionsIn(after) == TrimTo(VersionsIn(db), height)
  {
    var trimmed :=
      if height >= current then db
      else if ManifestsPresent(db, height, current) then FastPartial(db, height, current, height)
      else FullScanned(db, height);
    if height < current {
      FastRefinesSlow(db, height, current);
      FastPartialKeeps(db, height, current, height, [], height);
      ScanWellFormed(db, height, UserKeys(db));
    } else {
      forall k ensures Hist(db, k) == Trim(Hist(db, k), height) {
        assert forall i :: 0 <= i < Len(db, k) ==> Hist(db, k)[i] == EntryAt(db, k, i);
        TrimAllBelow(Hist(db, k), height);
      }
      TrimmedVersions(db, db, height);
    }
    PointerKeepsVersions(trimmed, Num(height));
    PointerKeepsWellFormed(trimmed, Num(height));
    TrimmedBounded(db, trimmed[IndexedHeight := Num(height)], height);
  }

  lemma {:induction false} TrimmedBounded(db: Db, after: Db, height: nat)
    requires VersionsIn(after) == TrimTo(VersionsIn(db), height)
    ensures Bounded(after, height)
  {
    forall k, i | 0 <= i < Len(after, k)
      ensures EntryAt(after, k, i).height <= height
    {
      VersionsInHistory(after, k);
      TrimToHistory(VersionsIn(db), height, k);
      TrimBounded(HistoryOf(VersionsIn(db), k), height);
      assert Hist(after, k)[i] == EntryAt(after, k, i);
    }
  }

  /**
   A fast rollback to `height` that stops after any of its batches, followed by a complete
   rollback to the same or a lower height, leaves exactly the lists of one uninterrupted rollback.
   */
  lemma {:induction false} InterruptedThenRerun(db: Db, height: nat, current: nat, low: nat, target: nat)
    requires WellFormed(db) && Bounded(db, current)
    requires target <= height <= low <= current
    ensures VersionsIn(RolledBack(FastPartial(db, height, current, low), target, current)) ==
            TrimTo(VersionsIn(db), target)
  {
    var stopped := FastPartial(db, height, current, low);
    FastPartialKeeps(db, height, current, low, [], target);
    RollbackRefines(stopped, target, current);
    forall k
      ensures HistoryOf(TrimTo(VersionsIn(stopped), target), k) == HistoryOf(TrimTo(VersionsIn(db), target), k)
    {
      FastPartialKeeps(db, height, current, low, k, target);
      TrimToHistory(VersionsIn(stopped), target, k);
      TrimToHistory(VersionsIn(db), target, k);
      VersionsInHistory(stopped, k);
      VersionsInHistory(db, k);
    }
    SameHistories(TrimTo(VersionsIn(stopped), target), TrimTo(VersionsIn(db), target));
  }

  /** The full scan may also stop between structures; running it again finishes the job. */
  lemma {:induction false} ScanRerun(db: Db, height: nat, done: set<Key>, target: nat)
    requires WellFormed(db) && target <= height
    ensures VersionsIn(FullScanned(ScanPartial(db, height, done), target)) == TrimTo(VersionsIn(db), target)
  {
    var stopped := ScanPartial(db, height, done);
    ScanWellFormed(db, height, done);
    var after := FullScanned(stopped, target);
    forall k
      ensures Hist(after, k) == Trim(Hist(db, k), target)
    {
      ScanHist(db, height, done, k);
      ScanHist(stopped, target, UserKeys(stopped), k);
      TrimTrim(Hist(db, k), height, target);
      if k !in UserKeys(stopped) {
        assert LengthOf(k) !in stopped;
        assert Hist(stopped, k) == [];
      }
    }
    TrimmedVersions(db, after, target);
  }

  /** The batches of the heights above `low` drop exactly those heights' hash records and manifests. */
  lemma {:induction false} FastRecords(db: Db, height: nat, top: nat, low: nat, pk: PhysKey)
    requires (pk.HashAt? || pk.ManifestAt?) && height <= low
    ensures pk in FastPartial(db, height, top, low) <==> pk in db && !(low < pk.height <= top)
    ensures pk in FastPartial(db, height, top, low) ==> FastPartial(db, height, top, low)[pk] == db[pk]
    decreases top
  {
    if low < top {
      FastRecords(FastStep(db, height, top), height, top - 1, low, pk);
    }
  }

  lemma {:induction false} FastDropsMetadata(db: Db, height: nat, top: nat, low: nat, pk: PhysKey)
    requires pk.Root? || pk.BlockHashAt? || pk.StateRootAt?
    ensures pk in FastPartial(db, height, top, low) <==> pk in db && !(low < pk.height <= top)
    ensures pk in FastPartial(db, height, top, low) ==> FastPartial(db, height, top, low)[pk] == db[pk]
    decreases top
  {
    if low < top {
      FastDropsMetadata(FastStep(db, height, top), height, top - 1, low, pk);
    }
  }

  /**
   The state root and block records after a completed rollback: on either path none is left above
   the target up to the old tip, after a scan none above the target at all, and everything
   else is there as it was.
   */
  lemma {:induction false} RollbackDropsMetadata(db: Db, height: nat, current: nat, pk: PhysKey)
    requires pk.Root? || pk.BlockHashAt? || pk.StateRootAt?
    ensures var after := RolledBack(db, height, current);
            var scanned := exists h :: height < h <= current && ManifestAt(h) !in db;
            && (pk in after <==> pk in db && !(height < current && height < pk.height && (pk.height <= current || scanned)))
            && (pk in after ==> after[pk] == db[pk])
  {
    FastDropsMetadata(db, height, current, height, pk);
  }

  /**
   The engine's own records: by manifests the hash records and manifests above the target go, up
   to the old tip; a scan leaves all of them.
   */
  lemma {:induction false} RollbackDropsRecords(db: Db, height: nat, current: nat, pk: PhysKey)
    requires pk.HashAt? || pk.ManifestAt?
    ensures var after := RolledBack(db, height, current);
            var scanned := exists h :: height < h <= current && ManifestAt(h) !in db;
            && (pk in after <==> pk in db && !(height < current && height < pk.height <= current && !scanned))
            && (pk in after ==> after[pk] == db[pk])
  {
    if height < current {
      FastRecords(db, height, current, height, pk);
    }
  }

  // ---------------------------------------------------------------- any number of crashes

  /**
   A crash inside a rollback to `target`, which leaves the pointer where it was. The manifest path
   has run its batches down to `low`; the full scan, which runs only if a manifest is missing,
   has compacted the keys in `done`.
   */
  datatype Crash = Crash(target: nat, low: nat, done: set<Key>)

  /** The height the batches of the manifest path have come down to. */
  function ReachedLow(db: Db, current: nat, crash: Crash): nat {
    if crash.target >= current || crash.low >= current || !ManifestsPresent(db, crash.target, current) then current
    else if crash.low >= crash.target then crash.low
    else crash.target
  }

  function Stopped(db: Db, current: nat, crash: Crash): Db {
    if crash.target >= current then db
    else if ManifestsPresent(db, crash.target, current)
    then FastPartial(db, crash.target, current, ReachedLow(db, current, crash))
    else ScanPartial(db, crash.target, crash.done)
  }

  /** The store after one interrupted rollback after the other. */
  function Crashed(db: Db, current: nat, crashes: seq<Crash>): Db {
    if crashes == [] then db
    else Stopped(Crashed(db, current, crashes[..|crashes| - 1]), current, crashes[|crashes| - 1])
  }

  /** A key the interrupted rollback has trimmed to its target. */
  ghost predicate Trimmed(db: Db, current: nat, crash: Crash, key: Key) {
    && crash.target < current
    && (if ManifestsPresent(db, crash.target, current)
        then ListedAbove(db, ReachedLow(db, current, crash), current, key)
        else key in crash.done)
  }

  lemma {:induction false} StoppedHist(db: Db, current: nat, crash: Crash, key: Key)
    requires WellFormed(db)
    ensures Hist(Stopped(db, current, crash), key) ==
            if Trimmed(db, current, crash, key) then Trim(Hist(db, key), crash.target) else Hist(db, key)
  {
    if crash.target < current {
      if ManifestsPresent(db, crash.target, current) {
        FastPartialExact(db, crash.target, current, ReachedLow(db, current, crash), key);
      } else {
        ScanHist(db, crash.target, crash.done, key);
      }
    }
  }

  lemma {:induction false} StopKeeps(db: Db, current: nat, crash: Crash)
    requires WellFormed(db) && Bounded(db, current)
    ensures WellFormed(Stopped(db, current, crash)) && Bounded(Stopped(db, current, crash), current)
  {
    if crash.target < current {
      if ManifestsPresent(db, crash.target, current) {
        FastPartialKeeps(db, crash.target, current, ReachedLow(db, current, crash), [], 0);
      } else {
        ScanWellFormed(db, crash.target, crash.done);
        ScanBounded(db, current, crash.target, crash.done);
      }
    }
  }

  lemma {:induction false} CrashesKeep(db: Db, current: nat, crashes: seq<Crash>)
    requires WellFormed(db) && Bounded(db, current)
    ensures WellFormed(Crashed(db, current, crashes)) && Bounded(Crashed(db, current, crashes), current)
  {
    if crashes != [] {
      CrashesKeep(db, current, crashes[..|crashes| - 1]);
      StopKeeps(Crashed(db, current, crashes[..|crashes| - 1]), current, crashes[|crashes| - 1]);
    }
  }

  lemma {:induction false} ScanBounded(db: Db, current: nat, target: nat, done: set<Key>)
    requires Shaped(db) && Bounded(db, current)
    ensures Bounded(ScanPartial(db, target, done), current)
  {
    forall k, i | 0 <= i < Len(ScanPartial(db, target, done), k)
      ensures EntryAt(ScanPartial(db, target, done), k, i).height <= current
    {
      ScanHist(db, target, done, k);
      TrimBounded(Hist(db, k), target);
      var e := Hist(ScanPartial(db, target, done), k)[i];
      assert e in Hist(db, k);
      var j :| 0 <= j < |Hist(db, k)| && Hist(db, k)[j] == e;
      assert EntryAt(db, k, j).height <= current;
    }
  }

  /** No version of `hist` lies above `target` and at or below `height`. */
  ghost predicate NoneBetween(hist: History, target: nat, height: nat) {
    forall i :: 0 <= i < |hist| ==> hist[i].height <= target || hist[i].height > height
  }

  lemma {:induction false} NoneBetweenIff(hist: History, target: nat, height: nat)
    ensures Trim(Trim(hist, target), height) == Trim(hist, height) <==> NoneBetween(hist, target, height)
  {
    TrimTrim(hist, target, height);
    if height <= target {
    } else if NoneBetween(hist, target, height) {
      TrimGap(hist, target, height);
    } else {
      var i :| 0 <= i < |hist| && target < hist[i].height <= height;
      TrimKeeps(hist, height, i);
      TrimBounded(hist, target);
    }
  }

  ghost predicate SparesKey(db: Db, current: nat, crash: Crash, height: nat, key: Key) {
    Trimmed(db, current, crash, key) ==> NoneBetween(Hist(db, key), crash.target, height)
  }

  /** The interrupted rollback takes no version at or below `height` from any key. */
  ghost predicate Spares(db: Db, current: nat, crash: Crash, height: nat) {
    forall k :: SparesKey(db, current, crash, height, k)
  }

  /** The `i`-th of the interrupted rollbacks does, on the store it found. */
  ghost predicate SparesAt(db: Db, current: nat, crashes: seq<Crash>, height: nat, i: nat)
    requires i < |crashes|
  {
    Spares(Crashed(db, current, crashes[..i]), current, crashes[i], height)
  }

  ghost predicate AllSpare(db: Db, current: nat, crashes: seq<Crash>, height: nat) {
    forall i :: 0 <= i < |crashes| ==> SparesAt(db, current, crashes, height, i)
  }

  lemma {:induction false} TrimSameLength(hist: History, height: nat)
    requires |Trim(hist, height)| == |hist|
    ensures Trim(hist, height) == hist
  {
    if hist != [] {
      TrimBounded(hist[..|hist| - 1], height);
      TrimSameLength(hist[..|hist| - 1], height);
    }
  }

  /** What is left of a key up to `height` shrinks or stays from crash to crash. */
  lemma {:induction false} CrashShrinks(db: Db, current: nat, crash: Crash, height: nat, key: Key)
    requires WellFormed(db)
    ensures var before, after := Trim(Hist(db, key), height), Trim(Hist(Stopped(db, current, crash), key), height);
            && |after| <= |before| && (|after| == |before| ==> after == before)
            && (after == before <==> SparesKey(db, current, crash, height, key))
  {
    StoppedHist(db, current, crash, key);
    NoneBetweenIff(Hist(db, key), crash.target, height);
    TrimTrim(Hist(db, key), crash.target, height);
    TrimTrim(Hist(db, key), height, crash.target);
    TrimBounded(Trim(Hist(db, key), height), crash.target);
    if |Trim(Trim(Hist(db, key), height), crash.target)| == |Trim(Hist(db, key), height)| {
      TrimSameLength(Trim(Hist(db, key), height), crash.target);
    }
  }

  ghost predicate SparesKeyAt(db: Db, current: nat, crashes: seq<Crash>, height: nat, key: Key, i: nat)
    requires i < |crashes|
  {
    SparesKey(Crashed(db, current, crashes[..i]), current, crashes[i], height, key)
  }

  ghost predicate AllSpareKey(db: Db, current: nat, crashes: seq<Crash>, height: nat, key: Key) {
    forall i :: 0 <= i < |crashes| ==> SparesKeyAt(db, current, crashes, height, key, i)
  }

  lemma {:induction false} LastCrash(db: Db, current: nat, crashes: seq<Crash>, height: nat, key: Key)
    requires crashes != []
    ensures var front, last := crashes[..|crashes| - 1], crashes[|crashes| - 1];
            AllSpareKey(db, current, crashes, height, key) <==>
            AllSpareKey(db, current, front, height, key) &&
            SparesKey(Crashed(db, current, front), current, last, height, key)
  {
    var front := crashes[..|crashes| - 1];
    forall i | 0 <= i < |front|
      ensures SparesKeyAt(db, current, front, height, key, i) <==> SparesKeyAt(db, current, crashes, height, key, i)
    {
      assert front[..i] == crashes[..i];
    }
    assert SparesKeyAt(db, current, crashes, height, key, |front|) <==>
           SparesKey(Crashed(db, current, front), current, crashes[|front|], height, key);
  }

  /** One key over all the crashes: nothing of it up to `height` is lost exactly when no crash takes any of it. */
  lemma {:induction false} CrashesSpareKeyIff(db: Db, current: nat, crashes: seq<Crash>, height: nat, key: Key)
    requires WellFormed(db) && Bounded(db, current)
    ensures var before, after := Trim(Hist(db, key), height), Trim(Hist(Crashed(db, current, crashes), key), height);
            && |after| <= |before| && (|after| == |before| ==> after == before)
            && (after == before <==> AllSpareKey(db, current, crashes, height, key))
  {
    if crashes != [] {
      var front, last := crashes[..|crashes| - 1], crashes[|crashes| - 1];
      CrashesKeep(db, current, front);
      CrashesSpareKeyIff(db, current, front, height, key);
      CrashShrinks(Crashed(db, current, front), current, last, height, key);
      LastCrash(db, current, crashes, height, key);
    }
  }

  lemma {:induction false} AllSpareIff(db: Db, current: nat, crashes: seq<Crash>, height: nat)
    requires WellFormed(db) && Bounded(db, current)
    ensures AllSpare(db, current, crashes, height) <==>
            forall k :: Trim(Hist(Crashed(db, current, crashes), k), height) == Trim(Hist(db, k), height)
  {
    forall k
      ensures Trim(Hist(Crashed(db, current, crashes), k), height) == Trim(Hist(db, k), height) <==>
              AllSpareKey(db, current, crashes, height, k)
    {
      CrashesSpareKeyIff(db, current, crashes, height, k);
    }
    if forall k :: AllSpareKey(db, current, crashes, height, k) {
      forall i | 0 <= i < |crashes| ensures SparesAt(db, current, crashes, height, i) {
        forall k ensures SparesKey(Crashed(db, current, crashes[..i]), current, crashes[i], height, k) {
          assert AllSpareKey(db, current, crashes, height, k) && SparesKeyAt(db, current, crashes, height, k, i);
        }
      }
    }
    if AllSpare(db, current, crashes, height) {
      forall k, i | 0 <= i < |crashes| ensures SparesKeyAt(db, current, crashes, height, k, i) {
        assert SparesAt(db, current, crashes, height, i);
      }
    }
  }

  lemma {:induction false} RollbackAfterCrashesKeeps(db: Db, current: nat, crashes: seq<Crash>, height: nat)
    requires WellFormed(db) && Bounded(db, current) && height <= current
    ensures var after := RolledBack(Crashed(db, current, crashes), height, current);
            WellFormed(after) && Bounded(after, height)
  {
    CrashesKeep(db, current, crashes);
    RollbackRefines(Crashed(db, current, crashes), height, current);
  }

  /**
   A process killed inside rollbacks, any number of times, and then rolled back completely to any
   height, as a startup heal does: the lists are those of one rollback to that height if and only if
   no killed rollback took a version at or below it, that is, trimmed a key with a version above
   its own target and at or below that height.
   */
  lemma {:induction false} RollbackAfterCrashesIff(db: Db, current: nat, crashes: seq<Crash>, height: nat)
    requires WellFormed(db) && Bounded(db, current) && height <= current
    ensures VersionsIn(RolledBack(Crashed(db, current, crashes), height, current)) == TrimTo(VersionsIn(db), height) <==>
            AllSpare(db, current, crashes, height)
  {
    var stopped := Crashed(db, current, crashes);
    CrashesKeep(db, current, crashes);
    RollbackRefines(stopped, height, current);
    AllSpareIff(db, current, crashes, height);
    forall k
      ensures HistoryOf(TrimTo(VersionsIn(stopped), height), k) == Trim(Hist(stopped, k), height)
      ensures HistoryOf(TrimTo(VersionsIn(db), height), k) == Trim(Hist(db, k), height)
    {
      TrimToHistory(VersionsIn(stopped), height, k);
      TrimToHistory(VersionsIn(db), height, k);
      VersionsInHistory(stopped, k);
      VersionsInHistory(db, k);
    }
    if AllSpare(db, current, crashes, height) {
      SameHistories(TrimTo(VersionsIn(stopped), height), TrimTo(VersionsIn(db), height));
    }
    if VersionsIn(RolledBack(stopped, height, current)) == TrimTo(VersionsIn(db), height) {
      forall k ensures Trim(Hist(stopped, k), height) == Trim(Hist(db, k), height) {
        assert HistoryOf(TrimTo(VersionsIn(stopped), height), k) == HistoryOf(TrimTo(VersionsIn(db), height), k);
      }
    }
  }

  /** Every interrupted rollback aimed at `height` or above. */
  predicate AimAtLeast(crashes: seq<Crash>, height: nat) {
    forall i :: 0 <= i < |crashes| ==> height <= crashes[i].target
  }

  /** Crashes in rollbacks to `height` or above do not matter to a complete rollback to `height`. */
  lemma {:induction false} RollbackAfterCrashes(db: Db, current: nat, crashes: seq<Crash>, height: nat)
    requires WellFormed(db) && Bounded(db, current) && height <= current && AimAtLeast(crashes, height)
    ensures var after := RolledBack(Crashed(db, current, crashes), height, current);
            WellFormed(after) && Bounded(after, height) && VersionsIn(after) == TrimTo(VersionsIn(db), height)
  {
    RollbackAfterCrashesKeeps(db, current, crashes, height);
    RollbackAfterCrashesIff(db, current, crashes, height);
    AimedAboveSpares(db, current, crashes, height);
  }

  lemma {:induction false} AimedAboveSpares(db: Db, current: nat, crashes: seq<Crash>, height: nat)
    requires AimAtLeast(crashes, height)
    ensures AllSpare(db, current, crashes, height)
  {
    forall i | 0 <= i < |crashes| ensures SparesAt(db, current, crashes, height, i) {
      assert crashes[i].target >= height;
    }
  }

  // ---------------------------------------------------------------- an interrupted fast rollback

  /** A key is listed at some height above `low`, up to `top`. */
  ghost predicate ListedAbove(db: Db, low: nat, top: nat, key: Key) {
    exists h :: low < h <= top && InManifest(db, h, key)
  }

  lemma {:induction false} StepKeepsOtherManifests(db: Db, height: nat, h: nat, g: nat, key: Key)
    requires g != h
    ensures InManifest(FastStep(db, height, h), g, key) <==> InManifest(db, g, key)
  {
  }

  lemma {:induction false} ListedAboveSplit(db: Db, height: nat, low: nat, top: nat, key: Key)
    requires low < top
    ensures ListedAbove(db, low, top, key) <==>
            InManifest(db, top, key) || ListedAbove(FastStep(db, height, top), low, top - 1, key)
  {
    forall g | low < g <= top - 1
      ensures InManifest(FastStep(db, height, top), g, key) <==> InManifest(db, g, key)
    {
      StepKeepsOtherManifests(db, height, top, g, key);
    }
  }

  /** What each list is after the batches of the heights above `low`. */
  lemma {:induction false} FastPartialExact(db: Db, height: nat, top: nat, low: nat, key: Key)
    requires WellFormed(db) && height <= low <= top
    ensures Hist(FastPartial(db, height, top, low), key) ==
            if ListedAbove(db, low, top, key) then Trim(Hist(db, key), height) else Hist(db, key)
    decreases top
  {
    if low < top {
      StepWellFormed(db, height, top);
      StepHist(db, height, top, key);
      FastPartialExact(FastStep(db, height, top), height, top - 1, low, key);
      TrimTrim(Hist(db, key), height, height);
      ListedAboveSplit(db, height, low, top, key);
    }
  }

  /** The state a reader would expect between two batches: every list trimmed to the height reached. */
  ghost predicate CleanAt(before: Db, after: Db, low: nat) {
    forall k :: Hist(after, k) == Trim(Hist(before, k), low)
  }

  /** No key listed above `low` has a version above the target and at or below `low`. */
  ghost predicate NothingBetween(db: Db, height: nat, top: nat, low: nat) {
    forall k, i :: 0 <= i < Len(db, k) && ListedAbove(db, low, top, k) ==>
      EntryAt(db, k, i).height <= height || EntryAt(db, k, i).height > low
  }

  /**
   The code says that stopping between two batches leaves a clean intermediate height. That
   holds exactly when no key of the heights already processed has versions in between.
   */
  lemma {:induction false} CleanIntermediateIff(db: Db, height: nat, top: nat, low: nat)
    requires WellFormed(db) && Bounded(db, top) && height <= low <= top
    ensures CleanAt(db, FastPartial(db, height, top, low), low) <==> NothingBetween(db, height, top, low)
  {
    var after := FastPartial(db, height, top, low);
    if NothingBetween(db, height, top, low) {
      forall k
        ensures Hist(after, k) == Trim(Hist(db, k), low)
      {
        FastPartialExact(db, height, top, low, k);
        FastPartialKeeps(db, height, top, low, k, height);
        if ListedAbove(db, low, top, k) {
          TrimGap(Hist(db, k), height, low);
        } else {
          assert forall i :: 0 <= i < Len(after, k) ==> Hist(after, k)[i] == EntryAt(after, k, i);
          TrimAllBelow(Hist(db, k), low);
        }
      }
    }
    if CleanAt(db, after, low) {
      forall k, i | 0 <= i < Len(db, k) && ListedAbove(db, low, top, k)
        ensures EntryAt(db, k, i).height <= height || EntryAt(db, k, i).height > low
      {
        FastPartialExact(db, height, top, low, k);
        assert Trim(Hist(db, k), height) == Trim(Hist(db, k), low);
        if EntryAt(db, k, i).height <= low {
          TrimKeeps(Hist(db, k), low, i);
          TrimBounded(Hist(db, k), height);
        }
      }
    }
  }

  lemma {:induction false} TrimGap(hist: History, height: nat, low: nat)
    requires height <= low
    requires forall i :: 0 <= i < |hist| ==> hist[i].height <= height || hist[i].height > low
    ensures Trim(hist, height) == Trim(hist, low)
  {
    if hist != [] {
      TrimGap(hist[..|hist| - 1], height, low);
    }
  }

  lemma {:induction false} TrimKeeps(hist: History, height: nat, i: nat)
    requires i < |hist| && hist[i].height <= height
    ensures hist[i] in Trim(hist, height)
  {
    if i < |hist| - 1 {
      TrimKeeps(hist[..|hist| - 1], height, i);
    }
  }

  /** One key, one version at height 1 and one at height 2. */
  function TwoBlocks(key: Key): Db {
    Committed(Committed(map[], 1, [], [Write(key, [1])], []), 2, [], [Write(key, [2])], [])
  }

  lemma {:induction false} TwoBlocksHist(key: Key)
    ensures var db := TwoBlocks(key);
            WellFormed(db) && Bounded(db, 2) && Hist(db, key) == [Entry(1, [1]), Entry(2, [2])] && InManifest(db, 2, key)
  {
    var first := Committed(map[], 1, [], [Write(key, [1])], []);
    assert WellFormed(map[]) by {
      assert forall k :: Hist(map[], k) == [];
    }
    CommitRefines(map[], 1, [], [Write(key, [1])], []);
    CommitRefines(first, 2, [], [Write(key, [2])], []);
    CommittedHist(map[], 1, [], [Write(key, [1])], [], key);
    CommittedHist(first, 2, [], [Write(key, [2])], [], key);
    assert VersionsOf([Write(key, [1])], key, 1) == [Entry(1, [1])];
    assert VersionsOf([Write(key, [2])], key, 2) == [Entry(2, [2])];
    var db := TwoBlocks(key);
    assert InManifest(db, EntryAt(db, key, 1).height, key);
  }

  /**
   A concrete store for which it fails: one key written at heights 1 and 2. Rolling back to 0
   and stopping after the batch of height 2 has already removed the version of height 1, and
   a later rollback to height 1 cannot bring it back.
   */
  lemma {:induction false} InterruptedIsNotClean(key: Key)
    ensures var db := TwoBlocks(key);
            && !CleanAt(db, FastPartial(db, 0, 2, 1), 1)
            && VersionsIn(RolledBack(FastPartial(db, 0, 2, 1), 1, 2)) != TrimTo(VersionsIn(db), 1)
  {
    var db := TwoBlocks(key);
    TwoBlocksHist(key);
    var stopped := FastPartial(db, 0, 2, 1);
    FastPartialKeeps(db, 0, 2, 1, key, 0);
    FastPartialExact(db, 0, 2, 1, key);
    assert ListedAbove(db, 1, 2, key);
    var hist := Hist(db, key);
    TrimBounded(hist, 0);
    TrimKeeps(hist, 1, 0);
    assert Hist(stopped, key) == Trim(hist, 0) && Trim(Hist(stopped, key), 1) == Trim(hist, 0) by {
      TrimTrim(hist, 0, 1);
    }
    assert hist[0] !in Trim(hist, 0);
    RollbackRefines(stopped, 1, 2);
    VersionsInHistory(stopped, key);
    VersionsInHistory(db, key);
    TrimToHistory(VersionsIn(stopped), 1, key);
    TrimToHistory(VersionsIn(db), 1, key);
  }

  // ---------------------------------------------------------------- per-key helper

  predicate HelperDrops(db: Db, height: nat, key: Key, pk: PhysKey) {
    pk.Slot? && pk.key == key && Kept(db, key, height) <= pk.index < Len(db, key)
  }

  /** The per-key helper drops newer slots and rewrites the length, even to zero. */
  function KeyRolledBack(db: Db, height: nat, key: Key): Db {
    map pk | pk in db && !HelperDrops(db, height, key, pk) ::
      if pk == LengthOf(key) then Num(Kept(db, key, height)) else db[pk]
  }

  lemma {:induction false} HelperHist(db: Db, height: nat, key: Key, other: Key)
    requires WellFormed(db)
    ensures Hist(KeyRolledBack(db, height, key), other) ==
            if other == key then Trim(Hist(db, key), height) else Hist(db, other)
  {
    var after := KeyRolledBack(db, height, key);
    TrimIsPrefix(Hist(db, key), height);
    if key !in UserKeys(db) {
      assert LengthOf(key) !in db;
    }
    assert Len(after, other) == if other == key then Kept(db, key, height) else Len(db, other);
    forall i | 0 <= i < Len(after, other)
      ensures EntryAt(after, other, i) == EntryAt(db, other, i)
    {
      assert Slot(other, i) in db;
    }
  }

  /** The helper and the full scan give a key the same list, so the same answer at every height. */
  lemma {:induction false} HelperMatchesScan(db: Db, height: nat, key: Key, asked: nat)
    requires WellFormed(db)
    ensures Hist(KeyRolledBack(db, height, key), key) == Hist(FullScanned(db, height), key)
    ensures LookupAt(Hist(KeyRolledBack(db, height, key), key), asked) == LookupAt(Hist(db, key), Min(asked, height))
  {
    HelperHist(db, height, key, key);
    ScanHist(db, height, UserKeys(db), key);
    TrimLookup(Hist(db, key), height, asked);
    if key !in UserKeys(db) {
      assert LengthOf(key) !in db;
      assert Hist(db, key) == [];
    }
  }
}
