/**
 The store as the database holds it: a map keyed by the rendered bytes. Two user keys have
 version slots that render like metadata records; on stores without slots of those two keys
 the bytes carry the whole of module Physical.
 */
module RawStore {
  import opened Basics
  import opened Versions
  import opened Physical
  import opened Formats
  import opened Rollback

  type RawDb = map<Bytes, Cell>

  datatype RawOp = RawPut(key: Bytes, cell: Cell) | RawDelete(key: Bytes)

  /** The user keys whose slots look like manifests or hash records. */
  predicate Reserved(key: Key) {
    key == MANIFESTS || key == HASHES
  }

  predicate Plain(pk: PhysKey) {
    pk.Slot? ==> !Reserved(pk.key)
  }

  ghost predicate Separate(db: Db) {
    forall pk :: pk in db ==> Plain(pk)
  }

  lemma {:induction false} PlainKeysDiffer(a: PhysKey, b: PhysKey)
    requires Plain(a) && Plain(b)
    ensures Render(a) == Render(b) <==> a == b
  {
    RenderCollidesIff(a, b);
  }

  /** The store under its rendered keys. */
  ghost function Raw(db: Db): (raw: RawDb)
    requires Separate(db)
    ensures forall s :: s in raw ==> exists pk :: pk in db && Render(pk) == s
    ensures forall pk :: Plain(pk) ==>
              (pk in db <==> Render(pk) in raw) && (pk in db ==> raw[Render(pk)] == db[pk])
  {
    forall a, b | Plain(a) && Plain(b) ensures Render(a) == Render(b) <==> a == b {
      PlainKeysDiffer(a, b);
    }
    map pk | pk in db :: Render(pk) := db[pk]
  }

  lemma {:induction false} RawHolds(a: Db, b: Db)
    requires Separate(a) && Separate(b) && Raw(a) == Raw(b)
    ensures forall pk :: pk in a ==> pk in b && b[pk] == a[pk]
  {
    forall pk | pk in a ensures pk in b && b[pk] == a[pk] {
      assert Plain(pk) && Render(pk) in Raw(a);
    }
  }

  /** Nothing is lost: stores with the same bytes are the same store. */
  lemma {:induction false} RawInjective(a: Db, b: Db)
    requires Separate(a) && Separate(b)
    ensures Raw(a) == Raw(b) <==> a == b
  {
    if Raw(a) == Raw(b) {
      RawHolds(a, b);
      RawHolds(b, a);
    }
  }

  // ---------------------------------------------------------------- batches

  function RenderOp(op: Op): RawOp {
    match op
    case Put(pk, cell) => RawPut(Render(pk), cell)
    case Delete(pk) => RawDelete(Render(pk))
  }

  function RenderOps(ops: seq<Op>): (raw: seq<RawOp>)
    ensures |raw| == |ops| && forall i :: 0 <= i < |ops| ==> raw[i] == RenderOp(ops[i])
  {
    seq(|ops|, i requires 0 <= i < |ops| => RenderOp(ops[i]))
  }

  function ApplyRawOp(raw: RawDb, op: RawOp): RawDb {
    match op
    case RawPut(key, cell) => raw[key := cell]
    case RawDelete(key) => raw - {key}
  }

  function ApplyRawOps(raw: RawDb, ops: seq<RawOp>): RawDb {
    if ops == [] then raw
    else ApplyRawOp(ApplyRawOps(raw, ops[..|ops| - 1]), ops[|ops| - 1])
  }

  ghost predicate PlainOps(ops: seq<Op>) {
    forall op :: op in ops ==> Plain(op.key)
  }

  lemma {:induction false} RawIs(db: Db, raw: RawDb)
    requires Separate(db)
    requires forall s :: s in raw ==> exists pk :: Plain(pk) && Render(pk) == s
    requires forall pk :: Plain(pk) ==> (pk in db <==> Render(pk) in raw) && (pk in db ==> raw[Render(pk)] == db[pk])
    ensures raw == Raw(db)
  {
    forall s ensures s in raw <==> s in Raw(db) {
      if s in raw {
        var pk :| Plain(pk) && Render(pk) == s;
      }
    }
    forall s | s in raw ensures raw[s] == Raw(db)[s] {
      var pk :| Plain(pk) && Render(pk) == s;
    }
  }

  lemma {:induction false} RawOpAgrees(db: Db, op: Op)
    requires Separate(db) && Plain(op.key)
    ensures Separate(ApplyOp(db, op)) && Raw(ApplyOp(db, op)) == ApplyRawOp(Raw(db), RenderOp(op))
  {
    var after, raw := ApplyOp(db, op), ApplyRawOp(Raw(db), RenderOp(op));
    forall s | s in raw ensures exists pk :: Plain(pk) && Render(pk) == s {
      if s == Render(op.key) {
        assert Plain(op.key);
      }
    }
    forall pk | Plain(pk)
      ensures (pk in after <==> Render(pk) in raw) && (pk in after ==> raw[Render(pk)] == after[pk])
    {
      PlainKeysDiffer(pk, op.key);
    }
    RawIs(after, raw);
  }

  lemma {:induction false} RawLastOp(raw: RawDb, ops: seq<Op>)
    requires ops != []
    ensures ApplyRawOps(raw, RenderOps(ops)) ==
            ApplyRawOp(ApplyRawOps(raw, RenderOps(ops[..|ops| - 1])), RenderOp(ops[|ops| - 1]))
  {
    assert RenderOps(ops)[..|ops| - 1] == RenderOps(ops[..|ops| - 1]);
  }

  /** A batch on the bytes does what the batch does on the store. */
  lemma {:induction false} RawOpsAgree(db: Db, ops: seq<Op>)
    requires Separate(db) && PlainOps(ops)
    ensures Separate(ApplyOps(db, ops)) && Raw(ApplyOps(db, ops)) == ApplyRawOps(Raw(db), RenderOps(ops))
  {
    if ops != [] {
      var front, last := ops[..|ops| - 1], ops[|ops| - 1];
      assert last in ops && forall op :: op in front ==> op in ops;
      RawOpsAgree(db, front);
      RawOpAgrees(ApplyOps(db, front), last);
      RawLastOp(Raw(db), ops);
    }
  }

  // ---------------------------------------------------------------- the scan

  ghost predicate NumbersFit(db: Db) {
    forall pk :: pk in db ==> NumberIn(pk) < U32_LIMIT
  }

  /** The user keys a scan of the bytes collects. */
  ghost function ScannedBases(raw: RawDb): set<Key> {
    set s | s in raw && ScannedBase(s).Some? :: ScannedBase(s).value
  }

  /** The keys a scan of the bytes deletes as metadata above `height`. */
  ghost function ScannedStale(raw: RawDb, height: nat): set<Bytes> {
    set s | s in raw && ScannedHeight(s).Some? && ScannedHeight(s).value > height
  }

  /** A scan of the bytes finds exactly the user keys, and exactly the metadata above the target. */
  lemma {:induction false} RawScanFinds(db: Db, height: nat)
    requires Separate(db) && NumbersFit(db)
    ensures ScannedBases(Raw(db)) == UserKeys(db)
    ensures ScannedStale(Raw(db), height) ==
            set pk | pk in db && MetaHeight(pk).Some? && MetaHeight(pk).value > height :: Render(pk)
  {
    var raw := Raw(db);
    forall pk | pk in db
      ensures Render(pk) in raw && ScannedHeight(Render(pk)) == MetaHeight(pk)
      ensures ScannedBase(Render(pk)) == if pk.LengthOf? then Some(pk.key) else None
    {
      ScanReadsKeys(pk);
    }
    forall k ensures k in UserKeys(db) <==> k in ScannedBases(raw) {
      UserKeysAre(db);
      if LengthOf(k) in db {
        assert ScannedBase(Render(LengthOf(k))).value == k;
      }
    }
  }

  // ---------------------------------------------------------------- which stores are separate

  lemma {:induction false} AppendSeparateIff(db: Db, height: nat, writes: seq<Write>)
    requires Separate(db)
    ensures Separate(AppendAll(db, height, writes)) <==> forall i :: 0 <= i < |writes| ==> !Reserved(writes[i].key)
    ensures forall pk :: pk in db ==> pk in AppendAll(db, height, writes)
  {
    if writes != [] {
      var front, w := writes[..|writes| - 1], writes[|writes| - 1];
      var before := AppendAll(db, height, front);
      AppendSeparateIff(db, height, front);
      assert Slot(w.key, Len(before, w.key)) in AppendAll(db, height, writes);
      assert forall pk :: pk in before ==> pk in AppendAll(db, height, writes);
    }
  }

  /** A commit keeps the store separate if and only if the block writes neither reserved key. */
  lemma {:induction false} CommitSeparateIff(db: Db, height: nat, hash: Bytes, writes: seq<Write>, root: Bytes)
    requires Separate(db)
    ensures Separate(Committed(db, height, hash, writes, root)) <==>
            forall i :: 0 <= i < |writes| ==> !Reserved(writes[i].key)
  {
    var appended, after := AppendAll(db, height, writes), Committed(db, height, hash, writes, root);
    AppendSeparateIff(db, height, writes);
    assert forall pk :: pk in appended ==> pk in after;
    assert forall pk: PhysKey :: pk.Slot? ==> (pk in after <==> pk in appended);
  }

  lemma {:induction false} FastSeparate(db: Db, height: nat, top: nat, low: nat)
    requires Separate(db)
    ensures Separate(FastPartial(db, height, top, low))
    decreases top
  {
    if low < top {
      FastSeparate(FastStep(db, height, top), height, top - 1, low);
    }
  }

  /** A rollback keeps it separate, on either path. */
  lemma {:induction false} RollbackSeparate(db: Db, height: nat, current: nat)
    requires Separate(db)
    ensures Separate(RolledBack(db, height, current))
  {
    FastSeparate(db, height, current, height);
  }
}
