/**
 What the sync engine sees of storage and of the node. A block hash is its own header, so two
 blocks with one hash have one header; the node is a table of blocks that may change or fail
 to answer at any time. Module SyncRefinement ties this storage to the physical store.
 */
module SyncStorage {
  import opened Basics
  import opened Versions

  datatype BlockHash = NoHash | HashOf(header: Header)

  datatype Header = Header(prev: BlockHash, rest: Bytes)

  /** A block as the node hands it out: the hash it claims, the header, and the full data. */
  datatype NodeBlock = NodeBlock(claimed: BlockHash, header: Header, data: Bytes)

  datatype Node = Node(blocks: map<nat, NodeBlock>, connected: bool)

  /** The node's answer for a height; None is an error. */
  function RemoteHash(node: Node, height: nat): Option<BlockHash> {
    if node.connected && height in node.blocks then Some(node.blocks[height].claimed) else None
  }

  /**
   Indexed height, the runtime's own tip pointer, hash records, version lists, and the keys
   listed in the manifest of each height that has one.
   */
  datatype Storage = Storage(
    tip: nat,
    runtimeTip: nat,
    hashes: map<nat, BlockHash>,
    versions: Versions,
    listed: map<nat, set<Key>>)

  const EMPTY_STORAGE := Storage(0, 0, map[], map[], map[])

  predicate InOrder(st: Storage, height: nat) {
    height == st.tip + 1 || (st.tip == 0 && 0 !in st.hashes)
  }

  /** A commit writes the block's batch and its metadata together; a block without writes leaves no manifest. */
  function Commit(st: Storage, height: nat, hash: BlockHash, writes: seq<Write>): Storage {
    Storage(height, height, st.hashes[height := hash], AppendBlock(st.versions, height, writes),
            if writes == [] then st.listed else st.listed[height := KeysWritten(writes)])
  }

  /** Every height from `low` up to `high` has a manifest. */
  predicate Listed(st: Storage, low: nat, high: nat) {
    forall h :: low < h <= high ==> h in st.listed
  }

  function HashesWithout(st: Storage, low: nat): map<nat, BlockHash> {
    map h | h in st.hashes && !(low < h <= st.tip) :: st.hashes[h]
  }

  function ListedWithout(st: Storage, low: nat): map<nat, set<Key>> {
    map h | h in st.listed && !(low < h <= st.tip) :: st.listed[h]
  }

  /**
   A rollback. With a manifest for every height undone, their hash records and manifests go; one
   missing manifest and the full scan runs, which leaves all of them in place. A target at or
   above the tip moves the pointer only. The runtime's own pointer stays where it is.
   */
  function RollbackTo(st: Storage, height: nat): Storage {
    if height >= st.tip then st.(tip := height)
    else if Listed(st, height, st.tip) then
      st.(tip := height, hashes := HashesWithout(st, height), versions := TrimTo(st.versions, height),
          listed := ListedWithout(st, height))
    else st.(tip := height, versions := TrimTo(st.versions, height))
  }

  // ---------------------------------------------------------------- a rollback that is killed

  /** Where a rollback is killed: its manifest batches have come down to `low`, or its scan has compacted `done`. */
  datatype Kill = Kill(low: nat, done: set<Key>)

  /** The height the manifest batches have reached; the tip if there were none. */
  function Reached(st: Storage, target: nat, kill: Kill): nat {
    if target >= st.tip || kill.low >= st.tip || !Listed(st, target, st.tip) then st.tip
    else if kill.low >= target then kill.low
    else target
  }

  /** The keys listed in the manifests above `low`, up to the tip. */
  function KeysListed(st: Storage, low: nat): set<Key> {
    set h, k | h in st.listed && low < h <= st.tip && k in st.listed[h] :: k
  }

  /** The keys already trimmed to the target when the rollback is killed. */
  function KeysTrimmed(st: Storage, target: nat, kill: Kill): set<Key> {
    if target >= st.tip then {}
    else if Listed(st, target, st.tip) then KeysListed(st, Reached(st, target, kill))
    else kill.done
  }

  function TrimKeys(vs: Versions, keys: set<Key>, height: nat): Versions {
    map k | k in vs && (k in keys ==> Trim(vs[k], height) != []) :: if k in keys then Trim(vs[k], height) else vs[k]
  }

  /** The storage a killed rollback leaves: the pointer has not moved. */
  function Interrupted(st: Storage, target: nat, kill: Kill): Storage {
    var low := Reached(st, target, kill);
    st.(hashes := HashesWithout(st, low), listed := ListedWithout(st, low),
        versions := TrimKeys(st.versions, KeysTrimmed(st, target, kill), target))
  }

  lemma {:induction false} TrimKeysHistory(vs: Versions, keys: set<Key>, height: nat, key: Key)
    ensures HistoryOf(TrimKeys(vs, keys, height), key) ==
            if key in keys then Trim(HistoryOf(vs, key), height) else HistoryOf(vs, key)
    ensures NoEmptyHistory(vs) ==> NoEmptyHistory(TrimKeys(vs, keys, height))
  {
  }

  ghost predicate VersionsBelow(vs: Versions, tip: nat) {
    forall k :: k in vs ==> AllAtMost(vs[k], tip)
  }

  /** Height `h` has a record, and its block names the block recorded below as its parent. */
  predicate Linked(st: Storage, h: nat) {
    && h in st.hashes
    && (h > 0 ==> h - 1 in st.hashes && st.hashes[h].HashOf? && st.hashes[h].header.prev == st.hashes[h - 1])
  }

  /** Linked hash records for all heights from 0 to the tip, and no version above the tip. */
  ghost predicate ChainStored(st: Storage) {
    && (forall h: nat :: h <= st.tip ==> Linked(st, h))
    && VersionsBelow(st.versions, st.tip)
  }

  /** Linked records without a gap below any of them. */
  ghost predicate Gapless(st: Storage) {
    0 in st.hashes && forall h: nat :: h <= st.tip && h in st.hashes ==> Linked(st, h)
  }

  lemma {:induction false} ChainIsGapless(st: Storage)
    requires ChainStored(st)
    ensures Gapless(st) && st.tip in st.hashes
  {
    assert Linked(st, 0) && Linked(st, st.tip);
  }

  lemma {:induction false} NoGapBelow(st: Storage, top: nat, h: nat)
    requires Gapless(st) && h <= top <= st.tip && top in st.hashes
    ensures h in st.hashes
    decreases top
  {
    assert Linked(st, top);
    if h < top {
      NoGapBelow(st, top - 1, h);
    }
  }

  /** No hash record above the tip. */
  ghost predicate NoStale(st: Storage) {
    forall h :: h in st.hashes ==> h <= st.tip
  }

  lemma {:induction false} RollbackKeepsRecords(st: Storage, height: nat)
    ensures forall h :: h <= height && h in st.hashes ==>
              h in RollbackTo(st, height).hashes && RollbackTo(st, height).hashes[h] == st.hashes[h]
    ensures forall h :: h in RollbackTo(st, height).hashes ==> h in st.hashes
  {
  }

  lemma {:induction false} RollbackTrims(st: Storage, height: nat)
    requires VersionsBelow(st.versions, st.tip)
    ensures VersionsBelow(RollbackTo(st, height).versions, height)
  {
    var after := RollbackTo(st, height);
    forall k | k in after.versions
      ensures AllAtMost(after.versions[k], height)
    {
      if height < st.tip {
        TrimBounded(st.versions[k], height);
      }
    }
  }

  /**
   A rollback keeps the stored chain exactly when every height it moves the tip up over has a
   linked record left from earlier; so a rollback at or below the tip always keeps it.
   */
  lemma {:induction false} RollbackKeepsChainIff(st: Storage, height: nat)
    requires ChainStored(st)
    ensures ChainStored(RollbackTo(st, height)) <==> forall h :: st.tip < h <= height ==> Linked(st, h)
  {
    var after := RollbackTo(st, height);
    RollbackKeepsRecords(st, height);
    RollbackTrims(st, height);
    forall h: nat | h <= height
      ensures Linked(after, h) <==> Linked(st, h)
    {
      assert h > 0 ==> h - 1 <= height;
    }
  }

  /** On exact records a rollback leaves exact records if and only if every undone height had a manifest. */
  lemma {:induction false} RollbackExactIff(st: Storage, height: nat)
    requires ChainStored(st) && NoStale(st) && height <= st.tip
    ensures NoStale(RollbackTo(st, height)) <==> Listed(st, height, st.tip)
  {
    var after := RollbackTo(st, height);
    if height < st.tip {
      assert Linked(st, st.tip);
      if !Listed(st, height, st.tip) {
        assert st.tip in after.hashes;
      }
    }
  }

  /** A genuine block that names the stored tip extends the stored chain; on the empty store block 0 starts one. */
  lemma {:induction false} CommitKeepsChain(st: Storage, height: nat, hash: BlockHash, writes: seq<Write>)
    requires (st == EMPTY_STORAGE && height == 0) || (ChainStored(st) && height == st.tip + 1)
    requires height > 0 ==>
               hash.HashOf? && height - 1 in st.hashes && hash.header.prev == st.hashes[height - 1]
    ensures ChainStored(Commit(st, height, hash, writes))
    ensures NoStale(st) ==> NoStale(Commit(st, height, hash, writes))
  {
    var after := Commit(st, height, hash, writes);
    forall h: nat | h <= height
      ensures Linked(after, h)
    {
      assert h < height ==> Linked(st, h);
      assert h == height && h > 0 ==> Linked(st, h - 1);
    }
    forall k | k in after.versions
      ensures AllAtMost(after.versions[k], height)
    {
      AppendBlockHistory(st.versions, height, writes, k);
    }
  }
}
