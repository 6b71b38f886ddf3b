/**
 The reference a versioned store is measured against: the program run over a plain memory that
 each block's writes overwrite. Indexing through version lists hands the program the same
 readable state, stores the writes of that run, and answers for a height with its memory then.
 */
module DirectRun {
  import opened Basics
  import opened Versions
  import opened Physical
  import opened Indexing

  /** The last value written to each key. */
  type Memory = map<Key, Bytes>

  function AfterWrites(memory: Memory, writes: seq<Write>): Memory {
    if writes == [] then memory
    else AfterWrites(memory, writes[..|writes| - 1])[writes[|writes| - 1].key := writes[|writes| - 1].value]
  }

  /** What a program can see of a memory: an empty value reads like none. */
  function Readable(memory: Memory): View {
    map k | k in memory && memory[k] != [] :: memory[k]
  }

  /** The writes of a block run on the memory that the blocks below it leave. */
  function DirectWrites(idx: Indexer, blocks: seq<Block>, block: Block): seq<Write> {
    idx(|blocks|, block.data, Readable(MemoryAfter(idx, blocks)))
  }

  function MemoryAfter(idx: Indexer, blocks: seq<Block>): Memory
    decreases |blocks|, 0
  {
    if blocks == [] then map[]
    else
      var front := blocks[..|blocks| - 1];
      var before := MemoryAfter(idx, front);
      AfterWrites(before, idx(|front|, blocks[|blocks| - 1].data, Readable(before)))
  }

  /** The memory's value of a key, if it has one. */
  function ValueIn(memory: Memory, key: Key): Option<Bytes> {
    if key in memory then Some(memory[key]) else None
  }

  lemma {:induction false} WritesReplace(memory: Memory, writes: seq<Write>, key: Key)
    ensures ValueIn(AfterWrites(memory, writes), key) ==
            if LastWrite(writes, key).Some? then LastWrite(writes, key) else ValueIn(memory, key)
  {
    if writes != [] {
      WritesReplace(memory, writes[..|writes| - 1], key);
    }
  }

  /** From its tip on, the lists of a chain answer with the memory. */
  lemma {:induction false} ListsAnswer(idx: Indexer, blocks: seq<Block>, key: Key, asked: nat)
    requires |blocks| <= asked + 1
    ensures LookupAt(HistoryOf(IndexFrom(idx, map[], 0, blocks), key), asked) == ValueIn(MemoryAfter(idx, blocks), key)
    decreases |blocks|, 0
  {
    if blocks != [] {
      var front, last := blocks[..|blocks| - 1], blocks[|blocks| - 1];
      ListsAnswer(idx, front, key, asked);
      SeesMemory(idx, front, last);
      var writes := DirectWrites(idx, front, last);
      LastWriteWins(IndexFrom(idx, map[], 0, front), |front|, writes, key, asked);
      WritesReplace(MemoryAfter(idx, front), writes, key);
    }
  }

  /** The block above a chain is handed the memory of the chain, and writes what it writes there. */
  lemma {:induction false} SeesMemory(idx: Indexer, blocks: seq<Block>, block: Block)
    ensures WritesOf(idx, IndexFrom(idx, map[], 0, blocks), |blocks|, block) == DirectWrites(idx, blocks, block)
    decreases |blocks|, 1
  {
    var vs, memory := IndexFrom(idx, map[], 0, blocks), MemoryAfter(idx, blocks);
    forall k ensures LookupAt(HistoryOf(vs, k), ReadHeight(|blocks|)) == ValueIn(memory, k) {
      if blocks != [] {
        ListsAnswer(idx, blocks, k, ReadHeight(|blocks|));
      }
    }
    forall k ensures k in ViewAt(vs, ReadHeight(|blocks|)) <==> k in Readable(memory) {
      assert LookupAt(HistoryOf(vs, k), ReadHeight(|blocks|)) == ValueIn(memory, k);
    }
    forall k | k in Readable(memory) ensures ViewAt(vs, ReadHeight(|blocks|))[k] == Readable(memory)[k] {
      assert LookupAt(HistoryOf(vs, k), ReadHeight(|blocks|)) == ValueIn(memory, k);
    }
    assert ViewAt(vs, ReadHeight(|blocks|)) == Readable(memory);
  }

  /** The version lists of running the program over the memory. */
  function DirectLists(idx: Indexer, blocks: seq<Block>): Versions {
    if blocks == [] then map[]
    else
      var front := blocks[..|blocks| - 1];
      AppendBlock(DirectLists(idx, front), |front|, DirectWrites(idx, front, blocks[|blocks| - 1]))
  }

  /** Indexing a chain through the store gives the lists of running the program over a plain memory. */
  lemma {:induction false} IndexingIsDirect(idx: Indexer, blocks: seq<Block>)
    ensures IndexFrom(idx, map[], 0, blocks) == DirectLists(idx, blocks)
  {
    if blocks != [] {
      IndexingIsDirect(idx, blocks[..|blocks| - 1]);
      SeesMemory(idx, blocks[..|blocks| - 1], blocks[|blocks| - 1]);
    }
  }

  /** A store that holds a chain's lists answers for each height with the memory after that block. */
  lemma {:induction false} HistoryIsMemory(idx: Indexer, db: Db, chain: seq<Block>, key: Key, height: nat)
    requires Indexed(idx, db, chain) && height < |chain|
    ensures LookupAt(Hist(db, key), height) == ValueIn(MemoryAfter(idx, chain[..height + 1]), key)
  {
    var vs := VersionsIn(db);
    VersionsInHistory(db, key);
    TrimToPrefix(idx, chain, height);
    TrimToHistory(vs, height, key);
    TrimLookup(HistoryOf(vs, key), height, height);
    ListsAnswer(idx, chain[..height + 1], key, height);
  }

  /** So does the store of any run in which no killed rollback takes what is kept. */
  lemma {:induction false} RunAnswersWithMemory(idx: Indexer, events: seq<Event>, key: Key, height: nat)
    requires ValidRun(events) && height < |Surviving(events)|
    requires forall i :: 0 <= i < |events| ==> EventSpares(StoreAt(idx, events, i), ChainAt(events, i), events[i])
    ensures LookupAt(Hist(Execute(idx, events), key), height) ==
            ValueIn(MemoryAfter(idx, Surviving(events)[..height + 1]), key)
  {
    IndexedUpTo(idx, events, |events|);
    assert events[..|events|] == events;
    HistoryIsMemory(idx, Execute(idx, events), Surviving(events), key, height);
  }
}
