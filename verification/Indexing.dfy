/**
 Whole indexing runs. The user program is any function of height, block and what it can look
 up, and a run is any sequence of block commits and rollbacks on the physical store.
 */
module Indexing {
  import opened Basics
  import opened Versions
  import opened Physical
  import opened Rollback

  /** A user program: its writes depend on the height, the block and the readable state only. */
  type Indexer = (nat, Bytes, View) -> seq<Write>

  datatype Block = Block(hash: Bytes, data: Bytes)

  /** The height at which a block's lookups are answered. */
  function ReadHeight(height: nat): nat {
    if height > 0 then height - 1 else 0
  }

  function WritesOf(idx: Indexer, vs: Versions, height: nat, block: Block): seq<Write> {
    idx(height, block.data, ViewAt(vs, ReadHeight(height)))
  }

  /**
   What a program reads at a height: under each key the value of the last version below it, if
   that is not empty. At height 0, where nothing is below, versions of height 0 itself would count.
   */
  ghost predicate SeesBelow(view: View, vs: Versions, height: nat) {
    var below := if height > 0 then height else 1;
    forall k, v :: Sees(view, k, v) <==> v != [] && LastBelow(HistoryOf(vs, k), below, v)
  }

  predicate Sees(view: View, key: Key, value: Bytes) {
    key in view && view[key] == value
  }

  lemma {:induction false} BlockSeesBelow(vs: Versions, height: nat)
    ensures SeesBelow(ViewAt(vs, ReadHeight(height)), vs, height)
  {
    var view, below := ViewAt(vs, ReadHeight(height)), if height > 0 then height else 1;
    forall k, v
      ensures Sees(view, k, v) <==> v != [] && LastBelow(HistoryOf(vs, k), below, v)
    {
      LookupBelowIff(HistoryOf(vs, k), ReadHeight(height), below, v);
    }
  }

  /** A block's writes are those of its program on exactly what it reads below its height. */
  lemma {:induction false} BlockReadsBelow(idx: Indexer, vs: Versions, height: nat, block: Block, view: View)
    requires SeesBelow(view, vs, height)
    ensures WritesOf(idx, vs, height, block) == idx(height, block.data, view)
  {
    var seen := ViewAt(vs, ReadHeight(height));
    BlockSeesBelow(vs, height);
    forall k ensures (k in view <==> k in seen) && (k in view ==> view[k] == seen[k]) {
      if k in view {
        assert Sees(view, k, view[k]) && Sees(seen, k, view[k]);
      }
      if k in seen {
        assert Sees(seen, k, seen[k]) && Sees(view, k, seen[k]);
      }
    }
    assert view == seen;
  }

  /** The store's answer for the height below is what a program sees under the key. */
  lemma {:induction false} LookupIsSeen(view: View, db: Db, height: nat, key: Key)
    requires SeesBelow(view, VersionsIn(db), height)
    ensures var answer := LookupAt(Hist(db, key), if height > 0 then height - 1 else 0);
            && (key in view <==> answer.Some? && answer.value != [])
            && (key in view ==> answer == Some(view[key]))
  {
    var asked, below := if height > 0 then height - 1 else 0, if height > 0 then height else 1;
    var answer := LookupAt(Hist(db, key), asked);
    VersionsInHistory(db, key);
    if key in view {
      assert Sees(view, key, view[key]);
      LookupBelowIff(Hist(db, key), asked, below, view[key]);
    }
    if answer.Some? {
      LookupBelowIff(Hist(db, key), asked, below, answer.value);
      assert answer.value != [] ==> Sees(view, key, answer.value);
    }
  }

  /** The lists after indexing `blocks` in order, the first one at height `start`. */
  function IndexFrom(idx: Indexer, vs: Versions, start: nat, blocks: seq<Block>): Versions {
    if blocks == [] then vs
    else
      var before := IndexFrom(idx, vs, start, blocks[..|blocks| - 1]);
      var height := start + |blocks| - 1;
      AppendBlock(before, height, WritesOf(idx, before, height, blocks[|blocks| - 1]))
  }

  lemma {:induction false} IndexFromSound(idx: Indexer, blocks: seq<Block>, key: Key)
    ensures var vs := IndexFrom(idx, map[], 0, blocks);
            && NoEmptyHistory(vs)
            && (forall i :: 0 <= i < |HistoryOf(vs, key)| ==> HistoryOf(vs, key)[i].height < |blocks|)
  {
    if blocks != [] {
      var front := blocks[..|blocks| - 1];
      IndexFromSound(idx, front, key);
      var before := IndexFrom(idx, map[], 0, front);
      AppendBlockHistory(before, |front|, WritesOf(idx, before, |front|, blocks[|blocks| - 1]), key);
    }
  }

  lemma {:induction false} TrimToTip(idx: Indexer, blocks: seq<Block>)
    requires blocks != []
    ensures TrimTo(IndexFrom(idx, map[], 0, blocks), |blocks| - 1) == IndexFrom(idx, map[], 0, blocks)
  {
    var all := IndexFrom(idx, map[], 0, blocks);
    forall k
      ensures HistoryOf(TrimTo(all, |blocks| - 1), k) == HistoryOf(all, k)
    {
      IndexFromSound(idx, blocks, k);
      TrimAllBelow(HistoryOf(all, k), |blocks| - 1);
    }
    IndexFromSound(idx, blocks, []);
    SameHistories(TrimTo(all, |blocks| - 1), all);
  }

  /** A trim below a block's height forgets the block. */
  lemma {:induction false} TrimForgetsBlock(vs: Versions, height: nat, writes: seq<Write>, target: nat)
    requires target < height
    ensures TrimTo(AppendBlock(vs, height, writes), target) == TrimTo(vs, target)
  {
    var all := AppendBlock(vs, height, writes);
    forall k
      ensures HistoryOf(TrimTo(all, target), k) == HistoryOf(TrimTo(vs, target), k)
    {
      AppendBlockHistory(vs, height, writes, k);
      var newer := VersionsOf(writes, k, height);
      TrimAppend(HistoryOf(vs, k), newer, target);
      TrimAllAbove(newer, target);
    }
    SameHistories(TrimTo(all, target), TrimTo(vs, target));
  }

  /** Trimming what a chain left gives exactly what the shorter chain leaves. */
  lemma {:induction false} TrimToPrefix(idx: Indexer, blocks: seq<Block>, height: nat)
    requires height < |blocks|
    ensures TrimTo(IndexFrom(idx, map[], 0, blocks), height) == IndexFrom(idx, map[], 0, blocks[..height + 1])
  {
    if height + 1 == |blocks| {
      assert blocks[..height + 1] == blocks;
      TrimToTip(idx, blocks);
    } else {
      var front := blocks[..|blocks| - 1];
      var before := IndexFrom(idx, map[], 0, front);
      TrimForgetsBlock(before, |front|, WritesOf(idx, before, |front|, blocks[|blocks| - 1]), height);
      TrimToPrefix(idx, front, height);
      assert front[..height + 1] == blocks[..height + 1];
    }
  }

  lemma {:induction false} NothingWritten(vs: Versions, height: nat, writes: seq<Write>)
    requires NoEmptyHistory(vs)
    ensures AppendBlock(vs, height, writes) == vs <==> writes == []
  {
    var after := AppendBlock(vs, height, writes);
    if writes == [] {
      forall k ensures HistoryOf(after, k) == HistoryOf(vs, k) {
        AppendBlockHistory(vs, height, writes, k);
      }
      AppendBlockHistory(vs, height, writes, []);
      SameHistories(after, vs);
    } else {
      var key := writes[0].key;
      AppendBlockHistory(vs, height, writes, key);
      VersionsOfWritten(writes, key, height);
      assert |HistoryOf(after, key)| > |HistoryOf(vs, key)|;
    }
  }

  /** The block at height `h` of a chain writes nothing on the given lists. */
  predicate Silent(idx: Indexer, vs: Versions, blocks: seq<Block>, h: nat)
    requires h < |blocks|
  {
    WritesOf(idx, vs, h, blocks[h]) == []
  }

  lemma {:induction false} TrimAtOrAbove(idx: Indexer, blocks: seq<Block>, height: nat)
    requires |blocks| <= height + 1
    ensures TrimTo(IndexFrom(idx, map[], 0, blocks), height) == IndexFrom(idx, map[], 0, blocks)
  {
    var vs := IndexFrom(idx, map[], 0, blocks);
    forall k ensures HistoryOf(TrimTo(vs, height), k) == HistoryOf(vs, k) {
      IndexFromSound(idx, blocks, k);
      TrimToHistory(vs, height, k);
      TrimAllBelow(HistoryOf(vs, k), height);
    }
    IndexFromSound(idx, blocks, []);
    SameHistories(TrimTo(vs, height), vs);
  }

  /** If a chain has the lists of its first `low` blocks, so has everything in between. */
  lemma {:induction false} PrefixLists(idx: Indexer, blocks: seq<Block>, low: nat, height: nat, vs: Versions)
    requires low <= height + 1 <= |blocks|
    requires vs == IndexFrom(idx, map[], 0, blocks) && vs == IndexFrom(idx, map[], 0, blocks[..low])
    ensures IndexFrom(idx, map[], 0, blocks[..height + 1]) == vs
  {
    TrimToPrefix(idx, blocks, height);
    TrimAtOrAbove(idx, blocks[..low], height);
  }

  lemma {:induction false} SilentUpTo(idx: Indexer, blocks: seq<Block>, low: nat, n: nat)
    requires low <= n <= |blocks|
    requires var vs := IndexFrom(idx, map[], 0, blocks[..low]);
             forall h :: low <= h < n ==> Silent(idx, vs, blocks, h)
    ensures IndexFrom(idx, map[], 0, blocks[..n]) == IndexFrom(idx, map[], 0, blocks[..low])
  {
    if low < n {
      SilentUpTo(idx, blocks, low, n - 1);
      var vs := IndexFrom(idx, map[], 0, blocks[..low]);
      assert blocks[..n][..n - 1] == blocks[..n - 1];
      IndexFromSound(idx, blocks[..low], []);
      assert Silent(idx, vs, blocks, n - 1);
      NothingWritten(vs, n - 1, []);
    }
  }

  lemma {:induction false} OneMoreBlock(idx: Indexer, blocks: seq<Block>, h: nat, vs: Versions)
    requires h < |blocks| && vs == IndexFrom(idx, map[], 0, blocks[..h])
    ensures IndexFrom(idx, map[], 0, blocks[..h + 1]) == AppendBlock(vs, h, WritesOf(idx, vs, h, blocks[h]))
  {
    var upTo := blocks[..h + 1];
    assert upTo[..|upTo| - 1] == blocks[..h] && upTo[|upTo| - 1] == blocks[h];
  }

  lemma {:induction false} SameStepIsSilent(idx: Indexer, blocks: seq<Block>, h: nat, vs: Versions)
    requires h < |blocks| && NoEmptyHistory(vs)
    requires vs == IndexFrom(idx, map[], 0, blocks[..h]) && vs == IndexFrom(idx, map[], 0, blocks[..h + 1])
    ensures Silent(idx, vs, blocks, h)
  {
    OneMoreBlock(idx, blocks, h, vs);
    NothingWritten(vs, h, WritesOf(idx, vs, h, blocks[h]));
  }

  lemma {:induction false} SameListsAreSilent(idx: Indexer, blocks: seq<Block>, low: nat, h: nat, vs: Versions)
    requires 0 < low <= h < |blocks| && NoEmptyHistory(vs)
    requires vs == IndexFrom(idx, map[], 0, blocks) && vs == IndexFrom(idx, map[], 0, blocks[..low])
    ensures Silent(idx, vs, blocks, h)
  {
    PrefixLists(idx, blocks, low, h, vs);
    var below := h - 1;
    PrefixLists(idx, blocks, low, below, vs);
    assert blocks[..below + 1] == blocks[..h];
    SameStepIsSilent(idx, blocks, h, vs);
  }

  /** Indexing more blocks leaves the lists as they are if and only if every one of them writes nothing there. */
  lemma {:induction false} SameListsIff(idx: Indexer, blocks: seq<Block>, low: nat)
    requires 0 < low <= |blocks|
    ensures var vs := IndexFrom(idx, map[], 0, blocks[..low]);
            IndexFrom(idx, map[], 0, blocks) == vs <==>
            forall h :: low <= h < |blocks| ==> Silent(idx, vs, blocks, h)
  {
    var vs := IndexFrom(idx, map[], 0, blocks[..low]);
    assert blocks[..|blocks|] == blocks;
    if IndexFrom(idx, map[], 0, blocks) == vs {
      IndexFromSound(idx, blocks, []);
      forall h | low <= h < |blocks| ensures Silent(idx, vs, blocks, h) {
        SameListsAreSilent(idx, blocks, low, h, vs);
      }
    }
    if forall h :: low <= h < |blocks| ==> Silent(idx, vs, blocks, h) {
      SilentUpTo(idx, blocks, low, |blocks|);
    }
  }

  // ---------------------------------------------------------------- runs on the physical store

  /** The root a flush carries over: the nearest stored 32-byte root below `height`, else all zero. */
  function CarriedRoot(db: Db, height: nat): Bytes {
    if height == 0 then EMPTY_ROOT
    else if Root(height - 1) in db && db[Root(height - 1)].Blob? && |db[Root(height - 1)].bytes| == 32
    then db[Root(height - 1)].bytes
    else CarriedRoot(db, height - 1)
  }

  const EMPTY_ROOT: Bytes :=
    [0, 0, 0, 0, 0, 0, 0, 0, 0, 0, 0, 0, 0, 0, 0, 0, 0, 0, 0, 0, 0, 0, 0, 0, 0, 0, 0, 0, 0, 0, 0, 0]

  /** One block: run the program on the current state and commit what it wrote. */
  function IndexBlock(idx: Indexer, db: Db, height: nat, block: Block): Db {
    Committed(db, height, block.hash, WritesOf(idx, VersionsIn(db), height, block), CarriedRoot(db, height))
  }

  /**
   A block, or a complete rollback before which the process was killed any number of times inside
   rollbacks to whatever heights. A restart after such a kill is a rollback to the height the
   heal settles on, which may lie above or below what the killed ones aimed at.
   */
  datatype Event = Extend(block: Block) | Rollback(height: nat, crashes: seq<Crash>)

  /** The height of the last block. */
  function Tip(chain: seq<Block>): nat {
    if chain == [] then 0 else |chain| - 1
  }

  /** The chain after an event: extended at the end, or cut back. */
  function ChainAfter(chain: seq<Block>, event: Event): seq<Block> {
    match event
    case Extend(b) => chain + [b]
    case Rollback(h, _) => if h < |chain| then chain[..h + 1] else chain
  }

  /** A rollback ends at a height in the chain. */
  predicate Fits(chain: seq<Block>, event: Event) {
    match event
    case Extend(_) => true
    case Rollback(h, _) => h < |chain|
  }

  function StoreAfter(idx: Indexer, db: Db, chain: seq<Block>, event: Event): Db
    requires Fits(chain, event)
  {
    match event
    case Extend(b) => IndexBlock(idx, db, |chain|, b)
    case Rollback(h, crashes) => RolledBack(Crashed(db, Tip(chain), crashes), h, Tip(chain))
  }

  /** The blocks of the chain after a run. */
  function Surviving(events: seq<Event>): seq<Block> {
    if events == [] then [] else ChainAfter(Surviving(events[..|events| - 1]), events[|events| - 1])
  }

  predicate ValidRun(events: seq<Event>) {
    events == [] ||
    (ValidRun(events[..|events| - 1]) && Fits(Surviving(events[..|events| - 1]), events[|events| - 1]))
  }

  /** The physical store after a run from an empty one. */
  function Execute(idx: Indexer, events: seq<Event>): Db
    requires ValidRun(events)
  {
    if events == [] then map[]
    else
      var front := events[..|events| - 1];
      StoreAfter(idx, Execute(idx, front), Surviving(front), events[|events| - 1])
  }

  /** The store holds the lists that indexing the chain from an empty one gives. */
  ghost predicate Indexed(idx: Indexer, db: Db, chain: seq<Block>) {
    VersionsIn(db) == IndexFrom(idx, map[], 0, chain)
  }

  lemma {:induction false} BlockKeepsIndexed(idx: Indexer, db: Db, chain: seq<Block>, block: Block)
    requires Kept(db, chain) && Indexed(idx, db, chain)
    ensures Indexed(idx, IndexBlock(idx, db, |chain|, block), chain + [block])
  {
    var writes := WritesOf(idx, VersionsIn(db), |chain|, block);
    CommitRefines(db, |chain|, block.hash, writes, CarriedRoot(db, |chain|));
    assert (chain + [block])[..|chain|] == chain;
  }

  lemma {:induction false} NothingIndexed(idx: Indexer)
    ensures Kept(map[], []) && Indexed(idx, map[], [])
  {
    assert forall k :: Hist(map[], k) == [];
    assert UserKeys(map[]) == {};
  }

  /** What every event keeps, whatever the crashes have taken. */
  ghost predicate Kept(db: Db, chain: seq<Block>) {
    WellFormed(db) && Bounded(db, |chain| - 1)
  }

  lemma {:induction false} BlockKeeps(idx: Indexer, db: Db, chain: seq<Block>, block: Block)
    requires Kept(db, chain)
    ensures Kept(IndexBlock(idx, db, |chain|, block), chain + [block])
  {
    CommitRefines(db, |chain|, block.hash, WritesOf(idx, VersionsIn(db), |chain|, block), CarriedRoot(db, |chain|));
  }

  lemma {:induction false} RollbackKeeps(db: Db, chain: seq<Block>, tip: nat, height: nat, crashes: seq<Crash>)
    requires Kept(db, chain) && |chain| == tip + 1 && height <= tip
    ensures Kept(RolledBack(Crashed(db, tip, crashes), height, tip), chain[..height + 1])
  {
    RollbackAfterCrashesKeeps(db, tip, crashes, height);
  }

  lemma {:induction false} EventKeeps(idx: Indexer, db: Db, chain: seq<Block>, event: Event)
    requires Kept(db, chain) && Fits(chain, event)
    ensures Kept(StoreAfter(idx, db, chain, event), ChainAfter(chain, event))
  {
    match event
    case Extend(b) => BlockKeeps(idx, db, chain, b);
    case Rollback(h, crashes) => RollbackKeeps(db, chain, Tip(chain), h, crashes);
  }

  lemma {:induction false} RunKeeps(idx: Indexer, events: seq<Event>)
    requires ValidRun(events)
    ensures Kept(Execute(idx, events), Surviving(events))
  {
    if events == [] {
      NothingIndexed(idx);
    } else {
      var front := events[..|events| - 1];
      RunKeeps(idx, front);
      EventKeeps(idx, Execute(idx, front), Surviving(front), events[|events| - 1]);
    }
  }

  /** The killed rollbacks of an event take no version at or below the height it ends at. */
  ghost predicate EventSpares(db: Db, chain: seq<Block>, event: Event) {
    event.Rollback? && chain != [] ==> AllSpare(db, Tip(chain), event.crashes, event.height)
  }

  lemma {:induction false} CutIndexedIff(idx: Indexer, chain: seq<Block>, height: nat, vs: Versions, after: Versions)
    requires vs == IndexFrom(idx, map[], 0, chain) && height < |chain|
    ensures after == IndexFrom(idx, map[], 0, chain[..height + 1]) <==> after == TrimTo(vs, height)
  {
    TrimToPrefix(idx, chain, height);
  }

  lemma {:induction false} RollbackIndexedIff(idx: Indexer, db: Db, chain: seq<Block>, height: nat, crashes: seq<Crash>)
    requires Kept(db, chain) && Indexed(idx, db, chain) && height < |chain|
    ensures Indexed(idx, RolledBack(Crashed(db, Tip(chain), crashes), height, Tip(chain)), chain[..height + 1]) <==>
            AllSpare(db, Tip(chain), crashes, height)
  {
    var tip := Tip(chain);
    CutIndexedIff(idx, chain, height, VersionsIn(db), VersionsIn(RolledBack(Crashed(db, tip, crashes), height, tip)));
    RollbackAfterCrashesIff(db, tip, crashes, height);
  }

  /** After the event the store is indexed exactly when the event spares what it keeps. */
  ghost predicate IndexedIfSpared(idx: Indexer, db: Db, chain: seq<Block>, event: Event)
    requires Fits(chain, event)
  {
    Indexed(idx, StoreAfter(idx, db, chain, event), ChainAfter(chain, event)) <==> EventSpares(db, chain, event)
  }

  lemma {:induction false} ExtendIndexedIff(idx: Indexer, db: Db, chain: seq<Block>, block: Block)
    requires Kept(db, chain) && Indexed(idx, db, chain)
    ensures IndexedIfSpared(idx, db, chain, Extend(block))
  {
    BlockKeepsIndexed(idx, db, chain, block);
  }

  lemma {:induction false} CutIndexedIfSpared(idx: Indexer, db: Db, chain: seq<Block>, height: nat, crashes: seq<Crash>)
    requires Kept(db, chain) && Indexed(idx, db, chain) && height < |chain|
    ensures IndexedIfSpared(idx, db, chain, Rollback(height, crashes))
  {
    RollbackIndexedIff(idx, db, chain, height, crashes);
  }

  lemma {:induction false} EventIndexedIff(idx: Indexer, db: Db, chain: seq<Block>, event: Event)
    requires Kept(db, chain) && Indexed(idx, db, chain) && Fits(chain, event)
    ensures IndexedIfSpared(idx, db, chain, event)
  {
    match event
    case Extend(b) => ExtendIndexedIff(idx, db, chain, b);
    case Rollback(h, crashes) => CutIndexedIfSpared(idx, db, chain, h, crashes);
  }

  lemma {:induction false} ValidPrefix(events: seq<Event>, n: nat)
    requires ValidRun(events) && n <= |events|
    ensures ValidRun(events[..n])
  {
    if n < |events| {
      ValidPrefix(events[..|events| - 1], n);
      assert events[..|events| - 1][..n] == events[..n];
    } else {
      assert events[..n] == events;
    }
  }

  /** The physical store a run has reached before its event `n`, and the blocks then on the chain. */
  function StoreAt(idx: Indexer, events: seq<Event>, n: nat): Db
    requires ValidRun(events) && n <= |events|
  {
    ValidPrefix(events, n);
    Execute(idx, events[..n])
  }

  function ChainAt(events: seq<Event>, n: nat): seq<Block>
    requires n <= |events|
  {
    Surviving(events[..n])
  }

  lemma {:induction false} AtNext(idx: Indexer, events: seq<Event>, n: nat)
    requires ValidRun(events) && n < |events|
    ensures Fits(ChainAt(events, n), events[n])
    ensures StoreAt(idx, events, n + 1) == StoreAfter(idx, StoreAt(idx, events, n), ChainAt(events, n), events[n])
    ensures ChainAt(events, n + 1) == ChainAfter(ChainAt(events, n), events[n])
  {
    ValidPrefix(events, n + 1);
    assert events[..n + 1][..n] == events[..n];
  }

  lemma {:induction false} KeptAt(idx: Indexer, events: seq<Event>, n: nat)
    requires ValidRun(events) && n <= |events|
    ensures Kept(StoreAt(idx, events, n), ChainAt(events, n))
  {
    ValidPrefix(events, n);
    RunKeeps(idx, events[..n]);
  }

  lemma {:induction false} IndexedUpTo(idx: Indexer, events: seq<Event>, n: nat)
    requires ValidRun(events) && n <= |events|
    requires forall i :: 0 <= i < n ==> EventSpares(StoreAt(idx, events, i), ChainAt(events, i), events[i])
    ensures Indexed(idx, StoreAt(idx, events, n), ChainAt(events, n))
  {
    if n == 0 {
      NothingIndexed(idx);
    } else {
      IndexedUpTo(idx, events, n - 1);
      AtNext(idx, events, n - 1);
      KeptAt(idx, events, n - 1);
      EventIndexedIff(idx, StoreAt(idx, events, n - 1), ChainAt(events, n - 1), events[n - 1]);
    }
  }

  /**
   Over any run of block commits and rollbacks, with kills inside rollbacks and restarts at any
   height, every key has throughout exactly the version list that indexing the surviving blocks
   from an empty store gives it, if and only if no killed rollback took a version at or below the
   height of the rollback completed after it.
   */
  lemma {:induction false} RunIndexedIff(idx: Indexer, events: seq<Event>)
    requires ValidRun(events)
    ensures (forall n :: 0 <= n <= |events| ==> Indexed(idx, StoreAt(idx, events, n), ChainAt(events, n))) <==>
            (forall i :: 0 <= i < |events| ==> EventSpares(StoreAt(idx, events, i), ChainAt(events, i), events[i]))
  {
    if forall n :: 0 <= n <= |events| ==> Indexed(idx, StoreAt(idx, events, n), ChainAt(events, n)) {
      forall i | 0 <= i < |events| ensures EventSpares(StoreAt(idx, events, i), ChainAt(events, i), events[i]) {
        AtNext(idx, events, i);
        KeptAt(idx, events, i);
        assert Indexed(idx, StoreAt(idx, events, i + 1), ChainAt(events, i + 1));
        EventIndexedIff(idx, StoreAt(idx, events, i), ChainAt(events, i), events[i]);
      }
    }
    if forall i :: 0 <= i < |events| ==> EventSpares(StoreAt(idx, events, i), ChainAt(events, i), events[i]) {
      forall n | 0 <= n <= |events| ensures Indexed(idx, StoreAt(idx, events, n), ChainAt(events, n)) {
        IndexedUpTo(idx, events, n);
      }
    }
  }

  /** Every killed rollback of the run aimed at the height then rolled back to, or above. */
  predicate RerunsAtOrBelow(events: seq<Event>) {
    forall i :: 0 <= i < |events| && events[i].Rollback? ==> AimAtLeast(events[i].crashes, events[i].height)
  }

  /** So kills do no harm to a run in which each is followed by a rollback to its own target or below. */
  lemma {:induction false} RunEquivalence(idx: Indexer, events: seq<Event>)
    requires ValidRun(events) && RerunsAtOrBelow(events)
    ensures Kept(Execute(idx, events), Surviving(events)) && Indexed(idx, Execute(idx, events), Surviving(events))
  {
    if events == [] {
      NothingIndexed(idx);
    } else {
      var front, last := events[..|events| - 1], events[|events| - 1];
      RunEquivalence(idx, front);
      RunKeeps(idx, events);
      if last.Rollback? {
        AimedAboveSpares(Execute(idx, front), Tip(Surviving(front)), last.crashes, last.height);
      }
      EventIndexedIff(idx, Execute(idx, front), Surviving(front), last);
    }
  }

  function Extends(blocks: seq<Block>): seq<Event> {
    seq(|blocks|, i requires 0 <= i < |blocks| => Extend(blocks[i]))
  }

  lemma {:induction false} OneMoreEvent(events: seq<Event>, event: Event)
    ensures ValidRun(events + [event]) <==> ValidRun(events) && Fits(Surviving(events), event)
    ensures Surviving(events + [event]) == ChainAfter(Surviving(events), event)
  {
    assert (events + [event])[..|events|] == events;
  }

  lemma ExtendsFromHead(events: seq<Event>, chain: seq<Block>, blocks: seq<Block>)
    requires blocks != []
    ensures events + Extends(blocks) == events + [Extend(blocks[0])] + Extends(blocks[1..])
    ensures chain + blocks == chain + [blocks[0]] + blocks[1..]
  {
  }

  lemma {:induction false} SurvivingExtends(events: seq<Event>, blocks: seq<Block>)
    requires ValidRun(events)
    ensures ValidRun(events + Extends(blocks))
    ensures Surviving(events + Extends(blocks)) == Surviving(events) + blocks
    decreases |blocks|
  {
    if blocks == [] {
      assert events + Extends(blocks) == events;
    } else {
      OneMoreEvent(events, Extend(blocks[0]));
      SurvivingExtends(events + [Extend(blocks[0])], blocks[1..]);
      ExtendsFromHead(events, Surviving(events), blocks);
    }
  }

  /** The run that indexes A, rolls back to `height` and indexes B. */
  function ReorgRun(a: seq<Block>, height: nat, b: seq<Block>): seq<Event> {
    Extends(a) + [Rollback(height, [])] + Extends(b)
  }

  lemma {:induction false} SurvivingFromEmpty(blocks: seq<Block>)
    ensures ValidRun(Extends(blocks)) && Surviving(Extends(blocks)) == blocks
  {
    SurvivingExtends([], blocks);
    assert [] + Extends(blocks) == Extends(blocks) && [] + blocks == blocks;
  }

  lemma {:induction false} ReorgSurviving(a: seq<Block>, height: nat, b: seq<Block>)
    requires height < |a|
    ensures ValidRun(ReorgRun(a, height, b))
    ensures Surviving(ReorgRun(a, height, b)) == a[..height + 1] + b
  {
    SurvivingFromEmpty(a);
    OneMoreEvent(Extends(a), Rollback(height, []));
    SurvivingExtends(Extends(a) + [Rollback(height, [])], b);
  }

  /** Indexing A, rolling back and indexing B leaves the same lists as A up to `height` and then B. */
  lemma {:induction false} ReorgEquivalence(idx: Indexer, a: seq<Block>, height: nat, b: seq<Block>)
    requires height < |a|
    ensures ValidRun(ReorgRun(a, height, b)) && ValidRun(Extends(a[..height + 1] + b))
    ensures VersionsIn(Execute(idx, ReorgRun(a, height, b))) == VersionsIn(Execute(idx, Extends(a[..height + 1] + b)))
  {
    var chain := a[..height + 1] + b;
    ReorgSurviving(a, height, b);
    RunEquivalence(idx, ReorgRun(a, height, b));
    SurvivingFromEmpty(chain);
    RunEquivalence(idx, Extends(chain));
  }

  // ---------------------------------------------------------------- metadata over runs

  lemma {:induction false} FastKeepsOlderMetadata(db: Db, height: nat, top: nat, low: nat, pk: PhysKey)
    requires pk.HashAt? || pk.Root?
    ensures pk in FastPartial(db, height, top, low) ==> pk in db && FastPartial(db, height, top, low)[pk] == db[pk]
    ensures pk in db && pk.height <= low ==> pk in FastPartial(db, height, top, low)
    decreases top
  {
    if low < top {
      FastKeepsOlderMetadata(FastStep(db, height, top), height, top - 1, low, pk);
    }
  }

  lemma {:induction false} RollbackKeepsOlderMetadata(db: Db, height: nat, current: nat, pk: PhysKey)
    requires pk.HashAt? || pk.Root?
    ensures pk in RolledBack(db, height, current) ==> pk in db && RolledBack(db, height, current)[pk] == db[pk]
    ensures pk in db && pk.height <= height ==> pk in RolledBack(db, height, current)
  {
    FastKeepsOlderMetadata(db, height, current, height, pk);
  }

  lemma {:induction false} CrashesAddNoMetadata(db: Db, current: nat, crashes: seq<Crash>, pk: PhysKey)
    requires pk.HashAt? || pk.Root?
    ensures var after := Crashed(db, current, crashes); pk in after ==> pk in db && after[pk] == db[pk]
  {
    if crashes != [] {
      var before, last := Crashed(db, current, crashes[..|crashes| - 1]), crashes[|crashes| - 1];
      CrashesAddNoMetadata(db, current, crashes[..|crashes| - 1], pk);
      FastKeepsOlderMetadata(before, last.target, current, ReachedLow(before, current, last), pk);
    }
  }

  /** The batches of a killed manifest rollback have dropped no hash record at or below `height`. */
  predicate KeepsRecords(db: Db, current: nat, crashes: seq<Crash>, height: nat) {
    forall i :: 0 <= i < |crashes| ==> height <= LowAt(db, current, crashes, i)
  }

  /** How far down the `i`-th of the killed rollbacks came. */
  function LowAt(db: Db, current: nat, crashes: seq<Crash>, i: nat): nat
    requires i < |crashes|
  {
    ReachedLow(Crashed(db, current, crashes[..i]), current, crashes[i])
  }

  lemma {:induction false} LastKeepsRecords(db: Db, current: nat, crashes: seq<Crash>, height: nat)
    requires crashes != []
    ensures var front, last := crashes[..|crashes| - 1], crashes[|crashes| - 1];
            KeepsRecords(db, current, crashes, height) <==>
            KeepsRecords(db, current, front, height) && height <= ReachedLow(Crashed(db, current, front), current, last)
  {
    var front := crashes[..|crashes| - 1];
    forall i | 0 <= i < |front| ensures LowAt(db, current, front, i) == LowAt(db, current, crashes, i) {
      assert front[..i] == crashes[..i];
    }
    assert LowAt(db, current, crashes, |front|) == ReachedLow(Crashed(db, current, front), current, crashes[|front|]);
  }

  lemma {:induction false} StoppedHash(db: Db, current: nat, crash: Crash, h: nat)
    requires h <= current
    ensures HashAt(h) in Stopped(db, current, crash) <==> HashAt(h) in db && h <= ReachedLow(db, current, crash)
  {
    if crash.target < current && ManifestsPresent(db, crash.target, current) {
      FastRecords(db, crash.target, current, ReachedLow(db, current, crash), HashAt(h));
    }
  }

  lemma {:induction false} CrashesHashIff(db: Db, current: nat, crashes: seq<Crash>, h: nat)
    requires h <= current && HashAt(h) in db
    ensures HashAt(h) in Crashed(db, current, crashes) <==> KeepsRecords(db, current, crashes, h)
  {
    if crashes != [] {
      var front := crashes[..|crashes| - 1];
      CrashesHashIff(db, current, front, h);
      LastKeepsRecords(db, current, crashes, h);
      StoppedHash(Crashed(db, current, front), current, crashes[|crashes| - 1], h);
    }
  }

  /** The hash records at the chain's heights, and the sync pointer, describe the chain. */
  ghost predicate DescribesChain(db: Db, chain: seq<Block>) {
    && (forall h :: 0 <= h < |chain| ==> HashAt(h) in db && db[HashAt(h)] == Blob(chain[h].hash))
    && (chain != [] ==> IndexedHeight in db && db[IndexedHeight] == Num(|chain| - 1))
  }

  lemma {:induction false} CommitDescribes(db: Db, chain: seq<Block>, block: Block, writes: seq<Write>, root: Bytes)
    requires Shaped(db) && DescribesChain(db, chain)
    ensures DescribesChain(Committed(db, |chain|, block.hash, writes, root), chain + [block])
  {
    AppendAllShaped(db, |chain|, writes);
    var after := Committed(db, |chain|, block.hash, writes, root);
    forall h | 0 <= h < |chain|
      ensures HashAt(h) in after && after[HashAt(h)] == Blob(chain[h].hash)
    {
      assert HashAt(h) in db;
    }
  }

  lemma {:induction false} RolledBackHash(db: Db, current: nat, crashes: seq<Crash>, height: nat, h: nat)
    requires h <= height <= current && HashAt(h) in db
    ensures var after := RolledBack(Crashed(db, current, crashes), height, current);
            && (HashAt(h) in after <==> KeepsRecords(db, current, crashes, h))
            && (HashAt(h) in after ==> after[HashAt(h)] == db[HashAt(h)])
  {
    CrashesHashIff(db, current, crashes, h);
    CrashesAddNoMetadata(db, current, crashes, HashAt(h));
    RollbackKeepsOlderMetadata(Crashed(db, current, crashes), height, current, HashAt(h));
  }

  lemma {:induction false} RollbackDescribesIff(db: Db, chain: seq<Block>, tip: nat, height: nat, crashes: seq<Crash>)
    requires DescribesChain(db, chain) && |chain| == tip + 1 && height <= tip
    ensures DescribesChain(RolledBack(Crashed(db, tip, crashes), height, tip), chain[..height + 1]) <==>
            KeepsRecords(db, tip, crashes, height)
  {
    var after := RolledBack(Crashed(db, tip, crashes), height, tip);
    forall h | 0 <= h <= height
      ensures HashAt(h) in after <==> KeepsRecords(db, tip, crashes, h)
      ensures HashAt(h) in after ==> after[HashAt(h)] == Blob(chain[h].hash)
    {
      RolledBackHash(db, tip, crashes, height, h);
    }
    assert after[IndexedHeight] == Num(height);
    if DescribesChain(after, chain[..height + 1]) {
      assert HashAt(height) in after;
    }
  }

  /** The killed rollbacks of an event drop no hash record at or below the height it ends at. */
  predicate EventKeepsRecords(db: Db, chain: seq<Block>, event: Event) {
    event.Rollback? && chain != [] ==> KeepsRecords(db, Tip(chain), event.crashes, event.height)
  }

  lemma {:induction false} EventDescribesIff(idx: Indexer, db: Db, chain: seq<Block>, event: Event)
    requires Shaped(db) && DescribesChain(db, chain) && Fits(chain, event)
    ensures DescribesChain(StoreAfter(idx, db, chain, event), ChainAfter(chain, event)) <==>
            EventKeepsRecords(db, chain, event)
  {
    match event
    case Extend(b) =>
      CommitDescribes(db, chain, b, WritesOf(idx, VersionsIn(db), |chain|, b), CarriedRoot(db, |chain|));
    case Rollback(h, crashes) => RollbackDescribesIff(db, chain, Tip(chain), h, crashes);
  }

  lemma {:induction false} RunValid(idx: Indexer, events: seq<Event>, n: nat)
    requires ValidRun(events) && n < |events|
    ensures Fits(ChainAt(events, n), events[n]) && Shaped(StoreAt(idx, events, n))
  {
    AtNext(idx, events, n);
    ValidPrefix(events, n);
    RunKeeps(idx, events[..n]);
  }

  lemma {:induction false} DescribedUpTo(idx: Indexer, events: seq<Event>, n: nat)
    requires ValidRun(events) && n <= |events|
    requires forall i :: 0 <= i < n ==> EventKeepsRecords(StoreAt(idx, events, i), ChainAt(events, i), events[i])
    ensures DescribesChain(StoreAt(idx, events, n), ChainAt(events, n))
  {
    if n > 0 {
      DescribedUpTo(idx, events, n - 1);
      AtNext(idx, events, n - 1);
      RunValid(idx, events, n - 1);
      EventDescribesIff(idx, StoreAt(idx, events, n - 1), ChainAt(events, n - 1), events[n - 1]);
    }
  }

  /**
   Throughout a run the hash records and the sync pointer describe the surviving chain, if and only
   if no rollback is completed above the height a killed manifest rollback had come down to.
   */
  lemma {:induction false} RunDescribedIff(idx: Indexer, events: seq<Event>)
    requires ValidRun(events)
    ensures (forall n :: 0 <= n <= |events| ==> DescribesChain(StoreAt(idx, events, n), ChainAt(events, n))) <==>
            (forall i :: 0 <= i < |events| ==> EventKeepsRecords(StoreAt(idx, events, i), ChainAt(events, i), events[i]))
  {
    if forall n :: 0 <= n <= |events| ==> DescribesChain(StoreAt(idx, events, n), ChainAt(events, n)) {
      forall i | 0 <= i < |events|
        ensures EventKeepsRecords(StoreAt(idx, events, i), ChainAt(events, i), events[i])
      {
        AtNext(idx, events, i);
        RunValid(idx, events, i);
        assert DescribesChain(StoreAt(idx, events, i + 1), ChainAt(events, i + 1));
        EventDescribesIff(idx, StoreAt(idx, events, i), ChainAt(events, i), events[i]);
      }
    }
    if forall i :: 0 <= i < |events| ==> EventKeepsRecords(StoreAt(idx, events, i), ChainAt(events, i), events[i]) {
      forall n | 0 <= n <= |events| ensures DescribesChain(StoreAt(idx, events, n), ChainAt(events, n)) {
        DescribedUpTo(idx, events, n);
      }
    }
  }

  ghost predicate RootsCarryNothing(db: Db) {
    forall h :: Root(h) in db ==> db[Root(h)] == Blob(seq(32, _ => 0))
  }

  lemma {:induction false} CarriedIsEmpty(db: Db, height: nat)
    requires RootsCarryNothing(db)
    ensures CarriedRoot(db, height) == EMPTY_ROOT
  {
    if height > 0 {
      CarriedIsEmpty(db, height - 1);
    }
  }

  lemma {:induction false} CommitKeepsRootsEmpty(db: Db, height: nat, hash: Bytes, writes: seq<Write>)
    requires Shaped(db) && RootsCarryNothing(db)
    ensures RootsCarryNothing(Committed(db, height, hash, writes, EMPTY_ROOT))
  {
    AppendAllShaped(db, height, writes);
  }

  lemma {:induction false} RollbackKeepsRootsEmpty(db: Db, height: nat, current: nat, crashes: seq<Crash>)
    requires RootsCarryNothing(db)
    ensures RootsCarryNothing(RolledBack(Crashed(db, current, crashes), height, current))
  {
    var stopped := Crashed(db, current, crashes);
    forall g | Root(g) in RolledBack(stopped, height, current)
      ensures RolledBack(stopped, height, current)[Root(g)] == Blob(EMPTY_ROOT)
    {
      RollbackKeepsOlderMetadata(stopped, height, current, Root(g));
      CrashesAddNoMetadata(db, current, crashes, Root(g));
    }
  }

  lemma {:induction false} EventKeepsRootsEmpty(idx: Indexer, db: Db, chain: seq<Block>, event: Event)
    requires Shaped(db) && RootsCarryNothing(db) && Fits(chain, event)
    ensures RootsCarryNothing(StoreAfter(idx, db, chain, event))
  {
    match event
    case Extend(b) =>
      CarriedIsEmpty(db, |chain|);
      CommitKeepsRootsEmpty(db, |chain|, b.hash, WritesOf(idx, VersionsIn(db), |chain|, b));
    case Rollback(h, crashes) => RollbackKeepsRootsEmpty(db, h, Tip(chain), crashes);
  }

  /**
   The stored roots commit to no state: whatever the blocks write, every root ever stored is
   the same all-zero placeholder.
   */
  lemma {:induction false} StoredRootsAreEmpty(idx: Indexer, events: seq<Event>)
    requires ValidRun(events)
    ensures RootsCarryNothing(Execute(idx, events))
  {
    if events != [] {
      var front := events[..|events| - 1];
      StoredRootsAreEmpty(idx, front);
      RunKeeps(idx, front);
      EventKeepsRootsEmpty(idx, Execute(idx, front), Surviving(front), events[|events| - 1]);
    }
  }
}
