/**
 What the runs of module EngineRuns keep: linked hash records from 0 to the tip and the version
 lists of indexing the stored chain from scratch, with the exact steps that break it.
 */
module EngineSoundness {
  import opened Basics
  import opened Versions
  import opened SyncStorage
  import opened Reorg
  import opened ReorgWalk
  import opened Heal
  import opened SyncEngine
  import opened EngineRuns
  import Indexing

  // ---------------------------------------------------------------- the stored chain

  /** What the program gets to see of the remembered blocks at the heights below `n`. */
  function Payload(blocks: map<nat, NodeBlock>, n: nat): (payload: seq<Indexing.Block>)
    ensures |payload| == n
    ensures forall i :: 0 <= i < n ==>
              payload[i] == Indexing.Block([], if i in blocks then blocks[i].data else [])
  {
    seq(n, i requires i >= 0 => Indexing.Block([], if i in blocks then blocks[i].data else []))
  }

  /** The lists of indexing the remembered blocks up to `top` from an empty store. */
  function IndexedTo(cfg: Config, blocks: map<nat, NodeBlock>, top: nat): Versions {
    Indexing.IndexFrom(cfg.indexer, map[], 0, Payload(blocks, top + 1))
  }

  lemma {:induction false} TrimIndexed(cfg: Config, blocks: map<nat, NodeBlock>, top: nat, height: nat)
    requires height <= top
    ensures TrimTo(IndexedTo(cfg, blocks, top), height) == IndexedTo(cfg, blocks, height)
  {
    Indexing.TrimToPrefix(cfg.indexer, Payload(blocks, top + 1), height);
    assert Payload(blocks, top + 1)[..height + 1] == Payload(blocks, height + 1);
  }

  lemma {:induction false} SameBlocks(cfg: Config, a: map<nat, NodeBlock>, b: map<nat, NodeBlock>, top: nat)
    requires forall h :: 0 <= h <= top ==> (h in a <==> h in b) && (h in a ==> a[h] == b[h])
    ensures IndexedTo(cfg, a, top) == IndexedTo(cfg, b, top)
  {
    assert Payload(a, top + 1) == Payload(b, top + 1);
  }

  /** Every hash record has its block beside it. */
  ghost predicate HasBlocks(st: Storage, blocks: map<nat, NodeBlock>) {
    && (forall h :: h in blocks <==> h in st.hashes)
    && (forall h :: h in st.hashes ==> h in blocks && st.hashes[h] == blocks[h].claimed)
  }

  ghost predicate Remembered(s: State) {
    HasBlocks(s.st, s.blocks)
  }

  /** Under an anchored policy block 0 is the genesis block. */
  predicate Rooted(cfg: Config, st: Storage) {
    cfg.policy.Anchored? ==> 0 in st.hashes && st.hashes[0] == HashOf(cfg.policy.genesis)
  }

  /**
   Nothing stored yet; or linked records from 0 to the tip, and the version lists of indexing the
   blocks behind them from an empty store.
   */
  ghost predicate SoundStorage(cfg: Config, st: Storage, blocks: map<nat, NodeBlock>) {
    || st == EMPTY_STORAGE
    || (ChainStored(st) && Rooted(cfg, st) && st.versions == IndexedTo(cfg, blocks, st.tip))
  }

  ghost predicate Sound(cfg: Config, s: State) {
    SoundStorage(cfg, s.st, s.blocks)
  }

  /** The block being attempted is genuine, and fits the stored hash below it if there is one. */
  ghost predicate ItemFits(cfg: Config, st: Storage, item: Item) {
    && item.block.claimed == HashOf(item.block.header)
    && (item.height > 0 && item.height - 1 in st.hashes ==> st.hashes[item.height - 1] == item.block.header.prev)
    && (cfg.policy.Anchored? && item.height == 0 ==> item.block.claimed == HashOf(cfg.policy.genesis))
    && (st == EMPTY_STORAGE && !cfg.policy.Inline? ==> item.height == 0)
  }

  ghost predicate TriedFits(cfg: Config, s: State) {
    s.processor.Trying? ==> ItemFits(cfg, s.st, s.processor.item)
  }

  // ---------------------------------------------------------------- storage after a kill

  /**
   Up to `height` a key has no more versions than it should, and lacks none exactly when the killed
   rollbacks removed none at or below `height`.
   */
  ghost predicate KeyRecovers(cfg: Config, s: State, height: nat, key: Key) {
    var have, want := Trim(HistoryOf(s.st.versions, key), height), HistoryOf(IndexedTo(cfg, s.blocks, height), key);
    && |have| <= |want|
    && (have == want <==> forall l :: l in s.lost && l.key == key ==> l.height > height)
  }

  ghost predicate Recovers(cfg: Config, s: State, height: nat) {
    forall k :: KeyRecovers(cfg, s, height, k)
  }

  /** What killed rollbacks leave: gapless records, and lists that lack exactly what is lost. */
  ghost predicate Recoverable(cfg: Config, s: State) {
    || (s.st == EMPTY_STORAGE && s.lost == {})
    || (&& Gapless(s.st) && Rooted(cfg, s.st)
        && VersionsBelow(s.st.versions, s.st.tip) && NoEmptyHistory(s.st.versions)
        && (forall g: nat :: g <= s.st.tip && g in s.st.hashes ==> Recovers(cfg, s, g)))
  }

  predicate NothingRuns(s: State) {
    s.fetcher.Down? && s.waiting == {} && s.processor.Free? && s.reports == {} && s.handler.Waiting?
  }

  ghost predicate InvUp(cfg: Config, s: State) {
    Remembered(s) && Sound(cfg, s) && TriedFits(cfg, s) && s.lost == {} && !s.fetcher.Down?
  }

  ghost predicate InvDown(cfg: Config, s: State) {
    Remembered(s) && Recoverable(cfg, s) && NothingRuns(s)
  }

  ghost predicate Inv(cfg: Config, s: State) {
    InvUp(cfg, s) || InvDown(cfg, s)
  }

  lemma {:induction false} IndexedHasNoEmpty(cfg: Config, blocks: map<nat, NodeBlock>, top: nat)
    ensures NoEmptyHistory(IndexedTo(cfg, blocks, top))
  {
    Indexing.IndexFromSound(cfg.indexer, Payload(blocks, top + 1), []);
  }

  lemma {:induction false} SoundKeyRecovers(cfg: Config, s: State, g: nat, key: Key)
    requires s.st.versions == IndexedTo(cfg, s.blocks, s.st.tip) && s.lost == {} && g <= s.st.tip
    ensures KeyRecovers(cfg, s, g, key)
  {
    TrimIndexed(cfg, s.blocks, s.st.tip, g);
    TrimToHistory(s.st.versions, g, key);
  }

  lemma {:induction false} IndexedFields(cfg: Config, s: State)
    requires s.st.versions == IndexedTo(cfg, s.blocks, s.st.tip) && s.lost == {}
    ensures NoEmptyHistory(s.st.versions)
    ensures forall g: nat :: g <= s.st.tip ==> Recovers(cfg, s, g)
  {
    IndexedHasNoEmpty(cfg, s.blocks, s.st.tip);
    forall g: nat, k | g <= s.st.tip ensures KeyRecovers(cfg, s, g, k) {
      SoundKeyRecovers(cfg, s, g, k);
    }
  }

  /** With nothing lost, sound storage is recoverable. */
  lemma {:induction false} SoundRecovers(cfg: Config, s: State)
    requires Sound(cfg, s) && s.lost == {}
    ensures Recoverable(cfg, s)
  {
    if s.st != EMPTY_STORAGE {
      ChainIsGapless(s.st);
      IndexedFields(cfg, s);
    }
  }

  /** Recoverable storage with its tip recorded is sound if and only if no version at or below the tip is lost. */
  lemma {:induction false} RecoveredIff(cfg: Config, s: State)
    requires Recoverable(cfg, s) && s.st.tip in s.st.hashes
    ensures Sound(cfg, s) <==> forall l :: l in s.lost ==> l.height > s.st.tip
  {
    assert Recovers(cfg, s, s.st.tip);
    var want := IndexedTo(cfg, s.blocks, s.st.tip);
    forall h: nat | h <= s.st.tip ensures Linked(s.st, h) {
      NoGapBelow(s.st, s.st.tip, h);
    }
    forall k ensures Trim(HistoryOf(s.st.versions, k), s.st.tip) == HistoryOf(s.st.versions, k) {
      TrimAllBelow(HistoryOf(s.st.versions, k), s.st.tip);
    }
    if forall l :: l in s.lost ==> l.height > s.st.tip {
      forall k ensures HistoryOf(s.st.versions, k) == HistoryOf(want, k) {
        assert KeyRecovers(cfg, s, s.st.tip, k);
      }
      IndexedHasNoEmpty(cfg, s.blocks, s.st.tip);
      SameHistories(s.st.versions, want);
    }
    if Sound(cfg, s) {
      forall l | l in s.lost ensures l.height > s.st.tip {
        assert KeyRecovers(cfg, s, s.st.tip, l.key);
      }
    }
  }

  lemma {:induction false} CutGapless(st: Storage, height: nat)
    requires Gapless(st) && height <= st.tip && height in st.hashes
    ensures Gapless(RollbackTo(st, height)) && height in RollbackTo(st, height).hashes
  {
    RollbackKeepsRecords(st, height);
    forall h: nat | h <= height && h in RollbackTo(st, height).hashes ensures Linked(RollbackTo(st, height), h) {
      assert Linked(st, h);
    }
  }

  lemma {:induction false} CutHistory(st: Storage, height: nat, g: nat, key: Key)
    requires g <= height
    ensures Trim(HistoryOf(RollbackTo(st, height).versions, key), g) == Trim(HistoryOf(st.versions, key), g)
  {
    TrimToHistory(st.versions, height, key);
    TrimTrim(HistoryOf(st.versions, key), height, g);
  }

  lemma {:induction false} CutBlocksBelow(cfg: Config, s: State, height: nat, g: nat)
    requires Remembered(s) && g <= height
    ensures IndexedTo(cfg, Cut(s, height).blocks, g) == IndexedTo(cfg, s.blocks, g)
  {
    RollbackKeepsRecords(s.st, height);
    SameBlocks(cfg, s.blocks, Cut(s, height).blocks, g);
  }

  lemma {:induction false} CutKeyRecovers(cfg: Config, s: State, height: nat, g: nat, key: Key)
    requires Remembered(s) && g <= height && KeyRecovers(cfg, s, g, key)
    ensures KeyRecovers(cfg, Cut(s, height), g, key)
  {
    CutHistory(s.st, height, g, key);
    CutBlocksBelow(cfg, s, height, g);
  }

  /** A complete rollback to a recorded height keeps storage recoverable. */
  lemma {:induction false} CutRecovers(cfg: Config, s: State, height: nat)
    requires Remembered(s) && Recoverable(cfg, s) && height <= s.st.tip
    requires s.st != EMPTY_STORAGE && height in s.st.hashes
    ensures Recoverable(cfg, Cut(s, height)) && height in Cut(s, height).st.hashes
  {
    var after := Cut(s, height);
    CutGapless(s.st, height);
    RollbackKeepsRecords(s.st, height);
    RollbackTrims(s.st, height);
    assert NoEmptyHistory(after.st.versions);
    forall g: nat, k | g <= height && g in after.st.hashes ensures KeyRecovers(cfg, after, g, k) {
      assert Recovers(cfg, s, g);
      CutKeyRecovers(cfg, s, height, g, k);
    }
  }

  // ---------------------------------------------------------------- kills

  /** What a killed rollback to `target` does to one key, as far as `height`. */
  lemma {:induction false} KillTakesIff(st: Storage, target: nat, kill: Kill, height: nat, key: Key)
    ensures var before := Trim(HistoryOf(st.versions, key), height);
            var after := Trim(HistoryOf(Interrupted(st, target, kill).versions, key), height);
            && |after| <= |before|
            && (after == before <==> forall l :: l in Losses(st, target, kill) && l.key == key ==> l.height > height)
            && (|after| == |before| ==> after == before)
  {
    var hist, keys := HistoryOf(st.versions, key), KeysTrimmed(st, target, kill);
    TrimKeysHistory(st.versions, keys, target, key);
    if key in keys && key in st.versions {
      forall i | 0 <= i < |hist| && hist[i].height > target
        ensures Lost(key, hist[i].height) in Losses(st, target, kill)
      {
        assert hist[i] == st.versions[key][i];
      }
      TrimTrim(hist, target, height);
      TrimTrim(hist, height, target);
      TrimBounded(Trim(hist, height), target);
      TakesIff(hist, target, height);
    }
  }

  lemma {:induction false} TakesIff(hist: History, target: nat, height: nat)
    ensures var after, before := Trim(Trim(hist, target), height), Trim(hist, height);
            && |after| <= |before| && (|after| == |before| ==> after == before)
            && (after == before <==> forall i :: 0 <= i < |hist| && hist[i].height > target ==> hist[i].height > height)
  {
    if hist != [] {
      var front, last := hist[..|hist| - 1], hist[|hist| - 1];
      TakesIff(front, target, height);
      TrimTrim(hist, target, height);
      TrimTrim(front, target, height);
      TrimTrim(front, height, target);
      TrimBounded(Trim(front, height), target);
      assert forall i :: 0 <= i < |front| ==> front[i] == hist[i];
    }
  }

  lemma {:induction false} KillRecords(st: Storage, target: nat, kill: Kill)
    ensures var after, low := Interrupted(st, target, kill), Reached(st, target, kill);
            && low <= st.tip
            && (forall h :: h in after.hashes <==> h in st.hashes && !(low < h <= st.tip))
            && (forall h :: h in after.hashes ==> after.hashes[h] == st.hashes[h])
    ensures Gapless(st) ==> Gapless(Interrupted(st, target, kill))
  {
    var after := Interrupted(st, target, kill);
    if Gapless(st) {
      forall h: nat | h <= st.tip && h in after.hashes ensures Linked(after, h) {
        assert Linked(st, h);
      }
    }
  }

  lemma {:induction false} KillTrims(st: Storage, target: nat, kill: Kill)
    requires VersionsBelow(st.versions, st.tip) && NoEmptyHistory(st.versions)
    ensures VersionsBelow(Interrupted(st, target, kill).versions, st.tip)
    ensures NoEmptyHistory(Interrupted(st, target, kill).versions)
  {
    var after := Interrupted(st, target, kill).versions;
    forall k | k in after ensures AllAtMost(after[k], st.tip) {
      TrimBounded(st.versions[k], target);
      assert forall e :: e in after[k] ==> e in st.versions[k];
    }
  }

  lemma {:induction false} KillKeyRecovers(cfg: Config, s: State, target: nat, kill: Kill, g: nat, key: Key)
    requires Remembered(s) && g <= Reached(s.st, target, kill) && KeyRecovers(cfg, s, g, key)
    ensures KeyRecovers(cfg, Killed(s, target, kill), g, key)
  {
    var after := Killed(s, target, kill);
    KillRecords(s.st, target, kill);
    SameBlocks(cfg, s.blocks, after.blocks, g);
    KillTakesIff(s.st, target, kill, g, key);
    assert forall l :: l in after.lost <==> l in s.lost || l in Losses(s.st, target, kill);
  }

  /** A rollback killed anywhere keeps storage recoverable. */
  lemma {:induction false} KillRecovers(cfg: Config, s: State, target: nat, kill: Kill)
    requires Remembered(s) && Recoverable(cfg, s)
    ensures Recoverable(cfg, Killed(s, target, kill)) && Remembered(Killed(s, target, kill))
  {
    var after := Killed(s, target, kill);
    KillRecords(s.st, target, kill);
    if s.st == EMPTY_STORAGE {
      assert after.st == EMPTY_STORAGE;
    } else {
      KillTrims(s.st, target, kill);
      forall g: nat, k | g <= s.st.tip && g in after.st.hashes ensures KeyRecovers(cfg, after, g, k) {
        assert Recovers(cfg, s, g);
        KillKeyRecovers(cfg, s, target, kill, g, k);
      }
    }
  }

  // ---------------------------------------------------------------- restarts

  /** The restart's heal settles at or above a version that a killed rollback has removed. */
  ghost predicate RestartMisses(cfg: Config, s: State, step: Step) {
    step.Restart? && exists l :: l in s.lost && l.height <= SafeHeight(s.st, s.node, cfg.maxDepth)
  }

  lemma {:induction false} PointerKeepsSound(cfg: Config, s: State, t: State, runtimeTip: nat)
    requires t.st == s.st.(runtimeTip := runtimeTip) && t.blocks == s.blocks
    requires s.st != EMPTY_STORAGE || runtimeTip == 0
    requires 0 in s.st.hashes || s.st == EMPTY_STORAGE
    ensures Sound(cfg, t) <==> Sound(cfg, s)
  {
    PointerKeepsChain(s.st, runtimeTip);
  }

  lemma {:induction false} RestartIsCut(cfg: Config, s: State)
    requires Remembered(s)
    ensures var after, safe := Next(cfg, s, Restart), SafeHeight(s.st, s.node, cfg.maxDepth);
            && after.st == Cut(s, safe).st.(runtimeTip := safe) && after.blocks == Cut(s, safe).blocks
            && Remembered(after) && Remembered(Cut(s, safe))
            && after.lost == {} && after.processor.Free? && after.fetcher.Idle?
  {
    HealIsSafe(s.st, s.node, cfg.maxDepth);
    var safe := SafeHeight(s.st, s.node, cfg.maxDepth);
    RollbackKeepsRecords(s.st, safe);
    assert Next(cfg, s, Restart).st == Cut(s, safe).st.(runtimeTip := safe);
  }

  /** A restart on recoverable storage is sound if and only if the heal settles below everything lost. */
  lemma {:induction false} RestartSoundIff(cfg: Config, s: State)
    requires Remembered(s) && Recoverable(cfg, s)
    ensures Sound(cfg, Next(cfg, s, Restart)) <==> !RestartMisses(cfg, s, Restart)
    ensures s.st == EMPTY_STORAGE <==> Next(cfg, s, Restart).st == EMPTY_STORAGE
  {
    var safe := SafeHeight(s.st, s.node, cfg.maxDepth);
    var cut := Cut(s, safe);
    RestartIsCut(cfg, s);
    HealIsSafe(s.st, s.node, cfg.maxDepth);
    if s.st == EMPTY_STORAGE {
      assert Next(cfg, s, Restart).st == EMPTY_STORAGE;
    } else {
      HealLandsOnRecord(s.st, s.node, cfg.maxDepth);
      CutRecovers(cfg, s, safe);
      RecoveredIff(cfg, cut);
      PointerKeepsSound(cfg, cut, Next(cfg, s, Restart), safe);
      assert safe in cut.st.hashes && cut.lost == s.lost;
    }
  }

  // ---------------------------------------------------------------- commits

  /** A block above height 0 is about to be committed to the empty store. */
  predicate LeavesGap(s: State, step: Step) {
    step.AttemptCommits? && s.processor.Trying? && s.st == EMPTY_STORAGE && s.processor.item.height > 0
  }

  lemma {:induction false} CommitExtendsIndex(cfg: Config, blocks: map<nat, NodeBlock>, vs: Versions, item: Item)
    requires vs == if item.height == 0 then map[] else IndexedTo(cfg, blocks, item.height - 1)
    ensures AppendBlock(vs, item.height, Writes(cfg, vs, item)) ==
            IndexedTo(cfg, blocks[item.height := item.block], item.height)
  {
    var longer := Payload(blocks[item.height := item.block], item.height + 1);
    assert longer[..|longer| - 1] == Payload(blocks, item.height);
    assert longer[|longer| - 1] == Indexing.Block([], item.block.data);
    if item.height == 0 {
      assert Payload(blocks, item.height) == [];
      assert Indexing.IndexFrom(cfg.indexer, map[], 0, []) == vs;
    } else {
      var last: nat := item.height - 1;
      assert IndexedTo(cfg, blocks, last) == Indexing.IndexFrom(cfg.indexer, map[], 0, Payload(blocks, item.height));
    }
  }

  lemma {:induction false} GapBreaks(cfg: Config, s: State)
    requires LeavesGap(s, AttemptCommits)
    ensures !Sound(cfg, CommitTried(cfg, s))
  {
    assert !Linked(CommitTried(cfg, s).st, 0);
  }

  lemma {:induction false} CommitExtendsChain(cfg: Config, s: State)
    requires Sound(cfg, s) && TriedFits(cfg, s) && s.processor.Trying? && InOrder(s.st, s.processor.item.height)
    requires !LeavesGap(s, AttemptCommits)
    ensures ChainStored(CommitTried(cfg, s).st) && Rooted(cfg, CommitTried(cfg, s).st)
    ensures s.st != EMPTY_STORAGE ==> s.processor.item.height == s.st.tip + 1
  {
    var item := s.processor.item;
    if s.st != EMPTY_STORAGE {
      ChainIsGapless(s.st);
    }
    CommitKeepsChain(s.st, item.height, item.block.claimed, Writes(cfg, s.st.versions, item));
  }

  lemma {:induction false} CommitExtendsLists(cfg: Config, s: State)
    requires Sound(cfg, s) && s.processor.Trying?
    requires s.processor.item.height == if s.st == EMPTY_STORAGE then 0 else s.st.tip + 1
    ensures var after := CommitTried(cfg, s);
            after.st.versions == IndexedTo(cfg, after.blocks, after.st.tip)
  {
    CommitExtendsIndex(cfg, s.blocks, s.st.versions, s.processor.item);
  }

  /** An in-order commit keeps a sound state sound, unless it leaves a gap below it. */
  lemma {:induction false} CommitSoundIff(cfg: Config, s: State)
    requires Sound(cfg, s) && TriedFits(cfg, s) && s.processor.Trying? && InOrder(s.st, s.processor.item.height)
    ensures Sound(cfg, CommitTried(cfg, s)) <==> !LeavesGap(s, AttemptCommits)
  {
    if LeavesGap(s, AttemptCommits) {
      GapBreaks(cfg, s);
    } else {
      CommitExtendsChain(cfg, s);
      CommitExtendsLists(cfg, s);
    }
  }

  // ---------------------------------------------------------------- rollbacks

  /** Height `g` has a linked record, and its block writes nothing on the present lists. */
  predicate SilentRecord(cfg: Config, s: State, g: nat) {
    Linked(s.st, g) && g in s.blocks && Writes(cfg, s.st.versions, Item(g, s.blocks[g])) == []
  }

  /** Every height a rollback to `height` moves the tip up over has a silent record. */
  predicate SilentUpTo(cfg: Config, s: State, height: nat) {
    forall g :: s.st.tip < g <= height ==> SilentRecord(cfg, s, g)
  }

  lemma {:induction false} CutBelowLists(cfg: Config, st: Storage, blocks: map<nat, NodeBlock>, height: nat)
    requires height <= st.tip && st.versions == IndexedTo(cfg, blocks, st.tip)
    ensures RollbackTo(st, height).versions == IndexedTo(cfg, blocks, height)
  {
    if height < st.tip {
      TrimIndexed(cfg, blocks, st.tip, height);
      assert RollbackTo(st, height).versions == TrimTo(st.versions, height);
    }
  }

  lemma {:induction false} CutBelowChain(st: Storage, height: nat)
    requires ChainStored(st) && height <= st.tip
    ensures ChainStored(RollbackTo(st, height)) && 0 in RollbackTo(st, height).hashes
    ensures RollbackTo(st, height).hashes[0] == st.hashes[0]
  {
    RollbackKeepsChainIff(st, height);
    RollbackKeepsRecords(st, height);
    assert Linked(st, 0);
  }

  lemma {:induction false} CutBelowSound(cfg: Config, s: State, height: nat)
    requires Remembered(s) && Sound(cfg, s) && height <= s.st.tip
    ensures Sound(cfg, Cut(s, height))
    ensures s.st == EMPTY_STORAGE <==> Cut(s, height).st == EMPTY_STORAGE
  {
    if s.st != EMPTY_STORAGE {
      CutBelowChain(s.st, height);
      CutBelowLists(cfg, s.st, s.blocks, height);
      CutBlocksBelow(cfg, s, height, height);
    }
  }

  lemma {:induction false} SilentIff(cfg: Config, s: State, height: nat)
    requires Remembered(s) && s.st.versions == IndexedTo(cfg, s.blocks, s.st.tip) && s.st.tip < height
    requires forall g :: s.st.tip < g <= height ==> Linked(s.st, g)
    ensures IndexedTo(cfg, s.blocks, height) == s.st.versions <==> SilentUpTo(cfg, s, height)
  {
    var low, payload := s.st.tip + 1, Payload(s.blocks, height + 1);
    assert payload[..low] == Payload(s.blocks, low);
    Indexing.SameListsIff(cfg.indexer, payload, low);
    forall g | low <= g <= height
      ensures Indexing.Silent(cfg.indexer, s.st.versions, payload, g) <==> SilentRecord(cfg, s, g)
    {
      assert Linked(s.st, g);
    }
  }

  lemma {:induction false} CutAboveIsPointer(s: State, height: nat)
    requires Remembered(s) && s.st.tip < height
    ensures Cut(s, height) == s.(st := s.st.(tip := height))
  {
    assert Cut(s, height).blocks == s.blocks;
  }

  lemma {:induction false} CutAboveSoundIff(cfg: Config, s: State, height: nat)
    requires Remembered(s) && Sound(cfg, s) && s.st.tip < height
    ensures Sound(cfg, Cut(s, height)) <==> SilentUpTo(cfg, s, height)
  {
    CutAboveIsPointer(s, height);
    if s.st == EMPTY_STORAGE {
      assert !Linked(Cut(s, height).st, 0) && !SilentRecord(cfg, s, height);
    } else if forall g :: s.st.tip < g <= height ==> Linked(s.st, g) {
      MovedUpSound(cfg, s, height);
      SilentIff(cfg, s, height);
    } else {
      MovedUpGap(cfg, s, height);
      var g: nat :| s.st.tip < g <= height && !Linked(s.st, g);
      assert !SilentRecord(cfg, s, g);
    }
  }

  lemma {:induction false} MovedUpSound(cfg: Config, s: State, height: nat)
    requires Sound(cfg, s) && s.st != EMPTY_STORAGE && s.st.tip < height
    requires forall g :: s.st.tip < g <= height ==> Linked(s.st, g)
    ensures Sound(cfg, s.(st := s.st.(tip := height))) <==> IndexedTo(cfg, s.blocks, height) == s.st.versions
  {
    RollbackKeepsChainIff(s.st, height);
    assert Rooted(cfg, s.st.(tip := height));
  }

  lemma {:induction false} MovedUpGap(cfg: Config, s: State, height: nat)
    requires Sound(cfg, s) && s.st != EMPTY_STORAGE && s.st.tip < height
    requires !forall g :: s.st.tip < g <= height ==> Linked(s.st, g)
    ensures !Sound(cfg, s.(st := s.st.(tip := height)))
  {
    RollbackKeepsChainIff(s.st, height);
  }

  /**
   A rollback keeps a sound state sound if and only if every height it moves the tip up over has a
   linked record of a block that writes nothing; so one at or below the tip always does.
   */
  lemma {:induction false} CutSoundIff(cfg: Config, s: State, height: nat)
    requires Remembered(s) && Sound(cfg, s)
    ensures Sound(cfg, Cut(s, height)) <==> SilentUpTo(cfg, s, height)
  {
    if height <= s.st.tip {
      CutBelowSound(cfg, s, height);
    } else {
      CutAboveSoundIff(cfg, s, height);
    }
  }

  lemma {:induction false} CutRemembers(s: State, height: nat)
    requires Remembered(s)
    ensures Remembered(Cut(s, height))
  {
    RollbackKeepsRecords(s.st, height);
  }

  // ---------------------------------------------------------------- steps

  /** A rollback is about to be run that moves the tip up over a height without a silent record. */
  predicate CutBreaks(cfg: Config, s: State, step: Step) {
    step.WalkCuts? && WalkerOf(s, step.task).Cutting? && !SilentUpTo(cfg, s, WalkerOf(s, step.task).height)
  }

  /** A rollback is about to be run with a target above the tip. */
  predicate CutsAboveTip(s: State, step: Step) {
    step.WalkCuts? && WalkerOf(s, step.task).Cutting? && WalkerOf(s, step.task).height > s.st.tip
  }

  ghost predicate Breaking(cfg: Config, s: State, step: Step) {
    LeavesGap(s, step) || CutBreaks(cfg, s, step) || RestartMisses(cfg, s, step)
  }

  /** Sound at least while there is a process. */
  ghost predicate SoundWhenUp(cfg: Config, s: State) {
    s.fetcher.Down? || Sound(cfg, s)
  }

  lemma {:induction false} CutKeepsFit(cfg: Config, s: State, height: nat)
    requires Sound(cfg, s) && Sound(cfg, Cut(s, height)) && TriedFits(cfg, s)
    ensures TriedFits(cfg, Cut(s, height))
  {
    RollbackKeepsRecords(s.st, height);
    if s.st != EMPTY_STORAGE {
      assert Linked(s.st, 0);
      assert 0 in RollbackTo(s.st, height).hashes;
    }
    assert forall h :: h in RollbackTo(s.st, height).hashes ==> RollbackTo(s.st, height).hashes[h] == s.st.hashes[h];
  }

  lemma {:induction false} MovedIsSilentToo(cfg: Config, s: State, moved: State, height: nat)
    requires moved.st == s.st && moved.blocks == s.blocks
    ensures SilentUpTo(cfg, moved, height) <==> SilentUpTo(cfg, s, height)
  {
    forall g: nat ensures SilentRecord(cfg, moved, g) <==> SilentRecord(cfg, s, g) {
    }
  }

  lemma {:induction false} CutInvIff(cfg: Config, s: State, height: nat)
    requires InvUp(cfg, s)
    ensures InvUp(cfg, Cut(s, height)) <==> SilentUpTo(cfg, s, height)
    ensures Sound(cfg, Cut(s, height)) <==> SilentUpTo(cfg, s, height)
  {
    CutSoundIff(cfg, s, height);
    CutRemembers(s, height);
    if SilentUpTo(cfg, s, height) {
      CutKeepsFit(cfg, s, height);
    }
  }

  lemma {:induction false} WalkerMoves(cfg: Config, s: State, task: Task, w: Walker)
    requires InvUp(cfg, s)
    ensures InvUp(cfg, WithWalker(s, task, w))
  {
  }

  lemma {:induction false} CutStepInvIff(cfg: Config, s: State, task: Task, refreshed: bool)
    requires InvUp(cfg, s)
    ensures var step := WalkCuts(task, refreshed);
            && (InvUp(cfg, Next(cfg, s, step)) <==> !CutBreaks(cfg, s, step))
            && (CutBreaks(cfg, s, step) ==> !SoundWhenUp(cfg, Next(cfg, s, step)))
  {
    var w := WalkerOf(s, task);
    if w.Cutting? {
      var moved := WithWalker(s, task, AfterCut(w, refreshed));
      WalkerMoves(cfg, s, task, AfterCut(w, refreshed));
      MovedIsSilentToo(cfg, s, moved, w.height);
      CutInvIff(cfg, moved, w.height);
    }
  }

  lemma {:induction false} CommitRemembers(cfg: Config, s: State)
    requires Remembered(s) && s.processor.Trying?
    ensures Remembered(CommitTried(cfg, s))
  {
  }

  /** What the attempt to commit comes to. */
  ghost predicate AttemptSettled(cfg: Config, s: State, after: State) {
    && (InvUp(cfg, after) <==> !LeavesGap(s, AttemptCommits))
    && (LeavesGap(s, AttemptCommits) ==> !SoundWhenUp(cfg, after))
  }

  lemma {:induction false} AttemptCommitsOrNot(cfg: Config, s: State)
    ensures var after := Next(cfg, s, AttemptCommits);
            if s.processor.Trying? && InOrder(s.st, s.processor.item.height) then after == CommitTried(cfg, s)
            else after.st == s.st && after.blocks == s.blocks && after.lost == s.lost && after.fetcher == s.fetcher &&
                 !after.processor.Trying?
  {
  }

  lemma {:induction false} CommitInvIff(cfg: Config, s: State)
    requires InvUp(cfg, s) && s.processor.Trying? && InOrder(s.st, s.processor.item.height)
    ensures AttemptSettled(cfg, s, CommitTried(cfg, s))
  {
    CommitSoundIff(cfg, s);
    CommitRemembers(cfg, s);
  }

  lemma {:induction false} CommitStepInvIff(cfg: Config, s: State)
    requires InvUp(cfg, s)
    ensures AttemptSettled(cfg, s, Next(cfg, s, AttemptCommits))
  {
    AttemptCommitsOrNot(cfg, s);
    if s.processor.Trying? && InOrder(s.st, s.processor.item.height) {
      CommitInvIff(cfg, s);
    } else {
      FrameKeepsInv(cfg, s, Next(cfg, s, AttemptCommits));
    }
  }

  lemma {:induction false} AcceptedFits(cfg: Config, s: State, item: Item)
    requires Sound(cfg, s) && Accepts(cfg.policy, s.st, item.height, item.block)
    ensures TriedFits(cfg, s.(waiting := s.waiting - {item}, processor := Trying(item)))
  {
  }

  lemma {:induction false} ValidateKeepsInv(cfg: Config, s: State, item: Item)
    requires InvUp(cfg, s)
    ensures InvUp(cfg, Next(cfg, s, Validate(item)))
  {
    if item in s.waiting && s.processor.Free? && Accepts(cfg.policy, s.st, item.height, item.block) {
      AcceptedFits(cfg, s, item);
    }
  }

  lemma {:induction false} SameStorageRecovers(cfg: Config, s: State, t: State)
    requires t.st == s.st && t.blocks == s.blocks && t.lost == s.lost
    ensures Recoverable(cfg, s) <==> Recoverable(cfg, t)
  {
    forall g: nat, k ensures KeyRecovers(cfg, s, g, k) <==> KeyRecovers(cfg, t, g, k) {
    }
    assert forall g: nat :: Recovers(cfg, s, g) <==> Recovers(cfg, t, g);
  }

  lemma {:induction false} InvRecovers(cfg: Config, s: State)
    requires Inv(cfg, s)
    ensures Recoverable(cfg, s)
  {
    if !s.fetcher.Down? {
      SoundRecovers(cfg, s);
    }
  }

  /** Killed inside a rollback, whether of a walk or of a heal, storage stays recoverable. */
  lemma {:induction false} KillKeepsInv(cfg: Config, s: State, target: nat, kill: Kill)
    requires Inv(cfg, s)
    ensures Inv(cfg, Killed(s, target, kill))
  {
    InvRecovers(cfg, s);
    KillRecovers(cfg, s, target, kill);
  }

  lemma {:induction false} HealCutRecovers(cfg: Config, s: State)
    requires Remembered(s) && Recoverable(cfg, s)
    ensures Recoverable(cfg, Cut(s, SafeHeight(s.st, s.node, cfg.maxDepth)))
    ensures Remembered(Cut(s, SafeHeight(s.st, s.node, cfg.maxDepth)))
  {
    var safe := SafeHeight(s.st, s.node, cfg.maxDepth);
    HealIsSafe(s.st, s.node, cfg.maxDepth);
    CutRemembers(s, safe);
    if s.st == EMPTY_STORAGE {
      assert Cut(s, safe).st == EMPTY_STORAGE;
    } else {
      HealLandsOnRecord(s.st, s.node, cfg.maxDepth);
      CutRecovers(cfg, s, safe);
    }
  }

  /** The heal's rollback is complete but its pointer write is not. */
  lemma {:induction false} LateKillKeepsInv(cfg: Config, s: State)
    requires Inv(cfg, s)
    ensures Inv(cfg, Next(cfg, s, HealKilledLate))
  {
    InvRecovers(cfg, s);
    HealCutRecovers(cfg, s);
    SameStorageRecovers(cfg, Cut(s, SafeHeight(s.st, s.node, cfg.maxDepth)), Next(cfg, s, HealKilledLate));
  }

  lemma {:induction false} RestartStepInvIff(cfg: Config, s: State)
    requires Inv(cfg, s)
    ensures InvUp(cfg, Next(cfg, s, Restart)) <==> !RestartMisses(cfg, s, Restart)
    ensures RestartMisses(cfg, s, Restart) ==> !SoundWhenUp(cfg, Next(cfg, s, Restart))
    ensures !Next(cfg, s, Restart).fetcher.Down?
  {
    InvRecovers(cfg, s);
    RestartSoundIff(cfg, s);
    RestartIsCut(cfg, s);
  }

  /** Without a process nothing happens but node changes and restarts. */
  lemma {:induction false} DownIsInert(cfg: Config, s: State, step: Step)
    requires NothingRuns(s)
    requires !step.NodeChanges? && !step.Restart? && !step.HealKilled? && !step.HealKilledLate?
    ensures Next(cfg, s, step) == s
  {
  }

  predicate Kills(step: Step) {
    step.WalkKilled? || step.HealKilled? || step.HealKilledLate?
  }

  /** What a step that is neither a commit, a cut, a kill nor a restart leaves alone. */
  lemma {:induction false} QuietStep(cfg: Config, s: State, step: Step)
    requires !step.AttemptCommits? && !step.WalkCuts? && !step.Restart? && !Kills(step)
    ensures var after := Next(cfg, s, step);
            && after.st == s.st && after.blocks == s.blocks && after.lost == s.lost
            && (after.processor == s.processor || !after.processor.Trying? || step.Validate?)
            && (after.fetcher.Down? <==> s.fetcher.Down?)
  {
  }

  lemma {:induction false} FrameKeepsInv(cfg: Config, s: State, after: State)
    requires InvUp(cfg, s) && after.st == s.st && after.blocks == s.blocks && after.lost == s.lost && !after.fetcher.Down?
    requires after.processor == s.processor || !after.processor.Trying?
    ensures InvUp(cfg, after)
  {
  }

  lemma {:induction false} QuietKeepsInv(cfg: Config, s: State, step: Step)
    requires InvUp(cfg, s) && !step.Validate?
    requires !step.AttemptCommits? && !step.WalkCuts? && !step.Restart? && !Kills(step)
    ensures InvUp(cfg, Next(cfg, s, step))
  {
    QuietStep(cfg, s, step);
    FrameKeepsInv(cfg, s, Next(cfg, s, step));
  }

  lemma {:induction false} WalkKilledKeepsInv(cfg: Config, s: State, task: Task, kill: Kill)
    requires Inv(cfg, s)
    ensures Inv(cfg, Next(cfg, s, WalkKilled(task, kill)))
  {
    if WalkerOf(s, task).Cutting? {
      KillKeepsInv(cfg, s, WalkerOf(s, task).height, kill);
    } else {
      assert Next(cfg, s, WalkKilled(task, kill)) == s;
    }
  }

  lemma {:induction false} KillStepKeepsInv(cfg: Config, s: State, step: Step)
    requires Inv(cfg, s) && Kills(step)
    ensures Inv(cfg, Next(cfg, s, step))
  {
    match step
    case WalkKilled(task, kill) => WalkKilledKeepsInv(cfg, s, task, kill);
    case HealKilled(kill) => KillKeepsInv(cfg, s, SafeHeight(s.st, s.node, cfg.maxDepth), kill);
    case HealKilledLate => LateKillKeepsInv(cfg, s);
  }

  lemma {:induction false} DownStepKeepsInv(cfg: Config, s: State, step: Step)
    requires InvDown(cfg, s) && !step.Restart? && !Kills(step)
    ensures InvDown(cfg, Next(cfg, s, step)) && !Breaking(cfg, s, step)
  {
    if step.NodeChanges? {
      SameStorageRecovers(cfg, s, Next(cfg, s, step));
    } else {
      DownIsInert(cfg, s, step);
    }
  }

  /** A step keeps the invariant exactly when it is not one of the three breaking ones. */
  lemma {:induction false} StepInvIff(cfg: Config, s: State, step: Step)
    requires Inv(cfg, s)
    ensures Inv(cfg, Next(cfg, s, step)) <==> !Breaking(cfg, s, step)
    ensures Breaking(cfg, s, step) ==> !SoundWhenUp(cfg, Next(cfg, s, step))
  {
    if step.Restart? {
      RestartStepInvIff(cfg, s);
    } else if Kills(step) {
      KillStepKeepsInv(cfg, s, step);
    } else if InvDown(cfg, s) {
      DownStepKeepsInv(cfg, s, step);
    } else {
      UpStepInvIff(cfg, s, step);
    }
  }

  lemma {:induction false} UpStepInvIff(cfg: Config, s: State, step: Step)
    requires InvUp(cfg, s) && !step.Restart? && !Kills(step)
    ensures InvUp(cfg, Next(cfg, s, step)) <==> !Breaking(cfg, s, step)
    ensures Breaking(cfg, s, step) ==> !SoundWhenUp(cfg, Next(cfg, s, step))
    ensures !Next(cfg, s, step).fetcher.Down?
  {
    match step
    case AttemptCommits => CommitStepInvIff(cfg, s);
    case WalkCuts(task, refreshed) => CutStepInvIff(cfg, s, task, refreshed);
    case Validate(item) => ValidateKeepsInv(cfg, s, item);
    case _ => QuietKeepsInv(cfg, s, step);
  }

  // ---------------------------------------------------------------- runs

  lemma {:induction false} InvUntilBroken(cfg: Config, node: Node, steps: seq<Step>, n: nat)
    requires n <= |steps| && forall i :: 0 <= i < n ==> !Breaking(cfg, At(cfg, Start(node), steps, i), steps[i])
    ensures Inv(cfg, At(cfg, Start(node), steps, n))
  {
    if n > 0 {
      InvUntilBroken(cfg, node, steps, n - 1);
      AtNext(cfg, Start(node), steps, n - 1);
      StepInvIff(cfg, At(cfg, Start(node), steps, n - 1), steps[n - 1]);
    }
  }

  /**
   Run invariant, for either engine, every policy, every floor and every prefetched block, with two
   walks interleaved step by step and the process killed anywhere inside a rollback, any number of
   times: started empty, a run is sound whenever there is a process if and only if no step of it
   commits above height 0 to the empty store, rolls back to above the tip over a height without a
   silent record, or restarts at or above a version that a killed rollback has removed.
   */
  lemma {:induction false} RunSoundIff(cfg: Config, node: Node, steps: seq<Step>)
    ensures (forall i :: 0 <= i <= |steps| ==> SoundWhenUp(cfg, At(cfg, Start(node), steps, i))) <==>
            (forall i :: 0 <= i < |steps| ==> !Breaking(cfg, At(cfg, Start(node), steps, i), steps[i]))
  {
    if forall i :: 0 <= i < |steps| ==> !Breaking(cfg, At(cfg, Start(node), steps, i), steps[i]) {
      forall i | 0 <= i <= |steps| ensures SoundWhenUp(cfg, At(cfg, Start(node), steps, i)) {
        InvUntilBroken(cfg, node, steps, i);
      }
    } else {
      var first := FirstBreak(cfg, node, steps);
      InvUntilBroken(cfg, node, steps, first);
      AtNext(cfg, Start(node), steps, first);
      StepInvIff(cfg, At(cfg, Start(node), steps, first), steps[first]);
    }
  }

  lemma {:induction false} FirstBreak(cfg: Config, node: Node, steps: seq<Step>) returns (first: nat)
    requires exists i :: 0 <= i < |steps| && Breaking(cfg, At(cfg, Start(node), steps, i), steps[i])
    ensures first < |steps| && Breaking(cfg, At(cfg, Start(node), steps, first), steps[first])
    ensures forall i :: 0 <= i < first ==> !Breaking(cfg, At(cfg, Start(node), steps, i), steps[i])
  {
    first := 0;
    while !Breaking(cfg, At(cfg, Start(node), steps, first), steps[first])
      invariant first < |steps|
      invariant forall i :: 0 <= i < first ==> !Breaking(cfg, At(cfg, Start(node), steps, i), steps[i])
      decreases |steps| - first
    {
      first := first + 1;
    }
  }

  /** With a policy installed no sound state commits above a gap; without one the missing parent is let through. */
  lemma NoGapUnlessInline(cfg: Config, s: State, step: Step)
    requires Inv(cfg, s) && !cfg.policy.Inline?
    ensures !LeavesGap(s, step)
  {
  }

  /** The two breaking steps that are left under an installed policy. */
  ghost predicate BreaksAnyway(cfg: Config, s: State, step: Step) {
    CutBreaks(cfg, s, step) || RestartMisses(cfg, s, step)
  }

  lemma {:induction false} PolicyInv(cfg: Config, node: Node, steps: seq<Step>, n: nat)
    requires !cfg.policy.Inline? && n <= |steps|
    requires forall i :: 0 <= i < n ==> !BreaksAnyway(cfg, At(cfg, Start(node), steps, i), steps[i])
    ensures Inv(cfg, At(cfg, Start(node), steps, n))
  {
    if n > 0 {
      PolicyInv(cfg, node, steps, n - 1);
      AtNext(cfg, Start(node), steps, n - 1);
      var before := At(cfg, Start(node), steps, n - 1);
      NoGapUnlessInline(cfg, before, steps[n - 1]);
      StepInvIff(cfg, before, steps[n - 1]);
    }
  }

  /**
   Under an installed policy a run is sound whenever there is a process if and only if no rollback in
   it moves the tip up over a height without a silent record and no restart misses a lost version.
   */
  lemma {:induction false} PolicyRunSoundIff(cfg: Config, node: Node, steps: seq<Step>)
    requires !cfg.policy.Inline?
    ensures (forall i :: 0 <= i <= |steps| ==> SoundWhenUp(cfg, At(cfg, Start(node), steps, i))) <==>
            (forall i :: 0 <= i < |steps| ==> !BreaksAnyway(cfg, At(cfg, Start(node), steps, i), steps[i]))
  {
    RunSoundIff(cfg, node, steps);
    if forall i :: 0 <= i < |steps| ==> !BreaksAnyway(cfg, At(cfg, Start(node), steps, i), steps[i]) {
      forall i | 0 <= i <= |steps| ensures SoundWhenUp(cfg, At(cfg, Start(node), steps, i)) {
        PolicyInv(cfg, node, steps, i);
      }
    }
  }

  // ---------------------------------------------------------------- two walks and the tip

  lemma {:induction false} TwoCuts(cfg: Config, s: State, first: Task, second: Task, refreshed: bool, again: bool)
    requires first != second && WalkerOf(s, first).Cutting? && WalkerOf(s, second).Cutting?
    ensures var after := Next(cfg, Next(cfg, s, WalkCuts(first, refreshed)), WalkCuts(second, again));
            var cut := Cut(Cut(s, WalkerOf(s, first).height), WalkerOf(s, second).height);
            after.st == cut.st && after.blocks == cut.blocks && after.fetcher.Down? == s.fetcher.Down?
  {
    var between := Next(cfg, s, WalkCuts(first, refreshed));
    assert WalkerOf(between, second) == WalkerOf(s, second);
  }

  /** So it is for the steps of the two tasks. */
  lemma {:induction false} OvertakenWalkSoundIff(cfg: Config, s: State, first: Task, second: Task, refreshed: bool, again: bool)
    requires InvUp(cfg, s) && first != second
    requires WalkerOf(s, first).Cutting? && WalkerOf(s, second).Cutting?
    requires WalkerOf(s, first).height < WalkerOf(s, second).height <= s.st.tip
    ensures var low, high := WalkerOf(s, first).height, WalkerOf(s, second).height;
            SoundWhenUp(cfg, Next(cfg, Next(cfg, s, WalkCuts(first, refreshed)), WalkCuts(second, again))) <==>
            !Listed(s.st, low, s.st.tip) && SilentBetween(cfg, s, low, high)
  {
    TwoCuts(cfg, s, first, second, refreshed, again);
    OvertakenCutSoundIff(cfg, s, WalkerOf(s, first).height, WalkerOf(s, second).height);
  }

  /** On the lists as of `low`, the blocks above it up to `high` write nothing. */
  predicate SilentBetween(cfg: Config, s: State, low: nat, high: nat) {
    forall g :: low < g <= high ==>
      g in s.blocks && Writes(cfg, TrimTo(s.st.versions, low), Item(g, s.blocks[g])) == []
  }

  /**
   Two walks at once, the second decision carried out after the other task has rolled back below it:
   the state stays sound if and only if the first rollback found a manifest missing, so that the
   records were left in place, and the blocks in between write nothing.
   */
  lemma {:induction false} OvertakenCutSoundIff(cfg: Config, s: State, low: nat, high: nat)
    requires Remembered(s) && Sound(cfg, s) && low < high <= s.st.tip
    ensures Sound(cfg, Cut(s, low)) && Remembered(Cut(s, low))
    ensures Sound(cfg, Cut(Cut(s, low), high)) <==>
            !Listed(s.st, low, s.st.tip) && SilentBetween(cfg, s, low, high)
  {
    var between := Cut(s, low);
    CutBelowSound(cfg, s, low);
    CutRemembers(s, low);
    CutSoundIff(cfg, between, high);
    SilentAfterCutIff(cfg, s, low, high);
  }

  lemma {:induction false} SilentAfterCutIff(cfg: Config, s: State, low: nat, high: nat)
    requires Remembered(s) && Sound(cfg, s) && low < high <= s.st.tip
    ensures SilentUpTo(cfg, Cut(s, low), high) <==> !Listed(s.st, low, s.st.tip) && SilentBetween(cfg, s, low, high)
  {
    if Listed(s.st, low, s.st.tip) {
      assert !SilentRecord(cfg, Cut(s, low), high);
    } else {
      forall g: nat | low < g <= high
        ensures SilentRecord(cfg, Cut(s, low), g) <==>
                g in s.blocks && Writes(cfg, TrimTo(s.st.versions, low), Item(g, s.blocks[g])) == []
      {
        KeptRecordSilentIff(cfg, s, low, g);
      }
    }
  }

  lemma {:induction false} KeptRecordSilentIff(cfg: Config, s: State, low: nat, g: nat)
    requires Remembered(s) && Sound(cfg, s) && low < g <= s.st.tip && !Listed(s.st, low, s.st.tip)
    ensures SilentRecord(cfg, Cut(s, low), g) <==>
            g in s.blocks && Writes(cfg, TrimTo(s.st.versions, low), Item(g, s.blocks[g])) == []
  {
    assert Linked(s.st, g);
    assert Cut(s, low).st == s.st.(tip := low, versions := TrimTo(s.st.versions, low));
    assert Cut(s, low).blocks == s.blocks;
  }

  lemma {:induction false} RestartMoves(cfg: Config, s: State)
    ensures var after := Next(cfg, s, Restart);
            after.st.tip <= s.st.tip && after.st == RollbackTo(s.st, after.st.tip).(runtimeTip := after.st.tip)
  {
    HealIsSafe(s.st, s.node, cfg.maxDepth);
  }

  lemma {:induction false} StoredFromZero(cfg: Config, s: State)
    requires Inv(cfg, s) && s.st != EMPTY_STORAGE
    ensures 0 in s.st.hashes
  {
    InvRecovers(cfg, s);
  }

  lemma {:induction false} CommitMoves(cfg: Config, s: State)
    requires 0 in s.st.hashes
    ensures var after := Next(cfg, s, AttemptCommits); after.st == s.st || after.st.tip == s.st.tip + 1
  {
    AttemptCommitsOrNot(cfg, s);
  }

  lemma {:induction false} WalkMoves(cfg: Config, s: State, task: Task, refreshed: bool)
    requires !CutsAboveTip(s, WalkCuts(task, refreshed))
    ensures var after := Next(cfg, s, WalkCuts(task, refreshed));
            after.st.tip <= s.st.tip && after.st == RollbackTo(s.st, after.st.tip)
  {
    var w := WalkerOf(s, task);
    if w.Cutting? {
      assert Next(cfg, s, WalkCuts(task, refreshed)).st == RollbackTo(s.st, w.height);
    } else {
      assert Next(cfg, s, WalkCuts(task, refreshed)) == s;
    }
  }

  /**
   From a sound state with block 0 stored a step moves the tip up by one through a commit, or down
   through a rollback, or not at all, or it is a rollback to above the tip.
   */
  lemma {:induction false} TipMovesByOne(cfg: Config, s: State, step: Step)
    requires Inv(cfg, s) && s.st != EMPTY_STORAGE && !CutsAboveTip(s, step)
    ensures var after := Next(cfg, s, step);
            && after.st.tip <= s.st.tip + 1
            && (after.st.tip > s.st.tip ==> step == AttemptCommits)
            && (after.st.tip < s.st.tip ==>
                  after.st == RollbackTo(s.st, after.st.tip).(runtimeTip := after.st.runtimeTip))
  {
    match step
    case AttemptCommits =>
      StoredFromZero(cfg, s);
      CommitMoves(cfg, s);
    case WalkCuts(task, refreshed) => WalkMoves(cfg, s, task, refreshed);
    case Restart => RestartMoves(cfg, s);
    case WalkKilled(_, _) => KillMoves(cfg, s, step);
    case HealKilled(_) => KillMoves(cfg, s, step);
    case HealKilledLate => KillMoves(cfg, s, step);
    case _ => QuietStep(cfg, s, step);
  }

  lemma {:induction false} KillMoves(cfg: Config, s: State, step: Step)
    requires Kills(step)
    ensures var after := Next(cfg, s, step);
            after.st.tip <= s.st.tip && (after.st.tip < s.st.tip ==> after.st == RollbackTo(s.st, after.st.tip))
  {
    HealIsSafe(s.st, s.node, cfg.maxDepth);
  }
}
