/**
 That the engines get on, the plain one and the snapshot one: a node's chain is fetched and committed
 block by block, and after a fork within the window a run brings storage to the node's chain.
 */
module EngineProgress {
  import opened Basics
  import opened Versions
  import opened SyncStorage
  import opened Reorg
  import opened ReorgWalk
  import opened SyncEngine
  import opened EngineRuns
  import opened EngineSoundness
  import opened EngineCalls

  /** Nothing is under way, and the fetcher is about to fetch at the cursor. */
  predicate Poised(s: State) {
    && s.fetcher == Ready(s.cursor) && s.waiting == {} && s.processor.Free? && s.reports == {} && s.handler.Waiting?
  }

  /** The node answers with a chain of genuine, linked blocks up to height `m`. */
  ghost predicate ServesChain(node: Node, m: nat) {
    && node.connected
    && (forall h: nat :: h <= m ==> h in node.blocks && node.blocks[h].claimed == HashOf(node.blocks[h].header))
    && (forall h: nat :: 0 < h <= m ==> LinksBelow(node, h))
  }

  predicate LinksBelow(node: Node, h: nat) {
    h > 0 && h in node.blocks && h - 1 in node.blocks && node.blocks[h].header.prev == node.blocks[h - 1].claimed
  }

  /** The node's block at the cursor can be committed: it is the first of all, or names the stored tip. */
  ghost predicate NextFits(cfg: Config, s: State) {
    if s.cursor == 0 then
      s.st == EMPTY_STORAGE &&
      (cfg.policy.Anchored? && 0 in s.node.blocks ==> s.node.blocks[0].claimed == HashOf(cfg.policy.genesis))
    else
      s.st.tip + 1 == s.cursor && s.st.tip in s.st.hashes &&
      (s.st.tip in s.node.blocks ==> s.st.hashes[s.st.tip] == s.node.blocks[s.st.tip].claimed)
  }

  /** A block's way from the node to the store, and on to the next fetch. */
  function OneBlock(item: Item): seq<Step> {
    [Fetch(None), Validate(item), AttemptCommits] + [ReportStored, TakeReport(Success(item.height)), SkipCheck]
  }

  lemma {:induction false} Commits(cfg: Config, s: State, item: Item)
    requires Poised(s) && s.node.connected && s.cursor in s.node.blocks && item == Item(s.cursor, s.node.blocks[s.cursor])
    requires Accepts(cfg.policy, s.st, item.height, item.block) && InOrder(s.st, item.height)
    ensures Run(cfg, s, [Fetch(None), Validate(item), AttemptCommits]) ==
            s.(st := Commit(s.st, s.cursor, item.block.claimed, Writes(cfg, s.st.versions, item)),
               fetcher := Idle, processor := Stored(s.cursor), blocks := s.blocks[s.cursor := item.block])
  {
    var steps := [Fetch(None), Validate(item), AttemptCommits];
    assert At(cfg, s, steps, 0) == s;
    AtNext(cfg, s, steps, 0);
    assert At(cfg, s, steps, 1) == s.(fetcher := Idle, waiting := {item});
    AtNext(cfg, s, steps, 1);
    assert {item} - {item} == {};
    assert At(cfg, s, steps, 2) == s.(fetcher := Idle, processor := Trying(item));
    AtNext(cfg, s, steps, 2);
    assert steps[..3] == steps;
  }

  lemma {:induction false} Reports(cfg: Config, s: State, height: nat)
    requires s.fetcher.Idle? && s.processor == Stored(height) && s.reports == {} && s.handler.Waiting?
    ensures Run(cfg, s, [ReportStored, TakeReport(Success(height)), SkipCheck]) ==
            s.(cursor := height + 1, fetcher := Ready(height + 1), processor := Free)
  {
    var steps := [ReportStored, TakeReport(Success(height)), SkipCheck];
    assert At(cfg, s, steps, 0) == s;
    AtNext(cfg, s, steps, 0);
    AtNext(cfg, s, steps, 1);
    assert {Success(height)} - {Success(height)} == {};
    assert At(cfg, s, steps, 2) == s.(cursor := height + 1, processor := Free);
    AtNext(cfg, s, steps, 2);
    assert steps[..3] == steps;
  }

  lemma {:induction false} NextIsAccepted(cfg: Config, s: State, m: nat)
    requires ServesChain(s.node, m) && NextFits(cfg, s) && s.cursor <= m
    ensures Accepts(cfg.policy, s.st, s.cursor, s.node.blocks[s.cursor]) && InOrder(s.st, s.cursor)
  {
    assert s.cursor > 0 ==> LinksBelow(s.node, s.cursor);
  }

  /** In either engine one block that fits gets in, and the cursor moves past it. */
  lemma {:induction false} OneBlockGetsIn(cfg: Config, s: State, m: nat)
    requires Poised(s) && ServesChain(s.node, m) && NextFits(cfg, s) && s.cursor <= m
    ensures var item := Item(s.cursor, s.node.blocks[s.cursor]);
            Run(cfg, s, OneBlock(item)) ==
            s.(st := Commit(s.st, s.cursor, item.block.claimed, Writes(cfg, s.st.versions, item)),
               cursor := s.cursor + 1, fetcher := Ready(s.cursor + 1), blocks := s.blocks[s.cursor := item.block])
  {
    var item := Item(s.cursor, s.node.blocks[s.cursor]);
    var commits := [Fetch(None), Validate(item), AttemptCommits];
    NextIsAccepted(cfg, s, m);
    Commits(cfg, s, item);
    Reports(cfg, Run(cfg, s, commits), s.cursor);
    RunAppend(cfg, s, commits, [ReportStored, TakeReport(Success(item.height)), SkipCheck]);
  }

  /** The records from `low` to `high` are those of the node. */
  ghost predicate HoldsNode(st: Storage, node: Node, low: nat, high: nat) {
    forall h: nat :: low <= h <= high ==> h in st.hashes && h in node.blocks && st.hashes[h] == node.blocks[h].claimed
  }

  /** `q` is `p` with the node's blocks up to `m` committed and the cursor right above. */
  ghost predicate CaughtUp(p: State, q: State, m: nat) {
    && Poised(q) && q.node == p.node && q.cursor == m + 1 && q.st.tip == m
    && HoldsNode(q.st, p.node, p.cursor, m)
    && (forall h: nat :: h < p.cursor && h in p.st.hashes ==> h in q.st.hashes && q.st.hashes[h] == p.st.hashes[h])
    && (forall h: nat :: p.cursor <= h <= m ==> h in q.blocks && h in p.node.blocks && q.blocks[h] == p.node.blocks[h])
    && (forall h: nat :: h < p.cursor && h in p.blocks ==> h in q.blocks && q.blocks[h] == p.blocks[h])
  }

  /** Records with their blocks, and the lists of indexing those from scratch. */
  ghost predicate Whole(cfg: Config, s: State) {
    Sound(cfg, s) && Remembered(s)
  }

  lemma {:induction false} CommitStaysWhole(cfg: Config, s: State, item: Item)
    requires Whole(cfg, s) && InOrder(s.st, item.height) && Accepts(cfg.policy, s.st, item.height, item.block)
    requires s.st == EMPTY_STORAGE ==> item.height == 0
    ensures Whole(cfg, CommitTried(cfg, s.(processor := Trying(item))))
  {
    var tried := s.(processor := Trying(item));
    AcceptedFits(cfg, tried, item);
    CommitSoundIff(cfg, tried);
    CommitRemembers(cfg, tried);
  }

  lemma {:induction false} StaysPoised(cfg: Config, s: State, m: nat)
    requires Poised(s) && ServesChain(s.node, m) && NextFits(cfg, s) && s.cursor <= m
    ensures var next := Run(cfg, s, OneBlock(Item(s.cursor, s.node.blocks[s.cursor])));
            NextFits(cfg, next) && CaughtUp(s, next, s.cursor)
  {
    OneBlockGetsIn(cfg, s, m);
  }

  lemma {:induction false} SameIsWhole(cfg: Config, p: State, q: State)
    requires Whole(cfg, p) && q.st == p.st && q.blocks == p.blocks
    ensures Whole(cfg, q)
  {
  }

  lemma {:induction false} StaysWhole(cfg: Config, s: State, m: nat)
    requires Poised(s) && ServesChain(s.node, m) && NextFits(cfg, s) && s.cursor <= m && Whole(cfg, s)
    ensures Whole(cfg, Run(cfg, s, OneBlock(Item(s.cursor, s.node.blocks[s.cursor]))))
  {
    var item := Item(s.cursor, s.node.blocks[s.cursor]);
    NextIsAccepted(cfg, s, m);
    CommitStaysWhole(cfg, s, item);
    OneBlockGetsIn(cfg, s, m);
    SameIsWhole(cfg, CommitTried(cfg, s.(processor := Trying(item))), Run(cfg, s, OneBlock(item)));
  }

  lemma {:induction false} CaughtUpFurther(p: State, q: State, r: State, m: nat)
    requires CaughtUp(p, q, p.cursor) && CaughtUp(q, r, m) && p.cursor < m
    ensures CaughtUp(p, r, m)
  {
  }

  /** In either engine some run commits the rest of the node's chain, in order. */
  lemma {:induction false} CatchesUp(cfg: Config, s: State, m: nat) returns (steps: seq<Step>)
    requires Poised(s) && ServesChain(s.node, m) && NextFits(cfg, s) && s.cursor <= m
    ensures CaughtUp(s, Run(cfg, s, steps), m) && (Whole(cfg, s) ==> Whole(cfg, Run(cfg, s, steps)))
    decreases m - s.cursor
  {
    steps := OneBlock(Item(s.cursor, s.node.blocks[s.cursor]));
    StaysPoised(cfg, s, m);
    if Whole(cfg, s) {
      StaysWhole(cfg, s, m);
    }
    if s.cursor < m {
      var next := Run(cfg, s, steps);
      var rest := CatchesUp(cfg, next, m);
      RunAppend(cfg, s, steps, rest);
      CaughtUpFurther(s, next, Run(cfg, next, rest), m);
      steps := steps + rest;
    }
  }

  // ---------------------------------------------------------------- after a fork

  /** As `Poised`, before the fetcher has begun, with the cursor right above a stored chain. */
  ghost predicate Idling(s: State) {
    && s.fetcher.Idle? && s.waiting == {} && s.processor.Free? && s.reports == {} && s.handler.Waiting?
    && s.cursor == s.st.tip + 1 && NoStale(s.st) && (forall h: nat :: h <= s.st.tip ==> h in s.st.hashes)
  }

  /** The node's chain and the stored one are the same below `shared` and nowhere else. */
  ghost predicate ForksAt(st: Storage, node: Node, shared: nat) {
    && 0 < shared <= st.tip + 1
    && (forall h: nat :: h <= st.tip ==> h in node.blocks && h in st.hashes)
    && (forall h: nat :: h <= st.tip ==> (st.hashes[h] == node.blocks[h].claimed <==> h < shared))
  }

  /** What the fetcher's check decides: nothing on the node's own chain, else a rollback to the last shared height. */
  lemma {:induction false} DecidesOnFork(s: State, maxDepth: nat, shared: nat)
    requires Idling(s) && s.node.connected && ForksAt(s.st, s.node, shared) && s.st.tip < shared + maxDepth
    ensures Decision(s.st, s.node, s.cursor, maxDepth) == if shared <= s.st.tip then RollTo(shared - 1) else Keep
  {
    forall h | h in s.st.hashes && h < s.cursor
      ensures RemoteHash(s.node, h).Some? && (Agrees(s.st, s.node, h) <==> h < shared)
    {
    }
    ReorgFindsFork(s.st, s.node, s.cursor, maxDepth, shared);
    if shared <= s.st.tip {
      assert s.st.tip in s.st.hashes;
    }
  }

  /** The fetcher's check on its own: begun, walked, rolled back, and the height to resume from stored. */
  lemma {:induction false} Checks(cfg: Config, s: State, shared: nat) returns (steps: seq<Step>)
    requires Idling(s) && s.node.connected && ForksAt(s.st, s.node, shared) && s.st.tip < shared + cfg.maxDepth
    ensures var q := Run(cfg, s, steps);
            && Poised(q) && q.node == s.node && q.cursor == shared
            && q.st == (if shared <= s.st.tip then RollbackTo(s.st, shared - 1) else s.st)
            && q.blocks == (if shared <= s.st.tip then Remember(s.blocks, q.st) else s.blocks)
  {
    DecidesOnFork(s, cfg.maxDepth, shared);
    OneStep(cfg, s, StartCheck);
    var looking := Next(cfg, s, StartCheck);
    var walk := ReorgCallIsRun(cfg, looking, ByFetcher, s.cursor);
    RunAppend(cfg, s, [StartCheck], walk);
    var done := Run(cfg, looking, walk);
    OneStep(cfg, done, WalkEnds(ByFetcher));
    RunAppend(cfg, s, [StartCheck] + walk, [WalkEnds(ByFetcher)]);
    steps := [StartCheck] + walk + [WalkEnds(ByFetcher)];
  }

  lemma {:induction false} CutStaysWhole(cfg: Config, s: State, height: nat)
    requires Whole(cfg, s) && height <= s.st.tip
    ensures Whole(cfg, Cut(s, height))
  {
    CutBelowSound(cfg, s, height);
    CutRemembers(s, height);
  }

  lemma {:induction false} CheckStaysWhole(cfg: Config, s: State, q: State, shared: nat)
    requires Whole(cfg, s) && 0 < shared
    requires q.st == (if shared <= s.st.tip then RollbackTo(s.st, shared - 1) else s.st)
    requires q.blocks == (if shared <= s.st.tip then Remember(s.blocks, q.st) else s.blocks)
    ensures Whole(cfg, q)
  {
    if shared <= s.st.tip {
      CutStaysWhole(cfg, s, shared - 1);
      SameIsWhole(cfg, Cut(s, shared - 1), q);
    } else {
      SameIsWhole(cfg, s, q);
    }
  }

  /**
   Convergence: against a node whose chain is at least as long as the stored one and forks from it
   within the window, some run of either engine brings storage to exactly the node's chain: its
   records, and the version lists of indexing the blocks behind them, the node's from the fork on.
   */
  lemma {:induction false} ConvergesToNode(cfg: Config, s: State, shared: nat, m: nat) returns (steps: seq<Step>)
    requires Idling(s) && ServesChain(s.node, m) && s.st.tip <= m && shared <= m
    requires ForksAt(s.st, s.node, shared) && s.st.tip < shared + cfg.maxDepth
    ensures var q := Run(cfg, s, steps);
            && Poised(q) && q.st.tip == m && q.cursor == m + 1 && HoldsNode(q.st, s.node, 0, m)
            && (forall h: nat :: shared <= h <= m ==> h in q.blocks && q.blocks[h] == s.node.blocks[h])
            && (Whole(cfg, s) ==> Whole(cfg, q) && q.st.versions == IndexedTo(cfg, q.blocks, m))
  {
    var checks := Checks(cfg, s, shared);
    var checked := Run(cfg, s, checks);
    RollbackKeepsRecords(s.st, shared - 1);
    if Whole(cfg, s) {
      CheckStaysWhole(cfg, s, checked, shared);
    }
    var up := CatchesUp(cfg, checked, m);
    RunAppend(cfg, s, checks, up);
    steps := checks + up;
  }

  // ---------------------------------------------------------------- by the handler

  /** The plain engine's handler has a report that calls for a check from right above the tip. */
  ghost predicate Reported(cfg: Config, s: State, why: Failure) {
    && !cfg.snapshot && (why.Disconnected? || why.OutOfOrder?)
    && s.fetcher.Idle? && s.waiting == {} && s.processor.Free? && s.handler.Waiting?
    && s.reports == {Failed(s.st.tip + 1, why)}
    && NoStale(s.st) && (forall h: nat :: h <= s.st.tip ==> h in s.st.hashes)
  }

  /** The handler's check, and the fetcher on its mark at the height the handler has stored. */
  lemma {:induction false} HandlerChecks(cfg: Config, s: State, why: Failure, shared: nat) returns (steps: seq<Step>)
    requires Reported(cfg, s, why) && s.node.connected && ForksAt(s.st, s.node, shared)
    requires s.st.tip < shared + cfg.maxDepth
    ensures var q := Run(cfg, s, steps);
            && Poised(q) && q.node == s.node && q.cursor == shared
            && q.st == (if shared <= s.st.tip then RollbackTo(s.st, shared - 1) else s.st)
            && q.blocks == (if shared <= s.st.tip then Remember(s.blocks, q.st) else s.blocks)
  {
    var report := Failed(s.st.tip + 1, why);
    DecidesOnFork(s.(cursor := s.st.tip + 1, reports := {}), cfg.maxDepth, shared);
    OneStep(cfg, s, TakeReport(report));
    assert {report} - {report} == {};
    var handling := Next(cfg, s, TakeReport(report));
    var walk := ReorgCallIsRun(cfg, handling, ByHandler, s.st.tip + 1);
    RunAppend(cfg, s, [TakeReport(report)], walk);
    var done := Run(cfg, handling, walk);
    OneStep(cfg, done, WalkEnds(ByHandler));
    var ended := Next(cfg, done, WalkEnds(ByHandler));
    RunAppend(cfg, s, [TakeReport(report)] + walk, [WalkEnds(ByHandler)]);
    OneStep(cfg, ended, SkipCheck);
    RunAppend(cfg, s, [TakeReport(report)] + walk + [WalkEnds(ByHandler)], [SkipCheck]);
    steps := [TakeReport(report)] + walk + [WalkEnds(ByHandler)] + [SkipCheck];
  }

  /** The plain engine converges through its handler too, called for a broken link or an out-of-order commit. */
  lemma {:induction false} HandlerConverges(cfg: Config, s: State, why: Failure, shared: nat, m: nat)
    returns (steps: seq<Step>)
    requires Reported(cfg, s, why) && ServesChain(s.node, m) && s.st.tip <= m && shared <= m
    requires ForksAt(s.st, s.node, shared) && s.st.tip < shared + cfg.maxDepth
    ensures var q := Run(cfg, s, steps);
            && Poised(q) && q.st.tip == m && q.cursor == m + 1 && HoldsNode(q.st, s.node, 0, m)
            && (Whole(cfg, s) ==> Whole(cfg, q))
  {
    var checks := HandlerChecks(cfg, s, why, shared);
    var checked := Run(cfg, s, checks);
    RollbackKeepsRecords(s.st, shared - 1);
    if Whole(cfg, s) {
      CheckStaysWhole(cfg, s, checked, shared);
    }
    var up := CatchesUp(cfg, checked, m);
    RunAppend(cfg, s, checks, up);
    steps := checks + up;
  }
}
