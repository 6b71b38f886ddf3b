/** Runs that cannot go wrong: a program that writes in every block, one walk at a time, no kill inside a rollback. */
module EngineOrder {
  import opened Basics
  import opened Versions
  import opened SyncStorage
  import opened Reorg
  import opened ReorgWalk
  import opened Heal
  import opened SyncEngine
  import opened EngineRuns
  import opened EngineSoundness
  import Indexing

  /** A program that writes something in every block, so that every block leaves a manifest. */
  ghost predicate AlwaysWrites(idx: Indexing.Indexer) {
    forall height, data, view :: idx(height, data, view) != []
  }

  predicate TwoWalks(s: State) {
    s.fetcher.Looking? && s.handler.Handling?
  }

  predicate WalksBelow(w: Walker, tip: nat) {
    BelowTip(w, tip) && (w.Asking? ==> 0 < w.check <= tip)
  }

  /** Exact records with a manifest each. */
  ghost predicate AllListed(st: Storage) {
    NoStale(st) && (st != EMPTY_STORAGE ==> forall h: nat :: h <= st.tip ==> h in st.listed)
  }

  ghost predicate OrderlyWith(st: Storage, fetching: Walker, handling: Walker) {
    AllListed(st) && WalksBelow(fetching, st.tip) && WalksBelow(handling, st.tip)
  }

  /** Such records, and every walk reading below the tip. */
  ghost predicate Orderly(s: State) {
    OrderlyWith(s.st, WalkerOf(s, ByFetcher), WalkerOf(s, ByHandler))
  }

  lemma {:induction false} CutStaysListed(st: Storage, height: nat)
    requires ChainStored(st) && AllListed(st) && st != EMPTY_STORAGE && height <= st.tip
    ensures AllListed(RollbackTo(st, height))
  {
    RollbackExactIff(st, height);
  }

  lemma {:induction false} CommitStaysListed(st: Storage, height: nat, hash: BlockHash, writes: seq<Write>)
    requires AllListed(st) && writes != []
    requires if st == EMPTY_STORAGE then height == 0 else height == st.tip + 1
    ensures AllListed(Commit(st, height, hash, writes))
  {
  }

  lemma {:induction false} OrderlyWalk(cfg: Config, s: State, task: Task, step: Step)
    requires Orderly(s) && (step == WalkReads(task) || step == WalkHears(task))
    ensures Orderly(Next(cfg, s, step))
  {
    var w := WalkerOf(s, task);
    if step.WalkReads? && w.Reading? {
      ReadStaysBelow(w, s.st, cfg.maxDepth, s.st.tip);
      assert WalksBelow(ReadLocal(w, s.st, cfg.maxDepth), s.st.tip);
    } else if step.WalkHears? && w.Asking? {
      HearStaysBelowIff(w, RemoteHash(s.node, w.check), s.st.tip);
      assert WalksBelow(HearRemote(w, RemoteHash(s.node, w.check)), s.st.tip);
    }
  }

  lemma {:induction false} OrderlyCommit(cfg: Config, s: State)
    requires AlwaysWrites(cfg.indexer) && Sound(cfg, s) && Orderly(s) && !LeavesGap(s, AttemptCommits)
    requires s.processor.Trying? && InOrder(s.st, s.processor.item.height)
    ensures Orderly(CommitTried(cfg, s))
  {
    var item := s.processor.item;
    if s.st != EMPTY_STORAGE {
      ChainIsGapless(s.st);
    }
    CommitStaysListed(s.st, item.height, item.block.claimed, Writes(cfg, s.st.versions, item));
  }

  lemma {:induction false} CutStepIs(cfg: Config, s: State, task: Task, refreshed: bool)
    requires !TwoWalks(s) && WalkerOf(s, task).Cutting?
    ensures var after := Next(cfg, s, WalkCuts(task, refreshed));
            && after.st == RollbackTo(s.st, WalkerOf(s, task).height)
            && (WalkerOf(after, ByFetcher).Done? || WalkerOf(after, ByFetcher).Rest?)
            && (WalkerOf(after, ByHandler).Done? || WalkerOf(after, ByHandler).Rest?)
  {
  }

  lemma {:induction false} OrderlyCutStep(cfg: Config, s: State, task: Task, refreshed: bool)
    requires Sound(cfg, s) && Orderly(s) && !TwoWalks(s) && WalkerOf(s, task).Cutting?
    ensures Orderly(Next(cfg, s, WalkCuts(task, refreshed)))
  {
    CutStepIs(cfg, s, task, refreshed);
    CutStaysListed(s.st, WalkerOf(s, task).height);
  }

  lemma {:induction false} HealStaysListed(st: Storage, safe: nat)
    requires (st == EMPTY_STORAGE || ChainStored(st)) && AllListed(st) && safe <= st.tip
    ensures AllListed(RollbackTo(st, safe).(runtimeTip := safe))
  {
    if st != EMPTY_STORAGE {
      CutStaysListed(st, safe);
    }
  }

  lemma {:induction false} RestartRests(cfg: Config, s: State)
    ensures WalkerOf(Next(cfg, s, Restart), ByFetcher).Rest? && WalkerOf(Next(cfg, s, Restart), ByHandler).Rest?
  {
    HealIsSafe(s.st, s.node, cfg.maxDepth);
  }

  lemma {:induction false} OrderlyRestart(cfg: Config, s: State)
    requires Sound(cfg, s) && AllListed(s.st)
    ensures Orderly(Next(cfg, s, Restart))
  {
    RestartMoves(cfg, s);
    RestartRests(cfg, s);
    HealStaysListed(s.st, Next(cfg, s, Restart).st.tip);
  }

  lemma {:induction false} OrderlyQuiet(cfg: Config, s: State, step: Step)
    requires Orderly(s)
    requires !step.AttemptCommits? && !step.WalkCuts? && !step.Restart? && !Kills(step)
    requires !step.WalkReads? && !step.WalkHears?
    ensures Orderly(Next(cfg, s, step))
  {
  }

  lemma {:induction false} OrderlyStep(cfg: Config, s: State, step: Step)
    requires AlwaysWrites(cfg.indexer) && InvUp(cfg, s) && Orderly(s) && !LeavesGap(s, step) && !TwoWalks(s)
    requires !Kills(step)
    ensures Orderly(Next(cfg, s, step))
  {
    match step
    case AttemptCommits =>
      if s.processor.Trying? && InOrder(s.st, s.processor.item.height) {
        OrderlyCommit(cfg, s);
      }
    case WalkReads(task) => OrderlyWalk(cfg, s, task, step);
    case WalkHears(task) => OrderlyWalk(cfg, s, task, step);
    case WalkCuts(task, refreshed) =>
      if WalkerOf(s, task).Cutting? {
        OrderlyCutStep(cfg, s, task, refreshed);
      }
    case Restart => OrderlyRestart(cfg, s);
    case _ => OrderlyQuiet(cfg, s, step);
  }

  lemma OrderlyBreaksNothing(cfg: Config, s: State, step: Step)
    requires InvUp(cfg, s) && Orderly(s) && !LeavesGap(s, step)
    ensures !Breaking(cfg, s, step)
  {
  }

  /**
   With a program that writes in every block, one walk at a time and no process killed inside a
   rollback, no step can break a run: under an installed policy every such run, of any length and
   interleaving, is sound throughout, with exact records.
   */
  lemma {:induction false} OneWalkRunsAreSound(cfg: Config, node: Node, steps: seq<Step>, n: nat)
    requires !cfg.policy.Inline? && AlwaysWrites(cfg.indexer) && n <= |steps|
    requires forall i :: 0 <= i <= |steps| ==> !TwoWalks(At(cfg, Start(node), steps, i))
    requires forall i :: 0 <= i < |steps| ==> !Kills(steps[i])
    ensures InvUp(cfg, At(cfg, Start(node), steps, n)) && Orderly(At(cfg, Start(node), steps, n))
  {
    if n > 0 {
      OneWalkRunsAreSound(cfg, node, steps, n - 1);
      AtNext(cfg, Start(node), steps, n - 1);
      var before := At(cfg, Start(node), steps, n - 1);
      NoGapUnlessInline(cfg, before, steps[n - 1]);
      OrderlyStep(cfg, before, steps[n - 1]);
      OrderlyBreaksNothing(cfg, before, steps[n - 1]);
      if steps[n - 1].Restart? {
        RestartStepInvIff(cfg, before);
      } else {
        UpStepInvIff(cfg, before, steps[n - 1]);
      }
    }
  }
}
