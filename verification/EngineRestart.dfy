/**
 What can happen after a restart: from which storage and node the engine can commit another block,
 and from which it never will.
 */
module EngineRestart {
  import opened Basics
  import opened Versions
  import opened SyncStorage
  import opened Reorg
  import opened ReorgWalk
  import opened Heal
  import opened SyncEngine
  import opened EngineRuns
  import opened EngineSoundness

  /** A step that commits a block. */
  predicate Commits(s: State, step: Step) {
    step.AttemptCommits? && s.processor.Trying? && InOrder(s.st, s.processor.item.height)
  }

  ghost predicate CommitsIn(cfg: Config, s: State, steps: seq<Step>) {
    exists i :: 0 <= i < |steps| && Commits(At(cfg, s, steps, i), steps[i])
  }

  /** Fetches only at the fetcher's own height: no floor above 0 and nothing fetched ahead above 0. */
  predicate Floorless(steps: seq<Step>) {
    forall i :: 0 <= i < |steps| ==>
      && (steps[i].Fetch? && steps[i].floor.Some? ==> steps[i].floor.value == 0)
      && (steps[i].Prefetch? ==> steps[i].height == 0)
  }

  /** Only block 0 is below the tip pointer, and everything in flight is about height 0. */
  ghost predicate StuckAtGenesis(s: State) {
    && s.st.tip == 0 && 0 in s.st.hashes && s.cursor == 0
    && (s.fetcher.Looking? ==> s.fetcher.walker == Done(0, 0)) && (s.fetcher.Ready? ==> s.fetcher.current == 0)
    && (forall item :: item in s.waiting ==> item.height == 0)
    && (s.processor.Trying? ==> s.processor.item.height == 0) && !s.processor.Stored?
    && (forall report :: report in s.reports ==> report.Failed? && report.height == 0)
    && (s.handler.Handling? ==> s.handler.walker == Done(0, 0))
  }

  lemma {:induction false} StuckRestarts(cfg: Config, s: State, step: Step)
    requires StuckAtGenesis(s) && (step.Restart? || Kills(step))
    ensures StuckAtGenesis(Next(cfg, s, step))
  {
    HealIsSafe(s.st, s.node, cfg.maxDepth);
  }

  lemma {:induction false} StuckWalks(cfg: Config, s: State, step: Step)
    requires StuckAtGenesis(s) && (step.WalkReads? || step.WalkHears? || step.WalkCuts? || step.WalkEnds?)
    ensures StuckAtGenesis(Next(cfg, s, step))
  {
  }

  lemma {:induction false} StuckStays(cfg: Config, s: State, step: Step)
    requires StuckAtGenesis(s) && Floorless([step])
    ensures StuckAtGenesis(Next(cfg, s, step)) && !Commits(s, step)
  {
    assert [step][0] == step;
    if step.Restart? || Kills(step) {
      StuckRestarts(cfg, s, step);
    } else if step.WalkReads? || step.WalkHears? || step.WalkCuts? || step.WalkEnds? {
      StuckWalks(cfg, s, step);
    }
  }

  lemma {:induction false} StuckForever(cfg: Config, s: State, steps: seq<Step>, n: nat)
    requires StuckAtGenesis(s) && Floorless(steps) && n <= |steps|
    ensures StuckAtGenesis(At(cfg, s, steps, n))
    ensures n < |steps| ==> !Commits(At(cfg, s, steps, n), steps[n])
  {
    if n > 0 {
      StuckForever(cfg, s, steps, n - 1);
      AtNext(cfg, s, steps, n - 1);
      assert [steps[n - 1]][0] == steps[n - 1];
      StuckStays(cfg, At(cfg, s, steps, n - 1), steps[n - 1]);
    }
    if n < |steps| {
      StuckStays(cfg, At(cfg, s, steps, n), steps[n]);
    }
  }

  // ---------------------------------------------------------------- a run that commits

  /** A genuine block with the given header and nothing in it. */
  function BlockOf(header: Header): NodeBlock {
    NodeBlock(HashOf(header), header, [])
  }

  /** The node serves the block, the fetcher fetches it under `floor`, and it is validated and committed. */
  function CommittingSteps(height: nat, header: Header, floor: Option<nat>): seq<Step> {
    [NodeChanges(Node(map[height := BlockOf(header)], true)), SkipCheck, Fetch(floor),
     Validate(Item(height, BlockOf(header))), AttemptCommits]
  }

  lemma {:induction false} CommittingRun(cfg: Config, s: State, height: nat, header: Header, floor: Option<nat>)
    requires s.fetcher.Idle? && s.processor.Free? && FetchHeight(s.cursor, floor) == height && InOrder(s.st, height)
    requires Accepts(cfg.policy, s.st, height, BlockOf(header))
    ensures CommitsIn(cfg, s, CommittingSteps(height, header, floor))
  {
    var steps := CommittingSteps(height, header, floor);
    assert At(cfg, s, steps, 0) == s;
    AtNext(cfg, s, steps, 0);
    AtNext(cfg, s, steps, 1);
    AtNext(cfg, s, steps, 2);
    AtNext(cfg, s, steps, 3);
    assert Item(height, BlockOf(header)) in At(cfg, s, steps, 3).waiting;
    assert Commits(At(cfg, s, steps, 4), steps[4]);
  }

  /** A header that fits on the stored tip, or starts the chain. */
  function FittingHeader(cfg: Config, st: Storage): Header {
    if st.tip in st.hashes then Header(st.hashes[st.tip], [])
    else if cfg.policy.Anchored? then cfg.policy.genesis
    else Header(NoHash, [])
  }

  /** As a restart leaves the engine: nothing under way, the cursor behind the tip or at 0. */
  predicate JustStarted(s: State) {
    && s.fetcher.Idle? && s.waiting == {} && s.processor.Free? && s.reports == {} && s.handler.Waiting?
    && s.cursor == ResumeFrom(s.st.tip, 0)
  }

  lemma {:induction false} RestartStarts(cfg: Config, s: State)
    ensures JustStarted(Next(cfg, s, Restart))
    ensures Next(cfg, s, Restart).st.tip == SafeHeight(s.st, s.node, cfg.maxDepth)
  {
    HealIsSafe(s.st, s.node, cfg.maxDepth);
  }

  lemma {:induction false} RestartSound(cfg: Config, s: State)
    requires Inv(cfg, s) && !RestartMisses(cfg, s, Restart)
    ensures Sound(cfg, Next(cfg, s, Restart))
    ensures s.st == EMPTY_STORAGE <==> Next(cfg, s, Restart).st == EMPTY_STORAGE
    ensures s.st != EMPTY_STORAGE ==> Gapless(s.st)
  {
    InvRecovers(cfg, s);
    RestartSoundIff(cfg, s);
  }

  lemma {:induction false} FittingIsAccepted(cfg: Config, st: Storage, height: nat)
    requires st == EMPTY_STORAGE || ChainStored(st)
    requires if st == EMPTY_STORAGE then height == 0 else height == st.tip + 1
    ensures Accepts(cfg.policy, st, height, BlockOf(FittingHeader(cfg, st))) && InOrder(st, height)
  {
    if st != EMPTY_STORAGE {
      assert Linked(st, st.tip);
    }
  }

  lemma {:induction false} NoFloorCommitting(height: nat, header: Header)
    ensures Floorless(CommittingSteps(height, header, None))
  {
    assert CommittingSteps(height, header, None)[2] == Fetch(None);
  }

  lemma {:induction false} StartAdvances(cfg: Config, s: State)
    requires JustStarted(s) && Sound(cfg, s) && (s.st == EMPTY_STORAGE || s.st.tip > 0)
    ensures exists steps :: Floorless(steps) && CommitsIn(cfg, s, steps)
  {
    var header := FittingHeader(cfg, s.st);
    FittingIsAccepted(cfg, s.st, s.cursor);
    CommittingRun(cfg, s, s.cursor, header, None);
    NoFloorCommitting(s.cursor, header);
  }

  lemma {:induction false} StartStuck(cfg: Config, s: State, steps: seq<Step>)
    requires JustStarted(s) && Sound(cfg, s) && s.st != EMPTY_STORAGE && s.st.tip == 0 && Floorless(steps)
    ensures !CommitsIn(cfg, s, steps)
  {
    assert Linked(s.st, 0);
    forall i | 0 <= i < |steps| ensures !Commits(At(cfg, s, steps, i), steps[i]) {
      StuckForever(cfg, s, steps, i);
    }
  }

  lemma {:induction false} StartAdvancesIff(cfg: Config, s: State)
    requires JustStarted(s) && Sound(cfg, s)
    ensures (exists steps :: Floorless(steps) && CommitsIn(cfg, s, steps)) <==> s.st == EMPTY_STORAGE || s.st.tip > 0
  {
    if s.st == EMPTY_STORAGE || s.st.tip > 0 {
      StartAdvances(cfg, s);
    } else {
      forall steps | Floorless(steps) ensures !CommitsIn(cfg, s, steps) {
        StartStuck(cfg, s, steps);
      }
    }
  }

  /**
   After a restart, a process killed inside a rollback before it or not, some run without floors
   commits another block if and only if the store was empty, or the heal stops above height 0: a
   condition on storage and node before the restart.
   */
  lemma {:induction false} RestartAdvancesIff(cfg: Config, s: State)
    requires Inv(cfg, s) && !RestartMisses(cfg, s, Restart)
    ensures (exists steps :: Floorless(steps) && CommitsIn(cfg, Next(cfg, s, Restart), steps)) <==>
            s.st == EMPTY_STORAGE || StopsAboveZero(s.st, s.node, cfg.maxDepth)
  {
    RestartStarts(cfg, s);
    RestartSound(cfg, s);
    StartAdvancesIff(cfg, Next(cfg, s, Restart));
    if s.st != EMPTY_STORAGE {
      HealedAboveZeroIff(s.st, s.node, cfg.maxDepth);
    }
  }

  lemma {:induction false} FloorStarts(cfg: Config, s: State)
    requires JustStarted(s) && Sound(cfg, s) && s.st != EMPTY_STORAGE
    ensures exists steps :: CommitsIn(cfg, s, steps)
  {
    var height: nat, header := s.st.tip + 1, FittingHeader(cfg, s.st);
    FittingIsAccepted(cfg, s.st, height);
    CommittingRun(cfg, s, height, header, Some(height));
  }

  /** A floor of one above the tip lets every restart be followed by a commit, from a tip of 0 too. */
  lemma {:induction false} FloorAdvances(cfg: Config, s: State)
    requires Inv(cfg, s) && !RestartMisses(cfg, s, Restart) && s.st != EMPTY_STORAGE
    ensures exists steps :: CommitsIn(cfg, Next(cfg, s, Restart), steps)
  {
    RestartStarts(cfg, s);
    RestartSound(cfg, s);
    FloorStarts(cfg, Next(cfg, s, Restart));
  }
}
