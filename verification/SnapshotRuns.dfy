/**
 Runs of the snapshot engine, whose cursor follows its own commits and the fetcher's rollbacks but
 not those of the result handler: what the staleness guard passes over, and when a rollback by
 the handler leaves an engine that can go on from the new tip.
 */
module SnapshotRuns {
  import opened Basics
  import opened Versions
  import opened SyncStorage
  import opened Reorg
  import opened ReorgWalk
  import opened SyncEngine
  import opened EngineRuns
  import opened EngineSoundness
  import opened EngineRestart

  // ---------------------------------------------------------------- what the guard passes over

  /** Taken up as the only waiting block, the item is accepted and then reported as a success without a commit. */
  predicate PassesOver(cfg: Config, s: State, item: Item) {
    var tried := Next(cfg, s.(waiting := {item}, reports := {}), Validate(item));
    tried.processor == Trying(item) && Success(item.height) in Next(cfg, tried, SkipStale).reports
  }

  /**
   The guard takes a block below the cursor for applied. It can pass over a block that is not
   stored if and only if the cursor is more than one above the tip.
   */
  lemma {:induction false} PassesOverUnstoredIff(cfg: Config, s: State)
    requires cfg.snapshot && Sound(cfg, s) && s.st != EMPTY_STORAGE && s.processor.Free?
    ensures (exists item :: PassesOver(cfg, s, item) && item.height > s.st.tip) <==> s.cursor > s.st.tip + 1
  {
    if s.cursor > s.st.tip + 1 {
      var item := Item(s.st.tip + 1, BlockOf(FittingHeader(cfg, s.st)));
      assert Linked(s.st, s.st.tip);
      assert Accepts(cfg.policy, s.st, item.height, item.block);
      assert PassesOver(cfg, s, item);
    }
  }

  // ---------------------------------------------------------------- a cursor left above the tip

  /** The node contradicts no record. */
  ghost predicate Confirms(st: Storage, node: Node) {
    forall h: nat :: !Contradicts(st, node, h)
  }

  /** A walk that has met no contradiction and compares with what is stored. */
  predicate Harmless(w: Walker, st: Storage) {
    match w
    case Reading(_, _, detected) => !detected
    case Asking(_, check, detected, local) => !detected && check in st.hashes && st.hashes[check] == local
    case Cutting(_, _) => false
    case _ => true
  }

  /** What the fetcher will resume from lies above `low`. */
  predicate ResumesAbove(fetcher: Fetcher, low: nat) {
    match fetcher
    case Idle => true
    case Down => true
    case Ready(current) => current > low
    case Looking(w) =>
      match w
      case Reading(current, _, _) => current > low
      case Asking(current, _, _, _) => current > low
      case Done(_, next) => next > low
      case _ => true
  }

  /** The cursor is more than one above the tip, and the block that would fit on the tip is nowhere. */
  ghost predicate Stranded(cfg: Config, s: State) {
    && cfg.snapshot && 0 in s.st.hashes && Confirms(s.st, s.node) && s.cursor > s.st.tip + 1
    && ResumesAbove(s.fetcher, s.st.tip + 1)
    && Harmless(WalkerOf(s, ByFetcher), s.st) && Harmless(WalkerOf(s, ByHandler), s.st)
    && (forall item :: item in s.waiting ==> item.height != s.st.tip + 1)
    && (s.processor.Trying? ==> s.processor.item.height != s.st.tip + 1) && !s.processor.Stored?
  }

  /**
   No restart, no node that contradicts what is stored, and blocks are fetched ahead from the
   cursor on, as the range computation does.
   */
  ghost predicate Quiet(s: State, step: Step) {
    match step
    case Restart => false
    case HealKilled(_) => false
    case HealKilledLate => false
    case NodeChanges(node) => Confirms(s.st, node)
    case Prefetch(height) => height >= s.cursor
    case _ => true
  }

  ghost predicate QuietRun(cfg: Config, s: State, steps: seq<Step>) {
    forall i :: 0 <= i < |steps| ==> Quiet(At(cfg, s, steps, i), steps[i])
  }

  lemma {:induction false} ReadStaysStranded(cfg: Config, s: State, task: Task)
    requires Stranded(cfg, s)
    ensures Stranded(cfg, Next(cfg, s, WalkReads(task))) && Next(cfg, s, WalkReads(task)).st == s.st
  {
    var w := WalkerOf(s, task);
    assert Harmless(ReadLocal(w, s.st, cfg.maxDepth), s.st);
  }

  lemma {:induction false} HearStaysStranded(cfg: Config, s: State, task: Task)
    requires Stranded(cfg, s)
    ensures Stranded(cfg, Next(cfg, s, WalkHears(task))) && Next(cfg, s, WalkHears(task)).st == s.st
  {
    var w := WalkerOf(s, task);
    if w.Asking? {
      assert !Contradicts(s.st, s.node, w.check);
      assert HearRemote(w, RemoteHash(s.node, w.check)) == Done(w.current, w.current);
    }
  }

  lemma {:induction false} FetchingStaysStranded(cfg: Config, s: State, step: Step)
    requires Stranded(cfg, s) && Quiet(s, step)
    requires step.SkipCheck? || step.StartCheck? || step.Fetch? || step.Prefetch?
    ensures Stranded(cfg, Next(cfg, s, step)) && Next(cfg, s, step).st == s.st
  {
  }

  lemma {:induction false} BlocksStayStranded(cfg: Config, s: State, step: Step)
    requires Stranded(cfg, s)
    requires step.Validate? || step.AttemptCommits? || step.SkipStale? || step.GiveUp? || step.ReportStored?
    ensures Stranded(cfg, Next(cfg, s, step)) && Next(cfg, s, step).st == s.st && !Commits(s, step)
  {
  }

  lemma {:induction false} StrandedStays(cfg: Config, s: State, step: Step)
    requires Stranded(cfg, s) && Quiet(s, step)
    ensures Stranded(cfg, Next(cfg, s, step)) && Next(cfg, s, step).st == s.st && !Commits(s, step)
  {
    match step
    case WalkReads(task) => ReadStaysStranded(cfg, s, task);
    case WalkHears(task) => HearStaysStranded(cfg, s, task);
    case SkipCheck => FetchingStaysStranded(cfg, s, step);
    case StartCheck => FetchingStaysStranded(cfg, s, step);
    case Fetch(_) => FetchingStaysStranded(cfg, s, step);
    case Prefetch(_) => FetchingStaysStranded(cfg, s, step);
    case Validate(_) => BlocksStayStranded(cfg, s, step);
    case AttemptCommits => BlocksStayStranded(cfg, s, step);
    case SkipStale => BlocksStayStranded(cfg, s, step);
    case GiveUp => BlocksStayStranded(cfg, s, step);
    case ReportStored => BlocksStayStranded(cfg, s, step);
    case _ =>
  }

  lemma {:induction false} StrandedForever(cfg: Config, s: State, steps: seq<Step>, n: nat)
    requires Stranded(cfg, s) && QuietRun(cfg, s, steps) && n <= |steps|
    ensures Stranded(cfg, At(cfg, s, steps, n)) && At(cfg, s, steps, n).st == s.st
    ensures n < |steps| ==> !Commits(At(cfg, s, steps, n), steps[n])
  {
    if n > 0 {
      StrandedForever(cfg, s, steps, n - 1);
      AtNext(cfg, s, steps, n - 1);
      StrandedStays(cfg, At(cfg, s, steps, n - 1), steps[n - 1]);
    }
    if n < |steps| {
      StrandedStays(cfg, At(cfg, s, steps, n), steps[n]);
    }
  }
}
