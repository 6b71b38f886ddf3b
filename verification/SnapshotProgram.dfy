/**
 The snapshot engine inside its program. The program's fetcher remembers the highest height it has
 sent to the processor and never sends at or below it again, until the result handler finishes a
 reorg check without an error and forgets it. When the program can go on from the tip it has.
 */
module SnapshotProgram {
  import opened Basics
  import opened Versions
  import opened SyncStorage
  import opened Reorg
  import opened ReorgWalk
  import opened SyncEngine
  import opened EngineRuns
  import opened EngineSoundness
  import opened EngineRestart
  import opened SnapshotRuns
  import EngineCalls

  datatype Program = Program(engine: State, sent: Option<nat>)

  /** The lowest height the fetcher may send. */
  function MinSend(sent: Option<nat>): nat {
    if sent.None? then 0 else sent.value + 1
  }

  /** Where fetching ahead goes on: above what was sent, and not below the cursor. */
  function NextHeight(p: Program): nat {
    FetchHeight(p.engine.cursor, Some(MinSend(p.sent)))
  }

  /** The engine's step in a step of the program, whose fetches are bound to the heights above. */
  function EngineStep(p: Program, step: Step): Step {
    match step
    case Fetch(_) => Fetch(Some(MinSend(p.sent)))
    case Prefetch(height) => if height == NextHeight(p) then step else AttemptFails
    case _ => step
  }

  /** The height a step fetches and sends. */
  function SendsHeight(p: Program, step: Step): Option<nat> {
    var height := match EngineStep(p, step)
      case Fetch(floor) => if p.engine.fetcher.Ready? then Some(FetchHeight(p.engine.fetcher.current, floor)) else None
      case Prefetch(height) => if p.engine.fetcher.Idle? then Some(height) else None
      case _ => None;
    if height.Some? && p.engine.node.connected && height.value in p.engine.node.blocks then height else None
  }

  /** The handler finishes a reorg check, or there is a new process. */
  predicate Forgets(p: Program, step: Step) {
    (step == WalkEnds(ByHandler) && WalkerOf(p.engine, ByHandler).Done?) || step.Restart?
  }

  function NextProgram(cfg: Config, p: Program, step: Step): Program {
    Program(Next(cfg, p.engine, EngineStep(p, step)),
            if Forgets(p, step) then None
            else if SendsHeight(p, step).None? then p.sent
            else if SendsHeight(p, step).value < MinSend(p.sent) then p.sent
            else SendsHeight(p, step))
  }

  function RunProgram(cfg: Config, p: Program, steps: seq<Step>): Program {
    if steps == [] then p
    else NextProgram(cfg, RunProgram(cfg, p, steps[..|steps| - 1]), steps[|steps| - 1])
  }

  /** Every block is what it claims to be. */
  ghost predicate Genuine(node: Node) {
    forall h :: h in node.blocks ==> node.blocks[h].claimed == HashOf(node.blocks[h].header)
  }

  /** No restart, and no node that contradicts what is stored or serves forged blocks. */
  ghost predicate QuietProgram(p: Program, step: Step) {
    Quiet(p.engine, EngineStep(p, step)) && (step.NodeChanges? ==> Genuine(step.node))
  }

  ghost predicate QuietSteps(cfg: Config, p: Program, steps: seq<Step>) {
    steps == [] ||
    (QuietSteps(cfg, p, steps[..|steps| - 1]) &&
     QuietProgram(RunProgram(cfg, p, steps[..|steps| - 1]), steps[|steps| - 1]))
  }

  /** Some such run comes to an attempt that commits. */
  ghost predicate GoesOn(cfg: Config, p: Program) {
    exists steps :: QuietSteps(cfg, p, steps) && Commits(RunProgram(cfg, p, steps).engine, AttemptCommits)
  }

  lemma {:induction false} RunsAppend(cfg: Config, p: Program, a: seq<Step>, b: seq<Step>)
    ensures RunProgram(cfg, p, a + b) == RunProgram(cfg, RunProgram(cfg, p, a), b)
    ensures QuietSteps(cfg, p, a) && QuietSteps(cfg, RunProgram(cfg, p, a), b) ==> QuietSteps(cfg, p, a + b)
    decreases |b|
  {
    if b == [] {
      assert a + b == a;
    } else {
      assert (a + b)[..|a + b| - 1] == a + b[..|b| - 1];
      RunsAppend(cfg, p, a, b[..|b| - 1]);
    }
  }

  lemma {:induction false} OneStep(cfg: Config, p: Program, step: Step)
    ensures RunProgram(cfg, p, [step]) == NextProgram(cfg, p, step)
    ensures QuietProgram(p, step) ==> QuietSteps(cfg, p, [step])
  {
    assert [step][..0] == [];
    assert RunProgram(cfg, p, []) == p;
  }

  lemma {:induction false} GoesOnAfter(cfg: Config, p: Program, steps: seq<Step>)
    requires QuietSteps(cfg, p, steps) && GoesOn(cfg, RunProgram(cfg, p, steps))
    ensures GoesOn(cfg, p)
  {
    var after := RunProgram(cfg, p, steps);
    var rest :| QuietSteps(cfg, after, rest) && Commits(RunProgram(cfg, after, rest).engine, AttemptCommits);
    RunsAppend(cfg, p, steps, rest);
  }

  // ---------------------------------------------------------------- when it does not

  lemma {:induction false} StrandedRun(cfg: Config, p: Program, steps: seq<Step>)
    requires Stranded(cfg, p.engine) && QuietSteps(cfg, p, steps)
    ensures Stranded(cfg, RunProgram(cfg, p, steps).engine)
  {
    if steps != [] {
      var before, step := RunProgram(cfg, p, steps[..|steps| - 1]), steps[|steps| - 1];
      StrandedRun(cfg, p, steps[..|steps| - 1]);
      StrandedStays(cfg, before.engine, EngineStep(before, step));
    }
  }

  /** A block that lies above the next height and is what it claims to be. */
  predicate Ahead(st: Storage, item: Item) {
    item.height > st.tip + 1 && item.block.claimed == HashOf(item.block.header)
  }

  predicate CallsHandler(report: Report) {
    report.Failed? && report.why.Disconnected?
  }

  /**
   Without a policy, the next height already sent and not stored: everything sent from now on lies
   above it, is accepted for want of a parent record, and is refused as out of order, which
   does not call the handler.
   */
  ghost predicate Starved(cfg: Config, p: Program) {
    var s := p.engine;
    && cfg.snapshot && cfg.policy.Inline? && 0 in s.st.hashes && NoStale(s.st)
    && Confirms(s.st, s.node) && Genuine(s.node) && MinSend(p.sent) > s.st.tip + 1
    && Harmless(WalkerOf(s, ByFetcher), s.st) && s.handler.Waiting?
    && (forall report :: report in s.reports ==> !CallsHandler(report))
    && (forall item :: item in s.waiting ==> Ahead(s.st, item))
    && (s.processor.Trying? ==> Ahead(s.st, s.processor.item)) && !s.processor.Stored?
  }

  lemma {:induction false} StarvedFetches(cfg: Config, p: Program, step: Step)
    requires Starved(cfg, p) && (step.Fetch? || step.Prefetch?)
    ensures Starved(cfg, NextProgram(cfg, p, step))
  {
  }

  lemma {:induction false} StarvedBlocks(cfg: Config, p: Program, step: Step)
    requires Starved(cfg, p)
    requires step.Validate? || step.AttemptCommits? || step.SkipStale? || step.GiveUp? || step.ReportStored? || step.TakeReport?
    ensures Starved(cfg, NextProgram(cfg, p, step))
  {
  }

  lemma {:induction false} StarvedWalks(cfg: Config, p: Program, step: Step)
    requires Starved(cfg, p)
    requires step.WalkReads? || step.WalkHears? || step.WalkCuts? || step.WalkEnds? || step.WalkKilled?
    ensures Starved(cfg, NextProgram(cfg, p, step))
  {
    var w := WalkerOf(p.engine, ByFetcher);
    if w.Asking? {
      assert !Contradicts(p.engine.st, p.engine.node, w.check);
      assert HearRemote(w, RemoteHash(p.engine.node, w.check)) == Done(w.current, w.current);
    }
    assert Harmless(ReadLocal(w, p.engine.st, cfg.maxDepth), p.engine.st);
  }

  lemma {:induction false} StarvedStays(cfg: Config, p: Program, step: Step)
    requires Starved(cfg, p) && QuietProgram(p, step)
    ensures Starved(cfg, NextProgram(cfg, p, step))
  {
    if step.Fetch? || step.Prefetch? {
      StarvedFetches(cfg, p, step);
    } else if step.WalkReads? || step.WalkHears? || step.WalkCuts? || step.WalkEnds? || step.WalkKilled? {
      StarvedWalks(cfg, p, step);
    } else if !(step.NodeChanges? || step.SkipCheck? || step.StartCheck? || step.AttemptFails?) {
      StarvedBlocks(cfg, p, step);
    }
  }

  lemma {:induction false} StarvedRun(cfg: Config, p: Program, steps: seq<Step>)
    requires Starved(cfg, p) && QuietSteps(cfg, p, steps)
    ensures Starved(cfg, RunProgram(cfg, p, steps))
  {
    if steps != [] {
      StarvedRun(cfg, p, steps[..|steps| - 1]);
      StarvedStays(cfg, RunProgram(cfg, p, steps[..|steps| - 1]), steps[|steps| - 1]);
    }
  }

  // ---------------------------------------------------------------- when it does

  /** Nothing is under way, and what waits lies above the next height. */
  ghost predicate AtRest(cfg: Config, p: Program) {
    var s := p.engine;
    && cfg.snapshot && Sound(cfg, s) && s.st != EMPTY_STORAGE && NoStale(s.st)
    && (forall h :: h in s.st.hashes ==> s.st.hashes[h].HashOf?)
    && Confirms(s.st, s.node) && Genuine(s.node)
    && s.fetcher.Idle? && s.processor.Free? && s.handler.Waiting?
    && (forall report :: report in s.reports ==> !CallsHandler(report))
    && (forall item :: item in s.waiting ==> Ahead(s.st, item))
  }

  function ServedHeader(cfg: Config, st: Storage, h: nat): Header {
    if h <= st.tip && h in st.hashes && st.hashes[h].HashOf? then st.hashes[h].header else FittingHeader(cfg, st)
  }

  /** A node that serves the stored blocks and one that fits on them. */
  function Serving(cfg: Config, st: Storage): Node {
    Node(map h: nat | h <= st.tip + 1 :: BlockOf(ServedHeader(cfg, st, h)), true)
  }

  lemma {:induction false} ServingConfirms(cfg: Config, st: Storage)
    requires NoStale(st) && forall h :: h in st.hashes ==> st.hashes[h].HashOf?
    ensures Confirms(st, Serving(cfg, st)) && Genuine(Serving(cfg, st))
  {
    forall h: nat ensures !Contradicts(st, Serving(cfg, st), h) {
    }
  }

  /** The stored block at a height, or at the next height the one that fits. */
  function Served(cfg: Config, st: Storage, height: nat): Item {
    Item(height, BlockOf(ServedHeader(cfg, st, height)))
  }

  /** `q` is `p` with more blocks waiting, and everything up to `height` sent. */
  ghost predicate HasFetched(p: Program, q: Program, height: nat) {
    && p.engine.waiting <= q.engine.waiting && q.engine == p.engine.(waiting := q.engine.waiting)
    && q.sent == Some(height)
  }

  lemma {:induction false} FetchesNext(cfg: Config, p: Program, m: nat)
    requires p.engine.fetcher.Idle? && p.engine.node == Serving(cfg, p.engine.st)
    requires m == NextHeight(p) <= p.engine.st.tip + 1
    ensures var q := RunProgram(cfg, p, [Prefetch(m)]);
            HasFetched(p, q, m) && NextHeight(q) == m + 1 && Served(cfg, p.engine.st, m) in q.engine.waiting
    ensures QuietSteps(cfg, p, [Prefetch(m)])
  {
    OneStep(cfg, p, Prefetch(m));
  }

  /** The heights up to the next one are fetched ahead, one after the other. */
  lemma {:induction false} FetchesUpTo(cfg: Config, p: Program, m: nat, top: nat) returns (steps: seq<Step>)
    requires p.engine.fetcher.Idle? && p.engine.node == Serving(cfg, p.engine.st)
    requires m == NextHeight(p) <= top == p.engine.st.tip + 1
    ensures QuietSteps(cfg, p, steps)
    ensures var q := RunProgram(cfg, p, steps); HasFetched(p, q, top) && Served(cfg, p.engine.st, top) in q.engine.waiting
    decreases top - m
  {
    steps := [Prefetch(m)];
    FetchesNext(cfg, p, m);
    if m < top {
      var next := RunProgram(cfg, p, steps);
      var rest := FetchesUpTo(cfg, next, m + 1, top);
      RunsAppend(cfg, p, steps, rest);
      steps := steps + rest;
    }
  }

  /** A waiting block that fits on the tip is validated and committed. */
  lemma {:induction false} WaitingCommits(cfg: Config, p: Program, item: Item)
    requires p.engine.processor.Free? && item in p.engine.waiting
    requires Accepts(cfg.policy, p.engine.st, item.height, item.block) && InOrder(p.engine.st, item.height)
    ensures GoesOn(cfg, p)
  {
    OneStep(cfg, p, Validate(item));
    var tried := RunProgram(cfg, p, [Validate(item)]).engine;
    assert tried.processor == Trying(item) && tried.st == p.engine.st;
  }

  lemma {:induction false} ServedGoesOn(cfg: Config, p: Program)
    requires p.engine.fetcher.Idle? && p.engine.processor.Free? && p.engine.node == Serving(cfg, p.engine.st)
    requires ChainStored(p.engine.st) && p.engine.st != EMPTY_STORAGE && NoStale(p.engine.st)
    requires NextHeight(p) <= p.engine.st.tip + 1
    ensures GoesOn(cfg, p)
  {
    var st := p.engine.st;
    var height: nat := st.tip + 1;
    var steps := FetchesUpTo(cfg, p, NextHeight(p), height);
    FittingIsAccepted(cfg, st, height);
    WaitingCommits(cfg, RunProgram(cfg, p, steps), Served(cfg, st, height));
    GoesOnAfter(cfg, p, steps);
  }

  /** The next height may be sent: it is fetched, validated and committed. */
  lemma {:induction false} SendsAndCommits(cfg: Config, p: Program)
    requires AtRest(cfg, p) && NextHeight(p) <= p.engine.st.tip + 1
    ensures GoesOn(cfg, p)
  {
    var changes := NodeChanges(Serving(cfg, p.engine.st));
    ServingConfirms(cfg, p.engine.st);
    OneStep(cfg, p, changes);
    ServedGoesOn(cfg, NextProgram(cfg, p, changes));
    GoesOnAfter(cfg, p, [changes]);
  }

  /** A node that serves one block far above the tip. */
  function FarNode(cfg: Config, st: Storage, height: nat): Node {
    Node(map[height := BlockOf(FittingHeader(cfg, st))], true)
  }

  lemma {:induction false} WalkProgram(cfg: Config, p: Program, steps: seq<Step>)
    requires forall i :: 0 <= i < |steps| ==> steps[i] == WalkReads(ByHandler) || steps[i] == WalkHears(ByHandler)
    ensures RunProgram(cfg, p, steps) == Program(Run(cfg, p.engine, steps), p.sent)
    ensures QuietSteps(cfg, p, steps)
  {
    if steps != [] {
      WalkProgram(cfg, p, steps[..|steps| - 1]);
    }
  }

  lemma {:induction false} ConfirmedNeverRolls(st: Storage, node: Node, current: nat, maxDepth: nat, stop: nat)
    requires Confirms(st, node)
    ensures !RollsTo(st, node, current, maxDepth, stop)
  {
  }

  lemma {:induction false} ConfirmedKeeps(st: Storage, node: Node, current: nat, maxDepth: nat)
    requires Confirms(st, node)
    ensures Decision(st, node, current, maxDepth).Keep?
  {
    match Decision(st, node, current, maxDepth)
    case Keep =>
    case RollTo(stop) =>
      ConfirmedNeverRolls(st, node, current, maxDepth, stop);
      DecisionIff(st, node, current, maxDepth, stop);
  }

  lemma {:induction false} HandlerLooks(cfg: Config, p: Program, height: nat) returns (steps: seq<Step>)
    requires p.engine.handler == Handling(Begin(height)) && Confirms(p.engine.st, p.engine.node)
    ensures QuietSteps(cfg, p, steps)
    ensures RunProgram(cfg, p, steps) == p.(engine := p.engine.(handler := Handling(Done(height, height))))
  {
    var s := p.engine;
    ConfirmedKeeps(s.st, s.node, height, cfg.maxDepth);
    AloneIsDecision(s.st, s.node, height, cfg.maxDepth);
    steps := [];
    if height > 0 {
      steps := EngineCalls.WalkReadsAlone(cfg, s, ByHandler);
    }
    WalkProgram(cfg, p, steps);
  }

  /** The handler's check against a confirming node changes nothing but makes the fetcher forget. */
  lemma {:induction false} HandlerForgets(cfg: Config, p: Program, height: nat) returns (steps: seq<Step>)
    requires p.engine.handler == Handling(Begin(height)) && Confirms(p.engine.st, p.engine.node) && cfg.snapshot
    ensures QuietSteps(cfg, p, steps)
    ensures RunProgram(cfg, p, steps) == Program(p.engine.(handler := Waiting), None)
  {
    var looks := HandlerLooks(cfg, p, height);
    OneStep(cfg, RunProgram(cfg, p, looks), WalkEnds(ByHandler));
    RunsAppend(cfg, p, looks, [WalkEnds(ByHandler)]);
    steps := looks + [WalkEnds(ByHandler)];
  }

  lemma {:induction false} FarBlockIsFetched(cfg: Config, p: Program, height: nat) returns (steps: seq<Step>)
    requires AtRest(cfg, p) && height == NextHeight(p) > p.engine.st.tip + 1
    ensures QuietSteps(cfg, p, steps)
    ensures var node := FarNode(cfg, p.engine.st, height);
            RunProgram(cfg, p, steps).engine ==
            p.engine.(node := node, waiting := p.engine.waiting + {Item(height, node.blocks[height])})
  {
    var node := FarNode(cfg, p.engine.st, height);
    assert Confirms(p.engine.st, node) && Genuine(node);
    OneStep(cfg, p, NodeChanges(node));
    OneStep(cfg, NextProgram(cfg, p, NodeChanges(node)), Prefetch(height));
    RunsAppend(cfg, p, [NodeChanges(node)], [Prefetch(height)]);
    steps := [NodeChanges(node)] + [Prefetch(height)];
  }

  lemma {:induction false} RefusedIsReported(cfg: Config, p: Program, item: Item) returns (steps: seq<Step>)
    requires item in p.engine.waiting && p.engine.processor.Free? && p.engine.handler.Waiting?
    requires !Accepts(cfg.policy, p.engine.st, item.height, item.block)
    ensures QuietSteps(cfg, p, steps)
    ensures var report := Failed(item.height, Disconnected);
            RunProgram(cfg, p, steps).engine ==
            p.engine.(waiting := p.engine.waiting - {item}, reports := p.engine.reports + {report} - {report},
                      handler := Handling(Begin(item.height)))
  {
    var report := Failed(item.height, Disconnected);
    OneStep(cfg, p, Validate(item));
    OneStep(cfg, NextProgram(cfg, p, Validate(item)), TakeReport(report));
    RunsAppend(cfg, p, [Validate(item)], [TakeReport(report)]);
    steps := [Validate(item)] + [TakeReport(report)];
  }

  /** A far block is fetched, found to have no parent, and reported: the handler is called. */
  lemma {:induction false} FarBlockIsReported(cfg: Config, p: Program, height: nat) returns (steps: seq<Step>)
    requires AtRest(cfg, p) && !cfg.policy.Inline? && height == NextHeight(p) > p.engine.st.tip + 1
    ensures QuietSteps(cfg, p, steps)
    ensures var after := RunProgram(cfg, p, steps).engine;
            && after.handler == Handling(Begin(height)) && after.cursor == p.engine.cursor
            && after.st == p.engine.st && after.blocks == p.engine.blocks
            && after.node == FarNode(cfg, p.engine.st, height)
            && after.fetcher.Idle? && after.processor.Free?
            && after.waiting <= p.engine.waiting && after.reports <= p.engine.reports
  {
    var fetches := FarBlockIsFetched(cfg, p, height);
    var item := Item(height, FarNode(cfg, p.engine.st, height).blocks[height]);
    var reports := RefusedIsReported(cfg, RunProgram(cfg, p, fetches), item);
    RunsAppend(cfg, p, fetches, reports);
    steps := fetches + reports;
  }

  lemma {:induction false} CalledGoesOn(cfg: Config, p: Program, height: nat)
    requires p.engine.handler == Handling(Begin(height)) && AtRest(cfg, p.(engine := p.engine.(handler := Waiting)))
    requires p.engine.cursor <= p.engine.st.tip + 1
    ensures GoesOn(cfg, p)
  {
    var forgets := HandlerForgets(cfg, p, height);
    SendsAndCommits(cfg, RunProgram(cfg, p, forgets));
    GoesOnAfter(cfg, p, forgets);
  }

  lemma {:induction false} StaysAtRest(cfg: Config, p: Program, q: Program)
    requires AtRest(cfg, p) && q.engine.st == p.engine.st && q.engine.blocks == p.engine.blocks
    requires q.engine.node == FarNode(cfg, p.engine.st, NextHeight(p)) && NextHeight(p) > p.engine.st.tip + 1
    requires q.engine.fetcher.Idle? && q.engine.processor.Free? && q.engine.handler.Waiting?
    requires q.engine.waiting <= p.engine.waiting && q.engine.reports <= p.engine.reports
    ensures AtRest(cfg, q)
  {
  }

  /** Under a policy the missing parent calls the handler, which makes the fetcher forget what it sent. */
  lemma {:induction false} PolicyGoesOn(cfg: Config, p: Program)
    requires AtRest(cfg, p) && !cfg.policy.Inline? && p.engine.cursor <= p.engine.st.tip + 1 < NextHeight(p)
    ensures GoesOn(cfg, p)
  {
    var reported := FarBlockIsReported(cfg, p, NextHeight(p));
    var called := RunProgram(cfg, p, reported);
    StaysAtRest(cfg, p, called.(engine := called.engine.(handler := Waiting)));
    CalledGoesOn(cfg, called, NextHeight(p));
    GoesOnAfter(cfg, p, reported);
  }

  /**
   At rest the program can go on from its tip, without a restart, a forged block or a node that
   contradicts what is stored, if and only if the cursor is at most one above the tip, and the
   next height has not been sent yet or a policy is installed whose refusals call the handler.
   */
  lemma {:induction false} AdvancesIff(cfg: Config, p: Program)
    requires AtRest(cfg, p)
    ensures var next := p.engine.st.tip + 1;
            GoesOn(cfg, p) <==> p.engine.cursor <= next && (MinSend(p.sent) <= next || !cfg.policy.Inline?)
  {
    ChainIsGapless(p.engine.st);
    if p.engine.cursor > p.engine.st.tip + 1 {
      forall steps | QuietSteps(cfg, p, steps) ensures !Commits(RunProgram(cfg, p, steps).engine, AttemptCommits) {
        StrandedRun(cfg, p, steps);
      }
    } else if MinSend(p.sent) <= p.engine.st.tip + 1 {
      SendsAndCommits(cfg, p);
    } else if cfg.policy.Inline? {
      forall steps | QuietSteps(cfg, p, steps) ensures !Commits(RunProgram(cfg, p, steps).engine, AttemptCommits) {
        StarvedRun(cfg, p, steps);
      }
    } else {
      PolicyGoesOn(cfg, p);
    }
  }

  // ---------------------------------------------------------------- rollbacks by the handler

  /** The handler has decided on `height`; nothing else is under way and the node confirms what will be left. */
  ghost predicate HandlerCuts(cfg: Config, p: Program, height: nat) {
    var s := p.engine;
    && cfg.snapshot && Remembered(s) && Sound(cfg, s) && s.st != EMPTY_STORAGE && NoStale(s.st)
    && (forall h :: h in s.st.hashes ==> s.st.hashes[h].HashOf?)
    && height < s.st.tip && Listed(s.st, height, s.st.tip)
    && WalkerOf(s, ByHandler).Cutting? && WalkerOf(s, ByHandler).height == height
    && s.fetcher.Idle? && s.processor.Free? && Genuine(s.node)
    && (forall report :: report in s.reports ==> !CallsHandler(report))
    && (forall item :: item in s.waiting ==> item.height > height + 1 && item.block.claimed == HashOf(item.block.header))
    && (forall h: nat :: h <= height ==> !Contradicts(s.st, s.node, h))
  }

  function AfterHandler(cfg: Config, p: Program, refreshed: bool): Program {
    NextProgram(cfg, NextProgram(cfg, p, WalkCuts(ByHandler, refreshed)), WalkEnds(ByHandler))
  }

  lemma {:induction false} RolledBackConfirmed(st: Storage, node: Node, height: nat)
    requires ChainStored(st) && NoStale(st) && height < st.tip && Listed(st, height, st.tip)
    requires forall h: nat :: h <= height ==> !Contradicts(st, node, h)
    requires forall h :: h in st.hashes ==> st.hashes[h].HashOf?
    ensures NoStale(RollbackTo(st, height)) && Confirms(RollbackTo(st, height), node)
    ensures forall h :: h in RollbackTo(st, height).hashes ==> RollbackTo(st, height).hashes[h].HashOf?
  {
    var after := RollbackTo(st, height);
    RollbackExactIff(st, height);
    RollbackKeepsRecords(st, height);
    forall h: nat ensures !Contradicts(after, node, h) {
      assert h in after.hashes ==> h <= height && after.hashes[h] == st.hashes[h];
      assert h <= height ==> !Contradicts(st, node, h);
    }
  }

  lemma {:induction false} AfterHandlerIs(cfg: Config, p: Program, height: nat, refreshed: bool)
    requires WalkerOf(p.engine, ByHandler).Cutting? && WalkerOf(p.engine, ByHandler).height == height && cfg.snapshot
    ensures AfterHandler(cfg, p, refreshed) ==
            Program(Cut(p.engine, height).(handler := Waiting), if refreshed then None else p.sent)
  {
  }

  lemma {:induction false} HandlerLeaves(cfg: Config, p: Program, height: nat, refreshed: bool)
    requires HandlerCuts(cfg, p, height)
    ensures var after := AfterHandler(cfg, p, refreshed);
            && AtRest(cfg, after) && after.engine.st.tip == height && after.engine.cursor == p.engine.cursor
            && after.sent == if refreshed then None else p.sent
  {
    CutBelowSound(cfg, p.engine, height);
    RolledBackConfirmed(p.engine.st, p.engine.node, height);
    AfterHandlerIs(cfg, p, height, refreshed);
  }

  /**
   The fetcher is documented to resume from the new tip after a rollback. After one by the handler
   the program can go on if and only if the cursor was not above the rollback's target plus one
   already, and the runtime's refresh worked, or the next height had not been sent, or a policy is
   installed. With the cursor just above the old tip it never can.
   */
  lemma {:induction false} HandlerRollbackAdvancesIff(cfg: Config, p: Program, height: nat, refreshed: bool)
    requires HandlerCuts(cfg, p, height)
    ensures GoesOn(cfg, AfterHandler(cfg, p, refreshed)) <==>
            p.engine.cursor <= height + 1 && (refreshed || MinSend(p.sent) <= height + 1 || !cfg.policy.Inline?)
  {
    HandlerLeaves(cfg, p, height, refreshed);
    AdvancesIff(cfg, AfterHandler(cfg, p, refreshed));
  }
}
