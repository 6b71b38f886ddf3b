/**
 The calls of class SyncEngine.Engine as runs of module EngineRuns: a call nobody interrupts is one
 particular sequence of the steps that other runs interleave.
 */
module EngineCalls {
  import opened Basics
  import opened Versions
  import opened SyncStorage
  import opened Reorg
  import opened ReorgWalk
  import opened SyncEngine
  import opened EngineRuns

  lemma {:induction false} RunAppend(cfg: Config, s: State, a: seq<Step>, b: seq<Step>)
    ensures Run(cfg, s, a + b) == Run(cfg, Run(cfg, s, a), b)
    decreases |b|
  {
    if b == [] {
      assert a + b == a;
    } else {
      assert (a + b)[..|a + b| - 1] == a + b[..|b| - 1];
      RunAppend(cfg, s, a, b[..|b| - 1]);
    }
  }

  lemma OneStep(cfg: Config, s: State, step: Step)
    ensures Run(cfg, s, [step]) == Next(cfg, s, step)
  {
    assert [step][..0] == [];
    assert Run(cfg, s, []) == s;
  }

  lemma {:induction false} WalkReadsAlone(cfg: Config, s: State, task: Task) returns (steps: seq<Step>)
    requires WalkerOf(s, task).Reading?
    ensures Run(cfg, s, steps) == WithWalker(s, task, Alone(WalkerOf(s, task), s.st, s.node, cfg.maxDepth))
    ensures forall i :: 0 <= i < |steps| ==> steps[i] == WalkReads(task) || steps[i] == WalkHears(task)
    decreases WalkerOf(s, task).check
  {
    var w := WalkerOf(s, task);
    var asked := ReadLocal(w, s.st, cfg.maxDepth);
    OneStep(cfg, s, WalkReads(task));
    steps := [WalkReads(task)];
    var next := Next(cfg, s, WalkReads(task));
    if asked.Asking? {
      OneStep(cfg, next, WalkHears(task));
      RunAppend(cfg, s, [WalkReads(task)], [WalkHears(task)]);
      steps := [WalkReads(task)] + [WalkHears(task)];
      next := Next(cfg, next, WalkHears(task));
    }
    if WalkerOf(next, task).Reading? {
      var rest := WalkReadsAlone(cfg, next, task);
      RunAppend(cfg, s, steps, rest);
      steps := steps + rest;
    }
  }

  /** A reorg call nobody interrupts: some run of the task leaves storage and result as the call's contract says. */
  lemma {:induction false} ReorgCallIsRun(cfg: Config, s: State, task: Task, current: nat) returns (steps: seq<Step>)
    requires WalkerOf(s, task) == Begin(current)
    ensures var walk := Decision(s.st, s.node, current, cfg.maxDepth);
            && Run(cfg, s, steps).st == StorageAfter(s.st, walk)
            && WalkerOf(Run(cfg, s, steps), task) == Done(current, CursorAfter(current, walk))
            && Run(cfg, s, steps) ==
               (match walk
                case Keep => WithWalker(s, task, Done(current, current))
                case RollTo(h) => Cut(WithWalker(s, task, Done(current, h + 1)), h))
  {
    AloneIsDecision(s.st, s.node, current, cfg.maxDepth);
    if current == 0 {
      steps := [];
    } else {
      steps := WalkReadsAlone(cfg, s, task);
      var decided := Run(cfg, s, steps);
      if WalkerOf(decided, task).Cutting? {
        OneStep(cfg, decided, WalkCuts(task, true));
        RunAppend(cfg, s, steps, [WalkCuts(task, true)]);
        steps := steps + [WalkCuts(task, true)];
      }
    }
  }

  /** The last step of a block call: the commit if it comes to it, else the call gives up. */
  function LastStep(s: State, item: Item, works: bool): Step {
    if works || !InOrder(s.st, item.height) then AttemptCommits else GiveUp
  }

  /** A block call of the plain engine: validation and one deciding step leave storage as the call's contract says. */
  lemma {:induction false} BlockCallIsRun(cfg: Config, s: State, item: Item, attempts: nat -> Attempt)
    requires item in s.waiting && s.processor.Free?
    ensures var works := SomeAttemptWorks(attempts, MAX_ATTEMPTS);
            var after := Run(cfg, s, [Validate(item), LastStep(s, item, works)]);
            after.st == if Accepts(cfg.policy, s.st, item.height, item.block) && InOrder(s.st, item.height) && works
                        then Commit(s.st, item.height, item.block.claimed, Writes(cfg, s.st.versions, item))
                        else s.st
  {
    var last := LastStep(s, item, SomeAttemptWorks(attempts, MAX_ATTEMPTS));
    assert [Validate(item), last] == [Validate(item)] + [last];
    RunAppend(cfg, s, [Validate(item)], [last]);
    OneStep(cfg, s, Validate(item));
    OneStep(cfg, Next(cfg, s, Validate(item)), last);
  }
}
