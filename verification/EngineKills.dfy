/**
 A process killed inside one rollback and then restarted: when the restart recovers, on storage and
 node, and what records it leaves.
 */
module EngineKills {
  import opened Basics
  import opened Versions
  import opened SyncStorage
  import opened Reorg
  import opened ReorgWalk
  import opened Heal
  import opened SyncEngine
  import opened EngineRuns
  import opened EngineSoundness
  import opened EngineOrder

  /** Killed while `task` rolls back, restarted against `node`. */
  function KilledAndRestarted(cfg: Config, s: State, task: Task, kill: Kill, node: Node): State {
    Next(cfg, Next(cfg, Next(cfg, s, WalkKilled(task, kill)), NodeChanges(node)), Restart)
  }

  /** No key the killed rollback has trimmed has a version above its target and at or below `height`. */
  ghost predicate TrimsNothingUpTo(st: Storage, target: nat, kill: Kill, height: nat) {
    forall k, i :: k in KeysTrimmed(st, target, kill) && k in st.versions && 0 <= i < |st.versions[k]| ==>
      st.versions[k][i].height <= target || st.versions[k][i].height > height
  }

  lemma {:induction false} NothingLostIff(st: Storage, target: nat, kill: Kill, height: nat)
    ensures TrimsNothingUpTo(st, target, kill, height) <==>
            forall l :: l in Losses(st, target, kill) ==> l.height > height
  {
    if forall l :: l in Losses(st, target, kill) ==> l.height > height {
      forall k, i | k in KeysTrimmed(st, target, kill) && k in st.versions && 0 <= i < |st.versions[k]|
        ensures st.versions[k][i].height <= target || st.versions[k][i].height > height
      {
        if st.versions[k][i].height > target {
          assert Lost(k, st.versions[k][i].height) in Losses(st, target, kill);
        }
      }
    }
  }

  /**
   Killed anywhere inside a rollback to `target` and restarted against any node, a sound state is
   sound again if and only if no key already trimmed has a version above the target and at or
   below the height the heal settles on.
   */
  lemma {:induction false} KilledRestartSoundIff(cfg: Config, s: State, task: Task, kill: Kill, node: Node)
    requires InvUp(cfg, s) && WalkerOf(s, task).Cutting?
    ensures var target := WalkerOf(s, task).height;
            var safe := SafeHeight(Interrupted(s.st, target, kill), node, cfg.maxDepth);
            Sound(cfg, KilledAndRestarted(cfg, s, task, kill, node)) <==> TrimsNothingUpTo(s.st, target, kill, safe)
  {
    var target := WalkerOf(s, task).height;
    var down := Next(cfg, Next(cfg, s, WalkKilled(task, kill)), NodeChanges(node));
    StepInvIff(cfg, s, WalkKilled(task, kill));
    StepInvIff(cfg, Next(cfg, s, WalkKilled(task, kill)), NodeChanges(node));
    RestartStepInvIff(cfg, down);
    assert down.lost == Losses(s.st, target, kill);
    NothingLostIff(s.st, target, kill, SafeHeight(down.st, node, cfg.maxDepth));
  }

  /** The node is away: the heal settles on the height the manifest batches had reached. */
  lemma {:induction false} AwaySettlesOnReached(st: Storage, target: nat, kill: Kill, node: Node, maxDepth: nat)
    requires ChainStored(st) && st.tip <= st.runtimeTip && !node.connected
    requires st.tip <= Reached(st, target, kill) + SCAN_WINDOW
    ensures SafeHeight(Interrupted(st, target, kill), node, maxDepth) == Reached(st, target, kill)
  {
    var after, low := Interrupted(st, target, kill), Reached(st, target, kill);
    KillRecords(st, target, kill);
    assert Linked(st, low);
    if st.tip > 0 {
      ScanReaches(after, st.tip, SaturatingSub(st.tip, SCAN_WINDOW), low);
    }
  }

  lemma {:induction false} ScanReaches(st: Storage, h: nat, floor: nat, top: nat)
    requires floor <= top <= h && top in st.hashes && forall g :: top < g <= h ==> g !in st.hashes
    ensures ScanHashes(st, h, floor) == top
    decreases h
  {
    if top < h {
      ScanReaches(st, h - 1, floor, top);
    }
  }

  /** The node still contradicts every record above the target, within the depth: then the restart always recovers. */
  lemma {:induction false} StillForkedRestartIsSound(cfg: Config, s: State, task: Task, kill: Kill, node: Node)
    requires InvUp(cfg, s) && WalkerOf(s, task).Cutting?
    requires node.connected
    requires forall h :: h > WalkerOf(s, task).height && h in s.st.hashes ==> Contradicts(s.st, node, h)
    requires s.st.tip <= WalkerOf(s, task).height + cfg.maxDepth
    ensures Sound(cfg, KilledAndRestarted(cfg, s, task, kill, node))
  {
    var target := WalkerOf(s, task).height;
    var after := Interrupted(s.st, target, kill);
    var safe := SafeHeight(after, node, cfg.maxDepth);
    KilledRestartSoundIff(cfg, s, task, kill, node);
    KillRecords(s.st, target, kill);
    HealIsSafe(after, node, cfg.maxDepth);
    HealWalkStops(after, node, Candidate(after), SaturatingSub(Candidate(after), cfg.maxDepth));
    assert safe > target && safe in after.hashes ==> Contradicts(after, node, safe);
  }

  lemma {:induction false} ExactAfterKillIff(st: Storage, target: nat, kill: Kill, safe: nat)
    requires ChainStored(st) && st != EMPTY_STORAGE && AllListed(st)
    requires safe <= Reached(st, target, kill)
    ensures NoStale(RollbackTo(Interrupted(st, target, kill), safe)) <==>
            Reached(st, target, kill) == st.tip || safe == Reached(st, target, kill)
  {
    var stopped, reached := Interrupted(st, target, kill), Reached(st, target, kill);
    KillRecords(st, target, kill);
    assert Linked(st, reached);
    if reached < st.tip {
      assert st.tip !in stopped.listed && !(safe < st.tip && Listed(stopped, safe, st.tip));
      assert reached in RollbackTo(stopped, safe).hashes;
    } else if safe < st.tip {
      assert Listed(stopped, safe, st.tip);
    }
  }

  lemma {:induction false} KilledRestartStorage(cfg: Config, s: State, task: Task, kill: Kill, node: Node)
    requires WalkerOf(s, task).Cutting?
    ensures var stopped := Interrupted(s.st, WalkerOf(s, task).height, kill);
            var safe := SafeHeight(stopped, node, cfg.maxDepth);
            KilledAndRestarted(cfg, s, task, kill, node).st == RollbackTo(stopped, safe).(runtimeTip := safe)
  {
    HealIsSafe(Interrupted(s.st, WalkerOf(s, task).height, kill), node, cfg.maxDepth);
  }

  lemma {:induction false} SettlesAtOrBelowReached(st: Storage, target: nat, kill: Kill, node: Node, maxDepth: nat)
    requires ChainStored(st)
    ensures SafeHeight(Interrupted(st, target, kill), node, maxDepth) <= Reached(st, target, kill)
  {
    var stopped := Interrupted(st, target, kill);
    KillRecords(st, target, kill);
    ChainIsGapless(st);
    HealLandsOnRecord(stopped, node, maxDepth);
  }

  /**
   Every record with a manifest: after a kill and a restart the records are exact again if and only if
   the rollback had not begun, or the heal settles on the very height its batches had reached.
   Anything lower runs the full scan, for want of the manifests already gone, and leaves records.
   */
  lemma {:induction false} KilledRestartExactIff(cfg: Config, s: State, task: Task, kill: Kill, node: Node)
    requires InvUp(cfg, s) && WalkerOf(s, task).Cutting? && s.st != EMPTY_STORAGE && AllListed(s.st)
    ensures var reached := Reached(s.st, WalkerOf(s, task).height, kill);
            var after := KilledAndRestarted(cfg, s, task, kill, node);
            NoStale(after.st) <==> reached == s.st.tip || after.st.tip == reached
  {
    var target := WalkerOf(s, task).height;
    var stopped := Interrupted(s.st, target, kill);
    var safe := SafeHeight(stopped, node, cfg.maxDepth);
    SettlesAtOrBelowReached(s.st, target, kill, node, cfg.maxDepth);
    ExactAfterKillIff(s.st, target, kill, safe);
    KilledRestartStorage(cfg, s, task, kill, node);
  }
}
