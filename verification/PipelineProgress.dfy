/**
 That the pipeline gets on: from rest some run commits the next blocks one after the other, also
 after a reorganisation has been found and rolled back.
 */
module PipelineProgress {
  import opened Basics
  import opened Versions
  import opened SyncStorage
  import opened Reorg
  import opened ReorgWalk
  import opened Pipeline
  import opened PipelineStale

  /** Nothing is in flight, and the cursor is at the height that a commit may have. */
  predicate AtRest(s: State) {
    && s.fetcher.Idle? && s.processing == {} && s.blocks == [] && s.processor.Free?
    && s.results == [] && s.handler.Waiting?
    && (s.cursor == s.st.tip + 1 || (s.cursor == 0 && s.st == EMPTY_STORAGE))
  }

  datatype Committed = Committed(hash: BlockHash, writes: seq<Write>)

  /** A block's way through the tasks without a walk. */
  function OneBlock(b: Committed): seq<Step> {
    [LoadCursor, CheckProcessing, Insert, Send, Receive]
    + [AttemptCommits(b.hash, b.writes), Report, TakeResult, MoveCursor, RemoveHeight]
  }

  lemma {:induction false} TakesUp(maxDepth: nat, s: State)
    requires AtRest(s)
    ensures Run(maxDepth, s, [LoadCursor, CheckProcessing, Insert, Send, Receive]) ==
            s.(processing := {s.cursor}, processor := Attempting(s.cursor))
  {
    var steps := [LoadCursor, CheckProcessing, Insert, Send, Receive];
    assert At(maxDepth, s, steps, 0) == s;
    AtNext(maxDepth, s, steps, 0);
    AtNext(maxDepth, s, steps, 1);
    assert At(maxDepth, s, steps, 2) == s.(fetcher := Clear(s.cursor));
    AtNext(maxDepth, s, steps, 2);
    AtNext(maxDepth, s, steps, 3);
    assert At(maxDepth, s, steps, 4) == s.(processing := {s.cursor}, blocks := [s.cursor]);
    AtNext(maxDepth, s, steps, 4);
    assert steps[..5] == steps;
  }

  lemma {:induction false} CommitsAndReports(maxDepth: nat, s: State, height: nat, b: Committed)
    requires s.processor == Attempting(height) && s.results == [] && InOrder(s.st, height)
    ensures Run(maxDepth, s, [AttemptCommits(b.hash, b.writes), Report]) ==
            s.(st := Commit(s.st, height, b.hash, b.writes), processor := Free, results := [height])
  {
    var steps := [AttemptCommits(b.hash, b.writes), Report];
    assert At(maxDepth, s, steps, 0) == s;
    AtNext(maxDepth, s, steps, 0);
    AtNext(maxDepth, s, steps, 1);
    assert steps[..2] == steps;
  }

  lemma {:induction false} MovesAndReleases(maxDepth: nat, s: State, height: nat)
    requires s.processing == {height} && s.results == [height] && s.handler.Waiting?
    ensures Run(maxDepth, s, [TakeResult, MoveCursor, RemoveHeight]) ==
            s.(cursor := height + 1, processing := {}, results := [])
  {
    var steps := [TakeResult, MoveCursor, RemoveHeight];
    assert At(maxDepth, s, steps, 0) == s;
    AtNext(maxDepth, s, steps, 0);
    AtNext(maxDepth, s, steps, 1);
    AtNext(maxDepth, s, steps, 2);
    assert {height} - {height} == {};
    assert steps[..3] == steps;
  }

  /** One block: committed at the cursor, reported and released, with the cursor moved past it. */
  lemma {:induction false} OneBlockGetsIn(maxDepth: nat, s: State, b: Committed)
    requires AtRest(s)
    ensures var after := Run(maxDepth, s, OneBlock(b));
            AtRest(after) && after == s.(st := Commit(s.st, s.cursor, b.hash, b.writes), cursor := s.cursor + 1)
  {
    var up := [LoadCursor, CheckProcessing, Insert, Send, Receive];
    var commit := [AttemptCommits(b.hash, b.writes), Report];
    TakesUp(maxDepth, s);
    CommitsAndReports(maxDepth, Run(maxDepth, s, up), s.cursor, b);
    RunAppend(maxDepth, s, up, commit);
    MovesAndReleases(maxDepth, Run(maxDepth, s, up + commit), s.cursor);
    RunAppend(maxDepth, s, up + commit, [TakeResult, MoveCursor, RemoveHeight]);
    assert OneBlock(b) == up + commit + [TakeResult, MoveCursor, RemoveHeight];
  }

  predicate Holds(st: Storage, height: nat, b: Committed) {
    height in st.hashes && st.hashes[height] == b.hash
  }

  /** The records from `low` on are those of the blocks. */
  ghost predicate HoldsFrom(st: Storage, low: nat, bs: seq<Committed>) {
    forall i :: 0 <= i < |bs| ==> Holds(st, low + i, bs[i])
  }

  lemma {:induction false} HoldsOneMore(st: Storage, low: nat, bs: seq<Committed>)
    requires bs != [] && HoldsFrom(st, low, bs[..|bs| - 1])
    ensures var last := bs[|bs| - 1]; HoldsFrom(Commit(st, low + |bs| - 1, last.hash, last.writes), low, bs)
  {
    var front, last := bs[..|bs| - 1], bs[|bs| - 1];
    forall i | 0 <= i < |bs| ensures Holds(Commit(st, low + |bs| - 1, last.hash, last.writes), low + i, bs[i]) {
      if i < |front| {
        assert front[i] == bs[i] && Holds(st, low + i, front[i]);
      }
    }
  }

  predicate NoWalk(steps: seq<Step>) {
    forall i :: 0 <= i < |steps| ==> !steps[i].BeginWalk?
  }

  /**
   However many blocks there are, some run without a walk commits them at the next heights, in order,
   and comes to rest with the cursor right above the last.
   */
  lemma {:induction false} BlocksGetIn(maxDepth: nat, s: State, bs: seq<Committed>) returns (steps: seq<Step>)
    requires AtRest(s)
    ensures NoWalk(steps)
    ensures var after := Run(maxDepth, s, steps);
            && AtRest(after) && after.cursor == s.cursor + |bs| && (bs != [] ==> after.st.tip == s.cursor + |bs| - 1)
            && HoldsFrom(after.st, s.cursor, bs)
            && (forall h :: h in s.st.hashes && h < s.cursor ==> h in after.st.hashes && after.st.hashes[h] == s.st.hashes[h])
    decreases |bs|
  {
    if bs == [] {
      steps := [];
    } else {
      var front, last := bs[..|bs| - 1], bs[|bs| - 1];
      var before := BlocksGetIn(maxDepth, s, front);
      OneBlockGetsIn(maxDepth, Run(maxDepth, s, before), last);
      RunAppend(maxDepth, s, before, OneBlock(last));
      steps := before + OneBlock(last);
      HoldsOneMore(Run(maxDepth, s, before).st, s.cursor, bs);
    }
  }

  /** After a reorganisation too: the fetcher rolls back and the blocks that follow get in above its target. */
  lemma {:induction false} GetsInAfterReorg(maxDepth: nat, s: State, bs: seq<Committed>) returns (steps: seq<Step>)
    requires AtRest(s) && Exact(s) && CanTurn(maxDepth, s.cursor, s.st.tip)
    ensures var after, top := Run(maxDepth, s, steps), s.st.tip;
            && AtRest(after) && after.cursor == top + |bs| && (bs != [] ==> after.st.tip == top + |bs| - 1)
            && HoldsFrom(after.st, top, bs)
            && (forall h: nat :: h < top ==> h in after.st.hashes && after.st.hashes[h] == s.st.hashes[h])
  {
    OneMore(maxDepth, s, [], LoadCursor);
    var loads := [] + [LoadCursor];
    var loaded := Run(maxDepth, s, loads);
    var down := TipGoesDown(maxDepth, loaded, s.cursor);
    RollbackKeepsRecords(s.st, s.st.tip - 1);
    var lower := Run(maxDepth, loaded, down);
    OneMore(maxDepth, loaded, down, FetchFails);
    var rested := Run(maxDepth, loaded, down + [FetchFails]);
    assert rested == s.(st := RollbackTo(s.st, s.st.tip - 1), cursor := s.st.tip);
    var up := BlocksGetIn(maxDepth, rested, bs);
    RunAppend(maxDepth, loaded, down + [FetchFails], up);
    RunAppend(maxDepth, s, loads, down + [FetchFails] + up);
    steps := loads + (down + [FetchFails] + up);
    assert Run(maxDepth, s, steps) == Run(maxDepth, rested, up);
  }
}
