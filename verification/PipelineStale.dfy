/**
 Heights the pipeline takes up although they are stored: when the fetcher read the cursor before a
 block was committed and looks at the processing set only after it was released, the block is
 attempted again. What becomes of such an attempt.
 */
module PipelineStale {
  import opened Basics
  import opened Versions
  import opened SyncStorage
  import opened Reorg
  import opened ReorgWalk
  import opened Pipeline

  const TAKE_UP: seq<Step> := [CheckProcessing, Insert, Send, Receive]

  /** The processor attempts a height that is stored: the commit is refused for as long as it stays so. */
  predicate AttemptsStored(s: State, height: nat) {
    s.processor == Attempting(height) && height <= s.st.tip && height in s.st.hashes
  }

  /**
   A free height the fetcher has read is taken up whatever is stored. If every height up to the tip
   is stored, it is a stored one if and only if it is not above the tip, which nobody checks.
   */
  lemma {:induction false} StaleTakeUpIff(maxDepth: nat, s: State)
    requires s.fetcher.Loaded? && s.fetcher.cursor !in s.processing && s.blocks == [] && s.processor.Free?
    requires Orderly(s)
    ensures var after := Run(maxDepth, s, TAKE_UP);
            && after.processor == Attempting(s.fetcher.cursor) && after.st == s.st
            && (AttemptsStored(after, s.fetcher.cursor) <==> s.fetcher.cursor <= s.st.tip)
            && (InOrder(after.st, s.fetcher.cursor) <==> s.fetcher.cursor == s.st.tip + 1)
  {
    var n := s.fetcher.cursor;
    assert At(maxDepth, s, TAKE_UP, 0) == s;
    AtNext(maxDepth, s, TAKE_UP, 0);
    assert At(maxDepth, s, TAKE_UP, 1) == s.(fetcher := Clear(n));
    AtNext(maxDepth, s, TAKE_UP, 1);
    AtNext(maxDepth, s, TAKE_UP, 2);
    assert At(maxDepth, s, TAKE_UP, 3).blocks == [n];
    AtNext(maxDepth, s, TAKE_UP, 3);
    assert TAKE_UP[..4] == TAKE_UP;
  }

  /** A height is committed, reported and released while the fetcher still holds the cursor it read before. */
  function Release(hash: BlockHash, writes: seq<Write>): seq<Step> {
    [AttemptCommits(hash, writes), Report, TakeResult, MoveCursor, RemoveHeight]
  }

  /** That is how a fetcher comes to hold a stored, free height: any block can be taken up twice. */
  lemma {:induction false} ReleaseLeavesStale(maxDepth: nat, s: State, hash: BlockHash, writes: seq<Write>)
    requires s.processor.Attempting? && InOrder(s.st, s.processor.height)
    requires s.fetcher == Loaded(s.processor.height) && s.results == [] && s.handler.Waiting?
    ensures var after := Run(maxDepth, s, Release(hash, writes));
            && after.fetcher == s.fetcher && after.fetcher.cursor !in after.processing
            && after.processor.Free? && after.blocks == s.blocks
            && after.fetcher.cursor == after.st.tip && after.fetcher.cursor in after.st.hashes
            && after.cursor == after.st.tip + 1
  {
    var steps, h := Release(hash, writes), s.processor.height;
    var done := s.(st := Commit(s.st, h, hash, writes), processor := Finished(h));
    assert At(maxDepth, s, steps, 0) == s;
    AtNext(maxDepth, s, steps, 0);
    AtNext(maxDepth, s, steps, 1);
    assert At(maxDepth, s, steps, 2) == done.(processor := Free, results := [h]);
    AtNext(maxDepth, s, steps, 2);
    assert At(maxDepth, s, steps, 3) == done.(processor := Free, handler := Got(h));
    AtNext(maxDepth, s, steps, 3);
    assert At(maxDepth, s, steps, 4) == done.(processor := Free, cursor := h + 1, handler := Moved(h));
    AtNext(maxDepth, s, steps, 4);
    assert steps[..5] == steps;
  }

  // ---------------------------------------------------------------- when the attempt succeeds after all

  /** Step `i` commits the height the processor is at. */
  predicate CommitsAt(maxDepth: nat, s: State, steps: seq<Step>, i: nat, height: nat)
    requires i < |steps|
  {
    var before := At(maxDepth, s, steps, i);
    steps[i].AttemptCommits? && before.processor == Attempting(height) && InOrder(before.st, height)
  }

  /** Up to its commit the attempt blocks the processor, and with it every other commit: the tip does not rise. */
  lemma {:induction false} AttemptBlocks(maxDepth: nat, s: State, steps: seq<Step>, height: nat, n: nat)
    requires Exact(s) && s.processor == Attempting(height) && n <= |steps|
    requires forall i :: 0 <= i < n ==> !CommitsAt(maxDepth, s, steps, i, height)
    ensures var after := At(maxDepth, s, steps, n);
            after.processor == Attempting(height) && after.st.tip <= s.st.tip && Exact(after)
  {
    if n > 0 {
      AttemptBlocks(maxDepth, s, steps, height, n - 1);
      AtNext(maxDepth, s, steps, n - 1);
      var before := At(maxDepth, s, steps, n - 1);
      assert !CommitsAt(maxDepth, s, steps, n - 1, height);
      if steps[n - 1].AttemptCommits? {
        assert At(maxDepth, s, steps, n) == before;
      } else {
        StepKeepsExact(maxDepth, before, steps[n - 1]);
        OrderMovesProperly(maxDepth, before, steps[n - 1]);
      }
    }
  }

  /**
   The attempt succeeds in a run only if a rollback has brought the tip to just below it first;
   height 0 never does.
   */
  lemma {:induction false} CommitNeedsTipBelow(maxDepth: nat, s: State, steps: seq<Step>, height: nat, i: nat)
    requires Exact(s) && s.processor == Attempting(height) && i < |steps| && CommitsAt(maxDepth, s, steps, i, height)
    ensures 0 < height <= s.st.tip + 1
  {
    var first := 0;
    while !CommitsAt(maxDepth, s, steps, first, height)
      invariant first <= i
      invariant forall j :: 0 <= j < first ==> !CommitsAt(maxDepth, s, steps, j, height)
      decreases i - first
    {
      first := first + 1;
    }
    AttemptBlocks(maxDepth, s, steps, height, first);
    assert 0 in At(maxDepth, s, steps, first).st.hashes;
  }

  lemma {:induction false} RunAppend(maxDepth: nat, s: State, a: seq<Step>, b: seq<Step>)
    ensures Run(maxDepth, s, a + b) == Run(maxDepth, Run(maxDepth, s, a), b)
    decreases |b|
  {
    if b == [] {
      assert a + b == a;
    } else {
      assert (a + b)[..|a + b| - 1] == a + b[..|b| - 1];
      RunAppend(maxDepth, s, a, b[..|b| - 1]);
    }
  }

  lemma {:induction false} OneMore(maxDepth: nat, s: State, steps: seq<Step>, step: Step)
    ensures Run(maxDepth, s, steps + [step]) == Next(maxDepth, Run(maxDepth, s, steps), step)
  {
    assert (steps + [step])[..|steps|] == steps;
  }

  /** The record a walk from `cursor` reads first. */
  function FirstRead(cursor: nat, tip: nat): nat {
    if cursor > tip then tip else SaturatingSub(cursor, 1)
  }

  /** The walk's window reaches that record, so that the node can contradict it. */
  predicate CanTurn(maxDepth: nat, cursor: nat, tip: nat) {
    cursor > 0 && InWindow(cursor, maxDepth, FirstRead(cursor, tip))
  }

  /** The walk skips the heights above the tip. */
  lemma {:induction false} SkipsDown(maxDepth: nat, s: State, cursor: nat, check: nat, top: nat) returns (steps: seq<Step>)
    requires s.fetcher == Looking(Reading(cursor, check, false)) && top <= check && InWindow(cursor, maxDepth, top)
    requires forall h :: top < h <= check ==> h !in s.st.hashes
    ensures Run(maxDepth, s, steps) == s.(fetcher := Looking(Reading(cursor, top, false)))
    decreases check
  {
    if check == top {
      steps := [];
    } else {
      OneMore(maxDepth, s, [], WalkReads);
      assert [] + [WalkReads] == [WalkReads];
      var rest := SkipsDown(maxDepth, Next(maxDepth, s, WalkReads), cursor, check - 1, top);
      steps := [WalkReads] + rest;
      RunAppend(maxDepth, s, [WalkReads], rest);
    }
  }

  /** The walk finds the record at `top` contradicted and stops right below it. */
  lemma {:induction false} DecidesDown(maxDepth: nat, s: State, cursor: nat, top: nat) returns (steps: seq<Step>)
    requires s.fetcher == Looking(Reading(cursor, top, false)) && InWindow(cursor, maxDepth, top)
    requires top in s.st.hashes && top - 1 in s.st.hashes
    ensures Run(maxDepth, s, steps) == s.(fetcher := Looking(Cutting(cursor, top - 1)))
  {
    var contradicts := WalkHears(Some(Other(s.st.hashes[top])));
    OneMore(maxDepth, s, [], WalkReads);
    var a := [] + [WalkReads];
    OneMore(maxDepth, s, a, contradicts);
    var b := a + [contradicts];
    assert Run(maxDepth, s, b) == s.(fetcher := Looking(Reading(cursor, top - 1, true)));
    OneMore(maxDepth, s, b, WalkReads);
    steps := b + [WalkReads];
    if InWindow(cursor, maxDepth, top - 1) {
      var agrees := WalkHears(Some(s.st.hashes[top - 1]));
      OneMore(maxDepth, s, steps, agrees);
      steps := steps + [agrees];
    }
  }

  /** A fetcher whose window reaches a record can bring the tip to right below the first it reads. */
  lemma {:induction false} TipGoesDown(maxDepth: nat, s: State, cursor: nat) returns (steps: seq<Step>)
    requires Exact(s) && s.fetcher == Loaded(cursor) && CanTurn(maxDepth, cursor, s.st.tip)
    ensures var top := FirstRead(cursor, s.st.tip);
            Run(maxDepth, s, steps) == s.(st := RollbackTo(s.st, top - 1), cursor := top, fetcher := Loaded(top))
  {
    var top := FirstRead(cursor, s.st.tip);
    OneMore(maxDepth, s, [], BeginWalk);
    var a := [] + [BeginWalk];
    var skips := SkipsDown(maxDepth, Run(maxDepth, s, a), cursor, cursor - 1, top);
    RunAppend(maxDepth, s, a, skips);
    var decides := DecidesDown(maxDepth, Run(maxDepth, s, a + skips), cursor, top);
    RunAppend(maxDepth, s, a + skips, decides);
    var b := a + skips + decides;
    OneMore(maxDepth, s, b, WalkCuts(true));
    OneMore(maxDepth, s, b + [WalkCuts(true)], WalkEnds);
    steps := b + [WalkCuts(true)] + [WalkEnds];
  }

  /** A run that brings the tip down to just below the attempted height. */
  lemma {:induction false} TipGoesDownTo(maxDepth: nat, s: State, height: nat) returns (steps: seq<Step>)
    requires Exact(s) && s.fetcher == Loaded(s.st.tip + 1) && 0 < height <= s.st.tip + 1 && maxDepth > 0
    ensures var after := Run(maxDepth, s, steps);
            after.st.tip + 1 == height && after.processor == s.processor
    decreases s.st.tip
  {
    if height == s.st.tip + 1 {
      steps := [];
    } else {
      var first := TipGoesDown(maxDepth, s, s.st.tip + 1);
      RollbackExact(s.st, s.st.tip - 1);
      var rest := TipGoesDownTo(maxDepth, Run(maxDepth, s, first), height);
      steps := first + rest;
      RunAppend(maxDepth, s, first, rest);
    }
  }

  lemma {:induction false} RollbackExact(st: Storage, height: nat)
    requires height < st.tip && NoStale(st) && (forall h: nat :: h <= st.tip ==> h in st.hashes && h in st.listed)
    ensures var after := RollbackTo(st, height);
            NoStale(after) && forall h: nat :: h <= height ==> h in after.hashes && h in after.listed
  {
  }

  /** The attempt is under way, and only the fetcher has anything to do. */
  ghost predicate OnlyFetches(s: State, height: nat) {
    && Exact(s) && s.processor == Attempting(height) && s.fetcher.Idle?
    && s.results == [] && s.handler.Waiting?
  }

  /**
   A rollback can bring the tip to just below the height: the cursor is above it, and its window
   reaches a record.
   */
  predicate TipCanCome(maxDepth: nat, s: State, height: nat) {
    height == s.st.tip + 1 || (height < s.cursor && height <= s.st.tip && CanTurn(maxDepth, s.cursor, s.st.tip))
  }

  lemma {:induction false} TipComes(maxDepth: nat, s: State, height: nat) returns (steps: seq<Step>)
    requires OnlyFetches(s, height) && height > 0 && TipCanCome(maxDepth, s, height)
    ensures var after := Run(maxDepth, s, steps); after.st.tip + 1 == height && after.processor == Attempting(height)
  {
    if height == s.st.tip + 1 {
      steps := [];
    } else {
      OneMore(maxDepth, s, [], LoadCursor);
      var loads := [] + [LoadCursor];
      var loaded := Run(maxDepth, s, loads);
      var first := TipGoesDown(maxDepth, loaded, s.cursor);
      RollbackExact(s.st, FirstRead(s.cursor, s.st.tip) - 1);
      var rest := TipGoesDownTo(maxDepth, Run(maxDepth, loaded, first), height);
      RunAppend(maxDepth, loaded, first, rest);
      RunAppend(maxDepth, s, loads, first + rest);
      steps := loads + (first + rest);
    }
  }

  // ---------------------------------------------------------------- and when it cannot

  /** The heights a walk starts from and resumes from are at most `high`, and a rollback ends two below. */
  predicate WalksUnder(w: Walker, high: nat) {
    match w
    case Rest => true
    case Reading(current, check, detected) => current <= high && check < current && (detected ==> check + 2 <= current)
    case Asking(current, check, detected, _) =>
      current <= high && 0 < check < current && (detected ==> check + 2 <= current)
    case Cutting(current, height) => current <= high && height + 2 <= current
    case Done(current, next) => current <= high && next <= high
  }

  /** The cursor is at most the attempted height, so a rollback takes the tip further down. */
  ghost predicate CursorUnder(s: State, height: nat) {
    && s.processor == Attempting(height) && s.results == [] && s.handler.Waiting?
    && s.cursor <= height && (s.fetcher.Loaded? ==> s.fetcher.cursor <= height) && WalksUnder(WalkerOf(s), height)
    && (s.st.tip >= height || s.st.tip + 2 <= height) && 0 in s.st.hashes
  }

  lemma {:induction false} StaysUnder(maxDepth: nat, s: State, step: Step, height: nat)
    requires CursorUnder(s, height)
    ensures CursorUnder(Next(maxDepth, s, step), height)
  {
    if step.WalkCuts? && Cuts(s) {
      RollbackKeepsRecords(s.st, s.fetcher.walker.height);
    }
  }

  /** No record is in the window of a walk from the cursor, so that it never turns. */
  ghost predicate OutOfReach(maxDepth: nat, s: State, height: nat, cursor: nat) {
    && s.processor == Attempting(height) && s.results == [] && s.handler.Waiting?
    && s.cursor == cursor && (s.fetcher.Loaded? ==> s.fetcher.cursor == cursor)
    && (match WalkerOf(s)
        case Rest => true
        case Reading(current, check, detected) => current == cursor && check < current && !detected
        case Done(current, next) => current == next == cursor
        case _ => false)
    && height <= s.st.tip && 0 in s.st.hashes && (forall h :: h in s.st.hashes ==> h <= s.st.tip)
    && !CanTurn(maxDepth, cursor, s.st.tip)
  }

  lemma {:induction false} StaysOutOfReach(maxDepth: nat, s: State, step: Step, height: nat, cursor: nat)
    requires OutOfReach(maxDepth, s, height, cursor)
    ensures OutOfReach(maxDepth, Next(maxDepth, s, step), height, cursor)
  {
  }

  lemma {:induction false} NeverComes(maxDepth: nat, s: State, steps: seq<Step>, height: nat, n: nat)
    requires OnlyFetches(s, height) && 0 < height <= s.st.tip && !TipCanCome(maxDepth, s, height) && n <= |steps|
    ensures var after := At(maxDepth, s, steps, n);
            CursorUnder(after, height) || OutOfReach(maxDepth, after, height, s.cursor)
  {
    if n > 0 {
      NeverComes(maxDepth, s, steps, height, n - 1);
      AtNext(maxDepth, s, steps, n - 1);
      var before := At(maxDepth, s, steps, n - 1);
      if CursorUnder(before, height) {
        StaysUnder(maxDepth, before, steps[n - 1], height);
      } else {
        StaysOutOfReach(maxDepth, before, steps[n - 1], height, s.cursor);
      }
    }
  }

  /**
   With nothing but the fetcher to move, an attempt can still succeed if and only if the height is not
   0 and a rollback can bring the tip to just below it: the cursor is above the height, and the
   window of a walk from there reaches a record for the node to contradict. At height 0 the
   attempt blocks the pipeline for good.
   */
  lemma {:induction false} AttemptCanCommitIff(maxDepth: nat, s: State, height: nat)
    requires OnlyFetches(s, height)
    ensures (exists steps, i :: 0 <= i < |steps| && CommitsAt(maxDepth, s, steps, i, height)) <==>
            height > 0 && TipCanCome(maxDepth, s, height)
  {
    if height > 0 && TipCanCome(maxDepth, s, height) {
      var down := TipComes(maxDepth, s, height);
      var steps := down + [AttemptCommits(NoHash, [])];
      assert steps[..|down|] == down;
      assert CommitsAt(maxDepth, s, steps, |down|, height);
    }
    forall steps, i | 0 <= i < |steps| && CommitsAt(maxDepth, s, steps, i, height)
      ensures height > 0 && TipCanCome(maxDepth, s, height)
    {
      CommitNeedsTipBelow(maxDepth, s, steps, height, i);
      if !TipCanCome(maxDepth, s, height) {
        NeverComes(maxDepth, s, steps, height, i);
      }
    }
  }

  /** An attempt at a stored block 0 stays where it is in every run, and nothing is committed any more. */
  lemma {:induction false} WedgedForever(maxDepth: nat, s: State, steps: seq<Step>, n: nat)
    requires s.processor == Attempting(0) && 0 in s.st.hashes && n <= |steps|
    ensures var after := At(maxDepth, s, steps, n);
            && after.processor == Attempting(0) && 0 in after.st.hashes
            && (n < |steps| && steps[n].AttemptCommits? ==> Next(maxDepth, after, steps[n]) == after)
  {
    if n > 0 {
      WedgedForever(maxDepth, s, steps, n - 1);
      AtNext(maxDepth, s, steps, n - 1);
      var before := At(maxDepth, s, steps, n - 1);
      if steps[n - 1].WalkCuts? && Cuts(before) {
        RollbackKeepsRecords(before.st, before.fetcher.walker.height);
      }
    }
  }
}
