/**
 The sync pipeline: a fetcher, a processor and a result handler share the cursor and the set of
 heights being processed, and pass work through two channels. A step is one uninterrupted
 piece of one task, each read of a reorg walk included; a run is any interleaving. The
 pipeline's processor retries a block until its commit succeeds, so only successes reach the handler.
 */
module Pipeline {
  import opened Basics
  import opened Versions
  import opened SyncStorage
  import opened Reorg
  import opened ReorgWalk

  /**
   The fetcher has read the cursor (Loaded), walks back from it (Looking), has found the height
   not being processed (Clear), or has added it to the set and not sent it yet (Holding).
   */
  datatype Fetcher = Idle | Loaded(cursor: nat) | Looking(walker: Walker) | Clear(height: nat) | Holding(height: nat)

  /** The handler has received a height (Got), then moved the cursor past it (Moved). */
  datatype Handler = Waiting | Got(height: nat) | Moved(height: nat)

  /** The processor is between blocks, attempting one, or about to report one. */
  datatype Processor = Free | Attempting(height: nat) | Finished(height: nat)

  datatype State = State(
    st: Storage,
    cursor: nat,
    processing: set<nat>,
    fetcher: Fetcher,
    blocks: seq<nat>,
    processor: Processor,
    results: seq<nat>,
    handler: Handler)

  datatype Step =
    | LoadCursor
    | BeginWalk
    | WalkReads
    | WalkHears(answer: Option<BlockHash>)
    | WalkCuts(refreshed: bool)
    | WalkEnds
    | CheckProcessing
    | FetchFails
    | Insert
    | Send
    | Receive
    | AttemptFails
    | AttemptCommits(hash: BlockHash, writes: seq<Write>)
    | Report
    | TakeResult
    | MoveCursor
    | RemoveHeight

  function Start(st: Storage, cursor: nat): State {
    State(st, cursor, {}, Idle, [], Free, [], Waiting)
  }

  /** The walk moves on; one that has come to rest leaves the fetcher idle. */
  function Walks(s: State, w: Walker): State {
    s.(fetcher := if w.Rest? then Idle else Looking(w))
  }

  predicate Cuts(s: State) {
    s.fetcher.Looking? && s.fetcher.walker.Cutting?
  }

  /** One step of one task; a step that is not next for its task changes nothing. */
  function Next(maxDepth: nat, s: State, step: Step): State {
    match step
    case LoadCursor => if s.fetcher.Idle? then s.(fetcher := Loaded(s.cursor)) else s
    case BeginWalk => if s.fetcher.Loaded? then Walks(s, Begin(s.fetcher.cursor)) else s
    case WalkReads => if s.fetcher.Looking? then Walks(s, ReadLocal(s.fetcher.walker, s.st, maxDepth)) else s
    case WalkHears(answer) => if s.fetcher.Looking? then Walks(s, HearRemote(s.fetcher.walker, answer)) else s
    case WalkCuts(refreshed) =>
      if !Cuts(s) then s
      else Walks(s.(st := RollbackTo(s.st, s.fetcher.walker.height)), AfterCut(s.fetcher.walker, refreshed))
    case WalkEnds =>
      if !(s.fetcher.Looking? && s.fetcher.walker.Done?) then s
      else
        var w := s.fetcher.walker;
        s.(cursor := if w.next != w.current then w.next else s.cursor, fetcher := Loaded(w.next))
    case CheckProcessing =>
      if !s.fetcher.Loaded? then s
      else if s.fetcher.cursor in s.processing then s.(fetcher := Idle)
      else s.(fetcher := Clear(s.fetcher.cursor))
    case FetchFails => if s.fetcher.Loaded? || s.fetcher.Clear? then s.(fetcher := Idle) else s
    case Insert =>
      if !s.fetcher.Clear? then s
      else s.(processing := s.processing + {s.fetcher.height}, fetcher := Holding(s.fetcher.height))
    case Send =>
      if !s.fetcher.Holding? then s else s.(blocks := s.blocks + [s.fetcher.height], fetcher := Idle)
    case Receive =>
      if !s.processor.Free? || s.blocks == [] then s
      else s.(blocks := s.blocks[1..], processor := Attempting(s.blocks[0]))
    case AttemptFails => s
    case AttemptCommits(hash, writes) =>
      if !s.processor.Attempting? || !InOrder(s.st, s.processor.height) then s
      else s.(st := Commit(s.st, s.processor.height, hash, writes), processor := Finished(s.processor.height))
    case Report =>
      if !s.processor.Finished? then s else s.(results := s.results + [s.processor.height], processor := Free)
    case TakeResult =>
      if !s.handler.Waiting? || s.results == [] then s
      else s.(results := s.results[1..], handler := Got(s.results[0]))
    case MoveCursor =>
      if !s.handler.Got? then s else s.(cursor := s.handler.height + 1, handler := Moved(s.handler.height))
    case RemoveHeight =>
      if !s.handler.Moved? then s else s.(processing := s.processing - {s.handler.height}, handler := Waiting)
  }

  function Run(maxDepth: nat, s: State, steps: seq<Step>): State {
    if steps == [] then s else Next(maxDepth, Run(maxDepth, s, steps[..|steps| - 1]), steps[|steps| - 1])
  }

  /** How many times `height` is held, summed over every place a height can be between insertion and release. */
  ghost function InFlight(s: State, height: nat): nat {
    (if s.fetcher == Holding(height) then 1 else 0)
    + multiset(s.blocks)[height]
    + (if !s.processor.Free? && s.processor.height == height then 1 else 0)
    + multiset(s.results)[height]
    + (if !s.handler.Waiting? && s.handler.height == height then 1 else 0)
  }

  lemma {:induction false} HeadAndTail(heights: seq<nat>, h: nat)
    requires heights != []
    ensures multiset(heights)[h] == (if heights[0] == h then 1 else 0) + multiset(heights[1..])[h]
  {
    assert heights == [heights[0]] + heights[1..];
    assert multiset(heights) == multiset([heights[0]]) + multiset(heights[1..]);
  }

  lemma {:induction false} FrontAndLast(heights: seq<nat>, last: nat, h: nat)
    ensures multiset(heights + [last])[h] == multiset(heights)[h] + (if last == h then 1 else 0)
  {
    assert multiset(heights + [last]) == multiset(heights) + multiset([last]);
  }

  lemma {:induction false} SendKeeps(maxDepth: nat, s: State, h: nat)
    ensures InFlight(Next(maxDepth, s, Send), h) == InFlight(s, h)
  {
    if s.fetcher.Holding? {
      FrontAndLast(s.blocks, s.fetcher.height, h);
    }
  }

  lemma {:induction false} ReceiveKeeps(maxDepth: nat, s: State, h: nat)
    ensures InFlight(Next(maxDepth, s, Receive), h) == InFlight(s, h)
  {
    if s.blocks != [] {
      HeadAndTail(s.blocks, h);
    }
  }

  lemma {:induction false} ReportKeeps(maxDepth: nat, s: State, h: nat)
    ensures InFlight(Next(maxDepth, s, Report), h) == InFlight(s, h)
  {
    if s.processor.Finished? {
      FrontAndLast(s.results, s.processor.height, h);
    }
  }

  lemma {:induction false} TakeResultKeeps(maxDepth: nat, s: State, h: nat)
    ensures InFlight(Next(maxDepth, s, TakeResult), h) == InFlight(s, h)
  {
    if s.results != [] {
      HeadAndTail(s.results, h);
    }
  }

  /** A step that does not insert or remove a height only moves it from one place to the next. */
  lemma {:induction false} MovesKeepInFlight(maxDepth: nat, s: State, step: Step, h: nat)
    requires !step.Insert? && !step.RemoveHeight?
    ensures InFlight(Next(maxDepth, s, step), h) == InFlight(s, h)
  {
    match step
    case Send => SendKeeps(maxDepth, s, h);
    case Receive => ReceiveKeeps(maxDepth, s, h);
    case Report => ReportKeeps(maxDepth, s, h);
    case TakeResult => TakeResultKeeps(maxDepth, s, h);
    case _ =>
  }

  /**
   The heights in flight are exactly the processing set, each held once; and between its check
   and its insertion the fetcher's height stays free, for nobody else inserts.
   */
  ghost predicate Inv(s: State) {
    && (forall h: nat :: InFlight(s, h) == if h in s.processing then 1 else 0)
    && (s.fetcher.Clear? ==> s.fetcher.height !in s.processing)
  }

  lemma {:induction false} StepKeepsInv(maxDepth: nat, s: State, step: Step)
    requires Inv(s)
    ensures Inv(Next(maxDepth, s, step))
  {
    var t := Next(maxDepth, s, step);
    forall h: nat ensures InFlight(t, h) == if h in t.processing then 1 else 0 {
      assert InFlight(s, h) == if h in s.processing then 1 else 0;
      if !step.Insert? && !step.RemoveHeight? {
        MovesKeepInFlight(maxDepth, s, step, h);
      }
    }
  }

  /** In every interleaving the heights in flight are exactly the processing set, none twice. */
  lemma {:induction false} InFlightIsProcessingSet(maxDepth: nat, st: Storage, cursor: nat, steps: seq<Step>, h: nat)
    ensures var s := Run(maxDepth, Start(st, cursor), steps);
            InFlight(s, h) == if h in s.processing then 1 else 0
  {
    InvOfRun(maxDepth, st, cursor, steps);
  }

  lemma {:induction false} InvOfRun(maxDepth: nat, st: Storage, cursor: nat, steps: seq<Step>)
    ensures Inv(Run(maxDepth, Start(st, cursor), steps))
  {
    if steps != [] {
      InvOfRun(maxDepth, st, cursor, steps[..|steps| - 1]);
      StepKeepsInv(maxDepth, Run(maxDepth, Start(st, cursor), steps[..|steps| - 1]), steps[|steps| - 1]);
    }
  }

  // ---------------------------------------------------------------- the tip

  function WalkerOf(s: State): Walker {
    if s.fetcher.Looking? then s.fetcher.walker else Rest
  }

  /** Hash records for all heights from 0 to the tip; a walk that has seen a contradiction is below the tip. */
  ghost predicate Orderly(s: State) {
    && (forall h: nat :: h <= s.st.tip ==> h in s.st.hashes)
    && BelowTip(WalkerOf(s), s.st.tip) && (WalkerOf(s).Asking? ==> WalkerOf(s).check > 0)
  }

  /** The node contradicts a record above the tip. */
  predicate HearsAbove(s: State, step: Step) {
    step.WalkHears? && HearsAboveTip(WalkerOf(s), step.answer, s.st.tip)
  }

  /**
   Commits between the reads, the decision and the rollback of a walk do it no harm: once block 0
   is stored, a step takes a walk that has seen a contradiction out of its place below the tip if
   and only if it is a contradiction of a left-over record above the tip.
   */
  lemma {:induction false} StepKeepsOrderIff(maxDepth: nat, s: State, step: Step)
    requires Orderly(s)
    ensures Orderly(Next(maxDepth, s, step)) <==> !HearsAbove(s, step)
  {
    assert 0 in s.st.hashes;
    var w := WalkerOf(s);
    match step
    case WalkReads => ReadStaysBelow(w, s.st, maxDepth, s.st.tip);
    case WalkHears(answer) => HearStaysBelowIff(w, answer, s.st.tip);
    case WalkCuts(refreshed) =>
      if Cuts(s) {
        RollbackKeepsRecords(s.st, w.height);
      }
    case _ =>
  }

  /** Hash records for all heights from 0 to the tip. */
  ghost predicate RecordsToTip(s: State) {
    forall h: nat :: h <= s.st.tip ==> h in s.st.hashes
  }

  /** A step leaves storage alone, commits at the tip plus one, or rolls back to below the tip. */
  ghost predicate MovesProperly(maxDepth: nat, s: State, step: Step) {
    var after := Next(maxDepth, s, step);
    || after.st == s.st
    || (step.AttemptCommits? && after.st.tip == s.st.tip + 1)
    || (step.WalkCuts? && after.st.tip < s.st.tip && after.st == RollbackTo(s.st, after.st.tip))
  }

  /** A rollback is about to be run with a target above the tip. */
  predicate CutsAboveTip(s: State, step: Step) {
    step.WalkCuts? && Cuts(s) && s.fetcher.walker.height > s.st.tip
  }

  /** With records up to the tip, a step moves the tip otherwise if and only if it is a rollback to above the tip. */
  lemma {:induction false} MovesProperlyIff(maxDepth: nat, s: State, step: Step)
    requires RecordsToTip(s)
    ensures MovesProperly(maxDepth, s, step) <==> !CutsAboveTip(s, step)
    ensures MovesProperly(maxDepth, s, step) ==> RecordsToTip(Next(maxDepth, s, step))
  {
    assert 0 in s.st.hashes;
    if step.WalkCuts? && Cuts(s) {
      RollbackKeepsRecords(s.st, s.fetcher.walker.height);
    }
  }

  lemma {:induction false} RecordsUpTo(maxDepth: nat, s: State, steps: seq<Step>, n: nat)
    requires RecordsToTip(s) && n <= |steps|
    requires forall i :: 0 <= i < n ==> !CutsAboveTip(At(maxDepth, s, steps, i), steps[i])
    ensures RecordsToTip(At(maxDepth, s, steps, n))
  {
    if n > 0 {
      RecordsUpTo(maxDepth, s, steps, n - 1);
      AtNext(maxDepth, s, steps, n - 1);
      MovesProperlyIff(maxDepth, At(maxDepth, s, steps, n - 1), steps[n - 1]);
    }
  }

  lemma {:induction false} FirstCutAbove(maxDepth: nat, s: State, steps: seq<Step>) returns (first: nat)
    requires exists i :: 0 <= i < |steps| && CutsAboveTip(At(maxDepth, s, steps, i), steps[i])
    ensures first < |steps| && CutsAboveTip(At(maxDepth, s, steps, first), steps[first])
    ensures forall i :: 0 <= i < first ==> !CutsAboveTip(At(maxDepth, s, steps, i), steps[i])
  {
    first := 0;
    while !CutsAboveTip(At(maxDepth, s, steps, first), steps[first])
      invariant first < |steps|
      invariant forall i :: 0 <= i < first ==> !CutsAboveTip(At(maxDepth, s, steps, i), steps[i])
      decreases |steps| - first
    {
      first := first + 1;
    }
  }

  /**
   Once block 0 is stored, the tip moves up only by one and only by a commit, and down only by a
   rollback, throughout a run in any interleaving, if and only if no rollback in it aims above the tip.
   */
  lemma {:induction false} RunMovesProperlyIff(maxDepth: nat, s: State, steps: seq<Step>)
    requires RecordsToTip(s)
    ensures (forall i :: 0 <= i < |steps| ==> MovesProperly(maxDepth, At(maxDepth, s, steps, i), steps[i])) <==>
            (forall i :: 0 <= i < |steps| ==> !CutsAboveTip(At(maxDepth, s, steps, i), steps[i]))
  {
    if forall i :: 0 <= i < |steps| ==> !CutsAboveTip(At(maxDepth, s, steps, i), steps[i]) {
      forall i | 0 <= i < |steps| ensures MovesProperly(maxDepth, At(maxDepth, s, steps, i), steps[i]) {
        RecordsUpTo(maxDepth, s, steps, i);
        MovesProperlyIff(maxDepth, At(maxDepth, s, steps, i), steps[i]);
      }
    } else {
      var first := FirstCutAbove(maxDepth, s, steps);
      RecordsUpTo(maxDepth, s, steps, first);
      MovesProperlyIff(maxDepth, At(maxDepth, s, steps, first), steps[first]);
    }
  }

  /** In order no rollback aims above the tip. */
  lemma {:induction false} OrderMovesProperly(maxDepth: nat, s: State, step: Step)
    requires Orderly(s)
    ensures !CutsAboveTip(s, step) && MovesProperly(maxDepth, s, step)
  {
    MovesProperlyIff(maxDepth, s, step);
  }

  /** Order holds throughout a run if and only if no step of it hears a record above the tip contradicted. */
  lemma {:induction false} RunOrderlyIff(maxDepth: nat, s: State, steps: seq<Step>)
    requires Orderly(s)
    ensures (forall i :: 0 <= i <= |steps| ==> Orderly(At(maxDepth, s, steps, i))) <==>
            (forall i :: 0 <= i < |steps| ==> !HearsAbove(At(maxDepth, s, steps, i), steps[i]))
  {
    if forall i :: 0 <= i <= |steps| ==> Orderly(At(maxDepth, s, steps, i)) {
      forall i | 0 <= i < |steps| ensures !HearsAbove(At(maxDepth, s, steps, i), steps[i]) {
        AtNext(maxDepth, s, steps, i);
        StepKeepsOrderIff(maxDepth, At(maxDepth, s, steps, i), steps[i]);
        assert Orderly(At(maxDepth, s, steps, i + 1));
      }
    }
    if forall i :: 0 <= i < |steps| ==> !HearsAbove(At(maxDepth, s, steps, i), steps[i]) {
      forall i | 0 <= i <= |steps| ensures Orderly(At(maxDepth, s, steps, i)) {
        OrderlyUpTo(maxDepth, s, steps, i);
      }
    }
  }

  lemma {:induction false} OrderlyUpTo(maxDepth: nat, s: State, steps: seq<Step>, n: nat)
    requires Orderly(s) && n <= |steps|
    requires forall i :: 0 <= i < n ==> !HearsAbove(At(maxDepth, s, steps, i), steps[i])
    ensures Orderly(At(maxDepth, s, steps, n))
  {
    if n > 0 {
      OrderlyUpTo(maxDepth, s, steps, n - 1);
      AtNext(maxDepth, s, steps, n - 1);
      StepKeepsOrderIff(maxDepth, At(maxDepth, s, steps, n - 1), steps[n - 1]);
    }
  }

  /** The state before step `i` of a run. */
  function At(maxDepth: nat, s: State, steps: seq<Step>, i: nat): State
    requires i <= |steps|
  {
    Run(maxDepth, s, steps[..i])
  }

  lemma {:induction false} AtNext(maxDepth: nat, s: State, steps: seq<Step>, i: nat)
    requires i < |steps|
    ensures At(maxDepth, s, steps, i + 1) == Next(maxDepth, At(maxDepth, s, steps, i), steps[i])
  {
    assert steps[..i + 1][..i] == steps[..i];
  }

  // ---------------------------------------------------------------- exact records

  /** Records for exactly the heights 0 to the tip, a manifest for each, and no walk above them. */
  ghost predicate Exact(s: State) {
    && Orderly(s) && NoStale(s.st)
    && (forall h: nat :: h <= s.st.tip ==> h in s.st.listed)
    && (WalkerOf(s).Asking? ==> WalkerOf(s).check <= s.st.tip)
  }

  /** A commit of a block that wrote something, or any other step. */
  predicate WritesIfCommits(step: Step) {
    step.AttemptCommits? ==> step.writes != []
  }

  lemma {:induction false} StepKeepsExact(maxDepth: nat, s: State, step: Step)
    requires Exact(s) && WritesIfCommits(step)
    ensures Exact(Next(maxDepth, s, step)) && !HearsAbove(s, step)
  {
    StepKeepsOrderIff(maxDepth, s, step);
    assert 0 in s.st.hashes;
  }

  /** If every block writes something, the records are exactly 0 to the tip in every interleaving. */
  lemma {:induction false} ExactForever(maxDepth: nat, s: State, steps: seq<Step>)
    requires Exact(s) && forall i :: 0 <= i < |steps| ==> WritesIfCommits(steps[i])
    ensures Exact(Run(maxDepth, s, steps))
  {
    if steps != [] {
      ExactForever(maxDepth, s, steps[..|steps| - 1]);
      StepKeepsExact(maxDepth, Run(maxDepth, s, steps[..|steps| - 1]), steps[|steps| - 1]);
    }
  }

  /** Nothing stored: whatever is in flight is about height 0. */
  ghost predicate Fresh(s: State) {
    && s.st == EMPTY_STORAGE && s.cursor == 0
    && (match s.fetcher
        case Idle => true
        case Loaded(c) => c == 0
        case Looking(w) => w == Done(0, 0)
        case Clear(h) => h == 0
        case Holding(h) => h == 0)
    && (forall h :: h in s.blocks ==> h == 0)
    && (s.processor.Free? || s.processor == Attempting(0))
    && s.results == [] && s.handler.Waiting?
  }

  lemma {:induction false} StepFromFresh(maxDepth: nat, s: State, step: Step)
    requires Fresh(s) && WritesIfCommits(step)
    ensures Fresh(Next(maxDepth, s, step)) || Exact(Next(maxDepth, s, step))
  {
    match step
    case Send => assert s.fetcher.Holding? ==> s.fetcher.height == 0;
    case Receive =>
      if s.blocks != [] {
        assert s.blocks[0] in s.blocks;
        assert forall h :: h in s.blocks[1..] ==> h in s.blocks;
      }
    case AttemptCommits(hash, writes) =>
      if s.processor.Attempting? {
        assert Commit(s.st, 0, hash, writes).hashes == map[0 := hash];
      }
    case WalkReads => assert s.fetcher.Looking? ==> s.fetcher.walker == Done(0, 0);
    case WalkHears(answer) => assert s.fetcher.Looking? ==> s.fetcher.walker == Done(0, 0);
    case _ =>
  }

  /** Started empty at height 0, with blocks that all write something: nothing stored yet, or exact records. */
  lemma {:induction false} ExactFromStart(maxDepth: nat, steps: seq<Step>)
    requires forall i :: 0 <= i < |steps| ==> WritesIfCommits(steps[i])
    ensures var s := Run(maxDepth, Start(EMPTY_STORAGE, 0), steps);
            Fresh(s) || Exact(s)
  {
    if steps != [] {
      var front, last := steps[..|steps| - 1], steps[|steps| - 1];
      ExactFromStart(maxDepth, front);
      var before := Run(maxDepth, Start(EMPTY_STORAGE, 0), front);
      if Fresh(before) {
        StepFromFresh(maxDepth, before, last);
      } else {
        StepKeepsExact(maxDepth, before, last);
      }
    }
  }
}
