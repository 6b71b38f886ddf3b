/** Chain reorganisation: the walk back from the cursor to the last height the node agrees on. */
module Reorg {
  import opened Basics
  import opened Versions
  import opened SyncStorage

  datatype Walk = Keep | RollTo(height: nat)

  predicate InWindow(current: nat, maxDepth: nat, height: nat) {
    height > 0 && height >= SaturatingSub(current, maxDepth)
  }

  /** The walk from `check` downward; `detected` says whether a stored hash has disagreed. */
  function WalkBack(st: Storage, node: Node, current: nat, maxDepth: nat, check: nat, detected: bool): Walk
    decreases check
  {
    if !InWindow(current, maxDepth, check) then (if detected then RollTo(check) else Keep)
    else if check !in st.hashes then WalkBack(st, node, current, maxDepth, check - 1, detected)
    else if RemoteHash(node, check).None? then Keep
    else if RemoteHash(node, check).value == st.hashes[check] then (if detected then RollTo(check) else Keep)
    else WalkBack(st, node, current, maxDepth, check - 1, true)
  }

  function Decision(st: Storage, node: Node, current: nat, maxDepth: nat): Walk {
    if current == 0 then Keep else WalkBack(st, node, current, maxDepth, current - 1, false)
  }

  function StorageAfter(st: Storage, walk: Walk): Storage {
    if walk.Keep? then st else RollbackTo(st, walk.height)
  }

  function CursorAfter(current: nat, walk: Walk): nat {
    if walk.Keep? then current else walk.height + 1
  }

  predicate Agrees(st: Storage, node: Node, height: nat) {
    height in st.hashes && RemoteHash(node, height) == Some(st.hashes[height])
  }

  /** The lowest height the walk can end at: the cursor less the window and one, or zero. */
  function WalkFloor(current: nat, maxDepth: nat): nat {
    SaturatingSub(current, maxDepth + 1)
  }

  // ---------------------------------------------------------------- what a decision means

  /** The node answers for a stored height, with another hash. */
  predicate Contradicts(st: Storage, node: Node, height: nat) {
    height in st.hashes && RemoteHash(node, height).Some? && !Agrees(st, node, height)
  }

  /** Some height above `low` and below `high` has a record. */
  ghost predicate SomeRecord(st: Storage, low: nat, high: nat) {
    exists h :: low < h < high && h in st.hashes
  }

  /**
   The heights from `current` down to `stop` call for a rollback to `stop`: it is the floor of the
   window or agrees, every record above it is contradicted, and there is one.
   */
  ghost predicate RollsTo(st: Storage, node: Node, current: nat, maxDepth: nat, stop: nat) {
    && WalkFloor(current, maxDepth) <= stop < current
    && (stop == WalkFloor(current, maxDepth) || Agrees(st, node, stop))
    && (forall h :: stop < h < current && h in st.hashes ==> Contradicts(st, node, h))
    && SomeRecord(st, stop, current)
  }

  lemma {:induction false} WalkRollsIff(st: Storage, node: Node, current: nat, maxDepth: nat,
                                        check: nat, detected: bool, stop: nat)
    requires WalkFloor(current, maxDepth) <= check < current
    ensures WalkBack(st, node, current, maxDepth, check, detected) == RollTo(stop) <==>
            && WalkFloor(current, maxDepth) <= stop <= check
            && (stop == WalkFloor(current, maxDepth) || Agrees(st, node, stop))
            && (forall h :: stop < h <= check && h in st.hashes ==> Contradicts(st, node, h))
            && (detected || SomeRecord(st, stop, check + 1))
    decreases check
  {
    if InWindow(current, maxDepth, check) {
      if check !in st.hashes {
        WalkRollsIff(st, node, current, maxDepth, check - 1, detected, stop);
        assert stop <= check - 1 ==> (SomeRecord(st, stop, check) <==> SomeRecord(st, stop, check + 1));
      } else if Contradicts(st, node, check) {
        WalkRollsIff(st, node, current, maxDepth, check - 1, true, stop);
        assert stop < check ==> SomeRecord(st, stop, check + 1);
      }
    }
  }

  /** The walk decides on a rollback to `stop` exactly when the records and the node's answers call for it. */
  lemma {:induction false} DecisionIff(st: Storage, node: Node, current: nat, maxDepth: nat, stop: nat)
    ensures Decision(st, node, current, maxDepth) == RollTo(stop) <==> RollsTo(st, node, current, maxDepth, stop)
  {
    if current > 0 {
      WalkRollsIff(st, node, current, maxDepth, current - 1, false, stop);
    }
  }

  /**
   The fork is found, whatever records are left above the tip. Of the records below `current` an
   answering node confirms exactly those below `shared`, which are all there. If the window
   holds a contradicted one, the engine rolls back to the highest shared height, or to the
   floor of the window if the shared heights end below it; otherwise nothing changes.
   */
  lemma {:induction false} ReorgFindsFork(st: Storage, node: Node, current: nat, maxDepth: nat, shared: nat)
    requires forall h: nat :: h < shared ==> h in st.hashes
    requires forall h :: h in st.hashes && h < current ==>
               RemoteHash(node, h).Some? && (Agrees(st, node, h) <==> h < shared)
    ensures var floor := WalkFloor(current, maxDepth);
            var stop := if shared > floor then shared - 1 else floor;
            Decision(st, node, current, maxDepth) == if SomeRecord(st, stop, current) then RollTo(stop) else Keep
  {
    var floor := WalkFloor(current, maxDepth);
    var stop := if shared > floor then shared - 1 else floor;
    DecisionIff(st, node, current, maxDepth, stop);
    var walk := Decision(st, node, current, maxDepth);
    if walk.RollTo? {
      DecisionIff(st, node, current, maxDepth, walk.height);
      var h :| walk.height < h < current && h in st.hashes;
      assert Contradicts(st, node, h);
      assert stop > floor && stop < current ==> Agrees(st, node, stop);
    }
  }

  // ---------------------------------------------------------------- decisions and the tip

  /** A hash other than the given one. */
  function Other(hash: BlockHash): BlockHash {
    if hash.NoHash? then HashOf(Header(NoHash, [])) else NoHash
  }

  /** A node that confirms the records up to `stop` and contradicts all others. */
  function ForkedAfter(st: Storage, stop: nat): Node {
    Node(map h | h in st.hashes ::
           NodeBlock(if h > stop then Other(st.hashes[h]) else st.hashes[h], Header(NoHash, []), []), true)
  }

  /** Which targets a decision can have is a matter of the records alone. */
  lemma {:induction false} SomeNodeRollsToIff(st: Storage, current: nat, maxDepth: nat, stop: nat)
    ensures (exists node :: Decision(st, node, current, maxDepth) == RollTo(stop)) <==>
            && WalkFloor(current, maxDepth) <= stop < current
            && (stop == WalkFloor(current, maxDepth) || stop in st.hashes)
            && SomeRecord(st, stop, current)
  {
    forall node
      ensures Decision(st, node, current, maxDepth) == RollTo(stop) <==> RollsTo(st, node, current, maxDepth, stop)
    {
      DecisionIff(st, node, current, maxDepth, stop);
    }
    if && WalkFloor(current, maxDepth) <= stop < current
       && (stop == WalkFloor(current, maxDepth) || stop in st.hashes)
       && SomeRecord(st, stop, current)
    {
      assert RollsTo(st, ForkedAfter(st, stop), current, maxDepth, stop);
    }
  }

  /** Against every node a decision lies below the tip, if and only if the window shows no record above the tip. */
  lemma {:induction false} DecisionsBelowTipIff(st: Storage, current: nat, maxDepth: nat)
    requires st.tip in st.hashes
    ensures (forall node, stop: nat :: Decision(st, node, current, maxDepth) == RollTo(stop) ==> stop < st.tip) <==>
            var floor := WalkFloor(current, maxDepth);
            !SomeRecord(st, if st.tip > floor then st.tip else floor, current)
  {
    var floor := WalkFloor(current, maxDepth);
    var top := if st.tip > floor then st.tip else floor;
    if SomeRecord(st, top, current) {
      SomeNodeRollsToIff(st, current, maxDepth, top);
    } else {
      forall node, stop: nat | Decision(st, node, current, maxDepth) == RollTo(stop) ensures stop < st.tip {
        DecisionIff(st, node, current, maxDepth, stop);
        var h :| stop < h < current && h in st.hashes;
        assert h <= top;
      }
    }
  }
}
