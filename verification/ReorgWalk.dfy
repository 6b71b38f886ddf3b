/**
 The reorg walk as other tasks see it: the storage lock is released between the read of a stored
 hash, the node's answer, the rollback and the use of the result, so each is a step of its own.
 */
module ReorgWalk {
  import opened Basics
  import opened Versions
  import opened SyncStorage
  import opened Reorg

  /**
   Where a walk that began at `current` stands: before reading the hash at `check`, waiting for
   the node's, about to roll back, or with the height to resume from.
   */
  datatype Walker =
    | Rest
    | Reading(current: nat, check: nat, detected: bool)
    | Asking(current: nat, check: nat, detected: bool, local: BlockHash)
    | Cutting(current: nat, height: nat)
    | Done(current: nat, next: nat)

  function Begin(current: nat): Walker {
    if current == 0 then Done(0, 0) else Reading(current, current - 1, false)
  }

  function Finish(current: nat, check: nat, detected: bool): Walker {
    if detected then Cutting(current, check) else Done(current, current)
  }

  function ReadLocal(w: Walker, st: Storage, maxDepth: nat): Walker {
    if !w.Reading? then w
    else if !InWindow(w.current, maxDepth, w.check) then Finish(w.current, w.check, w.detected)
    else if w.check !in st.hashes then Reading(w.current, w.check - 1, w.detected)
    else Asking(w.current, w.check, w.detected, st.hashes[w.check])
  }

  function HearRemote(w: Walker, answer: Option<BlockHash>): Walker {
    if !w.Asking? then w
    else if answer.None? then Done(w.current, w.current)
    else if answer.value == w.local then Finish(w.current, w.check, w.detected)
    else Reading(w.current, SaturatingSub(w.check, 1), true)
  }

  /** After the rollback: the height above it, unless the runtime's refresh fails and the walk ends in an error. */
  function AfterCut(w: Walker, refreshed: bool): Walker {
    if !w.Cutting? then w else if refreshed then Done(w.current, w.height + 1) else Rest
  }

  // ---------------------------------------------------------------- a walk nobody interrupts

  /** The walk run to its decision while nothing changes. */
  function Alone(w: Walker, st: Storage, node: Node, maxDepth: nat): Walker
    decreases if w.Reading? then w.check else 0, if w.Reading? then 1 else 0
  {
    if !w.Reading? then w
    else
      var asked := ReadLocal(w, st, maxDepth);
      if asked.Reading? then Alone(asked, st, node, maxDepth)
      else if asked.Asking? && w.check > 0 then Alone(HearRemote(asked, RemoteHash(node, w.check)), st, node, maxDepth)
      else asked
  }

  lemma {:induction false} AloneWalksBack(st: Storage, node: Node, current: nat, maxDepth: nat, check: nat, detected: bool)
    ensures Alone(Reading(current, check, detected), st, node, maxDepth) ==
            match WalkBack(st, node, current, maxDepth, check, detected)
            case Keep => Done(current, current)
            case RollTo(h) => Cutting(current, h)
    decreases check
  {
    if InWindow(current, maxDepth, check) {
      if check !in st.hashes {
        AloneWalksBack(st, node, current, maxDepth, check - 1, detected);
      } else if RemoteHash(node, check).Some? && RemoteHash(node, check).value != st.hashes[check] {
        AloneWalksBack(st, node, current, maxDepth, check - 1, true);
      }
    }
  }

  /** A walk that nobody interrupts comes to the decision of module Reorg. */
  lemma {:induction false} AloneIsDecision(st: Storage, node: Node, current: nat, maxDepth: nat)
    ensures Alone(Begin(current), st, node, maxDepth) ==
            match Decision(st, node, current, maxDepth)
            case Keep => Done(current, current)
            case RollTo(h) => Cutting(current, h)
  {
    if current > 0 {
      AloneWalksBack(st, node, current, maxDepth, current - 1, false);
    }
  }

  // ---------------------------------------------------------------- walks and the tip

  /** A walk that has seen a contradiction is below the tip already, and rolls back to below it. */
  predicate BelowTip(w: Walker, tip: nat) {
    match w
    case Reading(_, check, detected) => detected ==> check < tip
    case Asking(_, check, detected, _) => detected ==> check < tip
    case Cutting(_, height) => height < tip
    case _ => true
  }

  /** The node contradicts a record above the tip. */
  predicate HearsAboveTip(w: Walker, answer: Option<BlockHash>, tip: nat) {
    w.Asking? && answer.Some? && answer.value != w.local && w.check > tip
  }

  lemma ReadStaysBelow(w: Walker, st: Storage, maxDepth: nat, tip: nat)
    requires BelowTip(w, tip)
    ensures BelowTip(ReadLocal(w, st, maxDepth), tip)
  {
  }

  /** An answer takes a walk out of place exactly when it contradicts a record above the tip. */
  lemma HearStaysBelowIff(w: Walker, answer: Option<BlockHash>, tip: nat)
    requires BelowTip(w, tip) && (w.Asking? ==> w.check > 0)
    ensures BelowTip(HearRemote(w, answer), tip) <==> !HearsAboveTip(w, answer, tip)
  {
  }
}
