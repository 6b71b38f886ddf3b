/**
 The snapshot-enabled engine: its block call gives up silently on a block the cursor has passed,
 and its fetch takes a floor below which it never fetches. Other tasks move storage and cursor
 between the attempts of a call; what each attempt finds is a parameter.
 */
module SnapshotEngine {
  import opened Basics
  import opened Versions
  import opened SyncStorage
  import opened Reorg
  import opened SyncEngine

  /** The block was committed, passed over as stale, or refused with an error. */
  datatype CallResult = Applied | Skipped | Refused

  /** Storage and cursor as an attempt finds them. */
  datatype World = World(storage: Storage, cursor: nat)

  /** An attempt that neither finds the block stale nor settles it, so that another follows. */
  predicate Undecided(height: nat, attempt: Attempt, world: World) {
    height >= world.cursor && (attempt.ExecutionFails? || (attempt.WriteFails? && InOrder(world.storage, height)))
  }

  /** All attempts before the `n`-th are undecided. */
  ghost predicate Reaches(height: nat, attempts: nat -> Attempt, world: nat -> World, n: nat) {
    forall a :: 1 <= a < n ==> Undecided(height, attempts(a), world(a))
  }

  /** The attempt that finds the cursor past the block; the guard is asked once more after the last attempt. */
  ghost predicate SkipsAt(height: nat, attempts: nat -> Attempt, world: nat -> World, a: nat) {
    1 <= a <= MAX_ATTEMPTS + 1 && Reaches(height, attempts, world, a) && height < world(a).cursor
  }

  ghost predicate AppliesAt(height: nat, attempts: nat -> Attempt, world: nat -> World, a: nat) {
    && 1 <= a <= MAX_ATTEMPTS && Reaches(height, attempts, world, a)
    && height >= world(a).cursor && attempts(a).Works? && InOrder(world(a).storage, height)
  }

  class Engine {
    var storage: Storage
    var node: Node
    var cursor: nat
    const maxDepth: nat
    const policy: Policy

    constructor (storage: Storage, node: Node, cursor: nat, maxDepth: nat, policy: Policy)
      ensures this.storage == storage && this.node == node && this.cursor == cursor
      ensures this.maxDepth == maxDepth && this.policy == policy
    {
      this.storage, this.node, this.cursor := storage, node, cursor;
      this.maxDepth, this.policy := maxDepth, policy;
    }

    /**
     Validate, then attempt a bounded number of times, asking before each attempt whether the block
     is stale by now.
     */
    method ProcessBlock(height: nat, block: NodeBlock, writes: seq<Write>, attempts: nat -> Attempt, world: nat -> World)
      returns (r: CallResult, last: nat)
      modifies this`storage, this`cursor
      ensures last == 0 <==> !Accepts(policy, old(storage), height, block)
      ensures last == 0 ==> r.Refused? && storage == old(storage) && cursor == old(cursor)
      ensures r.Skipped? <==> last > 0 && SkipsAt(height, attempts, world, last)
      ensures r.Applied? <==> last > 0 && AppliesAt(height, attempts, world, last)
      ensures last > 0 ==> Reaches(height, attempts, world, last) && last <= 31
      ensures r.Refused? && last > 0 ==>
                last > 30 || (!attempts(last).ExecutionFails? && !InOrder(world(last).storage, height))
      ensures r.Applied? ==> storage == Commit(world(last).storage, height, block.claimed, writes) && cursor == height + 1
      ensures !r.Applied? && last > 0 ==> storage == world(last).storage && cursor == world(last).cursor
    {
      if !Accepts(policy, storage, height, block) {
        return Refused, 0;
      }
      var attempt := 0;
      while true
        invariant 0 <= attempt <= MAX_ATTEMPTS && Reaches(height, attempts, world, attempt + 1)
        decreases MAX_ATTEMPTS - attempt
      {
        attempt := attempt + 1;
        storage, cursor := world(attempt).storage, world(attempt).cursor;
        if height < cursor {
          return Skipped, attempt;
        }
        if attempt > MAX_ATTEMPTS {
          return Refused, attempt;
        }
        if attempts(attempt).ExecutionFails? {
          continue;
        }
        if !InOrder(storage, height) {
          return Refused, attempt;
        }
        if attempts(attempt).Works? {
          storage := Commit(storage, height, block.claimed, writes);
          cursor := height + 1;
          return Applied, attempt;
        }
      }
    }

    /**
     The next height to fetch, with the node's block there; None is to wait, Err a failed request or
     a failed refresh after a rollback, which leaves the cursor where it was.
     */
    method NextBlock(floor: Option<nat>, remoteTip: nat, threshold: nat, exitAt: Option<nat>, refreshed: bool)
      returns (r: Result<Option<(nat, NodeBlock)>>)
      modifies this`storage, this`cursor
      ensures var walk := if SaturatingSub(remoteTip, old(cursor)) <= threshold
                          then Decision(old(storage), node, old(cursor), maxDepth) else Keep;
              && storage == StorageAfter(old(storage), walk)
              && (walk.RollTo? && !refreshed ==> r.Err? && cursor == old(cursor))
              && (walk.Keep? || refreshed ==>
                    && cursor == CursorAfter(old(cursor), walk)
                    && var h := FetchHeight(cursor, floor);
                    && (r.Ok? && r.value.Some? ==>
                          && r.value.value.0 == h <= remoteTip && node.connected && h in node.blocks
                          && r.value.value.1 == node.blocks[h] && (exitAt.Some? ==> h < exitAt.value))
                    && (h <= remoteTip && (exitAt.Some? ==> h < exitAt.value) && node.connected && h in node.blocks ==>
                          r == Ok(Some((h, node.blocks[h]))))
                    && (r.Err? <==>
                          h <= remoteTip && (exitAt.Some? ==> h < exitAt.value) && !(node.connected && h in node.blocks))
                    && (r == Ok(None) <==> (exitAt.Some? && h >= exitAt.value) || h > remoteTip))
    {
      if SaturatingSub(remoteTip, cursor) <= threshold {
        var walk := Decision(storage, node, cursor, maxDepth);
        storage := StorageAfter(storage, walk);
        if walk.RollTo? && !refreshed {
          return Err;
        }
        cursor := CursorAfter(cursor, walk);
      }
      var fetch := if floor.Some? && floor.value > cursor then floor.value else cursor;
      if exitAt.Some? && fetch >= exitAt.value {
        return Ok(None);
      }
      if fetch > remoteTip {
        return Ok(None);
      }
      if node.connected && fetch in node.blocks {
        r := Ok(Some((fetch, node.blocks[fetch])));
      } else {
        r := Err;
      }
    }
  }

  /** At most one attempt of a call skips or applies the block, and not both. */
  lemma {:induction false} OneAttemptSettles(height: nat, attempts: nat -> Attempt, world: nat -> World, a: nat, b: nat)
    requires SkipsAt(height, attempts, world, a) || AppliesAt(height, attempts, world, a)
    requires SkipsAt(height, attempts, world, b) || AppliesAt(height, attempts, world, b)
    ensures a == b && (SkipsAt(height, attempts, world, a) <==> !AppliesAt(height, attempts, world, a))
  {
    assert !Undecided(height, attempts(a), world(a)) || a == MAX_ATTEMPTS + 1;
    assert !Undecided(height, attempts(b), world(b)) || b == MAX_ATTEMPTS + 1;
  }

  /**
   A block that another task commits during the call, storage and cursor moving past it together
   before attempt `k`, is passed over there if no earlier attempt settled it; without the guard
   the commit would be out of order.
   */
  lemma {:induction false} OvertakenCallSkips(height: nat, attempts: nat -> Attempt, world: nat -> World, k: nat)
    requires 1 <= k <= MAX_ATTEMPTS && Reaches(height, attempts, world, k)
    requires world(k).cursor > height && world(k).storage.tip >= height && 0 in world(k).storage.hashes
    ensures SkipsAt(height, attempts, world, k) && !InOrder(world(k).storage, height)
    ensures forall a :: a != k ==> !SkipsAt(height, attempts, world, a) && !AppliesAt(height, attempts, world, a)
  {
    forall a | a != k ensures !SkipsAt(height, attempts, world, a) && !AppliesAt(height, attempts, world, a) {
      if SkipsAt(height, attempts, world, a) || AppliesAt(height, attempts, world, a) {
        OneAttemptSettles(height, attempts, world, a, k);
      }
    }
  }
}
