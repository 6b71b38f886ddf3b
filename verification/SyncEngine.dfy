/**
 The sync engine as the program runs it: loops over storage and node, a bounded retry around
 the atomic commit, and the startup sequence.
 */
module SyncEngine {
  import opened Basics
  import opened Versions
  import opened SyncStorage
  import opened Reorg
  import opened Heal

  /** Who decides whether a block may be applied: the inline check or an installed validator. */
  datatype Policy = Inline | Continuity | Anchored(genesis: Header)

  /** The block is what it claims to be and names the stored hash below it as its parent. */
  predicate Accepts(policy: Policy, st: Storage, height: nat, block: NodeBlock) {
    && block.claimed == HashOf(block.header)
    && (height > 0 ==>
          if height - 1 in st.hashes then st.hashes[height - 1] == block.header.prev else policy.Inline?)
    && (policy.Anchored? && height == 0 ==> block.claimed == HashOf(policy.genesis))
  }

  /** How one attempt at a block goes before the in-order check has its say. */
  datatype Attempt = ExecutionFails | WriteFails | Works

  const MAX_ATTEMPTS: nat := 30

  /** Attempts up to `n` decide the block: one of them runs to the commit and the write succeeds. */
  ghost predicate SomeAttemptWorks(attempts: nat -> Attempt, n: nat) {
    exists a :: 1 <= a <= n && attempts(a) == Works
  }

  /** The height that is fetched: the cursor, raised to the floor. */
  function FetchHeight(current: nat, floor: Option<nat>): (h: nat)
    ensures h >= current && (floor.Some? ==> h >= floor.value) && (h == current || floor == Some(h))
  {
    if floor.Some? && floor.value > current then floor.value else current
  }

  /**
   The height startup resumes from: above both the tip and the start block, but at 0 for tip 0 and no
   start block.
   */
  function ResumeFrom(tip: nat, startBlock: nat): nat {
    if startBlock > tip then startBlock else if tip > 0 then tip + 1 else startBlock
  }

  class Engine {
    var storage: Storage
    var node: Node
    var cursor: nat
    const maxDepth: nat
    const policy: Policy

    constructor (storage: Storage, node: Node, maxDepth: nat, policy: Policy)
      ensures this.storage == storage && this.node == node && cursor == 0
      ensures this.maxDepth == maxDepth && this.policy == policy
    {
      this.storage, this.node, this.cursor := storage, node, 0;
      this.maxDepth, this.policy := maxDepth, policy;
    }

    /**
     Compare stored and remote hashes downward and roll back to the last agreement. If the
     runtime cannot be refreshed after a rollback, that is an error and no height is returned.
     */
    method HandleReorg(current: nat, refreshed: bool) returns (r: Result<nat>)
      modifies this`storage
      ensures var walk := Decision(old(storage), node, current, maxDepth);
              && storage == StorageAfter(old(storage), walk)
              && (r == if walk.RollTo? && !refreshed then Err else Ok(CursorAfter(current, walk)))
              && (walk.RollTo? && refreshed ==> r == Ok(storage.tip + 1))
    {
      if current == 0 {
        return Ok(0);
      }
      var check, detected := current - 1, false;
      while check > 0 && check >= SaturatingSub(current, maxDepth)
        invariant storage == old(storage) && 0 <= check < current
        invariant WalkBack(storage, node, current, maxDepth, check, detected) ==
                  Decision(storage, node, current, maxDepth)
        decreases check
      {
        if check !in storage.hashes {
          check := check - 1;
          continue;
        }
        var remote := RemoteHash(node, check);
        if remote.None? {
          return Ok(current);
        }
        if remote.value == storage.hashes[check] {
          break;
        }
        detected := true;
        check := check - 1;
      }
      if detected {
        storage := RollbackTo(storage, check);
        if !refreshed {
          return Err;
        }
        return Ok(check + 1);
      }
      r := Ok(current);
    }

    /** All or nothing, and only at the tip plus one. */
    method CommitAtomic(height: nat, hash: BlockHash, writes: seq<Write>) returns (r: Result<()>)
      modifies this`storage
      ensures r.Ok? <==> InOrder(old(storage), height)
      ensures storage == if r.Ok? then Commit(old(storage), height, hash, writes) else old(storage)
    {
      var isFresh := storage.tip == 0 && 0 !in storage.hashes;
      if !isFresh && height != storage.tip + 1 {
        return Err;
      }
      storage := Commit(storage, height, hash, writes);
      r := Ok(());
    }

    /**
     Validate a block, then execute and commit it, retrying a bounded number of times. Every
     execution of the same block produces the same writes. An out-of-order commit is final.
     */
    method ProcessBlock(height: nat, block: NodeBlock, writes: seq<Write>, attempts: nat -> Attempt)
      returns (r: Result<()>)
      modifies this`storage
      ensures storage == if r.Ok? then Commit(old(storage), height, block.claimed, writes) else old(storage)
      ensures r.Ok? <==>
                && Accepts(policy, old(storage), height, block)
                && InOrder(old(storage), height)
                && SomeAttemptWorks(attempts, 30)
    {
      if !Accepts(policy, storage, height, block) {
        return Err;
      }
      var attempt := 0;
      while true
        invariant storage == old(storage) && 0 <= attempt <= MAX_ATTEMPTS
        invariant forall a :: 1 <= a <= attempt ==> attempts(a) != Works
        decreases MAX_ATTEMPTS - attempt
      {
        attempt := attempt + 1;
        if attempt > MAX_ATTEMPTS {
          return Err;
        }
        if attempts(attempt) == ExecutionFails {
          continue;
        }
        if !InOrder(storage, height) {
          return Err;
        }
        if attempts(attempt) == Works {
          r := CommitAtomic(height, block.claimed, writes);
          return;
        }
      }
    }

    /** The scan for the highest stored hash. */
    method FindMaxStoredHash(floor: nat) returns (found: nat)
      requires floor <= storage.tip
      ensures found == if storage.tip == 0 then 0 else ScanHashes(storage, storage.tip, floor)
    {
      if storage.tip == 0 {
        return 0;
      }
      var h := storage.tip;
      while h > floor
        invariant floor <= h <= storage.tip
        invariant ScanHashes(storage, h, floor) == ScanHashes(storage, storage.tip, floor)
        decreases h
      {
        if h in storage.hashes {
          return h;
        }
        h := h - 1;
      }
      found := if h in storage.hashes then h else 0;
    }

    /**
     Startup: reconcile the pointers, then put the cursor behind the tip, or at the start block if
     that is above.
     */
    method Init(startBlock: nat) returns (r: Result<nat>)
      modifies this`storage, this`cursor
      ensures r.Ok? <==> Healed(old(storage), node, maxDepth).Ok?
      ensures r.Ok? ==>
                && r.value == SafeHeight(old(storage), node, maxDepth)
                && storage == Healed(old(storage), node, maxDepth).value
                && cursor == ResumeFrom(storage.tip, startBlock)
                && (startBlock <= storage.tip && storage.tip > 0 ==> cursor == storage.tip + 1)
                && (startBlock > storage.tip || storage.tip == 0 ==> cursor == startBlock)
    {
      r := HealPointerDivergence();
      if r.Ok? {
        if startBlock > 0 && startBlock > storage.tip {
          cursor := startBlock;
        } else if storage.tip > 0 {
          cursor := storage.tip + 1;
        } else {
          cursor := startBlock;
        }
      }
    }

    method HealPointerDivergence() returns (r: Result<nat>)
      modifies this`storage
      ensures r.Ok? <==> Healed(old(storage), node, maxDepth).Ok?
      ensures r.Ok? ==> r.value == SafeHeight(old(storage), node, maxDepth)
      ensures storage == if r.Ok? then Healed(old(storage), node, maxDepth).value else old(storage)
    {
      var indexed, runtimeTip := storage.tip, storage.runtimeTip;
      var maxHash := FindMaxStoredHash(SaturatingSub(indexed, SCAN_WINDOW));
      var allAgree := indexed == runtimeTip && runtimeTip == maxHash;
      if allAgree && indexed == 0 {
        return Ok(0);
      }
      var candidate := Min(Min(indexed, runtimeTip), maxHash);
      if allAgree && node.connected && candidate in storage.hashes {
        var remote := RemoteHash(node, candidate);
        if remote.None? || remote.value == storage.hashes[candidate] {
          return Ok(candidate);
        }
      }
      var safe := candidate;
      if node.connected {
        var floor := SaturatingSub(candidate, maxDepth);
        while true
          invariant 0 <= safe <= candidate && storage == old(storage)
          invariant HealWalk(storage, node, safe, floor) == HealWalk(storage, node, candidate, floor)
          decreases safe
        {
          if safe in storage.hashes {
            var remote := RemoteHash(node, safe);
            if remote.None? || remote.value == storage.hashes[safe] {
              break;
            }
          }
          if safe == 0 || safe <= floor {
            break;
          }
          safe := safe - 1;
        }
      }
      if safe < indexed || safe < runtimeTip || safe < maxHash {
        var healed := HealPointers(storage, safe);
        if healed.Err? {
          return Err;
        }
        storage := healed.value;
      }
      r := Ok(safe);
    }
  }
}
