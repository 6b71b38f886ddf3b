/**
 The startup heal with the hooks of the production storage: reconcile the indexed height, the
 runtime's own pointer and the highest stored hash, walk back to a hash the node confirms, roll
 back if anything is above it, and write both pointers.
 */
module Heal {
  import opened Basics
  import opened Versions
  import opened SyncStorage
  import opened Reorg

  /** How far below the indexed height the hash scan looks. */
  const SCAN_WINDOW: nat := 256

  /** The scan for the highest stored hash, from `h` down to `floor`; zero if there is none. */
  function ScanHashes(st: Storage, h: nat, floor: nat): nat
    decreases h
  {
    if h in st.hashes then h
    else if h > floor then ScanHashes(st, h - 1, floor)
    else 0
  }

  function MaxStoredHash(st: Storage): nat {
    if st.tip == 0 then 0 else ScanHashes(st, st.tip, SaturatingSub(st.tip, SCAN_WINDOW))
  }

  /** The walk down from a candidate: a confirmed hash, a failing node, the floor or zero ends it. */
  function HealWalk(st: Storage, node: Node, h: nat, floor: nat): nat
    decreases h
  {
    if h in st.hashes && (RemoteHash(node, h).None? || Agrees(st, node, h)) then h
    else if h == 0 || h <= floor then h
    else HealWalk(st, node, h - 1, floor)
  }

  /** The lowest of the three. */
  function Candidate(st: Storage): nat {
    Min(Min(st.tip, st.runtimeTip), MaxStoredHash(st))
  }

  /** The height the heal settles on. */
  function SafeHeight(st: Storage, node: Node, maxDepth: nat): nat {
    var candidate := Candidate(st);
    if !node.connected then candidate
    else HealWalk(st, node, candidate, SaturatingSub(candidate, maxDepth))
  }

  /** The pointer heal: roll back if the target is below, write both pointers, or refuse to move the tip forward. */
  function HealPointers(st: Storage, target: nat): Result<Storage> {
    if st.tip == target && st.runtimeTip == target then Ok(st)
    else if st.tip < target then Err
    else Ok((if st.tip > target then RollbackTo(st, target) else st).(runtimeTip := target))
  }

  /** The storage after a heal; Err if the pointer heal refuses. */
  function Healed(st: Storage, node: Node, maxDepth: nat): Result<Storage> {
    var safe := SafeHeight(st, node, maxDepth);
    if safe < st.tip || safe < st.runtimeTip || safe < MaxStoredHash(st) then HealPointers(st, safe) else Ok(st)
  }

  lemma {:induction false} ScanFinds(st: Storage, h: nat, floor: nat)
    ensures var found := ScanHashes(st, h, floor);
            && found <= h
            && (found == 0 || found in st.hashes)
            && (h in st.hashes ==> found == h)
    decreases h
  {
    if h !in st.hashes && h > floor {
      ScanFinds(st, h - 1, floor);
    }
  }

  lemma {:induction false} HealWalkEnds(st: Storage, node: Node, h: nat, floor: nat)
    ensures var safe := HealWalk(st, node, h, floor);
            && safe <= h
            && (Agrees(st, node, safe) || (safe in st.hashes && RemoteHash(node, safe).None?) ||
                safe == 0 || safe <= floor)
            && (floor <= h ==> safe >= floor)
            && (forall g :: safe < g <= h ==> !Agrees(st, node, g))
    decreases h
  {
    if h in st.hashes && (RemoteHash(node, h).None? || Agrees(st, node, h)) {
    } else if h > 0 && h > floor {
      HealWalkEnds(st, node, h - 1, floor);
    }
  }

  lemma {:induction false} MaxStoredHashIs(st: Storage)
    ensures MaxStoredHash(st) <= st.tip && (MaxStoredHash(st) == 0 || MaxStoredHash(st) in st.hashes)
    ensures st.tip in st.hashes ==> MaxStoredHash(st) == st.tip
  {
    if st.tip > 0 {
      ScanFinds(st, st.tip, SaturatingSub(st.tip, SCAN_WINDOW));
    }
  }

  lemma {:induction false} ScanIsHighest(st: Storage, h: nat, floor: nat)
    requires floor <= h
    ensures var found := ScanHashes(st, h, floor);
            if exists g :: floor <= g <= h && g in st.hashes
            then floor <= found <= h && found in st.hashes && forall g :: found < g <= h ==> g !in st.hashes
            else found == 0
    decreases h
  {
    if h !in st.hashes && h > floor {
      ScanIsHighest(st, h - 1, floor);
      assert forall g :: floor <= g <= h && g in st.hashes ==> g <= h - 1;
    }
  }

  /** The scan finds the highest hash stored at most 256 below the tip, and zero if there is none. */
  lemma {:induction false} MaxStoredHashIsHighest(st: Storage)
    ensures var found := MaxStoredHash(st);
            if exists g :: st.tip <= g + 256 && g <= st.tip && g in st.hashes
            then st.tip <= found + 256 && found <= st.tip && (found in st.hashes || st.tip == 0) &&
                 forall g :: found < g <= st.tip ==> g !in st.hashes
            else found == 0
  {
    if st.tip > 0 {
      var floor := SaturatingSub(st.tip, SCAN_WINDOW);
      ScanIsHighest(st, st.tip, floor);
    }
  }

  /**
   Where the heal settles, on the inputs: at the highest height from the lowest pointer down, within
   the depth, that has a hash the node does not contradict, or at the end of the depth.
   */
  lemma {:induction false} SettlesAtHighest(st: Storage, node: Node, maxDepth: nat)
    requires node.connected
    ensures var low, safe := Candidate(st), SafeHeight(st, node, maxDepth);
            var floor := if low > maxDepth then low - maxDepth else 0;
            && floor <= safe <= low
            && (forall g :: safe < g <= low && g in st.hashes ==> Contradicts(st, node, g))
            && (safe > floor ==> safe in st.hashes && !Contradicts(st, node, safe))
  {
    HealWalkStops(st, node, Candidate(st), SaturatingSub(Candidate(st), maxDepth));
  }

  /**
   The heal never moves the tip forward, so its refusal never happens; it lands at or below all
   three pointers, and against an answering node at a confirmed hash, the depth floor or zero.
   */
  lemma {:induction false} HealIsSafe(st: Storage, node: Node, maxDepth: nat)
    ensures var safe := SafeHeight(st, node, maxDepth);
            && safe <= st.tip && safe <= st.runtimeTip && safe <= MaxStoredHash(st)
            && Healed(st, node, maxDepth) ==
               Ok((if safe < st.tip then RollbackTo(st, safe) else st).(runtimeTip := safe))
            && ((node.connected && forall h :: h in st.hashes && h <= st.tip ==> RemoteHash(node, h).Some?) ==>
                  Agrees(st, node, safe) || safe == 0 || safe == SaturatingSub(Candidate(st), maxDepth))
  {
    MaxStoredHashIs(st);
    HealWalkEnds(st, node, Candidate(st), SaturatingSub(Candidate(st), maxDepth));
  }

  /** The node fails in the middle of the walk: the heal settles on the height reached, not on the candidate. */
  lemma {:induction false} HealStopsAtFailure(st: Storage, node: Node, maxDepth: nat, at: nat)
    requires node.connected && at in st.hashes && RemoteHash(node, at).None?
    requires SaturatingSub(Candidate(st), maxDepth) <= at <= Candidate(st)
    requires forall g :: at < g <= Candidate(st) && g in st.hashes ==> Contradicts(st, node, g)
    ensures SafeHeight(st, node, maxDepth) == at
  {
    var floor := SaturatingSub(Candidate(st), maxDepth);
    HealWalkStops(st, node, Candidate(st), floor);
    assert at in st.hashes && !Contradicts(st, node, at);
  }

  /**
   A state in which the heal keeps the tip: no pointer is below, the tip has its hash, no reachable
   node contradicts it.
   */
  predicate Settled(st: Storage, node: Node, maxDepth: nat) {
    st.tip == 0 ||
    (st.tip in st.hashes && st.runtimeTip >= st.tip &&
     (RemoteHash(node, st.tip).None? || Agrees(st, node, st.tip) || maxDepth == 0))
  }

  lemma {:induction false} HealKeepsTipIff(st: Storage, node: Node, maxDepth: nat)
    ensures SafeHeight(st, node, maxDepth) == st.tip <==> Settled(st, node, maxDepth)
  {
    HealIsSafe(st, node, maxDepth);
    MaxStoredHashIs(st);
    if st.tip > 0 && st.tip in st.hashes && st.runtimeTip >= st.tip {
      if maxDepth > 0 && RemoteHash(node, st.tip).Some? && !Agrees(st, node, st.tip) {
        HealWalkEnds(st, node, st.tip - 1, SaturatingSub(st.tip, maxDepth));
      }
    }
  }

  /** The heal writes nothing exactly in a settled state with the runtime's pointer at the tip. */
  lemma {:induction false} HealWritesNothingIff(st: Storage, node: Node, maxDepth: nat)
    ensures Healed(st, node, maxDepth) == Ok(st) <==> Settled(st, node, maxDepth) && st.runtimeTip == st.tip
  {
    HealIsSafe(st, node, maxDepth);
    HealKeepsTipIff(st, node, maxDepth);
  }

  /** A stored hash between the depth floor and the candidate that the node does not contradict. */
  ghost predicate Unopposed(st: Storage, node: Node, maxDepth: nat) {
    exists g :: SaturatingSub(Candidate(st), maxDepth) <= g <= Candidate(st) && g in st.hashes && !Contradicts(st, node, g)
  }

  lemma {:induction false} HealWalkStops(st: Storage, node: Node, h: nat, floor: nat)
    requires floor <= h
    ensures var safe := HealWalk(st, node, h, floor);
            && floor <= safe <= h
            && ((safe in st.hashes && !Contradicts(st, node, safe)) <==>
                  exists g :: floor <= g <= h && g in st.hashes && !Contradicts(st, node, g))
            && ((safe in st.hashes && !Contradicts(st, node, safe)) || safe == floor)
            && (forall g :: safe < g <= h && g in st.hashes ==> Contradicts(st, node, g))
    decreases h
  {
    if !(h in st.hashes && !Contradicts(st, node, h)) && h > 0 && h > floor {
      HealWalkStops(st, node, h - 1, floor);
    }
  }

  /** The first heal ends at zero, or at a stored hash that is not walked past. */
  ghost predicate HealsForGood(st: Storage, node: Node, maxDepth: nat) {
    || Candidate(st) == 0
    || (node.connected && (Candidate(st) <= maxDepth || Unopposed(st, node, maxDepth)))
    || ((!node.connected || maxDepth == 0) && Candidate(st) in st.hashes)
  }

  /**
   The code calls a second heal a no-op. Against the same node it is one exactly when the lowest
   pointer is zero, the depth reaches height zero, the window holds a stored hash the node does
   not contradict, or there is no node or no depth and the lowest pointer has its hash.
   */
  lemma {:induction false} SecondHealIsNoOpIff(st: Storage, node: Node, maxDepth: nat)
    ensures var first := Healed(st, node, maxDepth);
            first.Ok? && (Healed(first.value, node, maxDepth) == first <==> HealsForGood(st, node, maxDepth))
  {
    HealIsSafe(st, node, maxDepth);
    var healed, safe := Healed(st, node, maxDepth).value, SafeHeight(st, node, maxDepth);
    RollbackKeepsRecords(st, safe);
    HealWritesNothingIff(healed, node, maxDepth);
    HealWalkStops(st, node, Candidate(st), SaturatingSub(Candidate(st), maxDepth));
    assert safe in healed.hashes <==> safe in st.hashes;
    assert Contradicts(healed, node, safe) <==> Contradicts(st, node, safe);
  }

  /**
   A run into the depth floor: here the node contradicts every stored hash and each heal moves
   one height further down.
   */
  lemma {:induction false} HealAtFloorIsNotIdempotent(hashes: map<nat, BlockHash>, node: Node)
    requires forall h: nat :: h in hashes <==> h <= 3
    requires node.connected && forall h :: 0 <= h <= 3 ==> h in node.blocks && node.blocks[h].claimed != hashes[h]
    ensures var first := Healed(Storage(3, 3, hashes, map[], map[]), node, 1);
            && first.Ok? && first.value.tip == 2
            && Healed(first.value, node, 1).Ok? && Healed(first.value, node, 1).value.tip == 1
  {
    var st := Storage(3, 3, hashes, map[], map[]);
    HealIsSafe(st, node, 1);
    var first := RollbackTo(st, 2).(runtimeTip := 2);
    assert Candidate(st) == 3;
    assert HealWalk(st, node, 3, 2) == HealWalk(st, node, 2, 2) == 2;
    HealIsSafe(first, node, 1);
    assert Candidate(first) == 2;
    assert HealWalk(first, node, 2, 1) == HealWalk(first, node, 1, 1) == 1;
  }

  lemma PointerKeepsChain(st: Storage, runtimeTip: nat)
    ensures ChainStored(st) <==> ChainStored(st.(runtimeTip := runtimeTip))
  {
    var moved := st.(runtimeTip := runtimeTip);
    forall h: nat ensures Linked(st, h) <==> Linked(moved, h) {
    }
  }

  /** A heal keeps the stored chain. */
  lemma {:induction false} HealKeepsChain(st: Storage, node: Node, maxDepth: nat)
    requires ChainStored(st)
    ensures Healed(st, node, maxDepth).Ok? && ChainStored(Healed(st, node, maxDepth).value)
  {
    HealIsSafe(st, node, maxDepth);
    var safe := SafeHeight(st, node, maxDepth);
    RollbackKeepsChainIff(st, safe);
    PointerKeepsChain(if safe < st.tip then RollbackTo(st, safe) else st, safe);
  }

  /** The height the heal settles on has a record. */
  lemma {:induction false} HealLandsOnRecord(st: Storage, node: Node, maxDepth: nat)
    requires Gapless(st)
    ensures SafeHeight(st, node, maxDepth) <= st.tip && SafeHeight(st, node, maxDepth) in st.hashes
  {
    HealIsSafe(st, node, maxDepth);
    MaxStoredHashIs(st);
    NoGapBelow(st, MaxStoredHash(st), SafeHeight(st, node, maxDepth));
  }

  /** The depth ends above height 0, or some record above it, up to the lowest pointer, is not contradicted. */
  ghost predicate StopsAboveZero(st: Storage, node: Node, maxDepth: nat) {
    var low := Candidate(st);
    low > 0 && (!node.connected || maxDepth < low || exists g :: 0 < g <= low && !Contradicts(st, node, g))
  }

  /** On records without a gap the heal leaves a tip above 0 if and only if it stops above zero. */
  lemma {:induction false} HealedAboveZeroIff(st: Storage, node: Node, maxDepth: nat)
    requires Gapless(st)
    ensures SafeHeight(st, node, maxDepth) > 0 <==> StopsAboveZero(st, node, maxDepth)
  {
    MaxStoredHashIs(st);
    HealIsSafe(st, node, maxDepth);
    var low, safe := Candidate(st), SafeHeight(st, node, maxDepth);
    HealWalkStops(st, node, low, SaturatingSub(low, maxDepth));
    forall g: nat | g <= low ensures g in st.hashes {
      NoGapBelow(st, MaxStoredHash(st), g);
    }
    assert node.connected && safe > 0 && maxDepth >= low ==> !Contradicts(st, node, safe);
  }
}
