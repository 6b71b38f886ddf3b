/**
 The runtime's atomic block call: a slot is armed, the guest runs, each flush leaves its batch in
 the slot instead of the store, and the call hands the batch over for one later commit. What
 the guest and the machine do during the call is a parameter.
 */
module Runtime {
  import opened Basics
  import opened Versions
  import opened Physical
  import opened Store
  import Indexing

  /** A flush by the guest: readable or not, its batch built or failing on storage. */
  datatype FlushCall = Unreadable | BuildFails(writes: seq<Write>) | Flush(writes: seq<Write>)

  /**
   One call: whether the entry point is found, the guest's flushes, whether it traps, and the two
   steps after it.
   */
  datatype Attempt = Attempt(
    startFound: bool,
    flushes: seq<FlushCall>,
    traps: bool,
    rootRead: bool,
    refreshed: bool)

  predicate AllFlushed(flushes: seq<FlushCall>) {
    forall i :: 0 <= i < |flushes| ==> flushes[i].Flush?
  }

  /** The guest returned, every flush went through, there was one, and no earlier failure was left behind. */
  predicate Executes(a: Attempt, failedBefore: bool) {
    !a.traps && AllFlushed(a.flushes) && a.flushes != [] && !failedBefore
  }

  /** What the program's read of a key gives: the value it sees, or nothing. */
  function SeenValue(view: View, key: Key): Bytes {
    if key in view then view[key] else []
  }

  /** Applied to the store, the operations give what a flush of these writes at this height gives. */
  ghost predicate IsBatchOf(ops: seq<Op>, db: Db, height: nat, writes: seq<Write>) {
    ApplyOps(db, ops) == Flushed(db, height, writes, Indexing.CarriedRoot(db, height))
  }

  class BlockRuntime {
    const store: VersionedStore
    var slot: Option<seq<Op>>
    var state: nat
    var hadFailure: bool
    var flushError: bool

    constructor (store: VersionedStore)
      ensures this.store == store && slot == None && !hadFailure && !flushError
    {
      this.store, slot, state, hadFailure, flushError := store, None, 0, false, false;
    }

    /**
     A read by the guest: the lookup at the height below, an absent value or a failing lookup as
     nothing. On an ordered store it is what a program sees below the block's height.
     */
    method HostGet(height: nat, key: Key) returns (value: Bytes)
      requires Len(store.db, key) <= 0x8000_0000
      ensures Shaped(store.db) && Ordered(Hist(store.db, key)) ==>
                forall view :: Indexing.SeesBelow(view, VersionsIn(store.db), height) ==> value == SeenValue(view, key)
    {
      var lookup := store.GetAtHeight(key, if height > 0 then height - 1 else 0);
      value := if lookup.Ok? && lookup.value.Some? then lookup.value.value else [];
      if Shaped(store.db) && Ordered(Hist(store.db, key)) {
        forall view | Indexing.SeesBelow(view, VersionsIn(store.db), height) ensures value == SeenValue(view, key) {
          Indexing.LookupIsSeen(view, store.db, height, key);
        }
      }
    }

    /** With the slot armed the batch replaces the slot's content; without, it is written at once. */
    method HostFlush(height: nat, call: FlushCall)
      modifies this, store
      ensures slot.Some? == old(slot).Some?
      ensures old(slot).Some? || !call.Flush? ==> store.db == old(store.db)
      ensures old(slot).None? && call.Flush? ==>
                store.db == Flushed(old(store.db), height, call.writes, Indexing.CarriedRoot(old(store.db), height))
      ensures old(slot).Some? && call.Flush? ==> IsBatchOf(slot.value, store.db, height, call.writes)
      ensures !call.Flush? ==> slot == old(slot)
      ensures state == if call.Flush? then 1 else old(state)
      ensures hadFailure == (old(hadFailure) || !call.Flush?) && (flushError ==> old(flushError) || !call.Flush?)
      ensures old(flushError) ==> flushError
    {
      match call
      case Unreadable => hadFailure := true;
      case BuildFails(_) => flushError, hadFailure := true, true;
      case Flush(writes) =>
        var batch := store.BuildBatch(height, writes, Indexing.CarriedRoot(store.db, height));
        if slot.Some? {
          slot := Some(batch);
        } else {
          store.db := ApplyOps(store.db, batch);
        }
        state := 1;
    }

    /**
     Commits nothing; succeeds exactly when the guest executes and both later steps work, with the
     batch of the last flush. The slot is disarmed unless the entry point is missing or the root
     cannot be read after a good execution. A failure flag is cleared by a refresh and by nothing else.
     */
    method ProcessBlockAtomic(height: nat, a: Attempt) returns (r: Result<seq<Op>>)
      modifies this, store
      ensures store.db == old(store.db)
      ensures r.Ok? <==> a.startFound && Executes(a, old(hadFailure)) && a.rootRead && a.refreshed
      ensures a.traps || a.flushes == [] || (exists i :: 0 <= i < |a.flushes| && !a.flushes[i].Flush?) ==> r.Err?
      ensures r.Ok? ==> IsBatchOf(r.value, store.db, height, a.flushes[|a.flushes| - 1].writes)
      ensures slot.None? <==> a.startFound && (Executes(a, old(hadFailure)) ==> a.rootRead)
      ensures hadFailure <==>
                if !a.startFound then old(hadFailure)
                else !a.refreshed && (old(hadFailure) || !AllFlushed(a.flushes))
    {
      slot := Some([]);
      state := 0;
      flushError := false;
      if !a.startFound {
        return Err;
      }
      for i := 0 to |a.flushes|
        invariant store.db == old(store.db) && slot.Some?
        invariant hadFailure <==> old(hadFailure) || !AllFlushed(a.flushes[..i])
        invariant flushError ==> hadFailure
        invariant AllFlushed(a.flushes[..i]) ==> (state == 1 <==> i > 0)
        invariant i > 0 && AllFlushed(a.flushes[..i]) ==> IsBatchOf(slot.value, store.db, height, a.flushes[i - 1].writes)
      {
        assert a.flushes[..i + 1] == a.flushes[..i] + [a.flushes[i]];
        HostFlush(height, a.flushes[i]);
      }
      assert a.flushes[..|a.flushes|] == a.flushes;
      var executed := !a.traps && !flushError && !(state != 1 && !hadFailure) && !hadFailure;
      if executed {
        if !a.rootRead {
          return Err;
        }
        var batch := slot.value;
        slot := None;
        if !a.refreshed {
          return Err;
        }
        Refresh();
        return Ok(batch);
      }
      slot := None;
      if a.refreshed {
        Refresh();
      }
      r := Err;
    }

    /** A new instance of the guest starts without a failure flag. */
    method Refresh()
      modifies this`hadFailure, this`flushError
      ensures !hadFailure && !flushError
    {
      hadFailure, flushError := false, false;
    }
  }
}
