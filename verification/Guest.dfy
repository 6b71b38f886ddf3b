/**
 The guest side of a block: reads go through a cache, writes are queued by key and handed to
 the host in one flush. What the host then stores is followed through to lookups.
 */
module Guest {
  import opened Basics
  import opened Versions
  import opened Physical

  /** What the host answers for a key it has nothing for. */
  function HostValue(host: View, key: Key): Bytes {
    if key in host then host[key] else []
  }

  /** The pairs a flush sends: each queued key with the value the cache holds at that moment. */
  function FlushList(cache: map<Key, Bytes>, queued: seq<Key>): seq<Write>
    requires forall k :: k in queued ==> k in cache
  {
    if queued == [] then []
    else FlushList(cache, queued[..|queued| - 1]) + [Write(queued[|queued| - 1], cache[queued[|queued| - 1]])]
  }

  class GuestCache {
    var cache: map<Key, Bytes>
    var toFlush: seq<Key>

    constructor ()
      ensures cache == map[] && toFlush == []
    {
      cache, toFlush := map[], [];
    }

    ghost predicate Valid()
      reads this
    {
      forall k :: k in toFlush ==> k in cache
    }

    method Get(key: Key, host: View) returns (value: Bytes)
      modifies this`cache
      ensures value == if key in old(cache) then old(cache)[key] else if key in host then host[key] else []
      ensures cache == old(cache)[key := value]
    {
      if key in cache {
        return cache[key];
      }
      value := HostValue(host, key);
      cache := cache[key := value];
    }

    method Set(key: Key, value: Bytes)
      requires Valid()
      modifies this
      ensures Valid()
      ensures cache == old(cache)[key := value] && toFlush == old(toFlush) + [key]
    {
      cache := cache[key := value];
      toFlush := toFlush + [key];
    }

    method Flush() returns (writes: seq<Write>)
      requires Valid()
      modifies this`toFlush
      ensures Valid() && toFlush == []
      ensures writes == FlushList(cache, old(toFlush))
    {
      writes := [];
      for i := 0 to |toFlush|
        invariant toFlush == old(toFlush)
        invariant writes == FlushList(cache, toFlush[..i])
      {
        assert toFlush[..i + 1][..i] == toFlush[..i];
        writes := writes + [Write(toFlush[i], cache[toFlush[i]])];
      }
      assert toFlush[..|toFlush|] == toFlush;
      toFlush := [];
    }
  }

  // ---------------------------------------------------------------- runs of the guest

  datatype GuestOp = GetOp(key: Key) | SetOp(write: Write)

  /** The writes a program asked for, in order. */
  function SetsOf(ops: seq<GuestOp>): seq<Write> {
    if ops == [] then []
    else if ops[|ops| - 1].SetOp? then SetsOf(ops[..|ops| - 1]) + [ops[|ops| - 1].write]
    else SetsOf(ops[..|ops| - 1])
  }

  /** The cache after a run of gets and sets on a fresh instance. */
  function CacheAfter(ops: seq<GuestOp>, host: View): map<Key, Bytes> {
    if ops == [] then map[]
    else
      var before := CacheAfter(ops[..|ops| - 1], host);
      match ops[|ops| - 1]
      case GetOp(k) => if k in before then before else before[k := HostValue(host, k)]
      case SetOp(w) => before[w.key := w.value]
  }

  /** The flush queue after the same run: one entry for every set. */
  function QueueAfter(ops: seq<GuestOp>): seq<Key> {
    if ops == [] then []
    else if ops[|ops| - 1].SetOp? then QueueAfter(ops[..|ops| - 1]) + [ops[|ops| - 1].write.key]
    else QueueAfter(ops[..|ops| - 1])
  }

  /** A read after any run returns the last value set, or what the host holds. */
  lemma {:induction false} CacheReadsLastWrite(ops: seq<GuestOp>, host: View, key: Key)
    ensures var cache, sets := CacheAfter(ops, host), SetsOf(ops);
            && (LastWrite(sets, key).Some? ==> key in cache)
            && (key in cache ==>
                  cache[key] == if LastWrite(sets, key).Some? then LastWrite(sets, key).value else HostValue(host, key))
            && (key in QueueAfter(ops) <==> LastWrite(sets, key).Some?)
  {
    if ops != [] {
      CacheReadsLastWrite(ops[..|ops| - 1], host, key);
      var front := SetsOf(ops[..|ops| - 1]);
      if ops[|ops| - 1].SetOp? {
        assert (front + [ops[|ops| - 1].write])[..|front|] == front;
      }
    }
  }

  /** What a run leaves to flush. */
  ghost function Flushes(ops: seq<GuestOp>, host: View): seq<Write> {
    QueuedAreCached(ops, host);
    FlushList(CacheAfter(ops, host), QueueAfter(ops))
  }

  lemma {:induction false} QueuedAreCached(ops: seq<GuestOp>, host: View)
    ensures forall k :: k in QueueAfter(ops) ==> k in CacheAfter(ops, host)
  {
    forall k | k in QueueAfter(ops)
      ensures k in CacheAfter(ops, host)
    {
      CacheReadsLastWrite(ops, host, k);
    }
  }

  /** A program run on a fresh instance and flushed sends exactly that. */
  method RunAndFlush(ops: seq<GuestOp>, host: View) returns (writes: seq<Write>)
    ensures writes == Flushes(ops, host)
  {
    var guest := new GuestCache();
    for i := 0 to |ops|
      invariant fresh(guest) && guest.Valid()
      invariant guest.cache == CacheAfter(ops[..i], host) && guest.toFlush == QueueAfter(ops[..i])
    {
      assert ops[..i + 1][..i] == ops[..i];
      match ops[i]
      case GetOp(k) =>
        ghost var before := guest.cache;
        var value := guest.Get(k, host);
        assert k in before ==> guest.cache == before;
      case SetOp(w) => guest.Set(w.key, w.value);
    }
    assert ops[..|ops|] == ops;
    QueuedAreCached(ops, host);
    writes := guest.Flush();
  }

  lemma {:induction false} FlushListLast(cache: map<Key, Bytes>, queued: seq<Key>, key: Key)
    requires forall k :: k in queued ==> k in cache
    ensures LastWrite(FlushList(cache, queued), key) == if key in queued then Some(cache[key]) else None
  {
    if queued != [] {
      var front, last := queued[..|queued| - 1], queued[|queued| - 1];
      FlushListLast(cache, front, key);
      var list := FlushList(cache, front);
      assert (list + [Write(last, cache[last])])[..|list|] == list;
      assert queued == front + [last];
    }
  }

  /**
   Last write wins through every layer: after a guest run and a flush at height h, a lookup at
   h or later returns the last value the guest set, and a lookup below h is as before.
   */
  lemma {:induction false} GuestWritesAreRead(vs: Versions, height: nat, ops: seq<GuestOp>, host: View,
                                              key: Key, asked: nat)
    ensures var after := AppendBlock(vs, height, Flushes(ops, host));
            LookupAt(HistoryOf(after, key), asked) ==
            if asked >= height && LastWrite(SetsOf(ops), key).Some? then LastWrite(SetsOf(ops), key)
            else LookupAt(HistoryOf(vs, key), asked)
  {
    QueuedAreCached(ops, host);
    FlushListLast(CacheAfter(ops, host), QueueAfter(ops), key);
    CacheReadsLastWrite(ops, host, key);
    if asked >= height {
      LastWriteWins(vs, height, Flushes(ops, host), key, asked);
    } else {
      LaterBlockKeepsAnswers(vs, height, Flushes(ops, host), key, asked);
    }
  }

  // ---------------------------------------------------------------- other ways to store the same writes

  /** One queued put whose length is read from the store as it was before the batch. */
  function StaleOne(base: Db, db: Db, height: nat, w: Write): Db {
    base[Slot(w.key, Len(db, w.key)) := Ver(Entry(height, w.value))][LengthOf(w.key) := Num(Len(db, w.key) + 1)]
  }

  /** Puts folded into one batch: each one overwrites the slot of an earlier one for the same key. */
  function StaleAll(db: Db, height: nat, writes: seq<Write>): Db {
    if writes == [] then db
    else StaleOne(StaleAll(db, height, writes[..|writes| - 1]), db, height, writes[|writes| - 1])
  }

  lemma {:induction false} StaleCells(db: Db, height: nat, writes: seq<Write>, key: Key)
    ensures var after, last := StaleAll(db, height, writes), LastWrite(writes, key);
            && Len(after, key) == (if last.Some? then Len(db, key) + 1 else Len(db, key))
            && (forall i :: 0 <= i < Len(db, key) ==> EntryAt(after, key, i) == EntryAt(db, key, i))
            && (last.Some? ==> EntryAt(after, key, Len(db, key)) == Entry(height, last.value))
  {
    if writes != [] {
      StaleCells(db, height, writes[..|writes| - 1], key);
    }
  }

  /**
   Folding puts into one batch, or flushing a block twice, makes different lists with the same
   answers at every height.
   */
  lemma {:induction false} SameAnswers(db: Db, height: nat, writes: seq<Write>, key: Key, asked: nat)
    ensures var once := Hist(AppendAll(db, height, writes), key);
            && LookupAt(Hist(StaleAll(db, height, writes), key), asked) == LookupAt(once, asked)
            && LookupAt(Hist(AppendAll(AppendAll(db, height, writes), height, writes), key), asked) ==
               LookupAt(once, asked)
  {
    var vs, hist := VersionsOf(writes, key, height), Hist(db, key);
    AppendAllHist(db, height, writes, key);
    AppendAllHist(AppendAll(db, height, writes), height, writes, key);
    StaleCells(db, height, writes, key);
    VersionsOfLast(writes, key, height);
    var stale := if vs == [] then [] else [Entry(height, vs[|vs| - 1].value)];
    assert Hist(StaleAll(db, height, writes), key) == hist + stale;
    LookupAppend(hist, vs, asked);
    LookupAppend(hist + vs, vs, asked);
    LookupAppend(hist, stale, asked);
    if asked < height {
      LookupAtBoundary(vs, asked, 0);
      LookupAtBoundary(stale, asked, 0);
    }
  }

  /**
   One batch of folded puts leaves the same list as the flush exactly when the block writes the key
   at most once.
   */
  lemma {:induction false} ListsAgreeIff(db: Db, height: nat, writes: seq<Write>, key: Key)
    ensures Hist(StaleAll(db, height, writes), key) == Hist(AppendAll(db, height, writes), key) <==>
            |VersionsOf(writes, key, height)| <= 1
  {
    var vs, hist := VersionsOf(writes, key, height), Hist(db, key);
    AppendAllHist(db, height, writes, key);
    StaleCells(db, height, writes, key);
    VersionsOfLast(writes, key, height);
    VersionsOfWritten(writes, key, height);
    var stale := if vs == [] then [] else [Entry(height, vs[|vs| - 1].value)];
    assert Hist(StaleAll(db, height, writes), key) == hist + stale;
    if |vs| == 1 {
      assert vs[0] in vs;
      assert stale == vs;
    }
    assert |vs| > 1 ==> |hist + vs| > |hist + stale|;
  }
}
