/**
 The meaning of the height-versioned store: every key has a list of versions, a block
 appends to the lists, a rollback trims them, and a lookup asks for the newest version
 at or below a height.
 */
module Versions {
  import opened Basics

  type Key = Bytes

  datatype Entry = Entry(height: nat, value: Bytes)

  type History = seq<Entry>

  datatype Write = Write(key: Key, value: Bytes)

  // ---------------------------------------------------------------- one history

  ghost predicate Ordered(hist: History) {
    forall i, j :: 0 <= i < j < |hist| ==> hist[i].height <= hist[j].height
  }

  ghost predicate AllAtMost(hist: History, height: nat) {
    forall i :: 0 <= i < |hist| ==> hist[i].height <= height
  }

  /** The value of the last version at or below `height`. */
  function LookupAt(hist: History, height: nat): Option<Bytes> {
    if hist == [] then None
    else
      var last := hist[|hist| - 1];
      if last.height <= height then Some(last.value)
      else LookupAt(hist[..|hist| - 1], height)
  }

  /** The versions at or below `height`, in order: what a full scan keeps. */
  function Trim(hist: History, height: nat): History {
    if hist == [] then []
    else
      var kept := Trim(hist[..|hist| - 1], height);
      if hist[|hist| - 1].height <= height then kept + [hist[|hist| - 1]] else kept
  }

  /** The length left after dropping newest versions while they lie above `height`. */
  function KeepLen(hist: History, height: nat): (n: nat)
    ensures n <= |hist|
  {
    if hist == [] then 0
    else if hist[|hist| - 1].height <= height then |hist|
    else KeepLen(hist[..|hist| - 1], height)
  }

  /** The kept length is the one boundary between old and newest versions. */
  lemma {:induction false} KeepLenBoundary(hist: History, height: nat, n: nat)
    requires n <= |hist|
    ensures KeepLen(hist, height) == n <==>
            (n > 0 ==> hist[n - 1].height <= height) && (forall i :: n <= i < |hist| ==> hist[i].height > height)
    decreases |hist|
  {
    if hist != [] && hist[|hist| - 1].height > height && n < |hist| {
      KeepLenBoundary(hist[..|hist| - 1], height, n);
    }
  }

  lemma {:induction false} LookupAtBoundary(hist: History, height: nat, n: nat)
    requires n <= |hist|
    requires n > 0 ==> hist[n - 1].height <= height
    requires forall i :: n <= i < |hist| ==> hist[i].height > height
    ensures LookupAt(hist, height) == if n == 0 then None else Some(hist[n - 1].value)
    decreases |hist|
  {
    if n < |hist| {
      LookupAtBoundary(hist[..|hist| - 1], height, n);
    }
  }

  lemma {:induction false} LookupAppend(a: History, b: History, height: nat)
    ensures LookupAt(a + b, height) ==
            if LookupAt(b, height).Some? then LookupAt(b, height) else LookupAt(a, height)
    decreases |b|
  {
    if b == [] {
      assert a + b == a;
    } else {
      assert (a + b)[..|a + b| - 1] == a + b[..|b| - 1];
      LookupAppend(a, b[..|b| - 1], height);
    }
  }

  lemma {:induction false} TrimAppend(a: History, b: History, height: nat)
    ensures Trim(a + b, height) == Trim(a, height) + Trim(b, height)
    decreases |b|
  {
    if b == [] {
      assert a + b == a;
    } else {
      assert (a + b)[..|a + b| - 1] == a + b[..|b| - 1];
      TrimAppend(a, b[..|b| - 1], height);
    }
  }

  /** Rolling back answers every later question with what was true at the rollback height. */
  lemma {:induction false} TrimLookup(hist: History, height: nat, asked: nat)
    ensures LookupAt(Trim(hist, height), asked) == LookupAt(hist, Min(asked, height))
  {
    if hist != [] {
      TrimLookup(hist[..|hist| - 1], height, asked);
      var kept := Trim(hist[..|hist| - 1], height);
      assert (kept + [hist[|hist| - 1]])[..|kept|] == kept;
    }
  }

  lemma {:induction false} TrimTrim(hist: History, first: nat, second: nat)
    ensures Trim(Trim(hist, first), second) == Trim(hist, Min(first, second))
  {
    if hist != [] {
      var front, last := hist[..|hist| - 1], hist[|hist| - 1];
      TrimTrim(front, first, second);
      if last.height <= first {
        assert (Trim(front, first) + [last])[..|Trim(front, first)|] == Trim(front, first);
      }
    }
  }

  lemma {:induction false} TrimAllAbove(hist: History, height: nat)
    requires forall i :: 0 <= i < |hist| ==> hist[i].height > height
    ensures Trim(hist, height) == []
  {
    if hist != [] {
      TrimAllAbove(hist[..|hist| - 1], height);
    }
  }

  lemma {:induction false} TrimAllBelow(hist: History, height: nat)
    requires AllAtMost(hist, height)
    ensures Trim(hist, height) == hist
  {
    if hist != [] {
      TrimAllBelow(hist[..|hist| - 1], height);
    }
  }

  lemma {:induction false} TrimBounded(hist: History, height: nat)
    ensures AllAtMost(Trim(hist, height), height)
    ensures |Trim(hist, height)| <= |hist|
    ensures forall e :: e in Trim(hist, height) ==> e in hist
  {
    if hist != [] {
      TrimBounded(hist[..|hist| - 1], height);
    }
  }

  /** On ordered versions the filter of a full scan is the prefix a backward walk leaves. */
  lemma {:induction false} TrimIsPrefix(hist: History, height: nat)
    requires Ordered(hist)
    ensures Trim(hist, height) == hist[..KeepLen(hist, height)]
  {
    if hist != [] {
      var front, last := hist[..|hist| - 1], hist[|hist| - 1];
      if last.height <= height {
        assert forall i :: 0 <= i < |hist| ==> hist[i].height <= last.height;
        TrimAllBelow(hist, height);
      } else {
        TrimIsPrefix(front, height);
      }
    }
  }

  lemma {:induction false} TrimOrdered(hist: History, height: nat)
    requires Ordered(hist)
    ensures Ordered(Trim(hist, height))
  {
    TrimIsPrefix(hist, height);
  }

  /** The versions one block gives one key, in the order the block wrote them. */
  function VersionsOf(writes: seq<Write>, key: Key, height: nat): (hist: History)
    ensures forall i :: 0 <= i < |hist| ==> hist[i].height == height
  {
    if writes == [] then []
    else
      var rest := VersionsOf(writes[..|writes| - 1], key, height);
      var last := writes[|writes| - 1];
      if last.key == key then rest + [Entry(height, last.value)] else rest
  }

  /** The last value a list of writes gives a key. */
  function LastWrite(writes: seq<Write>, key: Key): Option<Bytes> {
    if writes == [] then None
    else if writes[|writes| - 1].key == key then Some(writes[|writes| - 1].value)
    else LastWrite(writes[..|writes| - 1], key)
  }

  lemma {:induction false} VersionsOfLast(writes: seq<Write>, key: Key, height: nat)
    ensures var vs := VersionsOf(writes, key, height);
            LastWrite(writes, key) == if vs == [] then None else Some(vs[|vs| - 1].value)
  {
    if writes != [] {
      VersionsOfLast(writes[..|writes| - 1], key, height);
    }
  }

  lemma {:induction false} VersionsOfWritten(writes: seq<Write>, key: Key, height: nat)
    ensures VersionsOf(writes, key, height) != [] <==> exists i :: 0 <= i < |writes| && writes[i].key == key
  {
    if writes != [] {
      var front := writes[..|writes| - 1];
      VersionsOfWritten(front, key, height);
      if i :| 0 <= i < |writes| && writes[i].key == key {
        assert i < |front| ==> front[i].key == key;
      }
    }
  }

  // ---------------------------------------------------------------- all histories

  type Versions = map<Key, History>

  ghost predicate NoEmptyHistory(vs: Versions) {
    forall k :: k in vs ==> vs[k] != []
  }

  function HistoryOf(vs: Versions, key: Key): History {
    if key in vs then vs[key] else []
  }

  function KeysWritten(writes: seq<Write>): set<Key> {
    set i | 0 <= i < |writes| :: writes[i].key
  }

  /** The lists after a block at `height` has written `writes`. */
  function AppendBlock(vs: Versions, height: nat, writes: seq<Write>): Versions {
    map k | k in vs.Keys + KeysWritten(writes) :: HistoryOf(vs, k) + VersionsOf(writes, k, height)
  }

  /** The lists after a rollback to `height`; a key left without versions disappears. */
  function TrimTo(vs: Versions, height: nat): Versions {
    map k | k in vs && Trim(vs[k], height) != [] :: Trim(vs[k], height)
  }

  lemma {:induction false} SameHistories(a: Versions, b: Versions)
    requires NoEmptyHistory(a) && NoEmptyHistory(b)
    requires forall k :: HistoryOf(a, k) == HistoryOf(b, k)
    ensures a == b
  {
    forall k
      ensures k in a <==> k in b
      ensures k in a ==> a[k] == b[k]
    {
      assert HistoryOf(a, k) == HistoryOf(b, k);
    }
  }

  lemma {:induction false} AppendBlockHistory(vs: Versions, height: nat, writes: seq<Write>, key: Key)
    ensures HistoryOf(AppendBlock(vs, height, writes), key) == HistoryOf(vs, key) + VersionsOf(writes, key, height)
    ensures NoEmptyHistory(vs) ==> NoEmptyHistory(AppendBlock(vs, height, writes))
  {
    VersionsOfWritten(writes, key, height);
    forall k | k in KeysWritten(writes)
      ensures VersionsOf(writes, k, height) != []
    {
      VersionsOfWritten(writes, k, height);
    }
  }

  lemma {:induction false} TrimToHistory(vs: Versions, height: nat, key: Key)
    ensures HistoryOf(TrimTo(vs, height), key) == Trim(HistoryOf(vs, key), height)
  {
  }

  // ---------------------------------------------------------------- lookups

  /**
   What a block's program can see: the newest value of each key at or below a height.
   A key without a version and a key whose value is empty read the same.
   */
  type View = map<Key, Bytes>

  function ViewAt(vs: Versions, height: nat): View {
    map k | k in vs && LookupAt(vs[k], height).Some? && LookupAt(vs[k], height).value != [] ::
      LookupAt(vs[k], height).value
  }

  /** The last version below `height` has value `v`: every later one is at or above it. */
  ghost predicate LastBelow(hist: History, height: nat, v: Bytes) {
    exists i :: 0 <= i < |hist| && hist[i].value == v && hist[i].height < height &&
                forall j :: i < j < |hist| ==> hist[j].height >= height
  }

  lemma {:induction false} LastBelowFront(hist: History, below: nat, v: Bytes)
    requires hist != [] && hist[|hist| - 1].height >= below
    ensures LastBelow(hist, below, v) <==> LastBelow(hist[..|hist| - 1], below, v)
  {
    var front := hist[..|hist| - 1];
    assert forall i :: 0 <= i < |front| ==> front[i] == hist[i];
    if LastBelow(hist, below, v) {
      var i :| 0 <= i < |hist| && hist[i].value == v && hist[i].height < below &&
               forall j :: i < j < |hist| ==> hist[j].height >= below;
      assert front[i].value == v;
    }
    if LastBelow(front, below, v) {
      var i :| 0 <= i < |front| && front[i].value == v && front[i].height < below &&
               forall j :: i < j < |front| ==> front[j].height >= below;
      assert hist[i].value == v;
    }
  }

  lemma {:induction false} LookupBelowIff(hist: History, height: nat, below: nat, v: Bytes)
    requires below == height + 1
    ensures LookupAt(hist, height) == Some(v) <==> LastBelow(hist, below, v)
  {
    if hist != [] {
      if hist[|hist| - 1].height > height {
        LookupBelowIff(hist[..|hist| - 1], height, below, v);
        LastBelowFront(hist, below, v);
      } else {
        assert hist[|hist| - 1].value == v ==> LastBelow(hist, below, v);
      }
    }
  }

  /** A block changes no answer for an earlier height. */
  lemma {:induction false} LaterBlockKeepsAnswers(vs: Versions, height: nat, writes: seq<Write>, key: Key, asked: nat)
    requires asked < height
    ensures LookupAt(HistoryOf(AppendBlock(vs, height, writes), key), asked) == LookupAt(HistoryOf(vs, key), asked)
  {
    AppendBlockHistory(vs, height, writes, key);
    var newer := VersionsOf(writes, key, height);
    LookupAppend(HistoryOf(vs, key), newer, asked);
    LookupAtBoundary(newer, asked, 0);
  }

  /** At its own height and above, a block's last write to a key is the answer. */
  lemma {:induction false} LastWriteWins(vs: Versions, height: nat, writes: seq<Write>, key: Key, asked: nat)
    requires asked >= height
    ensures LookupAt(HistoryOf(AppendBlock(vs, height, writes), key), asked) ==
            if LastWrite(writes, key).Some? then LastWrite(writes, key) else LookupAt(HistoryOf(vs, key), asked)
  {
    AppendBlockHistory(vs, height, writes, key);
    VersionsOfLast(writes, key, height);
    LookupAppend(HistoryOf(vs, key), VersionsOf(writes, key, height), asked);
  }
}
