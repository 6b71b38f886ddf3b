/**
 The linked list over key-value cells: a length, a head and a next pointer per index, all
 32-bit numbers that read as zero when unset. Appending links the last index to the new one;
 deleting an index copies its next pointer into the index just below it, or into the head.
 */
module LinkedList {
  import opened Basics

  const LAST_INDEX: int := U32_LIMIT - 1

  datatype Cells = Cells(length: nat, head: nat, next: map<nat, nat>, items: map<nat, Bytes>)

  const NO_CELLS := Cells(0, 0, map[], map[])

  function NextOf(c: Cells, i: nat): nat {
    if i in c.next then c.next[i] else 0
  }

  function ItemAt(c: Cells, i: nat): Bytes {
    if i in c.items then c.items[i] else []
  }

  /** The index below, in 32-bit arithmetic. */
  function Below(i: nat): nat {
    if i == 0 then LAST_INDEX else i - 1
  }

  function Appended(c: Cells, value: Bytes): Cells {
    c.(length := c.length + 1,
       next := if c.length > 0 then c.next[c.length - 1 := c.length] else c.next,
       items := c.items[c.length := value])
  }

  /** A dropped item is overwritten with a zero byte. */
  function Deleted(c: Cells, i: nat): Cells {
    var dropped := c.(items := c.items[i := [0]]);
    if i == c.head then dropped.(head := NextOf(c, i)) else dropped.(next := c.next[Below(i) := NextOf(c, i)])
  }

  // ---------------------------------------------------------------- pointers lead forward

  /** Every pointer from an index is unset or leads to a later index. */
  ghost predicate Forward(c: Cells) {
    && c.length < U32_LIMIT
    && (c.head == 0 || c.head < c.length)
    && (forall i :: i in c.next && i < LAST_INDEX && c.next[i] != 0 ==> i < c.next[i] < c.length)
  }

  /** Every index below the last points to a later one. */
  ghost predicate Chained(c: Cells) {
    forall d: nat :: d + 1 < c.length ==> NextOf(c, d) > d
  }

  lemma ChainedKept(c: Cells, value: Bytes, i: nat)
    requires Forward(c) && Chained(c)
    ensures c.length < LAST_INDEX ==> Chained(Appended(c, value))
    ensures i + 1 < c.length ==> Chained(Deleted(c, i))
  {
    forall d: nat | d < c.length ensures NextOf(Appended(c, value), d) > d {
      assert d + 1 < c.length ==> NextOf(c, d) > d;
    }
    if i + 1 < c.length {
      forall d: nat | d + 1 < c.length ensures NextOf(Deleted(c, i), d) > d {
        assert NextOf(c, d) > d && NextOf(c, i) > i;
      }
    }
  }

  lemma ForwardKept(c: Cells, value: Bytes, i: nat)
    requires Forward(c)
    ensures c.length + 1 < U32_LIMIT ==> Forward(Appended(c, value))
    ensures i < c.length ==> Forward(Deleted(c, i))
  {
  }

  /** The indices a walk visits from `i` on: while below the length, until a pointer reads zero. */
  ghost function WalkFrom(c: Cells, i: nat): seq<nat>
    requires Forward(c)
    decreases c.length - i
  {
    if i >= c.length then []
    else if NextOf(c, i) == 0 then [i]
    else [i] + WalkFrom(c, NextOf(c, i))
  }

  ghost function Walk(c: Cells): seq<nat>
    requires Forward(c)
  {
    WalkFrom(c, c.head)
  }

  ghost predicate Increasing(s: seq<nat>) {
    forall i, j :: 0 <= i < j < |s| ==> s[i] < s[j]
  }

  lemma IncreasingCons(x: nat, s: seq<nat>)
    requires Increasing(s) && forall k :: k in s ==> x < k
    ensures Increasing([x] + s)
  {
    assert forall j :: 0 <= j < |s| ==> s[j] in s;
  }

  lemma {:induction false} WalkIncreases(c: Cells, i: nat)
    requires Forward(c)
    ensures Increasing(WalkFrom(c, i)) && forall k :: k in WalkFrom(c, i) ==> i <= k < c.length
    decreases c.length - i
  {
    if i < c.length && NextOf(c, i) != 0 {
      WalkIncreases(c, NextOf(c, i));
      IncreasingCons(i, WalkFrom(c, NextOf(c, i)));
    }
  }

  // ---------------------------------------------------------------- linked cells

  /** Each index of `path` points to the next and the last one points nowhere. */
  ghost predicate Path(c: Cells, path: seq<nat>) {
    && path != [] && NextOf(c, path[|path| - 1]) == 0
    && (forall k :: 0 <= k < |path| ==> path[k] < c.length)
    && (forall k :: 0 < k < |path| ==> 0 < path[k] == NextOf(c, path[k - 1]))
  }

  lemma {:induction false} WalkAlong(c: Cells, path: seq<nat>, j: nat)
    requires Forward(c) && Path(c, path) && j < |path|
    ensures WalkFrom(c, path[j]) == path[j..]
    decreases |path| - j
  {
    if j < |path| - 1 {
      WalkAlong(c, path, j + 1);
    }
  }

  /** The cells link exactly the indices in `live`, from the head up to the last index. */
  ghost predicate Linked(c: Cells, live: seq<nat>) {
    && Forward(c) && Chained(c) && Increasing(live)
    && (c.length == 0 ==> live == [] && c.head == 0)
    && (c.length > 0 ==> Path(c, live) && c.head == live[0] && live[|live| - 1] == c.length - 1)
  }

  lemma {:induction false} WalkIsLive(c: Cells, live: seq<nat>)
    requires Linked(c, live)
    ensures Walk(c) == live
  {
    if c.length > 0 {
      WalkAlong(c, live, 0);
    }
  }

  lemma {:induction false} AppendedPath(c: Cells, live: seq<nat>, value: Bytes)
    requires Linked(c, live) && 0 < c.length < LAST_INDEX
    ensures Path(Appended(c, value), live + [c.length])
  {
    var after, longer := Appended(c, value), live + [c.length];
    assert c.length !in c.next || c.next[c.length] == 0;
    forall k | 0 < k < |longer| ensures 0 < longer[k] == NextOf(after, longer[k - 1]) {
      if k < |live| {
        assert live[k - 1] < live[|live| - 1] && 0 < live[k] == NextOf(c, live[k - 1]);
      }
    }
  }

  lemma {:induction false} AppendLinks(c: Cells, live: seq<nat>, value: Bytes)
    requires Linked(c, live) && c.length + 1 < U32_LIMIT
    ensures Linked(Appended(c, value), live + [c.length])
  {
    ForwardKept(c, value, 0);
    ChainedKept(c, value, 0);
    if c.length > 0 {
      AppendedPath(c, live, value);
      assert forall j :: 0 <= j < |live| - 1 ==> live[j] < live[|live| - 1];
    }
  }

  function Without(s: seq<nat>, j: nat): seq<nat>
    requires j < |s|
  {
    s[..j] + s[j + 1..]
  }

  /** The guard under which a deletion takes effect: the index is the head, or the index just below it is live. */
  predicate Unlinks(live: seq<nat>, j: nat)
    requires j < |live|
  {
    j == 0 || live[j - 1] + 1 == live[j]
  }

  lemma {:induction false} DeleteHeadLinks(c: Cells, live: seq<nat>)
    requires Linked(c, live) && |live| > 1
    ensures Linked(Deleted(c, live[0]), live[1..])
  {
    var after, rest := Deleted(c, live[0]), live[1..];
    ForwardKept(c, [], live[0]);
    ChainedKept(c, [], live[0]);
    assert live[0] < live[|live| - 1];
    assert after.next == c.next;
    forall k | 0 < k < |rest| ensures 0 < rest[k] == NextOf(after, rest[k - 1]) {
      assert 0 < live[k + 1] == NextOf(c, live[k]);
    }
  }

  lemma {:induction false} WithoutIncreases(live: seq<nat>, j: nat)
    requires Increasing(live) && j < |live|
    ensures Increasing(Without(live, j))
  {
  }

  lemma {:induction false} RedirectedPointer(c: Cells, live: seq<nat>, j: nat, after: Cells, k: nat)
    requires Linked(c, live) && 0 < j < |live| - 1 && 0 < k < |live| - 1
    requires after.length == c.length && after.next == c.next[live[j - 1] := live[j + 1]]
    ensures 0 < Without(live, j)[k] == NextOf(after, Without(live, j)[k - 1])
  {
    if k < j {
      assert live[k - 1] < live[j - 1] && live[k] == NextOf(c, live[k - 1]);
    } else if k > j {
      assert live[j - 1] < live[k] && live[k + 1] == NextOf(c, live[k]);
    } else {
      assert live[j] < live[j + 1];
    }
  }

  /** Pointers of the remaining indices, after the one below `live[j]` has been redirected. */
  lemma {:induction false} RedirectedPath(c: Cells, live: seq<nat>, j: nat, after: Cells)
    requires Linked(c, live) && 0 < j < |live| - 1
    requires after.length == c.length && after.next == c.next[live[j - 1] := live[j + 1]]
    ensures Path(after, Without(live, j))
  {
    var rest := Without(live, j);
    assert live[j - 1] < live[|live| - 1];
    forall k | 0 < k < |rest| ensures 0 < rest[k] == NextOf(after, rest[k - 1]) {
      RedirectedPointer(c, live, j, after, k);
    }
  }

  lemma {:induction false} DeleteUnlinks(c: Cells, live: seq<nat>, j: nat)
    requires Linked(c, live) && 0 < j < |live| - 1 && live[j - 1] + 1 == live[j]
    ensures Linked(Deleted(c, live[j]), Without(live, j))
  {
    var i := live[j];
    var after := Deleted(c, i);
    assert live[0] < i < live[|live| - 1];
    ForwardKept(c, [], i);
    ChainedKept(c, [], i);
    assert NextOf(c, i) == live[j + 1];
    assert after.next == c.next[live[j - 1] := live[j + 1]];
    RedirectedPath(c, live, j, after);
    WithoutIncreases(live, j);
  }

  /** A pointer from an index that is not live may be overwritten freely. */
  lemma {:induction false} DeadPointer(c: Cells, live: seq<nat>, j: nat, k: nat)
    requires Linked(c, live) && 0 < j < |live| - 1 && live[j - 1] + 1 != live[j] && k < |live|
    ensures live[k] + 1 != live[j]
  {
    if k < j - 1 {
      assert live[k] < live[j - 1] < live[j];
    } else if k > j {
      assert live[j] < live[k];
    }
  }

  lemma {:induction false} DeleteMisses(c: Cells, live: seq<nat>, j: nat)
    requires Linked(c, live) && 0 < j < |live| - 1 && live[j - 1] + 1 != live[j]
    ensures Linked(Deleted(c, live[j]), live)
  {
    var i := live[j];
    var after := Deleted(c, i);
    assert live[0] < i < live[|live| - 1];
    ForwardKept(c, [], i);
    ChainedKept(c, [], i);
    assert after.next == c.next[i - 1 := NextOf(c, i)];
    forall k | 0 <= k < |live| ensures NextOf(after, live[k]) == NextOf(c, live[k]) {
      DeadPointer(c, live, j, k);
    }
  }

  /**
   Deleting a live index other than the last removes it under the guard, and otherwise leaves the
   list as it was.
   */
  lemma {:induction false} DeleteLinks(c: Cells, live: seq<nat>, j: nat)
    requires Linked(c, live) && j < |live| - 1
    ensures Linked(Deleted(c, live[j]), if Unlinks(live, j) then Without(live, j) else live)
  {
    if j == 0 {
      DeleteHeadLinks(c, live);
      assert Without(live, 0) == live[1..];
    } else if Unlinks(live, j) {
      DeleteUnlinks(c, live, j);
    } else {
      DeleteMisses(c, live, j);
    }
  }

  lemma {:induction false} WithoutLacks(live: seq<nat>, j: nat)
    requires Increasing(live) && j < |live|
    ensures live[j] !in Without(live, j)
  {
    assert forall k :: 0 <= k < |live| && k != j ==> live[k] != live[j];
  }

  // ---------------------------------------------------------------- deleting the last index

  lemma {:induction false} FrontIsPath(c: Cells, live: seq<nat>, after: Cells)
    requires Linked(c, live) && |live| > 1 && live[|live| - 2] == c.length - 2 && after.length >= c.length
    requires NextOf(after, c.length - 2) == 0 && forall d: nat :: d + 2 < c.length ==> NextOf(after, d) == NextOf(c, d)
    ensures Path(after, live[..|live| - 1])
  {
    var rest := live[..|live| - 1];
    forall k | 0 < k < |rest| ensures 0 < rest[k] == NextOf(after, rest[k - 1]) {
      assert live[k - 1] < live[|live| - 2] && 0 < live[k] == NextOf(c, live[k - 1]);
    }
  }

  lemma {:induction false} TailDeleteClears(c: Cells, live: seq<nat>)
    requires Linked(c, live) && |live| > 1 && Unlinks(live, |live| - 1)
    ensures live[|live| - 2] == c.length - 2
    ensures Deleted(c, c.length - 1) == c.(next := c.next[c.length - 2 := 0], items := c.items[c.length - 1 := [0]])
  {
    assert live[0] < live[|live| - 1];
  }

  lemma {:induction false} DeleteTailUnlinks(c: Cells, live: seq<nat>)
    requires Linked(c, live) && |live| > 1 && Unlinks(live, |live| - 1)
    ensures Forward(Deleted(c, c.length - 1)) && Walk(Deleted(c, c.length - 1)) == live[..|live| - 1]
  {
    var gone := Deleted(c, c.length - 1);
    ForwardKept(c, [], c.length - 1);
    TailDeleteClears(c, live);
    FrontIsPath(c, live, gone);
    WalkAlong(gone, live[..|live| - 1], 0);
  }

  /** After the last index has been unlinked the next append is written but never visited. */
  lemma {:induction false} AppendAfterUnlinkIsLost(c: Cells, live: seq<nat>, value: Bytes)
    requires Linked(c, live) && |live| > 1 && Unlinks(live, |live| - 1) && c.length < LAST_INDEX
    ensures Forward(Appended(Deleted(c, c.length - 1), value))
    ensures Walk(Appended(Deleted(c, c.length - 1), value)) == live[..|live| - 1]
  {
    var gone := Deleted(c, c.length - 1);
    ForwardKept(c, value, c.length - 1);
    ForwardKept(gone, value, 0);
    TailDeleteClears(c, live);
    FrontIsPath(c, live, Appended(gone, value));
    WalkAlong(Appended(gone, value), live[..|live| - 1], 0);
  }

  /** A last index whose neighbour below is dead stays linked when it is deleted. */
  lemma {:induction false} DeleteTailMisses(c: Cells, live: seq<nat>)
    requires Linked(c, live) && |live| > 1 && !Unlinks(live, |live| - 1)
    ensures Forward(Deleted(c, c.length - 1)) && Path(Deleted(c, c.length - 1), live)
    ensures Deleted(c, c.length - 1).head == live[0] && Deleted(c, c.length - 1).length == c.length
  {
    var i, after := c.length - 1, Deleted(c, c.length - 1);
    assert live[0] < live[|live| - 1] == i;
    ForwardKept(c, [], i);
    assert after.next == c.next[i - 1 := 0];
    forall k | 0 <= k < |live| ensures live[k] != i - 1 {
      assert k < |live| - 2 ==> live[k] < live[|live| - 2];
    }
    forall k | 0 < k < |live| ensures 0 < live[k] == NextOf(after, live[k - 1]) {
      assert 0 < live[k] == NextOf(c, live[k - 1]);
    }
  }

  /** Pointers of an unbroken chain lead from any index to the last. */
  lemma {:induction false} WalkReachesLast(c: Cells, i: nat)
    requires Forward(c) && Chained(c) && i < c.length
    ensures c.length - 1 in WalkFrom(c, i)
    decreases c.length - i
  {
    if i + 1 < c.length {
      WalkReachesLast(c, NextOf(c, i));
    }
  }

  /**
   Deleting the only live index points the head at index 0, dead or not, and the walk leads on to the
   last index again.
   */
  lemma {:induction false} DeleteOnlyIndex(c: Cells, live: seq<nat>, value: Bytes)
    requires Linked(c, live) && |live| == 1
    ensures Forward(Deleted(c, live[0])) && 0 in Walk(Deleted(c, live[0])) && live[0] in Walk(Deleted(c, live[0]))
    ensures c.length < LAST_INDEX ==>
              && Forward(Appended(Deleted(c, live[0]), value))
              && c.length in Walk(Appended(Deleted(c, live[0]), value))
  {
    var gone := Deleted(c, live[0]);
    ForwardKept(c, [], live[0]);
    assert gone.head == 0 && gone.next == c.next && gone.length == c.length;
    assert forall d :: NextOf(gone, d) == NextOf(c, d);
    WalkReachesLast(gone, 0);
    if c.length < LAST_INDEX {
      ForwardKept(gone, value, 0);
      ChainedKept(gone, value, 0);
      WalkReachesLast(Appended(gone, value), 0);
    }
  }

  /** A live index can be removed if it is the head and not alone, or if the index just below it is live. */
  predicate Removable(live: seq<nat>, j: nat)
    requires j < |live|
  {
    if j == 0 then |live| > 1 else live[j - 1] + 1 == live[j]
  }

  /** Deleting any live index, first, last or only, removes it from the walk if and only if it is removable. */
  lemma {:induction false} DeleteRemovesIff(c: Cells, live: seq<nat>, j: nat)
    requires Linked(c, live) && j < |live|
    ensures Forward(Deleted(c, live[j]))
    ensures live[j] !in Walk(Deleted(c, live[j])) <==> Removable(live, j)
  {
    WithoutLacks(live, j);
    if j < |live| - 1 {
      DeleteLinks(c, live, j);
      WalkIsLive(Deleted(c, live[j]), if Unlinks(live, j) then Without(live, j) else live);
    } else if j == 0 {
      DeleteOnlyIndex(c, live, []);
    } else if Unlinks(live, j) {
      DeleteTailUnlinks(c, live);
      assert Without(live, j) == live[..j];
    } else {
      DeleteTailMisses(c, live);
      WalkAlong(Deleted(c, live[j]), live, 0);
    }
  }

  lemma {:induction false} AppendAfterMissIsVisited(c: Cells, live: seq<nat>, value: Bytes)
    requires Linked(c, live) && |live| > 1 && !Unlinks(live, |live| - 1) && c.length < LAST_INDEX
    ensures Forward(Appended(Deleted(c, c.length - 1), value))
    ensures c.length in Walk(Appended(Deleted(c, c.length - 1), value))
  {
    var gone := Deleted(c, c.length - 1);
    var after, longer := Appended(gone, value), live + [c.length];
    DeleteTailMisses(c, live);
    ForwardKept(gone, value, 0);
    forall k | 0 < k < |longer| ensures 0 < longer[k] == NextOf(after, longer[k - 1]) {
      if k < |live| {
        assert live[k - 1] < live[|live| - 1] && 0 < live[k] == NextOf(gone, live[k - 1]);
      }
    }
    WalkAlong(after, longer, 0);
    assert longer[|longer| - 1] == c.length;
  }

  /**
   After the last index has been deleted the next append is visited if and only if the deletion did
   not remove it.
   */
  lemma {:induction false} AppendVisitedIff(c: Cells, live: seq<nat>, value: Bytes)
    requires Linked(c, live) && live != [] && c.length < LAST_INDEX
    ensures Forward(Appended(Deleted(c, c.length - 1), value))
    ensures c.length in Walk(Appended(Deleted(c, c.length - 1), value)) <==> !Removable(live, |live| - 1)
  {
    if |live| == 1 {
      DeleteOnlyIndex(c, live, value);
    } else if Unlinks(live, |live| - 1) {
      AppendAfterUnlinkIsLost(c, live, value);
    } else {
      AppendAfterMissIsVisited(c, live, value);
    }
  }

  // ---------------------------------------------------------------- runs

  datatype Op = Append(value: Bytes) | Delete(index: nat)

  function RunCells(ops: seq<Op>): Cells {
    if ops == [] then NO_CELLS
    else
      var before := RunCells(ops[..|ops| - 1]);
      match ops[|ops| - 1]
      case Append(v) => Appended(before, v)
      case Delete(i) => Deleted(before, i)
  }

  function Appends(ops: seq<Op>): nat {
    if ops == [] then 0 else Appends(ops[..|ops| - 1]) + if ops[|ops| - 1].Append? then 1 else 0
  }

  function Remove(s: seq<nat>, i: nat): seq<nat> {
    if s == [] then []
    else if s[|s| - 1] == i then s[..|s| - 1]
    else Remove(s[..|s| - 1], i) + [s[|s| - 1]]
  }

  lemma {:induction false} RemoveAt(s: seq<nat>, j: nat)
    requires Increasing(s) && j < |s|
    ensures Remove(s, s[j]) == Without(s, j)
  {
    if j < |s| - 1 {
      assert s[j] < s[|s| - 1];
      RemoveAt(s[..|s| - 1], j);
    }
  }

  /** The indices appended and not deleted, in order. */
  function LiveAfter(ops: seq<Op>): seq<nat> {
    if ops == [] then []
    else
      var before := LiveAfter(ops[..|ops| - 1]);
      match ops[|ops| - 1]
      case Append(_) => before + [Appends(ops[..|ops| - 1])]
      case Delete(i) => Remove(before, i)
  }

  /** Within 32-bit lengths, every deletion names an index that was appended. */
  ghost predicate InRange(ops: seq<Op>) {
    ops != [] ==>
      && InRange(ops[..|ops| - 1])
      && (match ops[|ops| - 1]
          case Append(_) => Appends(ops) < U32_LIMIT
          case Delete(i) => i < Appends(ops[..|ops| - 1]))
  }

  /** Moreover every deleted index is live, not the last, and meets the guard. */
  ghost predicate Legal(ops: seq<Op>) {
    ops != [] ==>
      && Legal(ops[..|ops| - 1])
      && (match ops[|ops| - 1]
          case Append(_) => Appends(ops) < U32_LIMIT
          case Delete(i) =>
            var live := LiveAfter(ops[..|ops| - 1]);
            exists j :: 0 <= j < |live| - 1 && live[j] == i && Unlinks(live, j))
  }

  /** A deletion goes on with a legal run exactly if its index is live, not the last, and the head or above a live one. */
  lemma {:induction false} LegalDeletionIff(ops: seq<Op>, i: nat)
    requires Legal(ops)
    ensures var live := LiveAfter(ops);
            Legal(ops + [Delete(i)]) <==>
            i in live && i != live[|live| - 1] && (i == live[0] || (i > 0 && i - 1 in live))
  {
    assert (ops + [Delete(i)])[..|ops|] == ops;
    LiveWasAppended(ops);
    UnlinkableIff(LiveAfter(ops), i);
  }

  lemma {:induction false} UnlinkableIff(live: seq<nat>, i: nat)
    requires Increasing(live)
    ensures (exists j :: 0 <= j < |live| - 1 && live[j] == i && Unlinks(live, j)) <==>
            i in live && i != live[|live| - 1] && (i == live[0] || (i > 0 && i - 1 in live))
  {
    if i in live && i != live[|live| - 1] && (i == live[0] || (i > 0 && i - 1 in live)) {
      var j :| 0 <= j < |live| && live[j] == i;
      if j > 0 {
        assert live[0] < live[j];
        var k :| 0 <= k < |live| && live[k] == i - 1;
        NextToEachOther(live, k, j);
      }
      assert Unlinks(live, j);
    }
    if j :| 0 <= j < |live| - 1 && live[j] == i && Unlinks(live, j) {
      assert live[j] < live[|live| - 1];
    }
  }

  lemma {:induction false} NextToEachOther(s: seq<nat>, k: nat, j: nat)
    requires Increasing(s) && k < |s| && j < |s|
    ensures s[j] == s[k] + 1 ==> j == k + 1
  {
    if k + 1 < j {
      assert s[k] < s[k + 1] < s[j];
    }
  }

  /** Whatever is deleted, the walk ends and visits indices in increasing order, none twice. */
  lemma {:induction false} EveryWalkEnds(ops: seq<Op>)
    requires InRange(ops)
    ensures var c := RunCells(ops);
            c.length == Appends(ops) && Forward(c) && Increasing(Walk(c)) && forall i :: i in Walk(c) ==> i < c.length
  {
    if ops != [] {
      var front, last := ops[..|ops| - 1], ops[|ops| - 1];
      EveryWalkEnds(front);
      ForwardKept(RunCells(front), if last.Append? then last.value else [], if last.Delete? then last.index else 0);
    }
    WalkIncreases(RunCells(ops), RunCells(ops).head);
  }

  /** Over any legal run the walk visits exactly the live indices, once each, in increasing order. */
  lemma {:induction false} LegalRunVisitsLive(ops: seq<Op>)
    requires Legal(ops)
    ensures var c := RunCells(ops);
            && c.length == Appends(ops) && Linked(c, LiveAfter(ops))
            && Walk(c) == LiveAfter(ops)
  {
    if ops != [] {
      var front, last := ops[..|ops| - 1], ops[|ops| - 1];
      LegalRunVisitsLive(front);
      var c, live := RunCells(front), LiveAfter(front);
      match last
      case Append(v) => AppendLinks(c, live, v);
      case Delete(i) =>
        var j :| 0 <= j < |live| - 1 && live[j] == i && Unlinks(live, j);
        DeleteLinks(c, live, j);
        RemoveAt(live, j);
    }
    WalkIsLive(RunCells(ops), LiveAfter(ops));
  }

  /** The appended values, in order. */
  function ValuesAppended(ops: seq<Op>): (values: seq<Bytes>)
    ensures |values| == Appends(ops)
  {
    if ops == [] then []
    else
      var before := ValuesAppended(ops[..|ops| - 1]);
      if ops[|ops| - 1].Append? then before + [ops[|ops| - 1].value] else before
  }

  lemma {:induction false} LiveWasAppended(ops: seq<Op>)
    requires Legal(ops)
    ensures Increasing(LiveAfter(ops)) && forall i :: i in LiveAfter(ops) ==> i < Appends(ops)
  {
    LegalRunVisitsLive(ops);
    WalkIncreases(RunCells(ops), RunCells(ops).head);
  }

  lemma {:induction false} RemovedIsGone(s: seq<nat>, i: nat)
    requires Increasing(s)
    ensures forall k :: k in Remove(s, i) <==> k in s && k != i
  {
    if s != [] {
      var front, last := s[..|s| - 1], s[|s| - 1];
      assert s == front + [last];
      RemovedIsGone(front, i);
      assert forall k :: k in front ==> k < last;
    }
  }

  /** Over a legal run every live index holds the value appended there, and every deleted one a zero byte. */
  lemma {:induction false} LegalRunKeepsValues(ops: seq<Op>, i: nat)
    requires Legal(ops) && i < Appends(ops)
    ensures ItemAt(RunCells(ops), i) == if i in LiveAfter(ops) then ValuesAppended(ops)[i] else [0]
  {
    var front, last := ops[..|ops| - 1], ops[|ops| - 1];
    LiveWasAppended(front);
    LegalRunVisitsLive(front);
    if last.Append? {
      if i < Appends(front) {
        LegalRunKeepsValues(front, i);
      }
    } else {
      LegalRunKeepsValues(front, i);
      RemovedIsGone(LiveAfter(front), last.index);
    }
  }

  /** So the walk of a legal run reads the appended values of the live indices, in order. */
  lemma {:induction false} LegalRunReadsValues(ops: seq<Op>, j: nat)
    requires Legal(ops) && j < |LiveAfter(ops)|
    ensures Forward(RunCells(ops)) && j < |Walk(RunCells(ops))| && LiveAfter(ops)[j] < Appends(ops)
    ensures ItemAt(RunCells(ops), Walk(RunCells(ops))[j]) == ValuesAppended(ops)[LiveAfter(ops)[j]]
  {
    LiveWasAppended(ops);
    LegalRunVisitsLive(ops);
    LegalRunKeepsValues(ops, LiveAfter(ops)[j]);
  }

  // ---------------------------------------------------------------- the operations on cells

  class List {
    var length: nat
    var head: nat
    var next: map<nat, nat>
    var items: map<nat, Bytes>

    ghost function State(): Cells
      reads this
    {
      Cells(length, head, next, items)
    }

    constructor ()
      ensures State() == NO_CELLS
    {
      length, head, next, items := 0, 0, map[], map[];
    }

    method ExtendLl() returns (index: nat)
      modifies this
      ensures index == old(length) && length == old(length) + 1
      ensures head == old(head) && items == old(items)
      ensures next == if old(length) > 0 then old(next)[old(length) - 1 := old(length)] else old(next)
    {
      index := length;
      if index > 0 {
        next := next[index - 1 := index];
      }
      length := index + 1;
    }

    method AppendLl(value: Bytes)
      modifies this
      ensures State() == Appended(old(State()), value)
    {
      var index := ExtendLl();
      items := items[index := value];
    }

    method DeleteValue(i: nat)
      requires i < U32_LIMIT
      modifies this
      ensures State() == Deleted(old(State()), i)
    {
      var after := if i in next then next[i] else 0;
      if i == head {
        head := after;
      } else {
        next := next[(i + U32_LIMIT - 1) % U32_LIMIT := after];
      }
      items := items[i := [0]];
    }

    /** Collects what the walk visits, each index with its item. */
    method MapLl() returns (result: seq<(nat, Bytes)>)
      requires Forward(State())
      ensures |result| == |Walk(State())|
      ensures forall k :: 0 <= k < |result| ==> result[k] == (Walk(State())[k], ItemAt(State(), Walk(State())[k]))
    {
      result := [];
      var i := head;
      ghost var walk := Walk(State());
      ghost var rest := walk;
      while i < length
        invariant rest == WalkFrom(State(), i)
        invariant |result| + |rest| == |walk| && walk[|result|..] == rest
        invariant forall k :: 0 <= k < |result| ==> result[k] == (walk[k], ItemAt(State(), walk[k]))
        decreases length - i
      {
        result := result + [(i, if i in items then items[i] else [])];
        i := if i in next then next[i] else 0;
        rest := rest[1..];
        if i == 0 {
          break;
        }
      }
    }
  }

  /** A run of calls on a fresh list is that run on its cells. */
  method RunOn(ops: seq<Op>) returns (list: List)
    requires forall i :: 0 <= i < |ops| && ops[i].Delete? ==> ops[i].index < U32_LIMIT
    ensures fresh(list) && list.State() == RunCells(ops)
  {
    list := new List();
    for i := 0 to |ops|
      invariant fresh(list) && list.State() == RunCells(ops[..i])
    {
      assert ops[..i + 1][..i] == ops[..i];
      match ops[i]
      case Append(v) => list.AppendLl(v);
      case Delete(index) => list.DeleteValue(index);
    }
    assert ops[..|ops|] == ops;
  }
}
