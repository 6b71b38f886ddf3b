/**
 Ancestor sets and block templates of the mempool service: worklist loops over the ancestor
 relation, which may mention transactions outside the mempool and may contain cycles. Fee rates
 are reals and the entries of a template are tried in any fixed order.
 */
module Mempool {
  import opened Basics

  type Txid = Bytes

  datatype TxInfo = TxInfo(fee: nat, vsize: nat, feeRate: real, ancestors: seq<Txid>)

  type Txs = map<Txid, TxInfo>

  const MIN_FEE_RATE: real := 1.0
  const MAX_BLOCK_WEIGHT: nat := 4_000_000
  const BASE_REWARD: nat := 62_500_000_000

  // ---------------------------------------------------------------- reachability

  /** `t` is in the pool and lists `a` as an ancestor. */
  predicate Lists(txs: Txs, t: Txid, a: Txid) {
    t in txs && a in txs[t].ancestors
  }

  ghost predicate Path(txs: Txs, path: seq<Txid>) {
    path != [] && forall i, j :: 0 <= i && i + 1 == j < |path| ==> Lists(txs, path[i], path[j])
  }

  ghost predicate Reaches(txs: Txs, from: Txid, to: Txid) {
    exists path :: Path(txs, path) && path[0] == from && path[|path| - 1] == to
  }

  /** The pool's transactions reachable from `from` along ancestors, itself included. */
  ghost function AncestorSet(txs: Txs, from: Txid): set<Txid> {
    set t | t in txs && Reaches(txs, from, t)
  }

  lemma ReachesItself(txs: Txs, t: Txid)
    ensures Reaches(txs, t, t)
  {
    assert Path(txs, [t]);
  }

  lemma ReachesStep(txs: Txs, from: Txid, t: Txid, a: Txid)
    requires Reaches(txs, from, t) && Lists(txs, t, a)
    ensures Reaches(txs, from, a)
  {
    var path :| Path(txs, path) && path[0] == from && path[|path| - 1] == t;
    assert Path(txs, path + [a]);
  }

  /** Closed under the ancestors of its members that are in the pool. */
  ghost predicate Closed(txs: Txs, s: set<Txid>) {
    forall t, a :: t in s && Lists(txs, t, a) ==> a in s
  }

  lemma {:induction false} ClosedHasPath(txs: Txs, s: set<Txid>, path: seq<Txid>)
    requires Closed(txs, s) && Path(txs, path) && path[0] in s
    ensures path[|path| - 1] in s
  {
    if |path| > 1 {
      var front := path[..|path| - 1];
      assert Lists(txs, path[|path| - 2], path[|path| - 1]);
      assert Path(txs, front);
      ClosedHasPath(txs, s, front);
    }
  }

  lemma {:induction false} ClosedHasReachable(txs: Txs, s: set<Txid>, from: Txid)
    requires Closed(txs, s) && from in s
    ensures forall t :: Reaches(txs, from, t) ==> t in s
  {
    forall t | Reaches(txs, from, t) ensures t in s {
      var path :| Path(txs, path) && path[0] == from && path[|path| - 1] == t;
      ClosedHasPath(txs, s, path);
    }
  }

  // ---------------------------------------------------------------- totals

  ghost function TotalFee(txs: Txs, s: set<Txid>): nat
    requires s <= txs.Keys
  {
    if s == {} then 0 else
      var t :| t in s;
      txs[t].fee + TotalFee(txs, s - {t})
  }

  ghost function TotalVsize(txs: Txs, s: set<Txid>): nat
    requires s <= txs.Keys
  {
    if s == {} then 0 else
      var t :| t in s;
      txs[t].vsize + TotalVsize(txs, s - {t})
  }

  lemma {:induction false} TotalFeeWithout(txs: Txs, s: set<Txid>, t: Txid)
    requires s <= txs.Keys && t in s
    ensures TotalFee(txs, s) == txs[t].fee + TotalFee(txs, s - {t})
  {
    var u :| u in s && TotalFee(txs, s) == txs[u].fee + TotalFee(txs, s - {u});
    if u != t {
      TotalFeeWithout(txs, s - {u}, t);
      TotalFeeWithout(txs, s - {t}, u);
      assert s - {u} - {t} == s - {t} - {u};
    }
  }

  lemma {:induction false} TotalVsizeWithout(txs: Txs, s: set<Txid>, t: Txid)
    requires s <= txs.Keys && t in s
    ensures TotalVsize(txs, s) == txs[t].vsize + TotalVsize(txs, s - {t})
  {
    var u :| u in s && TotalVsize(txs, s) == txs[u].vsize + TotalVsize(txs, s - {u});
    if u != t {
      TotalVsizeWithout(txs, s - {u}, t);
      TotalVsizeWithout(txs, s - {t}, u);
      assert s - {u} - {t} == s - {t} - {u};
    }
  }

  lemma TotalsWith(txs: Txs, s: set<Txid>, t: Txid)
    requires s <= txs.Keys && t in txs && t !in s
    ensures TotalFee(txs, s + {t}) == TotalFee(txs, s) + txs[t].fee
    ensures TotalVsize(txs, s + {t}) == TotalVsize(txs, s) + txs[t].vsize
  {
    TotalFeeWithout(txs, s + {t}, t);
    TotalVsizeWithout(txs, s + {t}, t);
    assert s + {t} - {t} == s;
  }

  // ---------------------------------------------------------------- the worklist

  /** Every id that can ever enter the worklist. */
  ghost function Mentioned(txs: Txs, root: Txid): set<Txid> {
    {root} + set t, a | t in txs && a in txs[t].ancestors :: a
  }

  /** The visited ids and the worklist, between two rounds of a search from `root` on top of `before`. */
  ghost predicate Searching(txs: Txs, root: Txid, before: set<Txid>, seen: set<Txid>, queue: seq<Txid>) {
    && before <= seen
    && (root in seen || root in queue)
    && (forall t :: t in queue ==> Reaches(txs, root, t) && t in Mentioned(txs, root))
    && (forall t :: t in seen ==> t in before || (Reaches(txs, root, t) && t in Mentioned(txs, root)))
    && (forall t, a :: t in seen && Lists(txs, t, a) ==> a in seen || a in queue)
  }

  lemma {:induction false} SearchStarts(txs: Txs, root: Txid, before: set<Txid>)
    requires Closed(txs, before)
    ensures Searching(txs, root, before, before, [root])
  {
    ReachesItself(txs, root);
  }

  function PoolAncestors(txs: Txs, t: Txid): seq<Txid> {
    if t in txs then txs[t].ancestors else []
  }

  /** One id is taken off the worklist: dropped if seen, else marked and its ancestors queued. */
  lemma {:induction false} SearchGoesOn(txs: Txs, root: Txid, before: set<Txid>, seen: set<Txid>,
                                        queue: seq<Txid>, t: Txid)
    requires Searching(txs, root, before, seen, queue + [t])
    ensures t in seen ==> Searching(txs, root, before, seen, queue)
    ensures t !in seen ==> Searching(txs, root, before, seen + {t}, queue + PoolAncestors(txs, t))
    ensures t in Mentioned(txs, root)
  {
    assert t in queue + [t];
    if t !in seen && t in txs {
      forall a | a in txs[t].ancestors ensures Reaches(txs, root, a) && a in Mentioned(txs, root) {
        ReachesStep(txs, root, t, a);
      }
    }
  }

  /** When the worklist is empty, exactly the reachable ids have been added. */
  lemma {:induction false} SearchEnds(txs: Txs, root: Txid, before: set<Txid>, seen: set<Txid>)
    requires Searching(txs, root, before, seen, [])
    ensures Closed(txs, seen)
    ensures forall t :: t in seen <==> t in before || Reaches(txs, root, t)
  {
    ClosedHasReachable(txs, seen, root);
  }

  /** The running totals cover exactly the visited part of the pool. */
  ghost predicate Tallied(txs: Txs, seen: set<Txid>, fee: nat, vsize: nat) {
    fee == TotalFee(txs, seen * txs.Keys) && vsize == TotalVsize(txs, seen * txs.Keys)
  }

  lemma TallyOne(txs: Txs, seen: set<Txid>, fee: nat, vsize: nat, t: Txid)
    requires Tallied(txs, seen, fee, vsize) && t !in seen
    ensures t in txs ==> Tallied(txs, seen + {t}, fee + txs[t].fee, vsize + txs[t].vsize)
    ensures t !in txs ==> Tallied(txs, seen + {t}, fee, vsize)
  {
    if t in txs {
      TotalsWith(txs, seen * txs.Keys, t);
      assert (seen + {t}) * txs.Keys == seen * txs.Keys + {t};
    } else {
      assert (seen + {t}) * txs.Keys == seen * txs.Keys;
    }
  }

  /** The fees and sizes of exactly the reachable part of the pool; ends on cycles too. */
  method GetAncestorSetInfo(txs: Txs, txid: Txid) returns (totalFee: nat, totalVsize: nat)
    ensures totalFee == TotalFee(txs, AncestorSet(txs, txid))
    ensures totalVsize == TotalVsize(txs, AncestorSet(txs, txid))
  {
    totalFee, totalVsize := 0, 0;
    var seen: set<Txid> := {};
    var queue := [txid];
    SearchStarts(txs, txid, {});
    while queue != []
      invariant Searching(txs, txid, {}, seen, queue)
      invariant Tallied(txs, seen, totalFee, totalVsize)
      decreases Mentioned(txs, txid) - seen, |queue|
    {
      var current := queue[|queue| - 1];
      assert queue == queue[..|queue| - 1] + [current];
      queue := queue[..|queue| - 1];
      SearchGoesOn(txs, txid, {}, seen, queue, current);
      if current in seen {
        continue;
      }
      TallyOne(txs, seen, totalFee, totalVsize, current);
      seen := seen + {current};
      if current in txs {
        totalFee := totalFee + txs[current].fee;
        totalVsize := totalVsize + txs[current].vsize;
        queue := queue + txs[current].ancestors;
      } else {
        assert queue + [] == queue;
      }
    }
    SearchEnds(txs, txid, {}, seen);
    assert seen * txs.Keys == AncestorSet(txs, txid);
  }

  // ---------------------------------------------------------------- block templates

  datatype Template = Template(txids: seq<Txid>, totalFees: nat, totalVsize: nat, expectedReward: nat)

  /** Whether an entry is passed over: fee rate too low, already in, or too large on its own for what is left. */
  ghost predicate Skipped(txs: Txs, before: set<Txid>, t: Txid)
    requires before <= txs.Keys && t in txs
  {
    txs[t].feeRate < MIN_FEE_RATE || t in before || TotalVsize(txs, before) + txs[t].vsize > MAX_BLOCK_WEIGHT
  }

  /** The transactions in the template once the entries have been tried in order. */
  ghost function Picked(txs: Txs, entries: seq<Txid>): (s: set<Txid>)
    requires forall t :: t in entries ==> t in txs
    ensures s <= txs.Keys
  {
    if entries == [] then {}
    else
      var before, t := Picked(txs, entries[..|entries| - 1]), entries[|entries| - 1];
      if Skipped(txs, before, t) then before else before + AncestorSet(txs, t)
  }

  /** Without repetition, exactly the members of `s`. */
  ghost predicate ListsExactly(txids: seq<Txid>, s: set<Txid>) {
    && (forall i, j :: 0 <= i < j < |txids| ==> txids[i] != txids[j])
    && (forall t :: t in txids <==> t in s)
  }

  /** So the list is as long as the set is large. */
  lemma {:induction false} ListsExactlyCount(txids: seq<Txid>, s: set<Txid>)
    requires ListsExactly(txids, s)
    ensures |txids| == |s|
  {
    if txids != [] {
      var front, last := txids[..|txids| - 1], txids[|txids| - 1];
      assert txids == front + [last];
      assert forall i :: 0 <= i < |front| ==> front[i] == txids[i] && txids[i] != last;
      ListsExactlyCount(front, s - {last});
    } else {
      assert s == {};
    }
  }

  lemma ListOneMore(txs: Txs, included: set<Txid>, txids: seq<Txid>, t: Txid)
    requires ListsExactly(txids, included * txs.Keys) && t !in included
    ensures ListsExactly(if t in txs then txids + [t] else txids, (included + {t}) * txs.Keys)
  {
    if t in txs {
      assert (included + {t}) * txs.Keys == included * txs.Keys + {t};
    } else {
      assert (included + {t}) * txs.Keys == included * txs.Keys;
    }
  }

  /** Adds a transaction and what it can reach to the included ids, the list and the totals. */
  method IncludeWithAncestors(txs: Txs, root: Txid, before: set<Txid>, template: Template)
    returns (included: set<Txid>, grown: Template)
    requires Closed(txs, before) && ListsExactly(template.txids, before * txs.Keys)
    requires Tallied(txs, before, template.totalFees, template.totalVsize)
    ensures Closed(txs, included) && included * txs.Keys == before * txs.Keys + AncestorSet(txs, root)
    ensures ListsExactly(grown.txids, included * txs.Keys)
    ensures Tallied(txs, included, grown.totalFees, grown.totalVsize)
    ensures grown.expectedReward == template.expectedReward
  {
    included, grown := before, template;
    var queue := [root];
    SearchStarts(txs, root, before);
    while queue != []
      invariant Searching(txs, root, before, included, queue)
      invariant ListsExactly(grown.txids, included * txs.Keys)
      invariant Tallied(txs, included, grown.totalFees, grown.totalVsize)
      invariant grown.expectedReward == template.expectedReward
      decreases Mentioned(txs, root) - included, |queue|
    {
      var current := queue[|queue| - 1];
      assert queue == queue[..|queue| - 1] + [current];
      queue := queue[..|queue| - 1];
      SearchGoesOn(txs, root, before, included, queue, current);
      if current !in included {
        TallyOne(txs, included, grown.totalFees, grown.totalVsize, current);
        ListOneMore(txs, included, grown.txids, current);
        if current in txs {
          grown := grown.(txids := grown.txids + [current], totalFees := grown.totalFees + txs[current].fee,
                          totalVsize := grown.totalVsize + txs[current].vsize);
          queue := queue + txs[current].ancestors;
        } else {
          assert queue + [] == queue;
        }
        included := included + {current};
      }
    }
    SearchEnds(txs, root, before, included);
    assert included * txs.Keys == before * txs.Keys + AncestorSet(txs, root);
  }

  /** The template lists each picked transaction once, and its totals are theirs. */
  method GenerateBlockTemplate(txs: Txs, entries: seq<Txid>) returns (template: Template)
    requires forall t :: t in entries <==> t in txs
    ensures ListsExactly(template.txids, Picked(txs, entries))
    ensures template.totalFees == TotalFee(txs, Picked(txs, entries))
    ensures template.totalVsize == TotalVsize(txs, Picked(txs, entries))
    ensures template.expectedReward == 62_500_000_000 + template.totalFees
  {
    template := Template([], 0, 0, BASE_REWARD);
    var included: set<Txid> := {};
    for i := 0 to |entries|
      invariant Closed(txs, included) && included * txs.Keys == Picked(txs, entries[..i])
      invariant ListsExactly(template.txids, included * txs.Keys)
      invariant Tallied(txs, included, template.totalFees, template.totalVsize)
      invariant template.expectedReward == BASE_REWARD
    {
      var t := entries[i];
      assert entries[..i + 1][..i] == entries[..i];
      if txs[t].feeRate < MIN_FEE_RATE || t in included {
        continue;
      }
      if template.totalVsize + txs[t].vsize > MAX_BLOCK_WEIGHT {
        continue;
      }
      included, template := IncludeWithAncestors(txs, t, included, template);
    }
    assert entries[..|entries|] == entries;
    template := template.(expectedReward := template.expectedReward + template.totalFees);
  }

  /** With a transaction the template holds every ancestor of it that is in the pool. */
  lemma {:induction false} PickedIsClosed(txs: Txs, entries: seq<Txid>, t: Txid, a: Txid)
    requires (forall e :: e in entries ==> e in txs) && t in Picked(txs, entries) && Lists(txs, t, a) && a in txs
    ensures a in Picked(txs, entries)
  {
    var front, last := entries[..|entries| - 1], entries[|entries| - 1];
    if t in Picked(txs, front) {
      PickedIsClosed(txs, front, t, a);
    } else {
      ReachesStep(txs, last, t, a);
    }
  }

  lemma {:induction false} PickedGrows(txs: Txs, entries: seq<Txid>, i: nat)
    requires (forall e :: e in entries ==> e in txs) && i <= |entries|
    ensures Picked(txs, entries[..i]) <= Picked(txs, entries)
  {
    if i < |entries| {
      PickedGrows(txs, entries[..|entries| - 1], i);
      assert entries[..|entries| - 1][..i] == entries[..i];
    } else {
      assert entries[..i] == entries;
    }
  }

  /** A transaction of sufficient fee rate is left out only if it did not fit when its turn came. */
  lemma {:induction false} LeftOutDidNotFit(txs: Txs, entries: seq<Txid>, i: nat)
    requires (forall e :: e in entries ==> e in txs) && i < |entries| && txs[entries[i]].feeRate >= MIN_FEE_RATE
    requires entries[i] !in Picked(txs, entries)
    ensures TotalVsize(txs, Picked(txs, entries[..i])) + txs[entries[i]].vsize > MAX_BLOCK_WEIGHT
  {
    var upTo := entries[..i + 1];
    PickedGrows(txs, entries, i + 1);
    assert upTo[..i] == entries[..i];
    ReachesItself(txs, entries[i]);
  }

  /** Nothing is in the template but for a tried entry of sufficient fee rate that reaches it. */
  lemma {:induction false} PickedForAnEntry(txs: Txs, entries: seq<Txid>, t: Txid)
    requires (forall e :: e in entries ==> e in txs) && t in Picked(txs, entries)
    ensures exists e :: e in entries && txs[e].feeRate >= MIN_FEE_RATE && t in AncestorSet(txs, e)
  {
    var front, last := entries[..|entries| - 1], entries[|entries| - 1];
    if t in Picked(txs, front) {
      PickedForAnEntry(txs, front, t);
    } else {
      assert last in entries && t in AncestorSet(txs, last);
    }
  }

  /**
   An entry is taken at its turn if and only if its fee rate is at least 1, it is not in yet, and on
   its own it keeps the template within four million; then it comes with all it can reach.
   */
  lemma {:induction false} TakenIff(txs: Txs, entries: seq<Txid>, i: nat)
    requires (forall e :: e in entries ==> e in txs) && i < |entries|
    ensures var before, after := Picked(txs, entries[..i]), Picked(txs, entries[..i + 1]);
            var fits := txs[entries[i]].feeRate >= 1.0 && entries[i] !in before &&
                        TotalVsize(txs, before) + txs[entries[i]].vsize <= 4_000_000;
            && after == (if fits then before + AncestorSet(txs, entries[i]) else before)
            && (after != before <==> fits)
  {
    var upTo := entries[..i + 1];
    assert upTo[..|upTo| - 1] == entries[..i];
    ReachesItself(txs, entries[i]);
  }

  lemma {:induction false} TotalVsizeGrows(txs: Txs, small: set<Txid>, large: set<Txid>)
    requires small <= large <= txs.Keys
    ensures TotalVsize(txs, small) <= TotalVsize(txs, large)
    decreases |large|
  {
    if small != large {
      assert exists t :: t in large && t !in small;
      var t :| t in large && t !in small;
      TotalVsizeWithout(txs, large, t);
      TotalVsizeGrows(txs, small, large - {t});
    }
  }

  /** The test the guard leaves out: what the template would weigh with the entry and its ancestors. */
  ghost predicate FitsWithAncestors(txs: Txs, entries: seq<Txid>, i: nat)
    requires (forall e :: e in entries ==> e in txs) && i < |entries|
  {
    var before := Picked(txs, entries[..i]);
    Skipped(txs, before, entries[i]) || TotalVsize(txs, before + AncestorSet(txs, entries[i])) <= MAX_BLOCK_WEIGHT
  }

  /** A template keeps the weight limit if and only if every entry that is picked fits with its ancestors. */
  lemma {:induction false} SizeLimitIff(txs: Txs, entries: seq<Txid>)
    requires forall e :: e in entries ==> e in txs
    ensures TotalVsize(txs, Picked(txs, entries)) <= MAX_BLOCK_WEIGHT <==>
            forall i :: 0 <= i < |entries| ==> FitsWithAncestors(txs, entries, i)
  {
    if TotalVsize(txs, Picked(txs, entries)) <= MAX_BLOCK_WEIGHT {
      forall i | 0 <= i < |entries| ensures FitsWithAncestors(txs, entries, i) {
        assert entries[..i + 1][..i] == entries[..i];
        PickedGrows(txs, entries, i + 1);
        TotalVsizeGrows(txs, Picked(txs, entries[..i + 1]), Picked(txs, entries));
      }
    }
    if forall i :: 0 <= i < |entries| ==> FitsWithAncestors(txs, entries, i) {
      FittingKeepsLimit(txs, entries, |entries|);
      assert entries[..|entries|] == entries;
    }
  }

  lemma {:induction false} FittingKeepsLimit(txs: Txs, entries: seq<Txid>, n: nat)
    requires (forall e :: e in entries ==> e in txs) && n <= |entries|
    requires forall i :: 0 <= i < |entries| ==> FitsWithAncestors(txs, entries, i)
    ensures TotalVsize(txs, Picked(txs, entries[..n])) <= MAX_BLOCK_WEIGHT
  {
    if n > 0 {
      FittingKeepsLimit(txs, entries, n - 1);
      assert entries[..n][..n - 1] == entries[..n - 1];
      assert FitsWithAncestors(txs, entries, n - 1);
    }
  }

  /** The size test counts one transaction without its ancestors, so a template can exceed the limit. */
  lemma {:induction false} SizeLimitCanFail(child: Txid, parent: Txid)
    requires child != parent
    ensures var txs: Txs := map[child := TxInfo(1000, 100, 10.0, [parent]), parent := TxInfo(1, MAX_BLOCK_WEIGHT, 0.0, [])];
            TotalVsize(txs, Picked(txs, [child, parent])) > MAX_BLOCK_WEIGHT
  {
    var txs: Txs := map[child := TxInfo(1000, 100, 10.0, [parent]), parent := TxInfo(1, MAX_BLOCK_WEIGHT, 0.0, [])];
    ReachesItself(txs, child);
    ReachesStep(txs, child, child, parent);
    assert AncestorSet(txs, child) == {child, parent};
    assert [child, parent][..1] == [child] && [child][..0] == [];
    assert TotalVsize(txs, {}) == 0;
    assert Picked(txs, [child]) == {} + AncestorSet(txs, child);
    assert Picked(txs, [child, parent]) == {child, parent};
    TotalsWith(txs, {}, child);
    TotalsWith(txs, {child}, parent);
    assert {} + {child} == {child} && {child} + {parent} == {child, parent};
  }
}
