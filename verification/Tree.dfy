/**
 The sparse Merkle tree as values: hashes, insertion, lookup and the canonical form. A hash is
 its own preimage, so hashing is injective and never yields the empty hash; a key is its
 256-bit digest, and a leaf's value is the digest of the stored value.
 */
module Tree {
  import opened Basics

  const DEPTH: nat := 256

  /** Digest bits, most significant first. */
  type Digest = bits: seq<bool> | |bits| == 256 witness seq(256, _ => false)

  datatype Hash = EmptyHash | HashOf(node: Node)

  datatype Node = Internal(left: Hash, right: Hash) | Leaf(key: Digest, value: Bytes)

  type Content = map<Digest, Bytes>

  /** The child a digest leads to at a depth. */
  function ChildOf(node: Node, bit: bool): Hash
    requires node.Internal?
  {
    if bit then node.right else node.left
  }

  function WithChild(node: Node, bit: bool, child: Hash): Node
    requires node.Internal?
  {
    if bit then Internal(node.left, child) else Internal(child, node.right)
  }

  /** Two leaves below `depth`, with single-child nodes down to where their digests part. */
  function Separate(depth: nat, existing: Digest, existingHash: Hash, key: Digest, leaf: Hash): Option<Hash>
    decreases DEPTH - depth
  {
    if depth >= DEPTH then None
    else if existing[depth] != key[depth] then
      Some(HashOf(WithChild(Internal(existingHash, existingHash), key[depth], leaf)))
    else
      var below := Separate(depth + 1, existing, existingHash, key, leaf);
      if below.None? then None else Some(HashOf(WithChild(Internal(EmptyHash, EmptyHash), key[depth], below.value)))
  }

  /** Insertion below `depth`; None is the depth error. */
  function Insert(hash: Hash, depth: nat, key: Digest, value: Bytes): Option<Hash>
    requires depth < DEPTH
    decreases DEPTH - depth
  {
    var leaf := HashOf(Leaf(key, value));
    if hash.EmptyHash? then Some(leaf)
    else if hash.node.Leaf? then
      if hash.node.key == key then Some(leaf) else Separate(depth, hash.node.key, hash, key, leaf)
    else if depth + 1 >= DEPTH then None
    else
      var child := Insert(ChildOf(hash.node, key[depth]), depth + 1, key, value);
      if child.None? then None else Some(HashOf(WithChild(hash.node, key[depth], child.value)))
  }

  /** Lookup below `depth`; Err is the depth error. */
  function Find(hash: Hash, depth: nat, key: Digest): Result<Option<Bytes>>
    requires depth < DEPTH
    decreases DEPTH - depth
  {
    if hash.EmptyHash? then Ok(None)
    else if hash.node.Leaf? then
      if hash.node.key == key then Ok(Some(hash.node.value)) else Ok(None)
    else
      var child := ChildOf(hash.node, key[depth]);
      if child.EmptyHash? then Ok(None)
      else if depth + 1 >= DEPTH then Err
      else Find(child, depth + 1, key)
  }

  // ---------------------------------------------------------------- canonical form

  /** All keys share their first `depth` bits. */
  ghost predicate Agree(m: Content, depth: nat)
    requires depth <= DEPTH
  {
    forall x, y, i :: x in m && y in m && 0 <= i < depth ==> x[i] == y[i]
  }

  function Half(m: Content, depth: nat, bit: bool): Content
    requires depth < DEPTH
  {
    map x | x in m && x[depth] == bit :: m[x]
  }

  lemma {:induction false} TwoKeys(m: Content) returns (x: Digest, y: Digest)
    requires |m| >= 2
    ensures x in m && y in m && x != y
  {
    assert |m.Keys| == |m|;
    x :| x in m.Keys;
    assert |m.Keys - {x}| == |m.Keys| - 1;
    y :| y in m.Keys - {x};
  }

  lemma {:induction false} DifferAt(x: Digest, y: Digest) returns (i: nat)
    requires x != y
    ensures i < DEPTH && x[i] != y[i]
  {
    i := 0;
    while i < DEPTH && x[i] == y[i]
      invariant i <= DEPTH
      invariant forall j :: 0 <= j < i ==> x[j] == y[j]
    {
      i := i + 1;
    }
    assert i == DEPTH ==> x == y;
  }

  lemma {:induction false} ManyKeysPartAbove(m: Content, depth: nat)
    requires depth <= DEPTH && Agree(m, depth) && |m| >= 2
    ensures depth < DEPTH
  {
    var x, y := TwoKeys(m);
    var i := DifferAt(x, y);
    assert i >= depth;
  }

  /** No keys make the empty hash, one key a leaf, more keys an internal node. */
  ghost function Canon(m: Content, depth: nat): Hash
    requires depth <= DEPTH && Agree(m, depth)
    decreases DEPTH - depth
  {
    if m == map[] then EmptyHash
    else if |m| == 1 then (var k :| k in m; HashOf(Leaf(k, m[k])))
    else
      ManyKeysPartAbove(m, depth);
      HashOf(Internal(Canon(Half(m, depth, false), depth + 1), Canon(Half(m, depth, true), depth + 1)))
  }

  lemma {:induction false} CanonSingle(key: Digest, value: Bytes, depth: nat)
    requires depth <= DEPTH
    ensures Agree(map[key := value], depth)
    ensures Canon(map[key := value], depth) == HashOf(Leaf(key, value))
  {
    assert |map[key := value]| == 1;
  }

  lemma {:induction false} SingleContent(m: Content)
    requires |m| == 1
    ensures exists k :: k in m && m == map[k := m[k]]
  {
    var k :| k in m;
    assert m.Keys - {k} == {} by {
      assert |m.Keys - {k}| == 0;
    }
    forall x | x in m ensures x == k {
      assert x !in m.Keys - {k};
    }
    assert m == map[k := m[k]];
  }

  lemma {:induction false} HalfOfUpdate(m: Content, depth: nat, key: Digest, value: Bytes)
    requires depth < DEPTH
    ensures Half(m[key := value], depth, key[depth]) == Half(m, depth, key[depth])[key := value]
    ensures Half(m[key := value], depth, !key[depth]) == Half(m, depth, !key[depth])
  {
  }

  lemma {:induction false} UpdateGrows(m: Content, key: Digest, value: Bytes)
    ensures |m[key := value]| >= |m|
    ensures key !in m ==> |m[key := value]| == |m| + 1
    ensures key in m ==> |m[key := value]| == |m|
  {
    assert m[key := value].Keys == m.Keys + {key};
    assert |m| == |m.Keys| && |m[key := value]| == |m[key := value].Keys|;
  }

  lemma {:induction false} TwoKeyContent(depth: nat, existing: Digest, before: Bytes, key: Digest, value: Bytes)
    requires depth <= DEPTH && existing != key
    requires Agree(map[existing := before, key := value], depth)
    ensures |map[existing := before, key := value]| == 2 && depth < DEPTH
  {
    UpdateGrows(map[existing := before], key, value);
    assert map[existing := before][key := value] == map[existing := before, key := value];
    ManyKeysPartAbove(map[existing := before, key := value], depth);
  }

  lemma {:induction false} TwoKeyHalves(depth: nat, existing: Digest, before: Bytes, key: Digest, value: Bytes)
    requires depth < DEPTH && existing != key
    ensures var m := map[existing := before, key := value];
            if existing[depth] != key[depth]
            then && Half(m, depth, key[depth]) == map[key := value]
                 && Half(m, depth, existing[depth]) == map[existing := before]
            else Half(m, depth, key[depth]) == m && Half(m, depth, !key[depth]) == map[]
  {
  }

  lemma {:induction false} SeparateIsCanon(depth: nat, existing: Digest, before: Bytes, key: Digest, value: Bytes)
    requires depth <= DEPTH && existing != key
    requires Agree(map[existing := before, key := value], depth)
    ensures Separate(depth, existing, HashOf(Leaf(existing, before)), key, HashOf(Leaf(key, value))) ==
            Some(Canon(map[existing := before, key := value], depth))
    decreases DEPTH - depth
  {
    var m := map[existing := before, key := value];
    TwoKeyContent(depth, existing, before, key, value);
    CanonSplit(m, depth);
    TwoKeyHalves(depth, existing, before, key, value);
    if existing[depth] != key[depth] {
      CanonSingle(key, value, depth + 1);
      CanonSingle(existing, before, depth + 1);
    } else {
      SeparateIsCanon(depth + 1, existing, before, key, value);
    }
  }

  /** The digest that differs from `key` in the last bit only. */
  function Sibling(key: Digest): Digest {
    key[255 := !key[255]]
  }

  /** Both digests that share the first 255 bits of `key` are present. */
  predicate Crowded(m: Content, key: Digest) {
    key in m && Sibling(key) in m
  }

  lemma {:induction false} SharedPrefix(x: Digest, key: Digest)
    requires forall i :: 0 <= i < 255 ==> x[i] == key[i]
    ensures x == key || x == Sibling(key)
  {
    if x[255] == key[255] {
      assert x == key;
    } else {
      assert x == Sibling(key);
    }
  }

  /** At depth 255 two keys under the path of `key` can only be `key` and its sibling. */
  lemma {:induction false} CrowdedAtBottom(m: Content, key: Digest)
    requires |m| >= 2 && Agree(m, 255)
    requires forall x, i :: x in m && 0 <= i < 255 ==> x[i] == key[i]
    ensures Crowded(m, key)
  {
    var x, y := TwoKeys(m);
    SharedPrefix(x, key);
    SharedPrefix(y, key);
  }

  ghost predicate OnPath(m: Content, depth: nat, key: Digest)
    requires depth <= DEPTH
  {
    forall x, i :: x in m && 0 <= i < depth ==> x[i] == key[i]
  }

  lemma {:induction false} HalfFacts(m: Content, depth: nat, key: Digest)
    requires depth < DEPTH && OnPath(m, depth, key)
    ensures var half := Half(m, depth, key[depth]);
            && Agree(m, depth) && Agree(half, depth + 1) && OnPath(half, depth + 1, key)
            && Agree(Half(m, depth, !key[depth]), depth + 1)
            && (depth < 255 ==> (Crowded(m, key) <==> Crowded(half, key)))
  {
    if depth < 255 {
      assert Sibling(key)[depth] == key[depth];
    }
  }

  lemma {:induction false} OneKeyIsNotCrowded(x: Digest, value: Bytes, key: Digest)
    ensures !Crowded(map[x := value], key)
  {
    assert Sibling(key)[255] != key[255];
  }

  lemma {:induction false} InsertBesideLeaf(x: Digest, before: Bytes, depth: nat, key: Digest, value: Bytes)
    requires depth < DEPTH && OnPath(map[x := before], depth, key)
    ensures Agree(map[x := before][key := value], depth)
    ensures Insert(HashOf(Leaf(x, before)), depth, key, value) == Some(Canon(map[x := before][key := value], depth))
  {
    if x == key {
      assert map[x := before][key := value] == map[key := value];
      CanonSingle(key, value, depth);
    } else {
      var m := map[x := before, key := value];
      assert map[x := before][key := value] == m;
      assert forall i :: 0 <= i < depth ==> x[i] == key[i];
      SeparateIsCanon(depth, x, before, key, value);
    }
  }

  lemma {:induction false} InsertIntoSmall(m: Content, depth: nat, key: Digest, value: Bytes)
    requires depth < DEPTH && OnPath(m, depth, key) && |m| < 2
    ensures !Crowded(m, key) && Agree(m, depth) && Agree(m[key := value], depth)
    ensures Insert(Canon(m, depth), depth, key, value) == Some(Canon(m[key := value], depth))
  {
    if |m| == 0 {
      assert m == map[];
      CanonSingle(key, value, depth);
    } else {
      SingleContent(m);
      var x: Digest :| x in m && m == map[x := m[x]];
      OneKeyIsNotCrowded(x, m[x], key);
      CanonSingle(x, m[x], depth);
      InsertBesideLeaf(x, m[x], depth, key, value);
    }
  }

  /** Replacing the child on the key's side of a canonical node gives the canonical node of the updated content. */
  lemma {:induction false} RebuildCanon(m: Content, depth: nat, key: Digest, value: Bytes)
    requires depth < DEPTH && OnPath(m, depth, key) && |m| >= 2
    ensures Agree(m, depth) && Agree(m[key := value], depth) && Canon(m, depth).HashOf? && Canon(m, depth).node.Internal?
    ensures Agree(Half(m, depth, key[depth])[key := value], depth + 1)
    ensures HashOf(WithChild(Canon(m, depth).node, key[depth], Canon(Half(m, depth, key[depth])[key := value], depth + 1))) ==
            Canon(m[key := value], depth)
  {
    HalfFacts(m, depth, key);
    assert OnPath(m[key := value], depth, key);
    HalfFacts(m[key := value], depth, key);
    HalfOfUpdate(m, depth, key, value);
    UpdateGrows(m, key, value);
  }

  /**
   Inserting into a canonical tree gives the canonical tree of the updated content. It reports
   the depth error exactly when the key and its sibling are both present already.
   */
  lemma {:induction false} InsertIntoCanon(m: Content, depth: nat, key: Digest, value: Bytes)
    requires depth < DEPTH && OnPath(m, depth, key)
    ensures Agree(m, depth) && Agree(m[key := value], depth)
    ensures Insert(Canon(m, depth), depth, key, value) ==
            if Crowded(m, key) then None else Some(Canon(m[key := value], depth))
    decreases DEPTH - depth
  {
    assert OnPath(m[key := value], depth, key);
    if |m| < 2 {
      InsertIntoSmall(m, depth, key, value);
    } else {
      ManyKeysPartAbove(m, depth);
      HalfFacts(m, depth, key);
      if depth == 255 {
        CrowdedAtBottom(m, key);
      } else {
        var half := Half(m, depth, key[depth]);
        InsertIntoCanon(half, depth + 1, key, value);
        if !Crowded(m, key) {
          RebuildCanon(m, depth, key, value);
        }
      }
    }
  }

  /** A lookup in a canonical tree reads the content, and errs exactly below a crowded pair. */
  lemma {:induction false} FindInCanon(m: Content, depth: nat, key: Digest)
    requires depth < DEPTH && OnPath(m, depth, key)
    ensures Agree(m, depth)
    ensures Find(Canon(m, depth), depth, key) ==
            if Crowded(m, key) then Err else Ok(if key in m then Some(m[key]) else None)
    decreases DEPTH - depth
  {
    if |m| == 0 {
      assert m == map[];
    } else if |m| == 1 {
      SingleContent(m);
      var x: Digest :| x in m && m == map[x := m[x]];
      CanonSingle(x, m[x], depth);
      OneKeyIsNotCrowded(x, m[x], key);
    } else {
      HalfFacts(m, depth, key);
      ManyKeysPartAbove(m, depth);
      var half := Half(m, depth, key[depth]);
      if depth == 255 {
        CrowdedAtBottom(m, key);
        assert key in half;
      } else {
        FindInCanon(half, depth + 1, key);
      }
    }
  }

  /** The halves of more than one key, and the node over them. */
  lemma {:induction false} CanonSplit(m: Content, depth: nat)
    requires depth <= DEPTH && Agree(m, depth) && |m| >= 2
    ensures depth < DEPTH && Agree(Half(m, depth, false), depth + 1) && Agree(Half(m, depth, true), depth + 1)
    ensures Canon(m, depth) ==
            HashOf(Internal(Canon(Half(m, depth, false), depth + 1), Canon(Half(m, depth, true), depth + 1)))
  {
    ManyKeysPartAbove(m, depth);
  }

  /** The kind of node says how many keys there are. */
  lemma {:induction false} CanonKind(m: Content, depth: nat)
    requires depth <= DEPTH && Agree(m, depth)
    ensures m == map[] <==> Canon(m, depth).EmptyHash?
    ensures |m| >= 2 <==> Canon(m, depth).HashOf? && Canon(m, depth).node.Internal?
    ensures |m| == 1 ==> var n := Canon(m, depth).node; n.Leaf? && m == map[n.key := n.value]
  {
    if |m| >= 2 {
      CanonSplit(m, depth);
    } else if |m| == 1 {
      SingleContent(m);
    }
  }

  /** The canonical root determines the content. */
  lemma {:induction false} CanonInjective(a: Content, b: Content, depth: nat)
    requires depth <= DEPTH && Agree(a, depth) && Agree(b, depth)
    requires Canon(a, depth) == Canon(b, depth)
    ensures a == b
    decreases DEPTH - depth
  {
    CanonKind(a, depth);
    CanonKind(b, depth);
    if |a| >= 2 {
      CanonSplit(a, depth);
      CanonSplit(b, depth);
      CanonInjective(Half(a, depth, false), Half(b, depth, false), depth + 1);
      CanonInjective(Half(a, depth, true), Half(b, depth, true), depth + 1);
      JoinHalves(a, depth);
      JoinHalves(b, depth);
    }
  }

  lemma {:induction false} JoinHalves(m: Content, depth: nat)
    requires depth < DEPTH
    ensures m == Half(m, depth, false) + Half(m, depth, true)
  {
  }

  // ---------------------------------------------------------------- sequences of insertions

  datatype Pair = Pair(key: Digest, value: Bytes)

  function InsertAll(root: Hash, pairs: seq<Pair>): Option<Hash> {
    if pairs == [] then Some(root)
    else
      var before := InsertAll(root, pairs[..|pairs| - 1]);
      if before.None? then None else Insert(before.value, 0, pairs[|pairs| - 1].key, pairs[|pairs| - 1].value)
  }

  function FinalContent(m: Content, pairs: seq<Pair>): Content {
    if pairs == [] then m
    else FinalContent(m, pairs[..|pairs| - 1])[pairs[|pairs| - 1].key := pairs[|pairs| - 1].value]
  }

  lemma {:induction false} InsertAllIsCanon(m: Content, pairs: seq<Pair>)
    ensures var root := InsertAll(Canon(m, 0), pairs);
            root.Some? ==> root.value == Canon(FinalContent(m, pairs), 0)
  {
    if pairs != [] {
      var front, last := pairs[..|pairs| - 1], pairs[|pairs| - 1];
      InsertAllIsCanon(m, front);
      InsertIntoCanon(FinalContent(m, front), 0, last.key, last.value);
    }
  }

  /**
   Order independence: from one content, two sequences of insertions that report no error end
   at the same root exactly when they leave the same content.
   */
  lemma {:induction false} RootsAgreeIffContentsDo(m: Content, a: seq<Pair>, b: seq<Pair>)
    requires InsertAll(Canon(m, 0), a).Some? && InsertAll(Canon(m, 0), b).Some?
    ensures InsertAll(Canon(m, 0), a) == InsertAll(Canon(m, 0), b) <==> FinalContent(m, a) == FinalContent(m, b)
  {
    InsertAllIsCanon(m, a);
    InsertAllIsCanon(m, b);
    if InsertAll(Canon(m, 0), a) == InsertAll(Canon(m, 0), b) {
      CanonInjective(FinalContent(m, a), FinalContent(m, b), 0);
    }
  }

  /**
   One insertion: the new root reads the new value and every other key reads as before, except
   that a digest and its sibling, once both present, can no longer be read.
   */
  lemma {:induction false} InsertThenFind(m: Content, key: Digest, value: Bytes, asked: Digest)
    requires !Crowded(m, key)
    ensures var after := Insert(Canon(m, 0), 0, key, value);
            && after.Some?
            && Find(after.value, 0, asked) ==
               if Crowded(m[key := value], asked) then Err
               else if asked == key then Ok(Some(value))
               else Find(Canon(m, 0), 0, asked)
  {
    InsertIntoCanon(m, 0, key, value);
    FindInCanon(m[key := value], 0, asked);
    FindInCanon(m, 0, asked);
  }
}
