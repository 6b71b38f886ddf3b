/**
 The tree in storage: nodes are kept under their hashes, an update walks down from a root,
 builds the new nodes bottom up and writes them in one batch. Old nodes are never removed.
 */
module TreeStore {
  import opened Basics
  import opened Tree

  type Nodes = map<Hash, Node>

  /** A new subtree root with the nodes to be written for it. */
  datatype Built = Built(root: Hash, batch: Nodes)

  /** Every node is kept under its own hash. */
  ghost predicate Addressed(nodes: Nodes) {
    forall h :: h in nodes ==> h == HashOf(nodes[h])
  }

  /** All nodes below a hash are in the store. */
  ghost predicate Stored(nodes: Nodes, hash: Hash) {
    hash.HashOf? ==>
      && hash in nodes && nodes[hash] == hash.node
      && (hash.node.Internal? ==> Stored(nodes, hash.node.left) && Stored(nodes, hash.node.right))
  }

  function Present(nodes: Nodes, hash: Hash): bool {
    hash != EmptyHash && hash in nodes
  }

  function AddNode(built: Built, node: Node): Built {
    Built(HashOf(node), built.batch[HashOf(node) := node])
  }

  function SeparateIn(depth: nat, existing: Digest, existingHash: Hash, key: Digest, leaf: Hash): Option<Built>
    decreases DEPTH - depth
  {
    if depth >= DEPTH then None
    else if existing[depth] != key[depth] then
      Some(AddNode(Built(leaf, map[]), WithChild(Internal(existingHash, existingHash), key[depth], leaf)))
    else
      var below := SeparateIn(depth + 1, existing, existingHash, key, leaf);
      if below.None? then None
      else Some(AddNode(below.value, WithChild(Internal(EmptyHash, EmptyHash), key[depth], below.value.root)))
  }

  /** The update below a hash as the walk over stored nodes computes it, whatever is stored. */
  function InsertIn(nodes: Nodes, hash: Hash, depth: nat, key: Digest, leaf: Hash): Option<Built>
    requires depth < DEPTH
    decreases DEPTH - depth
  {
    if !Present(nodes, hash) then Some(Built(leaf, map[]))
    else
      var node := nodes[hash];
      if node.Leaf? then
        if node.key == key then Some(Built(leaf, map[])) else SeparateIn(depth, node.key, HashOf(node), key, leaf)
      else if depth + 1 >= DEPTH then None
      else
        var child := InsertIn(nodes, ChildOf(node, key[depth]), depth + 1, key, leaf);
        if child.None? then None
        else Some(AddNode(child.value, WithChild(node, key[depth], child.value.root)))
  }

  function LeafHash(key: Digest, value: Bytes): Hash {
    HashOf(Leaf(key, value))
  }

  /** An update: the new root or the depth error, and the nodes afterwards. From the empty root nothing is written. */
  function Update(nodes: Nodes, root: Hash, key: Digest, value: Bytes): (Option<Hash>, Nodes) {
    var leaf := LeafHash(key, value);
    if root == EmptyHash then (Some(leaf), nodes)
    else
      var built := InsertIn(nodes, root, 0, key, leaf);
      if built.None? then (None, nodes)
      else (Some(built.value.root), nodes[leaf := Leaf(key, value)] + built.value.batch)
  }

  // ---------------------------------------------------------------- storage and the tree of values

  lemma {:induction false} StoredGrows(nodes: Nodes, more: Nodes, hash: Hash)
    requires Stored(nodes, hash)
    requires forall h :: h in nodes ==> h in more && more[h] == nodes[h]
    ensures Stored(more, hash)
    decreases hash
  {
    if hash.HashOf? && hash.node.Internal? {
      StoredGrows(nodes, more, hash.node.left);
      StoredGrows(nodes, more, hash.node.right);
    }
  }

  lemma {:induction false} AddressedUnion(a: Nodes, b: Nodes)
    requires Addressed(a) && Addressed(b)
    ensures Addressed(a + b)
    ensures forall h :: h in a ==> h in a + b && (a + b)[h] == a[h]
    ensures forall h :: h in b ==> h in a + b && (a + b)[h] == b[h]
  {
    forall h | h in a && h in b ensures a[h] == b[h] {
      assert HashOf(a[h]) == HashOf(b[h]);
    }
  }

  lemma {:induction false} SeparateInBuilds(nodes: Nodes, depth: nat, existing: Digest, existingHash: Hash,
                                            key: Digest, leaf: Hash)
    requires Addressed(nodes) && Stored(nodes, existingHash) && Stored(nodes, leaf)
    ensures var built := SeparateIn(depth, existing, existingHash, key, leaf);
            var value := Separate(depth, existing, existingHash, key, leaf);
            && (built.None? <==> value.None?)
            && (built.Some? ==> built.value.root == value.value && Addressed(built.value.batch) &&
                                Stored(nodes + built.value.batch, built.value.root))
    decreases DEPTH - depth
  {
    if depth < DEPTH && existing[depth] == key[depth] {
      SeparateInBuilds(nodes, depth + 1, existing, existingHash, key, leaf);
      var below := SeparateIn(depth + 1, existing, existingHash, key, leaf);
      if below.Some? {
        NodeAdded(nodes, below.value, WithChild(Internal(EmptyHash, EmptyHash), key[depth], below.value.root));
      }
    } else if depth < DEPTH {
      assert nodes + map[] == nodes;
      NodeAdded(nodes, Built(leaf, map[]), WithChild(Internal(existingHash, existingHash), key[depth], leaf));
    }
  }

  /** Adding a node whose children are stored, or were just built, keeps everything stored. */
  lemma {:induction false} NodeAdded(nodes: Nodes, built: Built, node: Node)
    requires Addressed(nodes) && Addressed(built.batch) && node.Internal?
    requires Stored(nodes + built.batch, node.left) && Stored(nodes + built.batch, node.right)
    ensures Addressed(AddNode(built, node).batch)
    ensures Stored(nodes + AddNode(built, node).batch, HashOf(node))
  {
    var before, after := nodes + built.batch, nodes + AddNode(built, node).batch;
    AddressedUnion(nodes, built.batch);
    AddressedUnion(nodes, AddNode(built, node).batch);
    StoredGrows(before, after, node.left);
    StoredGrows(before, after, node.right);
  }

  lemma {:induction false} InsertInBuilds(nodes: Nodes, hash: Hash, depth: nat, key: Digest, value: Bytes)
    requires depth < DEPTH
    requires Addressed(nodes) && Stored(nodes, hash) && Stored(nodes, LeafHash(key, value))
    ensures var built := InsertIn(nodes, hash, depth, key, LeafHash(key, value));
            var inserted := Insert(hash, depth, key, value);
            && (built.None? <==> inserted.None?)
            && (built.Some? ==> built.value.root == inserted.value && Addressed(built.value.batch) &&
                                Stored(nodes + built.value.batch, built.value.root))
    decreases DEPTH - depth
  {
    var leaf := LeafHash(key, value);
    assert nodes + map[] == nodes;
    if hash.EmptyHash? {
    } else if hash.node.Leaf? {
      if hash.node.key != key {
        SeparateInBuilds(nodes, depth, hash.node.key, hash, key, leaf);
      }
    } else if depth + 1 < DEPTH {
      var child := ChildOf(hash.node, key[depth]);
      InsertInBuilds(nodes, child, depth + 1, key, value);
      var built := InsertIn(nodes, child, depth + 1, key, leaf);
      if built.Some? {
        AddressedUnion(nodes, built.value.batch);
        StoredGrows(nodes, nodes + built.value.batch, hash.node.left);
        StoredGrows(nodes, nodes + built.value.batch, hash.node.right);
        NodeAdded(nodes, built.value, WithChild(hash.node, key[depth], built.value.root));
      }
    }
  }

  /** The walk reads the leaf's own batch entry nowhere, so having it stored changes nothing. */
  lemma {:induction false} LeafUnread(nodes: Nodes, hash: Hash, depth: nat, key: Digest, leaf: Hash, more: Nodes)
    requires depth < DEPTH && Stored(nodes, hash)
    requires forall h :: h in nodes ==> h in more && more[h] == nodes[h]
    requires EmptyHash !in more
    ensures InsertIn(more, hash, depth, key, leaf) == InsertIn(nodes, hash, depth, key, leaf)
    decreases DEPTH - depth
  {
    if hash.HashOf? && hash.node.Internal? && depth + 1 < DEPTH {
      LeafUnread(nodes, ChildOf(hash.node, key[depth]), depth + 1, key, leaf, more);
    }
  }

  /**
   An update from a stored, non-empty root: the value-level insertion, with the new tree stored
   and every tree stored before still stored.
   */
  lemma {:induction false} UpdateFromStored(nodes: Nodes, root: Hash, key: Digest, value: Bytes, other: Hash)
    requires Addressed(nodes) && Stored(nodes, root) && root != EmptyHash && Stored(nodes, other)
    ensures var (result, after) := Update(nodes, root, key, value);
            && result == Insert(root, 0, key, value)
            && Addressed(after)
            && Stored(after, other)
            && (result.Some? ==> Stored(after, result.value))
  {
    var leaf := LeafHash(key, value);
    var with := nodes[leaf := Leaf(key, value)];
    StoredGrows(nodes, with, root);
    InsertInBuilds(with, root, 0, key, value);
    LeafUnread(nodes, root, 0, key, leaf, with);
    var built := InsertIn(nodes, root, 0, key, leaf);
    if built.Some? {
      AddressedUnion(with, built.value.batch);
      StoredGrows(nodes, with + built.value.batch, other);
    }
  }

  /**
   From the empty root the update returns a leaf it has not written. Unless that leaf was
   stored already, the next update from the returned root forgets it.
   */
  lemma {:induction false} FirstLeafIsLost(nodes: Nodes, first: Digest, v1: Bytes, second: Digest, v2: Bytes)
    requires first != second && LeafHash(first, v1) !in nodes
    ensures var (root1, after1) := Update(nodes, EmptyHash, first, v1);
            && root1 == Some(LeafHash(first, v1)) && !Stored(after1, root1.value)
            && Update(after1, root1.value, second, v2).0 == Some(LeafHash(second, v2))
            && Find(LeafHash(second, v2), 0, first) == Ok(None)
  {
  }

  /** The returned root is stored exactly when the root was not empty or the leaf was there before. */
  lemma {:induction false} NewRootStoredIff(nodes: Nodes, m: Content, key: Digest, value: Bytes)
    requires Addressed(nodes) && Stored(nodes, Canon(m, 0)) && !Crowded(m, key)
    ensures var (result, after) := Update(nodes, Canon(m, 0), key, value);
            && result == Some(Canon(m[key := value], 0))
            && (Stored(after, result.value) <==> m != map[] || LeafHash(key, value) in nodes)
  {
    InsertIntoCanon(m, 0, key, value);
    if m == map[] {
      CanonSingle(key, value, 0);
    } else {
      assert |m| != 0;
      UpdateFromStored(nodes, Canon(m, 0), key, value, EmptyHash);
    }
  }

  // ---------------------------------------------------------------- sequences of updates

  /** Updates one after another from a root; the first error ends it. */
  function UpdateAll(nodes: Nodes, root: Hash, pairs: seq<Pair>): (Option<Hash>, Nodes) {
    if pairs == [] then (Some(root), nodes)
    else
      var (before, after) := UpdateAll(nodes, root, pairs[..|pairs| - 1]);
      if before.None? then (None, after)
      else Update(after, before.value, pairs[|pairs| - 1].key, pairs[|pairs| - 1].value)
  }

  lemma {:induction false} FinalContentGrows(m: Content, pairs: seq<Pair>)
    requires m != map[]
    ensures FinalContent(m, pairs) != map[]
  {
    if pairs != [] {
      assert pairs[|pairs| - 1].key in FinalContent(m, pairs);
    }
  }

  /** From a stored tree with keys, stored updates are insertions on values; new and old trees are all stored. */
  lemma {:induction false} UpdatesFromStored(nodes: Nodes, m: Content, pairs: seq<Pair>, other: Hash)
    requires Addressed(nodes) && Stored(nodes, Canon(m, 0)) && m != map[] && Stored(nodes, other)
    ensures var (result, after) := UpdateAll(nodes, Canon(m, 0), pairs);
            && result == InsertAll(Canon(m, 0), pairs)
            && Addressed(after) && Stored(after, other)
            && (result.Some? ==> Stored(after, result.value))
  {
    if pairs != [] {
      var front, last := pairs[..|pairs| - 1], pairs[|pairs| - 1];
      UpdatesFromStored(nodes, m, front, other);
      var (before, after) := UpdateAll(nodes, Canon(m, 0), front);
      if before.Some? {
        InsertAllIsCanon(m, front);
        FinalContentGrows(m, front);
        CanonKind(FinalContent(m, front), 0);
        UpdateFromStored(after, before.value, last.key, last.value, other);
      }
    }
  }

  /**
   Order independence in storage: from a stored tree with keys, two sequences of updates without
   error return the same root exactly when they leave the same content.
   */
  lemma {:induction false} StoredRootsAgreeIff(nodes: Nodes, m: Content, a: seq<Pair>, b: seq<Pair>)
    requires Addressed(nodes) && Stored(nodes, Canon(m, 0)) && m != map[]
    requires UpdateAll(nodes, Canon(m, 0), a).0.Some? && UpdateAll(nodes, Canon(m, 0), b).0.Some?
    ensures UpdateAll(nodes, Canon(m, 0), a).0 == UpdateAll(nodes, Canon(m, 0), b).0 <==>
            FinalContent(m, a) == FinalContent(m, b)
  {
    UpdatesFromStored(nodes, m, a, EmptyHash);
    UpdatesFromStored(nodes, m, b, EmptyHash);
    RootsAgreeIffContentsDo(m, a, b);
  }
}
