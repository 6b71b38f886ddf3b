/** The loops of the tree: walk down collecting the path, then rebuild it from the bottom. */
module TreeHelper {
  import opened Basics
  import opened Tree
  import opened TreeStore

  /** A visited node: its depth, and for a leaf whether it holds the inserted key. */
  datatype PathNode = PathNode(depth: nat, node: Node, sameKey: bool)

  /** `hashes[i]` was visited at depth i; every visited node but the last is internal. */
  ghost predicate Visited(nodes: Nodes, key: Digest, hashes: seq<Hash>, path: seq<PathNode>)
  {
    && 0 < |hashes| <= DEPTH
    && |hashes| - 1 <= |path| <= |hashes|
    && (forall i :: 0 <= i < |path| ==> Present(nodes, hashes[i]) && path[i].node == nodes[hashes[i]] && path[i].depth == i)
    && (forall i :: 0 <= i < |hashes| - 1 ==>
          path[i].node.Internal? && hashes[i + 1] == ChildOf(path[i].node, key[i]))
  }

  /** The walk has ended: nothing stored at the last hash, or a leaf there. */
  ghost predicate Ended(nodes: Nodes, key: Digest, hashes: seq<Hash>, path: seq<PathNode>) {
    && Visited(nodes, key, hashes, path)
    && (|path| < |hashes| ==> !Present(nodes, hashes[|hashes| - 1]))
    && (|path| == |hashes| ==>
          var last := path[|path| - 1];
          last.node.Leaf? && last.sameKey == (last.node.key == key))
  }

  lemma {:induction false} PathGrows(nodes: Nodes, key: Digest, hashes: seq<Hash>, path: seq<PathNode>, sameKey: bool)
    requires Visited(nodes, key, hashes, path) && |path| + 1 == |hashes| && Present(nodes, hashes[|path|])
    ensures var node := nodes[hashes[|path|]];
            var grown := path + [PathNode(|path|, node, sameKey)];
            && Visited(nodes, key, hashes, grown)
            && (node.Internal? && |hashes| < DEPTH ==>
                  Visited(nodes, key, hashes + [ChildOf(node, key[|path|])], grown))
  {
  }

  class SmtHelper {
    var nodes: Nodes
    var nodeCache: Nodes

    constructor (stored: Nodes)
      ensures nodes == stored && nodeCache == map[]
    {
      nodes, nodeCache := stored, map[];
    }

    ghost predicate Valid()
      reads this
    {
      forall h :: h in nodeCache ==> Present(nodes, h) && nodeCache[h] == nodes[h]
    }

    /** Node lookup through the cache of the batched helper. */
    method GetNodeCached(hash: Hash) returns (node: Option<Node>)
      requires Valid()
      modifies this`nodeCache
      ensures Valid()
      ensures node == if Present(nodes, hash) then Some(nodes[hash]) else None
    {
      if hash == EmptyHash {
        return None;
      }
      if hash in nodeCache {
        return Some(nodeCache[hash]);
      }
      if hash !in nodes {
        return None;
      }
      nodeCache := nodeCache[hash := nodes[hash]];
      node := Some(nodes[hash]);
    }

    /** Follow a digest from a root to its leaf. */
    method GetLeaf(root: Hash, key: Digest) returns (r: Result<Option<Bytes>>)
      ensures Stored(nodes, root) ==> r == Find(root, 0, key)
    {
      if root == EmptyHash {
        return Ok(None);
      }
      var current, depth := root, 0;
      while true
        invariant 0 <= depth < DEPTH && current != EmptyHash
        invariant Stored(nodes, root) ==> Stored(nodes, current) && Find(current, depth, key) == Find(root, 0, key)
        decreases DEPTH - depth
      {
        if current !in nodes {
          return Ok(None);
        }
        var node := nodes[current];
        if node.Leaf? {
          return Ok(if node.key == key then Some(node.value) else None);
        }
        current := ChildOf(node, key[depth]);
        depth := depth + 1;
        if current == EmptyHash {
          return Ok(None);
        }
        if depth >= DEPTH {
          return Err;
        }
      }
    }

    /** Walk from the root to where the key belongs; None is the depth error. */
    method WalkDown(root: Hash, key: Digest, ghost leaf: Hash)
        returns (path: Option<seq<PathNode>>, ghost hashes: seq<Hash>)
      requires Valid()
      modifies this`nodeCache
      ensures Valid()
      ensures path.None? ==> InsertIn(nodes, root, 0, key, leaf).None?
      ensures path.Some? ==> Ended(nodes, key, hashes, path.value) && hashes[0] == root
    {
      var steps: seq<PathNode>, current, depth := [], root, 0;
      hashes := [root];
      while true
        invariant Valid() && nodes == old(nodes)
        invariant 0 <= depth < DEPTH && |steps| == depth && |hashes| == depth + 1
        invariant Visited(nodes, key, hashes, steps) && hashes[0] == root && hashes[depth] == current
        decreases DEPTH - depth
      {
        var found := GetNodeCached(current);
        if found.None? {
          return Some(steps), hashes;
        }
        var node := found.value;
        PathGrows(nodes, key, hashes, steps, node.Leaf? && node.key == key);
        if node.Leaf? {
          return Some(steps + [PathNode(depth, node, node.key == key)]), hashes;
        }
        steps := steps + [PathNode(depth, node, false)];
        if depth + 1 >= DEPTH {
          NoneFromAbove(nodes, key, leaf, hashes, steps, depth);
          return None, hashes;
        }
        current := ChildOf(node, key[depth]);
        hashes := hashes + [current];
        depth := depth + 1;
      }
    }

    /** The nodes separating two leaves: find where the digests part, then build upward. */
    method CreateSeparating(startDepth: nat, existing: Digest, existingHash: Hash, key: Digest, leaf: Hash)
        returns (r: Option<Built>)
      ensures r == SeparateIn(startDepth, existing, existingHash, key, leaf)
    {
      var depth := startDepth;
      while depth < DEPTH && existing[depth] == key[depth]
        invariant startDepth <= depth
        invariant forall d :: startDepth <= d < depth && d < DEPTH ==> existing[d] == key[d]
        invariant SeparateIn(depth, existing, existingHash, key, leaf).None? ==>
                    SeparateIn(startDepth, existing, existingHash, key, leaf).None?
        decreases DEPTH - depth
      {
        depth := depth + 1;
      }
      if depth >= DEPTH {
        return None;
      }
      var internal := if existing[depth] then Internal(leaf, existingHash) else Internal(existingHash, leaf);
      var built := Built(HashOf(internal), map[HashOf(internal) := internal]);
      while depth > startDepth
        invariant startDepth <= depth < DEPTH
        invariant SeparateIn(depth, existing, existingHash, key, leaf) == Some(built)
      {
        depth := depth - 1;
        var parent := if key[depth] then Internal(EmptyHash, built.root) else Internal(built.root, EmptyHash);
        built := Built(HashOf(parent), built.batch[HashOf(parent) := parent]);
      }
      r := Some(built);
    }

    /** Rebuild the path from the bottom; the last update is the new root. */
    method RebuildPath(key: Digest, leaf: Hash, path: seq<PathNode>, ghost root: Hash, ghost hashes: seq<Hash>)
        returns (r: Option<Built>)
      requires Ended(nodes, key, hashes, path) && hashes[0] == root
      requires leaf.HashOf? && leaf.node.Leaf? && leaf.node.key == key
      ensures r == InsertIn(nodes, root, 0, key, leaf)
    {
      var newChild, batch: Nodes := leaf, map[];
      var i := |path|;
      while i > 0
        invariant 0 <= i <= |path|
        invariant i < |hashes| ==> InsertIn(nodes, hashes[i], i, key, leaf) == Some(Built(newChild, batch))
        invariant i == |hashes| ==> newChild == leaf && batch == map[]
      {
        i := i - 1;
        var step := path[i];
        match step.node
        case Leaf(existingKey, value) =>
          if !step.sameKey {
            var split := CreateSeparating(step.depth, existingKey, HashOf(step.node), key, newChild);
            if split.None? {
              NoneFromAbove(nodes, key, leaf, hashes, path, i);
              return None;
            }
            newChild, batch := split.value.root, split.value.batch;
          }
        case Internal(left, right) =>
          InternalStep(nodes, key, leaf, hashes, path, i, Built(newChild, batch));
          var rebuilt := if key[step.depth] then Internal(left, newChild) else Internal(newChild, right);
          batch := batch[HashOf(rebuilt) := rebuilt];
          newChild := HashOf(rebuilt);
      }
      r := Some(Built(newChild, batch));
    }

    /** Update one key. From the empty root the leaf is returned without writing the batch. */
    method UpdateForKey(root: Hash, key: Digest, value: Bytes) returns (r: Option<Hash>)
      requires Valid()
      modifies this
      ensures Valid()
      ensures (r, nodes) == Update(old(nodes), root, key, value)
    {
      var leaf := LeafHash(key, value);
      var batch: Nodes := map[leaf := Leaf(key, value)];
      if root == EmptyHash {
        return Some(leaf);
      }
      ghost var hashes;
      var path;
      path, hashes := WalkDown(root, key, leaf);
      if path.None? {
        return None;
      }
      var built := RebuildPath(key, leaf, path.value, root, hashes);
      if built.None? {
        return None;
      }
      assert nodes + (batch + built.value.batch) == nodes[leaf := Leaf(key, value)] + built.value.batch;
      nodeCache := map[];
      nodes := nodes + (batch + built.value.batch);
      r := Some(built.value.root);
    }

    /** The hashes separating two leaves, without the nodes: one loop to the parting bit, one back up. */
    method SeparateHashOnly(startDepth: nat, existing: Digest, existingHash: Hash, key: Digest, leaf: Hash)
        returns (r: Option<Hash>)
      ensures r == RootOf(SeparateIn(startDepth, existing, existingHash, key, leaf))
    {
      var depth := startDepth;
      while depth < DEPTH
        invariant startDepth <= depth
        invariant RootOf(SeparateIn(depth, existing, existingHash, key, leaf)).None? ==>
                    RootOf(SeparateIn(startDepth, existing, existingHash, key, leaf)).None?
        invariant forall d :: startDepth <= d < depth && d < DEPTH ==> existing[d] == key[d]
        decreases DEPTH - depth
      {
        if existing[depth] != key[depth] {
          var left, right := if !existing[depth] then existingHash else leaf, if !existing[depth] then leaf else existingHash;
          var current := HashOf(Internal(left, right));
          for d := depth downto startDepth
            invariant RootOf(SeparateIn(d, existing, existingHash, key, leaf)) == Some(current)
          {
            var parent := if !key[d] then Internal(current, EmptyHash) else Internal(EmptyHash, current);
            current := HashOf(parent);
          }
          return Some(current);
        }
        depth := depth + 1;
      }
      r := None;
    }

    /** The new root hash from the bottom of the path up, without the nodes. */
    method RebuildHashOnly(key: Digest, leaf: Hash, path: seq<PathNode>, ghost root: Hash, ghost hashes: seq<Hash>)
        returns (r: Option<Hash>)
      requires Ended(nodes, key, hashes, path) && hashes[0] == root
      requires leaf.HashOf? && leaf.node.Leaf? && leaf.node.key == key
      ensures r == RootOf(InsertIn(nodes, root, 0, key, leaf))
    {
      var newChild := leaf;
      for i := |path| downto 0
        invariant i < |hashes| ==> RootOf(InsertIn(nodes, hashes[i], i, key, leaf)) == Some(newChild)
        invariant i == |hashes| ==> newChild == leaf
      {
        var step := path[i];
        match step.node
        case Leaf(existingKey, value) =>
          if !step.sameKey {
            var split := SeparateHashOnly(step.depth, existingKey, HashOf(step.node), key, newChild);
            if split.None? {
              NoneFromAbove(nodes, key, leaf, hashes, path, i);
              return None;
            }
            newChild := split.value;
          }
        case Internal(left, right) =>
          assert i + 1 < |hashes|;
          InternalStep(nodes, key, leaf, hashes, path, i, InsertIn(nodes, hashes[i + 1], i + 1, key, leaf).value);
          var rebuilt := if !key[step.depth] then Internal(newChild, right) else Internal(left, newChild);
          newChild := HashOf(rebuilt);
      }
      r := Some(newChild);
    }

    /** The root-only computation: the walk, then hashes alone; nothing is written. */
    method ComputeRootOnly(root: Hash, key: Digest, value: Bytes) returns (r: Option<Hash>)
      requires Valid()
      modifies this`nodeCache
      ensures Valid()
      ensures r == Update(nodes, root, key, value).0
    {
      var leaf := LeafHash(key, value);
      if root == EmptyHash {
        return Some(leaf);
      }
      ghost var hashes;
      var path;
      path, hashes := WalkDown(root, key, leaf);
      if path.None? {
        return None;
      }
      r := RebuildHashOnly(key, leaf, path.value, root, hashes);
    }
  }

  function RootOf(built: Option<Built>): Option<Hash> {
    if built.None? then None else Some(built.value.root)
  }

  /** An internal node on the path takes the child built below it. */
  lemma {:induction false} InternalStep(nodes: Nodes, key: Digest, leaf: Hash, hashes: seq<Hash>, path: seq<PathNode>,
                                        i: nat, child: Built)
    requires Ended(nodes, key, hashes, path) && i < |path| && path[i].node.Internal?
    requires i + 1 < |hashes| ==> InsertIn(nodes, hashes[i + 1], i + 1, key, leaf) == Some(child)
    ensures i + 1 < |hashes|
    ensures InsertIn(nodes, hashes[i], i, key, leaf) ==
            Some(AddNode(child, WithChild(path[i].node, key[i], child.root)))
  {
    assert hashes[i + 1] == ChildOf(path[i].node, key[i]);
  }

  /** An error at a visited depth is an error at the root. */
  lemma {:induction false} NoneFromAbove(nodes: Nodes, key: Digest, leaf: Hash, hashes: seq<Hash>,
                                         path: seq<PathNode>, i: nat)
    requires Visited(nodes, key, hashes, path) && i < |hashes|
    requires InsertIn(nodes, hashes[i], i, key, leaf).None?
    ensures InsertIn(nodes, hashes[0], 0, key, leaf).None?
  {
    if i > 0 {
      assert path[i - 1].node.Internal?;
      NoneFromAbove(nodes, key, leaf, hashes, path, i - 1);
    }
  }
}
