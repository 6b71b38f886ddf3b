/**
 Nested checkpoints over the guest's store: a stack of maps in which a set writes the top layer
 and a get searches from the top down. The stack is proved to behave like a stack of full
 snapshots, in which a checkpoint copies everything and a rollback drops the copy.
 */
module Checkpoints {
  import opened Basics

  type Layer = map<Bytes, Bytes>

  /** What a get sees through the layers above the store. */
  function Flat(store: Layer, layers: seq<Layer>): Layer {
    if layers == [] then store else Flat(store, layers[..|layers| - 1]) + layers[|layers| - 1]
  }

  function ValueIn(m: Layer, key: Bytes): Bytes {
    if key in m then m[key] else []
  }

  lemma {:induction false} FlatUnder(store: Layer, layers: seq<Layer>, i: nat, key: Bytes)
    requires i <= |layers| && forall j :: i <= j < |layers| ==> key !in layers[j]
    ensures key in Flat(store, layers) <==> key in Flat(store, layers[..i])
    ensures key in Flat(store, layers) ==> Flat(store, layers)[key] == Flat(store, layers[..i])[key]
  {
    if i < |layers| {
      FlatUnder(store, layers[..|layers| - 1], i, key);
      assert layers[..|layers| - 1][..i] == layers[..i];
    } else {
      assert layers[..i] == layers;
    }
  }

  lemma FlatOnTop(store: Layer, layers: seq<Layer>, top: Layer)
    ensures Flat(store, layers + [top]) == Flat(store, layers) + top
  {
    assert (layers + [top])[..|layers|] == layers;
  }

  class Stack {
    var layers: seq<Layer>
    var store: Layer

    constructor (store: Layer)
      ensures layers == [map[]] && this.store == store
    {
      layers, this.store := [map[]], store;
    }

    method Set(key: Bytes, value: Bytes)
      requires layers != []
      modifies this`layers
      ensures layers == SetTop(old(layers), key, value)
    {
      var n := |layers| - 1;
      layers := layers[n := layers[n][key := value]];
    }

    /** Searches the layers from the top, then the store; a key found nowhere reads as no bytes. */
    method Get(key: Bytes) returns (value: Bytes)
      ensures value == ValueIn(Flat(store, layers), key)
    {
      var i := |layers|;
      while i > 0
        invariant 0 <= i <= |layers|
        invariant forall j :: i <= j < |layers| ==> key !in layers[j]
      {
        FlatUnder(store, layers, i, key);
        FlatOnTop(store, layers[..i - 1], layers[i - 1]);
        assert layers[..i - 1] + [layers[i - 1]] == layers[..i];
        if key in layers[i - 1] {
          return layers[i - 1][key];
        }
        i := i - 1;
      }
      FlatUnder(store, layers, 0, key);
      value := if key in store then store[key] else [];
    }

    method Checkpoint()
      modifies this`layers
      ensures layers == old(layers) + [map[]]
    {
      layers := layers + [map[]];
    }

    /** Merges the top layer into the one below; the last layer is written to the store and kept. */
    method Commit()
      requires layers != []
      modifies this
      ensures layers == Merged(old(layers))
      ensures store == if |old(layers)| > 1 then old(store) else old(store) + old(layers)[0]
    {
      var n := |layers|;
      if n > 1 {
        var target := PipeTo(layers[n - 1], layers[n - 2]);
        layers := layers[..n - 2] + [target];
      } else {
        store := PipeTo(layers[0], store);
      }
    }

    method Rollback()
      modifies this`layers
      ensures layers == if old(layers) == [] then [] else old(layers)[..|old(layers)| - 1]
    {
      if layers != [] {
        layers := layers[..|layers| - 1];
      }
    }
  }

  method PipeTo(layer: Layer, target: Layer) returns (merged: Layer)
    ensures merged == target + layer
  {
    merged := target;
    var todo := layer.Keys;
    while todo != {}
      invariant todo <= layer.Keys
      invariant merged.Keys == target.Keys + (layer.Keys - todo)
      invariant forall k :: k in merged ==> merged[k] == if k in layer && k !in todo then layer[k] else target[k]
      decreases |todo|
    {
      var k :| k in todo;
      merged := merged[k := layer[k]];
      todo := todo - {k};
    }
  }

  // ---------------------------------------------------------------- runs

  datatype Op = Put(key: Bytes, value: Bytes) | Open | Close | Undo

  datatype State = State(layers: seq<Layer>, store: Layer)

  function SetTop(layers: seq<Layer>, key: Bytes, value: Bytes): seq<Layer>
    requires layers != []
  {
    layers[..|layers| - 1] + [layers[|layers| - 1][key := value]]
  }

  function Merged(layers: seq<Layer>): seq<Layer>
    requires layers != []
  {
    if |layers| == 1 then layers
    else layers[..|layers| - 2] + [layers[|layers| - 2] + layers[|layers| - 1]]
  }

  /** One operation; none of them is defined on a stack without layers. */
  function Next(s: State, op: Op): State
    requires s.layers != []
  {
    match op
    case Put(k, v) => s.(layers := SetTop(s.layers, k, v))
    case Open => s.(layers := s.layers + [map[]])
    case Close => State(Merged(s.layers), if |s.layers| > 1 then s.store else s.store + s.layers[0])
    case Undo => s.(layers := s.layers[..|s.layers| - 1])
  }

  /** The number of layers after a run, if no operation meets an empty stack. */
  function DepthAfter(depth: nat, ops: seq<Op>): nat {
    if ops == [] then depth
    else
      var d := DepthAfter(depth, ops[..|ops| - 1]);
      match ops[|ops| - 1]
      case Put(_, _) => d
      case Open => d + 1
      case Close => if d > 1 then d - 1 else d
      case Undo => SaturatingSub(d, 1)
  }

  /** Every operation of the run, and its end, finds more than `floor` layers. */
  predicate StaysAbove(floor: nat, depth: nat, ops: seq<Op>) {
    forall i :: 0 <= i <= |ops| ==> DepthAfter(depth, ops[..i]) > floor
  }

  lemma {:induction false} StaysAboveFront(floor: nat, depth: nat, ops: seq<Op>)
    requires StaysAbove(floor, depth, ops) && ops != []
    ensures StaysAbove(floor, depth, ops[..|ops| - 1])
    ensures DepthAfter(depth, ops) > floor
  {
    var front := ops[..|ops| - 1];
    forall i | 0 <= i <= |front| ensures DepthAfter(depth, front[..i]) > floor {
      assert front[..i] == ops[..i];
    }
    assert ops[..|ops|] == ops;
  }

  lemma {:induction false} StaysAbovePrefix(floor: nat, depth: nat, ops: seq<Op>, n: nat)
    requires StaysAbove(floor, depth, ops) && n <= |ops|
    ensures StaysAbove(floor, depth, ops[..n])
  {
    if n < |ops| {
      StaysAboveFront(floor, depth, ops);
      StaysAbovePrefix(floor, depth, ops[..|ops| - 1], n);
      assert ops[..|ops| - 1][..n] == ops[..n];
    } else {
      assert ops[..n] == ops;
    }
  }

  /** However often it is committed, a stack with a layer keeps one. */
  lemma {:induction false} CommitsKeepALayer(depth: nat, ops: seq<Op>)
    requires depth > 0 && forall i :: 0 <= i < |ops| ==> ops[i].Close?
    ensures StaysAbove(0, depth, ops)
  {
    if ops != [] {
      var front := ops[..|ops| - 1];
      CommitsKeepALayer(depth, front);
      forall i | 0 <= i <= |ops| ensures DepthAfter(depth, ops[..i]) > 0 {
        assert i <= |front| ==> ops[..i] == front[..i];
        assert front[..|front|] == front && ops[..|ops|] == ops;
      }
    }
  }

  ghost function Run(s: State, ops: seq<Op>): (t: State)
    requires StaysAbove(0, |s.layers|, ops)
    ensures |t.layers| == DepthAfter(|s.layers|, ops)
  {
    assert ops[..0] == [];
    if ops == [] then s
    else
      StaysAboveFront(0, |s.layers|, ops);
      assert ops[..|ops| - 1][..|ops| - 1] == ops[..|ops| - 1];
      Next(Run(s, ops[..|ops| - 1]), ops[|ops| - 1])
  }

  // ---------------------------------------------------------------- the snapshot stack

  /** The same operation on a stack of full copies. */
  function NextSnapshot(snaps: seq<Layer>, op: Op): seq<Layer>
    requires snaps != []
  {
    var n := |snaps|;
    match op
    case Put(k, v) => snaps[n - 1 := snaps[n - 1][k := v]]
    case Open => snaps + [snaps[n - 1]]
    case Close => if n > 1 then snaps[..n - 2] + [snaps[n - 1]] else snaps
    case Undo => snaps[..n - 1]
  }

  /** The map a get would see at each depth of the stack. */
  function Snapshots(store: Layer, layers: seq<Layer>): (snaps: seq<Layer>)
    ensures |snaps| == |layers|
    ensures layers != [] ==> snaps[|snaps| - 1] == Flat(store, layers)
  {
    if layers == [] then [] else Snapshots(store, layers[..|layers| - 1]) + [Flat(store, layers)]
  }

  lemma SnapshotOnTop(store: Layer, layers: seq<Layer>, top: Layer)
    ensures Snapshots(store, layers + [top]) == Snapshots(store, layers) + [Flat(store, layers) + top]
  {
    FlatOnTop(store, layers, top);
    assert (layers + [top])[..|layers|] == layers;
  }

  lemma {:induction false} PutRefines(store: Layer, front: seq<Layer>, top: Layer, key: Bytes, value: Bytes)
    ensures Snapshots(store, SetTop(front + [top], key, value)) ==
            NextSnapshot(Snapshots(store, front + [top]), Put(key, value))
  {
    var below, m := Snapshots(store, front), Flat(store, front);
    SnapshotOnTop(store, front, top);
    SnapshotOnTop(store, front, top[key := value]);
    assert SetTop(front + [top], key, value) == front + [top[key := value]];
    assert m + top[key := value] == (m + top)[key := value];
    assert NextSnapshot(below + [m + top], Put(key, value)) == below + [(m + top)[key := value]];
  }

  lemma MergesAssociate(m: Layer, a: Layer, b: Layer)
    ensures m + a + b == m + (a + b)
  {
  }

  lemma {:induction false} TopTwoSnapshots(store: Layer, low: seq<Layer>, a: Layer, b: Layer)
    ensures Snapshots(store, low + [a] + [b]) ==
            Snapshots(store, low) + [Flat(store, low) + a] + [Flat(store, low) + (a + b)]
  {
    SnapshotOnTop(store, low + [a], b);
    SnapshotOnTop(store, low, a);
    FlatOnTop(store, low, a);
    MergesAssociate(Flat(store, low), a, b);
  }

  lemma {:induction false} CloseRefines(store: Layer, low: seq<Layer>, a: Layer, b: Layer)
    ensures Snapshots(store, Merged(low + [a] + [b])) == NextSnapshot(Snapshots(store, low + [a] + [b]), Close)
  {
    TopTwoSnapshots(store, low, a, b);
    SnapshotOnTop(store, low, a + b);
    assert Merged(low + [a] + [b]) == low + [a + b];
  }

  lemma {:induction false} BaseCloseRefines(store: Layer, layer: Layer)
    ensures Snapshots(store + layer, [layer]) == Snapshots(store, [layer])
  {
    assert [] + [layer] == [layer];
    SnapshotOnTop(store, [], layer);
    SnapshotOnTop(store + layer, [], layer);
    assert store + layer + layer == store + layer;
  }

  /** Each operation on layers is the operation on snapshots. */
  lemma {:induction false} StepRefines(s: State, op: Op)
    requires s.layers != []
    ensures Snapshots(Next(s, op).store, Next(s, op).layers) == NextSnapshot(Snapshots(s.store, s.layers), op)
  {
    match op
    case Put(k, v) =>
      assert s.layers == s.layers[..|s.layers| - 1] + [s.layers[|s.layers| - 1]];
      PutRefines(s.store, s.layers[..|s.layers| - 1], s.layers[|s.layers| - 1], k, v);
    case Open =>
      SnapshotOnTop(s.store, s.layers, map[]);
      assert Flat(s.store, s.layers) + map[] == Flat(s.store, s.layers);
    case Close =>
      if |s.layers| > 1 {
        var n := |s.layers|;
        assert s.layers == s.layers[..n - 2] + [s.layers[n - 2]] + [s.layers[n - 1]];
        CloseRefines(s.store, s.layers[..n - 2], s.layers[n - 2], s.layers[n - 1]);
      } else {
        assert s.layers == [s.layers[0]];
        BaseCloseRefines(s.store, s.layers[0]);
      }
    case Undo =>
  }

  ghost function RunSnapshots(snaps: seq<Layer>, ops: seq<Op>): (t: seq<Layer>)
    requires StaysAbove(0, |snaps|, ops)
    ensures |t| == DepthAfter(|snaps|, ops)
  {
    assert ops[..0] == [];
    if ops == [] then snaps
    else
      StaysAboveFront(0, |snaps|, ops);
      assert ops[..|ops| - 1][..|ops| - 1] == ops[..|ops| - 1];
      NextSnapshot(RunSnapshots(snaps, ops[..|ops| - 1]), ops[|ops| - 1])
  }

  /** Over any run that never rolls back the last layer, the layers answer as the snapshots do. */
  lemma {:induction false} RunRefines(s: State, ops: seq<Op>)
    requires StaysAbove(0, |s.layers|, ops)
    ensures Snapshots(Run(s, ops).store, Run(s, ops).layers) == RunSnapshots(Snapshots(s.store, s.layers), ops)
  {
    if ops != [] {
      StaysAboveFront(0, |s.layers|, ops);
      RunRefines(s, ops[..|ops| - 1]);
      StepRefines(Run(s, ops[..|ops| - 1]), ops[|ops| - 1]);
    }
  }

  /** A commit changes no answer. */
  lemma {:induction false} CommitKeepsAnswers(s: State)
    requires s.layers != []
    ensures Flat(Next(s, Close).store, Next(s, Close).layers) == Flat(s.store, s.layers)
  {
    StepRefines(s, Close);
  }

  /** Operations that stay above a depth leave the layers below it, and the store, alone. */
  lemma {:induction false} LowerLayersKept(s: State, ops: seq<Op>, floor: nat)
    requires 0 < floor <= |s.layers| && StaysAbove(floor, |s.layers|, ops) && StaysAbove(0, |s.layers|, ops)
    ensures Run(s, ops).store == s.store
    ensures |Run(s, ops).layers| > floor && Run(s, ops).layers[..floor] == s.layers[..floor]
  {
    assert ops[..|ops|] == ops;
    if ops != [] {
      StaysAboveFront(floor, |s.layers|, ops);
      StaysAboveFront(0, |s.layers|, ops);
      LowerLayersKept(s, ops[..|ops| - 1], floor);
    }
  }

  /** A rollback restores the whole state before the matching checkpoint, so every answer given then. */
  lemma {:induction false} RollbackRestores(s: State, ops: seq<Op>)
    requires s.layers != [] && StaysAbove(|s.layers|, |s.layers| + 1, ops) && StaysAbove(0, |s.layers| + 1, ops)
    requires DepthAfter(|s.layers| + 1, ops) == |s.layers| + 1
    ensures Next(Run(Next(s, Open), ops), Undo) == s
  {
    LowerLayersKept(Next(s, Open), ops, |s.layers|);
  }

  /** A run of calls on a stack whose layers never run out is that run on its layers and store. */
  method RunOn(stack: Stack, ops: seq<Op>)
    requires StaysAbove(0, |stack.layers|, ops)
    modifies stack
    ensures State(stack.layers, stack.store) == Run(State(old(stack.layers), old(stack.store)), ops)
  {
    ghost var start := State(stack.layers, stack.store);
    assert ops[..0] == [];
    for i := 0 to |ops|
      invariant StaysAbove(0, |start.layers|, ops[..i])
      invariant State(stack.layers, stack.store) == Run(start, ops[..i])
    {
      assert DepthAfter(|start.layers|, ops[..i]) > 0;
      StaysAbovePrefix(0, |start.layers|, ops, i + 1);
      assert ops[..i + 1][..i] == ops[..i];
      match ops[i]
      case Put(k, v) => stack.Set(k, v);
      case Open => stack.Checkpoint();
      case Close => stack.Commit();
      case Undo => stack.Rollback();
    }
    assert ops[..|ops|] == ops;
  }
}
