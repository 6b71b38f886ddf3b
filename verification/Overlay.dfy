/**
 The production key-value adapter and its write shadow. Without a shadow, writes go to the
 shared database; an isolated copy holds a shadow that overrides it. Every operation is stated
 against one plain map, the effective map a reader sees. Keys carry no label and there is no
 fork database.
 */
module Overlay {
  import opened Basics
  import opened Encoding

  const TIP_HEIGHT_KEY: Bytes := Ascii("/__INTERNAL/tip-height")

  type Plain = map<Bytes, Bytes>

  /** A value overrides the database, None hides it. */
  type Shadow = map<Bytes, Option<Bytes>>

  datatype Change = Put(key: Bytes, value: Bytes) | Delete(key: Bytes)

  datatype Operation = One(change: Change) | Batch(changes: seq<Change>)

  function Apply(m: Plain, c: Change): Plain {
    match c
    case Put(k, v) => m[k := v]
    case Delete(k) => m - {k}
  }

  function ApplyAll(m: Plain, changes: seq<Change>): Plain {
    if changes == [] then m else Apply(ApplyAll(m, changes[..|changes| - 1]), changes[|changes| - 1])
  }

  function Shade(s: Shadow, c: Change): Shadow {
    match c
    case Put(k, v) => s[k := Some(v)]
    case Delete(k) => s[k := None]
  }

  function ShadeAll(s: Shadow, changes: seq<Change>): Shadow {
    if changes == [] then s else Shade(ShadeAll(s, changes[..|changes| - 1]), changes[|changes| - 1])
  }

  /** What a reader sees through a shadow. */
  function Overlaid(base: Plain, s: Shadow): Plain {
    map k | k in base.Keys + s.Keys && (k in s ==> s[k].Some?) :: if k in s then s[k].value else base[k]
  }

  lemma ShadeIsApply(base: Plain, s: Shadow, c: Change)
    ensures Overlaid(base, Shade(s, c)) == Apply(Overlaid(base, s), c)
  {
  }

  /** Any run of changes on the shadow reads like the same run on one plain map. */
  lemma {:induction false} ShadeAllIsApplyAll(base: Plain, s: Shadow, changes: seq<Change>)
    ensures Overlaid(base, ShadeAll(s, changes)) == ApplyAll(Overlaid(base, s), changes)
  {
    if changes != [] {
      ShadeAllIsApplyAll(base, s, changes[..|changes| - 1]);
      ShadeIsApply(base, ShadeAll(s, changes[..|changes| - 1]), changes[|changes| - 1]);
    }
  }

  // ---------------------------------------------------------------- the order a database iterates in

  /** The keys an iterator over `m` yields. */
  ghost predicate Listing(keys: seq<Bytes>, m: Plain) {
    && (forall k :: k in keys <==> k in m)
    && (forall i, j :: 0 <= i < j < |keys| ==> Before(keys[i], keys[j]))
  }

  /** Keys with a prefix are not before the prefix, and nothing lies among them. */
  lemma {:induction false} PrefixedAreTogether(p: Bytes, a: Bytes, b: Bytes)
    requires p <= b && (a == b || Before(a, b))
    ensures Before(a, p) <==> !(p <= a)
  {
    if p != [] && a != [] {
      assert p[0] == b[0];
      if a[0] == b[0] {
        assert p[1..] <= b[1..];
        assert p <= a <==> p[1..] <= a[1..] by {
          assert p == [p[0]] + p[1..] && a == [a[0]] + a[1..];
        }
        assert a == [a[0]] + a[1..] && b == [b[0]] + b[1..];
        PrefixedAreTogether(p[1..], a[1..], b[1..]);
      }
    }
  }

  lemma {:induction false} AfterPrefixed(p: Bytes, a: Bytes, c: Bytes)
    requires p <= a && Before(a, c)
    ensures !Before(c, p)
  {
    if p != [] && c[0] == a[0] {
      assert p[1..] <= a[1..];
      AfterPrefixed(p[1..], a[1..], c[1..]);
    }
  }

  /** Once the iterator has left the keys with the prefix, none follow. */
  lemma {:induction false} NoneFollow(keys: seq<Bytes>, m: Plain, prefix: Bytes, from: nat, to: nat)
    requires Listing(keys, m) && from <= to < |keys|
    requires !Before(keys[from], prefix) && (forall i :: from <= i < to ==> prefix <= keys[i]) && !(prefix <= keys[to])
    ensures forall j :: to <= j < |keys| ==> !(prefix <= keys[j])
  {
    if from < to {
      AfterPrefixed(prefix, keys[to - 1], keys[to]);
    }
    forall j | to <= j < |keys| ensures !(prefix <= keys[j]) {
      if prefix <= keys[j] {
        PrefixedAreTogether(prefix, keys[to], keys[j]);
      }
    }
  }

  // ---------------------------------------------------------------- results

  ghost predicate DistinctKeys(results: seq<(Bytes, Bytes)>) {
    forall i, j :: 0 <= i < j < |results| ==> results[i].0 != results[j].0
  }

  ghost predicate Distinct(keys: seq<Bytes>) {
    forall i, j :: 0 <= i < j < |keys| ==> keys[i] != keys[j]
  }

  /** So a list of all the keys in a set is as long as the set is large. */
  lemma {:induction false} DistinctCount(keys: seq<Bytes>, s: set<Bytes>)
    requires Distinct(keys) && forall k :: k in keys <==> k in s
    ensures |keys| == |s|
  {
    if keys != [] {
      var front, last := keys[..|keys| - 1], keys[|keys| - 1];
      assert keys == front + [last];
      assert forall i :: 0 <= i < |front| ==> front[i] == keys[i] && keys[i] != last;
      DistinctCount(front, s - {last});
    } else {
      assert s == {};
    }
  }

  /** The pairs of `m` whose keys have the prefix, each once. */
  ghost predicate Finds(results: seq<(Bytes, Bytes)>, m: Plain, prefix: Bytes) {
    && DistinctKeys(results)
    && (forall k, v :: (k, v) in results <==> k in m && m[k] == v && prefix <= k)
  }

  class Database {
    var data: Plain

    constructor (data: Plain)
      ensures this.data == data
    {
      this.data := data;
    }

    /** Seek to the prefix, then walk until a key without it; `listing` is what the iterator yields. */
    method IteratePrefix(listing: seq<Bytes>, prefix: Bytes) returns (results: seq<(Bytes, Bytes)>)
      requires Listing(listing, data)
      ensures Finds(results, data, prefix)
    {
      var i := 0;
      while i < |listing| && Before(listing[i], prefix)
        invariant 0 <= i <= |listing|
        invariant forall j :: 0 <= j < i ==> Before(listing[j], prefix)
      {
        i := i + 1;
      }
      ghost var from := i;
      forall j | 0 <= j < from ensures !(prefix <= listing[j]) {
        if prefix <= listing[j] {
          PrefixedAreTogether(prefix, listing[j], listing[j]);
        }
      }
      results := [];
      while i < |listing| && prefix <= listing[i]
        invariant from <= i <= |listing|
        invariant forall j :: from <= j < i ==> prefix <= listing[j]
        invariant |results| == i - from
        invariant forall j :: from <= j < i ==> results[j - from] == (listing[j], data[listing[j]])
      {
        results := results + [(listing[i], data[listing[i]])];
        i := i + 1;
      }
      if i < |listing| {
        NoneFollow(listing, data, prefix, from, i);
      }
      FoundAll(listing, data, prefix, results, from, i);
    }
  }

  lemma {:induction false} FoundAll(listing: seq<Bytes>, m: Plain, prefix: Bytes, results: seq<(Bytes, Bytes)>,
                                    from: nat, to: nat)
    requires Listing(listing, m) && from <= to <= |listing| && |results| == to - from
    requires forall j :: 0 <= j < |listing| ==> (prefix <= listing[j] <==> from <= j < to)
    requires forall j :: 0 <= j < |results| ==> results[j] == (listing[from + j], m[listing[from + j]])
    ensures Finds(results, m, prefix)
  {
    forall i, j | 0 <= i < j < |results| ensures results[i].0 != results[j].0 {
      NotBeforeItself(listing[from + i]);
      assert Before(listing[from + i], listing[from + j]);
    }
    forall k, v | k in m && m[k] == v && prefix <= k ensures (k, v) in results {
      var j :| 0 <= j < |listing| && listing[j] == k;
      assert results[j - from] == (k, v);
    }
  }

  /** The pairs whose keys the shadow does not hold. */
  ghost predicate Unshadowed(kept: seq<(Bytes, Bytes)>, results: seq<(Bytes, Bytes)>, s: Shadow) {
    && DistinctKeys(kept)
    && (forall k, v :: (k, v) in kept <==> (k, v) in results && k !in s)
  }

  method DropShadowed(results: seq<(Bytes, Bytes)>, s: Shadow) returns (kept: seq<(Bytes, Bytes)>)
    requires DistinctKeys(results)
    ensures Unshadowed(kept, results, s)
  {
    kept := [];
    for i := 0 to |results|
      invariant Unshadowed(kept, results[..i], s)
    {
      assert results[..i + 1] == results[..i] + [results[i]];
      if results[i].0 !in s {
        forall j | 0 <= j < |kept| ensures kept[j].0 != results[i].0 {
          assert (kept[j].0, kept[j].1) in results[..i];
        }
        kept := kept + [results[i]];
      }
    }
    assert results[..|results|] == results;
  }

  /** `kept` from the database, and the shadow's values under the prefix except for the keys still to do. */
  ghost predicate Merged(results: seq<(Bytes, Bytes)>, kept: seq<(Bytes, Bytes)>, s: Shadow,
                         prefix: Bytes, todo: set<Bytes>)
  {
    && DistinctKeys(results)
    && (forall k, v :: (k, v) in results <==>
          (k, v) in kept || (k in s && k !in todo && s[k] == Some(v) && prefix <= k))
  }

  method AddOverrides(kept: seq<(Bytes, Bytes)>, s: Shadow, prefix: Bytes) returns (results: seq<(Bytes, Bytes)>)
    requires DistinctKeys(kept) && forall k, v :: (k, v) in kept ==> k !in s
    ensures Merged(results, kept, s, prefix, {})
  {
    results := kept;
    var todo := s.Keys;
    while todo != {}
      invariant todo <= s.Keys
      invariant Merged(results, kept, s, prefix, todo)
      decreases |todo|
    {
      var k :| k in todo;
      todo := todo - {k};
      if prefix <= k && s[k].Some? {
        forall j | 0 <= j < |results| ensures results[j].0 != k {
          assert (results[j].0, results[j].1) in results;
        }
        results := results + [(k, s[k].value)];
      }
    }
  }

  class Adapter {
    const db: Database
    var height: nat
    var shadow: Option<Shadow>

    ghost function Effective(): Plain
      reads this, db
    {
      if shadow.Some? then Overlaid(db.data, shadow.value) else db.data
    }

    constructor (db: Database)
      ensures this.db == db && height == 0 && shadow == None
    {
      this.db, height, shadow := db, 0, None;
    }

    constructor Shadowed(db: Database, height: nat)
      ensures this.db == db && this.height == height && shadow == Some(map[])
    {
      this.db, this.height, shadow := db, height, Some(map[]);
    }

    method Get(key: Bytes) returns (value: Option<Bytes>)
      ensures value == if key in Effective() then Some(Effective()[key]) else None
    {
      if shadow.Some? && key in shadow.value {
        return shadow.value[key];
      }
      value := if key in db.data then Some(db.data[key]) else None;
    }

    method PutKey(key: Bytes, value: Bytes)
      modifies this`shadow, db
      ensures Effective() == Apply(old(Effective()), Put(key, value))
      ensures shadow.Some? == old(shadow).Some? && (shadow.Some? ==> db.data == old(db.data))
    {
      if shadow.Some? {
        ShadeIsApply(db.data, shadow.value, Put(key, value));
        shadow := Some(shadow.value[key := Some(value)]);
      } else {
        db.data := db.data[key := value];
      }
    }

    method DeleteKey(key: Bytes)
      modifies this`shadow, db
      ensures Effective() == Apply(old(Effective()), Delete(key))
      ensures shadow.Some? == old(shadow).Some? && (shadow.Some? ==> db.data == old(db.data))
    {
      if shadow.Some? {
        ShadeIsApply(db.data, shadow.value, Delete(key));
        shadow := Some(shadow.value[key := None]);
      } else {
        db.data := db.data - {key};
      }
    }

    /** On a shadow the batch alone; on the database the batch behind a write of the next height, at once. */
    method WriteBatch(changes: seq<Change>)
      modifies this`shadow, db
      ensures Effective() ==
              ApplyAll(old(Effective()), (if old(shadow).Some? then [] else [TipWrite(old(height))]) + changes)
      ensures shadow.Some? == old(shadow).Some? && (shadow.Some? ==> db.data == old(db.data))
    {
      if shadow.Some? {
        ShadeAllIsApplyAll(db.data, shadow.value, changes);
        assert [] + changes == changes;
        for i := 0 to |changes|
          invariant db.data == old(db.data) && shadow == Some(ShadeAll(old(shadow).value, changes[..i]))
        {
          assert changes[..i + 1][..i] == changes[..i];
          match changes[i]
          case Put(k, v) => shadow := Some(shadow.value[k := Some(v)]);
          case Delete(k) => shadow := Some(shadow.value[k := None]);
        }
        assert changes[..|changes|] == changes;
      } else {
        var batch := [TipWrite(height)];
        for i := 0 to |changes|
          invariant batch == [TipWrite(height)] + changes[..i]
          invariant db.data == old(db.data) && shadow == old(shadow)
        {
          batch := batch + [changes[i]];
        }
        assert batch == [TipWrite(height)] + changes;
        db.data := ApplyAll(db.data, batch);
      }
    }

    method ScanPrefix(listing: seq<Bytes>, prefix: Bytes) returns (results: seq<(Bytes, Bytes)>)
      requires Listing(listing, db.data)
      ensures Finds(results, Effective(), prefix)
    {
      results := db.IteratePrefix(listing, prefix);
      if shadow.Some? {
        results := DropShadowed(results, shadow.value);
        results := AddOverrides(results, shadow.value, prefix);
      }
    }

    method KeyList(listing: seq<Bytes>) returns (keys: seq<Bytes>)
      requires Listing(listing, db.data)
      ensures Distinct(keys) && forall k :: k in keys <==> k in Effective()
    {
      keys := [];
      for i := 0 to |listing|
        invariant Distinct(keys)
        invariant forall k :: k in keys <==> k in listing[..i] && (shadow.Some? ==> k !in shadow.value)
      {
        assert listing[..i + 1] == listing[..i] + [listing[i]];
        forall j | 0 <= j < i ensures listing[j] != listing[i] {
          NotBeforeItself(listing[i]);
          assert Before(listing[j], listing[i]);
        }
        assert listing[i] !in listing[..i];
        assert listing[i] !in keys;
        if shadow.None? || listing[i] !in shadow.value {
          keys := keys + [listing[i]];
        }
      }
      assert listing[..|listing|] == listing;
      if shadow.Some? {
        var todo := shadow.value.Keys;
        while todo != {}
          invariant todo <= shadow.value.Keys && Distinct(keys)
          invariant forall k :: k in keys <==>
              (k in db.data && k !in shadow.value) || (k in shadow.value && k !in todo && shadow.value[k].Some?)
          decreases |todo|
        {
          var k :| k in todo;
          todo := todo - {k};
          if shadow.value[k].Some? {
            keys := keys + [k];
          }
        }
      }
    }

    /** A copy reads the shared database through an empty shadow of its own. */
    method CreateIsolatedCopy() returns (copy: Adapter)
      ensures fresh(copy) && copy.db == db && copy.height == height && copy.shadow == Some(map[])
      ensures copy.Effective() == db.data
    {
      copy := new Adapter.Shadowed(db, height);
    }
  }

  function TipWrite(height: nat): Change {
    Put(TIP_HEIGHT_KEY, Le32(height + 1))
  }

  predicate Touches(changes: seq<Change>, key: Bytes) {
    exists i :: 0 <= i < |changes| && changes[i].key == key
  }

  lemma {:induction false} UntouchedStays(m: Plain, changes: seq<Change>, key: Bytes)
    requires !Touches(changes, key)
    ensures key in ApplyAll(m, changes) <==> key in m
    ensures key in m ==> ApplyAll(m, changes)[key] == m[key]
  {
    if changes != [] {
      assert forall i :: 0 <= i < |changes| ==> changes[i].key != key;
      UntouchedStays(m, changes[..|changes| - 1], key);
    }
  }

  lemma {:induction false} BatchAppend(m: Plain, first: Change, changes: seq<Change>)
    ensures ApplyAll(m, [first] + changes) == ApplyAll(Apply(m, first), changes)
  {
    if changes == [] {
      assert [first] + changes == [first] && [first][..0] == [];
    } else {
      assert ([first] + changes)[..|changes|] == [first] + changes[..|changes| - 1];
      BatchAppend(m, first, changes[..|changes| - 1]);
    }
  }

  /** After a production batch that leaves it alone, the tip key reads the adapter's height plus one. */
  lemma {:induction false} BatchMovesTip(m: Plain, height: nat, changes: seq<Change>)
    requires height + 1 < U32_LIMIT && !Touches(changes, Ascii("/__INTERNAL/tip-height"))
    ensures var after, key := ApplyAll(m, [TipWrite(height)] + changes), Ascii("/__INTERNAL/tip-height");
            key in after && |after[key]| == 4 && FromLe32(after[key]) == height + 1
  {
    BatchAppend(m, TipWrite(height), changes);
    UntouchedStays(Apply(m, TipWrite(height)), changes, TIP_HEIGHT_KEY);
    Le32RoundTrip(height + 1);
  }

  function ApplyOps(m: Plain, ops: seq<Operation>): Plain {
    if ops == [] then m
    else
      var before := ApplyOps(m, ops[..|ops| - 1]);
      match ops[|ops| - 1]
      case One(c) => Apply(before, c)
      case Batch(changes) => ApplyAll(before, changes)
  }

  /** Any run of operations on an isolated copy reads like that run on a plain map, and production sees none of it. */
  method RunIsolated(production: Adapter, ops: seq<Operation>) returns (copy: Adapter)
    requires production.shadow.None?
    modifies production.db
    ensures copy.Effective() == ApplyOps(old(production.Effective()), ops)
    ensures production.Effective() == old(production.Effective())
  {
    copy := production.CreateIsolatedCopy();
    for i := 0 to |ops|
      invariant fresh(copy) && copy.db == production.db && copy.shadow.Some?
      invariant production.db.data == old(production.db.data) && production.shadow == old(production.shadow)
      invariant copy.Effective() == ApplyOps(old(production.Effective()), ops[..i])
    {
      assert ops[..i + 1][..i] == ops[..i];
      match ops[i]
      case One(Put(k, v)) => copy.PutKey(k, v);
      case One(Delete(k)) => copy.DeleteKey(k);
      case Batch(changes) =>
        assert [] + changes == changes;
        copy.WriteBatch(changes);
    }
    assert ops[..|ops|] == ops;
  }
}
