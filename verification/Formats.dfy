/**
 The bytes behind module Physical: storage keys, version entries and per-height manifests.
 Keys are text with '/' separators around arbitrary user bytes, so that distinct keys stay
 distinct is a theorem with one exception.
 */
module Formats {
  import opened Basics
  import opened Versions
  import opened Physical
  import opened Encoding
  import Rollback

  // ---------------------------------------------------------------- storage keys

  const SLASH: Byte := 47
  const LENGTH_WORD: Bytes := Ascii("length")
  const ROOT_PREFIX: Bytes := Ascii("smt:root:")
  const BLOCK_HASH_PREFIX: Bytes := Ascii("block_hash_")
  const STATE_ROOT_PREFIX: Bytes := Ascii("state_root_")
  const MANIFESTS: Bytes := Ascii("/__INTERNAL/keys-at-height")
  const HASHES: Bytes := Ascii("/__INTERNAL/height-to-hash")
  const INTERNAL: Bytes := Ascii("/__INTERNAL")
  const TIP_WORD: Bytes := Ascii("tip-height")
  const BARE_INTERNAL: Bytes := Ascii("__INTERNAL")
  const HEIGHT_WORD: Bytes := Ascii("height")

  /** The storage key as bytes. */
  function Render(pk: PhysKey): Bytes {
    match pk
    case LengthOf(k) => k + [SLASH] + LENGTH_WORD
    case Slot(k, i) => k + [SLASH] + Decimal(i)
    case Root(h) => ROOT_PREFIX + Decimal(h)
    case ManifestAt(h) => MANIFESTS + [SLASH] + Decimal(h)
    case HashAt(h) => HASHES + [SLASH] + Decimal(h)
    case BlockHashAt(h) => BLOCK_HASH_PREFIX + Decimal(h)
    case StateRootAt(h) => STATE_ROOT_PREFIX + Decimal(h)
    case RuntimeTip => INTERNAL + [SLASH] + TIP_WORD
    case IndexedHeight => BARE_INTERNAL + [SLASH] + HEIGHT_WORD
  }

  lemma {:induction false} UserKeyText(k: Key, i: nat)
    ensures Render(LengthOf(k)) == k + Ascii("/length") && Render(Slot(k, i)) == k + Ascii("/") + Decimal(i)
  {
    assert Ascii("/") == [SLASH] && [SLASH] + LENGTH_WORD == Ascii("/length");
  }

  lemma {:induction false} RecordText(h: nat)
    ensures Render(ManifestAt(h)) == Ascii("/__INTERNAL/keys-at-height/") + Decimal(h)
    ensures Render(HashAt(h)) == Ascii("/__INTERNAL/height-to-hash/") + Decimal(h)
  {
    assert MANIFESTS + [SLASH] == Ascii("/__INTERNAL/keys-at-height/");
    assert HASHES + [SLASH] == Ascii("/__INTERNAL/height-to-hash/");
  }

  lemma {:induction false} PointerText()
    ensures Render(RuntimeTip) == Ascii("/__INTERNAL/tip-height") && Render(IndexedHeight) == Ascii("__INTERNAL/height")
  {
    assert INTERNAL + [SLASH] + TIP_WORD == Ascii("/__INTERNAL/tip-height");
    assert BARE_INTERNAL + [SLASH] + HEIGHT_WORD == Ascii("__INTERNAL/height");
  }

  lemma {:induction false} MetadataText(h: nat)
    ensures Render(Root(h)) == Ascii("smt:root:") + Decimal(h)
    ensures Render(BlockHashAt(h)) == Ascii("block_hash_") + Decimal(h)
    ensures Render(StateRootAt(h)) == Ascii("state_root_") + Decimal(h)
  {
  }

  /** What stands before and after the last slash of a rendered key, if it has a slash. */
  datatype Parts = Parts(dir: Bytes, word: Bytes) | NoSlash(word: Bytes)

  function PartsOf(pk: PhysKey): Parts {
    match pk
    case LengthOf(k) => Parts(k, LENGTH_WORD)
    case Slot(k, i) => Parts(k, Decimal(i))
    case Root(h) => NoSlash(ROOT_PREFIX + Decimal(h))
    case ManifestAt(h) => Parts(MANIFESTS, Decimal(h))
    case HashAt(h) => Parts(HASHES, Decimal(h))
    case BlockHashAt(h) => NoSlash(BLOCK_HASH_PREFIX + Decimal(h))
    case StateRootAt(h) => NoSlash(STATE_ROOT_PREFIX + Decimal(h))
    case RuntimeTip => Parts(INTERNAL, TIP_WORD)
    case IndexedHeight => Parts(BARE_INTERNAL, HEIGHT_WORD)
  }

  function Join(p: Parts): Bytes {
    match p
    case Parts(dir, word) => dir + [SLASH] + word
    case NoSlash(word) => word
  }

  lemma WordsHaveNoSlash(pk: PhysKey)
    ensures SLASH !in PartsOf(pk).word
    ensures Render(pk) == Join(PartsOf(pk))
  {
    assert forall i :: 0 <= i < 6 ==> LENGTH_WORD[i] != SLASH;
    assert forall i :: 0 <= i < |TIP_WORD| ==> TIP_WORD[i] != SLASH;
    assert forall i :: 0 <= i < |HEIGHT_WORD| ==> HEIGHT_WORD[i] != SLASH;
    assert forall i :: 0 <= i < |ROOT_PREFIX| ==> ROOT_PREFIX[i] != SLASH;
    assert forall i :: 0 <= i < |BLOCK_HASH_PREFIX| ==> BLOCK_HASH_PREFIX[i] != SLASH;
    assert forall i :: 0 <= i < |STATE_ROOT_PREFIX| ==> STATE_ROOT_PREFIX[i] != SLASH;
  }

  /** Cuts a key at its last slash. */
  function Split(s: Bytes): Parts {
    if s == [] then NoSlash([])
    else if s[|s| - 1] == SLASH then Parts(s[..|s| - 1], [])
    else Split(s[..|s| - 1]).(word := Split(s[..|s| - 1]).word + [s[|s| - 1]])
  }

  lemma {:induction false} SplitOneMore(s: Bytes, last: Byte)
    requires last != SLASH
    ensures Split(s + [last]) == Split(s).(word := Split(s).word + [last])
  {
    assert (s + [last])[..|s|] == s;
  }

  lemma {:induction false} JoinOneMore(p: Parts, last: Byte)
    ensures Join(p.(word := p.word + [last])) == Join(p) + [last]
  {
  }

  lemma {:induction false} SplitJoin(p: Parts)
    requires SLASH !in p.word
    ensures Split(Join(p)) == p
    decreases |p.word|
  {
    if p.word != [] {
      var last := p.word[|p.word| - 1];
      var shorter := p.(word := p.word[..|p.word| - 1]);
      SplitJoin(shorter);
      JoinOneMore(shorter, last);
      SplitOneMore(Join(shorter), last);
      assert shorter.word + [last] == p.word;
    } else if p.Parts? {
      assert Join(p)[..|Join(p)| - 1] == p.dir;
    }
  }

  lemma {:induction false} DecimalInjective(m: nat, n: nat)
    ensures Decimal(m) == Decimal(n) <==> m == n
  {
    DecimalValue(m);
    DecimalValue(n);
  }

  lemma PrefixedDecimals(m: nat, n: nat)
    ensures forall p: Bytes :: p + Decimal(m) == p + Decimal(n) <==> m == n
    ensures ROOT_PREFIX + Decimal(m) != BLOCK_HASH_PREFIX + Decimal(n)
    ensures ROOT_PREFIX + Decimal(m) != STATE_ROOT_PREFIX + Decimal(n)
    ensures BLOCK_HASH_PREFIX + Decimal(m) != STATE_ROOT_PREFIX + Decimal(n)
  {
    forall p: Bytes ensures p + Decimal(m) == p + Decimal(n) <==> m == n {
      assert (p + Decimal(m))[|p|..] == Decimal(m) && (p + Decimal(n))[|p|..] == Decimal(n);
      DecimalInjective(m, n);
    }
    assert (ROOT_PREFIX + Decimal(m))[1] == ROOT_PREFIX[1];
    assert (BLOCK_HASH_PREFIX + Decimal(n))[1] == BLOCK_HASH_PREFIX[1];
    assert (STATE_ROOT_PREFIX + Decimal(n))[1] == STATE_ROOT_PREFIX[1];
    assert (BLOCK_HASH_PREFIX + Decimal(m))[1] == BLOCK_HASH_PREFIX[1];
  }

  lemma WordsDiffer(n: nat)
    ensures Decimal(n) != LENGTH_WORD && Decimal(n) != TIP_WORD && Decimal(n) != HEIGHT_WORD
    ensures LENGTH_WORD != TIP_WORD && LENGTH_WORD != HEIGHT_WORD && TIP_WORD != HEIGHT_WORD
    ensures MANIFESTS != HASHES
  {
    assert IsDigit(Decimal(n)[0]);
    assert LENGTH_WORD[0] == 108 && TIP_WORD[0] == 116 && HEIGHT_WORD[0] == 104;
    assert MANIFESTS[12] == 107 && HASHES[12] == 104;
  }

  function NumberIn(pk: PhysKey): nat {
    match pk
    case LengthOf(_) => 0
    case Slot(_, i) => i
    case Root(h) => h
    case ManifestAt(h) => h
    case HashAt(h) => h
    case BlockHashAt(h) => h
    case StateRootAt(h) => h
    case RuntimeTip => 0
    case IndexedHeight => 0
  }

  /** A version slot of one of the two reserved user keys, and the metadata record it would overwrite. */
  predicate Overwrites(slot: PhysKey, record: PhysKey) {
    && slot.Slot?
    && ((slot.key == MANIFESTS && record == ManifestAt(slot.index)) ||
        (slot.key == HASHES && record == HashAt(slot.index)))
  }

  lemma {:induction false} SamePartsIff(a: PhysKey, b: PhysKey)
    ensures PartsOf(a) == PartsOf(b) <==> a == b || Overwrites(a, b) || Overwrites(b, a)
  {
    PrefixedDecimals(NumberIn(a), NumberIn(b));
    PrefixedDecimals(NumberIn(b), NumberIn(a));
    DecimalInjective(NumberIn(a), NumberIn(b));
    WordsDiffer(NumberIn(a));
    WordsDiffer(NumberIn(b));
  }

  /** Two storage keys share their bytes only if they are equal, or one is a slot of a reserved user key. */
  lemma {:induction false} RenderCollidesIff(a: PhysKey, b: PhysKey)
    ensures Render(a) == Render(b) <==> a == b || Overwrites(a, b) || Overwrites(b, a)
  {
    WordsHaveNoSlash(a);
    WordsHaveNoSlash(b);
    SplitJoin(PartsOf(a));
    SplitJoin(PartsOf(b));
    SamePartsIff(a, b);
  }

  // ---------------------------------------------------------------- what the full scan makes of a key

  /** The height the scan reads out of a raw key, if it takes the key for block metadata. */
  function ScannedHeight(raw: Bytes): Option<nat> {
    if BLOCK_HASH_PREFIX <= raw then ParseU32(raw[|BLOCK_HASH_PREFIX|..])
    else if STATE_ROOT_PREFIX <= raw then ParseU32(raw[|STATE_ROOT_PREFIX|..])
    else if ROOT_PREFIX <= raw then ParseU32(raw[|ROOT_PREFIX|..])
    else None
  }

  const LENGTH_SUFFIX: Bytes := [SLASH] + LENGTH_WORD

  predicate EndsWithLength(raw: Bytes) {
    |raw| >= |LENGTH_SUFFIX| && raw[|raw| - |LENGTH_SUFFIX|..] == LENGTH_SUFFIX
  }

  /** The user key the scan compacts on meeting a raw key. */
  function ScannedBase(raw: Bytes): Option<Key> {
    if ScannedHeight(raw).None? && EndsWithLength(raw) then Some(raw[..|raw| - |LENGTH_SUFFIX|]) else None
  }

  lemma {:induction false} SlashDoesNotParse(s: Bytes)
    requires SLASH in s
    ensures ParseU32(s).None?
  {
    var i :| 0 <= i < |s| && s[i] == SLASH;
    if s[0] == PLUS {
      assert s[1..][i - 1] == SLASH;
    }
  }

  lemma PrefixesHaveNoSlash()
    ensures SLASH !in ROOT_PREFIX && SLASH !in BLOCK_HASH_PREFIX && SLASH !in STATE_ROOT_PREFIX
  {
    assert forall i :: 0 <= i < |ROOT_PREFIX| ==> ROOT_PREFIX[i] != SLASH;
    assert forall i :: 0 <= i < |BLOCK_HASH_PREFIX| ==> BLOCK_HASH_PREFIX[i] != SLASH;
    assert forall i :: 0 <= i < |STATE_ROOT_PREFIX| ==> STATE_ROOT_PREFIX[i] != SLASH;
  }

  lemma {:induction false} NoHeightBeforeSlash(prefix: Bytes, raw: Bytes, at: nat)
    requires SLASH !in prefix && prefix <= raw && at < |raw| && raw[at] == SLASH
    ensures ParseU32(raw[|prefix|..]).None?
  {
    assert forall i :: 0 <= i < |prefix| ==> raw[i] == prefix[i] && prefix[i] != SLASH;
    assert raw[|prefix|..][at - |prefix|] == SLASH;
    SlashDoesNotParse(raw[|prefix|..]);
  }

  lemma {:induction false} SlashedIsNotMetadata(raw: Bytes, at: nat)
    requires at < |raw| && raw[at] == SLASH
    ensures ScannedHeight(raw).None?
  {
    PrefixesHaveNoSlash();
    if BLOCK_HASH_PREFIX <= raw {
      NoHeightBeforeSlash(BLOCK_HASH_PREFIX, raw, at);
    } else if STATE_ROOT_PREFIX <= raw {
      NoHeightBeforeSlash(STATE_ROOT_PREFIX, raw, at);
    } else if ROOT_PREFIX <= raw {
      NoHeightBeforeSlash(ROOT_PREFIX, raw, at);
    }
  }

  lemma PrefixesDiffer(s: Bytes)
    ensures !(BLOCK_HASH_PREFIX <= STATE_ROOT_PREFIX + s)
    ensures !(BLOCK_HASH_PREFIX <= ROOT_PREFIX + s) && !(STATE_ROOT_PREFIX <= ROOT_PREFIX + s)
  {
    assert (STATE_ROOT_PREFIX + s)[0] == 115 && BLOCK_HASH_PREFIX[0] == 98;
    assert (ROOT_PREFIX + s)[0] == 115 && (ROOT_PREFIX + s)[1] == 109 && STATE_ROOT_PREFIX[1] == 116;
  }

  lemma AfterPrefix(p: Bytes, s: Bytes)
    ensures p <= p + s && (p + s)[|p|..] == s
  {
  }

  lemma {:induction false} MetadataIsRead(h: nat)
    requires h < U32_LIMIT
    ensures ScannedHeight(ROOT_PREFIX + Decimal(h)) == Some(h)
    ensures ScannedHeight(BLOCK_HASH_PREFIX + Decimal(h)) == Some(h)
    ensures ScannedHeight(STATE_ROOT_PREFIX + Decimal(h)) == Some(h)
  {
    var s := Decimal(h);
    ParsePrinted(h);
    PrefixesDiffer(s);
    AfterPrefix(ROOT_PREFIX, s);
    AfterPrefix(BLOCK_HASH_PREFIX, s);
    AfterPrefix(STATE_ROOT_PREFIX, s);
  }

  lemma {:induction false} LengthKeyEnds(key: Key)
    ensures EndsWithLength(Render(LengthOf(key)))
    ensures Render(LengthOf(key))[..|Render(LengthOf(key))| - |LENGTH_SUFFIX|] == key
  {
    assert Render(LengthOf(key)) == key + LENGTH_SUFFIX;
  }

  lemma {:induction false} LengthKeyOf(base: Bytes)
    ensures Render(LengthOf(base)) == base + LENGTH_SUFFIX
  {
  }

  lemma {:induction false} EndedIsBase(raw: Bytes)
    requires EndsWithLength(raw)
    ensures raw == raw[..|raw| - |LENGTH_SUFFIX|] + LENGTH_SUFFIX
  {
  }

  lemma {:induction false} OnlyLengthKeysEnd(pk: PhysKey)
    requires EndsWithLength(Render(pk))
    ensures pk.LengthOf?
  {
    var base := Render(pk)[..|Render(pk)| - |LENGTH_SUFFIX|];
    EndedIsBase(Render(pk));
    LengthKeyOf(base);
    RenderCollidesIff(pk, LengthOf(base));
  }

  lemma {:induction false} EndsWithLengthIff(pk: PhysKey)
    ensures EndsWithLength(Render(pk)) <==> pk.LengthOf?
    ensures pk.LengthOf? ==> Render(pk)[..|Render(pk)| - |LENGTH_SUFFIX|] == pk.key
  {
    if pk.LengthOf? {
      LengthKeyEnds(pk.key);
    }
    if EndsWithLength(Render(pk)) {
      OnlyLengthKeysEnd(pk);
    }
  }

  /** On rendered keys the scan reads exactly the heights and the user keys they were made from. */
  lemma {:induction false} ScanReadsKeys(pk: PhysKey)
    requires NumberIn(pk) < U32_LIMIT
    ensures ScannedHeight(Render(pk)) == Rollback.MetaHeight(pk)
    ensures ScannedBase(Render(pk)) == if pk.LengthOf? then Some(pk.key) else None
  {
    EndsWithLengthIff(pk);
    WordsHaveNoSlash(pk);
    if PartsOf(pk).Parts? {
      assert Render(pk)[|PartsOf(pk).dir|] == SLASH;
      SlashedIsNotMetadata(Render(pk), |PartsOf(pk).dir|);
    } else {
      MetadataIsRead(NumberIn(pk));
    }
  }

  // ---------------------------------------------------------------- version entries

  const COLON: Byte := 58

  /** `height:hex` as a flush writes it. */
  function EncodeEntry(e: Entry): Bytes {
    Decimal(e.height) + [COLON] + HexEncode(e.value)
  }

  /** The position of the first colon, or the length. */
  function FindColon(s: Bytes): (at: nat)
    ensures at <= |s|
    ensures at < |s| ==> s[at] == COLON
    ensures COLON !in s[..at]
  {
    if s == [] || s[0] == COLON then 0
    else
      assert s[..FindColon(s[1..]) + 1] == [s[0]] + s[1..][..FindColon(s[1..])];
      1 + FindColon(s[1..])
  }

  lemma {:induction false} ColonFound(a: Bytes, b: Bytes)
    requires COLON !in a
    ensures FindColon(a + [COLON] + b) == |a|
  {
    var s := a + [COLON] + b;
    if a != [] {
      assert s[0] == a[0] && s[1..] == a[1..] + [COLON] + b;
      ColonFound(a[1..], b);
    }
  }

  function ParseHeight(s: Bytes): Option<nat> {
    if FindColon(s) == |s| then None else ParseU32(s[..FindColon(s)])
  }

  /** What a lookup makes of a stored entry: a height and a value, or an error. */
  function DecodeEntry(s: Bytes): Result<Entry> {
    if ParseHeight(s).None? then Err
    else if HexDecode(s[FindColon(s) + 1..]).None? then Err
    else Ok(Entry(ParseHeight(s).value, HexDecode(s[FindColon(s) + 1..]).value))
  }

  /** An entry's text: the height, a colon, the value in lower-case hex. */
  lemma {:induction false} EntryText(e: Entry, i: nat)
    ensures EncodeEntry(e) == Decimal(e.height) + Ascii(":") + HexEncode(e.value)
    ensures i < |e.value| ==> |HexEncode(e.value)| == 2 * |e.value| &&
                              HexEncode(e.value)[2 * i] == Ascii("0123456789abcdef")[e.value[i] / 16] &&
                              HexEncode(e.value)[2 * i + 1] == Ascii("0123456789abcdef")[e.value[i] % 16]
  {
    assert Ascii(":") == [COLON];
    if i < |e.value| {
      HexText(e.value, i);
    }
  }

  /** Entries with a 32-bit height decode to what was written, in lookups and in rollbacks alike. */
  lemma {:induction false} EntryRoundTrip(e: Entry)
    requires e.height < U32_LIMIT
    ensures ParseHeight(EncodeEntry(e)) == Some(e.height)
    ensures DecodeEntry(EncodeEntry(e)) == Ok(e)
  {
    var s, n := EncodeEntry(e), |Decimal(e.height)|;
    ColonFound(Decimal(e.height), HexEncode(e.value));
    assert s[..n] == Decimal(e.height) && s[n + 1..] == HexEncode(e.value);
    ParsePrinted(e.height);
    HexRoundTrip(e.value);
  }

  // ---------------------------------------------------------------- manifests

  /** A length as written: cut to its low 32 bits. */
  function LengthField(n: nat): Bytes {
    Le32(n)
  }

  function KeyRecords(keys: seq<Bytes>): Bytes {
    if keys == [] then [] else LengthField(|keys[0]|) + keys[0] + KeyRecords(keys[1..])
  }

  function ManifestBytes(keys: seq<Bytes>): Bytes {
    LengthField(|keys|) + KeyRecords(keys)
  }

  method SerializeManifest(keys: seq<Bytes>) returns (buf: Bytes)
    ensures buf == ManifestBytes(keys)
  {
    buf := LengthField(|keys|);
    for i := 0 to |keys|
      invariant buf + KeyRecords(keys[i..]) == ManifestBytes(keys)
    {
      assert keys[i..][1..] == keys[i + 1..];
      buf := buf + LengthField(|keys[i]|);
      buf := buf + keys[i];
    }
  }

  /** Up to `n` keys off the front of `d`; stops at the first record that does not fit. */
  function ReadKeys(d: Bytes, n: nat): seq<Bytes>
    decreases n
  {
    if n == 0 || |d| < 4 || |d| < 4 + FromLe32(d[..4]) then []
    else [d[4..4 + FromLe32(d[..4])]] + ReadKeys(d[4 + FromLe32(d[..4])..], n - 1)
  }

  function ManifestKeys(data: Bytes): seq<Bytes> {
    if |data| < 4 then [] else ReadKeys(data[4..], FromLe32(data[..4]))
  }

  method DeserializeManifest(data: Bytes) returns (keys: seq<Bytes>)
    ensures keys == ManifestKeys(data)
  {
    if |data| < 4 {
      return [];
    }
    var numKeys := FromLe32(data[0..4]);
    keys := [];
    var offset: nat := 4;
    for i := 0 to numKeys
      invariant offset <= |data|
      invariant keys + ReadKeys(data[offset..], numKeys - i) == ManifestKeys(data)
    {
      if offset + 4 > |data| {
        break;
      }
      ghost var rest := data[offset..];
      assert rest[..4] == data[offset..offset + 4];
      var keyLen := FromLe32(data[offset..offset + 4]);
      offset := offset + 4;
      if offset + keyLen > |data| {
        break;
      }
      assert rest[4..4 + keyLen] == data[offset..offset + keyLen];
      keys := keys + [data[offset..offset + keyLen]];
      offset := offset + keyLen;
      assert rest[4 + keyLen..] == data[offset..];
    }
  }

  predicate LengthsFit(keys: seq<Bytes>) {
    forall k :: k in keys ==> |k| < U32_LIMIT
  }

  lemma PrefixOfConcat(d: Bytes, a: Bytes, b: Bytes)
    requires d <= a + b
    ensures |d| < |a| ==> d != a + b
    ensures |d| >= |a| ==> d[..|a|] == a && d[|a|..] <= b && (d == a + b <==> d[|a|..] == b)
  {
    if |d| >= |a| {
      assert d == d[..|a|] + d[|a|..];
      assert (a + b)[|a|..] == b && (a + b)[..|a|] == a;
    }
  }

  lemma {:induction false} ReadOneKey(d: Bytes, head: Bytes, k: Bytes, tail: Bytes, n: nat)
    requires n > 0 && |head| == 4 && FromLe32(head) == |k| && d <= head + k + tail
    ensures |d| < 4 + |k| ==> ReadKeys(d, n) == [] && d != head + k + tail
    ensures |d| >= 4 + |k| ==>
              && ReadKeys(d, n) == [k] + ReadKeys(d[4 + |k|..], n - 1)
              && d[4 + |k|..] <= tail && (d == head + k + tail <==> d[4 + |k|..] == tail)
  {
    PrefixOfConcat(d, head + k, tail);
    if |d| >= 4 {
      assert d[..4] == head;
    }
    if |d| >= 4 + |k| {
      assert d[4..4 + |k|] == k;
    }
  }

  /** Reading data that stops somewhere within a run of records. */
  lemma {:induction false} TornRecords(d: Bytes, keys: seq<Bytes>)
    requires LengthsFit(keys) && d <= KeyRecords(keys)
    ensures ReadKeys(d, |keys|) <= keys
    ensures ReadKeys(d, |keys|) == keys <==> d == KeyRecords(keys)
    decreases |keys|
  {
    if keys != [] {
      var k, rest := keys[0], keys[1..];
      Le32RoundTrip(|k|);
      ReadOneKey(d, LengthField(|k|), k, KeyRecords(rest), |keys|);
      if |d| >= 4 + |k| {
        TornRecords(d[4 + |k|..], rest);
      }
      assert keys == [k] + rest;
    }
  }

  /** A manifest cut short anywhere decodes to a prefix of its keys, and to all of them only if nothing was lost. */
  lemma {:induction false} TornManifest(keys: seq<Bytes>, data: Bytes)
    requires |keys| < U32_LIMIT && LengthsFit(keys) && data <= ManifestBytes(keys)
    ensures ManifestKeys(data) <= keys
    ensures ManifestKeys(data) == keys <==> data == ManifestBytes(keys) || keys == []
  {
    PrefixOfConcat(data, LengthField(|keys|), KeyRecords(keys));
    if |data| >= 4 {
      Le32RoundTrip(|keys|);
      TornRecords(data[4..], keys);
    }
  }

  /** A manifest decodes to the keys it was made from. */
  lemma {:induction false} ManifestRoundTrip(keys: seq<Bytes>)
    requires |keys| < U32_LIMIT && LengthsFit(keys)
    ensures ManifestKeys(ManifestBytes(keys)) == keys
  {
    TornManifest(keys, ManifestBytes(keys));
  }
}
