/**
 The request and verdict encodings that cross the sandbox boundary of a custom validator:
 version tag, fixed fields, length-prefixed tail. Decoders read with a cursor and answer None
 for anything malformed. A verdict's reason is kept as bytes.
 */
module Wire {
  import opened Basics
  import opened Encoding

  const WIRE_VERSION: Byte := 1

  datatype ValidationRequest = ValidationRequest(
    height: nat,
    header: Bytes,
    claimedHash: Bytes,
    prevHash: Option<Bytes>)

  /** Widths the source's types fix, and a header whose length fits its field. */
  predicate WellSized(r: ValidationRequest) {
    && r.height < U32_LIMIT && |r.header| < U32_LIMIT && |r.claimedHash| == 32
    && (r.prevHash.Some? ==> |r.prevHash.value| == 32)
  }

  function Tail(r: ValidationRequest): Bytes {
    if r.prevHash.Some? then r.prevHash.value else []
  }

  /** The encoding, with the flag byte left open. */
  function Framed(r: ValidationRequest, flags: Byte): Bytes {
    [WIRE_VERSION] + Le32(r.height) + [flags] + r.claimedHash + Le32(|r.header|) + r.header + Tail(r)
  }

  function Encoded(r: ValidationRequest): Bytes {
    Framed(r, if r.prevHash.Some? then 1 else 0)
  }

  method Encode(r: ValidationRequest) returns (out: Bytes)
    ensures out == Encoded(r)
  {
    out := [WIRE_VERSION];
    out := out + Le32(r.height);
    out := out + [if r.prevHash.Some? then 1 else 0];
    out := out + r.claimedHash;
    out := out + Le32(|r.header|);
    out := out + r.header;
    if r.prevHash.Some? {
      out := out + r.prevHash.value;
    }
  }

  /** The byte offsets of the encoding. */
  lemma {:induction false} EncodedLayout(r: ValidationRequest)
    requires WellSized(r)
    ensures var e := Encoded(r);
            && |e| == 42 + |r.header| + (if r.prevHash.Some? then 32 else 0)
            && e[0] == 1 && e[1..5] == Le32(r.height) && e[5] == (if r.prevHash.Some? then 1 else 0)
            && e[6..38] == r.claimedHash && e[38..42] == Le32(|r.header|) && e[42..42 + |r.header|] == r.header
            && (r.prevHash.Some? ==> e[42 + |r.header|..] == r.prevHash.value)
  {
  }

  /** `b` starts with the encoding of `r`; a flag byte other than 1 says that there is no parent hash. */
  predicate StartsWith(b: Bytes, r: ValidationRequest) {
    |b| > 5 && (b[5] == 1 <==> r.prevHash.Some?) && Framed(r, b[5]) <= b
  }

  /** The next `n` bytes from the cursor and the cursor after them. */
  method Take(b: Bytes, at: nat, n: nat) returns (s: Option<Bytes>, next: nat)
    ensures s == if at + n <= |b| then Some(b[at..at + n]) else None
    ensures next == if at + n <= |b| then at + n else at
  {
    if at + n <= |b| {
      s, next := Some(b[at..at + n]), at + n;
    } else {
      s, next := None, at;
    }
  }

  /** The fields at their fixed offsets, then the header and the parent hash it is followed by. */
  function Decoded(b: Bytes): Option<ValidationRequest> {
    if |b| < 42 || b[0] != WIRE_VERSION then None
    else
      var end := 42 + FromLe32(b[38..42]);
      if end > |b| || (b[5] == 1 && end + 32 > |b|) then None
      else
        var prevHash := if b[5] == 1 then Some(b[end..end + 32]) else None;
        Some(ValidationRequest(FromLe32(b[1..5]), b[42..end], b[6..38], prevHash))
  }

  method Decode(b: Bytes) returns (r: Option<ValidationRequest>)
    ensures r == Decoded(b)
  {
    var at: nat := 0;
    var s: Option<Bytes>;
    s, at := Take(b, at, 1);
    if s.None? || s.value[0] != WIRE_VERSION {
      return None;
    }
    s, at := Take(b, at, 4);
    if s.None? {
      return None;
    }
    var height := FromLe32(s.value);
    s, at := Take(b, at, 1);
    if s.None? {
      return None;
    }
    var hasPrev := s.value[0] == 1;
    s, at := Take(b, at, 32);
    if s.None? {
      return None;
    }
    var claimedHash := s.value;
    s, at := Take(b, at, 4);
    if s.None? {
      return None;
    }
    var headerLen := FromLe32(s.value);
    if headerLen > |b| {
      return None;
    }
    s, at := Take(b, at, headerLen);
    if s.None? {
      return None;
    }
    var header := s.value;
    var prevHash: Option<Bytes> := None;
    if hasPrev {
      s, at := Take(b, at, 32);
      if s.None? {
        return None;
      }
      prevHash := s;
    }
    r := Some(ValidationRequest(height, header, claimedHash, prevHash));
  }

  // ---------------------------------------------------------------- what a buffer decodes to

  lemma {:induction false} DecodedStarts(b: Bytes)
    requires Decoded(b).Some?
    ensures WellSized(Decoded(b).value) && StartsWith(b, Decoded(b).value)
  {
    var r := Decoded(b).value;
    LeOfBytes(b[1..5]);
    LeOfBytes(b[38..42]);
    var end := 42 + |r.header|;
    assert b[..end] == [b[0]] + b[1..5] + [b[5]] + b[6..38] + b[38..42] + b[42..end];
    assert r.prevHash.Some? ==> b[..end + 32] == b[..end] + b[end..end + 32];
  }

  lemma {:induction false} StartsDecodes(b: Bytes, r: ValidationRequest)
    requires WellSized(r) && StartsWith(b, r)
    ensures Decoded(b) == Some(r)
  {
    var f := Framed(r, b[5]);
    Le32RoundTrip(r.height);
    Le32RoundTrip(|r.header|);
    var end := 42 + |r.header|;
    assert |f| == end + |Tail(r)|;
    assert f[0] == WIRE_VERSION && f[1..5] == Le32(r.height) && f[6..38] == r.claimedHash;
    assert f[38..42] == Le32(|r.header|) && f[42..end] == r.header && f[end..] == Tail(r);
    assert b[1..5] == f[1..5] && b[6..38] == f[6..38] && b[38..42] == f[38..42] && b[42..end] == f[42..end];
    assert b[end..|f|] == f[end..];
  }

  /** A buffer decodes to a request exactly when it starts with that request's encoding. */
  lemma {:induction false} DecodedIff(b: Bytes, r: ValidationRequest)
    ensures Decoded(b) == Some(r) <==> WellSized(r) && StartsWith(b, r)
  {
    if Decoded(b) == Some(r) {
      DecodedStarts(b);
    }
    if WellSized(r) && StartsWith(b, r) {
      StartsDecodes(b, r);
    }
  }

  lemma {:induction false} RequestRoundTrip(r: ValidationRequest)
    requires WellSized(r)
    ensures Decoded(Encoded(r)) == Some(r)
  {
    assert Encoded(r)[5] == (if r.prevHash.Some? then 1 else 0);
    DecodedIff(Encoded(r), r);
  }

  /** Cutting an encoded request short anywhere leaves nothing that decodes. */
  lemma {:induction false} NoProperPrefixDecodes(r: ValidationRequest, cut: Bytes)
    requires WellSized(r) && cut < Encoded(r)
    ensures Decoded(cut).None?
  {
    RequestRoundTrip(r);
    if Decoded(cut).Some? {
      var q := Decoded(cut).value;
      DecodedIff(cut, q);
      DecodedIff(Encoded(r), q);
    }
  }

  // ---------------------------------------------------------------- verdicts

  datatype Verdict = Verdict(accepted: bool, reason: Bytes)

  function EncodedVerdict(v: Verdict): Bytes {
    [WIRE_VERSION, if v.accepted then 1 else 0] + Le32(|v.reason|) + v.reason
  }

  function DecodedVerdict(b: Bytes): Option<Verdict> {
    if |b| < 6 || b[0] != WIRE_VERSION || 6 + FromLe32(b[2..6]) > |b| then None
    else Some(Verdict(b[1] == 1, b[6..6 + FromLe32(b[2..6])]))
  }

  /** The byte offsets of a verdict. */
  lemma {:induction false} VerdictLayout(v: Verdict)
    ensures var e := EncodedVerdict(v);
            && |e| == 6 + |v.reason| && e[0] == 1 && e[1] == (if v.accepted then 1 else 0)
            && e[2..6] == Le32(|v.reason|) && e[6..] == v.reason
  {
  }

  /** A buffer decodes to a verdict if and only if it is there at those offsets, any flag byte but 1 meaning no. */
  lemma {:induction false} VerdictDecodedIff(b: Bytes, v: Verdict)
    ensures DecodedVerdict(b) == Some(v) <==>
            && |v.reason| < U32_LIMIT && |b| >= 6 + |v.reason|
            && b[0] == 1 && (b[1] == 1 <==> v.accepted)
            && b[2..6] == Le32(|v.reason|) && b[6..6 + |v.reason|] == v.reason
  {
    if |b| >= 6 {
      LeOfBytes(b[2..6]);
      if |v.reason| < U32_LIMIT {
        Le32RoundTrip(|v.reason|);
      }
    }
  }

  /** A verdict decodes to itself, whatever follows it, and no proper prefix of one decodes. */
  lemma {:induction false} VerdictRoundTrip(v: Verdict, b: Bytes)
    requires |v.reason| < U32_LIMIT
    ensures EncodedVerdict(v) <= b ==> DecodedVerdict(b) == Some(v)
    ensures b < EncodedVerdict(v) ==> DecodedVerdict(b).None?
  {
    var e := EncodedVerdict(v);
    Le32RoundTrip(|v.reason|);
    assert e[2..6] == Le32(|v.reason|) && e[6..] == v.reason;
    if e <= b {
      assert b[2..6] == e[2..6] && b[6..|e|] == e[6..];
    } else if b < e && |b| >= 6 {
      assert b[2..6] == e[2..6];
    }
  }
}
