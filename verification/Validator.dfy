/**
 The Bitcoin block validator: a request is accepted when the header hashes to the claimed hash,
 names the stored parent, starts at the configured genesis and meets its own target. The hash
 is any function of the first 80 bytes; a verdict's reason text is left out.
 */
module Validator {
  import opened Basics
  import opened Encoding
  import opened Wire
  import Target

  function Reversed(b: Bytes): (r: Bytes)
    ensures |r| == |b| && forall i :: 0 <= i < |b| ==> r[i] == b[|b| - 1 - i]
  {
    seq(|b|, i requires 0 <= i < |b| => b[|b| - 1 - i])
  }

  /** The parent hash in a header, in display order. */
  function ParentIn(header: Bytes): Bytes
    requires |header| >= 80
  {
    Reversed(header[4..36])
  }

  function BitsIn(header: Bytes): nat
    requires |header| >= 80
  {
    FromLe32(header[72..76])
  }

  predicate Meets(hash: Bytes, bits: nat) {
    !Target.Refused(bits) && FromBe(hash) <= Target.TargetValue(bits)
  }

  function CheckContinuity(hashOf: Bytes -> Bytes, req: ValidationRequest): Result<Bytes> {
    if |req.header| < 80 then Err
    else
      var computed := hashOf(req.header[..80]);
      if computed != req.claimedHash then Err
      else if req.height > 0 && req.prevHash != Some(ParentIn(req.header)) then Err
      else Ok(computed)
  }

  /** What it takes for a request to be accepted. */
  predicate Acceptable(hashOf: Bytes -> Bytes, genesis: Bytes, req: ValidationRequest) {
    && |req.header| >= 80
    && hashOf(req.header[..80]) == req.claimedHash
    && (if req.height == 0 then req.claimedHash == genesis else req.prevHash == Some(ParentIn(req.header)))
    && Meets(req.claimedHash, BitsIn(req.header))
  }

  method Validate(hashOf: Bytes -> Bytes, genesis: Bytes, req: ValidationRequest) returns (accepted: bool)
    requires |req.claimedHash| == 32
    ensures accepted <==> Acceptable(hashOf, genesis, req)
  {
    var checked := CheckContinuity(hashOf, req);
    if checked.Err? {
      return false;
    }
    var hash := checked.value;
    if req.height == 0 && hash != genesis {
      return false;
    }
    accepted := Target.MeetsTarget(hash, BitsIn(req.header));
  }

  /** A header put together from its fields. */
  function HeaderOf(version: Bytes, parent: Bytes, merkleRoot: Bytes, time: Bytes, bits: nat, nonce: Bytes): Bytes {
    version + parent + merkleRoot + time + Le32(bits) + nonce
  }

  lemma {:induction false} FieldsOf(version: Bytes, parent: Bytes, merkleRoot: Bytes, time: Bytes, bits: nat,
                                    nonce: Bytes, rest: Bytes)
    requires |version| == 4 && |parent| == 32 && |merkleRoot| == 32 && |time| == 4 && |nonce| == 4 && bits < U32_LIMIT
    ensures var header := HeaderOf(version, parent, merkleRoot, time, bits, nonce);
            && |header| == 80 && (header + rest)[..80] == header
            && ParentIn(header + rest) == Reversed(parent) && BitsIn(header + rest) == bits
  {
    var full := HeaderOf(version, parent, merkleRoot, time, bits, nonce) + rest;
    assert full[4..36] == parent;
    assert full[72..76] == Le32(bits);
    Le32RoundTrip(bits);
  }

  /**
   A block with a header of these fields is accepted if and only if the header's hash is the claimed
   one, it names the stored parent in display order or is the genesis block, and the hash as a
   number is at most the target of its bits.
   */
  lemma {:induction false} AcceptableIff(hashOf: Bytes -> Bytes, genesis: Bytes, req: ValidationRequest,
                                         version: Bytes, parent: Bytes, merkleRoot: Bytes, time: Bytes, bits: nat,
                                         nonce: Bytes, rest: Bytes)
    requires |version| == 4 && |parent| == 32 && |merkleRoot| == 32 && |time| == 4 && |nonce| == 4 && bits < U32_LIMIT
    requires req.header == HeaderOf(version, parent, merkleRoot, time, bits, nonce) + rest
    ensures Acceptable(hashOf, genesis, req) <==>
            && req.claimedHash == hashOf(HeaderOf(version, parent, merkleRoot, time, bits, nonce))
            && (req.height == 0 ==> req.claimedHash == genesis)
            && (req.height > 0 ==> req.prevHash == Some(seq(32, i requires 0 <= i < 32 => parent[31 - i])))
            && !Target.Refused(bits) && FromBe(req.claimedHash) <= Target.TargetValue(bits)
  {
    FieldsOf(version, parent, merkleRoot, time, bits, nonce, rest);
    assert Reversed(parent) == seq(32, i requires 0 <= i < 32 => parent[31 - i]);
  }

  // ---------------------------------------------------------------- accepted chains

  /** The request for height `i`, accepted on top of the hash stored for the one below. */
  ghost predicate LinkOf(hashOf: Bytes -> Bytes, genesis: Bytes, chain: seq<ValidationRequest>, i: nat)
    requires i < |chain|
  {
    && chain[i].height == i
    && (i > 0 ==> chain[i].prevHash == Some(chain[i - 1].claimedHash))
    && Acceptable(hashOf, genesis, chain[i])
  }

  ghost predicate AcceptedChain(hashOf: Bytes -> Bytes, genesis: Bytes, chain: seq<ValidationRequest>) {
    forall i :: 0 <= i < |chain| ==> LinkOf(hashOf, genesis, chain, i)
  }

  /** The part of the header that is hashed. */
  function Hashed(req: ValidationRequest): Bytes {
    if |req.header| < 80 then req.header else req.header[..80]
  }

  /** At some height from `from` on the two chains hold different headers with one hash. */
  ghost predicate Collide(hashOf: Bytes -> Bytes, a: seq<ValidationRequest>, b: seq<ValidationRequest>, from: nat)
    requires |a| == |b|
  {
    exists i :: from <= i < |a| && Hashed(a[i]) != Hashed(b[i]) && hashOf(Hashed(a[i])) == hashOf(Hashed(b[i]))
  }

  lemma {:induction false} SameHeaderSameParent(hashOf: Bytes -> Bytes, genesis: Bytes,
                                                a: seq<ValidationRequest>, b: seq<ValidationRequest>, i: nat)
    requires AcceptedChain(hashOf, genesis, a) && AcceptedChain(hashOf, genesis, b)
    requires i < |a| && i < |b| && Hashed(a[i]) == Hashed(b[i])
    ensures i > 0 ==> a[i - 1].claimedHash == b[i - 1].claimedHash
  {
    assert LinkOf(hashOf, genesis, a, i) && LinkOf(hashOf, genesis, b, i);
    assert a[i].header[4..36] == a[i].header[..80][4..36] && b[i].header[4..36] == b[i].header[..80][4..36];
  }

  /**
   An accepted chain is fixed by its last hash: two of one height with the same last hash have the
   same headers and hashes from any height on, or two of their headers collide.
   */
  lemma {:induction false} LastHashFixesChain(hashOf: Bytes -> Bytes, genesis: Bytes,
                                              a: seq<ValidationRequest>, b: seq<ValidationRequest>, i: nat)
    requires AcceptedChain(hashOf, genesis, a) && AcceptedChain(hashOf, genesis, b)
    requires |a| == |b| && i < |a| && a[|a| - 1].claimedHash == b[|b| - 1].claimedHash
    ensures (a[i].claimedHash == b[i].claimedHash && Hashed(a[i]) == Hashed(b[i])) || Collide(hashOf, a, b, i)
    decreases |a| - i
  {
    assert LinkOf(hashOf, genesis, a, i) && LinkOf(hashOf, genesis, b, i);
    if i < |a| - 1 {
      LastHashFixesChain(hashOf, genesis, a, b, i + 1);
      if !Collide(hashOf, a, b, i + 1) {
        SameHeaderSameParent(hashOf, genesis, a, b, i + 1);
      }
    }
  }
}
