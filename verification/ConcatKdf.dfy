/** The SHA-256 Concat KDF of JOSE key agreement. */
module ConcatKdf {
  import opened Bytes
  import opened Options
  import opened Results
  import opened Sha2
  import opened SecretHash

  const U32_LIMIT: nat := 0x1_0000_0000

  datatype Error = EmptySecret | EmptyRequest | RequestTooLong | FieldTooLong

  // ---- Section 4.6.2 of RFC 7518 ----

  function Prefixed(value: seq<byte>): seq<byte> {
    BigEndian(|value|, 4) + value
  }

  function OtherInfo(algorithm: seq<byte>, partyU: seq<byte>, partyV: seq<byte>, bits: nat): seq<byte> {
    Prefixed(algorithm) + Prefixed(partyU) + Prefixed(partyV) + BigEndian(bits, 4)
  }

  function Blocks(h: Hash, secret: seq<byte>, otherInfo: seq<byte>): (f: nat -> seq<byte>)
    ensures forall i :: |f(i)| == h.alg.DigestLen()
  {
    i => Digest(h, BigEndian(i, 4) + secret + otherInfo)
  }

  /** A length-prefixed field can be split off the front in only one way. */
  lemma PrefixedFront(a: seq<byte>, b: seq<byte>, s: seq<byte>, t: seq<byte>)
    requires |a| < U32_LIMIT && |b| < U32_LIMIT
    requires Prefixed(a) + s == Prefixed(b) + t
    ensures a == b && s == t
  {
    Pow256Values();
    var x, y := Prefixed(a) + s, Prefixed(b) + t;
    assert x[..4] == BigEndian(|a|, 4) && y[..4] == BigEndian(|b|, 4);
    BigEndianInjective(|a|, |b|, 4);
    assert x[4..4 + |a|] == a && y[4..4 + |b|] == b;
    assert x[4 + |a|..] == s && y[4 + |b|..] == t;
  }

  /** No two contexts share an encoding. */
  lemma OtherInfoInjective(alg1: seq<byte>, u1: seq<byte>, v1: seq<byte>, bits1: nat,
                           alg2: seq<byte>, u2: seq<byte>, v2: seq<byte>, bits2: nat)
    requires |alg1| < U32_LIMIT && |u1| < U32_LIMIT && |v1| < U32_LIMIT && bits1 < U32_LIMIT
    requires |alg2| < U32_LIMIT && |u2| < U32_LIMIT && |v2| < U32_LIMIT && bits2 < U32_LIMIT
    requires OtherInfo(alg1, u1, v1, bits1) == OtherInfo(alg2, u2, v2, bits2)
    ensures alg1 == alg2 && u1 == u2 && v1 == v2 && bits1 == bits2
  {
    hide Prefixed;
    var (p, q) := (BigEndian(bits1, 4), BigEndian(bits2, 4));
    Regroup(Prefixed(alg1), Prefixed(u1), Prefixed(v1), p);
    Regroup(Prefixed(alg2), Prefixed(u2), Prefixed(v2), q);
    PrefixedFront(alg1, alg2, Prefixed(u1) + Prefixed(v1) + p, Prefixed(u2) + Prefixed(v2) + q);
    assert Prefixed(u1) + (Prefixed(v1) + p) == Prefixed(u2) + (Prefixed(v2) + q) by {
      Regroup(Prefixed(u1), Prefixed(v1), p, []);
      Regroup(Prefixed(u2), Prefixed(v2), q, []);
      assert Prefixed(v1) + p + [] == Prefixed(v1) + p && Prefixed(v2) + q + [] == Prefixed(v2) + q;
    }
    PrefixedFront(u1, u2, Prefixed(v1) + p, Prefixed(v2) + q);
    PrefixedFront(v1, v2, p, q);
    Pow256Values();
    BigEndianInjective(bits1, bits2, 4);
  }

  /** A field read off the front: its length in four bytes, then its bytes. */
  function ReadField(s: seq<byte>): Option<(seq<byte>, seq<byte>)> {
    if |s| < 4 || |s| < 4 + Number(s[..4]) then None
    else Some((s[4..4 + Number(s[..4])], s[4 + Number(s[..4])..]))
  }

  lemma ReadPrefixed(value: seq<byte>, rest: seq<byte>)
    requires |value| < U32_LIMIT
    ensures ReadField(Prefixed(value) + rest) == Some((value, rest))
  {
    hide Number, BigEndian, Pow256;
    Pow256Values();
    var s := Prefixed(value) + rest;
    assert s[..4] == BigEndian(|value|, 4);
    NumberOfBigEndian(|value|, 4);
    assert s[4..4 + |value|] == value && s[4 + |value|..] == rest;
  }

  /** The context reads back as algorithm, first party, second party and bit length, in this order. */
  lemma OtherInfoReads(algorithm: seq<byte>, partyU: seq<byte>, partyV: seq<byte>, bits: nat)
    requires |algorithm| < U32_LIMIT && |partyU| < U32_LIMIT && |partyV| < U32_LIMIT && bits < U32_LIMIT
    ensures var a := ReadField(OtherInfo(algorithm, partyU, partyV, bits));
      && a.Some? && a.value.0 == algorithm
      && var u := ReadField(a.value.1);
      && u.Some? && u.value.0 == partyU
      && var v := ReadField(u.value.1);
      && v.Some? && v.value.0 == partyV
      && |v.value.1| == 4 && Number(v.value.1) == bits
  {
    hide Prefixed, ReadField, Number, BigEndian, Pow256;
    var b := BigEndian(bits, 4);
    var afterU := Prefixed(partyV) + b;
    var afterA := Prefixed(partyU) + afterU;
    assert OtherInfo(algorithm, partyU, partyV, bits) == Prefixed(algorithm) + afterA;
    ReadPrefixed(algorithm, afterA);
    ReadPrefixed(partyU, afterU);
    ReadPrefixed(partyV, b);
    Pow256Values();
    NumberOfBigEndian(bits, 4);
  }

  /** Each whole block of the output hashes its number, the secret and the context. */
  lemma OutputBlock(h: Hash, secret: seq<byte>, otherInfo: seq<byte>, length: nat, i: nat)
    requires h.alg.Sha256? && i >= 1 && (i - 1) * 32 + 32 <= length
    ensures Take(Blocks(h, secret, otherInfo), 32, length)[(i - 1) * 32..(i - 1) * 32 + 32]
            == Digest(h, BigEndian(i, 4) + secret + otherInfo)
  {
    hide Take, Digest, BigEndian;
    TakeBlock(Blocks(h, secret, otherInfo), 32, length, i);
  }

  // ---- Implementation ----

  method AppendLengthPrefixed(output: seq<byte>, value: seq<byte>) returns (r: Result<seq<byte>, Error>)
    ensures r == if |value| < U32_LIMIT then Ok(output + Prefixed(value)) else Err(FieldTooLong)
  {
    if |value| >= U32_LIMIT {
      return Err(FieldTooLong);
    }
    assert output + BigEndian(|value|, 4) + value == output + Prefixed(value);
    return Ok(output + BigEndian(|value|, 4) + value);
  }

  method EncodeOtherInfo(algorithm: seq<byte>, partyU: seq<byte>, partyV: seq<byte>, bits: nat)
    returns (r: Result<seq<byte>, Error>)
    ensures r == if |algorithm| < U32_LIMIT && |partyU| < U32_LIMIT && |partyV| < U32_LIMIT
                 then Ok(OtherInfo(algorithm, partyU, partyV, bits)) else Err(FieldTooLong)
  {
    r := AppendLengthPrefixed([], algorithm);
    if r.Err? { return r; }
    r := AppendLengthPrefixed(r.value, partyU);
    if r.Err? { return r; }
    r := AppendLengthPrefixed(r.value, partyV);
    if r.Err? { return r; }
    assert [] + Prefixed(algorithm) == Prefixed(algorithm);
    r := Ok(r.value + BigEndian(bits, 4));
  }

  method Sha256Parts(h: Hash, counter: nat, secret: seq<byte>, otherInfo: seq<byte>) returns (digest: seq<byte>)
    requires h.alg.Sha256? && Hashable(h.alg, 4 + |secret| + |otherInfo|)
    ensures digest == Digest(h, BigEndian(counter, 4) + secret + otherInfo)
  {
    hide Digest;
    var hash := new SecureSha(h);
    hash.Update(BigEndian(counter, 4));
    hash.Update(secret);
    hash.Update(otherInfo);
    assert hash.message == BigEndian(counter, 4) + secret + otherInfo;
    digest := hash.Finish();
  }

  /**
   * `usizeMax` is the platform's largest length. The 32-bit check on the bit length makes the later
   * conversion of the repetition count infallible, so no error is left for it.
   */
  method Derive(h: Hash, secret: seq<byte>, algorithm: seq<byte>, partyU: seq<byte>, partyV: seq<byte>,
                length: nat, usizeMax: nat)
    returns (r: Result<seq<byte>, Error>)
    requires h.alg.Sha256? && usizeMax >= U32_LIMIT - 1
    requires Hashable(h.alg, 20 + |secret| + |algorithm| + |partyU| + |partyV|)
    ensures r.Ok? <==> && secret != [] && 0 < length && 8 * length < 0x1_0000_0000
                       && |algorithm| < 0x1_0000_0000 && |partyU| < 0x1_0000_0000 && |partyV| < 0x1_0000_0000
    ensures r.Ok? ==>
              r.value == Take(Blocks(h, secret, OtherInfo(algorithm, partyU, partyV, 8 * length)), 32, length)
  {
    hide Digest;
    if secret == [] { return Err(EmptySecret); }
    if length == 0 { return Err(EmptyRequest); }
    if length * 8 > usizeMax { return Err(RequestTooLong); }
    if length * 8 >= U32_LIMIT { return Err(RequestTooLong); }
    var info := EncodeOtherInfo(algorithm, partyU, partyV, length * 8);
    if info.Err? { return info; }
    ghost var block := Blocks(h, secret, info.value);

    var repetitions := CeilDiv(length, 32);
    assert repetitions < U32_LIMIT;
    CeilDivCovers(length, 32);
    var derived := [];
    for counter := 1 to repetitions + 1
      invariant derived == Stream(block, counter - 1)
    {
      var digest := Sha256Parts(h, counter, secret, info.value);
      derived := derived + digest;
    }
    StreamLength(block, 32, repetitions);
    return Ok(derived[..length]);
  }
}
