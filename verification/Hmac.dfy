/** HMAC over the streaming hash, computed in a caller-owned scratch area that is always erased. */
module Hmac {
  import opened Bytes
  import opened Buffers
  import opened Sha2
  import opened SecretHash

  // ---- Section 2 of RFC 2104 ----

  function XorEach(s: seq<byte>, b: byte): (r: seq<byte>)
    ensures |r| == |s|
    ensures forall i :: 0 <= i < |s| ==> r[i] == Xor(s[i], b)
  {
    seq(|s|, i requires 0 <= i < |s| => Xor(s[i], b))
  }

  function KeyBlock(h: Hash, key: seq<byte>): (k: seq<byte>)
    ensures |k| == h.alg.BlockLen()
  {
    var short := if |key| > h.alg.BlockLen() then Digest(h, key) else key;
    short + Zeros(h.alg.BlockLen() - |short|)
  }

  function Mac(h: Hash, key: seq<byte>, m: seq<byte>): (mac: seq<byte>)
    ensures |mac| == h.alg.DigestLen()
  {
    var k := KeyBlock(h, key);
    Digest(h, XorEach(k, 0x5c) + Digest(h, XorEach(k, 0x36) + m))
  }

  /** Key and message are short enough for the hash's length counter. */
  predicate Macable(h: Hash, key: seq<byte>, length: nat) {
    Hashable(h.alg, |key|) && Hashable(h.alg, h.alg.BlockLen() + length)
  }

  /** A key longer than a block is as good as its digest. */
  lemma LongKey(h: Hash, key: seq<byte>, m: seq<byte>)
    requires |key| > h.alg.BlockLen()
    ensures Mac(h, key, m) == Mac(h, Digest(h, key), m)
  {
    hide Digest, XorEach;
    assert KeyBlock(h, key) == KeyBlock(h, Digest(h, key));
  }

  /** Two nested digests: the inner mask goes with the message, the outer one with the inner digest. */
  lemma MacNests(h: Hash, key: seq<byte>, inner: seq<byte>, outer: seq<byte>, m: seq<byte>)
    requires |key| <= |inner| == |outer| == h.alg.BlockLen()
    requires forall i :: 0 <= i < |key| ==> inner[i] == Xor(key[i], 0x36) && outer[i] == Xor(key[i], 0x5c)
    requires forall i :: |key| <= i < |inner| ==> inner[i] == 0x36 && outer[i] == 0x5c
    ensures Mac(h, key, m) == Digest(h, outer + Digest(h, inner + m))
  {
    hide Digest, Xor;
    var k := KeyBlock(h, key);
    XorLaws(0x36, 0, 0);
    XorLaws(0x5c, 0, 0);
    assert forall i :: 0 <= i < |k| ==> k[i] == if i < |key| then key[i] else 0;
    assert inner == XorEach(k, 0x36) && outer == XorEach(k, 0x5c);
  }

  /** Zero-extending a key up to the block length does not change any MAC. */
  lemma ZeroExtendedKey(h: Hash, key: seq<byte>, zeros: nat, m: seq<byte>)
    requires |key| + zeros <= h.alg.BlockLen()
    ensures Mac(h, key + Zeros(zeros), m) == Mac(h, key, m)
  {
    var rest := h.alg.BlockLen() - |key|;
    assert (key + Zeros(zeros)) + Zeros(rest - zeros) == key + Zeros(rest);
  }

  /** Two keys of at most a block make the same key block exactly when one zero-extends the other. */
  lemma SameKeyBlock(h: Hash, a: seq<byte>, b: seq<byte>)
    requires |a| <= |b| <= h.alg.BlockLen()
    ensures KeyBlock(h, a) == KeyBlock(h, b) <==> b == a + Zeros(|b| - |a|)
  {
    var k, l := KeyBlock(h, a), KeyBlock(h, b);
    if k == l {
      assert b == l[..|b|];
      assert k[..|b|] == a + Zeros(|b| - |a|);
    }
    if b == a + Zeros(|b| - |a|) {
      assert k == l;
    }
  }

  /** Re-masking a masked key in place changes the inner pad into the outer pad. */
  lemma Remask(s: seq<byte>)
    ensures XorEach(XorEach(s, 0x36), Xor(0x36, 0x5c)) == XorEach(s, 0x5c)
  {
    forall i | 0 <= i < |s|
      ensures Xor(Xor(s[i], 0x36), Xor(0x36, 0x5c)) == Xor(s[i], 0x5c)
    {
      XorLaws(Xor(s[i], 0x36), 0x36, 0x5c);
      XorLaws(s[i], 0x36, 0);
    }
  }

  // ---- Implementation ----

  /** One-shot hash of a list of parts into a maximal digest buffer. */
  method HashParts(h: Hash, parts: seq<seq<byte>>, output: array<byte>)
    requires output.Length == MAX_DIGEST_BYTES
    requires Hashable(h.alg, |Flatten(parts)|)
    modifies output
    ensures output[..] == Digest(h, Flatten(parts)) + Zeros(MAX_DIGEST_BYTES - h.alg.DigestLen())
  {
    hide Digest, Fold;
    Zeroize(output);
    var hash := new SecureSha(h);
    for i := 0 to |parts|
      invariant hash.Valid() && hash.hash == h && hash.message == Flatten(parts[..i])
      invariant fresh(hash) && fresh(hash.buffer)
      invariant output[..] == Zeros(MAX_DIGEST_BYTES)
    {
      FlattenGrows(parts, i);
      hash.Update(parts[i]);
    }
    assert parts[..|parts|] == parts;
    var digest := hash.Finish();
    var taken := digest[..h.alg.DigestLen()];
    assert taken == Digest(h, Flatten(parts));
    CopyInto(output, 0, taken);
    ZeroPadded(output[..], taken, MAX_DIGEST_BYTES);
  }

  lemma ZeroPadded(a: seq<byte>, s: seq<byte>, size: nat)
    requires |s| <= size <= |a| && a == [] + s + Zeros(|a|)[|s|..]
    ensures a[..size] == s + Zeros(size - |s|)
  {
  }

  lemma {:induction false} FlattenGrows(parts: seq<seq<byte>>, i: nat)
    requires i < |parts|
    ensures Flatten(parts[..i + 1]) == Flatten(parts[..i]) + parts[i]
    ensures |Flatten(parts[..i + 1])| <= |Flatten(parts)|
    decreases |parts|
  {
    assert parts[..i + 1][..i] == parts[..i];
    if i + 1 < |parts| {
      FlattenGrows(parts[..|parts| - 1], i);
      assert parts[..|parts| - 1][..i + 1] == parts[..i + 1];
    } else {
      assert parts[..i + 1] == parts;
    }
  }

  class HmacScratch {
    const keyBlock: array<byte>
    const innerDigest: array<byte>

    constructor ()
      ensures fresh(keyBlock) && fresh(innerDigest) && IsZero()
    {
      keyBlock := new byte[MAX_BLOCK_BYTES](_ => 0);
      innerDigest := new byte[MAX_DIGEST_BYTES](_ => 0);
    }

    ghost predicate WellFormed()
    {
      && keyBlock.Length == MAX_BLOCK_BYTES && innerDigest.Length == MAX_DIGEST_BYTES
      && keyBlock != innerDigest
    }

    ghost predicate IsZero()
      reads keyBlock, innerDigest
    {
      WellFormed() && keyBlock[..] == Zeros(MAX_BLOCK_BYTES) && innerDigest[..] == Zeros(MAX_DIGEST_BYTES)
    }

    method Erase()
      requires WellFormed()
      modifies keyBlock, innerDigest
      ensures IsZero()
    {
      Zeroize(keyBlock);
      Zeroize(innerDigest);
    }
  }

  method XorInPlace(a: array<byte>, n: nat, b: byte)
    requires n <= a.Length
    modifies a
    ensures a[..] == XorEach(old(a[..n]), b) + old(a[n..])
  {
    for i := 0 to n
      invariant forall j :: 0 <= j < i ==> a[j] == Xor(old(a[j]), b)
      invariant forall j :: i <= j < a.Length ==> a[j] == old(a[j])
    {
      a[i] := Xor(a[i], b);
    }
  }

  /** Puts the key, or its digest when it is longer than a block, into the zeroed key block. */
  method LoadKey(h: Hash, key: seq<byte>, scratch: HmacScratch)
    requires scratch.IsZero() && Hashable(h.alg, |key|)
    modifies scratch.keyBlock, scratch.innerDigest
    ensures scratch.keyBlock[..h.alg.BlockLen()] == KeyBlock(h, key)
    ensures scratch.innerDigest[..] == Zeros(MAX_DIGEST_BYTES)
  {
    hide Digest, Flatten, Hashable;
    var size, short := h.alg.BlockLen(), key;
    if |key| > size {
      FlattenFew(key, [], []);
      HashParts(h, [key], scratch.innerDigest);
      short := scratch.innerDigest[..h.alg.DigestLen()];
      assert short == Digest(h, key);
      Zeroize(scratch.innerDigest);
    }
    CopyInto(scratch.keyBlock, 0, short);
    ZeroPadded(scratch.keyBlock[..], short, size);
  }

  /** Masks the loaded key with the inner pad and hashes it with the message. */
  method InnerHash(h: Hash, parts: seq<seq<byte>>, scratch: HmacScratch, ghost k: seq<byte>)
    requires scratch.WellFormed() && |k| == h.alg.BlockLen() && scratch.keyBlock[..|k|] == k
    requires Hashable(h.alg, h.alg.BlockLen() + |Flatten(parts)|)
    modifies scratch.keyBlock, scratch.innerDigest
    ensures scratch.keyBlock[..|k|] == XorEach(k, 0x36)
    ensures scratch.innerDigest[..h.alg.DigestLen()] == Digest(h, XorEach(k, 0x36) + Flatten(parts))
  {
    hide Digest, XorEach, Flatten, Xor;
    var size := h.alg.BlockLen();
    XorInPlace(scratch.keyBlock, size, 0x36);
    FlattenPrepend(scratch.keyBlock[..size], parts);
    HashParts(h, [scratch.keyBlock[..size]] + parts, scratch.innerDigest);
  }

  /** Re-masks the key in place with the outer pad and hashes it with the inner digest. */
  method OuterHash(h: Hash, scratch: HmacScratch, ghost k: seq<byte>) returns (mac: seq<byte>)
    requires scratch.WellFormed() && |k| == h.alg.BlockLen() && scratch.keyBlock[..|k|] == XorEach(k, 0x36)
    modifies scratch.keyBlock
    ensures mac == Digest(h, XorEach(k, 0x5c) + scratch.innerDigest[..h.alg.DigestLen()])
  {
    hide Digest, XorEach, Flatten, Xor;
    var size, length := h.alg.BlockLen(), h.alg.DigestLen();
    XorInPlace(scratch.keyBlock, size, Xor(0x36, 0x5c));
    Remask(k);
    var outer := [scratch.keyBlock[..size], scratch.innerDigest[..length]];
    FlattenFew(outer[0], outer[1], []);
    var digest := new byte[MAX_DIGEST_BYTES];
    HashParts(h, outer, digest);
    mac := digest[..length];
  }

  /** Writes the MAC of the concatenated parts to the first `length` bytes of `output`. */
  method MacInto(h: Hash, key: seq<byte>, parts: seq<seq<byte>>, scratch: HmacScratch,
                 output: array<byte>, length: nat)
    requires scratch.WellFormed() && output != scratch.keyBlock && output != scratch.innerDigest
    requires length == h.alg.DigestLen() <= output.Length
    requires Macable(h, key, |Flatten(parts)|)
    modifies scratch.keyBlock, scratch.innerDigest, output
    ensures output[..] == Mac(h, key, Flatten(parts)) + old(output[length..])
  {
    hide Digest, KeyBlock, XorEach, Flatten;
    scratch.Erase();
    Fill(output, 0, length, 0);
    LoadKey(h, key, scratch);
    ghost var k := KeyBlock(h, key);
    InnerHash(h, parts, scratch, k);
    var mac := OuterHash(h, scratch, k);
    CopyInto(output, 0, mac);
  }

  /**
   * The guarded entry point. `length` is the caller's output length and `commit` the verdict of the
   * caller's hook. The scratch is zero on every return; the output is the MAC or all zero.
   */
  method MacWithScratch(h: Hash, key: seq<byte>, parts: seq<seq<byte>>, output: array<byte>, length: nat,
                        scratch: HmacScratch, commit: bool)
    returns (ok: bool)
    requires scratch.WellFormed() && output != scratch.keyBlock && output != scratch.innerDigest
    requires length <= output.Length
    requires Macable(h, key, |Flatten(parts)|)
    modifies scratch.keyBlock, scratch.innerDigest, output
    ensures scratch.IsZero()
    ensures ok <==> length == h.alg.DigestLen() && commit
    ensures output[..] == (if ok then Mac(h, key, Flatten(parts)) else Zeros(length)) + old(output[length..])
  {
    hide Mac;
    scratch.Erase();
    if length != h.alg.DigestLen() {
      ZeroizePrefix(output, length);
      return false;
    }
    MacInto(h, key, parts, scratch, output, length);
    if !commit {
      assert output[length..] == old(output[length..]);
      ZeroizePrefix(output, length);
    }
    scratch.Erase();
    return commit;
  }
}
