/** HKDF: extract with the salt as HMAC key, expand by chaining numbered blocks. */
module Hkdf {
  import opened Bytes
  import opened Buffers
  import opened Sha2
  import opened SecretHash
  import opened Hmac

  // ---- Sections 2.2 and 2.3 of RFC 5869 ----

  function T(h: Hash, prk: seq<byte>, info: seq<byte>, i: nat): (t: seq<byte>)
    ensures |t| == if i == 0 then 0 else h.alg.DigestLen()
  {
    if i == 0 then [] else Mac(h, prk, T(h, prk, info, i - 1) + info + [i % 256])
  }

  function Blocks(h: Hash, prk: seq<byte>, info: seq<byte>): (f: nat -> seq<byte>)
    ensures forall i :: i >= 1 ==> |f(i)| == h.alg.DigestLen()
    ensures forall i :: f(i) == T(h, prk, info, i)
  {
    i => T(h, prk, info, i)
  }

  function OutputKey(h: Hash, ikm: seq<byte>, salt: seq<byte>, info: seq<byte>, length: nat): (okm: seq<byte>)
    ensures |okm| == length
  {
    Take(Blocks(h, Mac(h, salt, ikm), info), h.alg.DigestLen(), length)
  }

  /** A shorter request is a prefix of a longer one. */
  lemma ShorterIsPrefix(h: Hash, ikm: seq<byte>, salt: seq<byte>, info: seq<byte>, short: nat, long: nat)
    requires short <= long
    ensures OutputKey(h, ikm, salt, info, short) == OutputKey(h, ikm, salt, info, long)[..short]
  {
    TakeIsPrefix(Blocks(h, Mac(h, salt, ikm), info), h.alg.DigestLen(), short, long);
  }

  /** Each whole block of the output is the MAC of the block before it, the info and its own number. */
  lemma OutputBlock(h: Hash, ikm: seq<byte>, salt: seq<byte>, info: seq<byte>, length: nat, i: nat, at: nat)
    requires 1 <= i <= 255 && at == (i - 1) * h.alg.DigestLen() && at + h.alg.DigestLen() <= length
    ensures i > 1 ==> at >= h.alg.DigestLen()
    ensures var okm, size := OutputKey(h, ikm, salt, info, length), h.alg.DigestLen();
            var before := if i == 1 then [] else okm[at - size..at];
            okm[at..at + size] == Mac(h, Mac(h, salt, ikm), before + info + [i])
  {
    hide Mac, Take;
    var prk, size := Mac(h, salt, ikm), h.alg.DigestLen();
    TakeBlock(Blocks(h, prk, info), size, length, i);
    if i > 1 {
      assert at == (i - 2) * size + size;
      TakeBlock(Blocks(h, prk, info), size, length, i - 1);
    }
  }

  /** The native build replaces an empty salt by HashLen zeros before extracting. */
  function NativeSalt(h: Hash, salt: seq<byte>): (r: seq<byte>)
    ensures salt == [] ==> |r| == h.alg.DigestLen() && forall i :: 0 <= i < |r| ==> r[i] == 0
    ensures salt != [] ==> r == salt
  {
    if salt == [] then Zeros(h.alg.DigestLen()) else salt
  }

  /** The browser build passes the empty salt on; both builds derive the same key. */
  lemma SaltRulesAgree(h: Hash, ikm: seq<byte>, salt: seq<byte>, info: seq<byte>, length: nat)
    ensures OutputKey(h, ikm, NativeSalt(h, salt), info, length) == OutputKey(h, ikm, salt, info, length)
  {
    if salt == [] {
      ZeroExtendedKey(h, [], h.alg.DigestLen(), ikm);
      assert [] + Zeros(h.alg.DigestLen()) == Zeros(h.alg.DigestLen());
    }
  }

  // ---- Implementation ----

  /** Computes T(counter) from T(counter - 1) in place. */
  method Advance(h: Hash, ghost key: seq<byte>, info: seq<byte>, counter: nat, prk: array<byte>,
                 previous: array<byte>, previousLen: nat, scratch: HmacScratch)
    requires scratch.WellFormed() && prk.Length == previous.Length == MAX_DIGEST_BYTES
    requires previous != scratch.keyBlock && previous != scratch.innerDigest
    requires 1 <= counter <= 255 && previousLen == |T(h, key, info, counter - 1)| <= MAX_DIGEST_BYTES
    requires prk[..h.alg.DigestLen()] == key
    requires previous[..previousLen] == T(h, key, info, counter - 1)
    requires Macable(h, key, h.alg.DigestLen() + |info| + 1)
    modifies previous, scratch.keyBlock, scratch.innerDigest
    ensures previous[..h.alg.DigestLen()] == T(h, key, info, counter)
  {
    hide Mac, Flatten;
    var size := h.alg.DigestLen();
    var next := new byte[MAX_DIGEST_BYTES](_ => 0);
    var parts := [previous[..previousLen], info, [counter]];
    FlattenFew(parts[0], info, [counter]);
    var ok := MacWithScratch(h, prk[..size], parts, next, size, scratch, true);
    CopyInto(previous, 0, next[..size]);
    Zeroize(next);
  }

  /** The expand loop. */
  method Expand(h: Hash, ghost key: seq<byte>, info: seq<byte>, prk: array<byte>, scratch: HmacScratch,
                output: array<byte>)
    requires scratch.WellFormed() && prk.Length == MAX_DIGEST_BYTES && prk[..h.alg.DigestLen()] == key
    requires output != scratch.keyBlock && output != scratch.innerDigest && output != prk
    requires prk != scratch.keyBlock && prk != scratch.innerDigest
    requires output.Length <= 255 * h.alg.DigestLen() && Macable(h, key, h.alg.DigestLen() + |info| + 1)
    modifies output, scratch.keyBlock, scratch.innerDigest
    ensures output[..] == Take(Blocks(h, key, info), h.alg.DigestLen(), output.Length)
  {
    hide T, Macable, Blocks;
    var size := h.alg.DigestLen();
    ghost var block := Blocks(h, key, info);
    var previous := new byte[MAX_DIGEST_BYTES](_ => 0);
    var previousLen, written: nat := 0, 0;
    var count := CeilDiv(output.Length, size);
    CeilDivCovers(output.Length, size);
    assert count <= 255;
    hide CeilDiv;
    for counter := 1 to count + 1
      invariant prk[..size] == key
      invariant previousLen == |T(h, key, info, counter - 1)| <= MAX_DIGEST_BYTES
      invariant previous[..previousLen] == T(h, key, info, counter - 1)
      invariant written <= output.Length && written <= |Stream(block, counter - 1)|
      invariant output[..written] == Stream(block, counter - 1)[..written]
      invariant written == |Stream(block, counter - 1)| || written == output.Length
    {
      assert counter <= 255;  // the one-byte counter never overflows
      Advance(h, key, info, counter, prk, previous, previousLen, scratch);
      previousLen := size;
      written := Append(output, written, previous[..size], Stream(block, counter - 1));
    }
    StreamLength(block, size, count);
    assert output[..] == output[..written];
  }

  /**
   * The browser HKDF. `commit` is the verdict of the hook that runs after the extract step. On
   * success the output is the RFC's output keying material, on every error it is all zero.
   */
  method Derive(h: Hash, ikm: seq<byte>, salt: seq<byte>, info: seq<byte>, output: array<byte>, commit: bool)
    returns (ok: bool)
    requires Macable(h, salt, |ikm|) && Hashable(h.alg, h.alg.BlockLen() + h.alg.DigestLen() + |info| + 1)
    modifies output
    ensures ok <==> output.Length <= 255 * h.alg.DigestLen() && commit
    ensures output[..] == if ok then OutputKey(h, ikm, salt, info, output.Length) else Zeros(output.Length)
  {
    hide Mac, Flatten, Take, Blocks;
    var size := h.alg.DigestLen();
    if output.Length > 255 * size {
      Zeroize(output);
      return false;
    }
    var scratch := new HmacScratch();
    var prk := new byte[MAX_DIGEST_BYTES](_ => 0);
    FlattenFew(ikm, [], []);
    var extracted := MacWithScratch(h, salt, [ikm], prk, size, scratch, true);
    if !commit {
      Zeroize(output);
      return false;
    }
    Expand(h, Mac(h, salt, ikm), info, prk, scratch, output);
    return true;
  }
}
