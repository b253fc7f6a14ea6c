/** PBKDF2 with an HMAC pseudorandom function. */
module Pbkdf2 {
  import opened Bytes
  import opened Buffers
  import opened Sha2
  import opened SecretHash
  import opened Hmac

  // ---- Section 5.2 of RFC 8018 ----

  /** U_j of block i, for j >= 1. */
  function U(h: Hash, password: seq<byte>, salt: seq<byte>, i: nat, j: nat): (u: seq<byte>)
    requires j >= 1
    ensures |u| == h.alg.DigestLen()
  {
    if j == 1 then Mac(h, password, salt + BigEndian(i, 4))
    else Mac(h, password, U(h, password, salt, i, j - 1))
  }

  /** U_1 xor U_2 xor ... xor U_c */
  function F(h: Hash, password: seq<byte>, salt: seq<byte>, c: nat, i: nat): (f: seq<byte>)
    requires c >= 1
    ensures |f| == h.alg.DigestLen()
  {
    if c == 1 then U(h, password, salt, i, 1)
    else XorSeq(F(h, password, salt, c - 1, i), U(h, password, salt, i, c))
  }

  function Blocks(h: Hash, password: seq<byte>, salt: seq<byte>, c: nat): (f: nat -> seq<byte>)
    requires c >= 1
    ensures forall i :: |f(i)| == h.alg.DigestLen()
    ensures forall i :: f(i) == F(h, password, salt, c, i)
  {
    i => F(h, password, salt, c, i)
  }

  function DerivedKey(h: Hash, password: seq<byte>, salt: seq<byte>, c: nat, length: nat): (dk: seq<byte>)
    requires c >= 1
    ensures |dk| == length
  {
    Take(Blocks(h, password, salt, c), h.alg.DigestLen(), length)
  }

  /** A shorter request is a prefix of a longer one. */
  lemma ShorterIsPrefix(h: Hash, password: seq<byte>, salt: seq<byte>, c: nat, short: nat, long: nat)
    requires c >= 1 && short <= long
    ensures DerivedKey(h, password, salt, c, short) == DerivedKey(h, password, salt, c, long)[..short]
  {
    TakeIsPrefix(Blocks(h, password, salt, c), h.alg.DigestLen(), short, long);
  }

  /** The exclusive or of byte `o` of all rows. */
  function XorColumn(us: seq<seq<byte>>, o: nat): byte
    requires us != [] && forall j :: 0 <= j < |us| ==> o < |us[j]|
  {
    if |us| == 1 then us[0][o] else Xor(us[0][o], XorColumn(us[1..], o))
  }

  lemma {:induction false} XorColumnLast(us: seq<seq<byte>>, o: nat)
    requires |us| >= 2 && forall j :: 0 <= j < |us| ==> o < |us[j]|
    ensures XorColumn(us, o) == Xor(XorColumn(us[..|us| - 1], o), us[|us| - 1][o])
  {
    hide Xor;
    var n := |us| - 1;
    var init, rest := us[..n], us[1..];
    if n == 1 {
      assert rest == [us[1]] && init == [us[0]];
    } else {
      XorColumnLast(rest, o);
      assert init[1..] == rest[..n - 1];
      XorLaws(us[0][o], XorColumn(rest[..n - 1], o), us[n][o]);
    }
  }

  /** A chain of MACs under the password, started from the salt and the block number. */
  ghost predicate IsChain(h: Hash, password: seq<byte>, salt: seq<byte>, i: nat, us: seq<seq<byte>>) {
    && us != [] && us[0] == Mac(h, password, salt + BigEndian(i, 4))
    && forall j :: 1 <= j < |us| ==> us[j] == Mac(h, password, us[j - 1])
  }

  lemma {:induction false} ChainIsU(h: Hash, password: seq<byte>, salt: seq<byte>, i: nat, us: seq<seq<byte>>, o: nat)
    requires IsChain(h, password, salt, i, us) && o < h.alg.DigestLen()
    ensures us[|us| - 1] == U(h, password, salt, i, |us|)
    ensures forall j :: 0 <= j < |us| ==> |us[j]| == h.alg.DigestLen()
    ensures F(h, password, salt, |us|, i)[o] == XorColumn(us, o)
  {
    hide Mac, BigEndian, Xor;
    if |us| > 1 {
      var n := |us| - 1;
      assert forall j :: 0 <= j < n ==> us[..n][j] == us[j];
      ChainIsU(h, password, salt, i, us[..n], o);
      assert us[n] == U(h, password, salt, i, n + 1);
      XorColumnLast(us, o);
    }
  }

  /** Each output byte is the exclusive or of its column in the chain of its block. */
  lemma OutputByte(h: Hash, password: seq<byte>, salt: seq<byte>, length: nat, i: nat, us: seq<seq<byte>>, o: nat,
                   at: nat)
    requires i >= 1 && IsChain(h, password, salt, i, us)
    requires o < h.alg.DigestLen() && at == (i - 1) * h.alg.DigestLen() + o < length
    ensures forall j :: 0 <= j < |us| ==> |us[j]| == h.alg.DigestLen()
    ensures DerivedKey(h, password, salt, |us|, length)[at] == XorColumn(us, o)
  {
    assert us != [];
    hide Take, IsChain, F, XorColumn;
    ChainIsU(h, password, salt, i, us, o);
    TakeByte(Blocks(h, password, salt, |us|), h.alg.DigestLen(), length, i, o, at);
  }

  // ---- Implementation ----

  /** One HMAC step: replaces the first digest of `target` by the MAC of the parts. */
  method Prf(h: Hash, password: seq<byte>, parts: seq<seq<byte>>, target: array<byte>, scratch: HmacScratch)
    requires scratch.WellFormed() && target != scratch.keyBlock && target != scratch.innerDigest
    requires target.Length == MAX_DIGEST_BYTES && Macable(h, password, |Flatten(parts)|)
    modifies target, scratch.keyBlock, scratch.innerDigest
    ensures target[..h.alg.DigestLen()] == Mac(h, password, Flatten(parts))
  {
    hide Mac, Flatten;
    var ok := MacWithScratch(h, password, parts, target, h.alg.DigestLen(), scratch, true);
    assert ok;  // the fixed output length never fails
  }

  /** accumulated[..n] ^= next[..n] */
  method Accumulate(accumulated: array<byte>, next: array<byte>, n: nat)
    requires n <= accumulated.Length && n <= next.Length && accumulated != next
    modifies accumulated
    ensures accumulated[..n] == XorSeq(old(accumulated[..n]), next[..n])
  {
    for index := 0 to n
      invariant forall j :: 0 <= j < index ==> accumulated[j] == Xor(old(accumulated[j]), next[j])
      invariant forall j :: index <= j < accumulated.Length ==> accumulated[j] == old(accumulated[j])
    {
      accumulated[index] := Xor(accumulated[index], next[index]);
    }
  }

  lemma NextTurn(h: Hash, password: seq<byte>, salt: seq<byte>, i: nat, j: nat)
    requires j >= 1
    ensures U(h, password, salt, i, j + 1) == Mac(h, password, U(h, password, salt, i, j))
    ensures F(h, password, salt, j + 1, i) == XorSeq(F(h, password, salt, j, i), U(h, password, salt, i, j + 1))
  {
  }


  /** One turn of the inner loop: from U_j and the sum up to it to the next. */
  method Turn(h: Hash, password: seq<byte>, ghost salt: seq<byte>, ghost i: nat, ghost j: nat,
              current: array<byte>, next: array<byte>, accumulated: array<byte>, scratch: HmacScratch)
    requires j >= 1 && scratch.WellFormed() && Macable(h, password, h.alg.DigestLen())
    requires current.Length == next.Length == accumulated.Length == MAX_DIGEST_BYTES
    requires current != next && current != accumulated && next != accumulated
    requires {current, next, accumulated} !! {scratch.keyBlock, scratch.innerDigest}
    requires current[..h.alg.DigestLen()] == U(h, password, salt, i, j)
    requires accumulated[..h.alg.DigestLen()] == F(h, password, salt, j, i)
    modifies current, next, accumulated, scratch.keyBlock, scratch.innerDigest
    ensures current[..h.alg.DigestLen()] == U(h, password, salt, i, j + 1)
    ensures accumulated[..h.alg.DigestLen()] == F(h, password, salt, j + 1, i)
  {
    hide Mac, Flatten, XorSeq, Macable, U, F;
    var size := h.alg.DigestLen();
    NextTurn(h, password, salt, i, j);
    FlattenFew(current[..size], [], []);
    Prf(h, password, [current[..size]], next, scratch);
    Accumulate(accumulated, next, size);
    CopyInto(current, 0, next[..size]);
    Zeroize(next);
  }

  /** The first turn: U(1), alone in the exclusive or. */
  method FirstTurn(h: Hash, password: seq<byte>, salt: seq<byte>, i: nat,
                   current: array<byte>, accumulated: array<byte>, scratch: HmacScratch)
    requires i < 0x1_0000_0000 && scratch.WellFormed() && Macable(h, password, |salt| + 4)
    requires current.Length == accumulated.Length == MAX_DIGEST_BYTES && current != accumulated
    requires {current, accumulated} !! {scratch.keyBlock, scratch.innerDigest}
    modifies current, accumulated, scratch.keyBlock, scratch.innerDigest
    ensures current[..h.alg.DigestLen()] == U(h, password, salt, i, 1)
    ensures accumulated[..h.alg.DigestLen()] == F(h, password, salt, 1, i)
  {
    hide Mac, Flatten, XorSeq, BigEndian, Macable;
    FlattenFew(salt, BigEndian(i, 4), []);
    Prf(h, password, [salt, BigEndian(i, 4)], current, scratch);
    CopyInto(accumulated, 0, current[..h.alg.DigestLen()]);
  }

  /** The inner loop: leaves F(password, salt, iterations, i) in `accumulated`. */
  method Iterate(h: Hash, password: seq<byte>, salt: seq<byte>, iterations: nat, i: nat,
                 accumulated: array<byte>, scratch: HmacScratch)
    requires iterations >= 1 && i < 0x1_0000_0000
    requires scratch.WellFormed() && accumulated.Length == MAX_DIGEST_BYTES
    requires accumulated != scratch.keyBlock && accumulated != scratch.innerDigest
    requires Macable(h, password, |salt| + 4) && Macable(h, password, h.alg.DigestLen())
    modifies accumulated, scratch.keyBlock, scratch.innerDigest
    ensures accumulated[..h.alg.DigestLen()] == F(h, password, salt, iterations, i)
  {
    hide Macable, U, F;
    var size := h.alg.DigestLen();
    var current := new byte[MAX_DIGEST_BYTES](_ => 0);
    var next := new byte[MAX_DIGEST_BYTES](_ => 0);
    FirstTurn(h, password, salt, i, current, accumulated, scratch);
    for j := 1 to iterations
      invariant current[..size] == U(h, password, salt, i, j)
      invariant accumulated[..size] == F(h, password, salt, j, i)
    {
      Turn(h, password, salt, i, j, current, next, accumulated, scratch);
    }
  }

  /** The source asserts a nonzero iteration count and a 32-bit block count. */
  method Derive(h: Hash, password: seq<byte>, salt: seq<byte>, iterations: nat, output: array<byte>)
    requires iterations >= 1 && CeilDiv(output.Length, h.alg.DigestLen()) < 0x1_0000_0000
    requires Macable(h, password, |salt| + 4) && Macable(h, password, h.alg.DigestLen())
    modifies output
    ensures output[..] == DerivedKey(h, password, salt, iterations, output.Length)
  {
    hide F, U;
    var size := h.alg.DigestLen();
    var count := CeilDiv(output.Length, size);
    ghost var block := Blocks(h, password, salt, iterations);
    CeilDivCovers(output.Length, size);
    var scratch := new HmacScratch();
    var accumulated := new byte[MAX_DIGEST_BYTES](_ => 0);
    var written: nat := 0;
    for i := 1 to count + 1
      invariant scratch.WellFormed()
      invariant fresh(scratch.keyBlock) && fresh(scratch.innerDigest) && fresh(accumulated)
      invariant written <= output.Length && written <= |Stream(block, i - 1)|
      invariant output[..written] == Stream(block, i - 1)[..written]
      invariant written == |Stream(block, i - 1)| || written == output.Length
    {
      Iterate(h, password, salt, iterations, i, accumulated, scratch);
      written := Append(output, written, accumulated[..size], Stream(block, i - 1));
    }
    StreamLength(block, size, count);
    assert output[..] == output[..written];
  }
}
