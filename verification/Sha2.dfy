/** The SHA-2 family as FIPS 180-4 defines it, over an arbitrary compression function. */
module Sha2 {
  import opened Bytes

  datatype Algorithm = Sha256 | Sha384 | Sha512 {

    function BlockLen(): (n: nat)
      ensures n == 64 || n == 128
    {
      if Sha256? then 64 else 128
    }

    function DigestLen(): nat {
      match this
      case Sha256 => 32
      case Sha384 => 48
      case Sha512 => 64
    }

    /** Bytes in one word of the chaining value. */
    function WordLen(): nat {
      if Sha256? then 4 else 8
    }

    /** Bytes in the length field that ends the padding. */
    function LengthLen(): nat {
      if Sha256? then 8 else 16
    }

    /** One more than the largest value of the message-length counter (u64 or u128). */
    function CounterLimit(): (n: nat)
      ensures n == Pow256(LengthLen())
    {
      Pow256Values();
      if Sha256? then 0x1_0000_0000_0000_0000 else 0x1_0000_0000_0000_0000_0000_0000_0000_0000
    }
  }

  type Chain = s: seq<nat> | |s| == 8 witness [0, 0, 0, 0, 0, 0, 0, 0]

  /** An algorithm together with its compression function, about which nothing is assumed. */
  datatype Hash = Hash(alg: Algorithm, compress: (Chain, seq<byte>) -> Chain)

  const SHA256_INITIAL_STATE: Chain := [
    0x6a09_e667, 0xbb67_ae85, 0x3c6e_f372, 0xa54f_f53a,
    0x510e_527f, 0x9b05_688c, 0x1f83_d9ab, 0x5be0_cd19
  ]

  const SHA384_INITIAL_STATE: Chain := [
    0xcbbb_9d5d_c105_9ed8, 0x629a_292a_367c_d507, 0x9159_015a_3070_dd17, 0x152f_ecd8_f70e_5939,
    0x6733_2667_ffc0_0b31, 0x8eb4_4a87_6858_1511, 0xdb0c_2e0d_64f9_8fa7, 0x47b5_481d_befa_4fa4
  ]

  const SHA512_INITIAL_STATE: Chain := [
    0x6a09_e667_f3bc_c908, 0xbb67_ae85_84ca_a73b, 0x3c6e_f372_fe94_f82b, 0xa54f_f53a_5f1d_36f1,
    0x510e_527f_ade6_82d1, 0x9b05_688c_2b3e_6c1f, 0x1f83_d9ab_fb41_bd6b, 0x5be0_cd19_137e_2179
  ]

  function InitialState(alg: Algorithm): Chain {
    match alg
    case Sha256 => SHA256_INITIAL_STATE
    case Sha384 => SHA384_INITIAL_STATE
    case Sha512 => SHA512_INITIAL_STATE
  }

  /** `length` is a whole number of blocks. */
  predicate Whole(alg: Algorithm, length: nat) {
    length == 0 || (length >= alg.BlockLen() && Whole(alg, length - alg.BlockLen()))
  }

  lemma {:induction false} WholeIsMultiple(alg: Algorithm, length: nat)
    ensures Whole(alg, length) <==> if alg.Sha256? then length % 64 == 0 else length % 128 == 0
  {
    if length >= alg.BlockLen() {
      WholeIsMultiple(alg, length - alg.BlockLen());
      if alg.Sha256? { OneBlockLess64(length); } else { OneBlockLess128(length); }
    }
  }

  lemma OneBlockLess64(length: nat)
    requires length >= 64
    ensures length % 64 == (length - 64) % 64
  {
  }

  lemma OneBlockLess128(length: nat)
    requires length >= 128
    ensures length % 128 == (length - 128) % 128
  {
  }

  /** The chaining value after a whole number of blocks. */
  function Fold(h: Hash, m: seq<byte>): Chain
    requires Whole(h.alg, |m|)
  {
    if m == [] then InitialState(h.alg)
    else
      var cut := |m| - h.alg.BlockLen();
      h.compress(Fold(h, m[..cut]), m[cut..])
  }

  lemma FoldAppend(h: Hash, m: seq<byte>, b: seq<byte>)
    requires Whole(h.alg, |m|) && |b| == h.alg.BlockLen()
    ensures Whole(h.alg, |m + b|)
    ensures Fold(h, m + b) == h.compress(Fold(h, m), b)
  {
    assert (m + b)[..|m|] == m && (m + b)[|m|..] == b;
  }

  /** Zero bytes between the 0x80 marker and the length field. */
  function PadZeros(alg: Algorithm, length: nat): (k: nat)
    ensures k < alg.BlockLen()
    ensures Whole(alg, length + 1 + k + alg.LengthLen())
  {
    var k := if alg.Sha256? then (55 - length) % 64 else (111 - length) % 128;
    WholeIsMultiple(alg, length + 1 + k + alg.LengthLen());
    UpTo64(length);
    UpTo128(length);
    k
  }

  lemma UpTo64(length: nat)
    ensures (length + 1 + (55 - length) % 64 + 8) % 64 == 0
  {
  }

  lemma UpTo128(length: nat)
    ensures (length + 1 + (111 - length) % 128 + 16) % 128 == 0
  {
  }

  lemma PadZerosUnique(alg: Algorithm, length: nat, k: nat, whole: nat)
    requires k < alg.BlockLen()
    requires Whole(alg, whole) && whole + alg.BlockLen() == length + 1 + k + alg.LengthLen()
    ensures k == PadZeros(alg, length)
  {
    WholeIsMultiple(alg, whole);
    hide Whole;
    if alg.Sha256? { Only64(length, k, whole); } else { Only128(length, k, whole); }
  }

  lemma Only64(length: nat, k: nat, whole: nat)
    requires k < 64 && whole % 64 == 0 && whole + 64 == length + 1 + k + 8
    ensures k == (55 - length) % 64
  {
  }

  lemma Only128(length: nat, k: nat, whole: nat)
    requires k < 128 && whole % 128 == 0 && whole + 128 == length + 1 + k + 16
    ensures k == (111 - length) % 128
  {
  }

  /** Sections 5.1.1 and 5.1.2 of FIPS 180-4. */
  function Pad(alg: Algorithm, m: seq<byte>): (p: seq<byte>)
    ensures Whole(alg, |p|)
    ensures m < p
  {
    m + [0x80] + Zeros(PadZeros(alg, |m|)) + BigEndian(8 * |m|, alg.LengthLen())
  }

  function Serialize(words: seq<nat>, wordLen: nat): (s: seq<byte>)
    ensures |s| == |words| * wordLen
  {
    if words == [] then []
    else
      assert |words| * wordLen == (|words| - 1) * wordLen + wordLen;
      Serialize(words[..|words| - 1], wordLen) + BigEndian(words[|words| - 1], wordLen)
  }

  /** Word `i` is at its place, big-endian. */
  lemma {:induction false} SerializeWord(words: seq<nat>, wordLen: nat, i: nat)
    requires i < |words|
    ensures i * wordLen + wordLen <= |Serialize(words, wordLen)|
    ensures Serialize(words, wordLen)[i * wordLen..i * wordLen + wordLen] == BigEndian(words[i], wordLen)
  {
    hide BigEndian;
    var n := |words| - 1;
    var init := Serialize(words[..n], wordLen);
    assert Serialize(words, wordLen) == init + BigEndian(words[n], wordLen);
    if i < n {
      SerializeWord(words[..n], wordLen, i);
    }
  }

  /** The whole chaining value, before SHA-384 drops its last two words. */
  function FullDigest(h: Hash, m: seq<byte>): (d: seq<byte>)
    ensures |d| == 8 * h.alg.WordLen() && |d| >= h.alg.DigestLen()
  {
    Serialize(Fold(h, Pad(h.alg, m)), h.alg.WordLen())
  }

  /** Section 6 of FIPS 180-4. */
  function Digest(h: Hash, m: seq<byte>): (d: seq<byte>)
    ensures |d| == h.alg.DigestLen()
  {
    FullDigest(h, m)[..h.alg.DigestLen()]
  }

  /** The digest is the final chaining value, word by word from the first, big-endian. */
  lemma DigestWord(h: Hash, m: seq<byte>, i: nat)
    requires i * h.alg.WordLen() + h.alg.WordLen() <= h.alg.DigestLen()
    ensures i < 8
    ensures Digest(h, m)[i * h.alg.WordLen()..i * h.alg.WordLen() + h.alg.WordLen()]
            == BigEndian(Fold(h, Pad(h.alg, m))[i], h.alg.WordLen())
  {
    hide Serialize, Fold, Pad, BigEndian;
    assert i < 8;
    SerializeWord(Fold(h, Pad(h.alg, m)), h.alg.WordLen(), i);
  }

  /** The length fits the length field, so the padding is well defined. */
  predicate Hashable(alg: Algorithm, length: nat) {
    8 * length < alg.CounterLimit()
  }

  /** The padded message: itself, the marker bit, zeros, and at the end its length in bits. */
  lemma PadLayout(alg: Algorithm, m: seq<byte>)
    requires Hashable(alg, |m|)
    ensures var p, l := Pad(alg, m), alg.LengthLen();
      && |m| + 1 + l <= |p| < |m| + 1 + l + alg.BlockLen()
      && p[..|m|] == m && p[|m|] == 0x80
      && (forall i :: |m| < i < |p| - l ==> p[i] == 0)
      && Number(p[|p| - l..]) == 8 * |m|
  {
    hide Number, BigEndian, Pow256, Whole;
    var p, l := Pad(alg, m), alg.LengthLen();
    NumberOfBigEndian(8 * |m|, l);
    assert p[|p| - l..] == BigEndian(8 * |m|, l);
  }

  /** No padded message ends another one: distinct messages never share a final run of blocks. */
  lemma PadSuffixFree(alg: Algorithm, a: seq<byte>, b: seq<byte>, front: seq<byte>)
    requires Hashable(alg, |a|) && Hashable(alg, |b|)
    requires Pad(alg, a) == front + Pad(alg, b)
    ensures a == b && front == []
  {
    var p, q, l := Pad(alg, a), Pad(alg, b), alg.LengthLen();
    assert p[|p| - l..] == BigEndian(8 * |a|, l);
    assert q[|q| - l..] == BigEndian(8 * |b|, l);
    assert p[|p| - l..] == q[|q| - l..];
    BigEndianInjective(8 * |a|, 8 * |b|, l);
    assert |p| == |q|;
    assert p[..|a|] == a && q[..|b|] == b;
  }

  /** Two different inputs on which the compression function agrees. */
  ghost predicate Collision(h: Hash, s: Chain, x: seq<byte>, t: Chain, y: seq<byte>) {
    (s != t || x != y) && h.compress(s, x) == h.compress(t, y)
  }

  ghost predicate Collides(h: Hash) {
    exists s, x, t, y :: Collision(h, s, x, t, y)
  }

  /** Equal chaining values come from a common ending or from a collision. */
  lemma {:induction false} FoldCollision(h: Hash, p: seq<byte>, q: seq<byte>)
    requires Whole(h.alg, |p|) && Whole(h.alg, |q|)
    requires |q| <= |p|
    requires Fold(h, p) == Fold(h, q)
    ensures q == p[|p| - |q|..] || Collides(h)
    decreases |p|
  {
    if q != [] {
      var i, j := |p| - h.alg.BlockLen(), |q| - h.alg.BlockLen();
      var s, t := Fold(h, p[..i]), Fold(h, q[..j]);
      if s != t || p[i..] != q[j..] {
        assert Collision(h, s, p[i..], t, q[j..]);
      } else {
        FoldCollision(h, p[..i], q[..j]);
        if q[..j] == p[..i][i - j..] {
          assert p[i - j..] == p[..i][i - j..] + p[i..];
          assert q == q[..j] + q[j..];
        }
      }
    }
  }

  /**
   * What the length-strengthened padding is for: two messages with the same final chaining value
   * are equal or exhibit a collision of the compression function itself.
   */
  lemma ChainingValueCollision(h: Hash, a: seq<byte>, b: seq<byte>)
    requires Hashable(h.alg, |a|) && Hashable(h.alg, |b|)
    requires Fold(h, Pad(h.alg, a)) == Fold(h, Pad(h.alg, b))
    ensures a == b || Collides(h)
  {
    var (m, n) := if |Pad(h.alg, b)| <= |Pad(h.alg, a)| then (a, b) else (b, a);
    var p, q := Pad(h.alg, m), Pad(h.alg, n);
    FoldCollision(h, p, q);
    if q == p[|p| - |q|..] {
      PadSuffixFree(h.alg, m, n, p[..|p| - |q|]);
    }
  }

  // ---- The initial states ----

  /** `word` is the fraction of the square root of `p`, in units of 1 / `scale`; `whole` is its integer part. */
  predicate RootFraction(p: nat, whole: nat, word: nat, scale: nat) {
    && word < scale
    && (whole * scale + word) * (whole * scale + word) <= p * scale * scale
    && p * scale * scale < (whole * scale + word + 1) * (whole * scale + word + 1)
  }

  /** Section 5.3.3 of FIPS 180-4: the first eight primes, 32 bits each. */
  lemma Sha256StateIsRoots()
    ensures var s, c := SHA256_INITIAL_STATE, 0x1_0000_0000;
      && RootFraction(2, 1, s[0], c) && RootFraction(3, 1, s[1], c)
      && RootFraction(5, 2, s[2], c) && RootFraction(7, 2, s[3], c)
      && RootFraction(11, 3, s[4], c) && RootFraction(13, 3, s[5], c)
      && RootFraction(17, 4, s[6], c) && RootFraction(19, 4, s[7], c)
  {
  }

  /** Section 5.3.5 of FIPS 180-4: the first eight primes, 64 bits each. */
  lemma Sha512StateIsRoots()
    ensures var s, c := SHA512_INITIAL_STATE, 0x1_0000_0000_0000_0000;
      && RootFraction(2, 1, s[0], c) && RootFraction(3, 1, s[1], c)
      && RootFraction(5, 2, s[2], c) && RootFraction(7, 2, s[3], c)
      && RootFraction(11, 3, s[4], c) && RootFraction(13, 3, s[5], c)
      && RootFraction(17, 4, s[6], c) && RootFraction(19, 4, s[7], c)
  {
  }

  /** Section 5.3.4 of FIPS 180-4: the ninth to sixteenth prime, 64 bits each. */
  lemma Sha384StateIsRoots()
    ensures var s, c := SHA384_INITIAL_STATE, 0x1_0000_0000_0000_0000;
      && RootFraction(23, 4, s[0], c) && RootFraction(29, 5, s[1], c)
      && RootFraction(31, 5, s[2], c) && RootFraction(37, 6, s[3], c)
      && RootFraction(41, 6, s[4], c) && RootFraction(43, 6, s[5], c)
      && RootFraction(47, 6, s[6], c) && RootFraction(53, 7, s[7], c)
  {
  }
}
