/** Byte strings: concatenation, big-endian numbers, exclusive-or and numbered block streams. */
module Bytes {

  type byte = x: int | 0 <= x < 256

  function Repeat(b: byte, n: nat): (s: seq<byte>)
    ensures |s| == n && forall i :: 0 <= i < n ==> s[i] == b
  {
    seq(n, _ => b)
  }

  function Zeros(n: nat): (s: seq<byte>)
    ensures |s| == n && forall i :: 0 <= i < n ==> s[i] == 0
  {
    Repeat(0, n)
  }

  function Flatten(parts: seq<seq<byte>>): seq<byte> {
    if parts == [] then [] else Flatten(parts[..|parts| - 1]) + parts[|parts| - 1]
  }

  lemma Regroup(a: seq<byte>, b: seq<byte>, c: seq<byte>, d: seq<byte>)
    ensures a + (b + c + d) == (a + b) + c + d
    ensures a + (b + c) == (a + b) + c
  {
  }

  lemma {:induction false} FlattenPrepend(first: seq<byte>, parts: seq<seq<byte>>)
    ensures Flatten([first] + parts) == first + Flatten(parts)
  {
    var all := [first] + parts;
    if parts == [] {
      assert all[..|all| - 1] == [];
    } else {
      assert all[..|all| - 1] == [first] + parts[..|parts| - 1];
      FlattenPrepend(first, parts[..|parts| - 1]);
    }
  }

  lemma FlattenFew(a: seq<byte>, b: seq<byte>, c: seq<byte>)
    ensures Flatten([a]) == a
    ensures Flatten([a, b]) == a + b
    ensures Flatten([a, b, c]) == a + b + c
  {
    assert [a, b][..1] == [a] && [a, b, c][..2] == [a, b];
    assert Flatten([a]) == a;
    assert Flatten([a, b]) == Flatten([a]) + b;
  }

  // ---- Big-endian numbers ----

  function Pow256(n: nat): (p: nat)
    ensures p >= 1
  {
    if n == 0 then 1 else 256 * Pow256(n - 1)
  }

  /** The `width` low-order bytes of `n`, most significant first. */
  function BigEndian(n: nat, width: nat): (s: seq<byte>)
    ensures |s| == width
  {
    if width == 0 then [] else BigEndian(n / 256, width - 1) + [n % 256]
  }

  /** The number a byte string denotes, most significant byte first. */
  function Number(s: seq<byte>): nat {
    if s == [] then 0 else 256 * Number(s[..|s| - 1]) + s[|s| - 1]
  }

  lemma {:induction false} NumberOfBigEndian(n: nat, width: nat)
    requires n < Pow256(width)
    ensures Number(BigEndian(n, width)) == n
  {
    if width > 0 {
      NumberOfBigEndian(n / 256, width - 1);
      var s := BigEndian(n, width);
      assert s[..|s| - 1] == BigEndian(n / 256, width - 1);
    }
  }

  lemma {:induction false} BigEndianOfNumber(s: seq<byte>)
    ensures BigEndian(Number(s), |s|) == s
    ensures Number(s) < Pow256(|s|)
  {
    if s != [] {
      BigEndianOfNumber(s[..|s| - 1]);
      assert s == s[..|s| - 1] + [s[|s| - 1]];
    }
  }

  lemma BigEndianInjective(a: nat, b: nat, width: nat)
    requires a < Pow256(width) && b < Pow256(width)
    requires BigEndian(a, width) == BigEndian(b, width)
    ensures a == b
  {
    NumberOfBigEndian(a, width);
    NumberOfBigEndian(b, width);
  }

  lemma ScaleBounds(lead: nat, p: nat, n: nat, last: byte)
    requires lead * p <= n < (lead + 1) * p
    ensures lead * (256 * p) <= 256 * n + last < (lead + 1) * (256 * p)
  {
    assert lead * (256 * p) == 256 * (lead * p);
    assert (lead + 1) * (256 * p) == 256 * ((lead + 1) * p);
  }

  /** The leading byte decides the order of magnitude. */
  lemma {:induction false} NumberLeads(s: seq<byte>)
    requires s != []
    ensures s[0] * Pow256(|s| - 1) <= Number(s) < (s[0] + 1) * Pow256(|s| - 1)
  {
    if |s| > 1 {
      var init, p := s[..|s| - 1], Pow256(|s| - 2);
      NumberLeads(init);
      ScaleBounds(s[0], p, Number(init), s[|s| - 1]);
    }
  }

  lemma Pow256Values()
    ensures Pow256(4) == 0x1_0000_0000
    ensures Pow256(8) == 0x1_0000_0000_0000_0000
    ensures Pow256(16) == 0x1_0000_0000_0000_0000_0000_0000_0000_0000
  {
    assert Pow256(2) == 0x1_0000;
    assert Pow256(4) == 0x1_0000_0000;
    assert Pow256(6) == 0x1_0000_0000_0000;
    assert Pow256(8) == 0x1_0000_0000_0000_0000;
    assert Pow256(10) == 0x1_0000_0000_0000_0000_0000;
    assert Pow256(12) == 0x1_0000_0000_0000_0000_0000_0000;
    assert Pow256(14) == 0x1_0000_0000_0000_0000_0000_0000_0000;
  }

  // ---- Exclusive-or, bit by bit ----

  function Pow2(n: nat): nat {
    if n == 0 then 1 else 2 * Pow2(n - 1)
  }

  function XorBits(a: nat, b: nat, bits: nat): (r: nat)
    ensures r < Pow2(bits)
  {
    if bits == 0 then 0
    else 2 * XorBits(a / 2, b / 2, bits - 1) + if a % 2 == b % 2 then 0 else 1
  }

  function Xor(a: byte, b: byte): byte {
    assert Pow2(8) == 256 by { assert Pow2(4) == 16; }
    XorBits(a, b, 8)
  }

  lemma {:induction false} XorCommutes(a: nat, b: nat, bits: nat)
    ensures XorBits(a, b, bits) == XorBits(b, a, bits)
  {
    if bits > 0 {
      XorCommutes(a / 2, b / 2, bits - 1);
    }
  }

  lemma {:induction false} XorAssociates(a: nat, b: nat, c: nat, bits: nat)
    ensures XorBits(XorBits(a, b, bits), c, bits) == XorBits(a, XorBits(b, c, bits), bits)
  {
    if bits > 0 {
      var x, y := XorBits(a, b, bits), XorBits(b, c, bits);
      assert x / 2 == XorBits(a / 2, b / 2, bits - 1) && y / 2 == XorBits(b / 2, c / 2, bits - 1);
      XorAssociates(a / 2, b / 2, c / 2, bits - 1);
    }
  }

  lemma {:induction false} XorUnits(a: nat, bits: nat)
    ensures XorBits(a, a, bits) == 0
    ensures a < Pow2(bits) ==> XorBits(a, 0, bits) == a
  {
    if bits > 0 {
      XorUnits(a / 2, bits - 1);
    }
  }

  /** Exclusive-or makes the bytes an abelian group in which every byte is its own inverse. */
  lemma XorLaws(a: byte, b: byte, c: byte)
    ensures Xor(a, b) == Xor(b, a)
    ensures Xor(Xor(a, b), c) == Xor(a, Xor(b, c))
    ensures Xor(a, a) == 0
    ensures Xor(a, 0) == a
    ensures Xor(Xor(a, b), b) == a
  {
    assert Pow2(8) == 256 by { assert Pow2(4) == 16; }
    hide XorBits, Pow2;
    XorCommutes(a, b, 8);
    XorAssociates(a, b, c, 8);
    XorAssociates(a, b, b, 8);
    XorUnits(a, 8);
    XorUnits(b, 8);
  }

  /** Bit `i` of a number. */
  function Bit(n: nat, i: nat): nat {
    if i == 0 then n % 2 else Bit(n / 2, i - 1)
  }

  lemma {:induction false} XorBitsAt(a: nat, b: nat, bits: nat, i: nat)
    requires i < bits
    ensures Bit(XorBits(a, b, bits), i) == if Bit(a, i) == Bit(b, i) then 0 else 1
  {
    var x := XorBits(a / 2, b / 2, bits - 1);
    assert XorBits(a, b, bits) / 2 == x;
    if i > 0 {
      XorBitsAt(a / 2, b / 2, bits - 1, i - 1);
    }
  }

  /** Every bit of the result is set exactly when the two bits differ. */
  lemma XorBitwise(a: byte, b: byte, i: nat)
    requires i < 8
    ensures Bit(Xor(a, b), i) == if Bit(a, i) == Bit(b, i) then 0 else 1
  {
    hide XorBits, Bit;
    XorBitsAt(a, b, 8, i);
  }

  function XorSeq(a: seq<byte>, b: seq<byte>): (r: seq<byte>)
    requires |a| == |b|
    ensures |r| == |a|
    ensures forall i :: 0 <= i < |r| ==> r[i] == Xor(a[i], b[i])
  {
    seq(|a|, i requires 0 <= i < |a| => Xor(a[i], b[i]))
  }

  lemma XorSeqCancels(a: seq<byte>, b: seq<byte>)
    requires |a| == |b|
    ensures XorSeq(XorSeq(a, b), b) == a
    ensures XorSeq(a, Zeros(|a|)) == a
  {
    forall i | 0 <= i < |a|
      ensures XorSeq(XorSeq(a, b), b)[i] == a[i] && XorSeq(a, Zeros(|a|))[i] == a[i]
    {
      XorLaws(a[i], b[i], 0);
    }
  }

  // ---- Numbered block streams ----

  /** block(1) + block(2) + ... + block(n) */
  function Stream(block: nat -> seq<byte>, n: nat): seq<byte> {
    if n == 0 then [] else Stream(block, n - 1) + block(n)
  }

  lemma {:induction false} StreamLength(block: nat -> seq<byte>, size: nat, n: nat)
    requires forall i :: i >= 1 ==> |block(i)| == size
    ensures |Stream(block, n)| == n * size
  {
    if n > 0 {
      StreamLength(block, size, n - 1);
      assert n * size == (n - 1) * size + size;
    }
  }

  lemma {:induction false} StreamExtends(block: nat -> seq<byte>, m: nat, n: nat)
    requires m <= n
    ensures Stream(block, m) <= Stream(block, n)
  {
    if m < n {
      StreamExtends(block, m, n - 1);
    }
  }

  function CeilDiv(a: nat, b: nat): nat
    requires b > 0
  {
    (a + b - 1) / b
  }

  /** `CeilDiv` counts exactly the blocks needed to cover `length` bytes. */
  lemma CeilDivCovers(length: nat, size: nat)
    requires size > 0
    ensures CeilDiv(length, size) * size >= length
    ensures forall n: nat :: n * size >= length ==> n >= CeilDiv(length, size)
  {
    var q := CeilDiv(length, size);
    assert length + size - 1 == size * q + (length + size - 1) % size;
    forall n: nat | n * size >= length
      ensures n >= q
    {
      assert n * size + size == (n + 1) * size;
    }
  }

  /** The first `length` bytes of block(1) + block(2) + ... */
  function Take(block: nat -> seq<byte>, size: nat, length: nat): (r: seq<byte>)
    requires size > 0
    requires forall i :: i >= 1 ==> |block(i)| == size
    ensures |r| == length
  {
    StreamLength(block, size, CeilDiv(length, size));
    CeilDivCovers(length, size);
    Stream(block, CeilDiv(length, size))[..length]
  }

  /** A shorter request is a prefix of a longer one. */
  lemma TakeIsPrefix(block: nat -> seq<byte>, size: nat, short: nat, long: nat)
    requires size > 0
    requires forall i :: i >= 1 ==> |block(i)| == size
    requires short <= long
    ensures Take(block, size, short) == Take(block, size, long)[..short]
  {
    CeilDivCovers(short, size);
    CeilDivCovers(long, size);
    StreamLength(block, size, CeilDiv(short, size));
    StreamLength(block, size, CeilDiv(long, size));
    assert CeilDiv(short, size) <= CeilDiv(long, size);
    StreamExtends(block, CeilDiv(short, size), CeilDiv(long, size));
  }

  lemma StreamByte(block: nat -> seq<byte>, size: nat, n: nat, i: nat, o: nat)
    requires forall j :: j >= 1 ==> |block(j)| == size
    requires 1 <= i <= n && o < size
    ensures (i - 1) * size + o < |Stream(block, n)| && Stream(block, n)[(i - 1) * size + o] == block(i)[o]
  {
    StreamLength(block, size, i - 1);
    StreamExtends(block, i, n);
    assert Stream(block, i) == Stream(block, i - 1) + block(i);
  }

  lemma BlockIsNeeded(length: nat, size: nat, i: nat, o: nat)
    requires o < size && i >= 1 && (i - 1) * size + o < length
    ensures i <= CeilDiv(length, size)
  {
    CeilDivCovers(length, size);
    var q := CeilDiv(length, size);
    if i > q {
      ScaleUp(q, i - 1, size);
    }
  }

  lemma ScaleUp(a: nat, b: nat, size: nat)
    requires a <= b
    ensures a * size <= b * size
  {
  }

  /** Byte by byte: byte `o` of block `i` is at its place in the output. */
  lemma TakeByte(block: nat -> seq<byte>, size: nat, length: nat, i: nat, o: nat, at: nat)
    requires forall j :: j >= 1 ==> |block(j)| == size
    requires o < size && i >= 1 && at == (i - 1) * size + o < length
    ensures Take(block, size, length)[at] == block(i)[o]
  {
    BlockIsNeeded(length, size, i, o);
    StreamByte(block, size, CeilDiv(length, size), i, o);
  }

  /** Every whole block of the output is the block of that number. */
  lemma TakeBlock(block: nat -> seq<byte>, size: nat, length: nat, i: nat)
    requires size > 0 && forall j :: j >= 1 ==> |block(j)| == size
    requires i >= 1 && (i - 1) * size + size <= length
    ensures Take(block, size, length)[(i - 1) * size..(i - 1) * size + size] == block(i)
  {
    hide Take;
    var at := (i - 1) * size;
    forall o | 0 <= o < size
      ensures Take(block, size, length)[at + o] == block(i)[o]
    {
      TakeByte(block, size, length, i, o, at + o);
    }
  }
}
