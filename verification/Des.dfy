/** Triple DES in CBC mode, PKCS#7 padding, the retail MAC and key parity. */
module Des {
  import opened Bytes
  import opened Results
  import opened Buffers

  type Block = b: seq<byte> | |b| == 8 witness [0, 0, 0, 0, 0, 0, 0, 0]

  /** Single DES as an arbitrary keyed family of block functions. */
  datatype Cipher = Cipher(enc: (seq<byte>, Block) -> Block, dec: (seq<byte>, Block) -> Block)

  /** Each key gives a permutation and its inverse. */
  ghost predicate Lawful(c: Cipher) {
    && (forall k, x: Block :: c.dec(k, c.enc(k, x)) == x)
    && (forall k, x: Block :: c.enc(k, c.dec(k, x)) == x)
  }

  datatype Error = BadKey | BadIv | BadLength | BadPadding

  // ---- Encrypt-decrypt-encrypt and cipher block chaining ----

  function TdesEncrypt(c: Cipher, key: seq<byte>, x: Block): Block
    requires |key| == 24
  {
    c.enc(key[16..], c.dec(key[8..16], c.enc(key[..8], x)))
  }

  function TdesDecrypt(c: Cipher, key: seq<byte>, x: Block): Block
    requires |key| == 24
  {
    c.dec(key[..8], c.enc(key[8..16], c.dec(key[16..], x)))
  }

  function CbcEncrypt(c: Cipher, key: seq<byte>, iv: Block, data: seq<byte>): (r: seq<byte>)
    requires |key| == 24 && |data| % 8 == 0
    ensures |r| == |data|
    decreases |data|
  {
    if data == [] then []
    else
      var x := TdesEncrypt(c, key, XorSeq(data[..8], iv));
      x + CbcEncrypt(c, key, x, data[8..])
  }

  function CbcDecrypt(c: Cipher, key: seq<byte>, iv: Block, data: seq<byte>): (r: seq<byte>)
    requires |key| == 24 && |data| % 8 == 0
    ensures |r| == |data|
    decreases |data|
  {
    if data == [] then []
    else XorSeq(TdesDecrypt(c, key, data[..8]), iv) + CbcDecrypt(c, key, data[..8], data[8..])
  }

  lemma TdesInverse(c: Cipher, key: seq<byte>, x: Block)
    requires Lawful(c) && |key| == 24
    ensures TdesDecrypt(c, key, TdesEncrypt(c, key, x)) == x
    ensures TdesEncrypt(c, key, TdesDecrypt(c, key, x)) == x
  {
  }

  /** Decryption undoes encryption on every block-aligned input. */
  lemma {:induction false} CbcRoundTrip(c: Cipher, key: seq<byte>, iv: Block, data: seq<byte>)
    requires Lawful(c) && |key| == 24 && |data| % 8 == 0
    ensures CbcDecrypt(c, key, iv, CbcEncrypt(c, key, iv, data)) == data
    decreases |data|
  {
    if data != [] {
      var b: Block := XorSeq(data[..8], iv);
      var x: seq<byte> := TdesEncrypt(c, key, b);
      var rest := CbcEncrypt(c, key, x, data[8..]);
      assert (x + rest)[..8] == x && (x + rest)[8..] == rest;
      TdesInverse(c, key, b);
      XorSeqCancels(data[..8], iv);
      CbcRoundTrip(c, key, x, data[8..]);
    }
  }

  /** Encryption undoes decryption, so both are bijections on aligned inputs. */
  lemma {:induction false} CbcReverseRoundTrip(c: Cipher, key: seq<byte>, iv: Block, data: seq<byte>)
    requires Lawful(c) && |key| == 24 && |data| % 8 == 0
    ensures CbcEncrypt(c, key, iv, CbcDecrypt(c, key, iv, data)) == data
    decreases |data|
  {
    if data != [] {
      var d := TdesDecrypt(c, key, data[..8]);
      var p: Block, rest := XorSeq(d, iv), CbcDecrypt(c, key, data[..8], data[8..]);
      assert (p + rest)[..8] == p && (p + rest)[8..] == rest;
      XorSeqCancels(d, iv);
      TdesInverse(c, key, data[..8]);
      CbcReverseRoundTrip(c, key, data[..8], data[8..]);
    }
  }

  /** The first eight key bytes encrypt first, the second eight decrypt, the last eight encrypt last. */
  lemma KeyParts(c: Cipher, k1: seq<byte>, k2: seq<byte>, k3: seq<byte>, x: Block)
    requires |k1| == |k2| == |k3| == 8
    ensures TdesEncrypt(c, k1 + k2 + k3, x) == c.enc(k3, c.dec(k2, c.enc(k1, x)))
    ensures TdesDecrypt(c, k1 + k2 + k3, x) == c.dec(k1, c.enc(k2, c.dec(k3, x)))
  {
    var key := k1 + k2 + k3;
    assert key[..8] == k1 && key[8..16] == k2 && key[16..] == k3;
  }

  /** Block `i` of the ciphertext encrypts block `i` of the data masked with the ciphertext block before. */
  lemma {:induction false} CbcBlock(c: Cipher, key: seq<byte>, iv: Block, data: seq<byte>, i: nat)
    requires |key| == 24 && |data| % 8 == 0 && 8 * i + 8 <= |data|
    ensures var r := CbcEncrypt(c, key, iv, data);
            var before := if i == 0 then iv else r[8 * i - 8..8 * i];
            r[8 * i..8 * i + 8] == TdesEncrypt(c, key, XorSeq(data[8 * i..8 * i + 8], before))
    decreases i
  {
    hide TdesEncrypt, XorSeq;
    var x: Block := TdesEncrypt(c, key, XorSeq(data[..8], iv));
    var rest := CbcEncrypt(c, key, x, data[8..]);
    var r := CbcEncrypt(c, key, iv, data);
    assert r == x + rest;
    if i == 0 {
      assert r[..8] == x && data[0..8] == data[..8];
    } else {
      CbcBlock(c, key, x, data[8..], i - 1);
      assert r[8 * i..8 * i + 8] == rest[8 * i - 8..8 * i];
      assert data[8 * i..8 * i + 8] == data[8..][8 * i - 8..8 * i];
      if i == 1 {
        assert r[0..8] == x;
      } else {
        assert r[8 * i - 8..8 * i] == rest[8 * i - 16..8 * i - 8];
      }
    }
  }

  // ---- PKCS#7 padding ----

  function Pkcs7(m: seq<byte>): (p: seq<byte>)
    ensures |p| == 8 * (|m| / 8 + 1) && p[..|m|] == m
    ensures forall i :: |m| <= i < |p| ==> p[i] == |p| - |m|
  {
    var n := 8 - |m| % 8;
    m + Repeat(n, n)
  }

  function Unpad(s: seq<byte>): Result<seq<byte>, Error>
    requires s != [] && |s| % 8 == 0
  {
    var n := s[|s| - 1];
    if n == 0 || n > 8 || exists i :: |s| - n <= i < |s| - 1 && s[i] != n then Err(BadPadding)
    else Ok(s[..|s| - n])
  }

  lemma UnpadPkcs7(m: seq<byte>)
    ensures Unpad(Pkcs7(m)) == Ok(m)
  {
    var p, n := Pkcs7(m), 8 - |m| % 8;
    assert p[..|m|] == m;
    assert forall i :: |m| <= i < |p| ==> p[i] == n;
  }

  /** Only canonical paddings are removed. */
  lemma Pkcs7Unpad(s: seq<byte>)
    requires s != [] && |s| % 8 == 0 && Unpad(s).Ok?
    ensures Pkcs7(Unpad(s).value) == s
  {
    var n := s[|s| - 1];
    var m := s[..|s| - n];
    assert 8 - |m| % 8 == n;
    assert s[|s| - n..] == Repeat(n, n);
  }

  /** Padded decryption undoes padded encryption for every message of any length. */
  lemma PaddedRoundTrip(c: Cipher, key: seq<byte>, iv: Block, m: seq<byte>)
    requires Lawful(c) && |key| == 24
    ensures Unpad(CbcDecrypt(c, key, iv, CbcEncrypt(c, key, iv, Pkcs7(m)))) == Ok(m)
  {
    CbcRoundTrip(c, key, iv, Pkcs7(m));
    UnpadPkcs7(m);
  }

  /** Every ciphertext that decrypts is the encryption of what it decrypts to. */
  lemma PaddedReverseRoundTrip(c: Cipher, key: seq<byte>, iv: Block, data: seq<byte>)
    requires Lawful(c) && |key| == 24 && data != [] && |data| % 8 == 0
    requires Unpad(CbcDecrypt(c, key, iv, data)).Ok?
    ensures CbcEncrypt(c, key, iv, Pkcs7(Unpad(CbcDecrypt(c, key, iv, data)).value)) == data
  {
    CbcReverseRoundTrip(c, key, iv, data);
    Pkcs7Unpad(CbcDecrypt(c, key, iv, data));
  }

  // ---- In-place encryption and decryption ----

  lemma EncryptTurn(c: Cipher, key: seq<byte>, done: seq<byte>, previous: Block, rest: seq<byte>)
    requires |key| == 24 && rest != [] && |rest| % 8 == 0
    ensures var x: Block := TdesEncrypt(c, key, XorSeq(rest[..8], previous));
            done + CbcEncrypt(c, key, previous, rest) == done + x + CbcEncrypt(c, key, x, rest[8..])
  {
    hide TdesEncrypt;
    var x: Block := TdesEncrypt(c, key, XorSeq(rest[..8], previous));
    assert done + (x + CbcEncrypt(c, key, x, rest[8..])) == done + x + CbcEncrypt(c, key, x, rest[8..]);
  }

  lemma DecryptTurn(c: Cipher, key: seq<byte>, done: seq<byte>, previous: Block, rest: seq<byte>)
    requires |key| == 24 && rest != [] && |rest| % 8 == 0
    ensures var block: Block, plain := rest[..8], XorSeq(TdesDecrypt(c, key, rest[..8]), previous);
            done + CbcDecrypt(c, key, previous, rest) == done + plain + CbcDecrypt(c, key, block, rest[8..])
  {
    hide TdesDecrypt;
    var block: Block, plain := rest[..8], XorSeq(TdesDecrypt(c, key, rest[..8]), previous);
    assert done + (plain + CbcDecrypt(c, key, block, rest[8..])) == done + plain + CbcDecrypt(c, key, block, rest[8..]);
  }

  method EncryptInPlace(c: Cipher, key: seq<byte>, iv: Block, buffer: array<byte>, n: nat)
    requires |key| == 24 && n <= buffer.Length && n % 8 == 0
    modifies buffer
    ensures buffer[..n] == CbcEncrypt(c, key, iv, old(buffer[..n]))
  {
    hide TdesEncrypt, CbcEncrypt;
    ghost var original, input := buffer[..], buffer[..n];
    var previous: Block, at := iv, 0;
    while at < n
      invariant 0 <= at <= n && at % 8 == 0
      invariant buffer[at..] == original[at..]
      invariant buffer[..at] + CbcEncrypt(c, key, previous, input[at..]) == CbcEncrypt(c, key, iv, input)
    {
      var done, block: Block := buffer[..at], buffer[at..][..8];
      assert input[at..][..8] == block && input[at..][8..] == input[at + 8..];
      EncryptTurn(c, key, done, previous, input[at..]);
      previous := TdesEncrypt(c, key, XorSeq(block, previous));
      CopyInto(buffer, at, previous);
      assert original[at..][8..] == original[at + 8..];
      at := at + 8;
    }
  }

  method DecryptInPlace(c: Cipher, key: seq<byte>, iv: Block, buffer: array<byte>)
    requires |key| == 24 && buffer.Length % 8 == 0
    modifies buffer
    ensures buffer[..] == CbcDecrypt(c, key, iv, old(buffer[..]))
  {
    hide TdesDecrypt, CbcDecrypt;
    ghost var input := buffer[..];
    var previous: Block, at := iv, 0;
    while at < buffer.Length
      invariant 0 <= at <= buffer.Length && at % 8 == 0
      invariant buffer[at..] == input[at..]
      invariant buffer[..at] + CbcDecrypt(c, key, previous, input[at..]) == CbcDecrypt(c, key, iv, input)
    {
      var done, block: Block := buffer[..at], buffer[at..][..8];
      assert input[at..][..8] == block && input[at..][8..] == input[at + 8..];
      var plain := XorSeq(TdesDecrypt(c, key, block), previous);
      DecryptTurn(c, key, done, previous, input[at..]);
      CopyInto(buffer, at, plain);
      previous := block;
      at := at + 8;
    }
  }

  predicate Aligned(data: seq<byte>) {
    data != [] && |data| % 8 == 0
  }

  predicate Usable(key: seq<byte>, iv: seq<byte>) {
    |key| == 24 && |iv| == 8
  }

  /** Rejects wrong sizes and otherwise encrypts; the output is as long as the input. */
  method TdesCbcEncrypt(c: Cipher, key: seq<byte>, iv: seq<byte>, plaintext: seq<byte>)
    returns (r: Result<seq<byte>, Error>)
    ensures r.Ok? <==> Usable(key, iv) && Aligned(plaintext)
    ensures r.Ok? ==> r.value == CbcEncrypt(c, key, iv, plaintext)
  {
    if |key| != 24 { return Err(BadKey); }
    if |iv| != 8 { return Err(BadIv); }
    if plaintext == [] || |plaintext| % 8 != 0 { return Err(BadLength); }
    var buffer := new byte[|plaintext|](i requires 0 <= i < |plaintext| => plaintext[i]);
    assert buffer[..|plaintext|] == plaintext;
    EncryptInPlace(c, key, iv, buffer, |plaintext|);
    return Ok(buffer[..|plaintext|]);
  }

  method TdesCbcDecrypt(c: Cipher, key: seq<byte>, iv: seq<byte>, ciphertext: seq<byte>)
    returns (r: Result<seq<byte>, Error>)
    ensures r.Ok? <==> Usable(key, iv) && Aligned(ciphertext)
    ensures r.Ok? ==> r.value == CbcDecrypt(c, key, iv, ciphertext)
  {
    if |key| != 24 { return Err(BadKey); }
    if |iv| != 8 { return Err(BadIv); }
    if ciphertext == [] || |ciphertext| % 8 != 0 { return Err(BadLength); }
    var buffer := new byte[|ciphertext|](i requires 0 <= i < |ciphertext| => ciphertext[i]);
    assert buffer[..] == ciphertext;
    DecryptInPlace(c, key, iv, buffer);
    return Ok(buffer[..]);
  }

  /** Pads inside a buffer one block longer than the input, encrypts there and truncates. */
  method TdesCbcEncryptPadded(c: Cipher, key: seq<byte>, iv: seq<byte>, plaintext: seq<byte>)
    returns (r: Result<seq<byte>, Error>)
    ensures r.Ok? <==> Usable(key, iv)
    ensures r.Ok? ==> r.value == CbcEncrypt(c, key, iv, Pkcs7(plaintext))
  {
    if |key| != 24 { return Err(BadKey); }
    if |iv| != 8 { return Err(BadIv); }
    var buffer := new byte[|plaintext| + 8](_ => 0);
    CopyInto(buffer, 0, plaintext);
    var total := 8 * (|plaintext| / 8 + 1);
    assert total <= buffer.Length;  // the padded message always fits
    Fill(buffer, |plaintext|, total, total - |plaintext|);
    assert buffer[..total] == Pkcs7(plaintext);
    EncryptInPlace(c, key, iv, buffer, total);
    return Ok(buffer[..total]);
  }

  method TdesCbcDecryptPadded(c: Cipher, key: seq<byte>, iv: seq<byte>, ciphertext: seq<byte>)
    returns (r: Result<seq<byte>, Error>)
    ensures r.Ok? <==> Usable(key, iv) && Aligned(ciphertext) && Unpad(CbcDecrypt(c, key, iv, ciphertext)).Ok?
    ensures r.Ok? ==> r == Unpad(CbcDecrypt(c, key, iv, ciphertext))
  {
    if |key| != 24 { return Err(BadKey); }
    if |iv| != 8 { return Err(BadIv); }
    if ciphertext == [] || |ciphertext| % 8 != 0 { return Err(BadLength); }
    var buffer := new byte[|ciphertext|](i requires 0 <= i < |ciphertext| => ciphertext[i]);
    assert buffer[..] == ciphertext;
    DecryptInPlace(c, key, iv, buffer);
    return Unpad(buffer[..]);
  }

  // ---- Retail MAC: ISO/IEC 9797-1 algorithm 3 with padding method 2 ----

  function IsoPad(m: seq<byte>): (p: seq<byte>)
    ensures |p| % 8 == 0 && |m| < |p| <= |m| + 8
    ensures p[..|m|] == m && p[|m|] == 0x80 && forall i :: |m| < i < |p| ==> p[i] == 0
  {
    m + [0x80] + Zeros(7 - |m| % 8)
  }

  lemma IsoPadInjective(a: seq<byte>, b: seq<byte>)
    requires IsoPad(a) == IsoPad(b)
    ensures a == b
  {
    var p, q := IsoPad(a), IsoPad(b);
    assert p[|a|] == 0x80 && forall i :: |a| < i < |p| ==> p[i] == 0;
    assert q[|b|] == 0x80 && forall i :: |b| < i < |q| ==> q[i] == 0;
    assert |a| == |b|;
    assert p[..|a|] == a && q[..|b|] == b;
  }

  /** CBC-MAC with single DES: only the last chaining value is kept. */
  function CbcMac(c: Cipher, k: seq<byte>, y: Block, data: seq<byte>): Block
    requires |data| % 8 == 0
    decreases |data|
  {
    if data == [] then y else CbcMac(c, k, c.enc(k, XorSeq(y, data[..8])), data[8..])
  }

  function RetailMac(c: Cipher, k1: seq<byte>, k2: seq<byte>, m: seq<byte>): Block {
    c.enc(k1, c.dec(k2, CbcMac(c, k1, Zeros(8), IsoPad(m))))
  }

  /** Repeating one component makes triple encryption single encryption. */
  lemma RepeatedKeyCollapses(c: Cipher, k: seq<byte>, x: Block)
    requires Lawful(c) && |k| == 8
    ensures TdesEncrypt(c, k + k + k, x) == c.enc(k, x)
    ensures TdesDecrypt(c, k + k + k, x) == c.dec(k, x)
  {
    var key := k + k + k;
    assert key[..8] == k && key[8..16] == k && key[16..] == k;
  }

  lemma OneBlock(c: Cipher, k: seq<byte>, x: Block)
    requires Lawful(c) && |k| == 8
    ensures CbcEncrypt(c, k + k + k, Zeros(8), x) == c.enc(k, x)
    ensures CbcDecrypt(c, k + k + k, Zeros(8), x) == c.dec(k, x)
  {
    RepeatedKeyCollapses(c, k, x);
    XorSeqCancels(x, x);
    XorSeqCancels(c.dec(k, x), x);
    assert x[..8] == x && x[8..] == [];
  }

  lemma XorSeqCommutes(a: seq<byte>, b: seq<byte>)
    requires |a| == |b|
    ensures XorSeq(a, b) == XorSeq(b, a)
  {
    forall i | 0 <= i < |a|
      ensures Xor(a[i], b[i]) == Xor(b[i], a[i])
    {
      XorLaws(a[i], b[i], 0);
    }
  }

  /** The chained single encryptions are the last block of one CBC encryption. */
  lemma {:induction false} MacIsLastBlock(c: Cipher, k: seq<byte>, y: Block, data: seq<byte>)
    requires Lawful(c) && |k| == 8 && data != [] && |data| % 8 == 0
    ensures CbcMac(c, k, y, data) == CbcEncrypt(c, k + k + k, y, data)[|data| - 8..]
    decreases |data|
  {
    var b: Block := XorSeq(data[..8], y);
    XorSeqCommutes(data[..8], y);
    RepeatedKeyCollapses(c, k, b);
    var x: seq<byte> := c.enc(k, b);
    if |data| > 8 {
      MacIsLastBlock(c, k, x, data[8..]);
      var rest := CbcEncrypt(c, k + k + k, x, data[8..]);
      assert (x + rest)[|data| - 8..] == rest[|rest| - 8..];
    } else {
      assert data[8..] == [];
      assert (x + [])[0..] == x;
    }
  }

  /** Undoing the two final steps leaves the last block of one CBC encryption of the padded message. */
  lemma RetailMacUndone(c: Cipher, k1: seq<byte>, k2: seq<byte>, m: seq<byte>)
    requires Lawful(c) && |k1| == |k2| == 8
    ensures var p := IsoPad(m);
            c.enc(k2, c.dec(k1, RetailMac(c, k1, k2, m))) == CbcEncrypt(c, k1 + k1 + k1, Zeros(8), p)[|p| - 8..]
  {
    hide IsoPad, CbcMac, CbcEncrypt;
    MacIsLastBlock(c, k1, Zeros(8), IsoPad(m));
  }

  method ExpandRepeated(component: seq<byte>) returns (key: seq<byte>)
    requires |component| == 8
    ensures key == component + component + component
  {
    var bytes := new byte[24](_ => 0);
    CopyInto(bytes, 0, component);
    assert bytes[..8] == component;
    CopyInto(bytes, 8, component);
    assert bytes[..16] == component + component;
    CopyInto(bytes, 16, component);
    key := bytes[..24];
  }

  method PadIso(data: seq<byte>) returns (padded: seq<byte>)
    ensures padded == IsoPad(data)
  {
    padded := data + [0x80];
    while |padded| % 8 != 0
      invariant |data| < |padded| <= |IsoPad(data)|
      invariant padded == IsoPad(data)[..|padded|]
      decreases |IsoPad(data)| - |padded|
    {
      padded := padded + [0x00];
    }
    assert |padded| == |IsoPad(data)|;
  }

  /** One chained encryption under the repeated key. */
  method ChainBlock(c: Cipher, k: seq<byte>, y: Block, block: Block) returns (next: Block)
    requires Lawful(c) && |k| == 8
    ensures next == c.enc(k, XorSeq(y, block))
  {
    var key := ExpandRepeated(k);
    var mixed: Block := XorSeq(y, block);
    var r := TdesCbcEncrypt(c, key, Zeros(8), mixed);
    OneBlock(c, k, mixed);
    next := r.value;
  }

  /** The last block goes once through the second key and once more through the first. */
  method FinishMac(c: Cipher, k1: seq<byte>, k2: seq<byte>, y: Block) returns (r: Result<seq<byte>, Error>)
    requires Lawful(c) && |k1| == |k2| == 8
    ensures r.Ok? && r.value == c.enc(k1, c.dec(k2, y))
  {
    hide CbcEncrypt, CbcDecrypt;
    var expandedK2 := ExpandRepeated(k2);
    var d := TdesCbcDecrypt(c, expandedK2, Zeros(8), y);
    OneBlock(c, k2, y);
    var x: Block := d.value;
    var expandedK1 := ExpandRepeated(k1);
    r := TdesCbcEncrypt(c, expandedK1, Zeros(8), x);
    OneBlock(c, k1, x);
  }

  method ChainAll(c: Cipher, k: seq<byte>, padded: seq<byte>) returns (y: Block)
    requires Lawful(c) && |k| == 8 && |padded| % 8 == 0
    ensures y == CbcMac(c, k, Zeros(8), padded)
  {
    hide XorSeq;
    y := Zeros(8);
    var at := 0;
    while at < |padded|
      invariant 0 <= at <= |padded| && at % 8 == 0
      invariant CbcMac(c, k, y, padded[at..]) == CbcMac(c, k, Zeros(8), padded)
    {
      assert padded[at..][..8] == padded[at..at + 8] && padded[at..][8..] == padded[at + 8..];
      y := ChainBlock(c, k, y, padded[at..at + 8]);
      at := at + 8;
    }
    assert padded[at..] == [];
  }

  method ComputeRetailMac(c: Cipher, key: seq<byte>, data: seq<byte>) returns (r: Result<seq<byte>, Error>)
    requires Lawful(c)
    ensures r.Ok? <==> |key| == 16
    ensures r.Ok? ==> r.value == RetailMac(c, key[..8], key[8..], data)
  {
    if |key| != 16 {
      return Err(BadKey);
    }
    hide CbcEncrypt, CbcDecrypt, IsoPad, CbcMac;
    var k1, k2 := key[..8], key[8..16];
    assert k2 == key[8..];
    var padded := PadIso(data);
    var y := ChainAll(c, k1, padded);
    r := FinishMac(c, k1, k2, y);
  }

  // ---- Key parity ----

  function Ones(b: nat): nat {
    if b == 0 then 0 else b % 2 + Ones(b / 2)
  }

  lemma XorOne(b: byte)
    ensures Xor(b, 1) == if b % 2 == 0 then b + 1 else b - 1
  {
    assert Pow2(7) == 128 by { assert Pow2(4) == 16; }
    XorUnits(b / 2, 7);
  }

  function OddParity(b: byte): byte {
    if Ones(b) % 2 == 0 then Xor(b, 1) else b
  }

  lemma OddParityIsOdd(b: byte)
    ensures Ones(OddParity(b)) % 2 == 1 && OddParity(b) / 2 == b / 2
  {
    hide Ones, Xor;
    XorOne(b);
    OnesStep(b);
    OnesStep(OddParity(b));
  }

  lemma OnesStep(b: nat)
    ensures Ones(b) == b % 2 + Ones(b / 2)
  {
  }

  /** Gives every byte odd parity, touching the lowest bit only and only where needed. */
  method AdjustParity(key: array<byte>)
    modifies key
    ensures forall i :: 0 <= i < key.Length ==> Ones(key[i]) % 2 == 1
    ensures forall i :: 0 <= i < key.Length ==> key[i] / 2 == old(key[i]) / 2
    ensures forall i :: 0 <= i < key.Length && Ones(old(key[i])) % 2 == 1 ==> key[i] == old(key[i])
  {
    hide Ones, Xor;
    for n := 0 to key.Length
      invariant forall i :: n <= i < key.Length ==> key[i] == old(key[i])
      invariant forall i :: 0 <= i < n ==> Ones(key[i]) % 2 == 1 && key[i] / 2 == old(key[i]) / 2
      invariant forall i :: 0 <= i < n && Ones(old(key[i])) % 2 == 1 ==> key[i] == old(key[i])
    {
      OddParityIsOdd(key[n]);
      if Ones(key[n]) % 2 == 0 {
        key[n] := Xor(key[n], 1);
      }
    }
  }
}
