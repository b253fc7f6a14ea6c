/** ISO 9796-2 signatures with message recovery, over an abstract RSA permutation. */
module Iso9796 {
  import opened Bytes
  import opened Results

  datatype Error = TooLong | WrongLength | Malformed | BadSeparator
                 | OutOfBounds  // an index computation that would stop the program

  /** A key pair: modulus, its length in bytes, and the public and private operations. */
  datatype Rsa = Rsa(n: nat, k: nat, pub: nat -> nat, priv: nat -> nat)

  /** The operations are mutually inverse modulo the modulus, which has exactly `k` bytes. */
  ghost predicate Lawful(key: Rsa) {
    && key.k >= 1 && Pow256(key.k - 1) <= key.n < Pow256(key.k)
    && forall x: nat :: key.pub(x) < key.n && key.priv(x) < key.n && key.pub(key.priv(x)) == x % key.n
  }

  /** The bit length of the modulus is a multiple of 8. */
  predicate WholeBytes(key: Rsa)
    requires key.k >= 1
  {
    0x80 * Pow256(key.k - 1) <= key.n
  }

  /** The public operation on a signature, left-padded with zeros to the key size. */
  function Open(key: Rsa, signature: seq<byte>): (em: seq<byte>)
    ensures |em| == key.k
  {
    BigEndian(key.pub(Number(signature)), key.k)
  }

  function Seal(key: Rsa, encoded: seq<byte>): (signature: seq<byte>)
    ensures |signature| == key.k
  {
    BigEndian(key.priv(Number(encoded)), key.k)
  }

  /** Opening a sealed encoding gives it back when it is below the modulus. */
  lemma OpenSealed(key: Rsa, encoded: seq<byte>)
    requires Lawful(key) && |encoded| == key.k && Number(encoded) < key.n
    ensures Open(key, Seal(key, encoded)) == encoded
  {
    hide Number, BigEndian, Pow256;
    NumberOfBigEndian(key.priv(Number(encoded)), key.k);
    BigEndianOfNumber(encoded);
    SmallMod(Number(encoded), key.n);
  }

  lemma SmallMod(x: nat, n: nat)
    requires x < n
    ensures x % n == x
  {
  }

  /** What comes back is always the encoding reduced modulo the key. */
  lemma OpenedNumber(key: Rsa, encoded: seq<byte>)
    requires Lawful(key) && |encoded| == key.k
    ensures Number(Open(key, Seal(key, encoded))) == Number(encoded) % key.n
  {
    hide Number, BigEndian, Pow256;
    var x := Number(encoded);
    NumberOfBigEndian(key.priv(x), key.k);
    NumberOfBigEndian(x % key.n, key.k);
  }

  /** So for a larger encoding the leading byte comes back smaller. */
  lemma OpenReduced(key: Rsa, encoded: seq<byte>)
    requires Lawful(key) && |encoded| == key.k && Number(encoded) >= key.n
    ensures Open(key, Seal(key, encoded))[0] < encoded[0]
  {
    OpenedNumber(key, encoded);
    hide Number, Pow256, Open, Seal;
    ReducedBound(Number(encoded), key.n, Pow256(key.k - 1));
    LeadSmaller(Open(key, Seal(key, encoded)), encoded);
  }

  lemma LeadSmaller(a: seq<byte>, b: seq<byte>)
    requires |a| == |b| >= 1 && Number(a) <= Number(b) - Pow256(|b| - 1)
    ensures a[0] < b[0]
  {
    hide Number, Pow256;
    NumberLeads(a);
    NumberLeads(b);
    LeadDrops(a[0], b[0], Number(a), Number(b), Pow256(|b| - 1));
  }

  lemma ReducedBound(x: nat, n: nat, p: nat)
    requires 0 < p <= n <= x
    ensures x % n <= x - p
  {
    assert x / n >= 1 && x == n * (x / n) + x % n;
    assert n * (x / n) >= n;
  }

  lemma LeadDrops(a: nat, b: nat, y: nat, x: nat, p: nat)
    requires 0 < p && a * p <= y <= x - p && x < (b + 1) * p
    ensures a < b
  {
    assert (b + 1) * p == b * p + p;
    if a >= b {
      Scale(b, a, p);
    }
  }

  lemma Scale(a: nat, b: nat, p: nat)
    requires a <= b
    ensures a * p <= b * p
  {
  }

  lemma LowHeaderFits(key: Rsa, encoded: seq<byte>)
    requires Lawful(key) && WholeBytes(key) && |encoded| == key.k && encoded[0] < 0x80
    ensures Number(encoded) < key.n
  {
    hide Number, Pow256;
    NumberLeads(encoded);
    Scale(encoded[0] + 1, 0x80, Pow256(key.k - 1));
  }

  // ---- The run of 0xBB padding ----

  /** The end of the run of 0xBB bytes that starts at `from`, at most `to`. */
  function SkipBB(s: seq<byte>, from: nat, to: nat): (i: nat)
    requires from <= to <= |s|
    ensures from <= i <= to
    ensures forall j :: from <= j < i ==> s[j] == 0xBB
    ensures i < to ==> s[i] != 0xBB
    decreases |s| - from
  {
    if from < to && s[from] == 0xBB then SkipBB(s, from + 1, to) else from
  }

  /** Nothing but the end of the run meets that description. */
  lemma SkipBBIs(s: seq<byte>, from: nat, to: nat, i: nat)
    requires from <= i <= to <= |s|
    requires forall j :: from <= j < i ==> s[j] == 0xBB
    requires i < to ==> s[i] != 0xBB
    ensures SkipBB(s, from, to) == i
  {
  }

  method FindPaddingEnd(s: seq<byte>, from: nat, to: nat) returns (start: nat)
    requires from <= to <= |s|
    ensures start == SkipBB(s, from, to)
  {
    start := from;
    while start < to && s[start] == 0xBB
      invariant from <= start <= to
      invariant forall j :: from <= j < start ==> s[j] == 0xBB
    {
      start := start + 1;
    }
    SkipBBIs(s, from, to, start);
  }

  // ---- Scheme 1 ----

  function Scheme1Message(encoded: seq<byte>): Result<seq<byte>, Error> {
    var n := |encoded| - 1;
    if n < 2 || encoded[0] != 0x6A || encoded[n] != 0xBC then Err(Malformed)
    else
      var start := SkipBB(encoded, 1, n);
      if start == 1 then Ok(encoded[1..n])
      else if encoded[start] != 0x00 then Err(BadSeparator)
      else Ok(encoded[start + 1..n])
  }

  method ParseScheme1(encoded: seq<byte>) returns (r: Result<seq<byte>, Error>)
    ensures r == Scheme1Message(encoded)
  {
    if |encoded| < 3 || encoded[0] != 0x6A || encoded[|encoded| - 1] != 0xBC {
      return Err(Malformed);
    }
    var start := FindPaddingEnd(encoded, 1, |encoded| - 1);
    if start > 1 {
      if encoded[start] != 0x00 {
        return Err(BadSeparator);
      }
      start := start + 1;
    }
    return Ok(encoded[start..|encoded| - 1]);
  }

  /** 0x6A || BB^padding || 00 || message || BC */
  function PaddedForm(padding: nat, m: seq<byte>): seq<byte> {
    [0x6A] + Repeat(0xBB, padding) + [0x00] + m + [0xBC]
  }

  /** The parser accepts exactly the padded form and the legacy form without padding. */
  lemma Scheme1Language(encoded: seq<byte>, m: seq<byte>)
    ensures Scheme1Message(encoded) == Ok(m) <==>
            || (exists p: nat :: p >= 1 && encoded == PaddedForm(p, m))
            || (m != [] && m[0] != 0xBB && encoded == [0x6A] + m + [0xBC])
  {
    hide Scheme1Message, PaddedForm;
    if p: nat :| p >= 1 && encoded == PaddedForm(p, m) {
      PaddedFormParses(p, m);
    }
    if m != [] && m[0] != 0xBB && encoded == [0x6A] + m + [0xBC] {
      LegacyFormParses(m);
    }
    if Scheme1Message(encoded) == Ok(m) {
      ParsedForm(encoded);
    }
  }

  lemma LegacyFormParses(m: seq<byte>)
    requires m != [] && m[0] != 0xBB
    ensures Scheme1Message([0x6A] + m + [0xBC]) == Ok(m)
  {
    var e := [0x6A] + m + [0xBC];
    assert e[1] == m[0];
    SkipBBIs(e, 1, |e| - 1, 1);
    assert e[1..|e| - 1] == m;
  }

  lemma ParsedForm(encoded: seq<byte>)
    requires Scheme1Message(encoded).Ok?
    ensures var m := Scheme1Message(encoded).value;
            || (exists p: nat :: p >= 1 && encoded == PaddedForm(p, m))
            || (m != [] && m[0] != 0xBB && encoded == [0x6A] + m + [0xBC])
  {
    hide SkipBB;
    var m, n := Scheme1Message(encoded).value, |encoded| - 1;
    var start := SkipBB(encoded, 1, n);
    if start == 1 {
      assert encoded == [0x6A] + m + [0xBC];
    } else {
      assert encoded[1..start] == Repeat(0xBB, start - 1);
      assert encoded == [0x6A] + encoded[1..start] + [0x00] + m + [0xBC];
      assert encoded == PaddedForm(start - 1, m);
    }
  }

  lemma PaddedFormParses(p: nat, m: seq<byte>)
    requires p >= 1
    ensures Scheme1Message(PaddedForm(p, m)) == Ok(m)
  {
    var e := PaddedForm(p, m);
    var n := |e| - 1;
    assert e[n] == 0xBC && e[1 + p] == 0x00;
    assert forall j :: 1 <= j < 1 + p ==> e[j] == 0xBB;
    SkipBBIs(e, 1, n, 1 + p);
    assert e[2 + p..n] == m;
  }

  function Scheme1Sign(key: Rsa, m: seq<byte>): Result<seq<byte>, Error> {
    if |m| + 3 > key.k then Err(TooLong) else Ok(Seal(key, PaddedForm(key.k - |m| - 3, m)))
  }

  function Scheme1Verify(key: Rsa, m: seq<byte>, signature: seq<byte>): Result<bool, Error>
    requires key.k >= 1
  {
    if |signature| != key.k then Ok(false)
    else
      var em := Open(key, signature);
      if em[0] != 0x6A || em[|em| - 1] != 0xBC then Ok(false)
      else
        match Scheme1Message(em)
        case Err(error) => Err(error)
        case Ok(recovered) => Ok(recovered == m)
  }

  function Scheme1Recover(key: Rsa, signature: seq<byte>): Result<seq<byte>, Error>
    requires key.k >= 1
  {
    if |signature| != key.k then Err(WrongLength)
    else
      var em := Open(key, signature);
      if em[0] != 0x6A || em[|em| - 1] != 0xBC then Err(Malformed) else Scheme1Message(em)
  }

  /** The condition under which a signature carries its message: padding present, no reduction. */
  predicate Recoverable(key: Rsa, m: seq<byte>) {
    |m| + 3 < key.k && Number(PaddedForm(key.k - |m| - 3, m)) < key.n
  }

  /** Recovery returns the signed message exactly when it is recoverable. */
  lemma Scheme1RoundTrip(key: Rsa, m: seq<byte>)
    requires Lawful(key) && |m| + 3 <= key.k
    ensures var signature := Scheme1Sign(key, m).value;
            Scheme1Recover(key, signature) == Ok(m) <==> Recoverable(key, m)
  {
    var encoded := PaddedForm(key.k - |m| - 3, m);
    var signature := Seal(key, encoded);
    if Number(encoded) >= key.n {
      OpenReduced(key, encoded);
    } else {
      OpenSealed(key, encoded);
      if |m| + 3 < key.k {
        PaddedFormParses(key.k - |m| - 3, m);
      } else {
        BoundaryParses(m);
        assert |[0x00] + m| != |m|;
      }
    }
  }

  /** The opened bytes carry the message, padded or in the legacy form. */
  ghost predicate Carries(em: seq<byte>, m: seq<byte>) {
    || (exists p: nat :: p >= 1 && em == PaddedForm(p, m))
    || (m != [] && m[0] != 0xBB && em == [0x6A] + m + [0xBC])
  }

  /** Which signatures verify and which are recovered from, for every signature there is. */
  lemma Scheme1Accepts(key: Rsa, m: seq<byte>, signature: seq<byte>)
    requires key.k >= 1
    ensures Scheme1Verify(key, m, signature) == Ok(true) <==> |signature| == key.k && Carries(Open(key, signature), m)
    ensures Scheme1Recover(key, signature) == Ok(m) <==> |signature| == key.k && Carries(Open(key, signature), m)
  {
    hide Open, Scheme1Message, PaddedForm;
    if |signature| == key.k {
      Scheme1Language(Open(key, signature), m);
      MessageEnds(Open(key, signature));
    }
  }

  lemma MessageEnds(em: seq<byte>)
    ensures Scheme1Message(em).Ok? ==> |em| >= 3 && em[0] == 0x6A && em[|em| - 1] == 0xBC
  {
    hide SkipBB;
  }

  /** For a recoverable message, verification accepts it and no other message. */
  lemma Scheme1VerifyExact(key: Rsa, m: seq<byte>, claimed: seq<byte>)
    requires Lawful(key) && Recoverable(key, m)
    ensures Scheme1Verify(key, claimed, Scheme1Sign(key, m).value) == Ok(claimed == m)
  {
    var encoded := PaddedForm(key.k - |m| - 3, m);
    OpenSealed(key, encoded);
    PaddedFormParses(key.k - |m| - 3, m);
  }

  /**
   * A modulus of whole bytes reduces nothing, so every message that leaves room for padding is
   * recoverable and the longest message meets the boundary case below.
   */
  lemma WholeBytesRecoverable(key: Rsa, m: seq<byte>)
    requires Lawful(key) && WholeBytes(key) && |m| + 3 <= key.k
    ensures Number(PaddedForm(key.k - |m| - 3, m)) < key.n
    ensures Recoverable(key, m) <==> |m| + 3 < key.k
  {
    LowHeaderFits(key, PaddedForm(key.k - |m| - 3, m));
  }

  lemma BoundaryParses(m: seq<byte>)
    ensures Scheme1Message(PaddedForm(0, m)) == Ok([0x00] + m)
  {
    var e := PaddedForm(0, m);
    assert e[1] == 0x00;
    SkipBBIs(e, 1, |e| - 1, 1);
    assert e[1..|e| - 1] == [0x00] + m;
  }

  /** The longest message the signer accepts leaves no padding: recovery prepends a zero byte. */
  lemma Scheme1Boundary(key: Rsa, m: seq<byte>, claimed: seq<byte>)
    requires Lawful(key) && |m| + 3 == key.k && Number(PaddedForm(0, m)) < key.n
    ensures var signature := Scheme1Sign(key, m).value;
      && Scheme1Recover(key, signature) == Ok([0x00] + m)
      && Scheme1Verify(key, claimed, signature) == Ok(claimed == [0x00] + m)
  {
    var encoded := PaddedForm(0, m);
    OpenSealed(key, encoded);
    BoundaryParses(m);
  }

  /** A representative that does not fit the modulus verifies against nothing. */
  lemma Scheme1Reduced(key: Rsa, m: seq<byte>, claimed: seq<byte>)
    requires Lawful(key) && |m| + 3 <= key.k && Number(PaddedForm(key.k - |m| - 3, m)) >= key.n
    ensures Scheme1Verify(key, claimed, Scheme1Sign(key, m).value) == Ok(false)
  {
    OpenReduced(key, PaddedForm(key.k - |m| - 3, m));
  }

  /** The key of `k` bytes with the smallest modulus reduces every message. */
  lemma SmallestModulusReduces(k: nat, m: seq<byte>) returns (key: Rsa)
    requires |m| + 3 <= k
    ensures Lawful(key) && key.k == k && Number(PaddedForm(key.k - |m| - 3, m)) >= key.n
  {
    var n := Pow256(k - 1);
    key := Rsa(n, k, (x: nat) => x % n, (x: nat) => x % n);
    assert Pow256(k) == 256 * n;
    hide Number, Pow256;
    forall x: nat
      ensures key.pub(x) < n && key.priv(x) < n && key.pub(key.priv(x)) == x % n
    {
      SmallMod(x % n, n);
    }
    var encoded := PaddedForm(k - |m| - 3, m);
    NumberLeads(encoded);
    Scale(1, encoded[0], n);
  }
}
