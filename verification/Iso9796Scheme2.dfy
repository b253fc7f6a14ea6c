/** ISO 9796-2 Scheme 2 (and 3, which verifies the same way): partial recovery with an embedded hash. */
module Iso9796Scheme2 {
  import opened Bytes
  import opened Iso9796
  import opened Results

  datatype HashAlgorithm = Sha1 | Sha224 | Sha256 | Sha384 | Sha512 {

    function Trailer(): byte {
      match this
      case Sha1 => 0x33
      case Sha224 => 0x38
      case Sha256 => 0x34
      case Sha384 => 0x36
      case Sha512 => 0x35
    }

    function HashSize(): nat {
      match this
      case Sha1 => 20
      case Sha224 => 28
      case Sha256 => 32
      case Sha384 => 48
      case Sha512 => 64
    }
  }

  /** The hash functions, known only by their output sizes. */
  type Digests = (HashAlgorithm, seq<byte>) -> seq<byte>

  ghost predicate Sized(digest: Digests) {
    forall a, m :: |digest(a, m)| == a.HashSize()
  }

  /** The bytes the embedded hash must cover, given the recovered part and the caller's message. */
  function Covered(m1: seq<byte>, message: seq<byte>): seq<byte> {
    if m1 <= message then message else m1 + message
  }

  predicate Separator(b: byte) {
    b == 0x00 || b == 0x01 || b == 0x0A
  }

  /** The header and trailer length the verifier expects, decided by the last bytes alone. */
  function Classify(em: seq<byte>, alg: HashAlgorithm): Result<(byte, nat), Error>
    requires em != []
  {
    var last := em[|em| - 1];
    if last == 0xBC then Ok((0x4B, 1))
    else if last == alg.Trailer() then Ok((0x6A, 1))
    else if |em| >= 2 && em[|em| - 2] == 0x00 then Ok((0x6A, 2))
    else Err(Malformed)
  }

  function VerdictAt(em: seq<byte>, header: byte, trailerLen: nat, message: seq<byte>,
                     alg: HashAlgorithm, digest: Digests): Result<bool, Error>
    requires em != []
  {
    if em[0] != header then Ok(false)
    else if |em| < trailerLen + alg.HashSize() then Err(OutOfBounds)
    else
      var hashStart := |em| - trailerLen - alg.HashSize();
      if hashStart < 2 then Ok(false)
      else
        var end := SkipBB(em, 1, hashStart);
        if end == hashStart || !Separator(em[end]) then Ok(false)
        else
          Ok(em[hashStart..|em| - trailerLen] == digest(alg, Covered(em[end + 1..hashStart], message)))
  }

  /** `iso9796_scheme2_verify` on the opened signature. */
  function Verdict(em: seq<byte>, message: seq<byte>, alg: HashAlgorithm, digest: Digests): Result<bool, Error>
    requires em != []
  {
    match Classify(em, alg)
    case Err(_) => Ok(false)
    case Ok((header, trailerLen)) => VerdictAt(em, header, trailerLen, message, alg, digest)
  }

  /** Recovery has a rule of its own for the trailer length. */
  function RecoveryTrailer(em: seq<byte>): nat
    requires em != []
  {
    if em[|em| - 1] != 0xBC && |em| >= 2 && em[|em| - 2] == 0x00 then 2 else 1
  }

  function RecoveredAt(em: seq<byte>, trailerLen: nat, alg: HashAlgorithm): Result<seq<byte>, Error>
    requires em != []
  {
    if |em| < trailerLen + alg.HashSize() + 1 then Err(OutOfBounds)
    else
      var hashStart := |em| - trailerLen - alg.HashSize();
      var end := SkipBB(em, 1, hashStart);
      Ok(em[if end < hashStart then end + 1 else end..hashStart])
  }

  /** `iso9796_recover_message` on the opened signature. */
  function Recovered(em: seq<byte>, alg: HashAlgorithm): Result<seq<byte>, Error>
    requires em != []
  {
    RecoveredAt(em, RecoveryTrailer(em), alg)
  }

  /** Compares the embedded hash, choosing what it must cover as the source does. */
  method CheckEmbedded(embedded: seq<byte>, m1: seq<byte>, message: seq<byte>, alg: HashAlgorithm, digest: Digests)
    returns (ok: bool)
    ensures ok <==> embedded == digest(alg, Covered(m1, message))
  {
    var computed;
    if |message| >= |m1| && message[..|m1|] == m1 {
      computed := digest(alg, message);
    } else {
      assert m1 != [];  // so the source's third branch is never taken
      computed := digest(alg, m1 + message);
    }
    return embedded == computed;
  }

  method VerifyAt(em: seq<byte>, header: byte, trailerLen: nat, message: seq<byte>,
                  alg: HashAlgorithm, digest: Digests)
    returns (r: Result<bool, Error>)
    requires em != []
    ensures r == VerdictAt(em, header, trailerLen, message, alg, digest)
  {
    hide SkipBB, Covered;
    if em[0] != header {
      return Ok(false);
    }
    if |em| < trailerLen + alg.HashSize() {
      return Err(OutOfBounds);
    }
    var hashStart := |em| - trailerLen - alg.HashSize();
    if hashStart < 2 {
      return Ok(false);
    }
    var m1Start := FindPaddingEnd(em, 1, hashStart);
    if m1Start >= hashStart || !Separator(em[m1Start]) {
      return Ok(false);
    }
    var ok := CheckEmbedded(em[hashStart..|em| - trailerLen], em[m1Start + 1..hashStart], message, alg, digest);
    return Ok(ok);
  }

  method VerifyOpened(em: seq<byte>, message: seq<byte>, alg: HashAlgorithm, digest: Digests)
    returns (r: Result<bool, Error>)
    requires em != []
    ensures r == Verdict(em, message, alg, digest)
  {
    hide VerdictAt;
    var last := em[|em| - 1];
    if last == 0xBC {
      r := VerifyAt(em, 0x4B, 1, message, alg, digest);
    } else if last == alg.Trailer() {
      r := VerifyAt(em, 0x6A, 1, message, alg, digest);
    } else if |em| >= 2 && em[|em| - 2] == 0x00 {
      r := VerifyAt(em, 0x6A, 2, message, alg, digest);
    } else {
      r := Ok(false);
    }
  }

  method RecoverAt(em: seq<byte>, trailerLen: nat, alg: HashAlgorithm) returns (r: Result<seq<byte>, Error>)
    requires em != []
    ensures r == RecoveredAt(em, trailerLen, alg)
  {
    hide SkipBB;
    if |em| < trailerLen + alg.HashSize() + 1 {
      return Err(OutOfBounds);
    }
    var hashStart := |em| - trailerLen - alg.HashSize();
    var m1Start := FindPaddingEnd(em, 1, hashStart);
    if m1Start < hashStart {
      m1Start := m1Start + 1;
    }
    return Ok(em[m1Start..hashStart]);
  }

  method RecoverOpened(em: seq<byte>, alg: HashAlgorithm) returns (r: Result<seq<byte>, Error>)
    requires em != []
    ensures r == Recovered(em, alg)
  {
    hide RecoveredAt;
    var trailerLen := 1;
    if em[|em| - 1] != 0xBC && |em| >= 2 && em[|em| - 2] == 0x00 {
      trailerLen := 2;
    }
    r := RecoverAt(em, trailerLen, alg);
  }

  /** `start` is where the recovered part begins: after the padding run and the byte that ends it. */
  predicate StartsAt(em: seq<byte>, start: nat, hashStart: nat)
    requires 1 <= start <= hashStart <= |em|
  {
    || (start == hashStart && forall j :: 1 <= j < start ==> em[j] == 0xBB)
    || (em[start - 1] != 0xBB && start > 1 && forall j :: 1 <= j < start - 1 ==> em[j] == 0xBB)
  }

  /** What is recovered from any opened signature, and when nothing can be. */
  lemma RecoveredIs(em: seq<byte>, trailerLen: nat, alg: HashAlgorithm, start: nat)
    requires em != []
    ensures RecoveredAt(em, trailerLen, alg).Ok? <==> |em| > trailerLen + alg.HashSize()
    ensures var hashStart := |em| - trailerLen - alg.HashSize();
            1 <= start <= hashStart && StartsAt(em, start, hashStart) ==>
              RecoveredAt(em, trailerLen, alg) == Ok(em[start..hashStart])
  {
    hide HashAlgorithm.HashSize;
    var hashStart := |em| - trailerLen - alg.HashSize();
    if 1 <= start <= hashStart && StartsAt(em, start, hashStart) {
      var all := start == hashStart && forall j :: 1 <= j < start ==> em[j] == 0xBB;
      SkipBBIs(em, 1, hashStart, if all then start else start - 1);
    }
  }

  // ---- Encodings ----

  /** How an encoding ends: implicit, the one-byte hash identifier, or a zero and another byte. */
  datatype Ending = Implicit | Identifier | ZeroThen(b: byte) {

    function Header(): byte {
      if Implicit? then 0x4B else 0x6A
    }

    function Bytes(alg: HashAlgorithm): seq<byte> {
      match this
      case Implicit => [0xBC]
      case Identifier => [alg.Trailer()]
      case ZeroThen(b) => [0x00, b]
    }
  }

  /** header || BB^padding || separator || M1 || hash || trailer */
  function Frame(header: byte, padding: nat, separator: byte, m1: seq<byte>, hash: seq<byte>,
                 trailer: seq<byte>): seq<byte> {
    [header] + Repeat(0xBB, padding) + [separator] + m1 + hash + trailer
  }

  function Encoding(alg: HashAlgorithm, ending: Ending, padding: nat, separator: byte,
                    m1: seq<byte>, hash: seq<byte>): seq<byte> {
    Frame(ending.Header(), padding, separator, m1, hash, ending.Bytes(alg))
  }

  /** The endings the verifier reads as they are meant. */
  predicate Understood(alg: HashAlgorithm, ending: Ending) {
    ending.ZeroThen? ==> ending.b != 0xBC && ending.b != alg.Trailer()
  }

  /** First and last bytes: the implicit trailer goes with 0x4B, every other one with 0x6A. */
  lemma EncodingEnds(alg: HashAlgorithm, ending: Ending, padding: nat, separator: byte, m1: seq<byte>, hash: seq<byte>)
    ensures var em := Encoding(alg, ending, padding, separator, m1, hash);
      && |em| >= 3 && (em[0] == 0x4B <==> ending.Implicit?) && (em[0] == 0x6A <==> !ending.Implicit?)
      && (ending.Implicit? ==> em[|em| - 1] == 0xBC)
      && (ending.Identifier? ==> em[|em| - 1] == alg.Trailer())
      && (ending.ZeroThen? ==> em[|em| - 2] == 0x00 && em[|em| - 1] == ending.b)
  {
  }

  lemma Layout(header: byte, padding: nat, separator: byte, m1: seq<byte>, hash: seq<byte>, trailer: seq<byte>)
    requires Separator(separator)
    ensures var em := Frame(header, padding, separator, m1, hash, trailer);
            var s := 2 + padding + |m1|;
            && |em| == s + |hash| + |trailer| && em[0] == header
            && em[s..s + |hash|] == hash && em[2 + padding..s] == m1
            && (trailer != [] ==> em[|em| - 1] == trailer[|trailer| - 1])
            && (|trailer| == 2 ==> em[|em| - 2] == trailer[0])
            && (|trailer| == 1 && hash != [] ==> em[|em| - 2] == hash[|hash| - 1])
            && em[1 + padding] == separator && SkipBB(em, 1, s) == 1 + padding
  {
    var em := Frame(header, padding, separator, m1, hash, trailer);
    assert forall j :: 1 <= j < 1 + padding ==> em[j] == 0xBB;
    assert em[1 + padding] == separator;
    SkipBBIs(em, 1, 2 + padding + |m1|, 1 + padding);
  }

  lemma VerdictAtFrame(header: byte, padding: nat, separator: byte, m1: seq<byte>, hash: seq<byte>,
                       trailer: seq<byte>, message: seq<byte>, alg: HashAlgorithm, digest: Digests)
    requires Separator(separator) && |hash| == alg.HashSize()
    ensures var em := Frame(header, padding, separator, m1, hash, trailer);
      && VerdictAt(em, header, |trailer|, message, alg, digest)
         == Ok(hash == digest(alg, Covered(m1, message)))
      && RecoveredAt(em, |trailer|, alg) == Ok(m1)
  {
    hide Frame, Covered, SkipBB;
    Layout(header, padding, separator, m1, hash, trailer);
  }

  /** The verifier accepts an encoding exactly when its hash covers the right bytes. */
  lemma VerdictOnEncoding(alg: HashAlgorithm, ending: Ending, padding: nat, separator: byte,
                          m1: seq<byte>, hash: seq<byte>, message: seq<byte>, digest: Digests)
    requires Separator(separator) && Understood(alg, ending) && |hash| == alg.HashSize()
    ensures Verdict(Encoding(alg, ending, padding, separator, m1, hash), message, alg, digest)
            == Ok(hash == digest(alg, Covered(m1, message)))
  {
    hide Frame, Covered, VerdictAt;
    Layout(ending.Header(), padding, separator, m1, hash, ending.Bytes(alg));
    VerdictAtFrame(ending.Header(), padding, separator, m1, hash, ending.Bytes(alg), message, alg, digest);
  }

  lemma AcceptedAtFrame(em: seq<byte>, header: byte, trailerLen: nat, message: seq<byte>,
                        alg: HashAlgorithm, digest: Digests)
    returns (padding: nat, separator: byte, m1: seq<byte>)
    requires em != [] && VerdictAt(em, header, trailerLen, message, alg, digest) == Ok(true)
    ensures Separator(separator) && trailerLen <= |em|
    ensures em == Frame(header, padding, separator, m1, digest(alg, Covered(m1, message)),
                        em[|em| - trailerLen..])
  {
    hide SkipBB, Covered, Frame;
    var hashStart := |em| - trailerLen - alg.HashSize();
    var end := SkipBB(em, 1, hashStart);
    padding, separator, m1 := end - 1, em[end], em[end + 1..hashStart];
    SplitFrame(em, end, hashStart, |em| - trailerLen);
  }

  /** Nothing but such an encoding is accepted. */
  lemma AcceptedIsEncoding(em: seq<byte>, message: seq<byte>, alg: HashAlgorithm, digest: Digests)
    returns (ending: Ending, padding: nat, separator: byte, m1: seq<byte>)
    requires em != [] && Verdict(em, message, alg, digest) == Ok(true)
    ensures Separator(separator) && Understood(alg, ending)
    ensures em == Encoding(alg, ending, padding, separator, m1, digest(alg, Covered(m1, message)))
  {
    hide VerdictAt, Covered, Frame;
    var last := em[|em| - 1];
    ending := if last == 0xBC then Implicit else if last == alg.Trailer() then Identifier else ZeroThen(last);
    var t := |ending.Bytes(alg)|;
    padding, separator, m1 := AcceptedAtFrame(em, ending.Header(), t, message, alg, digest);
    assert em[|em| - t..] == ending.Bytes(alg);
  }

  lemma SplitFrame(em: seq<byte>, end: nat, hashStart: nat, trailerStart: nat)
    requires 1 <= end < hashStart <= trailerStart <= |em|
    requires forall j :: 1 <= j < end ==> em[j] == 0xBB
    ensures em == Frame(em[0], end - 1, em[end], em[end + 1..hashStart], em[hashStart..trailerStart],
                        em[trailerStart..])
  {
    assert em[1..end] == Repeat(0xBB, end - 1);
    assert em == [em[0]] + em[1..end] + [em[end]] + em[end + 1..hashStart] + em[hashStart..trailerStart]
                 + em[trailerStart..];
  }

  /** Signing M1 || M2: both the whole message and, where M1 is no prefix of it, M2 alone verify. */
  lemma SignedMessageVerifies(alg: HashAlgorithm, ending: Ending, padding: nat, separator: byte,
                              m1: seq<byte>, m2: seq<byte>, digest: Digests)
    requires Separator(separator) && Understood(alg, ending) && Sized(digest)
    ensures var em := Encoding(alg, ending, padding, separator, m1, digest(alg, m1 + m2));
      && Verdict(em, m1 + m2, alg, digest) == Ok(true)
      && (!(m1 <= m2) ==> Verdict(em, m2, alg, digest) == Ok(true))
      && (m1 <= m2 ==> Verdict(em, m2, alg, digest) == Ok(digest(alg, m1 + m2) == digest(alg, m2)))
  {
    hide Encoding, Verdict;
    var hash := digest(alg, m1 + m2);
    VerdictOnEncoding(alg, ending, padding, separator, m1, hash, m1 + m2, digest);
    VerdictOnEncoding(alg, ending, padding, separator, m1, hash, m2, digest);
  }

  /** The same bytes, cut one place further on. */
  lemma ZeroMoves(header: byte, padding: nat, separator: byte, m1: seq<byte>, b: byte, hash: seq<byte>,
                  trailer: seq<byte>)
    ensures Frame(header, padding, separator, m1, [b] + hash, [0x00] + trailer)
            == Frame(header, padding, separator, m1 + [b], hash + [0x00], trailer)
  {
    var front := [header] + Repeat(0xBB, padding) + [separator];
    assert front + m1 + ([b] + hash) + ([0x00] + trailer) == front + (m1 + [b]) + (hash + [0x00]) + trailer;
  }

  /**
   * A zero byte before the hash's own identifier is never read as a two-byte trailer: the verifier
   * takes the first hash byte for message and the zero for hash.
   */
  lemma ZeroBeforeIdentifier(alg: HashAlgorithm, padding: nat, separator: byte, m1: seq<byte>,
                             hash: seq<byte>, message: seq<byte>, digest: Digests)
    requires Separator(separator) && |hash| == alg.HashSize()
    ensures Verdict(Encoding(alg, ZeroThen(alg.Trailer()), padding, separator, m1, hash), message, alg, digest)
            == Ok(hash[1..] + [0x00] == digest(alg, Covered(m1 + [hash[0]], message)))
  {
    hide Verdict, Covered, Frame;
    assert hash == [hash[0]] + hash[1..] && [0x00, alg.Trailer()] == [0x00] + [alg.Trailer()];
    ZeroMoves(0x6A, padding, separator, m1, hash[0], hash[1..], [alg.Trailer()]);
    VerdictOnEncoding(alg, Identifier, padding, separator, m1 + [hash[0]], hash[1..] + [0x00], message, digest);
  }

  /** The recovery rule mistakes a hash that ends in zero for part of a two-byte trailer. */
  predicate Confusing(ending: Ending, m1: seq<byte>, hash: seq<byte>)
    requires hash != []
  {
    ending.Identifier? && hash[|hash| - 1] == 0x00 && m1 != []
  }

  /** Recovery returns the M1 the verifier used, except after a confusing ending, where it loses a byte. */
  lemma RecoveredFromEncoding(alg: HashAlgorithm, ending: Ending, padding: nat, separator: byte,
                              m1: seq<byte>, hash: seq<byte>)
    requires Separator(separator) && Understood(alg, ending) && |hash| == alg.HashSize()
    ensures Recovered(Encoding(alg, ending, padding, separator, m1, hash), alg)
            == Ok(if Confusing(ending, m1, hash) then m1[..|m1| - 1] else m1)
  {
    hide Frame, RecoveredAt, SkipBB;
    var header, trailer := ending.Header(), ending.Bytes(alg);
    Layout(header, padding, separator, m1, hash, trailer);
    VerdictAtFrame(header, padding, separator, m1, hash, trailer, [], alg, (a, m) => []);
    if ending.Identifier? && hash[|hash| - 1] == 0x00 {
      ConfusedRecovery(alg, padding, separator, m1, hash);
    }
  }

  lemma NothingRecovered(alg: HashAlgorithm, padding: nat, separator: byte, hash: seq<byte>)
    requires Separator(separator) && |hash| == alg.HashSize()
    ensures RecoveredAt(Encoding(alg, Identifier, padding, separator, [], hash), 2, alg) == Ok([])
  {
    hide Frame;
    var em := Encoding(alg, Identifier, padding, separator, [], hash);
    Layout(0x6A, padding, separator, [], hash, [alg.Trailer()]);
    SkipBBIs(em, 1, 1 + padding, 1 + padding);
    assert |em| - 2 - alg.HashSize() == 1 + padding;
    assert em[1 + padding..1 + padding] == [];
  }

  lemma ConfusedRecovery(alg: HashAlgorithm, padding: nat, separator: byte, m1: seq<byte>, hash: seq<byte>)
    requires Separator(separator) && |hash| == alg.HashSize() && hash[|hash| - 1] == 0x00
    ensures RecoveredAt(Encoding(alg, Identifier, padding, separator, m1, hash), 2, alg)
            == Ok(if m1 == [] then [] else m1[..|m1| - 1])
  {
    if m1 == [] {
      NothingRecovered(alg, padding, separator, hash);
    } else {
      hide RecoveredAt, Frame;
      var n, h := |m1| - 1, |hash| - 1;
      assert m1 == m1[..n] + [m1[n]] && hash == hash[..h] + [0x00] && [0x00, alg.Trailer()] == [0x00] + [alg.Trailer()];
      ZeroMoves(0x6A, padding, separator, m1[..n], m1[n], hash[..h], [alg.Trailer()]);
      VerdictAtFrame(0x6A, padding, separator, m1[..n], [m1[n]] + hash[..h], [0x00, alg.Trailer()], [], alg,
                     (a, m) => []);
    }
  }

  // ---- Signatures ----

  function Verify(key: Rsa, message: seq<byte>, signature: seq<byte>, alg: HashAlgorithm, digest: Digests)
    : Result<bool, Error>
    requires key.k >= 1
  {
    if |signature| != key.k then Ok(false) else Verdict(Open(key, signature), message, alg, digest)
  }

  function Recover(key: Rsa, signature: seq<byte>, alg: HashAlgorithm): Result<seq<byte>, Error>
    requires key.k >= 1
  {
    if |signature| != key.k then Err(WrongLength) else Recovered(Open(key, signature), alg)
  }

  /** The signature of M1 || M2 verifies and gives M1 back, for every encoding below the modulus. */
  lemma SignatureRoundTrip(key: Rsa, alg: HashAlgorithm, ending: Ending, padding: nat, separator: byte,
                           m1: seq<byte>, m2: seq<byte>, digest: Digests)
    requires Lawful(key) && Sized(digest) && Separator(separator) && Understood(alg, ending)
    requires var em := Encoding(alg, ending, padding, separator, m1, digest(alg, m1 + m2));
             |em| == key.k && Number(em) < key.n
    ensures var hash := digest(alg, m1 + m2);
            var signature := Seal(key, Encoding(alg, ending, padding, separator, m1, hash));
      && Verify(key, m1 + m2, signature, alg, digest) == Ok(true)
      && (!(m1 <= m2) ==> Verify(key, m2, signature, alg, digest) == Ok(true))
      && (Recover(key, signature, alg) == Ok(m1) <==> !Confusing(ending, m1, hash))
  {
    hide Encoding, Verdict, Recovered, Number, Pow256, BigEndian;
    var hash := digest(alg, m1 + m2);
    OpenSealed(key, Encoding(alg, ending, padding, separator, m1, hash));
    SignedMessageVerifies(alg, ending, padding, separator, m1, m2, digest);
    RecoveredFromEncoding(alg, ending, padding, separator, m1, hash);
  }

  /** With a modulus of whole bytes every encoding of the right length is below it. */
  lemma WholeBytesEncode(key: Rsa, alg: HashAlgorithm, ending: Ending, padding: nat, separator: byte,
                         m1: seq<byte>, hash: seq<byte>)
    requires Lawful(key) && WholeBytes(key) && Separator(separator)
    requires 2 + padding + |m1| + |hash| + |ending.Bytes(alg)| == key.k
    ensures var em := Encoding(alg, ending, padding, separator, m1, hash);
            |em| == key.k && Number(em) < key.n
  {
    hide Frame, Number, Pow256;
    Layout(ending.Header(), padding, separator, m1, hash, ending.Bytes(alg));
    LowHeaderFits(key, Encoding(alg, ending, padding, separator, m1, hash));
  }

  /** An encoding with the implicit trailer that the modulus reduces verifies against nothing. */
  lemma ReducedImplicit(key: Rsa, alg: HashAlgorithm, padding: nat, separator: byte, m1: seq<byte>,
                        hash: seq<byte>, message: seq<byte>, digest: Digests)
    requires Lawful(key)
    requires var em := Encoding(alg, Implicit, padding, separator, m1, hash);
             |em| == key.k && Number(em) >= key.n
    ensures var em := Encoding(alg, Implicit, padding, separator, m1, hash);
            Verify(key, message, Seal(key, em), alg, digest) == Ok(false)
  {
    hide Number, Pow256, Open, Seal;
    OpenReduced(key, Encoding(alg, Implicit, padding, separator, m1, hash));
  }

  /** An encoding that the message's hash justifies. */
  ghost predicate Justified(em: seq<byte>, message: seq<byte>, alg: HashAlgorithm, digest: Digests, ending: Ending,
                            padding: nat, separator: byte, m1: seq<byte>) {
    && separator in [0x00, 0x01, 0x0A] && Understood(alg, ending)
    && em == Encoding(alg, ending, padding, separator, m1, digest(alg, Covered(m1, message)))
  }

  /** Which signatures verify, for every signature there is. */
  lemma Scheme2Accepts(key: Rsa, message: seq<byte>, signature: seq<byte>, alg: HashAlgorithm, digest: Digests)
    requires key.k >= 1 && Sized(digest)
    ensures Verify(key, message, signature, alg, digest) == Ok(true) <==>
            && |signature| == key.k
            && exists ending, padding: nat, separator, m1 ::
                 Justified(Open(key, signature), message, alg, digest, ending, padding, separator, m1)
  {
    hide Open, Verdict, Encoding, Covered;
    var em := Open(key, signature);
    if |signature| == key.k {
      if Verdict(em, message, alg, digest) == Ok(true) {
        var ending, padding, separator, m1 := AcceptedIsEncoding(em, message, alg, digest);
        assert Justified(em, message, alg, digest, ending, padding, separator, m1);
      }
      forall ending, padding: nat, separator, m1 | Justified(em, message, alg, digest, ending, padding, separator, m1)
        ensures Verdict(em, message, alg, digest) == Ok(true)
      {
        VerdictOnEncoding(alg, ending, padding, separator, m1, digest(alg, Covered(m1, message)), message, digest);
      }
    }
  }
}
