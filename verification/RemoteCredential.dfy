/** Single-use handles for credentials whose signature is made elsewhere. */
module RemoteCredential {
  import opened Bytes
  import opened Options

  const MAX_REMOTE_RSA_SIGNATURE_BYTES: nat := 1024
  const MAX_ENCODED_SIGNATURE_BYTES: nat := CeilDiv(MAX_REMOTE_RSA_SIGNATURE_BYTES * 4, 3)

  // ---- URL-safe base64 without padding ----

  function Symbol(i: nat): char
    requires i < 64
  {
    if i < 26 then ('A' as int + i) as char
    else if i < 52 then ('a' as int + i - 26) as char
    else if i < 62 then ('0' as int + i - 52) as char
    else if i == 62 then '-' else '_'
  }

  /** The index of a symbol, or 64 for any other character. */
  function Index(c: char): (i: nat)
    ensures i <= 64
  {
    if 'A' <= c <= 'Z' then c as int - 'A' as int
    else if 'a' <= c <= 'z' then c as int - 'a' as int + 26
    else if '0' <= c <= '9' then c as int - '0' as int + 52
    else if c == '-' then 62 else if c == '_' then 63 else 64
  }

  lemma IndexOfSymbol(i: nat)
    requires i < 64
    ensures Index(Symbol(i)) == i
  {
  }

  lemma SymbolOfIndex(c: char)
    requires Index(c) < 64
    ensures Symbol(Index(c)) == c
  {
  }

  /** The sextets of three bytes. */
  function Sextets(x: byte, y: byte, z: byte): (q: (nat, nat, nat, nat))
    ensures q.0 < 64 && q.1 < 64 && q.2 < 64 && q.3 < 64
  {
    (x / 4, x % 4 * 16 + y / 16, y % 16 * 4 + z / 64, z % 64)
  }

  /** The bytes of four sextets. */
  function Octets(a: nat, b: nat, c: nat, d: nat): (t: (byte, byte, byte))
    requires a < 64 && b < 64 && c < 64 && d < 64
  {
    (a * 4 + b / 16, b % 16 * 16 + c / 4, c % 4 * 64 + d)
  }

  lemma OctetsOfSextets(x: byte, y: byte, z: byte)
    ensures var q := Sextets(x, y, z); Octets(q.0, q.1, q.2, q.3) == (x, y, z)
    ensures z == 0 ==> Sextets(x, y, z).3 == 0
    ensures y == 0 && z == 0 ==> Sextets(x, y, z).2 == 0
  {
    JoinParts(x % 4, 16, y / 16);
    JoinParts(y % 16, 4, z / 64);
  }

  lemma SextetsOfOctets(a: nat, b: nat, c: nat, d: nat)
    requires a < 64 && b < 64 && c < 64 && d < 64
    ensures var t := Octets(a, b, c, d); Sextets(t.0, t.1, t.2) == (a, b, c, d)
  {
    JoinParts(a, 4, b / 16);
    JoinParts(b % 16, 16, c / 4);
    JoinParts(c % 4, 64, d);
  }

  lemma JoinParts(q: nat, k: nat, r: nat)
    requires r < k && (k == 4 || k == 16 || k == 64)
    ensures (q * k + r) / k == q && (q * k + r) % k == r
  {
    if k == 4 {
      assert (q * 4 + r) / 4 == q;
    } else if k == 16 {
      assert (q * 16 + r) / 16 == q;
    } else {
      assert (q * 64 + r) / 64 == q;
    }
  }

  /** A last group of one or two bytes is filled up with zeros, whose symbols are left out. */
  function Encode(b: seq<byte>): string {
    if b == [] then []
    else
      var y, z := if |b| > 1 then b[1] else 0, if |b| > 2 then b[2] else 0;
      var q := Sextets(b[0], y, z);
      var s := [Symbol(q.0), Symbol(q.1), Symbol(q.2), Symbol(q.3)];
      if |b| < 3 then s[..|b| + 1] else s + Encode(b[3..])
  }

  /** Rejects foreign characters, a single left-over symbol and non-zero unused bits. */
  function Decode(s: string): Option<seq<byte>> {
    if s == [] then Some([])
    else if |s| == 1 then None
    else
      var a, b := Index(s[0]), Index(s[1]);
      var c, d := if |s| > 2 then Index(s[2]) else 0, if |s| > 3 then Index(s[3]) else 0;
      if a == 64 || b == 64 || c == 64 || d == 64 then None
      else
        var t := Octets(a, b, c, d);
        if |s| == 2 then if t.1 == 0 then Some([t.0]) else None
        else if |s| == 3 then if t.2 == 0 then Some([t.0, t.1]) else None
        else
          match Decode(s[4..])
          case None => None
          case Some(rest) => Some([t.0, t.1, t.2] + rest)
  }

  lemma {:induction false} DecodeLength(s: string)
    ensures Decode(s).Some? ==> |Decode(s).value| == |s| * 3 / 4
  {
    if |s| >= 4 {
      DecodeLength(s[4..]);
    }
  }

  lemma {:induction false} EncodeLength(b: seq<byte>)
    ensures |Encode(b)| == CeilDiv(4 * |b|, 3)
  {
    if |b| >= 3 {
      EncodeLength(b[3..]);
    }
  }

  lemma {:induction false} DecodeEncode(b: seq<byte>)
    ensures Decode(Encode(b)) == Some(b)
  {
    hide Symbol, Index, Sextets, Octets;
    if |b| == 1 {
      DecodeOne(b);
    } else if |b| == 2 {
      DecodeTwo(b);
    } else if |b| > 2 {
      DecodeEncode(b[3..]);
      DecodeGroup(b);
    }
  }

  lemma DecodeOne(b: seq<byte>)
    requires |b| == 1
    ensures Decode(Encode(b)) == Some(b)
  {
    hide Symbol, Index, Sextets, Octets;
    var q := Sextets(b[0], 0, 0);
    OctetsOfSextets(b[0], 0, 0);
    IndexOfSymbol(q.0);
    IndexOfSymbol(q.1);
    assert Encode(b) == [Symbol(q.0), Symbol(q.1)];
    assert b == [b[0]];
  }

  lemma DecodeTwo(b: seq<byte>)
    requires |b| == 2
    ensures Decode(Encode(b)) == Some(b)
  {
    hide Symbol, Index, Sextets, Octets;
    var q := Sextets(b[0], b[1], 0);
    OctetsOfSextets(b[0], b[1], 0);
    IndexOfSymbol(q.0);
    IndexOfSymbol(q.1);
    IndexOfSymbol(q.2);
    assert Encode(b) == [Symbol(q.0), Symbol(q.1), Symbol(q.2)];
    assert b == [b[0], b[1]];
  }

  lemma DecodeGroup(b: seq<byte>)
    requires |b| >= 3 && Decode(Encode(b[3..])) == Some(b[3..])
    ensures Decode(Encode(b)) == Some(b)
  {
    hide Symbol, Index, Sextets, Octets, Decode;
    var q := Sextets(b[0], b[1], b[2]);
    OctetsOfSextets(b[0], b[1], b[2]);
    IndexOfSymbol(q.0);
    IndexOfSymbol(q.1);
    IndexOfSymbol(q.2);
    IndexOfSymbol(q.3);
    var head, rest := [Symbol(q.0), Symbol(q.1), Symbol(q.2), Symbol(q.3)], Encode(b[3..]);
    assert Encode(b) == head + rest;
    assert (head + rest)[4..] == rest;
    DecodeFirstGroup(head + rest, b[3..]);
    FirstThree(b);
  }

  lemma FirstThree(b: seq<byte>)
    requires |b| >= 3
    ensures b == [b[0], b[1], b[2]] + b[3..]
  {
  }

  lemma DecodeFirstGroup(s: string, rest: seq<byte>)
    requires |s| >= 4 && Decode(s[4..]) == Some(rest)
    requires Index(s[0]) < 64 && Index(s[1]) < 64 && Index(s[2]) < 64 && Index(s[3]) < 64
    ensures var t := Octets(Index(s[0]), Index(s[1]), Index(s[2]), Index(s[3]));
            Decode(s) == Some([t.0, t.1, t.2] + rest)
  {
    hide Index, Octets;
  }

  /** Accepted text is the only encoding of its bytes. */
  lemma {:induction false} EncodeDecode(s: string)
    requires Decode(s).Some?
    ensures Encode(Decode(s).value) == s
  {
    hide Symbol, Index, Sextets, Octets;
    if s != [] {
      var a, b := Index(s[0]), Index(s[1]);
      var c, d := if |s| > 2 then Index(s[2]) else 0, if |s| > 3 then Index(s[3]) else 0;
      var r := Decode(s).value;
      SextetsOfOctets(a, b, c, d);
      SymbolOfIndex(s[0]);
      SymbolOfIndex(s[1]);
      if |s| == 2 {
        OctetsBelow(a, b, c, d);
        assert s == [s[0], s[1]];
      } else {
        SymbolOfIndex(s[2]);
        if |s| == 3 {
          assert s == [s[0], s[1], s[2]];
        } else {
          SymbolOfIndex(s[3]);
          EncodeDecode(s[4..]);
          assert r[3..] == Decode(s[4..]).value;
          assert s == [s[0], s[1], s[2], s[3]] + s[4..];
        }
      }
    }
  }

  lemma OctetsBelow(a: nat, b: nat, c: nat, d: nat)
    requires a < 64 && b < 64 && c == 0 && d == 0
    ensures Octets(a, b, c, d).2 == 0
  {
  }

  // ---- Section 5 of RFC 4648 ----

  /** The alphabet: A to Z, a to z, 0 to 9, minus and underscore, each range in order. */
  lemma Alphabet(i: nat)
    requires i < 63
    ensures Symbol(0) == 'A' && Symbol(25) == 'Z' && Symbol(26) == 'a' && Symbol(51) == 'z'
    ensures Symbol(52) == '0' && Symbol(61) == '9' && Symbol(62) == '-' && Symbol(63) == '_'
    ensures i !in [25, 51, 61, 62] ==> Symbol(i + 1) as int == Symbol(i) as int + 1
  {
  }

  /** Four sextets and three bytes are one number, high digits first. */
  lemma SextetsNumber(x: byte, y: byte, z: byte)
    ensures var q := Sextets(x, y, z);
            262144 * q.0 + 4096 * q.1 + 64 * q.2 + q.3 == 65536 * x + 256 * y + z
  {
  }

  /** Each group of three bytes is encoded on its own, in order, and a last one or two bytes as if zeros followed. */
  lemma {:induction false} EncodeGroup(b: seq<byte>, i: nat)
    requires 3 * i < |b|
    ensures var y, z := if 3 * i + 1 < |b| then b[3 * i + 1] else 0, if 3 * i + 2 < |b| then b[3 * i + 2] else 0;
            var q := Sextets(b[3 * i], y, z);
      && |Encode(b)| >= 4 * i + 2
      && Encode(b)[4 * i] == Symbol(q.0) && Encode(b)[4 * i + 1] == Symbol(q.1)
      && (3 * i + 1 < |b| ==> |Encode(b)| >= 4 * i + 3 && Encode(b)[4 * i + 2] == Symbol(q.2))
      && (3 * i + 2 < |b| ==> |Encode(b)| >= 4 * i + 4 && Encode(b)[4 * i + 3] == Symbol(q.3))
    decreases i
  {
    hide Sextets, Symbol;
    if i > 0 {
      EncodeGroup(b[3..], i - 1);
    }
  }

  /** `decode_signature`: a bound on the text, decoding, and a second bound on the bytes. */
  function DecodeSignature(s: string): Option<seq<byte>> {
    if |s| > MAX_ENCODED_SIGNATURE_BYTES then None
    else
      match Decode(s)
      case None => None
      case Some(signature) => if |signature| > MAX_REMOTE_RSA_SIGNATURE_BYTES then None else Some(signature)
  }

  /** The first bound already implies the second, which can never fire. */
  lemma SecondBoundNeverFires(s: string)
    requires |s| <= MAX_ENCODED_SIGNATURE_BYTES
    ensures DecodeSignature(s) == Decode(s)
  {
    DecodeLength(s);
  }

  /** An encoded signature is accepted exactly up to 1024 bytes, and then unchanged. */
  lemma DecodeSignatureOfEncoding(signature: seq<byte>)
    ensures DecodeSignature(Encode(signature))
            == if |signature| <= MAX_REMOTE_RSA_SIGNATURE_BYTES then Some(signature) else None
  {
    EncodeLength(signature);
    DecodeEncode(signature);
  }

  // ---- The handle ----

  datatype Kind = SdJwt | JwtVc

  /** A prepared credential; `verifier` stands for its algorithm and issuer key. */
  datatype Prepared =
    | PreparedSdJwt(signingInput: string, disclosuresSuffix: string, credentialId: string, verifier: string)
    | PreparedJwtVc(signingInput: string, credentialId: string, verifier: string)
  {
    function Kind(): Kind {
      if PreparedSdJwt? then SdJwt else JwtVc
    }

    function Suffix(): string {
      if PreparedSdJwt? then disclosuresSuffix else ""
    }
  }

  /** Signature verification, about which nothing is assumed. */
  type Verifier = (Prepared, seq<byte>) -> bool

  /** The library's assembly step verifies once more and joins the parts. */
  function AssembleParts(validate: Verifier, prepared: Prepared, signature: seq<byte>): Option<string> {
    if !validate(prepared, signature) then None
    else Some(prepared.signingInput + "." + Encode(signature) + prepared.Suffix())
  }

  datatype Call = GetSigningInput | GetCredentialId | Assemble(kind: Kind, signature: string)

  datatype Outcome = Text(text: string) | Credential(compact: string, credentialId: string) | Failed

  type Handle = Option<Prepared>

  /** The call gets past decoding, the kind check and signature validation. */
  predicate Effective(validate: Verifier, h: Handle, call: Call) {
    && call.Assemble? && h.Some? && h.value.Kind() == call.kind
    && var signature := DecodeSignature(call.signature);
       signature.Some? && validate(h.value, signature.value)
  }

  /** What the caller gets: an effective assembly hands back the caller's own signature text. */
  function Answer(validate: Verifier, h: Handle, call: Call): Outcome {
    match call
    case GetSigningInput => if h.Some? then Text(h.value.signingInput) else Failed
    case GetCredentialId => if h.Some? then Text(h.value.credentialId) else Failed
    case Assemble(kind, signature) =>
      if !Effective(validate, h, call) then Failed
      else Credential(h.value.signingInput + "." + signature + h.value.Suffix(), h.value.credentialId)
  }

  /** An effective assembly takes the state out, whether or not the library then succeeds. */
  function Next(validate: Verifier, h: Handle, call: Call): Handle {
    if Effective(validate, h, call) then None else h
  }

  /** When an assembly answers with a credential, and what that credential is, part by part. */
  lemma Assembled(validate: Verifier, h: Handle, kind: Kind, text: string)
    ensures Answer(validate, h, Assemble(kind, text)).Credential? <==>
      && h.Some? && (kind == SdJwt <==> h.value.PreparedSdJwt?)
      && |text| <= 1366 && Decode(text).Some? && validate(h.value, Decode(text).value)
    ensures Answer(validate, h, Assemble(SdJwt, text)).Credential? ==>
      Answer(validate, h, Assemble(SdJwt, text))
      == Credential(h.value.signingInput + "." + text + h.value.disclosuresSuffix, h.value.credentialId)
    ensures Answer(validate, h, Assemble(JwtVc, text)).Credential? ==>
      Answer(validate, h, Assemble(JwtVc, text))
      == Credential(h.value.signingInput + "." + text, h.value.credentialId)
  {
    hide Decode;
    if |text| <= 1366 {
      SecondBoundNeverFires(text);
    }
    if h.Some? && h.value.PreparedJwtVc? {
      assert h.value.signingInput + "." + text + "" == h.value.signingInput + "." + text;
    }
  }

  class PreparedRemoteCredential {
    var inner: Handle

    constructor (prepared: Prepared)
      ensures inner == Some(prepared)
    {
      inner := Some(prepared);
    }

    method SigningInput(ghost validate: Verifier) returns (r: Outcome)
      ensures r == Answer(validate, inner, GetSigningInput) && inner == Next(validate, inner, GetSigningInput)
    {
      match inner
      case Some(prepared) => r := Text(prepared.signingInput);
      case None => r := Failed;
    }

    method CredentialId(ghost validate: Verifier) returns (r: Outcome)
      ensures r == Answer(validate, inner, GetCredentialId) && inner == Next(validate, inner, GetCredentialId)
    {
      match inner
      case Some(prepared) => r := Text(prepared.credentialId);
      case None => r := Failed;
    }

    /** `assemble_sd_jwt_impl` and `assemble_jwt_vc_impl`, which differ in the kind only. */
    method AssembleAs(kind: Kind, signatureText: string, validate: Verifier) returns (r: Outcome)
      modifies this
      ensures r == Answer(validate, old(inner), Assemble(kind, signatureText))
      ensures inner == Next(validate, old(inner), Assemble(kind, signatureText))
    {
      hide Decode, Encode;
      var signature := DecodeSignature(signatureText);
      if signature.None? {
        return Failed;
      }
      if inner.None? {
        return Failed;
      }
      if inner.value.Kind() != kind {
        return Failed;
      }
      if !validate(inner.value, signature.value) {
        return Failed;
      }
      var taken := inner;
      inner := None;
      assert taken.Some? && taken.value.Kind() == kind;  // the second pair of checks cannot fail
      var compact := AssembleParts(validate, taken.value, signature.value);
      if compact.None? {
        return Failed;
      }
      EncodeDecode(signatureText);
      return Credential(compact.value, taken.value.credentialId);
    }
  }

  // ---- Whole runs ----

  /** The handle after the first `n` calls. */
  function After(validate: Verifier, h: Handle, calls: seq<Call>, n: nat): Handle
    requires n <= |calls|
  {
    if n == 0 then h else Next(validate, After(validate, h, calls, n - 1), calls[n - 1])
  }

  /** What call `i` of the run answers. */
  function AnswerAt(validate: Verifier, h: Handle, calls: seq<Call>, i: nat): Outcome
    requires i < |calls|
  {
    Answer(validate, After(validate, h, calls, i), calls[i])
  }

  /** A call changes the handle exactly when it is effective; every other failure leaves it alone. */
  lemma OnlyEffectiveCallsConsume(validate: Verifier, h: Handle, call: Call)
    ensures Next(validate, h, call) != h <==> Effective(validate, h, call)
    ensures Answer(validate, h, call).Credential? <==> Effective(validate, h, call)
  {
  }

  /** Later handles are the original or empty, and empty stays empty. */
  lemma {:induction false} HandleOverTime(validate: Verifier, h: Handle, calls: seq<Call>, m: nat, n: nat)
    requires m <= n <= |calls|
    ensures After(validate, h, calls, n) in {h, None}
    ensures After(validate, h, calls, m) == None ==> After(validate, h, calls, n) == None
    decreases n
  {
    if n > 0 {
      HandleOverTime(validate, h, calls, if m == n then n - 1 else m, n - 1);
    }
  }

  /** Over every sequence of calls at most one is effective, so at most one assembly succeeds. */
  lemma AtMostOneAssembly(validate: Verifier, h: Handle, calls: seq<Call>, i: nat, j: nat)
    requires i < j < |calls|
    requires Effective(validate, After(validate, h, calls, i), calls[i])
    ensures AnswerAt(validate, h, calls, j) == Failed
    ensures !Effective(validate, After(validate, h, calls, j), calls[j])
  {
    hide DecodeSignature;
    assert After(validate, h, calls, i + 1) == None;
    HandleOverTime(validate, h, calls, i + 1, j);
  }

  lemma SuccessIsFinal(validate: Verifier, h: Handle, calls: seq<Call>, i: nat, j: nat)
    requires i < |calls| && j < |calls|
    requires AnswerAt(validate, h, calls, i).Credential? && AnswerAt(validate, h, calls, j).Credential?
    ensures i == j
  {
    hide DecodeSignature;
    OnlyEffectiveCallsConsume(validate, After(validate, h, calls, i), calls[i]);
    OnlyEffectiveCallsConsume(validate, After(validate, h, calls, j), calls[j]);
    if i < j {
      AtMostOneAssembly(validate, h, calls, i, j);
    } else if j < i {
      AtMostOneAssembly(validate, h, calls, j, i);
    }
  }

  /** Until an effective call, the handle and every answer it gives are those of the start. */
  lemma {:induction false} UnchangedUntilEffective(validate: Verifier, h: Handle, calls: seq<Call>, n: nat)
    requires n <= |calls|
    requires forall i :: 0 <= i < n ==> !Effective(validate, h, calls[i])
    ensures After(validate, h, calls, n) == h
    ensures n < |calls| ==> AnswerAt(validate, h, calls, n) == Answer(validate, h, calls[n])
  {
    hide DecodeSignature;
    if n > 0 {
      UnchangedUntilEffective(validate, h, calls, n - 1);
    }
  }

  /** The handle is spent after a run exactly when one of its calls assembled the credential. */
  lemma {:induction false} SpentIffEffective(validate: Verifier, h: Handle, calls: seq<Call>, n: nat)
    requires h.Some? && n <= |calls|
    ensures After(validate, h, calls, n) == None <==>
            exists i :: 0 <= i < n && AnswerAt(validate, h, calls, i).Credential?
  {
    hide DecodeSignature;
    if n > 0 {
      SpentIffEffective(validate, h, calls, n - 1);
      OnlyEffectiveCallsConsume(validate, After(validate, h, calls, n - 1), calls[n - 1]);
      assert AnswerAt(validate, h, calls, n - 1).Credential? ==> After(validate, h, calls, n) == None;
      HandleOverTime(validate, h, calls, n - 1, n - 1);
    }
  }
}
