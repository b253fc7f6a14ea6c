# Marty core: verified model

A Dafny model of the parts of Marty where the code itself, and not a cryptographic library, decides
what is right: the browser's streaming SHA-2 and the key derivations built on it, the bounded
public-JWK parser, the triple-DES and ISO 9796-2 encodings used with passport chips, the two release
decision scripts, the single-use remote-signing handle and the certificate revocation lookup.

Primitives whose strength is not the subject are parameters: the SHA-2 compression function, the DES
cipher family (required only to be a permutation for each key), the RSA operations (required only to be
inverse modulo the modulus), the hash functions of ISO 9796-2, the remote signature check, and Python's
`int` and `strip`.

Code that updates state in place is modelled in place (`SecureSha`, `HmacScratch`, the CBC buffers, the
parity adjustment, the parser's shared `Budget`, the credential handle, the derivation outputs), each
method proved against a specification function. The laws are then proved about those functions.

| file | subject |
|---|---|
| `Bytes.dfy` | bytes, big-endian numbers, exclusive or, output streams cut to a length |
| `Sha2.dfy`, `SecretHash.dfy` | FIPS 180-4 padding and chaining; the streaming hasher |
| `Hmac.dfy`, `Hkdf.dfy`, `Pbkdf2.dfy`, `ConcatKdf.dfy` | RFC 2104, RFC 5869, RFC 8018, RFC 7518 |
| `Jwk.dfy`, `JwkParser.dfy`, `JwkExtensions.dfy` | the key record, the bounded public-JWK parser, the extension validator |
| `JwkRoundTrip.dfy`, `JwkLifecycle.dfy` | writing and reading back; whole journeys from setter to reader and from reader to verifier |
| `Des.dfy` | triple-DES CBC, PKCS#7, the retail MAC, key parity |
| `Iso9796.dfy`, `Iso9796Scheme2.dfy` | ISO 9796-2 message recovery |
| `Affected.dfy` | packages affected by a change |
| `WorkflowGate.dfy`, `WorkflowTies.dfy` | the gate on workflow runs, and exactly when the order of the runs can decide it |
| `StableTag.dfy` | the stable-tag evidence protocol |
| `RemoteCredential.dfy` | unpadded base64url and the single-use handle |
| `Crl.dfy` | serial normal form and revocation lookup |
| `Wrappers.dfy` | optional values and results |

Check everything with `dafny verify dfyconfig.toml`.

## Where the code is not what one would expect

- ISO 9796-2 Scheme 1 accepts a message that leaves no room for padding (three bytes below the key size)
  and then recovers it with a zero byte in front (`Scheme1Boundary`). A key whose bit length is not a
  multiple of 8 can also reduce the representative, and such a signature verifies for no message
  (`Scheme1Reduced`). `Scheme1RoundTrip` gives the exact condition.
- A comment on ISO 9796-2 Scheme 2 gives 0xCC as the implicit trailer; the code, and the model, use 0xBC.
- ISO 9796-2 Scheme 2 documents a two-byte trailer of a zero and the hash identifier. The one-byte rule
  is tried first, so that trailer is always read as a hash ending in zero (`ZeroBeforeIdentifier`).
- Recovery has its own rule for the trailer length and drops the last byte of the recovered part exactly
  when a one-byte identifier follows a hash ending in zero and that part is not empty
  (`RecoveredFromEncoding`).
- Reading a key and validating its extensions charge different amounts for nulls and booleans, so a key
  can be read although its own extensions would be refused (`ReadableButRefused`);
  `ReadExtensionsRevalidate` says exactly when. The conversion into the verifier's key validates the
  extensions of a key already read and takes success for granted; `Convert` gives the exact condition.
- The newest workflow run is chosen by number. Between two runs with one number the first wins, so the
  order of the runs can decide (`TieIsDecidedByOrder`). It cannot decide whether a workflow is green
  exactly when the runs tied for the largest number agree on success (`OrderIrrelevantIff`), and it
  cannot decide whether the gate opens exactly under the condition of `OutcomeFixedIff`. With distinct
  numbers not even the kind of refusal depends on it (`RunOrderIrrelevant`).

## Model

| member | source | states |
|---|---|---|
| Sha2.PadZerosUnique | marty-crypto/src/secret_hash.rs:145-160 | the number of zero bytes in the padding is the only one below a block that ends on a block boundary (section 5.1 of FIPS 180-4) |
| Sha2.PadSuffixFree | marty-crypto/src/secret_hash.rs:145-160 | no padded message is a proper suffix of another: padding is injective and suffix free |
| Sha2.PadLayout | marty-crypto/src/secret_hash.rs:145-160 | the padded message is the message, the byte 0x80, zeros up to less than one more block, and the length in bits as the last number |
| Sha2.SerializeWord | marty-crypto/src/secret_hash.rs:161-164 | word i stands at its own place in the output, big-endian, whatever the number of words |
| Sha2.DigestWord | marty-crypto/src/secret_hash.rs:161-164 | the digest is the final chaining value word by word from the first, as far as the digest reaches (SHA-384: words 0 to 5) |
| Sha2.Sha256StateIsRoots | marty-crypto/src/secret_hash.rs:17-26 | the initial words are the first 32 fraction bits of the square roots of the first eight primes (section 5.3.3 of FIPS 180-4) |
| Sha2.Sha384StateIsRoots | marty-crypto/src/secret_hash.rs:28-37 | the first 64 fraction bits for the ninth to sixteenth prime (section 5.3.4 of FIPS 180-4) |
| Sha2.Sha512StateIsRoots | marty-crypto/src/secret_hash.rs:39-48 | the first 64 fraction bits for the first eight primes (section 5.3.5 of FIPS 180-4) |
| Sha2.FoldCollision | marty-crypto/src/secret_hash.rs:114-143 | equal chaining values of two block sequences mean one ends the other, or two inputs of the compression function collide |
| Sha2.ChainingValueCollision | marty-crypto/src/secret_hash.rs:114-167 | two messages with one final chaining value are equal, or the compression function collides |
| SecretHash.SecureSha.constructor | marty-crypto/src/secret_hash.rs:94-105 | a new hasher has read the empty message and its buffer belongs to it alone |
| SecretHash.SecureSha.CompressBuffer | marty-crypto/src/secret_hash.rs:169-176 | the full buffer is folded into the state, then erased and emptied |
| SecretHash.SecureSha.TopUp | marty-crypto/src/secret_hash.rs:120-128 | input first completes the carried-over block; the state stays the fold over all whole blocks, and either the buffer is empty or the input is used up |
| SecretHash.SecureSha.AbsorbBlocks | marty-crypto/src/secret_hash.rs:130-137 | whole blocks are folded straight from the input until less than a block is left |
| SecretHash.SecureSha.Update | marty-crypto/src/secret_hash.rs:114-143 | however a message is cut into calls, the state is the fold over its whole blocks and the buffer holds exactly the rest, shorter than a block |
| SecretHash.SecureSha.MarkEnd | marty-crypto/src/secret_hash.rs:150-155 | after the marker byte there is room for the length field, through one extra block of zeros when there was none |
| SecretHash.SecureSha.Seal | marty-crypto/src/secret_hash.rs:145-159 | the state becomes the fold over the padded message, in the one-block and the two-block case |
| SecretHash.SecureSha.Finish | marty-crypto/src/secret_hash.rs:270-293 | the result is the one-shot digest of everything read, cut to the digest length with zeros behind it, and nothing is left in the hasher |
| SecretHash.SecureSha.Clear | marty-crypto/src/secret_hash.rs:178-184 | every field and every buffer byte is zero |
| SecretHash.PaddingIs | marty-crypto/src/secret_hash.rs:150-158 | marker, fill and length written block by block are the padding of section 5.1 of FIPS 180-4 |
| SecretHash.SerializeState | marty-crypto/src/secret_hash.rs:161-164 | the words are written big-endian one after the other |
| Hmac.HashParts | marty-crypto/src/secret_hash.rs:328-351 | the digest of the parts joined, with the rest of the fixed-size output zero |
| Hmac.ZeroExtendedKey | marty-crypto/src/secret_hash.rs:407-413 | zeros appended to a key up to the block length change no MAC (section 2 of RFC 2104) |
| Hmac.LongKey | marty-crypto/src/secret_hash.rs:407-413 | a key longer than a block gives the MACs of its digest |
| Hmac.MacNests | marty-crypto/src/secret_hash.rs:415-432 | whatever blocks are the masked key, byte by byte, the MAC is the outer digest of the inner digest of the message |
| Hmac.SameKeyBlock | marty-crypto/src/secret_hash.rs:407-413 | and nothing else does: two keys up to a block long make one key block exactly when they differ in trailing zeros |
| Hmac.Remask | marty-crypto/src/secret_hash.rs:415-425 | masking the key block a second time in place turns the inner mask into the outer one |
| Bytes.XorBitwise | marty-crypto/src/secret_hash.rs:415-425 | each bit of an exclusive or is set exactly when the two bits differ |
| Hmac.XorInPlace | marty-crypto/src/secret_hash.rs:415-425 | every byte of the prefix is masked once, the rest is kept |
| Hmac.LoadKey | marty-crypto/src/secret_hash.rs:404-413 | a long key is replaced by its digest, a short one is zero-extended |
| Hmac.MacInto | marty-crypto/src/secret_hash.rs:395-433 | the MAC of section 2 of RFC 2104 over the message parts joined |
| Hmac.MacWithScratch | marty-crypto/src/secret_hash.rs:435-466 | on every exit the scratch is zero; the output is the MAC on success and all zero on a wrong length or a refused commit |
| Hmac.HmacScratch.Erase | marty-crypto/src/secret_hash.rs:358-363 | both scratch arrays are zero |
| Hkdf.Expand | marty-crypto/src/secret_hash.rs:518-541 | the loop writes exactly the first bytes of T(1), T(2), … (section 2.3 of RFC 5869) and its counter stays within one byte |
| Hkdf.OutputBlock | marty-crypto/src/secret_hash.rs:518-541 | each whole block of the output is the MAC, under the extracted key, of the block before it, the info and its own number |
| Hkdf.Derive | marty-crypto/src/secret_hash.rs:485-544 | succeeds exactly up to 255 digests and when the hook agrees; then the output is RFC 5869's, otherwise it is all zero |
| Hkdf.ShorterIsPrefix | marty-crypto/src/secret_hash.rs:518-541 | a shorter request gives a prefix of a longer one |
| Hkdf.SaltRulesAgree | marty-crypto/src/kdf.rs:181-230 | the native rule (a digest of zeros for an empty salt) and the browser rule (the salt as given) derive the same key for every salt |
| Pbkdf2.Turn | marty-crypto/src/secret_hash.rs:579-594 | one inner turn moves from U(j) to U(j+1) and adds it to the running exclusive or |
| Pbkdf2.Iterate | marty-crypto/src/secret_hash.rs:568-594 | one block is the exclusive or of U(1) to U(c) of section 5.2 of RFC 8018 |
| Pbkdf2.Derive | marty-crypto/src/secret_hash.rs:547-599 | the output is the blocks joined and cut to the requested length |
| Pbkdf2.OutputByte | marty-crypto/src/secret_hash.rs:547-599 | each output byte is the exclusive or of its column in the chain of MACs that starts from salt and block number |
| Pbkdf2.ShorterIsPrefix | marty-crypto/src/secret_hash.rs:595-599 | a shorter request gives a prefix of a longer one |
| ConcatKdf.OtherInfoInjective | marty-crypto/src/kdf.rs:260-322 | the length-prefixed information determines algorithm, both parties and bit length |
| ConcatKdf.OtherInfoReads | marty-crypto/src/kdf.rs:260-322 | read field by field, the context gives back algorithm, first party, second party and bit length in this order |
| ConcatKdf.OutputBlock | marty-crypto/src/kdf.rs:290-313 | each whole block of the output hashes its number, the secret and the context |
| ConcatKdf.PrefixedFront | marty-crypto/src/kdf.rs:315-322 | a length-prefixed field can be read back off the front of any text |
| ConcatKdf.AppendLengthPrefixed | marty-crypto/src/kdf.rs:315-322 | appends the prefixed field, or fails exactly when its length does not fit 32 bits |
| ConcatKdf.Sha256Parts | marty-crypto/src/secret_hash.rs:602-608 | the digest of counter, secret and information joined |
| ConcatKdf.Derive | marty-crypto/src/kdf.rs:260-313 | succeeds exactly on a non-empty secret, a length whose bit count fits 32 bits and short fields; the output is the cut stream of section 4.6.2 of RFC 7518, and the later repetition-count conversion cannot fail |
| JwkParser.Budget.Consume | marty-crypto/src/jwk.rs:126-133 | takes the amount when it is left and otherwise takes nothing and fails |
| JwkParser.ParseValue | marty-crypto/src/jwk.rs:136-245 | reads a value exactly when its shape is within the limits and its cost is left in the shared budget, and takes exactly that cost |
| JwkParser.ParseItems | marty-crypto/src/jwk.rs:197-217 | the same for an array: at most 128 items |
| JwkParser.ParseMembers | marty-crypto/src/jwk.rs:219-245 | the same for an object: at most 32 members, distinct short names |
| JwkParser.ParseTexts | marty-crypto/src/jwk.rs:62-117 | a list field is null or at most 128 short strings, and nothing else |
| JwkParser.ParseMember | marty-crypto/src/jwk.rs:440-516 | one member is accepted exactly when its kind's rule holds, its cost is left and the extension count is not exhausted |
| JwkParser.StoreHolds | marty-crypto/src/jwk.rs:471-517 | the record under construction holds exactly the members read so far, under every kind of field |
| JwkParser.Deserialize | marty-crypto/src/jwk.rs:421-526 | accepts exactly the trees the declarative predicate describes; then the record holds the members and the budget left is 65536 minus the cost of the whole tree |
| JwkLifecycle.AcceptsSays | marty-crypto/src/jwk.rs:471-526 | an accepted key has `kty`, distinct names, none of the nine private members, and the right type under every typed name |
| JwkLifecycle.NullMember | marty-crypto/src/jwk.rs:449-469 | a typed optional member that is null costs its name only and leaves the record as it is |
| JwkExtensions.SizeMeaning | marty-crypto/src/jwk.rs:247-286 | the validator's recursion with checked additions returns the size exactly when the shape limits hold and the size fits the machine word |
| JwkExtensions.ReservedNames | marty-crypto/src/jwk.rs:21-24 | the reserved list is exactly the typed and private members |
| JwkExtensions.ValidateMeaning | marty-crypto/src/jwk.rs:288-315 | extensions pass exactly when few enough, unreserved, short-named, within the shape limits and within the size limit |
| JwkExtensions.CostAgainstSize | marty-crypto/src/jwk.rs:158-286 | validator size is parser cost plus 7 for each null and boolean, so cost <= size <= 8 times cost, for every value |
| JwkExtensions.CostAndSize | marty-crypto/src/jwk.rs:158-286 | reading charges 1 for a null or boolean, 8 for a number and 1 for each character of strings and names; the validator charges 8, 8 and 1 |
| JwkExtensions.MembersCostAndSize | marty-crypto/src/jwk.rs:158-315 | the same two tables for every list of members |
| JwkExtensions.ShapeLimits | marty-crypto/src/jwk.rs:153-286 | strings of 16384, arrays of 128, objects of 32 members and eight levels of nesting are within the limits, and nothing beyond |
| JwkExtensions.MembersCostAgainstSize | marty-crypto/src/jwk.rs:158-315 | the same relation for every list of members |
| JwkExtensions.PublicJwk.SetPublicExtensions | marty-crypto/src/jwk.rs:549-556 | replaces the extensions when they are valid and otherwise changes nothing |
| JwkRoundTrip.WriteSerialises | marty-crypto/src/jwk.rs:318-419 | writing a record gives distinct members that hold exactly its fields and extensions |
| JwkRoundTrip.HoldsUnique | marty-crypto/src/jwk.rs:421-526 | members determine the record |
| JwkRoundTrip.WrittenIsAccepted | marty-crypto/src/jwk.rs:318-526 | what is written is accepted exactly when the typed fields are within their limits and typed cost plus extension cost is at most 65536 |
| JwkRoundTrip.Reparse | marty-crypto/src/jwk.rs:533-572 | reading any members that write a key gives the same record under exactly that condition and fails otherwise |
| JwkLifecycle.SameListing | marty-crypto/src/jwk.rs:288-315 | two listings of one extension map are permutations of each other |
| JwkLifecycle.ListingIrrelevant | marty-crypto/src/jwk.rs:288-315 | validity, cost and size of extensions do not depend on the order in which the map lists them |
| JwkLifecycle.ExtensionsOfWritten | marty-crypto/src/jwk.rs:318-419 | the extension members of a written key are exactly the listed extensions |
| JwkLifecycle.WrittenTypedCost | marty-crypto/src/jwk.rs:449-516 | the typed cost of a written key is the names and characters of the fields it has |
| JwkLifecycle.WriteRead | marty-crypto/src/jwk.rs:533-572 | a key with valid extensions is read back from its own writing exactly when the typed fields are within their limits and typed cost plus extension cost is at most 65536 |
| JwkLifecycle.SetWriteRead | marty-crypto/src/jwk.rs:533-572 | extensions are installed exactly when valid, and what was installed survives writing and reading under exactly that condition, whatever orders the setter and the writer see |
| JwkLifecycle.Convert | marty-verification/src/jwk/public_key.rs:6-30 | the conversion of a key just read gives the same key exactly when the validator size of its extensions is at most 65536 |
| JwkRoundTrip.MemberOrderIrrelevant | marty-crypto/src/jwk.rs:432-522 | acceptance, total cost and the record do not depend on the order of the members |
| JwkRoundTrip.ReadExtensionsRevalidate | marty-crypto/src/jwk.rs:288-315 | the extensions of a key that was read pass the validator exactly when their validator size is at most 65536 |
| JwkRoundTrip.ReadableButRefused | marty-crypto/src/jwk.rs:158-315 | a key of moderate size (9000 nulls) that is read although the validator refuses its extensions |
| Des.CbcRoundTrip | marty-crypto/src/des.rs:102-147 | CBC decryption undoes CBC encryption for every cipher family |
| Des.CbcReverseRoundTrip | marty-crypto/src/des.rs:102-147 | and encryption undoes decryption |
| Des.CbcBlock | marty-crypto/src/des.rs:102-119 | block by block: each ciphertext block encrypts its data block masked with the ciphertext block before it |
| Des.KeyParts | marty-crypto/src/des.rs:102-147 | the three key parts act in the order encrypt, decrypt, encrypt |
| Des.UnpadPkcs7 | marty-crypto/src/des.rs:166-234 | unpadding undoes padding for every message |
| Des.Pkcs7Unpad | marty-crypto/src/des.rs:205-234 | only canonical paddings are removed |
| Des.PaddedRoundTrip | marty-crypto/src/des.rs:166-234 | padded decryption undoes padded encryption for messages of any length |
| Des.PaddedReverseRoundTrip | marty-crypto/src/des.rs:166-234 | every ciphertext that decrypts is the encryption of what it decrypts to |
| Des.EncryptInPlace | marty-crypto/src/des.rs:102-119 | the buffer is encrypted in place block by block, each block masked with the one before |
| Des.DecryptInPlace | marty-crypto/src/des.rs:132-147 | the buffer is decrypted in place although each ciphertext block is overwritten before the next needs it |
| Des.TdesCbcEncrypt | marty-crypto/src/des.rs:102-119 | fails exactly on a wrong key, vector or data length and otherwise encrypts |
| Des.TdesCbcDecrypt | marty-crypto/src/des.rs:132-147 | fails exactly on a wrong key, vector or data length and otherwise decrypts |
| Des.TdesCbcEncryptPadded | marty-crypto/src/des.rs:166-192 | any length is encrypted; the ciphertext is 8(len/8 + 1) bytes and fits the buffer of len + 8 |
| Des.TdesCbcDecryptPadded | marty-crypto/src/des.rs:205-234 | fails exactly on wrong sizes or a wrong padding and otherwise returns the message |
| Des.IsoPadInjective | marty-crypto/src/des.rs:267-272 | padding method 2 is injective |
| Des.RepeatedKeyCollapses | marty-crypto/src/des.rs:35-46 | triple encryption under K, K, K is single encryption under K |
| Des.MacIsLastBlock | marty-crypto/src/des.rs:256-295 | the chained MAC is the last block of one CBC encryption of the whole padded message |
| Des.ExpandRepeated | marty-crypto/src/des.rs:35-46 | the expanded key is the component three times |
| Des.PadIso | marty-crypto/src/des.rs:268-272 | the loop pads to whole blocks, always adding the marker |
| Des.ComputeRetailMac | marty-crypto/src/des.rs:256-295 | fails exactly on a key that is not 16 bytes; otherwise MAC algorithm 3 of ISO/IEC 9797-1: E_K1(D_K2(CBC-MAC_K1(padded message))) |
| Des.RetailMacUndone | marty-crypto/src/des.rs:256-295 | undoing the last two steps, with the first key and then the second, leaves the last block of one CBC encryption of the padded message |
| Des.AdjustParity | marty-crypto/src/des.rs:301-308 | every byte gets odd parity, its upper seven bits stay and a byte that had odd parity is not changed |
| Iso9796.OpenSealed | marty-crypto/src/iso9796.rs:147-155 | opening a sealed encoding below the modulus gives it back, leading zeros included |
| Iso9796.OpenReduced | marty-crypto/src/iso9796.rs:147-158 | an encoding not below the modulus comes back with a smaller leading byte |
| Iso9796.ParseScheme1 | marty-crypto/src/iso9796.rs:169-188 | the index loop finds the end of the padding run and its separator |
| Iso9796.Scheme1Language | marty-crypto/src/iso9796.rs:169-188 | the parser accepts exactly the padded form and the legacy form without padding |
| Iso9796.Scheme1RoundTrip | marty-crypto/src/iso9796.rs:193-215 | for every key and message the signer accepts, recovery returns the message exactly when there is a padding byte and the representative is below the modulus |
| Iso9796.Scheme1Accepts | marty-crypto/src/iso9796.rs:136-188 | of all signatures, exactly those of the key size that open to the padded or the legacy form of the message verify, and give it back |
| Iso9796.Scheme1VerifyExact | marty-crypto/src/iso9796.rs:136-167 | then verification accepts that message and no other |
| Iso9796.WholeBytesRecoverable | marty-crypto/src/iso9796.rs:193-215 | a modulus of whole bytes never reduces, so a message the signer accepts is recoverable exactly when it is more than three bytes below the key size |
| Iso9796.Scheme1Boundary | marty-crypto/src/iso9796.rs:193-215 | exactly three bytes below, and not reduced, recovery returns a zero byte and the message, and verification accepts that alone |
| Iso9796.Scheme1Reduced | marty-crypto/src/iso9796.rs:136-167 | a reduced representative verifies for no message |
| Iso9796.SmallestModulusReduces | marty-crypto/src/iso9796.rs:193-215 | for every key size there is a lawful key that reduces every message |
| Iso9796Scheme2.VerifyOpened | marty-crypto/src/iso9796.rs:218-314 | header and trailer length follow from the last bytes; the source's third choice of what the hash covers is never reached |
| Iso9796Scheme2.CheckEmbedded | marty-crypto/src/iso9796.rs:292-313 | the embedded hash must cover the message when the recovered part begins it and both joined otherwise |
| Iso9796Scheme2.RecoverOpened | marty-crypto/src/iso9796.rs:375-405 | the recovered part under recovery's own trailer rule |
| Iso9796Scheme2.RecoveredIs | marty-crypto/src/iso9796.rs:375-405 | from any opened signature long enough, recovery returns what follows the padding run and the byte that ends it |
| Iso9796Scheme2.VerdictOnEncoding | marty-crypto/src/iso9796.rs:218-314 | every well-formed encoding verifies exactly when its hash covers the right bytes |
| Iso9796Scheme2.AcceptedIsEncoding | marty-crypto/src/iso9796.rs:218-314 | whatever verifies is a well-formed encoding with the right hash |
| Iso9796Scheme2.Scheme2Accepts | marty-crypto/src/iso9796.rs:218-314 | of all signatures, exactly those of the key size that open to an encoding with one of the three separators and the right hash verify |
| Iso9796Scheme2.EncodingEnds | marty-crypto/src/iso9796.rs:244-263 | 0x4B goes with the implicit trailer 0xBC and 0x6A with every other |
| Iso9796Scheme2.SignedMessageVerifies | marty-crypto/src/iso9796.rs:218-314 | an encoding of H(M1 M2) verifies against M1 M2, and against M2 alone unless M1 begins M2 |
| Iso9796Scheme2.ZeroBeforeIdentifier | marty-crypto/src/iso9796.rs:244-258 | a zero before the identifier is read as the last byte of the hash |
| Iso9796Scheme2.RecoveredFromEncoding | marty-crypto/src/iso9796.rs:375-405 | recovery returns M1, without its last byte exactly in the confusing case |
| Iso9796Scheme2.SignatureRoundTrip | marty-crypto/src/iso9796.rs:218-408 | for every encoding below the modulus, the signature verifies against M1 M2 and, unless M1 begins it, M2; recovery returns M1 exactly outside the confusing case |
| Iso9796Scheme2.WholeBytesEncode | marty-crypto/src/iso9796.rs:218-238 | a modulus of whole bytes is above every encoding of its length |
| Iso9796Scheme2.ReducedImplicit | marty-crypto/src/iso9796.rs:218-263 | an implicit-trailer encoding that the modulus reduces verifies for no message |
| Affected.FindOwner | scripts/ci_affected_packages.py:39-45 | the owner's root is above the path and continues every other root above it, and of several packages with that root the owner has the last name; none exactly when no root is above the path |
| Affected.OwnsMeaning | scripts/ci_affected_packages.py:39-45 | the same, as the exact meaning of ownership |
| Affected.NameFirstDifference | scripts/ci_affected_packages.py:44-45 | names are compared at their first difference, and a beginning comes first |
| Affected.SourcesMatter | scripts/ci_affected_packages.py:36-38 | Rust sources with a stem and manifests count, in any directory |
| Affected.NothingElseMatters | scripts/ci_affected_packages.py:36-38 | and nothing else does |
| Affected.InvalidatesExactly | scripts/ci_affected_packages.py:11-23 | three files at the top and everything under .cargo rebuild everything |
| Affected.WorkspaceIs | scripts/ci_affected_packages.py:25-27 | the workspace is exactly the packages whose ids are members |
| Affected.RootIsLast | scripts/ci_affected_packages.py:28-33 | a name stands for the root of the last package that has it |
| Affected.OwnerUnique | scripts/ci_affected_packages.py:39-45 | a path has at most one owner |
| Affected.FindDirectlyChanged | scripts/ci_affected_packages.py:35-45 | exactly the owners of the changed Rust sources and manifests |
| Affected.ReverseDependencies | scripts/ci_affected_packages.py:47-53 | the map relates exactly the workspace packages one of which lists the other |
| Affected.ClosureIsLeast | scripts/ci_affected_packages.py:55-63 | packages with a dependency path to a changed one are the least set that holds the changed ones and is closed under reverse dependencies |
| Affected.CloseOver | scripts/ci_affected_packages.py:55-63 | the worklist computes that set on every graph, cyclic ones included; the log of what enters the queue lists each affected package exactly once, and all of it is served |
| Affected.VisitConsumers | scripts/ci_affected_packages.py:58-62 | exactly the consumers not yet affected join the affected set, and they join queue and log together, each once |
| Affected.AffectedPackages | scripts/ci_affected_packages.py:18-63 | everything exactly when a root invalidator changed, otherwise the closure of the owners |
| Affected.AffectedRules | scripts/ci_affected_packages.py:35-63 | the owner of every changed file is affected, and so is every package that lists an affected one |
| Affected.AffectedUnion | scripts/ci_affected_packages.py:35-63 | the result for two path lists joined is the union of the two results |
| WorkflowGate.ReadPage | scripts/stable_tag_gate.py:90-102 | a page is accepted exactly when it is an object whose runs are a list of objects, and then gives those runs in order |
| WorkflowGate.WorkflowRuns | scripts/stable_tag_gate.py:90-102 | the runs of all pages in order, or a refusal when one page is malformed |
| WorkflowGate.RunsAre | scripts/stable_tag_gate.py:90-102 | a run was collected exactly when it stands in some page |
| WorkflowGate.RunIdSays | scripts/stable_tag_gate.py:146 | how a run is numbered: its integer, its text as the library reads it, zero when missing |
| WorkflowGate.LatestIsFirstOfLargest | scripts/stable_tag_gate.py:134-146 | the chosen run is numbered above every run before it and below none |
| WorkflowGate.GreenMeaning | scripts/stable_tag_gate.py:134-152 | a workflow is green exactly when its highest-numbered matching run is completed and successful |
| WorkflowGate.GreenOnCommit | scripts/stable_tag_gate.py:134-152 | green means a completed successful run with that path, event and exactly that commit, not the gating run itself, and none there numbered higher |
| WorkflowGate.VerdictSays | scripts/stable_tag_gate.py:142-152 | waiting, refusal and failure each have their reason in the runs on that commit |
| WorkflowGate.GateDemands | scripts/stable_tag_gate.py:105-161 | an open gate has seen the right schema, a non-empty list of different well-formed items, each shown green on the commit, and reports each with its success |
| WorkflowGate.ReportSays | scripts/stable_tag_gate.py:153-160 | a report has four fields: the workflow, and number and conclusion of its run |
| WorkflowGate.CheckMeaning | scripts/stable_tag_gate.py:105-161 | accepted exactly when the policy keys are valid and distinct and every one is green; the report mirrors the policy one for one |
| WorkflowGate.ValidateWorkflowRuns | scripts/stable_tag_gate.py:105-161 | the loop with its set of seen keys gives that verdict, including which failure comes first |
| WorkflowGate.RunOrderIrrelevant | scripts/stable_tag_gate.py:90-161 | with distinct run numbers, re-paging, permuting or adding runs that do not count changes nothing |
| WorkflowGate.TieIsDecidedByOrder | scripts/stable_tag_gate.py:134-149 | two runs with one number where the order decides: the input for which order independence fails |
| WorkflowTies.GreenBetween | scripts/stable_tag_gate.py:134-152 | green implies some run with the largest number succeeded; all of them succeeding implies green |
| WorkflowTies.OrderIrrelevantIff | scripts/stable_tag_gate.py:134-152 | no re-ordering, repetition or addition of runs that do not count changes whether a workflow is green, exactly when the runs tied for the largest number agree on success |
| WorkflowTies.LeadersOpen | scripts/stable_tag_gate.py:121-161 | with one largest run per required workflow listed first, the check passes exactly when all of those succeeded |
| WorkflowTies.OutcomeFixedIff | scripts/stable_tag_gate.py:90-161 | no re-paging or re-ordering changes whether the gate opens, exactly when a policy whose workflows could all pass has all their tied runs successful |
| StableTag.TagLanguage | scripts/stable_tag_gate.py:43-47 | accepted tags are exactly v and three dotted numbers without leading zeros, and the version is the tag without the v |
| StableTag.TagsAreVersions | scripts/stable_tag_gate.py:17-47 | accepted tags are exactly v and three numbers in decimal notation |
| StableTag.ShaIsTwentyBytes | scripts/stable_tag_gate.py:18 | commit and tag-object names are exactly the lower-case hexadecimal encodings of twenty bytes |
| StableTag.RecordTagSays | scripts/stable_tag_gate.py:183-193 | recording needs the schema, a tag-object name and the prepared commit, sets two fields and changes no other |
| StableTag.ParseTagMessage | scripts/stable_tag_gate.py:196-208 | accepted exactly when no field is set twice and the marker is set to the schema; the result holds exactly the fields set |
| StableTag.MarkerIs | scripts/stable_tag_gate.py:196-208 | a field of the result is one line of the message and only one |
| StableTag.FieldsUnique | scripts/stable_tag_gate.py:196-208 | a message has one reading |
| StableTag.ValidateReleaseProof | scripts/stable_tag_gate.py:211-264 | accepts exactly when message, run, release and evidence agree in every compared field, and never crashes |
| StableTag.ReleasedSays | scripts/stable_tag_gate.py:211-264 | everything an accepted release has been checked for, field by field: tag, message, run, evidence, and one preparation run named by all three |
| StableTag.OtherKeysSetNothing | scripts/stable_tag_gate.py:198-205 | a line with any other key sets no field |
| StableTag.OneIdentityPerEvidence | scripts/stable_tag_gate.py:211-264 | one evidence document is accepted for at most one repository, tag, commit and tag object |
| StableTag.ReleasedAsPrepared | scripts/stable_tag_gate.py:164-264 | over a whole run, what is released is what was prepared and recorded, on the then head of main with the tag's version, and every required workflow has a successful newest run on exactly that commit |
| StableTag.HonestRunCompletes | scripts/stable_tag_gate.py:164-264 | with the message the preparation writes and its own successful run, recording and releasing what was prepared never fails |
| StableTag.WrittenMessageParses | scripts/test_stable_tag_gate.py:113-119 | the written tag message parses back to its three fields, whatever the title |
| StableTag.SomeReleaseIsAccepted | scripts/stable_tag_gate.py:211-264 | whole accepted runs exist |
| RemoteCredential.DecodeEncode | marty-bindings/src/remote_credential.rs:63-81 | decoding undoes encoding for every byte string |
| RemoteCredential.EncodeDecode | marty-bindings/src/remote_credential.rs:63-81 | only canonical text decodes |
| RemoteCredential.DecodeLength | marty-bindings/src/remote_credential.rs:63-81 | decoded length is three quarters of the text, rounded down |
| RemoteCredential.EncodeGroup | marty-bindings/src/remote_credential.rs:63-81 | each three bytes are encoded on their own, in order, a last one or two as if zeros followed (section 4 of RFC 4648) |
| RemoteCredential.SextetsNumber | marty-bindings/src/remote_credential.rs:63-81 | the four sextets and the three bytes are one number |
| RemoteCredential.Alphabet | marty-bindings/src/remote_credential.rs:63-81 | the alphabet of section 5 of RFC 4648 |
| RemoteCredential.SecondBoundNeverFires | marty-bindings/src/remote_credential.rs:63-81 | text within the first bound never exceeds the second |
| RemoteCredential.DecodeSignatureOfEncoding | marty-bindings/src/remote_credential.rs:63-81 | the two bounds together accept exactly the signatures of at most 1024 bytes |
| RemoteCredential.PreparedRemoteCredential.SigningInput | marty-bindings/src/remote_credential.rs:31-42 | the signing input while the handle is unspent, an error afterwards; nothing changes |
| RemoteCredential.PreparedRemoteCredential.CredentialId | marty-bindings/src/remote_credential.rs:43-53 | the identifier while the handle is unspent, an error afterwards; nothing changes |
| RemoteCredential.PreparedRemoteCredential.AssembleAs | marty-bindings/src/remote_credential.rs:168-205 | succeeds and spends the handle exactly for an unspent handle, the right kind and a valid signature; any other call changes nothing, and the second kind check cannot fail |
| RemoteCredential.Assembled | marty-bindings/src/remote_credential.rs:168-205 | a credential comes back exactly for an unspent handle of that kind and a valid signature text of at most 1366 characters; it is the signing input, a dot, that text and, for SD-JWT alone, the disclosures |
| RemoteCredential.OnlyEffectiveCallsConsume | marty-bindings/src/remote_credential.rs:324-358 | a call changes the handle exactly when it returns a credential |
| RemoteCredential.AtMostOneAssembly | marty-bindings/src/remote_credential.rs:168-205 | in every sequence of calls, everything after the first assembly fails |
| RemoteCredential.SuccessIsFinal | marty-bindings/src/remote_credential.rs:168-205 | no sequence has two successful assemblies |
| RemoteCredential.UnchangedUntilEffective | marty-bindings/src/remote_credential.rs:324-358 | failed calls, however many, leave the handle and every later answer as they were |
| RemoteCredential.SpentIffEffective | marty-bindings/src/remote_credential.rs:168-205 | a handle is spent exactly when some call returned a credential |
| Crl.NormalizeValue | marty-crypto/src/crl.rs:282-291 | normalising keeps the number, and keeps what is not hexadecimal not hexadecimal |
| Crl.NormalUnique | marty-crypto/src/crl.rs:282-291 | a number has one normal form |
| Crl.NormalFormDecidesEquality | marty-crypto/src/crl.rs:282-291 | one normal form exactly when one number, for any length, case and leading zeros |
| Crl.NormalizeIdempotent | marty-crypto/src/crl.rs:282-291 | normalising twice is normalising once, for every string |
| Crl.HexEncodeValue | marty-crypto/src/crl.rs:220-225 | a listed serial is written as the number its bytes denote |
| Crl.ExtractSerials | marty-crypto/src/crl.rs:220-225 | the listed serials, encoded one for one in order |
| Crl.IsRevoked | marty-crypto/src/crl.rs:294-301 | true exactly when the query is hexadecimal and some listed serial is the same number |

## Left out

- The compression functions, DES rounds, RSA arithmetic and the strength of any of them: they are parameters with the laws named above.
- Word width of the chaining values: they are natural numbers, and only their serialisation is cut to the word length.
- SecretHash.SecureSha.Finish: one class stands for `SecureSha256` and `SecureSha512`; the digest length is that of the algorithm, not a field that is erased.
- Erasure on drop, on unwinding and of spare capacity, and timing: erasure is the value of the owned arrays at return.
- The native AWS-LC paths of HMAC, HKDF and PBKDF2, except for the native salt rule.
- Pbkdf2.Derive: the source's two assertions (iterations not zero, block count within 32 bits) are preconditions, since the source panics there.
- JSON text, UTF-8 and floating point: the parser works on trees, a string's length is its number of characters, and numbers are opaque.
- The remaining conversions of `jwk.rs` (keys and certificates to JWK), which call external libraries.
- Error message texts: errors are told apart only where a caller can act on them.
- The scheme dispatch of ISO 9796-2 and its missing-hash error; a slice out of range there is an `OutOfBounds` error instead of a panic.
- Affected.AffectedPackages: returns a set; the source sorts it. Path splitting by `pathlib`, git and cargo calls are not modelled.
- Git, the network, files and the command line of the release scripts and workflows: their results are parameters.
- Python's `splitlines`, `strip` and `int`: a message arrives as its lines, the other two are parameters; Python floating-point numbers do not occur in documents.
- CRL parsing, signatures, CRL numbers and freshness (`validate_crl_freshness` is three comparisons on the clock).
- Lower-casing of characters outside ASCII in serial queries.
- Preparation of remote credentials (claims, headers, disclosures): a prepared credential is given.
- Thin Python bindings, certificate building, key generation, PKCS#12, BBS, curves, biometrics and the fixed-file release checks.
