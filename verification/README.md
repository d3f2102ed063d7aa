# Verified model of the webtoken core

webtoken is a Rust library behind a Python module for JOSE (JWE, JWK), PASETO v4 and PASERK. This project models
the parts it computes itself and proves what they are for. Ciphers, hashes, MACs, signatures, Argon2, X25519, DEFLATE,
the random generator and serde_json are library code: they enter as function values, with only the laws a proof
needs (a stream cipher undoes itself, key agreement commutes, unwrapping undoes wrapping, output lengths). `None` stands
for a library call that refuses. A Rust `&str` is its UTF-8 bytes, `u8` is `byte`, `BigUint` is `nat`, and machine widths
are written out where they matter (16-bit DER lengths, 64-bit DER length accumulator, `u32` and `u64` costs, `u8` counter).

Functions that compute a value in the source are Dafny functions. Code that changes buffers, readers, headers or arrays
step by step is a Dafny method or class with loops, proved equal to a function of its inputs or of the old state. What
such a function means is stated without it: the modules ending in `Relation`, with `RsaSearch`, `Base64Bits` and
`CalendarFacts`, describe each operation as a relation over the library operations, literal names, octets and lengths and
the elements of DER or base64, and prove that the operation returns a value exactly when the relation holds for it.

| files | what they model |
|---|---|
| `Bytes`, `Text`, `Json`, `Base64`, `Base64Bits` | byte strings, dot-separated texts, JSON values, the four base64 engines and what their texts are bit by bit |
| `Congruence`, `Primes` | the number theory needed: Bezout, Euclid's lemma, Fermat, Chinese remainders, a non-residue |
| `RsaMath`, `RsaRecovery`, `RsaWitnesses`, `RsaSearch`, `RsaCrt` | recovery of the primes from (n, e, d), how many witnesses succeed, which call finds what, CRT parameters, decryption |
| `Der`, `DerCode` | the DER encoder and the cursor-based reader |
| `KeyFormats`, `KeyCode`, `KeyRoundTrip`, `KeyDispatch`, `KeyRelation`, `ParserRelation` | key printer, key parsers, order of the trials |
| `X509`, `NameRelation`, `Asn1Time`, `CalendarFacts` | certificate subjects and name walkers, times |
| `Pem`, `Ssh`, `PemKeys`, `PemKeysCode`, `PemRelation` | PEM armour, OpenSSH lines, and the whole way from text to key |
| `Kdf` | HKDF, Concat KDF, PBKDF2 |
| `Paseto`, `PasetoRelation`, `Paserk`, `PaserkTexts`, `PaserkCode`, `PaserkRelation` | v4 tokens and the four PASERK modes |
| `Jwe`, `JweCode`, `JweRelation` | JWE compact serialisation |

What the proofs found about the code:

- `recover_primes` squares t - 1 times where Appendix C.1 of SP 800-56B Rev. 2 squares once more. Every trial with a
  witness coprime to n is conclusive exactly when lambda(n) divides (d e - 1) / 2; phi(n) | d e - 1 implies that. Recovery
  of an RSA key can succeed for some random draws exactly when d e = 1 modulo 4. The valid key n = 77, e = 7, d = 13 is
  never recovered. When every trial is conclusive, at least half of the residues coprime to n are successful witnesses.
- The DER encoder's two-byte length form makes an element readable exactly when its content is shorter than 65536 bytes.
- An EC private key survives printing and parsing exactly when y is as long as x or one byte longer, which
  `validate_ec_coordinates` guarantees. An Edwards-curve SubjectPublicKeyInfo reaches its own parser exactly when its key
  bytes are not themselves a SEQUENCE of two INTEGERs; a 32-byte key that is one is exhibited.
- The extractor of `pem_to_jwk` reads a printed PEM text back exactly when there is data and the tag does not hold the
  footer mark, while `decode_key_bytes` reads every one back.
- `ssh_to_pem` panics on an ssh-rsa blob with an empty exponent or modulus, and `pem_to_jwk` with it, because
  `encode_der_int` subtracts one from the length; neither panics on anything else.
- `parse_rsa_public` takes a SubjectPublicKeyInfo of any algorithm; `parse_ec_private` falls back to the whole input when
  the header cannot be read, and lets the inner parameters override the curve of the header; no parser looks at what
  follows the elements it reads.
- The comment on `parse_asn1_time` claims validity from 1970 to 2100; for dates of the calendar the result is right exactly
  from 1970 on, and the UTCTime years 1950 to 1969 count as 1970. A field may carry a plus sign, and one that is no number
  silently becomes its default.
- v4 tokens with an empty footer are also accepted with a dangling dot. `decode_paserk` ignores a fourth part after a
  sealed key, and the type the caller asked for; for plain keys it takes any type the caller names. It wants 120 bytes
  of PBKW data where `paserk_unwrap_pbkw` wants 88.
- AES key wrap and AES-GCM accept only 16- and 32-byte keys, so A192GCM, ECDH-ES+A192KW, PBES2-HS384+A192KW and A192KW
  with a 24-byte key never encrypt. For AES-GCM the reader does not check where the ciphertext ends and the tag begins.

## Model

| member | source | states |
|---|---|---|
| RsaMath.ExtendedGcdBezout | src/crypto.rs:137-140 | a x + b y = g for all integers, with the truncating division of BigInt |
| RsaMath.ExtendedGcdIsGcd | src/crypto.rs:137-140 | for non-negative inputs g is the greatest common divisor |
| RsaMath.ModInverseCorrect | src/crypto.rs:130-135 | `mod_inverse` answers exactly for the units modulo m, with the inverse in [0, m), despite the signed remainder |
| RsaMath.InverseUnique | src/crypto.rs:130-135 | x below m is the answer exactly when a x leaves 1 modulo m |
| RsaMath.GenWitness | src/crypto.rs:89-99 | ten draws at most, a failing generator ends the search, and any answer g has 1 < g < n |
| RsaMath.RootSplits | src/crypto.rs:112-115 | a square root of 1 other than 1 and n - 1 gives a proper factor, for any modulus, and y - 1 does not underflow |
| RsaMath.RecoverPrimes | src/crypto.rs:101-121 | the loops return the first factor the witnesses yield (RsaSearch.RecoveredIff says which), and a returned pair multiplies to n with 1 < p < n |
| RsaRecovery.FirstFactorSound | src/crypto.rs:106-119 | whatever the modulus, exponents and draws, both returned numbers lie strictly between 1 and n and multiply to n |
| RsaRecovery.TrialConclusiveIff | src/crypto.rs:107-118 | on an RSA key, no trial with a coprime witness runs out of squarings exactly when p - 1 and q - 1 divide (d e - 1) / 2 |
| RsaRecovery.StuckWitness | src/crypto.rs:110-118 | if p - 1 does not divide (d e - 1) / 2, some coprime witness runs out |
| RsaRecovery.PhiKeyConclusive | src/crypto.rs:106-119 | phi(n) dividing d e - 1 makes every trial conclusive |
| RsaRecovery.SuccessfulWitness | src/crypto.rs:107-116 | if d e = 1 modulo 4, a coprime witness exists on which the trial returns a factor |
| RsaRecovery.WitnessDrawn | src/crypto.rs:90-96 | every residue above 1 is settled on by some draws of the right length |
| RsaRecovery.NeverFactors | src/crypto.rs:106-120 | with at most one halving the squaring loop is empty and nothing is ever found |
| RsaRecovery.RecoverableIff | src/crypto.rs:101-121 | recovery of an RSA key can succeed exactly when d e = 1 modulo 4 |
| RsaRecovery.RecoveredPrimes | src/crypto.rs:101-121 | whatever is recovered from an RSA key is its own pair of primes |
| RsaRecovery.UnrecoverableKey | src/crypto.rs:101-121 | n = 77, e = 7, d = 13 is a valid key from which no draws recover the primes |
| RsaWitnesses.HalfTheWitnesses | src/crypto.rs:101-121 | when every trial is conclusive, at least half of the residues coprime to n are witnesses that return a factor |
| RsaSearch.RecoveredIff | src/crypto.rs:89-121 | for d e - 1 = r 2^t with r odd and any draws: (p, q) is returned exactly when some call is the first whose witness, the first residue above 1 among its draws, meets a root of 1 other than 1 and n - 1 among the t - 1 squarings, and p is the gcd of that root less 1 with n; nothing is returned exactly when no call does |
| RsaCrt.RecoverComponents | src/key_utils.rs:43-49 | recovery, the swap of p and q and the CRT parameters, with both failures |
| RsaCrt.RebuiltIff | src/key_utils.rs:43-49 | the rebuilt key has the three given numbers, the recovered pair in descending order, d modulo p - 1 and q - 1, and the inverse of q below p, and nothing else is returned |
| RsaCrt.CrtCorrect | src/crypto.rs:123-128 | e dp = 1 mod p - 1, e dq = 1 mod q - 1, q qi = 1 mod p, and Garner recombination equals c^d mod n for every c |
| RsaCrt.PowerInverse | src/key_utils.rs:29-50 | encrypting with e then decrypting with d is the identity on every residue, coprime to n or not |
| RsaCrt.RecoveredKeyDecrypts | src/key_utils.rs:29-50 | a key rebuilt from (n, e, d) keeps n, e and d, has p > q, the CRT relations, and its CRT form decrypts every message |
| Base64.RoundTrip | src/py_utils.rs:19-22 | each engine decodes what it encodes |
| Base64.DecodeIff | src/py_utils.rs:19-22 | a strict engine decodes a text to b exactly when the text is its encoding of b |
| Base64.PermissiveOrderIrrelevant | src/py_utils.rs:11-25 | any engine that accepts gives the answer, and None means none accepts |
| Base64.PermissiveInverts | src/py_utils.rs:11-25 | any white space in any encoding of b still decodes to b |
| Base64Bits.EncodingIs | src/py_utils.rs:19-22 | every encoding is the characters of the RFC 4648 tables for digits that carry the same 24 bits group by group, filled with = to a multiple of four if padded |
| Base64Bits.CleanParts | src/py_utils.rs:12-17 | removing white space works piece by piece |
| Base64Bits.CleanOne | src/py_utils.rs:12-17 | exactly the five ASCII white-space characters are removed |
| Bytes.FromFixedLE | src/crypto.rs:712-720 | the little-endian octets of a number have its value modulo 256^len, low octet first |
| Bytes.FixedLEAt | src/crypto.rs:712-720 | octet i of the little-endian form has weight 256^i |
| Bytes.FixedBEAt | src/crypto.rs:523-529 | octet i of the big-endian form has weight 256^(len - 1 - i) |
| Der.IntContentCanonical | src/crypto_parsing.rs:95-109 | the emitted INTEGER contents are the one minimal two's complement encoding of the value |
| Der.ReadsBackIff | src/crypto_parsing.rs:89-93 | an element is read back with its rest untouched exactly when its content is shorter than 65536 bytes |
| Der.ReadTagIff | src/crypto_parsing.rs:197-215 | reading yields a tag and content exactly on the inputs made of the tag, length octets of any form that denote the content length, the content and the rest |
| Der.TlvIs | src/crypto_parsing.rs:89-93 | what is emitted is the tag, one, two or three length octets that denote the length, reduced modulo 65536 from 256 on, and the content |
| Der.StripIsShortest | src/crypto_parsing.rs:226-228 | stripping leading zeros gives the shortest digits of the value |
| Der.IntegerReadsBack | src/crypto_parsing.rs:223-229 | reading an encoded integer yields its shortest digits and leaves what follows |
| Der.ReadConfined | src/crypto_parsing.rs:197-215 | a read splits its input exactly, leaves a suffix, and consumes at least one byte of non-empty input even when it fails |
| Der.TlvIsConsumed | src/crypto_parsing.rs:258-263 | `read_tlv` returns exactly the consumed prefix |
| Der.TlvSequenceConcatenates | src/crypto_parsing.rs:258-263 | successive `read_tlv` results and the unread rest concatenate to the input |
| DerCode.ByteVec.EncodeDerLen | src/crypto_parsing.rs:89-93 | the three length forms, with the 16-bit truncation, appended to the buffer |
| DerCode.ByteVec.EncodeDerInt | src/crypto_parsing.rs:95-109 | what is appended depends only on the big-endian value of non-empty bytes |
| DerCode.EncodeDerSequence | src/crypto_parsing.rs:111-116 | tag 0x30, length and content |
| DerCode.DerReader.ReadTag | src/crypto_parsing.rs:197-215 | result and new cursor on every input, failures included, with the 64-bit length accumulator |
| DerCode.DerReader.ReadSequence | src/crypto_parsing.rs:217-221 | a fresh reader over the content, and the new cursor |
| DerCode.DerReader.ReadIntegerBytes | src/crypto_parsing.rs:223-229 | the stripped content and the new cursor |
| DerCode.DerReader.ReadOctetString | src/crypto_parsing.rs:231-235 | the content and the new cursor |
| DerCode.DerReader.ReadBitString | src/crypto_parsing.rs:237-242 | the content without its first octet, refusing an empty one |
| DerCode.DerReader.ReadOid | src/crypto_parsing.rs:244-248 | the content and the new cursor |
| DerCode.DerReader.ReadOptionalExplicit | src/crypto_parsing.rs:250-255 | nothing is consumed unless the tag is there |
| DerCode.DerReader.ReadTlv | src/crypto_parsing.rs:258-263 | the consumed prefix of the old input |
| KeyFormats.InnerShorter | src/key_utils.rs:68-82 | the octets `parse_rsa_private` recurs on are shorter than its input |
| KeyCode.ExtractOrRecoverRsaComponents | src/key_utils.rs:29-50 | the eight components, given or recovered, or the first error |
| KeyCode.PrintRsaPrivate | src/jwk.rs:121-136 | the pushes build the PKCS#1 RSAPrivateKey of the eight integers |
| KeyCode.PrintRsaSpki | src/jwk.rs:143-179 | the pushes build the SubjectPublicKeyInfo of (n, e) |
| KeyCode.PrintSec1 | src/jwk.rs:195-227 | the pushes build the SEC 1 ECPrivateKey |
| KeyCode.PrintPkcs8Ec | src/jwk.rs:229-249 | the pushes build the PKCS#8 form around it |
| KeyCode.WrapPkcs1AsPkcs8 | src/crypto_parsing.rs:118-127 | the literal bytes and pushes build the PKCS#8 form around any bytes |
| KeyCode.ValidateEcCoordinates | src/jwk.rs:23-44 | success exactly when every coordinate present decodes to the size of its curve |
| KeyRelation.CoordinatesIff | src/jwk.rs:23-44 | the coordinates are valid exactly when each member present is the text of as many octets as the field of its curve, the curves given by their bits |
| KeyCode.ExtractKeyBytes | src/jwk.rs:89-266 | the printed key or the first error, for every key type |
| KeyRelation.KeyBytesIff | src/jwk.rs:89-266 | for every key type and either mode, the octets printed are exactly those described over the JWK members by name, DER elements with literal tags and identifiers by their arcs: the RSA integers in order, modulus before exponent, point, scalar and curve |
| KeyRelation.CurveTable | src/crypto_parsing.rs:508-517 | names, arcs and sizes of the five curves |
| KeyRelation.Pkcs8RsaIs | src/crypto_parsing.rs:118-127 | the PKCS#8 form over literal tags and arcs |
| KeyCode.ParseRsaPrivate | src/key_utils.rs:68-94 | the reader calls compute the RSA private parser, recursion included |
| KeyCode.ParseRsaPublic | src/key_utils.rs:97-107 | the reader calls compute the RSA public parser |
| KeyCode.ParseOkpPublic | src/key_utils.rs:110-118 | the reader calls compute the OKP public parser |
| KeyCode.ParseOkpPrivate | src/key_utils.rs:121-148 | the reader calls compute the OKP private parser |
| KeyCode.ParseEcPublic | src/key_utils.rs:151-164 | the reader calls compute the EC public parser |
| KeyCode.ReadEcHeader | src/key_utils.rs:169-191 | every failure leaves the defaults found so far |
| KeyCode.ParseEcPrivate | src/key_utils.rs:167-223 | the reader calls compute the EC private parser |
| KeyCode.DispatchDer | src/key_utils.rs:263-275 | the first parser that accepts wins, in the order of the trials |
| ParserRelation.RsaPrivateIff | src/key_utils.rs:68-94 | exactly the SEQUENCEs of a version and eight INTEGERs, or of a version, the RSA algorithm and an octet string holding such a key, in any length form and with anything behind, are accepted, each integer under its own member name |
| ParserRelation.RsaPublicIff | src/key_utils.rs:97-107 | exactly two INTEGERs in a SEQUENCE, bare or in the bit string of an SPKI of any algorithm, are accepted as n and e |
| ParserRelation.OkpPublicIff | src/key_utils.rs:110-118 | exactly the SPKI structures with an Edwards-curve identifier are accepted, their bits as x |
| ParserRelation.OkpPrivateIff | src/key_utils.rs:121-148 | exactly the PKCS#8 structures with an Edwards-curve identifier and a doubly wrapped octet string are accepted, the seed as d and the library's public key as x |
| ParserRelation.EcPublicIff | src/key_utils.rs:151-164 | exactly the SPKI structures with a known curve and an uncompressed point of at least its size are accepted, x and y cut by the size |
| ParserRelation.EcPrivateIff | src/key_utils.rs:167-223 | which inputs are accepted with which curve, scalar and point, over all fallbacks: no header, unknown curve in it, parameters that override it, missing or compressed point |
| ParserRelation.DispatchIff | src/key_utils.rs:263-275 | on any DER, the key is the reading of the first grammar that applies in the order of the trials |
| KeyRoundTrip.RsaPrivateRoundTrip | src/key_utils.rs:84-93 | all eight integers come back from the printed key |
| KeyRoundTrip.RsaKeySurvives | src/jwk.rs:112-136 | a private RSA JWK, complete or rebuilt from (n, e, d), denotes the same eight integers after printing and parsing |
| KeyRoundTrip.RsaPublicRoundTrip | src/key_utils.rs:97-107 | n and e come back from the SubjectPublicKeyInfo |
| KeyRoundTrip.RsaPublicKeySurvives | src/jwk.rs:143-179 | a JWK printed as a public RSA key parses to one with its own n and e |
| KeyRoundTrip.WrapTransparent | src/crypto_parsing.rs:118-127 | `parse_rsa_private` gives the same result on x and on x wrapped as PKCS#8, for every x |
| KeyRoundTrip.EcPrivateParses | src/key_utils.rs:167-223 | what any printed EC private key parses to, the point being cut in the middle |
| KeyRoundTrip.EcPrivateRoundTripIff | src/key_utils.rs:210-217 | the coordinates survive exactly when y is as long as x or one byte longer |
| KeyRoundTrip.EcKeySurvives | src/jwk.rs:183-250 | an EC private JWK with validated coordinates comes back with all of its members |
| KeyDispatch.EcPrivateDispatch | src/key_utils.rs:269-273 | a PKCS#8 EC key is refused by the RSA parser and read by its own |
| KeyDispatch.OkpPrivateDispatch | src/key_utils.rs:269-273 | a PKCS#8 Edwards-curve key is refused by the RSA and EC parsers and read by its own, seed intact |
| KeyDispatch.RsaPublicAcceptsIff | src/key_utils.rs:97-107 | the RSA parser accepts a SubjectPublicKeyInfo of any algorithm exactly when its key bytes read as two INTEGERs |
| KeyDispatch.EcPublicDispatch | src/key_utils.rs:263-267 | an SPKI with an uncompressed point is refused by the RSA parser and read by the EC parser |
| KeyDispatch.OkpPublicDispatchIff | src/key_utils.rs:263-267 | an SPKI Edwards-curve key is classified correctly exactly when its bytes do not read as two INTEGERs |
| KeyDispatch.OkpMisclassified | src/key_utils.rs:263-267 | a 32-byte Ed25519 key that is taken for an RSA key |
| X509.ParseX509Name | src/crypto_parsing.rs:363-398 | the nested loops end on every input and compute the joined, reversed parts |
| X509.NameLoop | src/crypto_parsing.rs:369-393 | one round per element; failed reads are skipped |
| X509.SetLoop | src/crypto_parsing.rs:372-390 | one round per attribute; failed reads are skipped |
| X509.GetX509SubjectCn | src/crypto_parsing.rs:291-333 | the skips and the search end on every input, with the first error |
| X509.SubjectLoop | src/crypto_parsing.rs:311-332 | the nested loops find the first common name |
| X509.NameTextOfName | src/crypto_parsing.rs:363-398 | a well-formed name is rendered attribute by attribute, most specific first |
| X509.CommonNameOfName | src/crypto_parsing.rs:311-332 | on a well-formed subject the answer is the text of its first common name |
| X509.CommonNameOfCertificate | src/crypto_parsing.rs:291-333 | on a well-formed certificate, with or without a version, the answer is the text of the first common name of its subject |
| NameRelation.NameShown | src/crypto_parsing.rs:363-398 | a well-formed name is shown last attribute first with commas, types 2.5.4.3, .6, .10 and .11 as CN, C, O and OU and others as Unknown |
| NameRelation.NameStart | src/crypto_parsing.rs:363-368 | what is shown of any bytes is the parts of the leading SEQUENCE, or nothing |
| NameRelation.NameStep | src/crypto_parsing.rs:369-393 | one round on any bytes: a SET adds its parts, another element none, and a failed read is passed over |
| NameRelation.SetStep | src/crypto_parsing.rs:372-390 | one round inside a SET on any bytes |
| NameRelation.AttributeStep | src/crypto_parsing.rs:375-388 | exactly which attributes add which line |
| NameRelation.SubjectStep | src/crypto_parsing.rs:311-332 | one round of the search on any bytes, where a failed read ends it |
| NameRelation.SetSearchStep | src/crypto_parsing.rs:318-329 | inside a SET the first attribute of type 2.5.4.3 decides, and an unreadable one ends the search |
| NameRelation.SetFound | src/crypto_parsing.rs:322-327 | the answer is the text of the value behind the type, exactly when it has one |
| NameRelation.CertificateIff | src/crypto_parsing.rs:291-309 | exactly the structures whose fields up to the subject can be read, in any length form, lead to the search of their subject |
| Asn1Time.CountDays | src/crypto_parsing.rs:350-357 | the year and month loops equal the closed-form Gregorian day count, with years before 1970 counted as 1970 |
| Asn1Time.ParseAsn1Time | src/crypto_parsing.rs:336-360 | the count of the fields, defaults included, for every text on which no slice, table index or subtraction fails, or the two errors |
| Asn1Time.CountedRightIff | src/crypto_parsing.rs:350-359 | for dates of the calendar the count is the true number of Unix seconds exactly from 1970 on |
| Asn1Time.SecondsCount | src/crypto_parsing.rs:350-359 | the next second of the calendar counts one more |
| Asn1Time.SecondsReached | src/crypto_parsing.rs:350-359 | every number of seconds is the count of some date-time |
| Asn1Time.SecondsGrow | src/crypto_parsing.rs:350-359 | the count is strictly increasing in calendar order and injective |
| Asn1Time.UtcTimeParses | src/crypto_parsing.rs:339-342 | the printed digits of a UTCTime give its fields back, whatever follows |
| Asn1Time.GeneralizedTimeParses | src/crypto_parsing.rs:343-344 | the same for a GeneralizedTime |
| CalendarFacts.UtcFields | src/crypto_parsing.rs:339-342 | which octets of any UTCTime give which field, with plus signs and defaults, and the century from 50 on |
| CalendarFacts.GeneralizedFields | src/crypto_parsing.rs:343-344 | the same for any GeneralizedTime |
| CalendarFacts.CountedAnyway | src/crypto_parsing.rs:350-359 | off the calendar too, for month 13, day 31 or hour 99, the count is that of the start of the month plus what the fields add, years before 1970 counting from their own start |
| CalendarFacts.Months | src/crypto_parsing.rs:352-357 | month lengths and the Gregorian leap rule |
| CalendarFacts.Cycle | src/crypto_parsing.rs:350-359 | four hundred years are 146097 days |
| CalendarFacts.KnownYears | src/crypto_parsing.rs:350-351 | the first days of 1970, 2000, 2038 and 2100 |
| Pem.ToPem | src/crypto_parsing.rs:44-53 | header, 64-character lines, footer |
| Pem.PemRoundTrip | src/crypto_parsing.rs:29-53 | `decode_key_bytes` undoes `to_pem` for newline-free tags and every data |
| Pem.PemExtractIff | src/key_utils.rs:237-261 | the extractor of `pem_to_jwk` recovers the same DER exactly when there is some and the tag holds no footer mark |
| Ssh.RsaLineConverts | src/crypto_parsing.rs:129-152 | an ssh-rsa line is converted to the RSAPublicKey of its values exactly when neither field is empty; otherwise the call panics |
| Ssh.EmptyExponentPanics | src/crypto_parsing.rs:145-150 | a key line with an empty exponent, on which the conversion panics |
| Ssh.Ed25519LineConverts | src/crypto_parsing.rs:153-162 | an ssh-ed25519 line is converted to its SubjectPublicKeyInfo exactly when the key has 32 bytes |
| Ssh.EcdsaLineConverts | src/crypto_parsing.rs:163-184 | an ecdsa-sha2 line is converted for the curve named in its blob, whatever its own type says |
| PemKeys.LabelFoundIff | src/key_utils.rs:263-269 | a label is found in a printed text exactly when the tag starts with it |
| PemKeys.LabelsOfPem | src/key_utils.rs:263-269 | under each of the five labels the text is taken for public or private, never both |
| PemKeys.PemToJwkOfPem | src/key_utils.rs:226-276 | converting DER printed under a known label runs exactly the parsers of that label on that DER |
| PemKeys.EcJwkThroughPem | src/key_utils.rs:226-276 | an EC private JWK printed, armoured and converted keeps all its members |
| PemKeys.RsaJwkThroughPem | src/key_utils.rs:226-276 | a private RSA JWK, complete or rebuilt, printed, armoured and converted denotes the same eight integers |
| PemKeys.WrappedRsaKeyThroughPem | src/crypto_parsing.rs:118-127 | so does its PKCS#8 text |
| PemKeys.RsaSpkiThroughPem | src/key_utils.rs:263-264 | modulus and exponent come back from the PUBLIC KEY text |
| PemKeys.RsaPublicJwkThroughPem | src/jwk.rs:143-179 | a JWK printed as a public RSA key, armoured and converted keeps n and e |
| PemKeys.RsaPublicKeyThroughPem | src/key_utils.rs:263-264 | modulus and exponent come back from the RSA PUBLIC KEY text |
| PemKeys.Sec1Dispatch | src/key_utils.rs:269-273 | a bare SEC 1 key is refused by the RSA parser and read by the EC parser through its own parameters |
| PemKeys.Sec1ThroughPem | src/key_utils.rs:226-276 | an EC private key comes back from the EC PRIVATE KEY text |
| PemKeys.RsaLineToJwk | src/key_utils.rs:228-235 | an ssh-rsa line, with any white space around it, comes to the JWK of its values, or panics on an empty field |
| PemKeys.Ed25519LineToJwkIff | src/key_utils.rs:228-235 | an ssh-ed25519 line comes to its OKP JWK exactly when the key does not read as two INTEGERs |
| PemKeys.EcdsaLineToJwk | src/key_utils.rs:228-235 | an ecdsa-sha2 line with an uncompressed point comes to the EC JWK of the curve in its blob |
| PemKeysCode.SshCursor.ReadString | src/crypto_parsing.rs:135-143 | the string and the moved cursor, which on a truncated string stays behind the length |
| PemKeysCode.SshToPem | src/crypto_parsing.rs:129-186 | the converted text or the first error, on every line that does not panic |
| PemKeysCode.PemToJwk | src/key_utils.rs:226-276 | the key or the first error, recursion included, on every text that does not panic |
| PemRelation.PemTextIff | src/crypto_parsing.rs:44-53 | the text is exactly header, base64 in lines of 64 characters, footer |
| PemRelation.PemDerIff | src/key_utils.rs:237-261 | the DER of any text is exactly what its characters between the first header and the first footer encode, lines with a colon and white space left out and the URL-safe alphabet accepted |
| PemRelation.SshToPemIff | src/crypto_parsing.rs:129-186 | a text results exactly for lines of a type and a blob of the described fields, and it is the PEM text of the described structure |
| PemRelation.SshPanicsIff | src/crypto_parsing.rs:129-152 | the conversion panics exactly on ssh-rsa lines with an empty exponent or modulus |
| PemRelation.PemToJwkPanicsIff | src/key_utils.rs:228-235 | `pem_to_jwk` panics exactly on UTF-8 inputs that trim to such a key line |
| PemRelation.PemToJwkIff | src/key_utils.rs:226-276 | for every input, a key results exactly when the described text, labels and grammars give it |
| Kdf.HkdfSha256 | src/crypto.rs:496-516 | extract-and-expand of RFC 5869 with the counter octet modulo 256, of exactly the length asked for; every octet is found in its block of any chain of HMACs |
| Kdf.ConcatKdfSha256 | src/crypto.rs:518-540 | the prefix of H(be32(i), Z, OtherInfo) of exactly key_len_bits / 8 bytes, counter and lengths given as four octets of that value |
| Kdf.OtherInfoInjective | src/crypto.rs:522-529 | OtherInfo determines its four fields |
| Kdf.Pbkdf2Manual | src/crypto.rs:543-601 | the array ends as the prefix of T_1, T_2, ... of RFC 8018, for any length and any iteration count: bit i of each octet is the parity of that bit over the chain U_1, ..., U_c of its block index |
| Kdf.ChunkBlock | src/crypto.rs:546-558 | the block array is folded in place to U_1 xor ... xor U_c, each bit being the parity of that bit over any such chain |
| Kdf.XorInto | src/crypto.rs:556 | in-place XOR: each bit is the parity of the two bits |
| Kdf.Pbkdf2Prefix | src/crypto.rs:543-601 | a shorter derived key is a prefix of a longer one |
| Kdf.HkdfOnly | src/crypto.rs:496-516 | no other output of its length has these octets |
| Kdf.ConcatOnly | src/crypto.rs:518-540 | no other output of its length has these octets |
| Kdf.Pbkdf2Only | src/crypto.rs:543-601 | no other output of its length has these bits |
| Kdf.XorParity | src/crypto.rs:556 | bit i of the exclusive or is the parity of the two bits |
| Text.SplitDotsJoin | src/paseto.rs:247 | splitting at dots loses nothing |
| Text.SplitOfJoin | src/jwe.rs:256-266 | splitting the join of dot-free parts gives the parts |
| Paseto.ComputePae | src/crypto.rs:712-720 | the loop computes the pre-authentication encoding, and a reader of a little-endian count, lengths and pieces gives the pieces back from it |
| Paseto.PaeIff | src/crypto.rs:712-720 | a string reads as a list of pieces exactly when it is their encoding and they are shorter than 2^64 |
| Paseto.PaeInjective | src/crypto.rs:712-720 | different lists of pieces shorter than 2^64 bytes have different encodings |
| Paseto.PasetoV4Encrypt | src/crypto.rs:723-784 | nonce, ciphertext and tag, or the nonce errors |
| Paseto.PasetoV4Decrypt | src/crypto.rs:787-842 | length check, tag check, then decryption |
| Paseto.LocalExact | src/crypto.rs:787-842 | a body opens to p exactly when it is the encryption of p under its own nonce |
| Paseto.LocalRoundTrip | src/crypto.rs:723-842 | decryption returns the payload |
| Paseto.LocalBinding | src/crypto.rs:820-834 | a body made for one footer and assertion is accepted only for these, absent a MAC collision on the two strings |
| Paseto.EncryptV4Local | src/paseto.rs:553-577 | the token text, or the key and nonce errors |
| Paseto.DecryptV4Local | src/paseto.rs:579-603 | payload and footer, or the first error |
| Paseto.ParseExact | src/paseto.rs:588-596 | the texts that parse to (body, footer) are the token and, for an empty footer, its dangling-dot twin |
| Paseto.LocalTokenExact | src/paseto.rs:553-603 | exactly the tokens encryption makes, and these twins, decrypt to (payload, footer) |
| Paseto.SignV4Public | src/paseto.rs:609-633 | the signed token text |
| Paseto.VerifyV4Public | src/paseto.rs:635-668 | payload and footer, or the first error |
| Paseto.PublicTokenExact | src/paseto.rs:635-668 | accepted tokens are exactly those carrying a valid 64-byte signature over payload, footer and assertion |
| Paseto.PublicRoundTrip | src/paseto.rs:609-668 | whenever signing succeeds, verification returns payload and footer |
| Paseto.PublicMessageInjective | src/paseto.rs:618 | the signed message determines payload, footer and assertion |
| PasetoRelation.SealIff | src/paseto.rs:553-577 | `encrypt_v4_local` returns exactly the token v4.local. of nonce, ciphertext and tag spelled out over BLAKE2b, XChaCha20 and the string that reads as header, nonce, ciphertext, footer and assertion, for the caller's or the drawn nonce |
| PasetoRelation.OpenIff | src/paseto.rs:579-603 | `decrypt_v4_local` returns payload and footer exactly for such tokens and their dangling-dot twins |
| PasetoRelation.SignIff | src/paseto.rs:609-633 | `sign_v4_public` returns exactly the v4.public. token of payload and signature over the string that reads as header, payload, footer and assertion |
| PasetoRelation.VerifyIff | src/paseto.rs:635-668 | `verify_v4_public` returns payload and footer exactly for such tokens with a valid 64-byte signature |
| Paserk.PieExact | src/paseto.rs:285-320 | PIE data opens to a key exactly when it is the wrapping of that key under its own nonce |
| Paserk.ParamsReadBack | src/paseto.rs:352-364 | the 56-byte parameter block is read back |
| Paserk.ParamsCanonical | src/paseto.rs:831-840 | every 56 bytes are the block of the parameters read from them |
| Paserk.PbkwExact | src/paseto.rs:347-404 | PBKW data opens to a key exactly when it is long enough and the wrapping of that key under its own parameters |
| Paserk.SealExact | src/paseto.rs:419-465 | sealed data opens to a key exactly when it is the sealing of that key under the secret the recipient derives |
| Paserk.SealRoundTrip | src/paseto.rs:142-184 | unsealing with the private key of the sealing key returns the key |
| PaserkCode.EncodePaserk | src/paseto.rs:28-236 | the text of the right mode, or the first error |
| PaserkCode.EncodeWithPassword | src/paseto.rs:66-126 | the buffers build the PBKW text with the fixed costs |
| PaserkCode.EncodeSealed | src/paseto.rs:130-184 | the buffers build the sealed text |
| PaserkCode.DecodePaserk | src/paseto.rs:239-490 | the key, or the first error, branch by branch |
| PaserkCode.UnwrapWithPassword | src/paseto.rs:347-404 | length, Argon2, tag check, decryption, at the offsets of the layout |
| PaserkCode.UnsealKey | src/paseto.rs:419-465 | length, agreement, tag check, decryption |
| PaserkCode.PaserkWrapPie | src/paseto.rs:687-721 | the PIE text, or the purpose and random errors |
| PaserkCode.PaserkUnwrapPie | src/paseto.rs:723-761 | the key, or the first error, at the offsets 18 and 19 |
| PaserkCode.PaserkWrapPbkw | src/paseto.rs:767-817 | the PBKW text for the caller's costs |
| PaserkCode.PaserkUnwrapPbkw | src/paseto.rs:819-877 | the key, or the first error, at the offsets 12 and 13 |
| PaserkTexts.UnwrapPieExact | src/paseto.rs:723-761 | exactly the texts a PIE wrapping can produce are accepted, each for its key |
| PaserkTexts.PieInterop | src/paseto.rs:723-761 | the two PIE readers agree on every text |
| PaserkTexts.WrapPieInterop | src/paseto.rs:687-721 | texts of either PIE writer are read by both readers |
| PaserkTexts.UnwrapPbkwExact | src/paseto.rs:819-877 | exactly the texts of a password wrapping are accepted, whatever the costs |
| PaserkTexts.PbkwInterop | src/paseto.rs:819-877 | the two PBKW readers agree on every text that holds at least 32 bytes of key |
| PaserkTexts.WrapPbkwInterop | src/paseto.rs:767-817 | texts of either PBKW writer are read by both readers, for every 64-bit memory limit |
| PaserkTexts.DecodedSealExact | src/paseto.rs:407-465 | under the seal header exactly the data the secret key opens is accepted, whatever type is wanted and whatever fourth part follows |
| PaserkTexts.DecodedExact | src/paseto.rs:239-490 | for all texts and arguments, exactly which texts `decode_paserk` accepts and for which key, over all four modes |
| PaserkTexts.PieMessageInjective | src/paseto.rs:215-219 | the string a PIE tag covers determines purpose, nonce and ciphertext |
| PaserkTexts.PwMessageInjective | src/paseto.rs:108-116 | the string a PBKW tag covers determines purpose, parameters and ciphertext |
| PaserkTexts.PieBindsPurpose | src/paseto.rs:298-306 | a PIE wrapping relabelled for the other purpose is refused, absent a MAC collision |
| PaserkTexts.PwBindsPurpose | src/paseto.rs:379-392 | so is a password wrapping |
| PaserkTexts.PaserkRoundTrip | src/paseto.rs:28-490 | whatever `encode_paserk` writes in any mode, `decode_paserk` reads back up to seed completion, and refuses another type unless sealed |
| PaserkRelation.EncodedIff | src/paseto.rs:28-236 | for all arguments and draws, `encode_paserk` returns exactly the text spelled out over the library operations with the literal headers, domain octets, costs and order of each mode |
| PaserkRelation.DecodedIff | src/paseto.rs:239-490 | for all texts and arguments, `decode_paserk` returns exactly the key of a text so spelled |
| PaserkRelation.WrapPieIff | src/paseto.rs:687-721 | the stand-alone PIE writer, spelled the same way |
| PaserkRelation.UnwrapPieIff | src/paseto.rs:723-761 | the stand-alone PIE reader |
| PaserkRelation.WrapPbkwIff | src/paseto.rs:767-817 | the stand-alone PBKW writer, costs as the octets of the parameter block |
| PaserkRelation.UnwrapPbkwIff | src/paseto.rs:819-877 | the stand-alone PBKW reader |
| Jwe.CekRoundTrip | src/jwe.rs:14-124 | for every algorithm the recipient recovers the content key from the encrypted key and the edited header |
| Jwe.HeaderEdits | src/jwe.rs:44-51 | epk, p2s and p2c are the only members key management changes |
| Jwe.Pbes2SaltInjective | src/jwe.rs:363-367 | the PBKDF2 salt determines algorithm name and p2s |
| Jwe.ContentRoundTrip | src/jwe.rs:130-224 | every content cipher decrypts what it encrypts |
| Jwe.MacInputInjective | src/jwe.rs:156-161 | AAD, IV, ciphertext and AL determine each other's boundaries for 16-byte IVs |
| Jwe.MacInputAmbiguous | src/jwe.rs:156-161 | without the fixed IV length they do not |
| Jwe.AcceptedShape | src/crypto.rs:289 | an accepted message has an IV of its cipher's length, for the composite ciphers 16 bytes, and there the right half-length tag |
| Jwe.CbcBinding | src/jwe.rs:197-220 | a composite message is accepted only for its own header, IV and ciphertext, absent a collision of the truncated HMAC |
| Jwe.TokenParses | src/jwe.rs:256-277 | the five parts of a written token are read back |
| Jwe.JweRoundTrip | src/jwe.rs:229-298 | whenever encryption succeeds, decryption with the matching key returns the payload |
| Jwe.CompactSucceedsIff | src/jwe.rs:229-263 | encryption succeeds only for supported combinations, and, when the library refuses none of the calls made, exactly for them |
| Jwe.TwentyFourByteKeysNeverOpen | src/jwe.rs:97-119 | nothing that needs a 24-byte wrapping key can be decrypted |
| Jwe.GcmBoundaryFree | src/crypto.rs:360-365 | for AES-GCM bytes can be moved across the boundary between ciphertext and tag |
| JweRelation.KeysIff | src/jwe.rs:14-81 | for every algorithm by name, the content key, encrypted key and edited header are exactly those of section 4 of RFC 7518 over the library operations, the derived keys given by the bits of PBKDF2 and the blocks of the Concat KDF |
| JweRelation.KeyIff | src/jwe.rs:83-124 | the same for the recipient |
| JweRelation.SealIff | src/jwe.rs:130-178 | ciphertext, tag and nonce are exactly those of each cipher by name; for the composite ones the first half of the key is the MAC key and the tag covers AAD, IV, ciphertext and the 64-bit length of the AAD |
| JweRelation.OpenIff | src/jwe.rs:180-224 | the same for opening, with nonce and tag lengths |
| JweRelation.CompactIff | src/jwe.rs:229-263 | `encrypt_compact` returns exactly the five-part text these steps write, with the first part as AAD and DEFLATE for zip DEF |
| JweRelation.OpenedIff | src/jwe.rs:265-298 | `decrypt_compact` returns exactly the payload these steps read from five dot-free parts |
| JweCode.Header.Insert | src/jwe.rs:49-51 | in-place insertion, and no change to a value that is not an object |
| JweCode.PreparePbes2Encrypt | src/jwe.rs:323-341 | p2s and p2c enter the header exactly when salt was drawn |
| JweCode.DerivePbes2Kek | src/jwe.rs:362-378 | the array filled by PBKDF2 is the key-encryption key of section 4.8 of RFC 7518 |
| JweCode.AgreeEcdh | src/jwe.rs:39-69 | keys and header after the ECDH branch, failures included |
| JweCode.ManageCekEncrypt | src/jwe.rs:14-81 | keys and header after the call, for every algorithm, failures included |
| JweCode.ManageCekDecrypt | src/jwe.rs:83-124 | the content key, or the first error |
| JweCode.CompositeTag | src/jwe.rs:153-172 | the truncated HMAC over the grown buffer, keyed with the first half of the content key |
| JweCode.AesGcmEncrypt | src/crypto.rs:315-347 | ciphertext, tag and drawn nonce, or the key size, random and cipher errors |
| JweCode.AesGcmDecrypt | src/crypto.rs:350-367 | the opening of ciphertext and tag in one buffer, or the first error |
| JweCode.ChachaEncrypt | src/crypto.rs:369-392 | ciphertext, tag and drawn nonce, or the key size and random errors |
| JweCode.ChachaDecrypt | src/crypto.rs:395-410 | the plaintext, or the key, nonce, tag and authentication errors in that order |
| JweCode.EncryptContent | src/jwe.rs:130-178 | ciphertext, tag and nonce, or the first error |
| JweCode.DecryptContent | src/jwe.rs:180-224 | the plaintext, or the first error |
| JweCode.EncryptCompact | src/jwe.rs:229-263 | the token whose AAD is the header as edited by key management |
| JweCode.DecryptCompact | src/jwe.rs:265-298 | the payload, or the first error |

## Left out

- RsaMath.RecoverPrimes: needs n > 0 and d e > 1, because the source panics on n = 0 or d e = 0 and loops for ever on d e = 1.
- RsaSearch.RecoveredIff: carries the same condition on n, e and d.
- KeyCode.ExtractKeyBytes: carries the same condition on (n, e, d) for RSA private keys without "p".
- DerCode.ByteVec.EncodeDerInt: needs a non-empty slice, because the source underflows on an empty one. The key printer never passes one; `ssh_to_pem` can (Ssh.RsaLineConverts says exactly when).
- PemKeysCode.SshToPem: stated for the lines on which the source does not panic; so is PemKeysCode.PemToJwk. Which these are is part of the functions Ssh.SshToPem and PemKeys.PemToJwk.
- PaserkCode.PaserkUnwrapPie: where the key is used it has at most 64 bytes, because BLAKE2b panics on a longer one; so in PaserkCode.PaserkWrapPie, PaserkTexts.UnwrapPieExact and PaserkRelation.UnwrapPieIff.
- KeyRoundTrip.RsaPrivateRoundTrip: sizes below 65536 bytes, the encoder's exact limit (Der.ReadsBackIff); the other key and name round trips carry the same bound.
- Asn1Time.ParseAsn1Time: the fields can be cut out of the text, the month is at most 13 and the day at least 1; otherwise a slice, a table index or a subtraction of the source fails.
- Kdf.HkdfSha256: models the wrapping counter of a release build; in a checked build the increment after block 255 traps.
- Kdf.Pbkdf2Manual: one method for the three textual copies, its instances being h = 32, 48 and 64; past 2^32 - 1 blocks the block index starts over as in a release build.
- PasetoRelation.SealIff: payload, footer and assertion are shorter than 2^64 bytes, as every slice is; so in PasetoRelation.OpenIff, PasetoRelation.SignIff and PasetoRelation.VerifyIff.
- Paseto.LocalBinding: a fixed-length MAC cannot be injective, so the absence of a collision is a hypothesis about the two strings concerned; the same holds for Jwe.CbcBinding, PaserkTexts.PieBindsPurpose and PaserkTexts.PwBindsPurpose.
- Jwe.JweRoundTrip: serde_json's limits (nesting depth, float precision) are a hypothesis about the one header sent.
- Pem.PemRoundTrip: white-space trimming, line splitting and word splitting follow the ASCII white space only; so in Ssh.RsaLineConverts and the other key lines.
- Error texts: they are abstracted to constructors, several texts sharing one; which failure is reported first is kept.
- Constant-time comparison: equality stands for `ct_eq`; timing is not modelled.
- The text of `decode_directory_string` is a parameter of the X.509 walkers: UTF-8 and UTF-16 validation is library code.
- `decode_paserk_key` (JWK, PEM or PASERK detection before a token operation): PASETO operations start from the raw key.
- `paserk_seal` and `paserk_unseal`: the sealing branches of `encode_paserk` and `decode_paserk` are modelled instead.
- `extract_x25519_bytes`, `extract_ed25519_bytes`: enter with the X25519 operations as one opaque extraction.
- `get_x509_metadata`, `oid_to_curve_info` beyond its table, `deduce_algorithm`, `normalize`: dictionary building and finite tables.
- JWS signing and JWT claim checks (src/jws.rs, src/jwt.rs): single-branch facts over the clock.
- X.509 certificate generation, the Python bindings and the module registration.
- Non-integer JSON numbers: a header or key holding one is outside the value type.
