# Threshold sign-on: a verified model

A trusted dealer shares a FROST Ed25519 signing key among identity nodes and, for every user, a key of
a threshold oblivious PRF. A browser turns a password into an assertion that a quorum of nodes signed
without seeing the password; a stateless gateway relays the rounds and trades the assertion, and later
refresh tokens, for tokens that a quorum signed.

The project models this from the arithmetic up and proves what the parts promise together:

- `Arith`, `Interpolation`, `Fermat`, `Shamir`, `FullField`, `Secrecy`, `Dealing`: residues, both inverses, sharing,
  any-quorum reconstruction up to the size of the field, and that t − 1 shares say nothing about the
  secret. The modulus is any prime.
- `Suites`, `Consistency`: what is assumed of the libraries, and that it can be satisfied. A group has
  prime order and a scalar action; hashes are functions; the AEAD is ideal: a ciphertext opens only
  under its own key, nonce and additional data.
- `Frost`, `Signing`, `Binding`, `Toprf`: the two threshold protocols, and what their results are bound to.
- `Bytes`, `Utf8`, `Base64Url`, `Hex`, `Json`, `CanonicalJson`, `JsonText`, `Jwt`, `Tokens`, `Dpop`: encodings,
  canonical JSON, tokens and proofs.
- `Node`, `Rules`, `Rounds`, `Federation`, `Lineage`: the node as a class and as transitions with a history,
  runs of one node, interleaved runs of many, and where tokens come from.
- `Gateway`, `Quorums`, `Asking`, `Client`, `Deployment`, `Acceptance`, `SignOnFlow`, `TokenFlow`: the orchestration,
  and both flows end to end.
- `Dealer`, `NodeConfig`, `Provisioning`: dealing, loading, and that started nodes are what the flows need.
- `EndToEnd`: from one dealer run to assertion, tokens and refreshed tokens, without intermediate assumptions.
- `Placement`, `Registration`: shares dealt by place and combined by id, and signing on after registration
  without the dealer.

Code that changes state is a class or a method with the loops of the source; each is proved equal to a
function on values, and the theorems are about those functions. Random scalars, nonces, identifiers,
clock readings and failed calls are arguments.

## What the proofs brought out

- A DPoP proof that was accepted once is accepted for ever exactly when its `iat` is missing or not a
  number (`Dpop.NeverStale`). A client can make one (`Dpop.UndatedProofAccepted`), and it serves its
  credential for as long as that lives (`TokenFlow.ProofServes`). The window of RFC 9449 section 4.3
  holds exactly for the others (`Dpop.SignedProofVerdict`).
- The binding factor sees only the low byte of an id: from 256 ids on two nodes share one
  (`Signing.BindingInputExact`, `Signing.BindingInputCollides`). Node keys and AEAD nonces see two bytes.
- Sign-on works exactly with the key id the browser has built in (`SignOnFlow.BrowserExact`), and the
  gateway rebuilds the nodes' bytes exactly with theirs (`TokenFlow.RebuiltTokens`). Nodes are always
  started with the default, so another key id given to the dealer reaches only the gateway, which then
  returns tokens whose bytes no node signed (`TokenFlow.OtherKeyId`).
- `exp` 0 is falsy and means no expiry, so the spending window needs a clock past 60 seconds.
- A sign-on with a wrong password that succeeds is a collision of the truncated SHA-512
  (`SignOnFlow.OtherPasswordCollides`); the exact condition is `SignOnFlow.SignOnDecided`.
- Registration without the dealer hands out shares by list position but keys by node id, so it enrols on
  the polynomial drawn exactly when ids count from one in list order or one node is enough
  (`Provisioning.RegistrationEnrols`). Signing on needs less: that the moments of the quorum vanish
  (`Placement.RecoversExactly`), as when ids are proportional to places (`Registration.ProportionalSignOn`).
  Nodes 2 and 1 are a case where registration succeeds and the registered password then fails
  (`Provisioning.SwappedNodes`, `Registration.SwappedSignOn`).

## Model

| member | source | states |
|---|---|---|
| Arith.EgcdBezout | projects/node/src/crypto/frost.ts:12-22 | Every state of the extended Euclidean loop, run to its end, gives x with a·x ≡ gcd (mod m). |
| Frost.Mod | projects/node/src/crypto/frost.ts:8-10 | Truncating remainder, plus m, reduced again, is the Euclidean remainder for every integer. |
| Shamir.Mod | projects/node/src/crypto/shamir.ts:25-28 | Truncating remainder corrected by one addition is the Euclidean remainder for every integer. |
| Frost.ModInverse | projects/node/src/crypto/frost.ts:12-22 | The loop ends (r decreases) with 0 ≤ x < m and a·x ≡ gcd(a mod m, m), for every modulus. |
| Shamir.ModPow | projects/node/src/crypto/shamir.ts:44-56 | Square-and-multiply computes the power modulo m. |
| Shamir.Invert | projects/node/src/crypto/shamir.ts:33-39 | Refuses exactly the multiples of m; for prime m the result times a is 1 and equals the Euclidean inverse. |
| Fermat.LittleTheorem | projects/node/src/crypto/shamir.ts:30-39 | Fermat's little theorem, which makes the exponent p − 2 an inverse. |
| Fermat.FermatInverseIsEuclid | projects/node/src/crypto/shamir.ts:33-56 | The two inverses of the repository agree modulo every prime. |
| Frost.BytesToScalar | projects/node/src/crypto/frost.ts:24-30 | Reads little-endian bytes and reduces. |
| Frost.ScalarToBytes | projects/node/src/crypto/frost.ts:32-40 | Writes the reduced scalar as 32 little-endian bytes. |
| Shamir.BytesToBigIntLE | projects/node/src/crypto/shamir.ts:61-67 | The accumulating loop gives the little-endian value. |
| Shamir.BigIntToBytesLE | projects/node/src/crypto/shamir.ts:72-81 | The digit loop gives the little-endian bytes of the reduced value, for any length. |
| Shamir.BytesToScalar | projects/node/src/crypto/shamir.ts:86-88 | Little-endian value modulo the order. |
| Shamir.ScalarRoundTrip | projects/node/src/crypto/frost.ts:24-40 | Decoding an encoded scalar gives it back modulo the order, and exactly when it was canonical. |
| Frost.GenerateShamirShares | projects/node/src/crypto/frost.ts:50-76 | Shares for exactly the ids 1..n, each the secret plus the sum of draw k times the id to the k; the public key is the secret times the base point. |
| Frost.EvalByPowers | projects/node/src/crypto/frost.ts:65-71 | Accumulating powers of x evaluates the polynomial, the same value as the Horner loop of the other file. |
| Shamir.SplitSecret | projects/node/src/crypto/shamir.ts:116-140 | Refuses exactly thresholds outside 1..n; otherwise the share of id is the secret plus the sum of draw k times id to the k, modulo the order. |
| Shamir.Horner | projects/node/src/crypto/shamir.ts:129-136 | The inner loop, run from the last coefficient down, gives the value of the polynomial modulo the order. |
| FullField.FullQuorum | projects/node/src/crypto/shamir.ts:116-186 | With as many shares as residues, id zero modulo the order among them, reconstruction still gives the secret. |
| FullField.TooManyIds | projects/node/src/crypto/shamir.ts:147-160 | With more shares than residues two ids coincide and no reconstruction exists. |
| Shamir.LagrangeCoeff | projects/node/src/crypto/shamir.ts:147-160 | Fails exactly when another id is congruent to the target; otherwise the Lagrange value at zero. |
| Frost.LagrangeCoefficient | projects/node/src/crypto/frost.ts:82-93 | Product of −j over product of i − j, with the Euclidean inverse. |
| Interpolation.LambdaQuotient | projects/node/src/crypto/shamir.ts:147-160 | The Lagrange value is the only residue that times the denominator gives the numerator. |
| Frost.LagrangeRoutinesAgree | projects/node/src/crypto/frost.ts:82-93 | Both Lagrange routines give the same value for distinct ids below the prime, whatever their signs. |
| Interpolation.PartitionOfUnity | projects/node/src/crypto/shamir.ts:142-160 | The Lagrange values of any quorum of distinct ids add up to one. |
| Interpolation.InterpolatesAtZero | projects/node/src/crypto/shamir.ts:162-186 | Weighted by the Lagrange values, the values of any polynomial with at most as many coefficients as ids give its value at zero. |
| Shamir.CombineShares | projects/node/src/crypto/shamir.ts:168-186 | Refuses the empty list, duplicate ids and singular quorums; otherwise the weighted sum. |
| Shamir.CombinesExactly | projects/node/src/crypto/shamir.ts:142-186 | Shares combine if and only if there are some and no two have one id modulo the prime. |
| Shamir.AnyQuorumReconstructs | projects/node/src/crypto/shamir.ts:116-186 | Any quorum of at least t distinct shares of a degree t − 1 polynomial reconstructs its constant term. |
| Shamir.SplitThenCombine | projects/node/src/crypto/shamir.ts:116-186 | Splitting and combining any choice of at least t distinct shares returns the secret modulo the order, for all coefficients. |
| Secrecy.AnySecretIsPossible | projects/node/src/crypto/shamir.ts:116-140 | For any t − 1 ids and any other secret there are coefficients that give the same shares at those ids. |
| Secrecy.OnlyOneExplanation | projects/node/src/crypto/shamir.ts:116-140 | Those coefficients are unique: each candidate secret explains t − 1 shares in exactly one way. |
| Secrecy.RootsBound | projects/node/src/crypto/shamir.ts:116-140 | A polynomial with no more coefficients than distinct roots vanishes. |
| Dealing.KeyShareWritten | projects/dealer/src/dealer.ts:131-186 | The key share in the file of node id is the master secret plus the sum of draw k times id to the k, modulo the order. |
| Dealing.RecordWritten | projects/dealer/src/dealer.ts:141-160 | The record of a user: its names, its share of the PRF key drawn for it, and its key at this node. |
| Dealing.KeyFilesHide | projects/dealer/src/dealer.ts:83-189 | The files of any t − 1 nodes fit every master secret: with it, and some other draws, the dealer writes the same files for these nodes but for the public key. |
| Dealing.OnlyDraws | projects/dealer/src/dealer.ts:83-189 | For each master secret there is only one such choice of reduced draws. |
| Dealing.PrfSharesHide | projects/dealer/src/dealer.ts:141-160 | The same for the PRF key of any user. |
| Dealing.KeyFilesReveal | projects/dealer/src/dealer.ts:83-189 | The key shares read from the files of any t nodes combine to the master secret. |
| Dealing.GroupFileAgrees | projects/dealer/src/dealer.ts:163-186 | Group file and node files of one run agree in version, threshold, total and public key, and say what options and secret say. |
| Suites.MulReduce | projects/node/src/crypto/frost.ts:206-217 | Scalars act modulo the group order. |
| Suites.MulSame | projects/node/src/crypto/toprf.ts:101-120 | Two scalars have the same multiple of a point exactly when they agree modulo the order or the point is zero. |
| Suites.EqualMultiples | projects/node/src/crypto/toprf.ts:70-80 | Multiples of two points by one scalar are equal exactly when the points are or the scalar is zero. |
| Suites.SumOfMultiples | projects/node/src/crypto/frost.ts:142-155 | Multiples of one point add up like their scalars. |
| Suites.PointSumPermutation | projects/node/src/crypto/frost.ts:142-155 | A sum of points does not depend on the order of its terms. |
| Consistency.ResiduesAreGroup | projects/node/src/crypto/frost.ts:5-6 | The residues modulo any prime of at most 32 bytes satisfy the group laws assumed of the curve. |
| Consistency.OpensExactly | projects/node/src/crypto/aead.ts:41-81 | A sealing that opens exactly under its own key, nonce and additional data exists. |
| Consistency.SuiteExists | projects/node/src/crypto/frost.ts:1-6 | All assumptions on the libraries hold together for every prime order of at most 32 bytes. |
| Consistency.SomeSuite | projects/node/src/crypto/frost.ts:1-6 | There is such a suite, so nothing is proved from contradictory assumptions. |
| Frost.ComputeBindingFactor | projects/node/src/crypto/frost.ts:117-137 | Hashes the low byte of the id, the message, and id byte, D and E of every commitment in ascending id order. |
| Frost.ComputeGroupCommitment | projects/node/src/crypto/frost.ts:142-155 | The sum of D + ρE over the commitments, or a refusal exactly when some D or E is not a point. |
| Frost.ComputeSignatureShare | projects/node/src/crypto/frost.ts:176-192 | d + ρe + λsc modulo the order over the same commitment list. |
| Frost.AggregateSignatureShares | projects/node/src/crypto/frost.ts:197-210 | R followed by the canonical 32-byte sum of the shares. |
| Signing.CommitmentIsMultiple | projects/node/src/crypto/frost.ts:142-155 | The group commitment of a quorum is the base point times the sum of d + ρe, in whatever order the commitments come. |
| Binding.CommitmentRules | projects/node/src/crypto/frost.ts:142-155 | The group commitment exists if and only if every D and E is a point. |
| Signing.KeyPartIsSecret | projects/node/src/crypto/frost.ts:176-192 | The Lagrange-weighted key shares of a quorum interpolate the dealt key. |
| Signing.AnswersSum | projects/node/src/crypto/frost.ts:176-210 | The shares of a quorum add up to nonce sum plus challenge times key. |
| Signing.AggregateVerifies | projects/node/src/crypto/frost.ts:142-210 | For every quorum of at least t distinct dealt ids, message and nonces, the aggregate meets the Ed25519 check with canonical S under the dealt key, in any order of commitments, participants and shares. |
| Binding.SignatureUnique | projects/node/src/crypto/frost.ts:206-217 | A signature is determined by its commitment, key and message. |
| Binding.SignatureBindsMessage | projects/node/src/crypto/frost.ts:157-171 | One signature on two messages needs a coincidence of the SHA-512 scalars of two named texts. |
| Binding.AggregateExact | projects/node/src/crypto/frost.ts:197-210 | Whatever shares are put in, the aggregate verifies if and only if they add up to what the signers answered: one wrong share spoils it. |
| Signing.SortByIdSorts | projects/node/src/crypto/frost.ts:122-123 | The sort orders by id and loses nothing. |
| Signing.OrderOfCommitments | projects/node/src/crypto/frost.ts:117-155 | With distinct ids neither binding factors nor group commitment depend on the order of the commitments. |
| Signing.BindingInputExact | projects/node/src/crypto/frost.ts:122-134 | For a fixed count the hash input determines message, low byte of the id and sorted commitments up to low bytes of ids, and nothing more (if and only if). |
| Signing.BindingInputInjective | projects/node/src/crypto/frost.ts:122-134 | With ids below 256 the hash input is injective in signer, message and commitment set. |
| Binding.BindingFactorsAgree | projects/node/src/crypto/frost.ts:117-137 | Two binding factors agree if and only if their hash inputs do, or the SHA-512 scalars of two different inputs coincide. |
| Binding.BindingInputFields | projects/node/src/crypto/frost.ts:122-134 | Where id byte, message and sorted commitments stand in the hash input. |
| Signing.BindingInputCollides | projects/node/src/crypto/frost.ts:131-132 | Concrete failure from 256 ids on: nodes 1 and 257 get one binding factor. |
| Toprf.Unblind | projects/node/src/crypto/toprf.ts:101-120 | The loop gives the interpolated point divided by r, or the refusal of no partials, singular ids or zero r. |
| Toprf.UnblindRecovers | projects/node/src/crypto/toprf.ts:70-120 | For every non-zero r and every quorum of at least t, unblinding gives k times the hashed password. |
| Toprf.GroupInputFields | projects/node/src/crypto/toprf.ts:49-62 | Prefix, length and password stand in the hash input at their places. |
| Toprf.GroupInputExact | projects/node/src/crypto/toprf.ts:49-62 | Two passwords of any length are told apart by the hash input. |
| Toprf.PointsAgree | projects/node/src/crypto/toprf.ts:49-62 | Two passwords have one point if and only if they are the same, or SHA-512 or the map to the curve coincides on two named inputs. |
| Toprf.BlindsAgree | projects/node/src/crypto/toprf.ts:64-80 | With one non-zero blinding two passwords are blinded alike if and only if they have one point. |
| Toprf.BlindingHides | projects/node/src/crypto/toprf.ts:64-80 | Obliviousness: whatever was blinded, every other password has exactly one reduced blinding that gives the same blinded point, if the points are non-zero multiples of the base point. |
| Toprf.ServerKeysAgree | projects/node/src/crypto/toprf.ts:101-169 | The derived node key is the same for any two quorums and any two blindings. |
| Toprf.RegistrationPrf | projects/dealer/src/dealer.ts:141-150 | Unblinding over the first t shares gives the PRF value under the dealt key for every non-zero blinding and every threshold up to the group order, and fails exactly otherwise. |
| Toprf.GenerateToprfKey | projects/node/src/crypto/toprf.ts:186-189 | A master key split for ids 1..n, refused exactly for thresholds outside 1..n. |
| Toprf.ServerKeyLength | projects/node/src/crypto/toprf.ts:158-169 | Every node key has 32 bytes. |
| Toprf.ServerInputExact | projects/node/src/crypto/toprf.ts:158-168 | The key hash is given PRF value and id modulo 65536, injectively, and nothing more. |
| Toprf.OutputInputExact | projects/node/src/crypto/toprf.ts:130-146 | The output hash input is injective in password and point, because the length goes first. |
| Toprf.OutputInputFields | projects/node/src/crypto/toprf.ts:130-146 | Where prefix, length, password and point stand in the hash input. |
| Toprf.ServerInputFields | projects/node/src/crypto/toprf.ts:158-168 | Where prefix, PRF value and id stand in the hash input. |
| Toprf.DigestsAgree | projects/node/src/crypto/toprf.ts:130-169 | Both hashes keep the first 32 bytes of SHA-512, so two inputs agree in them by being equal or colliding there. |
| Toprf.HashesApart | projects/node/src/crypto/toprf.ts:49-169 | No input of one of the three hashes is an input of another. |
| Node.AeadInputExact | projects/node/src/crypto/aead.ts:18-29 | The nonce hash is given session nonce and id modulo 65536, injectively. |
| Binding.NoncesAgree | projects/node/src/crypto/aead.ts:18-29 | Two nonces agree if and only if session and id, modulo 65536, do, or SHA-512 begins with the same 12 bytes on two different inputs. |
| Binding.AeadInputFields | projects/node/src/crypto/aead.ts:18-29 | Where prefix, session nonce and id stand in the hash input. |
| SignOnFlow.AeadNonceLength | projects/node/src/crypto/aead.ts:18-29 | Every derived nonce has 12 bytes. |
| Utf8.RoundTrip | projects/node/src/jwt/jwt.ts:59 | Reading UTF-8 undoes writing it. |
| Base64Url.RoundTrip | projects/demo/src/sdk/jwt.ts:13-31 | Decoding undoes encoding for every byte string, with the padding restored from the length alone. |
| Base64Url.Base64UrlEncode | projects/demo/src/sdk/jwt.ts:13-20 | The loop over a binary string, alphabet swap and stripping give the encoding. |
| Base64Url.Base64UrlDecode | projects/demo/src/sdk/jwt.ts:22-31 | Swap, padding and the byte loop give the decoding of what atob accepts, white space dropped, or fail where atob fails. |
| Base64Url.UrlEncodeIsLetters | projects/demo/src/sdk/jwt.ts:19 | Stripping removes the padding only, and the text has no dot. |
| Base64Url.UrlDecodeExact | projects/demo/src/sdk/jwt.ts:22-31 | Text of URL-safe letters is decoded if and only if its length is not one more than a multiple of four. |
| Base64Url.SpaceIgnored | projects/demo/src/sdk/jwt.ts:22-31 | Tab, line feed, form feed, carriage return and space make no difference to the decoding. |
| Base64Url.BtoaLength | projects/demo/src/sdk/jwt.ts:13-20 | The standard encoding is padded to complete groups of four. |
| Base64Url.LetterTable | projects/demo/src/sdk/jwt.ts:13-20 | The alphabet of table 1 of RFC 4648. |
| Base64Url.GroupValue | projects/demo/src/sdk/jwt.ts:13-20 | Four letters spell the number of three bytes, highest part first. |
| Hex.ScalarRoundTrip | projects/dealer/src/hex.ts:34-54 | A scalar is encodable exactly below 2^256, and then decoding gives it back; the node writes the same digits. |
| Hex.BytesToHex | projects/dealer/src/hex.ts:10-16 | Two digits per byte, in order. |
| Hex.HexToBytes | projects/dealer/src/hex.ts:19-31 | Refuses odd lengths and other characters; otherwise byte i is what digits 2i and 2i + 1 spell. |
| Hex.HexOfSpells | projects/dealer/src/hex.ts:10-31 | The text written for a byte string spells that byte string and no other. |
| Hex.ScalarReadExactly | projects/dealer/src/hex.ts:42-54 | A scalar is read from exactly sixty-four hexadecimal digits. |
| Hex.NegativeText | projects/node/src/protocol/node.ts:177-179 | A negative number is written with its sign in front. |
| Json.ParseUndoesText | projects/node/src/jwt/jwt.ts:13-15 | Parsing (RFC 8259) undoes writing for every value without duplicate keys. |
| Json.LeadingSpace | projects/node/src/config.ts:123-130 | The four white space characters of RFC 8259 are skipped in front of a value. |
| Json.HexDigitTable | projects/node/src/jwt/jwt.ts:12-25 | Hexadecimal digits are written in lower case. |
| Json.EscapeNames | projects/node/src/config.ts:123-130 | Four hexadecimal digits of an escape name the character whose code they spell. |
| CanonicalJson.KeyLessIsUtf16Order | projects/node/src/jwt/jwt.ts:19 | The key order is that of UTF-16 code units. |
| CanonicalJson.UnitsSpell | projects/node/src/jwt/jwt.ts:19 | The code units of a character spell it, as one unit or as two surrogates. |
| CanonicalJson.StringifyExact | projects/node/src/jwt/jwt.ts:12-25 | Two values have one text exactly when they mean the same: equal scalars, equal lists, equal key-to-value maps. |
| CanonicalJson.InsertionOrderIrrelevant | projects/node/src/jwt/jwt.ts:19-24 | Permuting the members of an object does not change its text. |
| CanonicalJson.ParseUndoesStringify | projects/node/src/jwt/jwt.ts:12-25 | Parsing the canonical text gives a value with the same meaning. |
| CanonicalJson.CanonIdempotent | projects/node/src/jwt/jwt.ts:12-25 | Canonical values are fixed points. |
| JsonText.StringifyShortest | projects/node/src/jwt/jwt.ts:12-25 | No text that JSON.parse reads with the same meaning is shorter than the canonical text. |
| JsonText.StringifyTight | projects/node/src/jwt/jwt.ts:12-25 | The canonical text has no white space outside its strings. |
| JsonText.ParseShortest | projects/node/src/jwt/jwt.ts:13-15 | Whatever is read is at least as long as the text of the value, and the value has no duplicate keys. |
| Jwt.SigningInputExact | projects/node/src/jwt/jwt.ts:49-63 | The signing input is a function of the meanings of header and payload, and injective in them (if and only if). |
| Jwt.AssembledSplits | projects/node/src/jwt/jwt.ts:68-75 | An assembled token splits at "." into exactly its three parts. |
| Jwt.JoinOfSplit | projects/node/src/jwt/jwt.ts:93 | Joining the split parts gives the text back. |
| Jwt.VerifiedContents | projects/node/src/jwt/jwt.ts:87-130 | A token over a known signing input that verifies is read as exactly what was signed, unexpired. |
| Jwt.AssembledVerifies | projects/node/src/jwt/jwt.ts:68-130 | A well-signed unexpired token is accepted and read as what was signed. |
| Rules.JwtRules | projects/node/src/jwt/jwt.ts:87-130 | Any text verifies with a given reading if and only if it has three parts that read so, the signature is over the first two as they stand, the algorithm is EdDSA and an expiry has not passed. |
| Tokens.MessageInjective | projects/node/src/protocol/node.ts:292-305 | The signed bytes determine token kind, all claims, issuer and key id. |
| Dpop.AcceptedProof | projects/node/src/client-sdk/dpop.ts:127-184 | A proof is accepted if and only if its header is of the right kind and carries an Ed25519 key, that key signed its first two parts, method and URI are those asked for, it is fresh, and the thumbprint of the key is the expected one; then that thumbprint is returned. |
| Dpop.ThumbprintText | projects/node/src/client-sdk/dpop.ts:57-65 | What is hashed for a thumbprint is the text of section 3 of RFC 7638 with exactly crv, kty and x, and is read back as these. |
| Dpop.ThumbprintExact | projects/node/src/client-sdk/dpop.ts:57-65 | Two thumbprints are equal if and only if the keys are, or SHA-256 collides on the two named texts. |
| Dpop.KeyBound | projects/node/src/client-sdk/dpop.ts:127-184 | A proof accepted for the thumbprint of a key carries that key and is signed by it, or SHA-256 collides. |
| Dpop.CreatedSays | projects/node/src/client-sdk/dpop.ts:75-110 | What a created proof says: jti, upper-cased method, URI, time, and as ath the hash of a non-empty access token, or none. |
| Dpop.CreatedProofAccepted | projects/node/src/client-sdk/dpop.ts:75-184 | A proof made for a request, method upper-cased, with or without an access token, is accepted for it exactly within the window, yields the thumbprint of its key, and outside the window is refused as stale. |
| Dpop.SignedProofVerdict | projects/node/src/client-sdk/dpop.ts:127-184 | The exact verdict on a signed proof, with iat or without, at every clock reading. |
| Dpop.UndatedProofAccepted | projects/node/src/client-sdk/dpop.ts:173-177 | A signed proof without iat, which a client can make, is accepted at every clock reading. |
| Rules.KeyHolderSigns | projects/node/src/client-sdk/dpop.ts:75-125 | Whoever has the scalar of a key can sign any proof by it. |
| Dpop.AcceptedAgain | projects/node/src/client-sdk/dpop.ts:127-184 | A proof accepted once gets the same verdict at any other time exactly when its iat is fresh then, and is stale otherwise. |
| Dpop.NeverStale | projects/node/src/client-sdk/dpop.ts:173-177 | A proof accepted once is accepted at all times if and only if its iat is missing or not a number. |
| Node.IdentityNode.constructor | projects/node/src/protocol/node.ts:193-205 | A node starts without rounds or users; trailing slashes of the issuer are dropped. |
| Node.IdentityNode.RegisterUser | projects/node/src/protocol/node.ts:216-223 | Adds or replaces one user record and nothing else. |
| Node.IdentityNode.GenerateCommitment | projects/node/src/protocol/node.ts:228-232 | Opens the round with the drawn nonces, replacing an earlier draw for the id, and publishes their points. |
| Node.IdentityNode.HandleSignOn | projects/node/src/protocol/node.ts:245-338 | Makes exactly the sign-on transition: checks in order, nonces taken before the point is decoded, share, encrypted answer. |
| Node.IdentityNode.HandleSign | projects/node/src/protocol/node.ts:358-469 | Makes exactly the token transition: credential, proof, windows, both nonces taken together, two shares. |
| Node.IdentityNode.Share | projects/node/src/protocol/node.ts:472-489 | One share over one token. |
| Rules.SignOnRules | projects/node/src/protocol/node.ts:245-287 | A sign-on request is let through if and only if the user is known, the issuer is the node’s, iat is within 60 s, the lifetime within 30 s and the round open; otherwise nothing changes and nothing is answered. |
| Rules.SignOnAnswered | projects/node/src/protocol/node.ts:289-338 | What an answered sign-on says, and the one share that enters the history: for the sub of the record and the claims of the request, with the nonces of the round. |
| Rules.RegisterRules | projects/node/src/protocol/node.ts:216-223 | Registering sets one user and leaves other users, rounds and history alone. |
| Rules.CommitRules | projects/node/src/protocol/node.ts:228-232 | Committing opens one round with the drawn nonces, publishes their points, and leaves everything else alone. |
| Rules.SignRules | projects/node/src/protocol/node.ts:358-420 | The same for token signing: two different open rounds, a credential of the grant, a POST proof for the token endpoint by its key, times and lifetimes in their limits, a jti. |
| Rules.SignAnswered | projects/node/src/protocol/node.ts:420-469 | What an answered token request says, and the two shares that enter the history: for the identity of the credential and the claims of the request, each with the nonces of its round. |
| Rules.CredentialRules | projects/node/src/protocol/node.ts:534-590 | A credential is read if and only if kind, issuer, times and every needed claim are there, and which claim each part of it is. |
| Rounds.NoncesUsedOnce | projects/node/src/protocol/node.ts:191-462 | Over every sequence of calls each drawn nonce pair enters at most one share, and only for the round it was drawn for. |
| Rounds.StepDisciplined | projects/node/src/protocol/node.ts:228-462 | Every call, accepted or not, keeps open rounds unspent and spent pairs spent once. |
| Rounds.StepRules | projects/node/src/protocol/node.ts:191-462 | A step of a run is what the call does to the state of the node. |
| Rounds.RunRules | projects/node/src/protocol/node.ts:191-462 | A run is its calls, one after the other, from the empty state. |
| Rounds.SignOnFrame | projects/node/src/protocol/node.ts:245-338 | A sign-on changes the state exactly when its checks pass; then it closes its own round and no other. |
| Rounds.SignFrame | projects/node/src/protocol/node.ts:358-469 | Token signing changes the state exactly when its checks pass; then it closes its two rounds and no other. |
| Federation.SystemSound | projects/node/src/protocol/node.ts:228-490 | In every run of several nodes each share in the history is what the share computation gives for its recorded inputs. |
| Federation.NodeOfRun | projects/node/src/protocol/node.ts:191-462 | In a run of several nodes a call advances its own node and no other. |
| Federation.LogOfRun | projects/node/src/protocol/node.ts:191-462 | The log of a run grows by exactly the shares that each call adds to the history of its node. |
| Federation.EveryCompleteRoundVerifies | projects/node/src/protocol/node.ts:228-490 | However calls of different rounds interleave, a round that at least t participants answered aggregates to a signature that verifies on its own message. |
| Lineage.CredentialIsSigned | projects/node/src/protocol/node.ts:534-590 | What a node reads from a credential of its group is what was signed, of the kind asked for, unexpired, with all identity fields non-empty. |
| Lineage.AccessTokenNeverCredential | projects/node/src/protocol/node.ts:500-548 | No access token is accepted as an assertion or refresh token, at any node or time. |
| Lineage.TokensDescendFromAssertions | projects/node/src/protocol/node.ts:289-469 | If group signatures verify only on signed messages: every access or refresh token carries sub, client, scope and key of an earlier assertion whose sub is that of a user record the signing node held when it signed it, over refresh chains of any length. |
| Lineage.AssertionFromRecord | projects/node/src/protocol/node.ts:245-305 | In every run, each assertion share in the log was made for the sub of a record that its node held at that moment. |
| Lineage.RunHistorySound | projects/node/src/protocol/node.ts:245-469 | Every share ever made is for a node message within the limits and has such an ancestor. |
| Lineage.SpendingWindow | projects/node/src/protocol/node.ts:264-413 | For every earlier signing of the same bytes at a time T > 60, by whichever node: the credential is spent only up to T + 90 s (assertion) or T + 60 s + 40 days (refresh token), for the identity signed, with a POST proof for the token endpoint by the key it names; and if signatures are not forged there is such a signing. |
| Lineage.SpentByItsKey | projects/node/src/protocol/node.ts:358-399 | A credential signed for the thumbprint of a key is spent only with a proof that carries that key and is signed by it, or SHA-256 collides. |
| Lineage.ProofKeyChecked | projects/node/src/client-sdk/dpop.ts:179-184 | The optional thumbprint comparison is effective, since a verified credential has a non-empty thumbprint. |
| Gateway.PastaOAuthProxy.constructor | projects/gateway/src/gateway/proxy.ts:107-119 | The node map of the given list: a later node replaces an earlier one with its id, which keeps its first place in the order; trailing slashes of the issuer are dropped. |
| Gateway.LastNodeCounts | projects/gateway/src/gateway/proxy.ts:107-119 | Of several nodes with one id the last one is the one asked. |
| Gateway.FirstSeenFirst | projects/gateway/src/gateway/proxy.ts:107-119 | The known ids come in the order of their first occurrence. |
| Asking.ExplicitQuorum | projects/gateway/src/gateway/proxy.ts:204-268 | An explicit quorum is asked and nobody else: every other node keeps its state, and a relayed answer is that of exactly these nodes. |
| Asking.FreeQuorum | projects/gateway/src/gateway/proxy.ts:204-268 | Without one, no unknown node is asked, and every known node whose commit call succeeds is in the relayed answer. |
| Gateway.PastaOAuthProxy.CollectCommitments | projects/gateway/src/gateway/proxy.ts:135-193 | Makes exactly the commit calls and collects their outcomes. |
| Gateway.PastaOAuthProxy.HandleSignOn | projects/gateway/src/gateway/proxy.ts:204-268 | Makes exactly the two relayed rounds of a sign-on. |
| Gateway.PastaOAuthProxy.HandleSign | projects/gateway/src/gateway/proxy.ts:284-390 | Makes exactly the four steps of a token issue: two commit rounds, one sign round, two assemblies. |
| Gateway.PastaOAuthProxy.AskAll | projects/gateway/src/gateway/proxy.ts:316-338 | The sign calls, one per access commitment, each with its own refresh commitment. |
| Rules.TokenRequestRules | projects/gateway/src/gateway/proxy.ts:310-338 | What the gateway asks for: the credential under its grant, an access token for an hour and a refresh token for thirty days. |
| Rules.ClaimsRules | projects/gateway/src/gateway/proxy.ts:415-450 | An identity is read from a credential if and only if its payload names user, client and key. |
| Quorums.CollectExact | projects/gateway/src/gateway/proxy.ts:159-192 | A round exists exactly when enough committed and an explicit quorum lost nobody; commitments ascend, and participants and excluded partition the asked nodes; the refusal names count, threshold and unreachable ids. |
| Quorums.CollectDistinct | projects/gateway/src/gateway/proxy.ts:171-192 | From distinct asked nodes comes a quorum of distinct participants. |
| Quorums.SecondRoundSame | projects/gateway/src/gateway/proxy.ts:304-309 | The refresh round has exactly the participants of the access round, in the same order. |
| Quorums.CommitAllOutcomes | projects/gateway/src/gateway/proxy.ts:144-157 | Each call opens the round at its own node only; every other entry of every node is unchanged. |
| Quorums.CommitOrderIrrelevant | projects/gateway/src/gateway/proxy.ts:144-192 | The commit calls of distinct nodes give the same node states and the same round, or the same refusal, in whatever order they take place. |
| Quorums.CollectedOpen | projects/gateway/src/gateway/proxy.ts:144-192 | Every collected commitment is that of a node with the round open under the nonces behind it. |
| Quorums.SignOnAllAnswers | projects/gateway/src/gateway/proxy.ts:229-252 | Distinct participants answer each from the state it had when the calls began. |
| Quorums.SignAllAnswers | projects/gateway/src/gateway/proxy.ts:316-338 | The same for the sign calls. |
| Quorums.GatewayReadsSame | projects/gateway/src/gateway/proxy.ts:415-450 | Whatever credential a node accepts, the gateway reads the same identity from it without verifying. |
| Client.DecentralizedClientSdk.Create | projects/demo/src/sdk/client.ts:110-118 | Refuses exactly an empty thumbprint; otherwise a client with the given values and no session. |
| Client.DecentralizedClientSdk.SignOn | projects/demo/src/sdk/client.ts:202-287 | From the relayed answer to the assertion or the first failing step; the session is replaced only on success. |
| Client.DecentralizedClientSdk.DecryptShares | projects/demo/src/sdk/client.ts:241-262 | The decrypt loop: all shares in order, or the first failure. |
| Rules.BodyRules | projects/demo/src/sdk/client.ts:146-200 | What leaves the browser: the claims as given, an assertion for thirty seconds, the session nonce and the blinded password. |
| Rules.PartialsRules | projects/demo/src/sdk/client.ts:232-237 | The relayed partials are read if and only if each is the text of a point, and then under the ids of the answers. |
| Rules.SubRules | projects/demo/src/sdk/client.ts:216-229 | The sub of the assertion is that of the first answer, or the typed name where it gives none. |
| Deployment.SignersAreQuorum | projects/gateway/src/gateway/proxy.ts:316-338 | The open round of enough dealt nodes is a signing quorum that published exactly those commitments. |
| SignOnFlow.NodeAnswers | projects/node/src/protocol/node.ts:245-338 | A node answers exactly when its checks pass, the point decodes and the share exists; and what the answer holds. |
| SignOnFlow.RebuiltExactly | projects/demo/src/sdk/client.ts:216-229 | The browser rebuilds the nodes' bytes exactly when the nodes use its built-in key id. |
| SignOnFlow.ShareOpens | projects/demo/src/sdk/client.ts:243-262 | An answer opens to its share exactly with the node's key, the signed bytes and the nonce of the session, or one whose hash begins with the same 12 bytes; otherwise it fails at its tag. |
| SignOnFlow.PasswordRecovers | projects/demo/src/sdk/client.ts:232-237 | Unblinding the relayed partials gives the hashed password times the scalar that the participants' PRF key shares combine to, whatever shares they keep. |
| SignOnFlow.EnrolledShares | projects/demo/src/sdk/client.ts:232-237 | With shares dealt by node id, every large enough quorum combines them to the dealt PRF key. |
| SignOnFlow.KeysMatchExactly | projects/demo/src/sdk/client.ts:232-262 | The derived keys are the stored ones exactly when password and combined key are the registered ones, or the password hashes to the zero point, or the truncated SHA-512 collides on the two PRF inputs or on the key inputs of every participant. |
| SignOnFlow.RegisteredPasswordMatches | projects/demo/src/sdk/client.ts:244 | With shares dealt by node id the registered password derives the key every participant keeps. |
| SignOnFlow.SharesOpenExactly | projects/demo/src/sdk/client.ts:241-262 | The loop gives all shares exactly when all keys and the bytes match, and otherwise the tag failure. |
| SignOnFlow.BrowserExact | projects/demo/src/sdk/client.ts:202-287 | From an honest quorum in any state the browser ends with the verifying assertion exactly when the typed password gives the keys and the key id matches; otherwise it fails at a tag and nowhere else. |
| SignOnFlow.SignOnExact | projects/demo/src/sdk/client.ts:146-287 | Over the gateway: the relay succeeds whatever password was typed and whatever PRF key shares the nodes keep, and the outcome is as above. |
| SignOnFlow.SignOnDecided | projects/demo/src/sdk/client.ts:146-287 | When a sign-on succeeds, if and only if: the key id is the built-in one, and password and combined key are the registered ones up to the zero point, or one of the named hash inputs collide. |
| SignOnFlow.OtherPasswordCollides | projects/demo/src/sdk/client.ts:146-287 | A sign-on that succeeds with another password than the registered one exhibits two different inputs whose SHA-512 begins with the same 32 bytes. |
| SignOnFlow.RequestTells | projects/demo/src/sdk/client.ts:146-200 | Under one blinding the request tells two typed passwords apart, unless their points coincide. |
| SignOnFlow.EvaluationBinds | projects/demo/src/sdk/client.ts:232-237 | What the quorum gives for the typed password is what it gives for a guess if and only if the guess is right, the combined key is zero or the points coincide: one evaluation answers one guess. |
| SignOnFlow.SignOnEndToEnd | projects/demo/src/sdk/client.ts:146-287 | With the registered password and shares dealt by node id the sign-on succeeds, and every node of the group accepts the assertion, for the account, exactly while it lives and thumbprint, client id and issuer are not empty. |
| SignOnFlow.CommitKeepsDeployment | projects/node/src/protocol/node.ts:228-232 | Commit calls change neither settings nor users of any node. |
| Acceptance.TokenVerifies | projects/node/src/jwt/jwt.ts:87-130 | A well-signed token verifies exactly while it lives (exp 0 counts as no expiry). |
| Acceptance.CredentialAccepted | projects/node/src/protocol/node.ts:534-590 | A node accepts any token signed by its group exactly while it lives and when it is of the kind asked for with every needed field non-empty; then it reads what was signed. |
| Acceptance.AssertionAccepted | projects/node/src/protocol/node.ts:500-515 | The same through verifyAssertion, where the lifetime must also be within the limit (if and only if). |
| Acceptance.RefreshAccepted | projects/node/src/protocol/node.ts:518-528 | The same through verifyRefreshToken (if and only if). |
| TokenFlow.NodeSigns | projects/node/src/protocol/node.ts:358-469 | A node answers exactly when its checks pass and both shares exist; and what the answer holds. |
| TokenFlow.SharesRead | projects/node/src/protocol/node.ts:177-179 | The gateway reads the two hexadecimal scalars as they were computed. |
| TokenFlow.IdentityAgrees | projects/gateway/src/gateway/proxy.ts:289 | Every node that accepts signs for the identity the gateway read. |
| TokenFlow.RebuiltTokens | projects/gateway/src/gateway/proxy.ts:343-372 | The gateway rebuilds both signing inputs byte for byte, exactly when its key id is the nodes'. |
| TokenFlow.RoundAggregates | projects/gateway/src/gateway/proxy.ts:393-403 | The shares of either round aggregate to a signature that verifies on its token. |
| TokenFlow.IssueAnswer | projects/gateway/src/gateway/proxy.ts:316-338 | A sign call succeeds exactly when its node accepts, and then gives the shares of both rounds. |
| TokenFlow.CallsExact | projects/gateway/src/gateway/proxy.ts:316-338 | The calls succeed together exactly when every participant accepts. |
| TokenFlow.IssueAfterOk | projects/gateway/src/gateway/proxy.ts:301-309 | After the commit calls both rounds are open at one set of distinct participants. |
| TokenFlow.TokenIssueExact | projects/gateway/src/gateway/proxy.ts:284-390 | A token issue succeeds exactly when every participant accepts credential, proof and claims, and then both tokens are under signatures of the group. |
| TokenFlow.TokensEndToEnd | projects/gateway/src/gateway/proxy.ts:284-450 | Whenever tokens are returned, the access token verifies and the refresh token is accepted by every node exactly while it lives, both for the identity in the credential. |
| TokenFlow.CredentialBuysTokens | projects/gateway/src/gateway/proxy.ts:284-390 | A live assertion or refresh token with a fresh proof by its key buys a pair of tokens for its identity. |
| TokenFlow.SignOnBuysTokens | projects/gateway/src/gateway/proxy.ts:284-390 | The assertion of a sign-on buys the first pair. |
| TokenFlow.RefreshAgain | projects/gateway/src/gateway/proxy.ts:284-390 | The refresh token of one issue buys the next pair for the same identity. |
| TokenFlow.ProofServes | projects/node/src/protocol/node.ts:370-399 | A proof that was good once serves its credential exactly at the times when credential, request time and iat are in their windows; one without a numeric iat serves for the whole life of the credential. |
| TokenFlow.OtherKeyId | projects/gateway/src/gateway/proxy.ts:340-390 | With a key id that is not the nodes' the gateway still succeeds exactly when every participant accepts, and returns two tokens whose signing inputs are not the bytes of any message the nodes sign. |
| EndToEnd.DealtSignOn | projects/dealer/src/dealer.ts:83-189 | From one dealer run: at enough reachable started nodes a user signs on with the registered password, and every node accepts the assertion exactly while it lives, for the sub the dealer was given. |
| EndToEnd.DealtTokens | projects/gateway/src/gateway/proxy.ts:284-390 | That assertion, with a proof by the key whose thumbprint it names, buys a pair of tokens for that sub, from the nodes in whatever states they are by then. |
| EndToEnd.DealtRefresh | projects/gateway/src/gateway/proxy.ts:284-390 | And any refresh token so issued buys the next pair for the same identity, for thirty days. |
| Dealer.CheckUsersExact | projects/dealer/src/dealer.ts:108-127 | The users pass exactly when all names are there and no username and no sub occurs twice. |
| Rules.OptionRules | projects/dealer/src/dealer.ts:92-127 | The dealer runs if and only if 1 ≤ threshold ≤ total, the key id is not empty, there are users, and names and subs are there and differ. |
| Dealer.ValidateUsers | projects/dealer/src/dealer.ts:108-127 | The loop over two sets reports the first complaint in list order. |
| Dealer.Validate | projects/dealer/src/dealer.ts:92-107 | The checks on thresholds, key id and users, in order. |
| Dealer.DealUser | projects/dealer/src/dealer.ts:141-150 | One user's PRF shares and the PRF value behind every stored key; fails exactly on a zero blinding or a threshold beyond the group order. |
| Dealer.RecordUser | projects/dealer/src/dealer.ts:152-160 | Pushes one user's record onto the list of every node. |
| Dealer.DealUsers | projects/dealer/src/dealer.ts:135-161 | All records of all nodes, for every threshold; fails exactly when some user cannot be dealt. |
| Dealer.GenerateDealerOutput | projects/dealer/src/dealer.ts:83-189 | For every input: refuses exactly what its checks refuse, fails exactly when some user cannot be dealt, and otherwise writes one file per node and the group file, with shares on the dealt polynomials and keys from the PRF. |
| NodeConfig.DecodeBytes | projects/node/src/config.ts:68-81 | Decodes a hexadecimal field of an exact length into an array, or refuses it. |
| NodeConfig.ParseNodeConfig | projects/node/src/config.ts:123-171 | The checks of a node file in order, and the values it becomes. |
| Rules.ConfigRules | projects/node/src/config.ts:123-171 | Whatever file is accepted configures one node of a quorum that can exist: version, ranges, lengths, shares for this node, and users that can be told apart. |
| NodeConfig.ParseKeys | projects/node/src/config.ts:154-170 | Keys and users of the file; duplicate usernames are refused. |
| NodeConfig.UniqueNames | projects/node/src/config.ts:162-168 | The growing set finds duplicates exactly. |
| Provisioning.FileAccepted | projects/dealer/src/dealer.ts:171-186 | Every file the dealer writes, for any options it accepts, is accepted by the loader and restores exactly the dealt shares, keys and users, the share id being the node id. |
| Provisioning.StartNode | projects/node/src/index.ts:22-32 | Start-up registers all users of the file and uses the default key id. |
| Provisioning.StartedFromFile | projects/node/src/index.ts:22-32 | A node started from a file of the dealing is one of those the flow theorems are about. |
| Provisioning.DealtIsDeployed | projects/dealer/src/dealer.ts:83-189 | Nodes started from the files of one dealer run satisfy what the sign-on and token theorems assume, for every user. |
| Provisioning.RegisterUserToNodes | projects/node/src/protocol/node.ts:598-622 | Shares by position, keys by node id; refuses exactly thresholds below one, above the list or above the group order and zero blindings, and then registers nothing; otherwise every node ends with the record of its last place in the list, and the user is enrolled everywhere when the threshold is one or the ids count from one. |
| Provisioning.RegisterEach | projects/node/src/protocol/node.ts:615-621 | The registration loop: each node of the list, repeated nodes included, ends with the record of its last place. |
| Provisioning.RegistrationEnrols | projects/node/src/protocol/node.ts:598-622 | Registration enrols at every node on the polynomial drawn, whatever scalars are drawn, if and only if the threshold is one or the ids of the nodes count from one in list order, modulo the group order. |
| Placement.CombinesTo | projects/node/src/protocol/node.ts:598-622 | Shares dealt by place and combined by id give the constant term plus every further coefficient times its moment, the Lagrange-weighted sum of the powers of the places. |
| Placement.RecoversExactly | projects/node/src/protocol/node.ts:598-622 | A quorum of any size recovers every secret of t coefficients if and only if its moments of orders 1 to t − 1 vanish, which depends on ids and places alone. |
| Placement.PairExactly | projects/node/src/protocol/node.ts:598-622 | Two nodes recover every secret of two coefficients if and only if their ids are in the ratio of their places. |
| Registration.ProportionalIsEnrolled | projects/node/src/protocol/node.ts:598-622 | With ids proportional to the places the user is enrolled everywhere after all, with the same key on another polynomial. |
| Registration.ProportionalSignOn | projects/node/src/protocol/node.ts:598-622 | With such ids the registered password signs on with every quorum that the threshold allows. |
| Registration.RegisteredSignOn | projects/node/src/protocol/node.ts:598-622 | After registration without the dealer the registered password signs on if and only if the participants recover the key from the shares at their places, or the password hashes to the zero point, or the truncated SHA-512 collides; always when the moments vanish. |
| Registration.RegisteredIsKept | projects/node/src/protocol/node.ts:615-621 | What registration leaves, whatever the ids, is all that the sign-on theorems ask of a node: the sub and the key of the account. |
| Registration.SwappedAreRegistered | projects/node/src/protocol/node.ts:615-621 | The nodes of the concrete failure are of the kind that the next statement is about. |
| Registration.SwappedSignOn | projects/node/src/protocol/node.ts:598-622 | Nodes 2 and 1 registered in this order with threshold 2: the registered password signs on if and only if the second coefficient is zero modulo the order, the order is three, the password hashes to the zero point, or the hash collides. |
| Provisioning.SwappedNodes | projects/node/src/protocol/node.ts:598-622 | Concrete failure: for nodes 2 and 1 with threshold 2 and coefficients 1 and 1 registration succeeds, the user is enrolled at neither, and what each node keeps. |

## Left out

- Curve and Ristretto arithmetic, point decoding, SHA-256, SHA-512, ChaCha20-Poly1305 and the verification code of the libraries: replaced by a group of prime order, functions, an ideal AEAD and the verification equation. The cofactor and points outside the prime-order subgroup are not modelled.
- Scalar multiplication by zero: the library refuses a zero scalar, the model's action is total; zero nonces, shares, binding factors or blindings have negligible probability.
- Unforgeability is assumed where tokens are traced (`Lineage`), not proved; it is stated as: what verifies at a node was signed by a node earlier.
- Tokens rebuilt with another key id: the model shows that their bytes differ from what was signed, not that the signature fails on them, which depends on the hash.
- Json.ParseUndoesText: numbers are exact integers and strings are sequences of Unicode scalar values; rounding of integers beyond 2^53, fractions, exponents and lone surrogates are not modelled. The tokens carry seconds since 1970 and text that is signed as UTF-8.
- CanonicalJson.StringifyExact: the same numbers and strings.
- CanonicalJson.ParseUndoesStringify: the same numbers and strings.
- NodeConfig.ParseNodeConfig: the same, so a file with 1.0 for 1, which the source accepts, is not read. The dealer writes none.
- Frost.GenerateShamirShares: the library refuses to multiply by a zero secret or share, which the model does not.
- Payloads with an undefined member (an absent nonce), which the gateway refuses at the door (projects/gateway/src/server.ts:180-187).
- The lenient base64 decoder of Buffer, numeric coercion (fractions and infinities are not modelled), BigInt of arbitrary values and upper-casing: library functions with one or two laws each, for the inputs the flows produce.
- The optional iss, aud and nonce arguments of verifyJwt, which no modelled caller passes.
- A DPoP key given as something other than a string.
- HTTP, wire decoding and validation, timeouts and retries, node discovery, logs, user interface, command lines, log texts and error wording.
- Gateway.PastaOAuthProxy.CollectCommitments: the reason texts of excluded nodes are not kept. The calls are made one after another, which for distinct nodes changes nothing (`Quorums.CommitOrderIrrelevant`).
- Gateway.PastaOAuthProxy.HandleSignOn: the calls of one round are made one after another. Distinct participants answer from the state before the calls (`Quorums.SignOnAllAnswers`), so their order does not matter; that other rounds may run in between is covered by the theorems about arbitrary node states (`SignOnFlow.BrowserExact`, `TokenFlow.IssueAnswer`, `Federation.EveryCompleteRoundVerifies`).
- Gateway.PastaOAuthProxy.HandleSign: the same, by `Quorums.SignAllAnswers`; and when several calls fail it reports the first in order, where the source reports the first in time.
- Gateway.PastaOAuthProxy.AskAll: the same.
- Dealer.GenerateDealerOutput: the default options are not covered.
- Provisioning.FileAccepted: the file is read back from its JSON text without the indentation the command line adds.
- The HKDF variant of the key derivation, which nothing calls.
- The copies of these files in the other packages, and the older refresh design with counters and sessions, which the node does not implement.
