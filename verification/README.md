# Verification of Cipher Protocol

A Dafny model of the protocol's core, with proofs: threshold
encryption and distributed key generation, sealing and decryption of order
batches, and the settlement engine. `dafny verify dfyconfig.toml` checks it.

## What is modelled

**Keys and shares.** The order of ristretto255 (section 4 of RFC 9496) is a
constant prime about which nothing else is known (`Residues`), and the group is
the residues modulo that prime, a point being its discrete logarithm (`Group`).
On this stand the Shamir and Lagrange arithmetic (`Lagrange`), partial
decryptions with their Chaum-Pedersen proofs (`Threshold`), the symbolic order
cipher (`OrderCipher`), commitments and the public result (`Dkg`), the
participants (`Participants`), and the validators as a state machine
(`Validators`) and as the objects that refine it (`LocalValidators`).
`KeyGeneration`, `Robustness`, `HonestRun`, `ProtocolRuns`, `KeyCeremony` and
`HonestCeremony` hold the results about single transcripts, honest runs, adversarial
runs, the coordinator, and whole key generations that it drives. `Combining`, `Receiving` and `SignedMessages` say what the combination,
the rounds of the key generation and the filters on signed messages do in terms of
shares and of the fields of messages alone.

**Texts and bytes.** Canonical JSON and the signed frame (`CanonicalJson`), what its
texts say by the grammar of JSON (`JsonTexts`), UTF-8 and big-endian numbers
(`Bytes`), UTF-16 (`Utf16`), hexadecimal (`Hex`), base64url (`Base64Url`), the
ciphertext text and encryption down to bytes (`WireFormat`).

**Seal, decrypt, settle.** The batch commitment and its two ledgers (`Sealing`),
the release of shares over whole runs (`Release`), the coordinator of a
decryption (`Coordination`, `PlainOrders`), and orders and batches in the
database under every interleaving (`BatchLifecycle`, `BatchOrders`, `BatchRaces`,
`BatchStores`).

**Settlement.** Checked, truncating i128 arithmetic (`PoolMath`), the contract and
the token ledgers as functions on values (`Settlement`) and in place with
rollback (`SettlementEngines`), what one call keeps (`SettlementInvariants`) and when
exactly it goes through with which effect (`Deposits`, `Withdrawals`, `Swaps`), whole
runs (`SettlementRuns`), and what a provider can get out (`SettlementLimits`).

## Assumptions

- A hash of points is any function. For given commitments a false statement can answer
  at most one challenge (`SpecialSoundness`); a share for which the hash gives just that
  one is lucky, and the results about verified shares exclude that the shares at hand
  are (`Lucky`); `NoLuckExists` shows that this can be met. Batch and transcript hashes
  are collision-free. The order cipher of the protocol level opens with the right point
  and address only.
- Signatures cannot be forged: a message counts as genuine only if its signer
  signed it before. `MessageDetermines` is what makes that one message only.
- Random scalars are arbitrary numbers between 1 and L-1. A validator begins each
  session id at most once, and honest dealers' shares for honest recipients are
  not zero (`ProtocolRuns`); zero shares are where `hexToScalar` refuses an honest
  share, as `OwnShareMatches` and `HonestDealerQualifies` state exactly.
- Indices of validators differ modulo L and are not zero modulo L.
- Users, traders and fee receivers are not the settlement contract itself, and
  nobody else can take the contract's tokens. A panic or an error undoes the call.

## Where the code differs from what it is meant to do

- The comment above `coordinateDecryption` says that one bad order fails on its
  own. A tampered or invalid one does (`Isolation`), but one whose text does not
  parse makes every validator refuse the whole batch (`AllOrNothing`,
  `BadCiphertextBlocksBatch`); order submission refuses such texts earlier. A
  validator that answers with something other than a list makes the whole call
  throw (`CoordinateDecryption`).
- `runDkg` compares group key and transcript hash only, and then returns the first
  statement whole. A first node can so make it return other verification keys or
  another qualified set (`FirstStatementIsBelieved`, `LyingFirstNode`); whoever
  recomputes the public result of the returned transcript finds out
  (`ReturnedResultExactly`).
- `computePublicResult` accepts any matching disclosure, `finalize` uses the first
  (`TwoDisclosuresBlock`, `ReceiverFinalizes`).
- A transcript in which the coordinator repeats an honest dealer's signed broadcast
  disqualifies that dealer (`SignedDealerQualifies`).
- `dkgBegin` starts a session id again if asked to. If a dealer or a recipient did, a
  router that mixes their messages can have the honest dealer accused and the honest
  recipient's share disclosed (`MixedBeginnings`, `BegunTwice`), which is why the runs of
  `ProtocolRuns` begin each id once.
- A swap fee stays in the reserve and is accrued as well, so a swept fee is missing
  when the reserves are paid out (`SolventExactly`, `LastProviderStranded`,
  `SweptFeesStrandTheProvider`). As long as no more is swept than given
  every provider can withdraw (`ProvidersArePaid`), and the last one exactly as long
  (`LastProviderExactly`).
- Reserves can be left without shares, and go to the next depositor
  (`RoundTripNoGain`, `ReservesWithoutShares`).
- `isqrt` overflows at the largest i128, which is a panic (`Isqrt`).
- Nothing keeps batch creations apart, nothing waits for the updates of a settlement
  that failed before the batch is claimed again, and the catch block sets a batch to
  `failed` also if its update to `settled` took effect. The properties of orders need
  runs in which up to five conditions hold (`Condition`, `IsRunWith`), each result its
  own, and each of the five is needed: in every run of `BatchRaces` all events meet the
  other four, and one of the results fails.
- A ciphertext whose body does not have length 1 modulo 3 has more than one text
  (`SecondText`); the commitment is over texts.
- Lists of texts that differ in lone surrogates only have one commitment
  (`CommitmentDeterminesTexts`).
- A list of one undefined item is printed as the empty list in canonical JSON
  (`UndefinedItemIsLost`), and one among other items leaves a gap that is no JSON
  (`HoleText`).

## Model

| member | source | states |
|---|---|---|
| Residues.ModEq | backend/src/crypto/threshold.ts:23 | `mod` gives two integers the same residue exactly when they are congruent modulo the group order |
| Residues.Euclid | backend/src/crypto/threshold.ts:93-104 | The order divides a product only if it divides a factor |
| Residues.Fermat | backend/src/crypto/threshold.ts:93-104 | a^(L-1) is 1 modulo L for every a that L does not divide (Fermat's little theorem, proved for an arbitrary prime) |
| Threshold.SquareStep | backend/src/crypto/threshold.ts:98-102 | One round of the loop keeps result·base^e |
| Threshold.ModInverse | backend/src/crypto/threshold.ts:93-104 | The loop terminates with a^(L-2) mod L, and that times a is 1 modulo L unless L divides a |
| Threshold.LagrangeAtZero | backend/src/crypto/threshold.ts:107-116 | The loop with reduced numerator and denominator returns the Lagrange coefficient at zero |
| Lagrange.CoefficientEquation | backend/src/crypto/threshold.ts:107-116 | The coefficient times the denominator is the numerator modulo L: the division by a modular inverse is a division |
| Lagrange.CoefficientsSumToOne | backend/src/crypto/threshold.ts:107-116 | Over distinct nonzero indices the coefficients sum to 1 modulo L |
| Lagrange.InterpolateAtZero | backend/src/crypto/threshold.ts:107-116 | For every polynomial of degree below the number of distinct nonzero indices, coefficients times values sum to its value at zero modulo L |
| Threshold.CombineShares | backend/src/crypto/threshold.ts:119-130 | The loop over the chosen shares computes the specified combination, or throws where that throws |
| Threshold.UniqueIndices | backend/src/crypto/threshold.ts:120 | The map keeps exactly one share for every index that occurs |
| Combining.ChosenExactly | backend/src/crypto/threshold.ts:120 | The shares taken are those of the first `threshold` indices to occur, in the order of their first occurrence, of every index the last one |
| Combining.CombineExactly | backend/src/crypto/threshold.ts:119-130 | Any shares, correct or not, combine if and only if enough indices occur and every chosen share is usable; the logarithm of the result is the sum of coefficient times logarithm modulo L |
| Threshold.CombineCorrect | backend/src/crypto/threshold.ts:119-130 | Any shares correct for one polynomial f of degree below the threshold, in any order, with repetitions and surplus, combine to f(0)·R |
| Threshold.CombineNeedsThreshold | backend/src/crypto/threshold.ts:120-123 | Fewer distinct indices than the threshold never combine |
| Threshold.Completeness | backend/src/crypto/threshold.ts:59-91 | The output of `partialDecrypt` verifies against its own key if and only if its response z is not zero |
| Threshold.SpecialSoundness | backend/src/crypto/threshold.ts:82-87 | If the share is not y·R, at most one challenge has an accepted response for given commitments |
| Threshold.NoLuckExists | backend/src/crypto/threshold.ts:49-56 | There is a hash with which no share is ever lucky, that is, hits the one challenge that a false statement can answer |
| Threshold.VerifiedIsCorrect | backend/src/crypto/threshold.ts:75-91 | A share that verifies is y·R for the y behind the verification key if and only if it was not lucky |
| OrderCipher.OpensOnlyWithSharedPoint | backend/src/crypto/orderCipher.ts:118-170 | What was encrypted to y·G opens with y·R and the same address, and with no other point or address |
| Dkg.ShareContextInjective | backend/src/crypto/dkg.ts:79-80 | The context text determines session, dealer and recipient, whatever the session text |
| Dkg.ContextExample | backend/src/crypto/dkg.ts:79-80 | An instance of the context text |
| Dkg.EvalCommitments | backend/src/crypto/dkg.ts:86-94 | The power-accumulating loop computes the commitment to the committed polynomial at j |
| Dkg.CommitmentsMatchPolynomial | backend/src/crypto/dkg.ts:86-94 | For the commitments of a dealer's own coefficients that is f(j)·G, with f(j) as the Horner loop of lines 187-189 computes it |
| Dkg.ComputePublicResult | backend/src/crypto/dkg.ts:117-156 | The method computes the specified public result or throws where it throws |
| Dkg.GroupKey | backend/src/crypto/dkg.ts:143-145 | The loop over QUAL sums the constant commitments |
| Dkg.VerificationKey | backend/src/crypto/dkg.ts:147-152 | The loop over QUAL sums the commitments evaluated at j |
| Dkg.ResultOnOnePolynomial | backend/src/crypto/dkg.ts:117-156 | Whatever the dealers broadcast, the group key is F(0)·G and every verification key F(j)·G for one polynomial F of degree below the threshold |
| Receiving.QualifiedExactly | backend/src/crypto/dkg.ts:117-139 | QUAL is the participants, in their order, with one broadcast of exactly `threshold` valid points whose every complaint by a participant is answered by some matching disclosure |
| Receiving.ResultExactly | backend/src/crypto/dkg.ts:117-156 | There is a result if and only if at least `threshold` > 0 dealers qualify and their commitments at 0 do not add up to the identity; it holds these dealers and the sums at 0 and at every participant |
| KeyGeneration.FinalizedShareOnPolynomial | backend/src/crypto/dkg.ts:257-272 | If `finalize` returns, the secret is F(index) for the polynomial F of the transcript, it is not zero, and the verification key is its public image |
| KeyGeneration.VerifiedSharesOpenOrder | backend/src/crypto/dkg.ts:117-156 | Any threshold of decryption shares that verify against the result's keys, none of them lucky, combine to the sender's point e·Y and open the order |
| KeyGeneration.FinalizedShareVerifies | backend/src/crypto/threshold.ts:59-91 | A finalized participant answers every ephemeral key, and its answer verifies against the published key if and only if z is not zero |
| KeyGeneration.OwnShareMatches | backend/src/crypto/dkg.ts:105-111 | A scalar matches an honest dealer's commitments for j exactly if it is f(j) and not zero |
| KeyGeneration.HonestDealerQualifies | backend/src/crypto/dkg.ts:129-138 | An honest dealer whose broadcast and answers are in the transcript is in QUAL if and only if no accuser's share is zero |
| Robustness.ReceiveStoresMatching | backend/src/crypto/dkg.ts:213-244 | `receive` stores only shares that match; for every dealer with well-formed commitments it stores one or complains, unless it stops |
| Receiving.ReceivedExactly | backend/src/crypto/dkg.ts:213-244 | `receive` stops exactly at the first dealer with valid commitments and no message; of those before it, it stores the share of whoever sent first what opens and matches, accuses in order the others with valid commitments, and does nothing else |
| Receiving.AnsweredExactly | backend/src/crypto/dkg.ts:247-254 | `respond` answers exactly the complaints against this dealer, in their order, each with the complainer's share, whoever complained |
| Robustness.OnlyOwnSharesOpen | backend/src/crypto/dkg.ts:230-238 | A share sealed for another session, dealer or recipient never opens |
| Robustness.FinalizeReturnsExactly | backend/src/crypto/dkg.ts:257-272 | `finalize` returns if and only if there is a public result, every qualified dealer's share is readable, the disclosed ones do not deviate in sum, and the key share is not zero |
| Robustness.ReceiverFinalizes | backend/src/crypto/dkg.ts:213-272 | A participant that received on the transcript's broadcasts, with its complaints listed and at most one disclosure per dealer, finalizes unless there is no result or its share is zero |
| Robustness.TwoDisclosuresBlock | backend/src/crypto/dkg.ts:133-135 | With two disclosures by one dealer, an unreadable one first, the dealer qualifies and the recipient cannot finalize |
| Robustness.PublicResultPermuted | backend/src/crypto/dkg.ts:117-156 | The public result does not depend on the order of messages or on repeated complaints and disclosures |
| Robustness.QualMonotone | backend/src/crypto/dkg.ts:129-138 | QUAL grows with disclosures and shrinks with complaints |
| HonestRun.SealedShareOpens | backend/src/crypto/dkg.ts:192-210 | A share sealed to a participant's transport key opens there and is the dealer's share for it |
| HonestRun.AllAccepted | backend/src/crypto/dkg.ts:213-244 | An honest participant that gets every honest dealer's nonzero share accepts all and complains about none |
| HonestRun.HonestRunCompletes | backend/src/crypto/dkg.ts:213-272 | Among honest participants whose messages arrive everyone qualifies, and each finalizes if and only if the summed polynomial is not zero at 0 and at its index |
| HonestRun.MixedBeginnings | backend/src/crypto/dkg.ts:213-254 | A recipient accepts a share exactly if it was sealed to its present transport key, belongs to the broadcast and is not zero; otherwise it accuses the honest dealer, which discloses the share |
| HonestRun.BegunTwice | backend/src/crypto/dkg.ts:213-254 | Two such cases: the recipient began again with another transport key, or the dealer with another polynomial, and the honest dealer is accused |
| LocalValidators.DkgParticipant.constructor | backend/src/crypto/dkg.ts:175-185 | A new participant has received nothing |
| LocalValidators.DkgParticipant.Deal | backend/src/crypto/dkg.ts:192-210 | The loop seals one share for every participant in order, and throws if one cannot be sealed |
| LocalValidators.DkgParticipant.Receive | backend/src/crypto/dkg.ts:213-244 | The loop stores and complains exactly as specified; what was stored before it stops stays |
| LocalValidators.DkgParticipant.Finalize | backend/src/crypto/dkg.ts:257-272 | Returns the specified key share and result, or throws |
| LocalValidators.DkgParticipant.SumShares | backend/src/crypto/dkg.ts:260-266 | The loop adds the received or first disclosed share of every qualified dealer |
| LocalValidators.LocalValidator.constructor | backend/src/validator/localValidator.ts:59-67 | A new validator has no key and no session |
| LocalValidators.LocalValidator.DkgBegin | backend/src/validator/localValidator.ts:138-145 | Refuses to re-key and unknown participants; otherwise starts the session with fresh secrets |
| LocalValidators.LocalValidator.DkgDeal | backend/src/validator/localValidator.ts:147-162 | Refuses unless every participant has exactly one genuine transport key; otherwise deals to those keys |
| LocalValidators.LocalValidator.DkgReceive | backend/src/validator/localValidator.ts:170-177 | Receives the verified messages only, and keeps what was stored even if it throws |
| LocalValidators.LocalValidator.DkgRespond | backend/src/validator/localValidator.ts:179-187 | Every disclosure is signed for this session and answers someone who genuinely accused this dealer, with that one's share; everyone who did is answered |
| LocalValidators.LocalValidator.DkgFinalize | backend/src/validator/localValidator.ts:202-222 | Keeps the key share, ends the session and signs the result and the hash of the verified transcript; unchanged if it throws |
| SignedMessages.VerifiedExactly | backend/src/validator/localValidator.ts:124-131 | A broadcast, complaint or disclosure is in the verified transcript if and only if its dealer, complainer or dealer, a known peer, signed it for this session |
| SignedMessages.TranscriptExactly | backend/src/validator/localValidator.ts:190-200 | These are kept in their order, each as often as it was signed, and nothing else |
| SignedMessages.SharesExactly | backend/src/validator/localValidator.ts:172-174 | The shares that are received are exactly those for this validator that their dealer signed for this session, in their order |
| SignedMessages.BeginExactly | backend/src/validator/localValidator.ts:138-145 | A session begins if and only if no key is held, all participants are known, this validator is one, and the threshold is between 1 and their number; its transport key is signed |
| SignedMessages.DealExactly | backend/src/validator/localValidator.ts:147-162 | A validator deals if and only if the one signed transport key of every participant is a point; every share is then signed, the participant's own, and sealed to that key |
| SignedMessages.KeptIsSigned | backend/src/validator/localValidator.ts:202-222 | What is kept are the keys of the signed result, which is that of the hashed transcript, and the secret behind the own verification key in it |
| SignedMessages.SignedDealerQualifies | backend/src/validator/localValidator.ts:190-205 | Whatever else is in the signed transcript: an honest dealer whose accusers are answered is in the returned qualified set if and only if its signed broadcast is there exactly once and no accusing participant's share is zero |
| SignedMessages.SignedRunCompletes | backend/src/validator/localValidator.ts:170-222 | If the signed messages of honest participants arrive, among any others, a validator complains about nobody and finalizes with all qualified, exactly if the summed polynomial is not zero at 0 and at its index |
| ProtocolRuns.HonestDealerAccepted | backend/src/validator/localValidator.ts:170-177 | For an honest dealer an honest validator stores that dealer's own share for it or nothing, and does not accuse it, whatever the router sends |
| ProtocolRuns.NoComplaintAgainstHonest | backend/src/validator/localValidator.ts:170-177 | The complaints an honest validator signs are never against an honest one |
| ProtocolRuns.SignedExactly | backend/src/validator/localValidator.ts:119-222 | Over every run, what a validator has signed is exactly what its own earlier calls returned |
| ProtocolRuns.StepKeeps | backend/src/validator/localValidator.ts:138-222 | Every call with arbitrary unforged messages keeps the invariant on what honest validators signed |
| ProtocolRuns.RunKeeps | backend/src/validator/localValidator.ts:138-222 | The invariant holds in every state of every run under a router that drops, reorders, replays and injects |
| ProtocolRuns.HonestSharesStayPrivate | backend/src/validator/localValidator.ts:170-187 | Over every run no honest validator complains about an honest one, and no honest dealer discloses an honest recipient's share |
| KeyCeremony.RunDkg | backend/src/services/validatorNetwork.ts:22-75 | The routing loops and the comparison succeed exactly when every round did and all results agree with the first; they hand every node the shares addressed to it, and return the first result and the transcript |
| KeyCeremony.TranscriptExactly | backend/src/services/validatorNetwork.ts:31-49 | The transcript exists if and only if every node answered rounds 2 and 3; it is the broadcasts of the nodes that dealt and the complaints and disclosures of all, node by node in their order |
| KeyCeremony.SharesToExactly | backend/src/services/validatorNetwork.ts:46 | A node is handed exactly the shares addressed to it, in their order |
| KeyCeremony.SucceedsExactly | backend/src/services/validatorNetwork.ts:29-60 | The run succeeds if and only if every node begins, at least `threshold` deal, every node receives, responds and finalizes, and all results are signed and agree with the first in group key and hash |
| HonestCeremony.CeremonySucceeds | backend/src/services/validatorNetwork.ts:22-75 | Among any number of honest validators, each answering what the coordinator hands it, with no zero share: the run succeeds if and only if the sum of their polynomials is not zero at 0 and at every index; then all qualify, the result is returned, and every validator keeps it and its value of that sum |
| KeyCeremony.FinalizedStatement | backend/src/validator/localValidator.ts:202-222 | A finalized validator signed the public result of the transcript whose hash it signed, and holds the share of its polynomial |
| KeyCeremony.HonestAgree | backend/src/services/validatorNetwork.ts:51-60 | If the run succeeds, all honest validators hold one result and shares of one polynomial, and the returned group key is theirs |
| KeyCeremony.ReturnedResultIsHeld | backend/src/services/validatorNetwork.ts:51-74 | With an honest first node the whole returned result is the one every honest validator holds |
| KeyCeremony.FirstStatementIsBelieved | backend/src/services/validatorNetwork.ts:53-74 | With honest validators at all other nodes, a first node that signs any other result with the right group key leaves the run successful, and its result is returned |
| KeyCeremony.ReturnedResultExactly | backend/src/services/validatorNetwork.ts:51-74 | The returned result is the one an honest validator holds if and only if it is the public result of the returned transcript |
| KeyCeremony.LyingFirstNode | backend/src/services/validatorNetwork.ts:51-74 | A run of two nodes, the second honest, that returns whatever verification keys and qualified set the first one signs |
| CanonicalJson.CanonPrefix | backend/src/crypto/signing.ts:24-35 | Texts that begin with two canonical values, each ended by a delimiter, begin with values of one meaning |
| CanonicalJson.MembersFacts | backend/src/crypto/signing.ts:28-31 | Filtering and sorting the fields keeps what they mean and orders the keys strictly |
| JsonTexts.LessExactly | backend/src/crypto/signing.ts:30 | Keys are compared by their UTF-16 code units |
| JsonTexts.CanonSpells | backend/src/crypto/signing.ts:24-35 | The text of a value without undefined array items is JSON for it, read by the grammar and not by the printer, with the fields in the order of their keys |
| CanonicalJson.CanonDetermines | backend/src/crypto/signing.ts:24-35 | Two values have the same text if and only if they are equal up to key order, undefined fields and [undefined] for [] |
| CanonicalJson.UndefinedItemIsLost | backend/src/crypto/signing.ts:25 | [undefined] and [] have the same text |
| CanonicalJson.MessageDetermines | backend/src/crypto/signing.ts:37-38 | The signed bytes determine domain, signer and payload, for domains without a line break |
| CanonicalJson.MessageExample | backend/src/crypto/signing.ts:37-38 | An instance of the signed frame |
| Hex.DecodeHex | backend/src/crypto/orderCipher.ts:49-54 | The loop fills a buffer with the bytes of the digit pairs, or throws on anything else |
| Hex.HexRoundTrip | backend/src/crypto/orderCipher.ts:45-54 | Decoding the text of bytes gives the bytes |
| Hex.HexCanonical | backend/src/crypto/orderCipher.ts:45-54 | A text that decodes is, in lower case, the text of its bytes |
| Hex.DigitExactly | backend/src/crypto/orderCipher.ts:50-52 | The digits are the sixteen of either case |
| Hex.HexExactly | backend/src/crypto/orderCipher.ts:49-54 | A text decodes to given bytes if and only if its digits, in either case and two for each byte, high one first, denote them |
| Hex.WrittenDigits | backend/src/crypto/orderCipher.ts:45-47 | The text written for bytes has their digits, in lower case |
| Base64Url.RoundTrip | backend/src/crypto/orderCipher.ts:56-66 | Decoding after encoding is the identity for byte strings of every length (section 5 of RFC 4648) |
| Base64Url.EncodeReads | backend/src/crypto/orderCipher.ts:56-60 | The characters, six bits each, denote the big-endian number of the bytes, shifted by the spare bits |
| Base64Url.CanonicalTexts | backend/src/crypto/orderCipher.ts:56-66 | Encoding after decoding is the identity exactly for texts without spare bits |
| WireFormat.Concat | backend/src/crypto/orderCipher.ts:68-76 | The buffer holds the parts one after the other |
| WireFormat.WireRoundTrip | backend/src/crypto/orderCipher.ts:136-150 | Every R, nonce and body of the right lengths, R a point other than the identity, survive rendering and parsing |
| WireFormat.ParsedTexts | backend/src/crypto/orderCipher.ts:139-150 | Whatever parses is well formed, and is the rendering of its parse exactly if it has no spare bits |
| WireFormat.SecondText | backend/src/crypto/orderCipher.ts:62-66 | A well-formed ciphertext has a text other than its rendering if and only if the length of its body is not 1 modulo 3 |
| WireFormat.AadDetermines | backend/src/crypto/orderCipher.ts:107-109 | The authenticated data determine R and the address |
| WireFormat.OrderRoundTrip | backend/src/crypto/orderCipher.ts:118-170 | An order encrypted to y·G decrypts, on the level of texts and bytes, with the encoding of y·R |
| WireFormat.OnlySharedPointOpens | backend/src/crypto/orderCipher.ts:96-175 | If the box made with the key of R and y·R, over R and the address, opens with nothing else, the ciphertext opens exactly with the encoding of y·R and for this address |
| WireFormat.SoundSuiteExists | backend/src/crypto/orderCipher.ts:96-137 | The assumption on the libraries that the byte-level results use can be met |
| Bytes.U32beInjective | backend/src/chain/batchCommitment.ts:20-24 | The four bytes determine the number |
| Bytes.U32beDenotes | backend/src/chain/batchCommitment.ts:20-24 | They denote it, high byte first, and exist exactly if it is below 2^32 |
| Bytes.Utf8Injective | backend/src/chain/batchCommitment.ts:27 | UTF-8 bytes determine the text |
| Bytes.CharValue | backend/src/chain/batchCommitment.ts:27 | The bits of a character's bytes, without the marks of their lengths, are its number |
| Bytes.Utf8Form | backend/src/chain/batchCommitment.ts:27 | The first byte of a character tells how many follow, and those begin with the bits 10 |
| Sealing.BatchCommitment | backend/src/chain/batchCommitment.ts:18-31 | The loop hashes exactly the domain, the count and the length-prefixed texts, or throws on a length over 32 bits |
| Sealing.PreimageLayout | backend/src/chain/batchCommitment.ts:18-31 | The preimage is the domain, four bytes that denote the count, and side by side for every text four bytes that denote its length and its bytes; it is refused exactly if one of these numbers is 2^32 or more |
| Sealing.PreimagePrefix | backend/src/chain/batchCommitment.ts:18-31 | No preimage is a proper prefix of another, and equal ones are of equal lists |
| Sealing.CommitmentDeterminesList | backend/src/chain/batchCommitment.ts:18-31 | Two lists of texts without lone surrogates have one commitment if and only if they are the same list in the same order |
| Utf16.DecodeExactly | backend/src/chain/batchCommitment.ts:27 | Two texts encode the same characters if and only if they are the same code units once every lone surrogate is replaced |
| Sealing.CommitmentDeterminesTexts | backend/src/chain/batchCommitment.ts:18-31 | Over all texts, with lone surrogates too: two lists have one commitment if and only if they are the same once every lone surrogate is replaced by the replacement character |
| Sealing.SameBatch | backend/src/chain/batchCommitment.ts:47-51 | Two ids name one batch exactly if they differ only in hyphens and letter case |
| Sealing.BatchIdExactly | backend/src/chain/batchCommitment.ts:47-51 | An id names given bytes if and only if they are sixteen and its characters other than hyphens are their digits |
| Sealing.OrderVault.constructor | contracts/order-vault/src/lib.rs:57-58 | A deployed vault is empty |
| Sealing.OrderVault.Initialize | contracts/order-vault/src/lib.rs:61-70 | Sets the admin once |
| Sealing.OrderVault.CreateBatch | contracts/order-vault/src/lib.rs:123-153 | Each error leaves the storage as it was, and comes exactly without an admin, from another caller, and for an id that has a record, in this order; otherwise the record is written and nothing else changes |
| Sealing.InMemoryCommitmentLedger.constructor | backend/src/chain/batchCommitment.ts:101-103 | The stand-in ledger starts empty |
| Sealing.InMemoryCommitmentLedger.Record | backend/src/chain/batchCommitment.ts:109-112 | Write-once for each id text |
| Sealing.SealedListUnique | backend/src/chain/batchCommitment.ts:121-131 | A record passes the check for at most one list |
| Sealing.SealedExactly | backend/src/chain/batchCommitment.ts:121-131 | The check passes exactly if the record has the number and the commitment of the texts |
| Release.ReleasedExactly | backend/src/validator/localValidator.ts:100-115 | A validator answers if and only if it has a readable key, every ciphertext parses, and the record of its own ledger, under the id text in memory or under the sixteen bytes it names on chain, has the number and the commitment of the ciphertexts; it answers with y·R for each |
| Release.SealedIsAnswered | backend/src/validator/localValidator.ts:100-115 | Over every run: once the commitment to a list that parses is written for a batch, every later request for that list by a holder of a key that reads this ledger is answered |
| Release.ReleasesAreAnswers | backend/src/validator/localValidator.ts:100-115 | Over every run a list counts as released exactly if an earlier request for it was answered |
| Release.StepKeeps | backend/src/validator/localValidator.ts:100-115 | Every sealing and every request keeps: all released lists match the record of their batch |
| Release.OneListPerBatch | backend/src/validator/localValidator.ts:100-115 | Over every run each batch has at most one list for which any validator ever hands out shares |
| Release.RecordsAreWritten | contracts/order-vault/src/lib.rs:136-147 | Every record was written at one earlier event, by the admin or the backend |
| Release.NeverBeforeSealing | backend/src/validator/localValidator.ts:108-114 | Shares are handed out only for a list whose number and commitment were written at an earlier event of the run, under the same id text in memory or the bytes it names on chain, to the ledger that the validator reads |
| Release.SealedListOnly | backend/src/chain/batchCommitment.ts:121-131 | If a batch is sealed with the commitment to a list, every release for it, whenever, is for that list |
| PlainOrders.AcceptedExactly | backend/src/services/validatorService.ts:22-44 | A decrypted order is accepted if and only if the plaintext holds it, as a client writes it, for this user and nonce, between different tokens and with amounts in range |
| PlainOrders.AmountsFit | backend/src/services/validatorService.ts:18-43 | The accepted amounts are exactly the decimal texts of 1 to 10^38-1, and all of them fit the contract's i128 |
| Coordination.CoordinateDecryption | backend/src/services/validatorService.ts:91-149 | The nested loops sort verified shares into one column per order and open each; the whole call throws exactly if a registered validator answered with something that is not a list |
| Coordination.ColumnExactly | backend/src/services/validatorService.ts:109-135 | The shares collected for an order are exactly those of registered nodes under their own index that verify against the registered key for the order's R, in the order of the nodes |
| Coordination.OnlyHeldOrders | backend/src/services/validatorService.ts:137-149 | Whatever the validators answer, an order comes out only under its own id, and only if the row's own ciphertext, opened for the row's user, holds that order under the row's nonce |
| Coordination.DecryptedExactly | backend/src/services/validatorService.ts:91-149 | With a threshold of honest answers an order comes out if and only if the row's ciphertext, opened with f(0)·R, holds it for the row's user and nonce; otherwise it fails |
| Coordination.MismatchFails | backend/src/services/validatorService.ts:35-36 | So a ciphertext resubmitted for another nonce or user than it was written for fails, and so does one that is no valid order |
| Coordination.Isolation | backend/src/services/validatorService.ts:109-148 | What becomes of order k depends only on order k and on the k-th entries of the answers |
| Coordination.ColumnSize | backend/src/services/validatorService.ts:122-135 | Every node contributes at most one share to an order |
| Coordination.TooFewFail | backend/src/services/validatorService.ts:141-143 | An order with verified shares from fewer nodes than the threshold always fails |
| Coordination.ColumnCorrect | backend/src/services/validatorService.ts:122-135 | All collected shares are correct, whoever sent them, if none of them was lucky |
| Coordination.ByzantineTolerance | backend/src/services/validatorService.ts:91-149 | If a threshold of registered validators answer honestly, every valid order encrypted to the group key comes out exactly as encrypted, whatever the rest answer, unless a share taken for it was lucky |
| Coordination.DecryptsAfterKeyGeneration | backend/src/services/validatorService.ts:91-149 | The same with the keys and shares of any key generation, from transcript to plaintext |
| Release.AllOrNothing | backend/src/validator/localValidator.ts:114-119 | A validator answers if and only if every ciphertext of the list parses |
| Coordination.BadCiphertextBlocksBatch | backend/src/services/validatorService.ts:86-90 | One ciphertext that does not parse makes every order of the batch fail, however honest all validators are |
| BatchLifecycle.RebuiltIsTexts | backend/src/controllers/settlementController.ts:38-40 | The rebuilt list is the batch's list whatever order the rows come in |
| BatchLifecycle.RebuiltExactly | backend/src/controllers/settlementController.ts:38-40 | Whatever rows come back, it is the ciphertexts of the batch's orders among them, in the order of the batch |
| BatchLifecycle.UniqueExactly | backend/src/controllers/batchController.ts:9-10 | The ids of a batch are the requested ones at their first occurrences, in this order |
| BatchLifecycle.StepKeeps | backend/src/controllers/settlementController.ts:24-80 | Every database or ledger action of every task keeps the invariant |
| BatchLifecycle.RunKeeps | backend/src/controllers/settlementController.ts:24-80 | Over every interleaving of creations, settlements, failures, crashes and late updates: a batch in settlement has one holder and cannot be claimed, and every batch is sealed with its own ciphertexts |
| BatchLifecycle.OneHolder | backend/src/controllers/settlementController.ts:28-32 | At most one task at a time settles a batch |
| BatchLifecycle.AskedIsSealed | backend/src/controllers/settlementController.ts:35-41 | Every list shown to validators is the list sealed for that batch |
| BatchLifecycle.AskedExactly | backend/src/controllers/settlementController.ts:35-41 | Over every run the lists shown are exactly those of batches that a task had claimed, the ciphertexts of the orders in the batch's order |
| BatchLifecycle.SettledStays | backend/src/controllers/settlementController.ts:71-79 | A settled batch leaves that status exactly if a settlement that holds it reports an error, its update to `settled` having taken effect |
| BatchLifecycle.SettledIsFinal | backend/src/controllers/settlementController.ts:28-79 | As long as that does not happen a settled batch stays settled |
| BatchOrders.StepOwns | backend/src/controllers/batchController.ts:8-37 | Under the three conditions on creations every action keeps one owner for every order, and orders of settled batches settled or failed |
| BatchOrders.OneBatchPerOrder | backend/src/controllers/batchController.ts:13-34 | If creations do not overlap and none is lost half way, no order is in two batches |
| BatchOrders.SettledOrdersFinal | backend/src/controllers/settlementController.ts:48-78 | If moreover no batch is claimed before its creation is through, every order of a settled batch is settled or failed, also after late updates of failed attempts |
| BatchOrders.SettlementWritesVerdicts | backend/src/controllers/settlementController.ts:48-78 | If moreover no batch is claimed while an update of a failed attempt is in flight, a batch that becomes settled, on time or late, leaves every order with the status of its own verdict |
| BatchOrders.SettledOrdersStay | backend/src/controllers/settlementController.ts:48-78 | If also no settled batch is set to `failed`, a settled batch stays settled and its orders never change their status again |
| BatchRaces.OverlappingCreations | backend/src/controllers/batchController.ts:14-34 | A run in which only creations overlap puts an order into two batches |
| BatchRaces.CreationDiesInTheGap | backend/src/controllers/batchController.ts:27-34 | So does one in which only a creation stops between storing the batch and marking its orders |
| BatchRaces.ClaimInTheGap | backend/src/controllers/batchController.ts:27-34 | A run in which only a claim comes before its creation is through ends with a settled batch whose order is `batched` |
| BatchRaces.LateUpdateAfterSettling | backend/src/controllers/settlementController.ts:48-78 | A run in which only a claim comes while updates of a failed attempt are in flight turns a settled order of a settled batch into a failed one |
| BatchRaces.LateUpdateBeforeSettling | backend/src/controllers/settlementController.ts:48-78 | The same late update before the batch is settled: it is settled with an order whose status is not its verdict's |
| BatchRaces.SettledWhileWriting | backend/src/controllers/settlementController.ts:71-78 | Or the late update is that of the batch: it is settled while the next attempt still writes, and a settled order turns into a failed one |
| BatchRaces.SettledThenFailed | backend/src/controllers/settlementController.ts:71-78 | A run in which only a settled batch is set to `failed`, by the catch block after a lost acknowledgement: the next attempt turns a settled order into a failed one |
| BatchStores.BatchStore.constructor | backend/src/controllers/batchController.ts:7 | The tables start empty |
| BatchStores.BatchStore.SelectOrders | backend/src/controllers/batchController.ts:9-19 | The requested ids without repetitions in order of first occurrence, if there are any and all are pending |
| BatchStores.BatchStore.MarkOrders | backend/src/controllers/batchController.ts:34 | Exactly the listed orders become `batched` |
| BatchStores.BatchStore.CreateBatch | backend/src/controllers/batchController.ts:8-37 | Throws without a change, or does the four actions select, seal, record and mark of the interleaved model |
| BatchStores.BatchStore.WriteOutcomes | backend/src/controllers/settlementController.ts:48-64 | Writes the first n verdicts one after the other |
| BatchStores.BatchStore.SettleBatch | backend/src/controllers/settlementController.ts:24-80 | No claim, no change; a failure after any number of updates leaves these and the batch failed; a success writes every verdict and settles the batch. Updates that land later are in `BatchLifecycle` |
| BatchStores.WrittenStatus | backend/src/controllers/settlementController.ts:48-64 | Every order of the batch ends with its own verdict's status, all others are untouched |
| PoolMath.Isqrt | contracts/settlement-engine/src/lib.rs:120-131 | Newton's loop terminates with the floor of the square root; no intermediate overflows except at the largest i128 |
| PoolMath.NewtonStep | contracts/settlement-engine/src/lib.rs:127-129 | A step from above the root stays above it and falls strictly unless it is the root |
| PoolMath.DepositKeeps | contracts/settlement-engine/src/lib.rs:149-151 | Minting the smaller of the two rounded shares keeps the share value |
| PoolMath.WithdrawKeeps | contracts/settlement-engine/src/lib.rs:209-213 | Rounded payouts are covered by the reserves and keep the share value |
| PoolMath.SwapKeeps | contracts/settlement-engine/src/lib.rs:231-247 | A swap pays less than the reserve and does not lower the product, rounding and fee included |
| SettlementInvariants.OnePoolPerPair | contracts/settlement-engine/src/lib.rs:71-116 | What is stored for a pair in one order is read in the other with the reserves exchanged |
| SettlementInvariants.AddKeepsPools | contracts/settlement-engine/src/lib.rs:136-181 | A deposit keeps supply² ≤ reserve·reserve in all pools, and the share value of all pools with shares |
| SettlementInvariants.AddKeepsShares | contracts/settlement-engine/src/lib.rs:146-178 | A deposit keeps: the users' balances of every pool are not negative and sum to its supply |
| Deposits.DepositExactly | contracts/settlement-engine/src/lib.rs:136-181 | A deposit goes through if and only if no number overflows and the user has the two amounts; it mints the floor of the square root of x·y at first, later the largest lp with lp·ra ≤ x·supply and lp·rb ≤ y·supply, and moves just these amounts and shares |
| SettlementInvariants.RemoveKeeps | contracts/settlement-engine/src/lib.rs:185-223 | The same for withdrawals |
| SettlementInvariants.NegativeWithdrawalReverts | contracts/settlement-engine/src/lib.rs:197-220 | A withdrawal of a negative number of shares never succeeds |
| SettlementInvariants.SettledOrder | contracts/settlement-engine/src/lib.rs:269-280 | A settled order gets at least its minimum and less than the reserve, and the product does not fall |
| SettlementInvariants.SettleKeeps | contracts/settlement-engine/src/lib.rs:269-280 | A settled order keeps all pools in order and all share values |
| Swaps.SwapExactly | contracts/settlement-engine/src/lib.rs:231-308 | An order is settled if and only if there are numbers out and fee with out·(rIn+net) ≤ net·rOut < (out+1)·(rIn+net), 10000·fee ≤ 30·amountIn < 10000·(fee+1) and net = amountIn - fee, out is at least the minimum, both reserves are not zero, user and contract can pay, the user has approved, and nothing overflows; these are then paid and accrued |
| Swaps.RefusedExactly | contracts/settlement-engine/src/lib.rs:231-247 | The errors of a quote come exactly for a pool that lacks a token, and for a quote below the minimum |
| Swaps.BatchExactly | contracts/settlement-engine/src/lib.rs:257-318 | A batch is settled if and only if it was not before and each order can be settled on the state that the one before it left; it leaves the last state with the results stored |
| Swaps.CollectExactly | contracts/settlement-engine/src/lib.rs:328-349 | A sweep goes through exactly if there is an admin and the contract can pay the accrued fees; it pays these, resets them and changes nothing else |
| SettlementRuns.SettleOrdersKeeps | contracts/settlement-engine/src/lib.rs:269-309 | A whole batch keeps pools, products, supplies and the contract's margin over the reserves, and accrues exactly the fees of its results |
| SettlementRuns.ResultsInOrder | contracts/settlement-engine/src/lib.rs:267-317 | Result i is the quote of order i on the state after orders 0 to i-1 |
| SettlementRuns.NoFreeLunch | contracts/settlement-engine/src/lib.rs:269-280 | Swaps that end with one reserve not above its start end with the other not below |
| SettlementRuns.StepKeeps | contracts/settlement-engine/src/lib.rs:136-349 | Every call by anyone keeps all the invariants of the engine and the share value of every pool |
| SettlementRuns.RunKeeps | contracts/settlement-engine/src/lib.rs:136-349 | Over every run: pool bound, shares sum to supply, balance + swept = reserves + gifts, accrued + swept = fees of all settled orders |
| SettlementRuns.ShareValueNeverFalls | contracts/settlement-engine/src/lib.rs:136-349 | As long as a pool is not emptied the value of its shares never falls, over any number of calls |
| SettlementRuns.SolventExactly | contracts/settlement-engine/src/lib.rs:278-300 | The contract covers its reserves of a token if and only if no more fees were swept than tokens given to it |
| SettlementRuns.NoNegativeWithdrawal | contracts/settlement-engine/src/lib.rs:185-223 | In every reachable state a negative withdrawal reverts |
| SettlementRuns.BatchesSettleOnce | contracts/settlement-engine/src/lib.rs:262-265 | Over every run the results of a settled batch stay, and settling it again changes nothing |
| SettlementRuns.FirstAdminStays | contracts/settlement-engine/src/lib.rs:60-69 | Over every run the first initialization sets the admin, and nothing changes it |
| SettlementLimits.RoundTripNoGain | contracts/settlement-engine/src/lib.rs:136-223 | A deposit withdrawn at once brings no gain if and only if the pool had shares or was empty; reserves without shares go to the next depositor |
| SettlementLimits.ReservesWithoutShares | contracts/settlement-engine/src/lib.rs:136-223 | A run in which a first deposit of (5, 0) mints no shares and the next user deposits (1, 1), withdraws at once and is paid (6, 1) |
| SettlementLimits.FullWithdrawal | contracts/settlement-engine/src/lib.rs:209-220 | Withdrawing all shares pays out exactly the reserves or nothing |
| SettlementLimits.LastProviderStranded | contracts/settlement-engine/src/lib.rs:328-349 | Once more fees of a token were swept than given, the holder of all shares of its one pool cannot withdraw them |
| SettlementLimits.SweptFeesStrandTheProvider | contracts/settlement-engine/src/lib.rs:328-349 | A run of one deposit, one swap and one sweep after which that withdrawal panics |
| Withdrawals.RunFits | contracts/settlement-engine/src/lib.rs:136-223 | Over every run all stored reserves, supplies and balances of shares are i128 numbers |
| Withdrawals.WithdrawalExactly | contracts/settlement-engine/src/lib.rs:185-223 | A withdrawal goes through if and only if the user holds the shares, there are any, no product or credit overflows and the contract has the two amounts; it pays the largest amounts that the shares cover and moves nothing else; which error comes otherwise |
| Withdrawals.ProvidersArePaid | contracts/settlement-engine/src/lib.rs:185-223 | In every reachable state with no more of the two tokens swept than given, every withdrawal of shares that the user holds goes through unless a number overflows |
| Withdrawals.LastProviderExactly | contracts/settlement-engine/src/lib.rs:328-349 | The holder of all shares of the one pool with its tokens can withdraw them if and only if no more of either token was swept than given |
| SettlementEngines.SettlementEngine.constructor | contracts/settlement-engine/src/lib.rs:57-58 | A deployed engine has empty storage |
| SettlementEngines.SettlementEngine.Initialize | contracts/settlement-engine/src/lib.rs:60-69 | Sets the admin once |
| SettlementEngines.SettlementEngine.SetReserves | contracts/settlement-engine/src/lib.rs:98-116 | Stores the reserves under the one key of the pair, in the order of the key |
| SettlementEngines.SettlementEngine.AddLiquidity | contracts/settlement-engine/src/lib.rs:136-181 | Does what the specification says in place, and nothing at all if it panics |
| SettlementEngines.SettlementEngine.RemoveLiquidity | contracts/settlement-engine/src/lib.rs:185-223 | The same, for errors and panics |
| SettlementEngines.SettlementEngine.ExecuteOrder | contracts/settlement-engine/src/lib.rs:269-308 | One iteration of the loop over the orders |
| SettlementEngines.SettlementEngine.SettleBatch | contracts/settlement-engine/src/lib.rs:257-318 | Settles all orders and stores the results, or nothing; a batch id settles once |
| SettlementEngines.SettlementEngine.CollectFees | contracts/settlement-engine/src/lib.rs:328-349 | Sweeps and resets the accrued fees, or changes nothing |
| SettlementEngines.FailureStays | contracts/settlement-engine/src/lib.rs:254-256 | An order that fails makes the whole batch fail in the same way |

## Left out

- Curve arithmetic, SHA-2, HKDF, AES-GCM and ed25519 internals: libraries, taken as
  described under Assumptions. Secrecy and bias of the key are not stated.
- Hexadecimal texts of points and scalars inside key-generation messages are either
  readable, with the point or number they denote, or not; their digits are modelled
  in `Hex` only. Commitments that are not an array count as commitments of the wrong length.
- Uniform sampling in `randomScalar`; random scalars are parameters.
- The decoding of decrypted bytes to text: `OrderRoundTrip` ends at the bytes, which
  determine the text (`Utf8Injective`), except that a leading byte-order mark is dropped.
- CanonicalJson.MessageDetermines: texts with lone surrogates, numbers that are not
  integers or are printed with an exponent, and domains with a line break are not modelled.
- `JSON.parse` is a parameter of `Coordination`; the reasons given for failed orders
  are not modelled, only that they failed.
- KeyCeremony.RunDkg: the answers of the nodes are arbitrary there, whatever they are handed;
  `HonestCeremony` is where they are those of honest validators.
- BatchStores.BatchStore.SettleBatch: updates of orders land in the order of the batch and
  none after the call; any other order, and late ones, are events of `BatchLifecycle`.
- The `insecure-skip` mode, `dkgFaults` and `byzantine` settings; faulty parties send
  arbitrary messages instead.
- The addresses' real order: addresses are numbers, and only that the order is total is used.
- Time-to-live extension and archival of contract storage; `require_auth`, except that
  only the admin writes to the vault; network passphrases, fees and polling.
- `submit_order` and `get_pending_orders` of the vault, which nothing uses.
- HTTP, database schema, key files, rate limits, authentication, the frontend, price
  data and the choice between in-process and remote validators.
- Simulated settlement without a contract, and the amounts written back to order rows;
  `BatchLifecycle` keeps the status of an order only.
