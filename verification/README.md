# AegisToken applets: a verified model

AegisToken is a security token: PIV, OATH and OpenPGP card applets behind a CCID card
session, with applet state sealed into flash. This project models the deterministic core
of those applets and proves what they promise over every input and every run.

- **RSA** (`NumberTheory`, `Rsa`, `MillerRabin`, `RsaBlob`, `RsaPadding`): blinded CRT with
  Garner recombination, key generation, the probable-prime test, the persisted key blob and
  PKCS#1 v1.5 padding, over mathematical integers. Number theory is built from the ground up:
  the binomial theorem, Fermat's little theorem, Euclid's lemma, Chinese remainders.
- **Sealed storage** (`SlotStore`, `SealedBlob`, `SealedBlobSafety`, `SealedBlobStore`,
  `SealedPivStore`, `CredentialStore`): two-slot cells, blobs split over shards with a commit
  cell written last, the PIV record map, and the credential database. Power can fail inside
  any slot write. Sealing is an ideal authenticated pair.
- **PINs** (`Pin`, `PivPins`, `PgpPins`): retry counters, persisted counters and sticky session
  floors over a store that may return anything and refuse any write. The hash is uninterpreted.
- **OATH** (`OathState`, `Oath`, `OathCodes`, `OathSealed`): the state codec, the applet as a machine
  over its commands, with failed saves that leave the old or the new state, re-selections and power
  cycles, what the codes on the wire are, and the same machine on its sealed shards.
- **OpenPGP** (`Chain`, `KeyWrap`, `Cfb`, `Decipher`, `OpenPgpState`): in-place key wrap, CFB,
  the card side of an ECDH message, and the persisted state. Cipher, hashes and curve are
  uninterpreted; the cipher is a permutation where that matters.
- **Card session** (`Ccid`, `Card`, `Chaining`, `PivSign`): packet reassembly, one frame at a
  time, held frames, response chaining, and PIV signing under PIN and touch policies behind the
  router.

Handlers that update fields are classes whose methods are proved to take the step of a function
on values; what is promised is proved about those functions and their runs. Entropy, the store's
answers and the user's decisions are parameters. Status words are in `StatusWords`, octets and
fixed-width numbers in `Bytes`, lists found by key in `Keyed`.

Where code and comments differ, the code is modelled:

- `crates/aegis-applets/src/sealed.rs:519-522` says an interrupted save recovers the previous
  generation. That holds for one interrupted save; `SealedBlobSafety.TwoInterruptions` says
  exactly when two in a row lose it.
- `crates/aegis-applets/src/sealed.rs:21-23` says a nonce is never reused even after an
  interrupted write. Completed writes never share one; `SealedBlobSafety.GenerationAdvancesIff`
  says exactly when an interrupted save's generation is taken again.
- `crates/aegis-applets/src/sealed.rs:219-220` says the same of one cell, and
  `crates/aegis-core/src/credential_store.rs:137-141` of the credential record.
  `SealedPivStore.CellGenerationAdvancesIff` and `CredentialStore.CounterAdvancesIff` say exactly
  when the number of a lost write is taken again.
- An OpenPGP slot whose attribute is RSA but whose key was never generated makes the whole state
  record unreadable; `OpenPgpState.ReachedStateSurvivesIff` gives the exact condition.
- `unwrap` accepts one and eight key blocks, which `wrap` refuses; `KeyWrap.WrapInvertsUnwrap`
  gives the exact range.
- The largest PIV cell body the code accepts is one octet below the bound it checks first; the
  model uses the effective bound.

## Model

| member | source | states |
|---|---|---|
| Rsa.GarnerCorrect | crates/aegis-applets/src/rsa.rs:376-382 | The Garner step never wraps at 2048 bits, stays below `p*q`, and is congruent to both halves. |
| Rsa.RsaIdentity | crates/aegis-applets/src/rsa.rs:175-236 | `x^(e*d)` is congruent to `x` modulo `n` for every `x`, also one that shares a factor with `n`; Fermat's little theorem is proved, not assumed. |
| Rsa.BlindedCrtIsExponentiation | crates/aegis-applets/src/rsa.rs:326-392 | For every valid key, every `c < n` and every blinding factor coprime to `n`, the blinded CRT computation answers exactly `c^d mod n`. |
| Rsa.PublicUndoesPrivate | crates/aegis-applets/src/rsa.rs:281-304 | The public operation recovers the input of the private one, whatever the blinding. |
| Rsa.PrivateUndoesPublic | crates/aegis-applets/src/rsa.rs:326-392 | The private operation recovers the input of the public one, whatever the blinding. |
| Rsa.OneCorrectionSuffices | crates/aegis-applets/src/rsa.rs:376-378 | A modular subtraction that corrects once is exact on all operands `m1 < p`, `m2 < q` if and only if `q <= p + 1`. |
| Rsa.Shape | crates/aegis-applets/src/rsa.rs:592-596 | Whatever octets are drawn, the candidate is odd and has its two top bits set. |
| Rsa.ShapeKeepsDraw | crates/aegis-applets/src/rsa.rs:592-596 | Between the forced bits the candidate is the draw: nothing else is changed. |
| Rsa.ModulusBits | crates/aegis-applets/src/rsa.rs:188-191 | Two factors with their top two bits set always give a modulus of exactly twice the bits. |
| Rsa.AttemptKeyComplete | crates/aegis-applets/src/rsa.rs:181-233 | Two distinct primes of the right shape make a key if and only if the exponent is coprime to both predecessors; the generator never gives up on them, and the key meets every RSA relation. |
| Rsa.PhiDoesNotWrap | crates/aegis-applets/src/rsa.rs:192-200 | For factors of the right shape the 2048-bit product of their predecessors is the true one, so the exponent is inverted modulo the real phi. |
| Rsa.TrialDivision | crates/aegis-applets/src/rsa.rs:610-620 | Accepts exactly the numbers that no listed small prime divides. |
| Rsa.GeneratePrime | crates/aegis-applets/src/rsa.rs:588-605 | What is returned is one of the draws with its bits forced, passed trial division, and passed all twelve Miller-Rabin rounds with bases in range. |
| Rsa.GenerateKey | crates/aegis-applets/src/rsa.rs:175-236 | The key comes from two distinct screened factors with a 2048-bit modulus, and is valid whenever both factors are prime. |
| Rsa.RandomCoprime | crates/aegis-applets/src/rsa.rs:569-585 | Returns the first of at most 64 draws that lies in `[1, n)` and is coprime to `n`; nothing exactly when none of the 64 is. |
| Rsa.SignBlock | crates/aegis-applets/src/rsa.rs:240-261 | No signature leaves that the public operation does not map back to the encoded block; under a valid key it is the exponentiation, and there is one if and only if one of the 64 draws can blind. |
| MillerRabin.PrimeIsStrongProbable | crates/aegis-applets/src/rsa.rs:637-656 | Every base below a prime passes the round: Fermat plus "the only square roots of one are plus and minus one". |
| MillerRabin.DivisorIsWitness | crates/aegis-applets/src/rsa.rs:637-656 | Every proper divisor of a composite is a base that exposes it. |
| MillerRabin.StrongProbableCharacterisesPrimes | crates/aegis-applets/src/rsa.rs:623-659 | A number from 3 on is prime if and only if every base passes. |
| MillerRabin.Exposes | crates/aegis-applets/src/rsa.rs:637-656 | The squaring loop with its two early exits reports composite exactly when the textbook condition fails. |
| MillerRabin.RandomBase | crates/aegis-applets/src/rsa.rs:662-682 | The base is the first of at most 64 draws, masked to the length of the candidate, that lies in `[2, candidate)`; nothing exactly when none of them does or the candidate is below 4 or too long. |
| MillerRabin.IsProbablePrime | crates/aegis-applets/src/rsa.rs:623-659 | Never answers composite for an odd prime, whatever bases are drawn; an affirmative answer rests on twelve passed rounds, a negative one on an even number or an exposing base. |
| RsaBlob.BlobRoundTrip | crates/aegis-applets/src/rsa.rs:120-169 | A key that fits its fields comes back from its blob if and only if it passes the parser's value checks, and then unchanged. |
| RsaBlob.BlobOffsets | crates/aegis-applets/src/rsa.rs:120-130 | Where each of the eight components stands in the 1156 octets, big endian. |
| RsaBlob.BlobInverse | crates/aegis-applets/src/rsa.rs:133-169 | A blob that parses is the blob of the parsed key. |
| RsaBlob.GeneratedSurvives | crates/aegis-applets/src/rsa.rs:120-236 | Every key the generator can return survives its blob. |
| RsaPadding.UnpaddedIff | crates/aegis-applets/src/rsa.rs:522-549 | Exactly the blocks `00 02 pad 00 message` with at least eight non-zero pad octets are accepted, each with its own message. |
| RsaPadding.CtEq | crates/aegis-applets/src/rsa.rs:552-555 | The borrow trick answers one exactly for equal octets. |
| RsaPadding.UnpadType2 | crates/aegis-applets/src/rsa.rs:522-549 | The branch-free pass over all 256 octets finds what a search for the first zero finds, and refuses a message that does not fit. |
| RsaPadding.DecryptsIffEncrypted | crates/aegis-applets/src/rsa.rs:308-319 | Under a valid 2048-bit key a ciphertext decrypts to a message if and only if it is the public operation on a well-formed block for it. |
| RsaPadding.GeneratedIsFull | crates/aegis-applets/src/rsa.rs:188-191 | Generated keys have a modulus above every encoded block. |
| RsaPadding.Emsa | crates/aegis-applets/src/rsa.rs:502-518 | The 256 octets: `00 01`, 202 octets `FF`, `00`, the SHA-256 prefix of section 9.2 of RFC 8017, the digest. |
| RsaPadding.VerifiesIffSigned | crates/aegis-applets/src/rsa.rs:264-278 | Exactly one signature verifies for a digest: the one the private operation makes. |
| RsaPadding.SignatureBindsDigest | crates/aegis-applets/src/rsa.rs:264-278 | A signature verifies for one digest only. |
| KeyWrap.UnwrapInvertsWrap | crates/aegis-applets/src/ecdh.rs:151-247 | Unwrapping a wrapped key gives the key back, for any block permutation (sections 2.2.1 and 2.2.2 of RFC 3394). |
| KeyWrap.WrapInvertsUnwrap | crates/aegis-applets/src/ecdh.rs:151-247 | Re-wrapping an accepted key gives the same octets exactly for 24 to 64 wrapped octets; outside, `wrap` refuses what `unwrap` accepts. |
| KeyWrap.AcceptedIffWrapped | crates/aegis-applets/src/ecdh.rs:200-247 | In that range the accepted wrapped keys are exactly the image of wrapping. |
| KeyWrap.WrapIsShiftRegister | crates/aegis-applets/src/ecdh.rs:151-192 | Wrapping is the shift-register form of section 2.2.1 of RFC 3394, from eight octets `A6`, over `6n` steps counted from one, octet for octet. |
| KeyWrap.MixIsCounter | crates/aegis-applets/src/ecdh.rs:174-182 | The step counter enters the register as a 64-bit big-endian number. |
| KeyWrap.WrapBlock | crates/aegis-applets/src/ecdh.rs:169-182 | One in-place round step on the register and one block is the specified step. |
| KeyWrap.UnwrapBlock | crates/aegis-applets/src/ecdh.rs:220-233 | One in-place inverse step is the specified inverse step. |
| KeyWrap.WrapPass | crates/aegis-applets/src/ecdh.rs:168-183 | A pass over the block array advances the chain by its length. |
| KeyWrap.UnwrapPass | crates/aegis-applets/src/ecdh.rs:217-234 | A backward pass over the block array undoes a pass of the chain. |
| KeyWrap.Wrap | crates/aegis-applets/src/ecdh.rs:151-192 | The six in-place passes compute the specified wrapping, with its length checks. |
| KeyWrap.Unwrap | crates/aegis-applets/src/ecdh.rs:200-247 | The six backward passes compute the specified unwrapping and its integrity check. |
| Cfb.DecryptInvertsEncrypt | crates/aegis-applets/src/pgp_sym.rs:47-132 | CFB decryption inverts encryption for any block function, any feedback register and any length, short last block included. |
| Cfb.EncryptInvertsDecrypt | crates/aegis-applets/src/pgp_sym.rs:47-132 | CFB encryption inverts decryption likewise. |
| Cfb.DecryptAt | crates/aegis-applets/src/pgp_sym.rs:60-69 | Section 13.9 of RFC 4880, octet by octet: every octet is masked with the encryption of the sixteen cipher octets before its block, zeros for the first block. |
| Cfb.EncryptAt | crates/aegis-applets/src/pgp_sym.rs:120-130 | The sender masks every octet with the encryption of the sixteen octets it sent before its block. |
| Cfb.OpenIffPacket | crates/aegis-applets/src/pgp_sym.rs:71-102 | A plaintext opens with an intact modification code if and only if it is a packet with a repeated prefix, the data and the code over both. |
| Cfb.DecryptIffSent | crates/aegis-applets/src/pgp_sym.rs:47-102 | A ciphertext within the buffer decrypts to intact data if and only if it is the encryption of such a packet. |
| Cfb.DecryptStream | crates/aegis-applets/src/pgp_sym.rs:47-69 | The block loop with its feedback register decrypts the whole stream, or refuses one larger than the buffer. |
| Cfb.DecryptAes | crates/aegis-applets/src/pgp_sym.rs:47-102 | The decryption with quick check and modification code is the specified one, refusals included. |
| Cfb.EncryptAes | crates/aegis-applets/src/pgp_sym.rs:109-132 | The encryption loop is the specified one, refusals included. |
| Bytes.XorIsBitwise | crates/aegis-applets/src/pgp_sym.rs:64-66 | The exclusive or of octets, bit by bit. |
| Decipher.Kdf | crates/aegis-applets/src/ecdh.rs:73-89 | The counter loop yields the first octets of the hash stream of section 7 of RFC 6637, or nothing for a length of zero or above 64. |
| Decipher.KdfIsHashes | crates/aegis-applets/src/ecdh.rs:73-89 | The derived octets are those of at most two hashes over a 32-bit counter from one, the shared secret and the parameters, in that order. |
| Decipher.KekIsHash | crates/aegis-applets/src/ecdh.rs:43-69 | The key encryption key written out octet by octet: curve identifier, algorithm, KDF parameters, anonymous sender, fingerprint; cut to the key length. |
| Decipher.ComputeChecksum | crates/aegis-applets/src/openpgp.rs:279-306 | The checksum loop is the sum of the key octets modulo 65536. |
| Decipher.ChecksumAdds | crates/aegis-applets/src/openpgp.rs:279-306 | The checksum of joined octets is the sum of the checksums modulo 65536, and that of one octet is the octet. |
| Decipher.SessionKeyOfBlock | scripts/openpgp_ecdh_sender.py:140-155 | The block the sender builds, padding included, yields its session key. |
| Decipher.SessionBlockIs | scripts/openpgp_ecdh_sender.py:140-155 | The sender's block octet by octet, with its five octets of padding. |
| Decipher.FromSlotStore | crates/aegis-applets/src/openpgp.rs:213-259 | Imported material reads back unchanged from its slot, and the private key, presence and algorithm survive. |
| Decipher.ParseImportBody | crates/aegis-applets/src/openpgp.rs:1090-1136 | Every importable material is accepted from its body and parsed to itself. |
| Decipher.ImportBodyParse | crates/aegis-applets/src/openpgp.rs:1090-1136 | Every accepted body is the body of the parsed material. |
| Decipher.DecipherEcdh | crates/aegis-applets/src/openpgp.rs:1518-1622 | The handler follows the specified flow: the shared secret when no material is imported, otherwise key derivation, unwrapping, session key and decryption, with every refusal. |
| Decipher.PsoDecipher | crates/aegis-applets/src/openpgp.rs:1463-1504 | Nothing is deciphered unless PW1 was verified for it and the slot holds a key; then the algorithm decides. |
| Decipher.UnsealSent | crates/aegis-applets/src/openpgp.rs:1560-1585 | Unwrapping and decrypting what the sender sealed gives its data, with the status the card gives to its length. |
| Decipher.MessageRoundTrip | crates/aegis-applets/src/openpgp.rs:1518-1585 | End to end over section 8 of RFC 6637: an import with `PUT DATA D2` followed by the message comes out, PW1 being verified, as exactly its data, with the sender's or the card's own fingerprint. |
| Decipher.SentMaterialIsImportable | scripts/openpgp_ecdh_sender.py:140-155 | Every session key the sender can wrap fits the import window of the card. |
| SlotStore.StoreIsAtomic | crates/aegis-core/src/storage.rs:126-151 | For every cell: a completed store becomes the newest record if and only if the newest sequence is below 2^32-1, and then its payload loads; otherwise what loaded before still loads, and the newest record is never overwritten. |
| SlotStore.Slots.Scan | crates/aegis-core/src/storage.rs:79-89 | The slot loop finds the newest readable record. |
| SlotStore.Slots.Load | crates/aegis-core/src/storage.rs:108-120 | Loads the payload of the newest readable record. |
| SlotStore.Slots.Store | crates/aegis-core/src/storage.rs:126-151 | Overwrites the other slot in place with the next sequence; an interrupted store leaves that slot unreadable or untouched. |
| SealedBlob.NonceInjective | crates/aegis-applets/src/sealed.rs:93-99 | Equal nonces come from equal generation, applet and shard. |
| SealedBlob.NonceParts | crates/aegis-applets/src/sealed.rs:93-99 | The nonce is eight octets of generation, two of applet and two of shard, little endian. |
| SealedBlobSafety.FreshGenIs | crates/aegis-applets/src/sealed.rs:564-592 | The next generation is one above every generation in any slot of any shard or the commit cell. |
| SealedBlobSafety.SaveKeepsInv | crates/aegis-applets/src/sealed.rs:622-659 | Every save, however it is interrupted, keeps the invariant that ties shards and commit cell to the last committed blob. |
| SealedBlobSafety.RunKeepsInv | crates/aegis-applets/src/sealed.rs:622-659 | So does every run of saves and power cuts. |
| SealedBlobSafety.LoadIsAnswer | crates/aegis-applets/src/sealed.rs:665-760 | Under the invariant a load answers the committed blob, blank, or an error, as the history alone predicts. |
| SealedBlobSafety.LoadAfterRun | crates/aegis-applets/src/sealed.rs:665-760 | After any run from a blank store a load gives byte for byte the last committed blob, blank if there is none, or an error; never a mix and never an older blob; and exactly when it is an error. |
| SealedBlobSafety.OneInterruptionIsHarmless | crates/aegis-applets/src/sealed.rs:519-522 | One interrupted save after a commit leaves the committed blob loadable. |
| SealedBlobSafety.TwoInterruptions | crates/aegis-applets/src/sealed.rs:630-659 | Two interrupted saves in a row lose the committed blob if and only if the first completed its first shard and the second reached that shard. |
| SealedBlobSafety.GenerationsIncrease | crates/aegis-applets/src/sealed.rs:564-659 | Over any run with power cuts the generations completed into one shard or the commit cell rise strictly. |
| SealedBlobSafety.CompletedNoncesDistinct | crates/aegis-applets/src/sealed.rs:93-99 | No two completed writes of a run, in one cell or in different cells, share a nonce. |
| SealedBlobSafety.GenerationAdvancesIff | crates/aegis-applets/src/sealed.rs:21-23 | The next save takes a later generation if and only if the first store of this one completed; otherwise the same number is used again. |
| SealedBlobStore.BlobStore.ObserveCell | crates/aegis-applets/src/sealed.rs:595-619 | Both slots of a cell raise the generation seen so far; an unopenable slot is an error. |
| SealedBlobStore.BlobStore.FreshGeneration | crates/aegis-applets/src/sealed.rs:564-592 | The loop over shards and commit cell computes the specified generation or fails. |
| SealedBlobStore.BlobStore.Save | crates/aegis-applets/src/sealed.rs:622-659 | The shard loop with the commit last leaves exactly the specified cells at every point of interruption, and reports success only if all of it landed. |
| SealedBlobStore.BlobStore.FindTotal | crates/aegis-applets/src/sealed.rs:708-728 | Finds the committed length for a generation, or nothing, or the first unopenable slot it meets. |
| SealedBlobStore.BlobStore.FindShard | crates/aegis-applets/src/sealed.rs:732-755 | Finds the body of one shard for a generation, or nothing, or the first unopenable slot it meets. |
| SealedBlobStore.BlobStore.Assemble | crates/aegis-applets/src/sealed.rs:703-760 | Concatenates the shards of one generation; the first shard that is missing or unopenable decides between giving up and an error; never past the caller's buffer. |
| SealedBlobStore.BlobStore.Load | crates/aegis-applets/src/sealed.rs:665-700 | Exactly the specified load on every store: the newest committed generation that assembles, or an error for any unopenable slot met on the way. |
| SealedPivStore.DecodeInvertsEncode | crates/aegis-applets/src/sealed.rs:393-446 | The metadata map decodes to what was encoded. |
| SealedPivStore.EncodeInvertsDecode | crates/aegis-applets/src/sealed.rs:393-446 | A body that decodes is the encoding of the decoded map. |
| SealedPivStore.DecodeMap | crates/aegis-applets/src/sealed.rs:393-423 | The cursor loop decodes the map and refuses trailing octets. |
| SealedPivStore.CellStoreIsAtomic | crates/aegis-applets/src/sealed.rs:269-301 | A cell store is all or nothing, raises the generation when it completes, and is refused exactly when it does not fit or is cut. |
| SealedPivStore.CellGenerationAdvancesIff | crates/aegis-applets/src/sealed.rs:219-238 | The next store of a cell takes a later generation if and only if this one was accepted; otherwise the same number again. |
| SealedPivStore.CellGenerationsIncrease | crates/aegis-applets/src/sealed.rs:221-301 | Over any run of stores, erasures and power cuts the completed generations of a cell rise strictly. |
| SealedPivStore.MetaUpdate | crates/aegis-applets/src/sealed.rs:474-517 | An update of one metadata record changes that entry of the map only, or nothing. |
| SealedPivStore.UpdateRefinesMap | crates/aegis-applets/src/sealed.rs:450-517 | The store refines a plain map: an accepted write or erase changes exactly its record, a refused one none, and acceptance is characterised. |
| SealedPivStore.PivRecords.ReadRecord | crates/aegis-applets/src/sealed.rs:450-472 | Reads agree with the map; a value larger than the buffer reads as absent. |
| SealedPivStore.PivRecords.WriteRecord | crates/aegis-applets/src/sealed.rs:474-498 | After a write every record reads as before, except the written one if it was accepted, which is characterised. |
| SealedPivStore.PivRecords.EraseRecord | crates/aegis-applets/src/sealed.rs:500-517 | After an erase every record reads as before, except the erased one if it was accepted, which is characterised. |
| CredentialStore.OpenFailsIff | crates/aegis-core/src/credential_store.rs:145-225 | Opening fails exactly when an unauthenticated or undecodable record is newer than every usable one. |
| CredentialStore.OpenPicksNewest | crates/aegis-core/src/credential_store.rs:145-225 | A successful open takes the usable record with the highest counter, or the empty database on a blank region. |
| Keyed.ReplaceIsUpdate | crates/aegis-core/src/credential_store.rs:309-322 | Replacing the record found under a key changes that key of the map only. |
| Keyed.RemoveIsErase | crates/aegis-core/src/credential_store.rs:343-352 | Removing a record by moving the last one into its place removes that key of the map only. |
| CredentialStore.ApplyIsMapUpdate | crates/aegis-core/src/credential_store.rs:265-358 | Every mutator is exactly one update of the map from identifier to credential, keeps identifiers distinct and the capacity, and leaves the counter alone. |
| CredentialStore.ChangeIsDurable | crates/aegis-core/src/credential_store.rs:265-358 | After a completed change, reopening yields the PIN state the mutator means and, under every identifier, the credential it means. |
| CredentialStore.NextKeepsInv | crates/aegis-core/src/credential_store.rs:228-250 | Every change, flush, power cut or reopen keeps the last completed database recoverable, and a completed flush raises the counter. |
| CredentialStore.ReopenYieldsLast | crates/aegis-core/src/credential_store.rs:145-225 | Reopening yields the database of the last completed flush. |
| CredentialStore.RunRecovers | crates/aegis-core/src/credential_store.rs:145-250 | After any run of changes and power cuts reopening yields the last completed database; completed counters rise strictly and the next one exceeds them all. |
| CredentialStore.RecoversFromBlank | crates/aegis-core/src/credential_store.rs:145-250 | From a blank region, after any run: opening yields the last completed database or the empty one, and the next flush, with or without a reboot, takes a counter above every completed one. |
| CredentialStore.CounterAdvancesIff | crates/aegis-core/src/credential_store.rs:137-141 | After a flush and a reboot the next flush takes a later counter if and only if the first completed; otherwise it counts on from the last completed one. |
| CredentialStore.Sealed.Open | crates/aegis-core/src/credential_store.rs:145-225 | The slot loop selects what the specification selects; a failed open changes nothing. |
| CredentialStore.Sealed.Flush | crates/aegis-core/src/credential_store.rs:228-250 | Counts up, seals and stores the whole database; success exactly if it fits and the store completes. |
| CredentialStore.Sealed.Change | crates/aegis-core/src/credential_store.rs:265-358 | A mutator is refused, changing nothing, only for a new identifier in a full cache or a count for an unknown one; otherwise it applies its change and flushes it. |
| Pin.FirstMatch | crates/aegis-applets/src/pin.rs:272-299 | The split scan returns the first prefix that matches within the bounds, or none does. |
| Pin.ResolveThenChange | crates/aegis-applets/src/pin.rs:228-299 | A split puts both halves inside the length policy and the change that follows always succeeds; no split costs exactly one attempt. |
| Pin.ResolveFindsPin | crates/aegis-applets/src/pin.rs:272-299 | With an injective hash the split is the one after the current PIN, and there is none otherwise. |
| Pin.DecodeInvertsEncode | crates/aegis-applets/src/pin.rs:314-355 | A stored slot is restored exactly. |
| Pin.Clamped | crates/aegis-applets/src/piv.rs:1456-1468 | Clamping lowers the counter to the floor and never raises it, keeping the hash. |
| Pin.PinSlot.Verify | crates/aegis-applets/src/pin.rs:237-249 | A wrong PIN costs one attempt, a right one none; blocked and unset slots change nothing. |
| Pin.PinSlot.Set | crates/aegis-applets/src/pin.rs:206-211 | A PIN within the length policy is installed with all attempts. |
| Pin.PinSlot.Change | crates/aegis-applets/src/pin.rs:228-231 | Verifies, then installs; a wrong current PIN costs one attempt. |
| Pin.PinSlot.ResolveChange | crates/aegis-applets/src/pin.rs:272-299 | The scanning loop resolves the split as specified. |
| PivPins.NextKeepsBudget | crates/aegis-applets/src/piv.rs:544-613 | Whatever the store returns or refuses, a command keeps "spent plus counter" and "spent plus floor" within the maximum, for PIN and PUK. |
| PivPins.RunKeepsBudget | crates/aegis-applets/src/piv.rs:744-817 | So does every run, re-selections included; at most three wrong presentations are compared between two refills. |
| PivPins.SessionBudget | crates/aegis-applets/src/piv.rs:544-817 | From power-up at most three wrong presentations reach a comparison between two authorised refills, for PIN and PUK. |
| PivPins.SpentSlotStaysBlocked | crates/aegis-applets/src/piv.rs:744-817 | Once three wrong presentations were compared since the last refill the slot is blocked, and no run without an authorised refill, re-selections included and whatever the store returns, unblocks it. |
| PivPins.RefillInstalls | crates/aegis-applets/src/piv.rs:770-817 | An authorised CHANGE or RESET RETRY COUNTER installs the hash of the second eight octets with all three attempts, and leaves the other slot's hash and counter alone. |
| PivPins.RefilledPinVerifies | crates/aegis-applets/src/piv.rs:744-817 | Right after it the new value answers `9000`; with an injective hash every other eight octets cost an attempt. |
| PivPins.RightPinAccepted | crates/aegis-applets/src/piv.rs:744-768 | VERIFY with the right value answers `9000`, sets the flag for the PIN, and costs nothing. |
| PivPins.PinFlagIff | crates/aegis-applets/src/piv.rs:744-817 | Exactly when the PIN counts as verified after any command: a right VERIFY or CHANGE; never after a selection, a failed VERIFY or a reset by the PUK. |
| PivPins.EffectiveLen | crates/aegis-applets/src/piv.rs:1433-1439 | The length without trailing `FF` octets. |
| PivPins.MutationsAreSettled | crates/aegis-applets/src/piv.rs:584-613 | A command that changed a slot and was saved leaves slot, record and floor in agreement; a refused save always answers `6A84`. |
| PivPins.HonestAgreement | crates/aegis-applets/src/piv.rs:544-613 | Over an honest store every command keeps applet and records in agreement, and a re-select restores both slots exactly. |
| PivPins.Piv.PersistPin | crates/aegis-applets/src/piv.rs:584-595 | A good save anchors the floor to the counter, a refused one lowers it. |
| PivPins.Piv.FinishMutation | crates/aegis-applets/src/piv.rs:603-613 | Only a changed slot is saved, and a refused save overrides the answer. |
| PivPins.Piv.SelectApplet | crates/aegis-applets/src/piv.rs:544-574 | Reloads both slots clamped to their floors, or fails. |
| PivPins.Piv.VerifyPin | crates/aegis-applets/src/piv.rs:744-768 | The handler is the specified step for VERIFY. |
| PivPins.Piv.ChangeReferenceData | crates/aegis-applets/src/piv.rs:770-796 | The handler is the specified step for CHANGE REFERENCE DATA. |
| PivPins.Piv.ResetRetryCounter | crates/aegis-applets/src/piv.rs:798-817 | The handler is the specified step for RESET RETRY COUNTER, whose effect `PivPins.RefillInstalls` states by octets. |
| PgpPins.NextKeepsBudget | crates/aegis-applets/src/openpgp.rs:400-447 | Whatever the store returns or refuses, a command keeps both budgets, for PW1 and PW3. |
| PgpPins.SessionBudget | crates/aegis-applets/src/openpgp.rs:645-686 | From power-up at most three wrong presentations reach a comparison between two authorised refills, for PW1 and PW3. |
| PgpPins.ChangePw1Effect | crates/aegis-applets/src/openpgp.rs:1680-1689 | A change with a wrong body costs exactly one attempt, a right one refills. |
| PgpPins.RefillInstalls | crates/aegis-applets/src/openpgp.rs:1645-1728 | An authorised change or reset installs the hash of the new value with all three attempts and leaves the other password alone. |
| PgpPins.NewValueIs | crates/aegis-applets/src/openpgp.rs:1645-1728 | With an injective hash the new value is the part of the body after the current PW1, the second eight octets for PW3, the whole body of a reset. |
| PgpPins.RefilledPwVerifies | crates/aegis-applets/src/openpgp.rs:645-686 | Right after it the new value answers `9000`; with an injective hash every other value costs an attempt. |
| PgpPins.FlagsNeedRightPw | crates/aegis-applets/src/openpgp.rs:645-686 | Each of the three session flags comes on exactly by the right password presented for it, and a selection clears all three. |
| PgpPins.FallbackIsDefault | crates/aegis-applets/src/openpgp.rs:400-415 | A state that does not read falls back to the two default passwords, never with more attempts than the session floor. |
| PgpPins.SavesAreSettled | crates/aegis-applets/src/openpgp.rs:426-447 | After an accepted save a re-select restores both slots exactly; a refused save always answers `6A84`; nothing else touches slots or floors. |
| PgpPins.OpenPgp.PersistState | crates/aegis-applets/src/openpgp.rs:426-440 | One save anchors both floors, or lowers both. |
| PgpPins.OpenPgp.FinishChange | crates/aegis-applets/src/openpgp.rs:1694-1702 | Persists and answers the result, or `6A84`. |
| PgpPins.OpenPgp.SelectApplet | crates/aegis-applets/src/openpgp.rs:400-415 | Reloads both slots clamped to their floors, or falls back to the default passwords under the same floors. |
| PgpPins.OpenPgp.VerifyPw | crates/aegis-applets/src/openpgp.rs:645-686 | The handler is the specified step for VERIFY. |
| PgpPins.OpenPgp.VerifyChange | crates/aegis-applets/src/openpgp.rs:1645-1689 | The handler is the specified step for CHANGE REFERENCE DATA. |
| PgpPins.OpenPgp.ResetRetryCounter | crates/aegis-applets/src/openpgp.rs:1704-1728 | The handler is the specified step for RESET RETRY COUNTER. |
| OathState.CredentialRoundTrip | crates/aegis-applets/src/oath.rs:249-261 | One encoded credential decodes to itself. |
| OathState.CredentialOffsets | crates/aegis-applets/src/oath.rs:249-261 | Where each field of a credential stands in its 142 octets. |
| OathState.HeaderOffsets | crates/aegis-applets/src/oath.rs:237-248 | Where each field of the header stands in its 77 octets. |
| OathState.StateRoundTrip | crates/aegis-applets/src/oath.rs:237-386 | Every state of up to sixteen credentials is restored exactly and fits the state buffer. |
| OathState.SaveState | crates/aegis-applets/src/oath.rs:237-263 | The serialising loop writes exactly the specified record within the buffer. |
| OathState.DecodeState | crates/aegis-applets/src/oath.rs:280-386 | The decoding loop accepts and refuses exactly as specified. |
| Oath.NextKeeps | crates/aegis-applets/src/oath.rs:713-751 | Every command, whatever the store does, keeps: distinct serials and names, counters above every released one in RAM and on flash, and an armed request on its own live credential. |
| Oath.PutIsUpdate | crates/aegis-applets/src/oath.rs:402-439 | PUT sets exactly one name and disarms the pending touch; it answers `9000` if and only if it was taken and saved, and then flash holds the new state. |
| Oath.DeleteIsErase | crates/aegis-applets/src/oath.rs:441-461 | DELETE removes exactly one name and disarms the pending touch, with the same exactness. |
| Oath.CalculatedAdvancesOne | crates/aegis-applets/src/oath.rs:556-576 | A computation advances the counter of that HOTP credential and changes no other credential. |
| Oath.CountersRiseUntilWrap | crates/aegis-applets/src/oath.rs:556-576 | Over every run with re-selections, power cycles and failed saves that left the old or the new state, the codes released for one stored credential use strictly rising moving factors (section 5 of RFC 4226); a counter recurs only 2^32 counts later. |
| Oath.ArmedRequestIsLive | crates/aegis-applets/src/oath.rs:142-151 | In every reachable state an armed touch points at a live touch credential, unchanged since the CALCULATE that armed it, with that command's challenge. |
| Oath.ConfirmAnswersRequest | crates/aegis-applets/src/oath.rs:732-746 | In every reachable state with an armed touch the applet is open and the bounds check does not fire: a confirmed touch answers for the credential and challenge that asked, or says why the primitive or the save failed. |
| Oath.TouchCodesNeedConfirm | crates/aegis-applets/src/oath.rs:483-554 | No command but a confirmed touch releases a code of a touch credential. |
| Oath.SavedStateDecodes | crates/aegis-applets/src/oath.rs:193-210 | Every state a run saves fits the buffer and decodes to itself, so a readable store never closes the applet. |
| Oath.AllCodes | crates/aegis-applets/src/oath.rs:510-554 | CALCULATE ALL releases neither HOTP codes nor codes of touch credentials, and what it lists fits the output buffer. |
| Oath.FlagNeedsProof | crates/aegis-applets/src/oath.rs:578-652 | The authenticated flag comes on only through a selection without a key, a right proof over the current challenge, or, while no key is set, a new key that proves itself. |
| OathCodes.CalculatedReply | crates/aegis-applets/src/oath.rs:826-858 | A computation answers with the digits and the whole MAC of the counter or challenge, or with its dynamic truncation as in section 5.3 of RFC 4226; said without the functions that compute it. |
| OathCodes.EveryReleaseIsCode | crates/aegis-applets/src/oath.rs:483-576 | Every code any command releases from any reachable state is such a code of a stored credential over its counter or the challenge the host gave. |
| OathCodes.FullCodesDiffer | crates/aegis-applets/src/oath.rs:556-576 | Over every run from power-up, with a MAC injective in its message: two whole HOTP codes released for one stored credential differ, unless the counter wrapped between. |
| OathCodes.RunGenuine | crates/aegis-applets/src/oath.rs:402-576 | Over every run each released HOTP code is the code of the key its credential was stored with, at its own counter. |
| OathCodes.TouchPropertyAsks | crates/aegis-applets/src/oath.rs:483-508 | CALCULATE asks for a touch exactly for the property values 2 and 3, and keeps the challenge right aligned in eight octets. |
| OathCodes.CodesNeedAccess | crates/aegis-applets/src/oath.rs:388-394 | Without a confirmed touch codes go out only from an open applet whose key is absent or proved. |
| OathCodes.HostCanAuthenticate | crates/aegis-applets/src/oath.rs:578-652 | A host that installs a key can, after a new selection, prove it over the derived challenge and is proved the key in return. |
| OathCodes.SelectionStartsOver | crates/aegis-applets/src/oath.rs:672-711 | A selection drops the armed touch and an earlier proof, is closed if and only if the store does not read, and holds what flash holds. |
| OathCodes.ResetErases | crates/aegis-applets/src/oath.rs:654-670 | An accepted RESET, in whatever state, leaves no credential and no key, now and after a later selection. |
| OathCodes.ClosedLeavesStoreAlone | crates/aegis-applets/src/oath.rs:193-235 | Over every run after a failed read: until a selection reads the store, the power drops or a RESET is asked for, nothing is written and no code or proof goes out. |
| Oath.Oath.LoadState | crates/aegis-applets/src/oath.rs:193-230 | Loads once; an unreadable store closes the applet on an empty state, a blank one opens it. |
| Oath.Oath.PutCredential | crates/aegis-applets/src/oath.rs:402-439 | Drops the armed request first, replaces by name or appends within capacity, and saves. |
| Oath.Oath.DeleteCredential | crates/aegis-applets/src/oath.rs:441-461 | Drops the armed request first, swap-removes by name, and saves. |
| Oath.Oath.CalculateOne | crates/aegis-applets/src/oath.rs:483-508 | A touch credential arms a request with the padded challenge; any other is computed at once. |
| Oath.Oath.CalculateIndex | crates/aegis-applets/src/oath.rs:556-576 | An HOTP counter advances and is saved before the code is released; what the code is, `OathCodes.CalculatedReply` states by octets. |
| Oath.Oath.CalculateEvery | crates/aegis-applets/src/oath.rs:510-554 | The loop collects exactly the specified codes, gives up at the first field that does not fit or code that cannot be computed, and changes nothing. |
| Oath.Oath.SetAccess | crates/aegis-applets/src/oath.rs:578-620 | Checks the proof and installs key, algorithm and next challenge, or clears the key; a key too long for the field leaves none in RAM. |
| Oath.Oath.ValidateHost | crates/aegis-applets/src/oath.rs:622-652 | Checks the host's proof over the current challenge, moves the challenge on, saves, and proves the key in return. |
| Oath.Oath.ResetApplet | crates/aegis-applets/src/oath.rs:654-670 | The erase is persisted before RAM is emptied; a refused one leaves RAM as it was. |
| Oath.Oath.SelectApplet | crates/aegis-applets/src/oath.rs:672-702 | Reloads, and drops authentication and the armed request. |
| Oath.Oath.ConfirmPresence | crates/aegis-applets/src/oath.rs:732-746 | Consumes the armed request and computes its code. |
| Oath.Oath.DenyPresence | crates/aegis-applets/src/oath.rs:748-751 | Drops the armed request. |
| Oath.Oath.ProcessCommand | crates/aegis-applets/src/oath.rs:713-730 | A closed applet refuses everything but RESET; otherwise the command is the specified step. |
| OathSealed.SaveDecidesFlash | crates/aegis-applets/src/oath.rs:237-263 | Whether a command hands a state to the store does not depend on the outcome; a refused one leaves flash as it was, and a command that hands over nothing leaves flash alone. |
| OathSealed.SealedRunIsFaithful | crates/aegis-applets/src/sealed.rs:792-838 | After every run with power cuts and errors inside any slot write of the two shards and the commit cell, or right after the commit record, a load fails or decodes to exactly the state the applet's machine says flash holds. |
| OathSealed.SealedCountersRise | crates/aegis-applets/src/oath.rs:556-576 | Over such a run the moving factors released for one stored credential rise strictly until the 32-bit wrap, and at every point what a load decodes to is what the applet's machine reads. |
| OpenPgpState.KeyRoundTrip | crates/aegis-applets/src/openpgp.rs:550-604 | A stored key slot decodes to its meaningful octets in a zeroed slot if it is acceptable at its index, and is refused otherwise. |
| OpenPgpState.DecodeKeyIff | crates/aegis-applets/src/openpgp.rs:565-604 | Exactly which stored key octets decode, by algorithm, length and slot. |
| OpenPgpState.DecodeOfEncode | crates/aegis-applets/src/openpgp.rs:449-643 | What decoding an encoded state gives, for every state: the state with clamped counters and trimmed slots, or a refusal. |
| OpenPgpState.RoundTripIff | crates/aegis-applets/src/openpgp.rs:449-643 | A state survives its record if and only if every slot is acceptable and clean and no floor is below its counter; the record fits the buffer. |
| OpenPgpState.GeneratedHeld | crates/aegis-applets/src/openpgp.rs:1169-1247 | What GENERATE leaves in a slot, a scalar or an RSA blob, survives its record. |
| OpenPgpState.ImportHeld | crates/aegis-applets/src/openpgp.rs:1090-1136 | So does material imported into the decryption slot. |
| OpenPgpState.KeyRunHeld | crates/aegis-applets/src/openpgp.rs:1144-1247 | Over every run of attribute changes, generations, imports, saves by other commands, selections and power cycles each slot survives its record or is an RSA attribute without a key. |
| OpenPgpState.ReachedStateSurvivesIff | crates/aegis-applets/src/openpgp.rs:583-588 | After any run a state survives its record if and only if no slot has an RSA attribute without a key; otherwise the record is refused as a whole. |
| OpenPgpState.RsaAttributeAloneIsLost | crates/aegis-applets/src/openpgp.rs:1144-1167 | The failing family: an accepted RSA attribute saved before GENERATE makes every record with it unreadable. |
| OpenPgpState.RsaAttributeErasesKeys | crates/aegis-applets/src/openpgp.rs:400-415 | What that costs from any state: the attribute saved, a power cycle and a selection leave every slot erased and the record overwritten with them. |
| OpenPgpState.GeneratedKeyReturns | crates/aegis-applets/src/openpgp.rs:1169-1247 | After any run, a key that GENERATE makes and saves is exactly what a power cycle and a selection bring back, with the other slots as they were, if and only if none of those has an RSA attribute without a key; otherwise every slot comes back erased. |
| OpenPgpState.SaveState | crates/aegis-applets/src/openpgp.rs:449-477 | The serialising loops write exactly the specified record within the buffer. |
| OpenPgpState.DecodeKeySlots | crates/aegis-applets/src/openpgp.rs:543-604 | The key loop accepts and refuses exactly as specified. |
| Ccid.ResponseRoundTrip | crates/aegis-applets/src/ccid.rs:447-488 | The host reads back from an encoded response its type, `bSeq`, status, error and payload. |
| Ccid.RequestOctets | crates/aegis-applets/src/ccid.rs:120-138 | A header parses if and only if the length field counts the rest, and where its fields lie. |
| Ccid.ResponseOctets | crates/aegis-applets/src/ccid.rs:447-488 | Where the fields of a response lie; its length field counts the payload. |
| Ccid.ScanIff | crates/aegis-applets/src/ccid.rs:540-561 | By the octets alone: when the scan asks for more, reports an oversized frame, or gives a whole one, and how long that is. |
| Ccid.IsFrameIff | crates/aegis-applets/src/ccid.rs:120-138 | A frame of the buffer is exactly what the header parser accepts within the capacity. |
| Ccid.StreamOfFrames | crates/aegis-applets/src/ccid.rs:499-573 | The host's frames back to back, with any unfinished part behind them, come out as exactly those frames. |
| Ccid.NextFrameStable | crates/aegis-applets/src/ccid.rs:540-561 | Octets that arrive later change neither a whole frame nor an oversized one. |
| Ccid.FramesOfConcat | crates/aegis-applets/src/ccid.rs:499-573 | Frames taken off the head one by one, and what is left, are the frames of the unsplit stream. |
| Ccid.Assembler.Feed | crates/aegis-applets/src/ccid.rs:527-534 | A packet is appended in place, or refused whole when it does not fit. |
| Ccid.Assembler.Pending | crates/aegis-applets/src/ccid.rs:540-561 | Finds the frame at the head, asks for more, or reports an oversized length. |
| Ccid.Assembler.Consume | crates/aegis-applets/src/ccid.rs:564-573 | Drops the head and moves the rest to the front of the buffer in place. |
| Card.ServeFrame | crates/aegis-applets/src/card.rs:78-105 | Serving one more frame extends the answers by that frame's, when none is held. |
| Card.ServeDecision | crates/aegis-applets/src/card.rs:111-126 | Resolving the held frame adds its answer and nothing else. |
| Card.PowerFrames | crates/aegis-applets/src/card.rs:158-244 | By octets: only `62` and `63` change the power, and they and `72` reset the router. |
| Card.BlockFrames | crates/aegis-applets/src/card.rs:196-244 | By octets: a block `6F` reaches the router exactly if the card is powered, and its answer carries the router's octets under the block's own `bSeq`. |
| Card.OtherFrames | crates/aegis-applets/src/card.rs:158-244 | By octets: the answer to every other kind of frame, malformed ones included. |
| Card.ServePower | crates/aegis-applets/src/card.rs:158-195 | Over every sequence of frames the card is powered exactly by the last power frame. |
| Card.NextKeeps | crates/aegis-applets/src/card.rs:68-134 | Every packet, poll, resolution or reset keeps the card where its frames, served one after the other, take it. |
| Card.CardServesStream | crates/aegis-applets/src/card.rs:68-126 | For every run with large enough output buffers: the frames handled and still buffered are those of the unsplit stream; each but a held last one is answered once, in order, with its own `bSeq`; later frames wait. |
| Card.SplittingLeavesNoTrace | crates/aegis-applets/src/ccid.rs:499-573 | Two runs that took in the same octets and decisions, however split and polled, end with the same answers and the same state. |
| Card.Device.FeedPacket | crates/aegis-applets/src/card.rs:68-70 | The specified step for a packet. |
| Card.Device.PollFrame | crates/aegis-applets/src/card.rs:78-105 | Nothing while a frame is held; otherwise the next whole frame is handled and consumed, even if its answer does not fit. |
| Card.Device.CompletePresence | crates/aegis-applets/src/card.rs:111-126 | Resolves the held frame once, under its own `bSeq`. |
| Card.Device.ResetCard | crates/aegis-applets/src/card.rs:129-134 | Drops buffer, selection, power and the held frame. |
| Chaining.ChainDeliversAll | crates/aegis-applets/src/apdu.rs:352-386 | However the host sizes its requests, the first piece of an answer and enough further ones, joined, are exactly the answer; it is whole at once if and only if it fits the expected length. |
| Chaining.Deliver | crates/aegis-applets/src/apdu.rs:369-386 | A piece is the next part of the answer, within the limit, never empty while something is left, and its status says whether and how much is left. |
| Chaining.Chainer.Start | crates/aegis-applets/src/apdu.rs:352-359 | A new answer replaces the old one, or is refused when it does not fit the buffer. |
| Chaining.Chainer.Resume | crates/aegis-applets/src/apdu.rs:362-367 | GET RESPONSE hands out the next piece, or is refused when nothing is pending. |
| PivSign.FirstPrefix | crates/aegis-applets/src/router.rs:131-133 | The first registered identifier that starts the requested name, or none does. |
| PivSign.FlagNeedsRightPin | crates/aegis-applets/src/piv.rs:744-817 | Only the right PIN turns the verified flag on. |
| PivSign.KeysNeedManagement | crates/aegis-applets/src/piv.rs:819-878 | Stored keys change only by GENERATE with the management key proved, in that slot only. |
| PivSign.SelectionDropsAll | crates/aegis-applets/src/piv.rs:1184-1194 | A selection, failed or not, starts without PIN, management key, pending request and cached touch, and touches no key. |
| PivSign.CompleteKeeps | crates/aegis-applets/src/piv.rs:1106-1182 | Completing a justified signature spends the PIN check of a PIN-always key and keeps every promise of the log. |
| PivSign.RoutedKeeps | crates/aegis-applets/src/router.rs:111-164 | A command taken while nothing is held leaves PIV with no pending signature, or holds exactly the request that asked for presence. |
| PivSign.FinishedKeeps | crates/aegis-applets/src/piv.rs:1220-1254 | Resolving a held command signs only what was asked for. |
| PivSign.EverySignatureIsJustified | crates/aegis-applets/src/piv.rs:1001-1194 | Over every run of the card, every signature follows its own request for exactly that slot, with the digest right aligned in the width of the algorithm; a presence was confirmed for it exactly when the key always wants one, or caches touches and the last touch key to sign in this selection did not leave one cached; and an unspent PIN check in this selection pays for every key that wants one. |
| PivSign.SignedNumberIsRequested | crates/aegis-applets/src/piv.rs:1036-1104 | Over every run of the card, what is signed has the width of the algorithm and is, as a number, the digest of the request just before, under the key of the requested slot. |
| PivSign.PinCheckBetween | crates/aegis-applets/src/piv.rs:744-796 | Over every run of the card, between two signatures by PIN-always keys the right PIN was given, in the selection of the second. |
| PivSign.ConfirmedPresenceSigns | crates/aegis-applets/src/piv.rs:1220-1249 | In every reachable state a held PIV frame has its request pending, and a confirmed presence signs exactly that request once store and primitive play along. |
| PivSign.HoldingFramesMatters | crates/aegis-applets/src/card.rs:83-85 | Without held frames the applet would let one PIN check pay for two PIN-always signatures. |
| PivSign.Signer.SignCommand | crates/aegis-applets/src/piv.rs:1001-1104 | The handler is the specified step: policies, padding, and a pending request or a signature. |
| PivSign.Signer.Complete | crates/aegis-applets/src/piv.rs:1106-1182 | The completion checks, signs, and applies the PIN-always and touch-cache transitions. |
| PivSign.Signer.ConfirmPresence | crates/aegis-applets/src/piv.rs:1220-1249 | Consumes the pending request, reads the record again and completes. |
| PivSign.Signer.SelectApplet | crates/aegis-applets/src/piv.rs:1184-1194 | A selection drops PIN, management, pending and cached state before loading. |
| PivSign.Signer.ProcessCommand | crates/aegis-applets/src/piv.rs:1206-1218 | The dispatch is the specified step. |
| PivSign.Routing.RouteCommand | crates/aegis-applets/src/router.rs:111-164 | Selection by prefix, response chaining and forwarding to at most one applet are the specified step. |
| PivSign.Routing.FinishPresence | crates/aegis-applets/src/router.rs:167-182 | Presence goes to the selected applet only, whose answer goes out whole. |
| PivSign.WireEnds | crates/aegis-applets/src/apdu.rs:284-298 | An answer on the wire is its data, then the status word, high octet first. |
| PivSign.Routing.ResetSelection | crates/aegis-applets/src/router.rs:185-188 | Drops the selection and the pending answer and touches no applet. |

## Left out

- Rsa.GarnerCorrect: the modular subtraction is the true residue of `m1 - m2`; the big-integer library's own routine is not part of this model, and `Rsa.OneCorrectionSuffices` says when a single correction would compute that residue.
- MillerRabin.IsProbablePrime: the error probability for composites is not stated; only that every base passes for primes and that every composite has an exposing base.
- SealedBlobSafety.LoadAfterRun: runs stop before a 32-bit slot sequence or a 64-bit generation wraps; the same holds for every other result about cells, shards and the credential store.
- CredentialStore.CounterAdvancesIff: the 64-bit counter is not about to wrap.
- OathSealed.SealedRunIsFaithful: stated for runs in which no slot sequence or generation is about to wrap, like every result about shards.
- PivPins.Piv.SelectApplet: the writes that provision a blank store are left out, since what the reads return is arbitrary anyway; management-key decoding is a parameter.
- PivSign.Routing.RouteCommand: parsing a command APDU and what the other applets answer are uninterpreted, since no PIV result depends on them.
- PivSign.EverySignatureIsJustified: key records are structured values that read back as written or not at all; their octet layout is left out, and the signing primitive is uninterpreted.
- OpenPgpState.RoundTripIff: version 3 records only; the older layouts have no encoder in the source.
- Card.CardServesStream: the router's answers carry data and status as one string; a too small output buffer is modelled, and excluded by hypothesis in this result only.
- AES, SHA, HMAC, GCM, Ed25519, X25519, P-256 and P-384 internals: uninterpreted functions with the laws a result needs.
- Timing of comparators and loops: only their results are modelled.
- CBOR encoding of credentials, slot headers and checksums on flash: a record either reads back as written or does not read.
- Command APDU and TLV parsing, GET DATA templates, fingerprints, default PIV containers, management-key authentication: formatting, or easy members next to the results here.
- DigestInfo validation of host-encoded RSA blocks, and OpenPGP signing and internal authentication: straight-line checks around the primitives proved here.
- What RSA and X25519 decryption slots answer: a parameter of `Decipher.PsoDecipher`.
- FIDO assertions, boot, lifecycle, USB drivers and host scripts, apart from the sender side of an encrypted message.
