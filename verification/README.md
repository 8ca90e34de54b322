# go-certa: a verified model

go-certa is a certificate authority. This project models the parts of it where a mistake is easy and costly, and proves
what they promise: the certificate store in its two forms, certificate revocation lists, the OCSP answer, serial
reservation, the ACME order state machine, the audit hash chain, the hand-written codecs, the signing worker pool, and
the checks before issuance. `dafny verify dfyconfig.toml` checks everything.

## How the model is laid out

| files | component |
|---|---|
| `StoreSpec`, `StoreHistory`, `MemoryStorage`, `SqliteSpec`, `SqliteStorage` | the store: its meaning, its answers in terms of earlier calls, the two implementations, and the refinement between them |
| `Serials`, `Reserver`, `SqliteReserver` | serial numbers as text, random serials and their reservation, also when SQLite's two statements interleave |
| `Crl`, `Ocsp` | revocation lists and status answers over one store |
| `AcmeSpec`, `AcmeServer`, `Acme`, `AcmeExample` | ACME: what each locked section does, the handlers, all their interleavings, and one run in full |
| `Nonces`, `Jwk` | anti-replay nonces; JSON web keys, thumbprints and ES256 signatures |
| `Audit` | the audit hash chain |
| `CtLog` | signed certificate timestamps, the SCT list and the pre-certificate transformation |
| `Base64`, `OcspRequest`, `MtlsExample`, `BigEndian`, `Text` | base64 in four forms, the OCSP GET decoder chain, the hand-written encoder, numbers as octets, strings |
| `Policy`, `Issuance` | key and name policy, profiles, lint, and the two signing paths |
| `SignerPool` | the bounded queue and its workers |

Objects that the program updates in place are classes, and each method is proved equal to a function of the old state;
the theorems are about those functions. Code that runs concurrently is a state machine whose steps are the sections
that the program runs under one lock, so a theorem over runs covers every interleaving.

Random values, clock readings, parsed certificate requests and signatures are arguments. SHA-256 is a function
argument: where the program relies on collision resistance, the theorems conclude "or here is a collision" instead of
assuming there is none. IDs drawn at random are assumed not to repeat, and the clock not to run backwards; both are
written as guards or preconditions where they are used.

## Where the code and its documentation part

The model follows the code.

- `docs/observability_and_audit.md` asks for protection from undetected truncation. Every prefix of a verifying chain
  verifies (`Audit.PrefixVerifies`); only the head hash tells a shortened chain from the whole one
  (`Audit.HeadDeterminesChain`).
- The audit text joins its fields and its metadata without escaping. `Audit.FieldsDeterminedIff` and
  `Audit.MetadataDeterminedIff` give the exact conditions under which the text determines the fields and the metadata:
  no bar in the fields, and no metadata or one pair without '='. Two pairs always share their text with another map,
  however plain they are. `Audit.RecordDeterminedIff` and `Audit.ChainDeterminedIff` say the same of records and chains.
- `docs/acme_server.md` draws finalization from `ready` only, through `processing`. The code tests the authorizations and
  not the status, knows no `processing`, and finalizes a valid order again (`Acme.FinalizesUnlessPending`;
  `AcmeExample.SecondFinalize` is a run that does).
- A challenge becomes valid on any POST to it (`Acme.PostValidates`); no request to the domain is made.
- The CRL service writes its cache under a lock of its own, so two overlapping `Regenerate` calls can leave the older
  CRL in the cache (`Crl.CacheCanRegress`; exactly when, `Crl.CanGoBackIff`; never without overlap,
  `Crl.CacheMonotone`). One revoked serial that is not hexadecimal stops all further CRLs
  (`Crl.UnparsableSerialReachable`, `Crl.UnparsableSerialBlocksForever`).
- OCSP and the CRL part on a certificate saved with its flag set and on one revoked under a serial with a leading zero;
  `Ocsp.ViewsAgreeIff` says exactly when they agree.
- `docs/delegated_ocsp_and_caching.md` describes GET requests of `/ocsp/` followed by the request. The handler trims a
  second slash, so a request whose literal text begins with one is lost (`OcspRequest.GetUnderOcspIff`). The server
  routes only `/ocsp` itself, so there a GET arrives by its query (`OcspRequest.GetByQuery`).
- `docs/storage_and_serials.md` has the loser of a reservation race retry after `ErrAlreadyExists`. In SQLite the count
  and the insert are two statements, and the loser of a race between them fails with a raw database error
  (`SqliteReserver.SplitIsAtomicIff`, `SqliteReserver.LoserFails`).
- `NormalizeSerial` is documented as a normalization but strips only one prefix of each spelling, so applying it twice
  can differ from applying it once; `Serials.NormalizeIdempotentIff` says exactly when.
- The two stores differ on one input: a record without its DER or PEM bytes, which only SQLite refuses
  (`SqliteSpec.SaveAgreesIff`, over whole runs `SqliteSpec.RunsAgreeIff`).

## Model

| member | source | states |
|---|---|---|
| MemoryStore.MemoryStorage.SaveCertificate | pkg/storage/memory.go:31-61 | the new store is the specified one for the record's value, and the record filed shares no memory with the caller's |
| MemoryStore.MemoryStorage.GetCertificate | pkg/storage/memory.go:64-83 | the specified answer, in a copy that shares no memory with the store |
| MemoryStore.MemoryStorage.RevokeCertificate | pkg/storage/memory.go:86-123 | the flag of the stored record and the revocation record change together, all else stays; the first failing check decides the error |
| MemoryStore.MemoryStorage.GetRevocation | pkg/storage/memory.go:126-145 | the recorded revocation, or why there is none |
| MemoryStore.MemoryStorage.ListRevoked | pkg/storage/memory.go:148-169 | every recorded revocation once, strictly ordered by time and then serial |
| MemoryStore.MemoryStorage.ReserveSerial | pkg/storage/memory.go:172-198 | reserves exactly the serials that neither table holds |
| MemoryStore.CertificateRecord.Clone | pkg/storage/memory.go:201-216 | same value under the normalized serial, fresh byte arrays, nil stays nil |
| MemoryStore.SortedListing | pkg/storage/memory.go:160-166 | sorting records of distinct serials gives a strictly ordered listing of the same records |
| SqliteStore.SQLiteStorage.SaveCertificate | pkg/storage/sqlite.go:72-114 | one transaction: the row and its serial, or no change and the error |
| SqliteStore.SQLiteStorage.GetCertificate | pkg/storage/sqlite.go:117-146 | the record of the row with that key |
| SqliteStore.SQLiteStorage.RevokeCertificate | pkg/storage/sqlite.go:149-195 | the flag and the revocation row change together; a duplicate row rolls the flag back |
| SqliteStore.SQLiteStorage.GetRevocation | pkg/storage/sqlite.go:198-223 | the revocation row with that key |
| SqliteStore.SQLiteStorage.ListRevoked | pkg/storage/sqlite.go:226-249 | one record a row, in the order of the query |
| SqliteStore.SQLiteStorage.ReserveSerial | pkg/storage/sqlite.go:252-269 | undisturbed between its two statements, inserts exactly the serials the table does not hold |
| SqliteSpec.RunsAgreeIff | pkg/storage/storage.go:24-44 | for every sequence of operations from empty stores, all pairs of answers agree (same values, same error class, same listing up to ties in time) exactly when each save has its DER and PEM bytes or is refused before they matter; and then the stores hold the same records after every operation |
| SqliteSpec.StepAgreesIff | pkg/storage/sqlite.go:72-269 | one operation on equal contents: the answers agree exactly under that condition, and then the contents stay equal |
| SqliteSpec.StepRefines | pkg/storage/sqlite.go:72-269 | from any tables that satisfy the store invariant, whatever SQLite does is what the in-memory store does, although the two test different tables |
| SqliteSpec.SaveAgreesIff | pkg/storage/sqlite.go:95-102 | the two saves answer alike exactly when the DER and PEM bytes are present or the call fails before the insert |
| StoreSpec.StepKeepsInv | pkg/storage/memory.go:31-198 | every operation keeps: certificates have reserved serials, a revocation record has a flagged certificate; and records only grow |
| StoreSpec.RunExtends | pkg/storage/memory.go:31-198 | between any two points of any run nothing recorded is lost or changed but a flag that turns on |
| StoreSpec.OrderedUnique | pkg/storage/memory.go:160-166 | a strictly ordered listing is determined by its elements |
| StoreSpec.ListingUnique | pkg/storage/memory.go:148-169 | two listings of the same store are equal, whatever order the map was walked in |
| StoreSpec.ListingEntries | pkg/storage/memory.go:148-169 | a listing names each revoked serial exactly once |
| StoreHistory.SaveAnswers | pkg/storage/memory.go:31-61 | over every run from an empty store a save succeeds exactly when none under the same normal form did before |
| StoreHistory.GetAnswers | pkg/storage/memory.go:64-83 | a certificate is found exactly when it was saved, as it was saved, flagged exactly when it was saved so or revoked since |
| StoreHistory.RevokeAnswers | pkg/storage/memory.go:86-123 | a revocation succeeds exactly once for each saved certificate not saved as revoked, and which error otherwise |
| StoreHistory.LookupAnswers | pkg/storage/memory.go:126-145 | a revocation is looked up with the reason it was made with, and its time or the clock's |
| StoreHistory.ListingAnswers | pkg/storage/memory.go:148-169 | the listing holds exactly the revocations made, each as made, earliest first and then by serial |
| StoreHistory.ReserveAnswers | pkg/storage/memory.go:172-198 | a serial is reserved exactly when it was neither saved nor reserved before |
| StoreHistory.SpellingsShareRecord | pkg/storage/storage.go:46-51 | a record saved under one spelling of a serial is a duplicate, found, revoked and looked up under any other, with its full value |
| StoreHistory.SpellingsShareRow | pkg/storage/sqlite.go:72-223 | the same for SQLite |
| Text.LessMeans | pkg/storage/memory.go:161-165 | the order of serials: at the first difference the smaller character, a proper prefix first |
| Serials.NormalizeFixesFormatted | pkg/ca/serial.go:61-66 | normalization is the identity on every formatted serial |
| Serials.SpellingIsNormalized | pkg/storage/storage.go:46-51 | every spelling of a number (white space around, "0x" or "0X" or neither, digits in either case) has the one normal form that FormatSerial writes |
| Serials.NormalFormIsLower | pkg/storage/storage.go:50-50 | no normal form holds a capital letter |
| Serials.NotationIsBigEndian | pkg/ca/serial.go:61-66 | the text of 16n+d is the text of n and then that of d |
| Serials.ParseInvertsFormat | pkg/ca/serial.go:69-82 | parsing a formatted number returns it when it is positive, and NotPositive otherwise |
| Serials.SetStringInvertsText | pkg/ca/serial.go:76-80 | reading hexadecimal text back gives the integer, for every integer |
| Serials.Text16Injective | pkg/ca/serial.go:61-66 | distinct numbers have distinct texts |
| Serials.NormalizeIdempotentIff | pkg/storage/storage.go:46-51 | normalizing twice equals normalizing once exactly when the normal form begins with neither "0x" nor white space |
| Serials.NormalizeNotIdempotent | pkg/storage/storage.go:46-51 | the input "0x0x1" on which it is not |
| Reserver.GenerateSerialWithBits | pkg/ca/serial.go:43-58 | the first positive draw, an entropy failure when there is none, and an error exactly outside 64 to 159 bits |
| Reserver.GenerateAndReserveSerialWithBits | pkg/ca/serial.go:90-120 | reserves the first of at most five draws not yet taken and nothing else; any error leaves the store as it was and says why |
| Reserver.ReserveFormatted | pkg/ca/serial.go:106-113 | reserving the text of a number succeeds exactly when the number is not taken, and files it under its own text |
| Reserver.GeneratedSerialFits | pkg/ca/serial.go:17-24 | every serial of at most 159 bits fits 20 DER octets, and 160 bits would not |
| Reserver.DerOctetsBound | pkg/ca/serial.go:17-24 | a number needs at most k octets exactly when it is below 2^(8k-1) |
| Reserver.SystemStepKeepsInv | pkg/ca/serial.go:90-120 | one step of concurrent issuance keeps the invariant that makes reserved serials private to their request |
| Reserver.ConcurrentIssuanceSafe | pkg/protocols/est/handler.go:74-114 | over every interleaving the serials handed out are distinct, positive and at most 20 octets, and no save of a signed certificate collides |
| SqliteReserver.SplitIsAtomicIff | pkg/storage/sqlite.go:258-268 | the count and the insert act like one step exactly when the serial did not appear in between; otherwise the loser gets a raw database error |
| SqliteReserver.StepKeeps | pkg/storage/sqlite.go:258-268 | every interleaved statement is a step of atomic issuance, or none |
| SqliteReserver.RacingIssuanceSafe | pkg/storage/sqlite.go:252-269 | with counts and inserts interleaved the serials handed out are still distinct, in range, and never collide on save: the primary key decides |
| SqliteReserver.LoserFails | pkg/storage/sqlite.go:258-268 | a run in which two requests count before either inserts, and the second fails |
| Crl.BuildEntries | pkg/protocols/crl/generator.go:82-96 | an entry for each record in order, or an error exactly when some serial is not hexadecimal |
| Crl.CRLGenerator.GenerateCRL | pkg/protocols/crl/generator.go:71-132 | the next number and every revocation of the store; which failures use a number up and which do not |
| Crl.CRLService.Regenerate | pkg/protocols/crl/generator.go:147-159 | alone, the cache moves to a higher number or stays on failure |
| Crl.SystemStepKeepsInv | pkg/protocols/crl/generator.go:71-132 | each step, with store operations in between, keeps that a listing in progress covers all issued CRLs |
| Crl.CrlsMonotone | pkg/protocols/crl/generator.go:71-121 | under every interleaving numbers strictly increase (section 5.2.3 of RFC 5280) and every entry of a CRL is in every CRL with a higher number |
| Crl.CacheCanRegress | pkg/protocols/crl/generator.go:147-156 | a run in which the cache goes from number 2 back to number 1 |
| Crl.CacheMonotone | pkg/protocols/crl/generator.go:147-159 | when no generation begins while a CRL waits to be cached, the cached number never decreases between any two points of a run |
| Crl.CanGoBackIff | pkg/protocols/crl/generator.go:147-156 | the writes still to come can take the cache back exactly when a waiting CRL is older than the cached one or than another waiting one |
| Crl.UnparsableSerialBlocksForever | pkg/protocols/crl/generator.go:84-89 | once a serial that is not hexadecimal is revoked no CRL is ever issued again |
| Crl.UnparsableSerialReachable | pkg/protocols/crl/generator.go:84-89 | a run from the empty store that saves and revokes the serial "zz" and then fails to generate |
| Ocsp.Status | pkg/protocols/ocsp/responder.go:200-217 | the answer is the one decided from the two reads |
| Ocsp.OcspAgreesWithCrl | pkg/protocols/ocsp/responder.go:200-217 | in every store filled by the issuers, for every number: Revoked with a time and reason exactly when a CRL of the same store lists it once with them, Good exactly when stored and not listed, Unknown otherwise (section 2.2 of RFC 6960) |
| Ocsp.ViewsAgreeIff | pkg/protocols/ocsp/responder.go:200-217 | for every store with hexadecimal revoked serials and stamped records, the two views agree on every number exactly when each revoked serial is the text of its number and each flagged certificate that OCSP can find has its record |
| Ocsp.CanonicalEntries | pkg/protocols/crl/generator.go:82-96 | when records are filed under the text of their number, a CRL lists a number exactly when it has a record, once, with that record |
| Ocsp.StampedKept | pkg/storage/memory.go:107-117 | with a clock past the zero time every revocation record is stamped |
| Ocsp.TwoReadsAreAtomic | pkg/protocols/ocsp/responder.go:200-217 | over every run of the store, operations between the two reads change nothing: the answer is that of the first read's state, with its record if there was one |
| Ocsp.AnswersByHistory | pkg/protocols/ocsp/responder.go:200-217 | over every run of the store: Unknown for a number never saved, Revoked with the time and reason of its revocation, Good otherwise |
| Ocsp.IssuerRunIssued | pkg/protocols/acme/server.go:735-742 | saves of unrevoked certificates under formatted serials keep the store in the form the agreement needs |
| Ocsp.FlagWithoutRecordDisagrees | pkg/storage/memory.go:50-58 | a certificate saved with its flag set is Revoked for OCSP and on no CRL |
| Ocsp.LeadingZeroDisagrees | pkg/storage/storage.go:46-51 | a certificate saved and revoked under "01" is listed as number 1, which OCSP does not know |
| AcmeServer.Server.NewAccount | pkg/protocols/acme/server.go:344-389 | exactly the specified change: an existing account for the thumbprint, a refusal, or a new account in both maps |
| AcmeServer.Server.NewOrder | pkg/protocols/acme/server.go:445-491 | one authorization, challenge and owner entry for each identifier, and a pending order that lists them in order |
| AcmeServer.Server.GetOrder | pkg/protocols/acme/server.go:505-535 | the order after re-evaluation |
| AcmeServer.Server.HandleChallenge | pkg/protocols/acme/server.go:574-612 | a POST to a pending challenge marks it, its authorization and, if all are valid, the parent order; nothing else changes |
| AcmeServer.Server.FinalizeCheck | pkg/protocols/acme/server.go:639-664 | refused exactly when the order is unknown or an authorization is not valid |
| AcmeServer.FinalizeSign | pkg/protocols/acme/server.go:666-722 | the unlocked part: malformed exactly when the CSR is absent or in neither encoding; an internal error when no serial could be reserved; otherwise what the authority signs for the dns names of the order, with the reserved serial, for 30 days, for server authentication |
| AcmeServer.Server.FinalizeCommit | pkg/protocols/acme/server.go:744-749 | stores the chain and marks the order valid with its URL |
| AcmeSpec.UrlsInvert | pkg/protocols/acme/server.go:523-524 | trimming the prefix of an authorization or certificate URL gives back the ID |
| Acme.NewOrderAnswers | pkg/protocols/acme/server.go:445-491 | a new order holds the request's identifiers, and files for each its own authorization, challenge and owner, with their URLs, token and expiry; refused exactly when there are none |
| Acme.NewAccountAnswers | pkg/protocols/acme/server.go:344-389 | the account the key has, else the refusal of onlyReturnExisting, else a new account with just this key, contact and consent |
| Acme.ChallengeAnswers | pkg/protocols/acme/server.go:574-623 | the challenge as it now stands; valid, at the time of the request, exactly on a POST that validates, unchanged otherwise |
| Acme.DnsNamesLaw | pkg/protocols/acme/server.go:689-695 | the names of an order are the values of its dns identifiers, in order |
| Acme.NewOrderKeeps | pkg/protocols/acme/server.go:445-491 | a new order with fresh IDs leaves every other order's invariant intact and satisfies its own |
| Acme.MarkedOrders | pkg/protocols/acme/server.go:584-608 | when one authorization becomes valid only its owning order has to be looked at again |
| Acme.CommitKeeps | pkg/protocols/acme/server.go:744-749 | a commit after the unlocked window keeps the invariant of every order |
| Acme.SignedIsIssuedFor | pkg/ca/authority.go:165-190 | what the authority signs for an order carries exactly its dns names, when it has any, and only names the policy accepts |
| Acme.StepKeepsInv | pkg/protocols/acme/server.go:344-749 | every step of every handler keeps the invariant over the linked maps and the requests in flight, and only moves forward |
| Acme.PendingIff | pkg/protocols/acme/server.go:450-491 | in every reachable state an order is pending exactly when one of its authorizations is not valid |
| Acme.AuthorizationsMatch | pkg/protocols/acme/server.go:450-491 | in every reachable state each order has one authorization for each identifier, in order, and for that identifier |
| Acme.StatusesAdvance | pkg/protocols/acme/server.go:518-608 | over any part of any run statuses only move pending, ready, valid (section 7.1.6 of RFC 8555), and accounts, certificates, identifiers and authorizations of orders stay |
| Acme.FetchChangesNothing | pkg/protocols/acme/server.go:505-535 | in every reachable state fetching an order answers with it as it stands and changes nothing |
| Acme.ValidOrderIsCertified | pkg/protocols/acme/server.go:639-749 | a valid order has, then and ever after, all authorizations valid and a URL that names a stored certificate for exactly its dns names, each accepted by the policy and each that of an identifier whose authorization had its challenge answered by a POST |
| Acme.CertificatesCarryTheirSerials | pkg/protocols/acme/server.go:698-749 | with distinct reserved serials, every signed certificate carries the serial reserved for its request, every stored one carries a reserved serial, and no two the same |
| Acme.WindowIsSafe | pkg/protocols/acme/server.go:651-747 | what finalize checked under the lock still holds whenever it takes the lock again |
| Acme.FinalizesUnlessPending | pkg/protocols/acme/server.go:651-663 | finalize is admitted exactly for orders that are not pending; on a valid order it replaces the URL and keeps the first certificate |
| Acme.PostValidates | pkg/protocols/acme/server.go:574-592 | at any point of a run, after a POST to a known challenge its authorization is valid |
| Acme.ValidOnlyAfterPost | pkg/protocols/acme/server.go:584-592 | an authorization is valid only after a POST to its challenge: no other step makes it so |
| Acme.NotPendingOnlyAfterPosts | pkg/protocols/acme/server.go:450-608 | an order is ready or valid only after every one of its authorizations had its challenge answered by a POST |
| Acme.SameAccountIffSameKey | pkg/protocols/acme/server.go:353-389 | two successful newAccount calls anywhere in a run return the same account exactly when their keys are equal up to the sign of an RSA exponent, or a hash collision is exhibited |
| Acme.AccountMadeBy | pkg/protocols/acme/server.go:365-389 | every account of a run was made by one earlier call, with its key, contact and consent, and not by one for existing accounts only |
| AcmeExample.SecondFinalize | pkg/protocols/acme/server.go:627-755 | a run from an empty server that makes, answers and finalizes an order, and finalizes it again: it is valid with its certificate, then with another one, and both are stored |
| Nonces.NonceManager.GenerateNonce | pkg/protocols/acme/nonce.go:29-42 | adds the nonce with its expiry |
| Nonces.NonceManager.ValidateAndConsumeNonce | pkg/protocols/acme/nonce.go:45-62 | removes a known nonce and accepts it exactly before its expiry |
| Nonces.NonceManager.Cleanup | pkg/protocols/acme/nonce.go:65-75 | removes exactly the nonces past their expiry |
| Nonces.AcceptedIff | pkg/protocols/acme/nonce.go:29-75 | over every run a nonce is accepted exactly when the last call naming it issued it less than a lifetime ago: at most once, only in time (section 6.5 of RFC 8555) |
| Nonces.CleanupInvisible | pkg/protocols/acme/nonce.go:65-75 | inserting or removing Cleanup calls anywhere changes no validation answer |
| Nonces.AcceptedPlusLiveBounded | pkg/protocols/acme/server.go:213-224 | accepted requests plus live nonces never exceed the nonces issued |
| Jwk.KeyToJWK | pkg/protocols/acme/jws.go:58-88 | minimal octets for RSA, exactly 32 octets a coordinate for P-256 |
| Jwk.RsaRoundTripIff | pkg/protocols/acme/jws.go:91-109 | an RSA key survives the round trip exactly when its exponent is not negative, or is -2^63 |
| Jwk.EcRoundTripIff | pkg/protocols/acme/jws.go:110-133 | a P-256 key survives it exactly on the curve and is refused off it |
| Jwk.CanonicalJsonInjective | pkg/protocols/acme/jws.go:136-156 | two keys have one canonical text exactly when they are equal up to the sign of an RSA exponent (section 3 of RFC 7638) |
| Jwk.CanonicalForms | pkg/protocols/acme/jws.go:58-166 | the canonical text of each kind of key, letter by letter (section 3.2 of RFC 7638), and the thumbprint as its hash |
| BigEndian.MinimalIsShortest | pkg/protocols/acme/jws.go:62-66 | the octets of an RSA number are the shortest that read back, with no leading zero |
| Jwk.ThumbprintIdentifiesKey | pkg/protocols/acme/jws.go:136-166 | equal thumbprints mean equal keys or a collision of the hash |
| Jwk.PaddedJwkIsSameKey | pkg/protocols/acme/jws.go:91-133 | leading zero octets in a JWK change neither the key nor its acceptance |
| Jwk.PackSignature | pkg/protocols/acme/jws.go:297-305 | R and S as 32 octets each, whatever their length |
| Jwk.SignatureRoundTrip | pkg/protocols/acme/jws.go:242-246 | splitting a packed signature gives back (r, s) (section 3.4 of RFC 7518) |
| Jwk.SplitThenPack | pkg/protocols/acme/jws.go:242-246 | packing what was split gives back the 64 octets |
| Audit.CanonicalMetadata | pkg/audit/logger.go:79-100 | the text depends on the map alone, not on the order of iteration |
| Audit.ComputeEventHash | pkg/audit/logger.go:58-77 | the hash of the canonical text of the eight fields |
| Audit.HashedText | pkg/audit/logger.go:64-76 | what is hashed: the eight fields in order, joined by bars |
| Audit.MetaTextIs | pkg/audit/logger.go:84-99 | the metadata text: sorted keys, "key=value" each, joined by '&' |
| Audit.ChainAuditLogger.LogEvent | pkg/audit/logger.go:134-183 | extends a verifying chain by one event to a verifying chain with the new head |
| Audit.ChainAuditLogger.VerifyChain | pkg/audit/logger.go:187-214 | intact exactly when every event links and hashes; otherwise the first broken index and the check that failed there |
| Audit.HeadDeterminesChain | pkg/audit/logger.go:187-214 | two verifying chains with one head hash have the same length and the same canonical text at every index, or exhibit a break of the hash |
| Audit.HeadDeterminesRecords | pkg/audit/logger.go:58-100 | and the same records when the fields avoid the separators |
| Audit.TextDeterminesRecord | pkg/audit/logger.go:58-100 | one canonical text, one record, when the fields avoid the separators |
| Audit.FieldsDeterminedIff | pkg/audit/logger.go:58-77 | the text determines the caller's four fields exactly when none holds a bar |
| Audit.MetadataDeterminedIff | pkg/audit/logger.go:79-100 | the text determines the map exactly when the map is empty or one pair with no '=' in its key or value |
| Audit.RecordDeterminedIff | pkg/audit/logger.go:58-100 | the canonical text determines the record exactly when the caller's four fields hold no bar and the metadata is empty, or one pair without '=' whose key holds no bar and whose value does not end with one |
| Audit.ChainDeterminedIff | pkg/audit/logger.go:187-214 | the head hash determines the whole chain exactly when each of its records is so determined, for a hash not broken on the chain itself |
| Audit.MetadataAmbiguous | pkg/audit/logger.go:79-100 | any two plain pairs have the text of one pair whose value holds '&' and '=' |
| Audit.PrefixVerifies | pkg/audit/logger.go:187-214 | every prefix of a verifying chain verifies |
| Audit.TamperDetected | pkg/audit/logger.go:187-214 | a changed event with the old hash fails at its index, with any other hash at the next event |
| Audit.ReplacementUnnoticedIff | pkg/audit/logger.go:187-214 | replacing one event passes VerifyChain exactly when the new one links back, carries its own hash, and, except at the head, has the old hash |
| CtLog.MarshalBinary | pkg/ctlog/models.go:34-76 | the presentation of section 3.2 of RFC 6962, or the error for the field that is too long |
| CtLog.ParseInvertsEncode | pkg/ctlog/models.go:34-76 | reading the marshalled form followed by anything returns the SCT and what followed |
| CtLog.EncodeInjective | pkg/ctlog/models.go:34-76 | distinct SCTs have distinct marshalled forms |
| CtLog.EncodeLayout | pkg/ctlog/models.go:34-76 | every field of the marshalled form at its position |
| CtLog.PackResponse | pkg/ctlog/client.go:93-102 | the packing, with the truncations of version and extension length |
| CtLog.PackIsEncodeIff | pkg/ctlog/client.go:93-102 | for responses of any size, exactly when the packing is a marshalled SCT; up to 65535 extension octets that means the same fields and signature structure, beyond that the extensions are never those of the response |
| CtLog.SerializeSCTList | pkg/ctlog/precert.go:45-73 | accepts exactly the non-empty lists with elements of 1 to 65535 octets and a total of at most 65535, and names the first bad element |
| CtLog.SCTListRoundTrip | pkg/ctlog/precert.go:45-73 | reading the OCTET STRING and the list back returns the SCTs (section 3.3 of RFC 6962) |
| CtLog.OctetStringForm | pkg/ctlog/precert.go:72-72 | tag 4 and the length in the shortest DER form |
| CtLog.ListForm | pkg/ctlog/precert.go:52-60 | each SCT behind its 16-bit length, in order |
| CtLog.ObjectIdentifiers | pkg/ctlog/precert.go:14-17 | the arcs of the poison and of the SCT list |
| CtLog.BuildPreCertificateTemplate | pkg/ctlog/precert.go:21-41 | a fresh template with the critical poison, 1.3.6.1.4.1.11129.2.4.3 with value NULL, appended; the original is not touched |
| CtLog.EmbedSCTList | pkg/ctlog/precert.go:76-96 | every poison removed and the list appended as 1.3.6.1.4.1.11129.2.4.2, not critical; no change without a list |
| CtLog.EmbedAfterBuildIff | pkg/ctlog/precert.go:21-96 | building the pre-certificate first makes no difference exactly when there is a list to embed |
| CtLog.PreCertificateMatchesFinalIff | pkg/ctlog/precert.go:21-96 | the pre-certificate less poison equals the final less SCT list exactly when the input had no SCT list (section 3.1 of RFC 6962) |
| Base64.DecodeInvertsEncode | pkg/protocols/ocsp/responder.go:167-182 | each of the four decoders inverts its encoder on every byte string |
| Base64.QuantaAgree | pkg/protocols/ocsp/responder.go:167-182 | any two decoders that accept a text agree on it |
| Base64.Alphabets | pkg/protocols/ocsp/responder.go:167-182 | the two alphabets of RFC 4648 |
| Base64.GroupIsBits | pkg/protocols/ocsp/responder.go:167-182 | three octets as 24 bits are four symbols, the most significant first (section 4 of RFC 4648) |
| Base64.TailIsGroup | pkg/protocols/ocsp/responder.go:167-182 | one or two octets left over are padded with zero bits and, in a padded form, '=' |
| OcspRequest.RequestBytes | pkg/protocols/ocsp/responder.go:140-182 | the text that the path or the query leaves, unescaped and put through the four decoders in turn, or which error |
| OcspRequest.ChainIsAnyDecoder | pkg/protocols/ocsp/responder.go:167-182 | the chain yields a byte string exactly when some decoder does, so its order is immaterial |
| OcspRequest.ChainDecodes | pkg/protocols/ocsp/responder.go:167-182 | for every byte string in each of the four encodings the chain returns it |
| OcspRequest.GetUnderOcspIff | pkg/protocols/ocsp/responder.go:140-182 | of a GET of /ocsp/x, whatever percent escapes x uses and with '+' arriving as a space, the encoded bytes are recovered exactly when x does not begin with a literal slash |
| OcspRequest.GetAtRootIff | pkg/protocols/ocsp/responder.go:140-182 | of a GET of /x they are recovered exactly when x does not begin with "ocsp" |
| OcspRequest.GetByQuery | pkg/protocols/ocsp/responder.go:151-153 | of a GET of /ocsp?x they are always recovered |
| OcspRequest.EmptyRequestMissing | pkg/protocols/ocsp/responder.go:154-157 | the empty byte string is carried by the empty text alone, which is refused as missing |
| OcspRequest.LeadingSlashLost | pkg/protocols/ocsp/responder.go:150-150 | the byte 255 in the standard encoding, whose text begins with a slash, is refused |
| OcspRequest.TailNeverDecodes | pkg/protocols/ocsp/responder.go:167-182 | an encoding that lost its first characters never decodes to the bytes encoded |
| OcspRequest.UnescapeFailsAlike | pkg/protocols/ocsp/responder.go:159-166 | the second way of unescaping never rescues a text the first refused |
| MtlsExample.Base64Encode | examples/mtls/main.go:188-218 | the loop over moving indices yields the padded encoding, ((n+2)/3)*4 characters, for every length |
| MtlsExample.EncodePEM | examples/mtls/main.go:171-186 | the frame around the encoding, broken after every 64 characters |
| MtlsExample.LinesOf64 | examples/mtls/main.go:171-186 | every line has 64 characters except the last (section 2 of RFC 7468) |
| MtlsExample.PemRoundTrip | examples/mtls/main.go:171-218 | stripping the frame and the line ends and decoding recovers the bytes |
| Policy.ValidatePublicKey | pkg/ca/policy.go:159-197 | accepts exactly the keys the policy allows, and which error otherwise |
| Policy.DnsNameAcceptedIff | pkg/ca/policy.go:200-239 | for every string the scan accepts exactly the names that are not empty, match no effective disallowed suffix, and satisfy the rule on labels |
| Policy.DisallowedMeans | pkg/ca/policy.go:207-214 | a name matches a disallowed one exactly when it ends with it, unless it is an internal suffix and these are allowed |
| Policy.CaseIsIgnored | pkg/ca/policy.go:201-201 | names that differ in the case of letters only get the same answer |
| Policy.Presets | pkg/ca/profile.go:65-140 | the default names and the limits, usages and flags of the four profiles; every default validity is within its limit |
| Policy.StarDotPrefix | pkg/ca/policy.go:222-225 | a name starts with "*." exactly when its first label of at least two is "*" |
| Policy.LintCertificate | pkg/ca/policy.go:242-348 | one error for each broken rule and nothing else |
| Policy.LintDecides | pkg/ca/policy.go:74-81 | lint errors exist exactly when some rule is broken |
| Issuance.AdmissibleIff | pkg/ca/authority.go:138-196 | a request is refused exactly when one of the authority's demands fails |
| Issuance.SignCertificateWithProfile | pkg/ca/authority.go:129-244 | the first failing check decides the error; lint fails exactly on an unclean template; and what is signed holds, field by field, what the request, the profile and the issuer give |
| Issuance.SignCertificateWithCT | pkg/ca/authority.go:251-386 | the same refusals, lint and field-by-field contents as the plain path; then the signing with logs |
| Issuance.TemplateIsWhatWasAsked | pkg/ca/authority.go:191-234 | the template: serial, subject, names, validity, usages, constraints, both key identifiers and the three URL lists each from its own source, within the limits and policy |
| Issuance.CheckForProfile | pkg/ca/authority.go:138-196 | the checks of the plain path refuse exactly as specified |
| Issuance.CheckForCT | pkg/ca/authority.go:261-307 | and so do those of the other |
| Issuance.KeyPolicy | pkg/ca/policy.go:159-197 | the keys allowed, by the size of the modulus as a number |
| Issuance.SignedWithLogs | pkg/ca/authority.go:351-385 | with logs, first the template with the poison alone is signed, then the template with the list of all answers alone |
| Issuance.CollectedLaw | pkg/ca/authority.go:362-373 | the answers are those of the logs that are not nil, in order, while each answers |
| Issuance.CollectScts | pkg/ca/authority.go:362-373 | the answers of the logs in order, nil submitters skipped, or failure as soon as one log fails |
| Issuance.SignWithLogs | pkg/ca/authority.go:351-385 | the final certificate exactly when every signing, submission and the list succeed |
| Issuance.CleanIff | pkg/ca/authority.go:212-240 | for every profile the lint of an admissible request fails exactly on a serial over 159 bits, an inverted validity, or a profile asking for what the lint forbids |
| Issuance.PresetNeverFailsLint | pkg/ca/profile.go:123-140 | with a preset profile and a generated serial the lint never fails |
| Issuance.FinalCarriesScts | pkg/ca/authority.go:375-385 | the final certificate's one extra extension is the SCT list's, not critical, and reads back to the logs' answers in order; without it the certificate matches the pre-certificate less poison |
| SignerPool.StepKeepsInv | pkg/signer/pool.go:48-73 | every step keeps conservation, first-in first-out order, queue capacity and faithful answers |
| SignerPool.TakesFirst | pkg/signer/pool.go:54-61 | a worker always takes the earliest request still waiting |
| SignerPool.EveryRequestInOnePlace | pkg/signer/pool.go:48-78 | under every schedule each request is in exactly one place, answered at most once with the issuer's result on its own fields, and the queue keeps to its capacity |
| SignerPool.MeasureFalls | pkg/signer/pool.go:48-68 | every step but a submission strictly lowers a measure |
| SignerPool.RunsEnd | pkg/signer/pool.go:48-68 | without submissions no run is longer than the measure at its start |
| SignerPool.WorkerNeverStuck | pkg/protocols/est/handler.go:86-94 | with reply channels of capacity 1 a worker with a request in hand can always go on |
| SignerPool.EverythingAnswered | pkg/signer/pool.go:48-73 | a pool with a worker, not cancelled, comes to rest only with every request answered |
| SignerPool.InHandIsAnswered | pkg/signer/pool.go:54-64 | a request in a worker's hand at any moment, cancelled or not, is answered when the run comes to rest |
| SignerPool.AnsweredIffTaken | pkg/signer/pool.go:48-73 | at rest, cancelled or not, exactly the requests some worker took are answered; the others wait for ever |
| SignerPool.DepthOfQueue | pkg/signer/pool.go:76-78 | the depth, once no sender can move up, is the number of requests not yet taken, or the capacity when there are more |
| SignerPool.DepthCounts | pkg/signer/pool.go:76-78 | at any moment it counts the requests in the buffer, which are the next to be taken |

## Left out

- HTTP routing, headers, JSON, file I/O, Swagger, start-up and shutdown: plumbing around the steps modelled.
- RSA, ECDSA, SHA-256 and X.509 internals, the parsing of requests and certificates, and `IsOnCurve`: foreign calls,
  given as arguments.
- The CRL ticker goroutine: it discards a lock it has just taken and then waits for it, so nothing can be promised of
  periodic regeneration; direct calls to Regenerate are modelled.
- HTTP-01 probing: the server never calls it.
- JWS verification and the lookup of the key by account URL: the steps start from a request that has been verified, and
  the nonce table is proved about on its own.
- Ownership of orders by accounts and matching of the JWS `url`: the handlers do not check them. An order signed with a
  `jwk` names no account.
- The SQL engine, WAL, context cancellation, database errors and the precision of stored timestamps: tables are maps
  with a primary key, and a nil byte slice is taken to violate NOT NULL.
- Telemetry, the key store, the legacy revocation store and the mock HSM: only easy properties.
- Case folding beyond ASCII in ToLower, and `%q` escaping, which never applies to base64url text.
- Nil receivers and nil contexts.
- Pointer identity of orders and authorizations in the ACME server: they are values under their IDs, and the order a
  finalize holds across the unlocked window is found again by its ID, which is never reused.
- PEM framing of the chains the ACME server stores: a chain is represented by its leaf.
- The worker pool as channels and goroutines: it is a state machine over values whose steps are the channel operations.
- A positive validity of a custom profile: `Issuance.CleanIff` covers every profile, `Issuance.PresetNeverFailsLint`
  the four presets.
- Reserver.ConcurrentIssuanceSafe: runs in which all saves go through the two issuing handlers; a save made by other
  code under a serial reserved by someone else could collide.
- Crl.CRLService.Regenerate: one call at a time; Crl.CacheMonotone and Crl.CanGoBackIff say what overlapping calls do.
- SqliteStore.SQLiteStorage.ReserveSerial: no other statement between its two; SqliteReserver has them interleave.
- SqliteSpec.RunsAgreeIff: each call of either store is one step, as its lock or its single connection makes all but
  SQLite's ReserveSerial.
- Ocsp.ViewsAgreeIff: revocation records with a time other than the zero time, which Ocsp.StampedKept keeps.
- Audit.RecordDeterminedIff: records whose identifier and timestamp hold no bar, as generated ones never do.
- Issuance.SignCertificateWithCT: no list of IP addresses overrides the request's, as in the code.
