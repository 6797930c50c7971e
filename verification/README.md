# A verified model of the Haechi gateway's core

Haechi is a proxy that detects sensitive values in traffic and redacts, tokenises,
encrypts or blocks them, and keeps a hash-chained audit log of what it did. This
project models the parts whose correctness spans several calls, several writers or
a whole run, and proves what they promise.

| files | what they model |
|---|---|
| `Texts`, `Json`, `JsonText`, `Canonical`, `Objects` | UTF-16 text and its order, JSON values and their printed form, what a literal stands for, the key-ordered canonical form, one-field updates of objects |
| `AuditRecords`, `AuditVerify`, `AuditStorage` | building chained records, verifying a log with or without anchors, what survives being written as JSON lines |
| `StoreContract`, `ExclusiveAuditStore`, `FencedAuditStore`, `AuditSink` | concurrent `record()` calls through the exclusive store and through the shared compare-and-append store |
| `CryptoAad`, `AadAgreement` | associated data of encryption envelopes, normalised (v2) and plain (v1); which data open an envelope, told from the data themselves |
| `NonceBudget`, `NonceOverlap` | the per-key budget of encryptions, with restarts, several providers and rotation; calls that overlap |
| `RateLimiter`, `KeyFetcher` | the swept fixed-window limiter; the cached, cooled-down key fetcher |
| `TokenVault`, `TokenReveal`, `FencedTokenStore` | tokenise and purge; reveal, through the crypto provider; the version-fenced shared token store |
| `Spans`, `StreamProtector`, `Rewriting`, `Replacing`, `Frames` | overlap removal, the hold-back buffer of a protected stream, what replacing spans leaves of a text, for disjoint spans and for any, frame splitting |
| `StreamEquivalence`, `StreamExactness`, `StreamPatterns`, `StreamLookAround` | when a stream is protected exactly as its text in one piece, for any detector; which single rules meet that, and how others fail |
| `StreamBlocking`, `StreamCoverage`, `StreamRules`, `StreamMerging`, `StreamDefaults` | when a stream blocks all that one piece would; what a stream shows, unit by unit; detectors for which it protects at least as much; single rules, several rules merged by overlap removal, and some of the default rules |
| `WorkerPool`, `Percentile`, `Manifest`, `PeerRange`, `DetectionGate`, `Whitespace`, `Sorting`, `Sets`, `Options` | the benchmark driver, percentiles, the checksum manifest, version ranges, the detection gate, and helpers |

Concurrent protocols are state machines whose steps are what one call does between
two awaits; results hold in every state of every run. Objects whose methods update
their fields are classes, and each method is proved equal to a step function about
which the lemmas speak. SHA-256 is an arbitrary function: tamper evidence is proved
as "the records agree, or here is a collision", and from that for a collision-free
function. The Unicode normaliser, the detector, the policy and the token derivation
are arbitrary functions too, with every assumption about them written as a
precondition.

## What turned out not to hold as documented

Each of these is stated with the condition under which the code does meet the promise.

- `[undefined]` and `[]` have one canonical text, so they share an event hash and an
  envelope sealed for one opens for the other (`Canonical.LoneUndefinedVanishes`,
  `CryptoAad.LoneUndefinedOpens`). That is the only confusion besides key order
  (`Canonical.CanonicalUnambiguous`), and there is none among values read from a file
  (`Canonical.EquivalentDefined`).
- An event with an `undefined` field is hashed with the word `undefined` but stored
  without the field, so its line fails verification. A log verifies exactly when no
  event holds `undefined` (`AuditStorage.FileAcceptedIff`).
- Renewing a token does not keep it revealable: its envelope expires one retention
  after the call that made it, whatever later calls renew
  (`TokenReveal.TokenizeReveal`, `TokenReveal.RenewedNotRevealable`). A token reused for
  a second context also keeps the first one. A token whose context holds `undefined` is
  never revealed without a context of the caller's own, since the stored context has
  lost it (`TokenReveal.UndefinedNeverReveals`).
- A `record()` or `mutate()` call that fails may have been committed, as when the
  reply is lost or the anchor cannot be written (`FencedAuditStore.FailedMayBeLogged`,
  `FencedTokenStore.FailedMayBeCommitted`): it was exactly when the script had run for it
  (`FencedAuditStore.FailedLoggedIff`, `FencedTokenStore.FailedCommittedIff`). One that
  gave up on conflicts was not.
- The encryption limit holds in every run exactly when calls on one provider do not
  overlap (`NonceOverlap.OverlapExact`): two calls that both read the last free
  usage both encrypt. On a key file that cannot be written each provider keeps the
  limit by itself (`NonceBudget.ExactBudget`), but restarts do not add up
  (`NonceBudget.ReadOnlyExceeds`).
- A rate limit below one still admits the call that opens a window, and an interval
  as long as a window can admit 2m - 1 calls (`RateLimiter.WindowExact`,
  `RateLimiter.IntervalBoundTight`). Sweeping is invisible exactly for clocks on which
  no window that is over opens again (`RateLimiter.SweepNeedsSteady`).
- A key document as old as both durations is served exactly when the latest fetch
  failed and started less than a cooldown ago (`KeyFetcher.StaleServedIff`);
  otherwise what is served is younger than max(ttl, cooldown).
- The stream's commit point cuts a detected span exactly when a span that ends before
  the hold-back reaches over the start of the first one that ends in it
  (`StreamProtector.CommitCutsIff`). The default filter engine never returns such
  spans (`StreamProtector.DefaultEngineUncut`); an engine passed in by a caller can
  (`StreamProtector.OverlapMayBeCut`).
- A secret found only by decoding a leaf fails closed to a detection of the whole leaf.
  It hides the leaf if and only if no span that is replaced starts the leaf, or those
  found in the leaf hide it all by themselves (`Replacing.WholeLeaf`): spans are taken
  in the order of their starts, so one at the start of the leaf comes before the whole
  leaf, which is then passed over. With an address at 5 to 20 of 30 units the leaf is
  hidden; with one at 0 to 20 the units from 20 on come out (`Replacing.EncodedEscapes`).
- A secret far shorter than `maxMatchBytes` can be streamed out unprotected. With the
  default hold-back of 256, one delta `password: `, a secret of twenty units and 240
  blanks is cut before the secret: `password: ` is emitted, what is held no longer has
  the key that the default secret rule looks for behind a match, and the secret comes
  out as it is, while in one piece it is replaced (`StreamPatterns.PasswordEscapes`).
  So it is with every rule that needs the text before its match
  (`StreamPatterns.LookBehindEscapes`).
- Two rules can together lose a match by a cut that each alone would not lose, since the
  removal of overlaps drops whatever starts under an earlier span. With the default
  hold-back, one delta `+010.1234.4242 4242 4242 4242`, padded with blanks to 257 units,
  is blocked in one piece for its card number: the `+` forbids the telephone number. The
  stream emits `+` first, then the telephone number matches, hides the card number and is
  let pass, and all comes out as it is (`StreamDefaults.PhoneHidesCard`,
  `StreamDefaults.DefaultInput`; `StreamDefaults.HiddenEscapes` for any two such rules).
- A stream is blocked under every policy that would block its text in one piece exactly
  when each match of that text, up to type and text, is found in one of the pieces that
  the stream protects (`StreamBlocking.BlockingExact`). For a text sent as one delta
  these are what is committed and what is held (`StreamBlocking.OneDeltaExact`). For all
  streams it is enough that no single commit loses a match
  (`StreamBlocking.KeptIsBlocked`); it is not needed, since a later cut can bring a match
  back that a commit has lost (`StreamBlocking.KeepingNotNeeded`).
- A stream blocks and hides all that one-shot protection does
  (`StreamBlocking.BlockedIsBlocked`, `StreamCoverage.HiddenIsHidden`) when no match is
  lost by a cut. A rule whose context only forbids a match loses none by itself if its
  matches stand apart (`StreamRules.FinderHalves`). Several such rules lose none together
  exactly when no cut lets a new match push out one that is kept
  (`StreamMerging.MergingExact`): it is enough that no text that would match with less
  around it covers a match that is kept (`StreamMerging.ForbiddingGuarded`), as for
  the rules for runs of digits (`StreamDefaults.DigitRunsGuarded`).
- A stream always is protected exactly as its text in one piece if and only if whatever
  is committed has, with the rest of the text, the matches of the whole
  (`StreamExactness.OneShotExact`), whatever the rules look at. For one rule of fixed
  length that looks only behind, this means that a match has at most one unit more than
  the hold-back and the text before it decides nothing (`StreamPatterns.HoldBackExact`).
  So it does for rules of fixed length that look behind and ahead, when the context only
  forbids and matches stand apart (`StreamLookAround.LookAroundExact`); so with a rule
  for runs of digits there is no hold-back for which it is
  (`StreamDefaults.RunNeverOneShot`).
- The detection gate reports every loss of recall exactly when a type has at most a
  million present labels, since ratios are rounded (`DetectionGate.RecallGateExact`).

## Model

| member | source | states |
|---|---|---|
| Texts.LessMeaning | packages/audit/index.mjs:417-419 | One key comes before another if and only if at the first difference it has the smaller code unit or has ended. |
| Json.QuoteUnambiguous | packages/audit/index.mjs:417-419 | String literals (section 7 of RFC 8259) cannot be confused: equal literals with continuations mean equal strings and equal continuations. |
| Json.PrintUnambiguous | packages/audit/index.mjs:412-420 | Printed JSON trees of any depth are uniquely readable, field order included, even when followed by other text, unless an array holds nothing but one `undefined`, which is printed as nothing. |
| JsonText.UnescapeEscape | packages/audit/index.mjs:417-419 | What stands in a literal, read back by the escapes of section 7 of RFC 8259, is the string it was made of. |
| JsonText.EscapedExactly | packages/audit/index.mjs:417-419 | Exactly control units, quote, backslash and halves of pairs are escaped, five of them by a letter and the others by four lowercase hexadecimal digits; everything else stands for itself. |
| Canonical.CanonicalUnambiguous | packages/audit/index.mjs:412-420 | Two values have the same canonical text if and only if they are equal up to key order, and up to `[undefined]` for `[]`, at every level. |
| JsonText.CanonicalText | packages/audit/index.mjs:412-420 | The canonical text is that of the same tree with the fields of every object in ascending order of keys. Arrays and objects are put together from the texts of their members (`JsonText.TwoItemsText`, `JsonText.TwoFieldsText`, `JsonText.NothingText`), and the words are `true`, `false`, `null` and `undefined` (`JsonText.Scalars`). |
| Canonical.LoneUndefinedVanishes | packages/audit/index.mjs:414 | `[undefined]` and `[]` have one canonical text, also inside an object, and are not equal up to key order. |
| Canonical.EquivalentDefined | packages/audit/index.mjs:412-420 | Among values without `undefined`, which are those read from a file, canonical texts separate all that differ in more than key order. |
| Canonical.StoredCanonicalText | packages/audit/index.mjs:63 | Writing and re-reading a value as JSON keeps its canonical text if and only if it holds no `undefined`. |
| AuditRecords.EventSealCollision | packages/audit/index.mjs:341-361 | For any hash, two values with one event hash have one canonical text, and so are equal up to key order and `[undefined]` for `[]`, or are a collision of the hash. |
| AuditRecords.EventSealBinding | packages/audit/index.mjs:412-424 | Under a collision-free hash, equal event hashes mean unsigned records with one canonical text: the event hash of the source is binding on all values, `undefined` included. |
| AuditRecords.BuiltRecord | packages/audit/index.mjs:341-361 | A built record carries the next sequence, the predecessor's hash and the digest of itself without that hash, as the verifier recomputes it. |
| AuditRecords.BlockExactly | packages/audit/index.mjs:344-360 | The block has these five fields, in this order: algorithm `sha256`, canonicalisation `json-stable-v1`, sequence, previous hash and event hash. |
| AuditRecords.BuiltKeepsEvent | packages/audit/index.mjs:344-360 | Building changes no field of the event but `auditIntegrity`. |
| AuditRecords.BuildExtends | packages/audit/index.mjs:341-361 | A record built on the head of a linked log extends it, so a rejected attempt leaves the log extendable. |
| AuditRecords.ChainLinked | tests/audit-store-seam.test.mjs:128-142 | Every record of a chain passes the sequence, previous-hash and event-hash checks. |
| AuditRecords.ChainKeepsEvents | packages/audit/index.mjs:341-361 | Record i of a chain keeps every field of event i: nothing is lost, repeated or reordered. |
| AuditRecords.SanitizeCleans | packages/audit/index.mjs:220-232 | Sanitising removes every forbidden key at every depth. |
| AuditRecords.SanitizeKeepsClean | packages/audit/index.mjs:220-232 | Sanitising changes nothing in a value without forbidden keys. |
| AuditRecords.SanitizedFields | packages/audit/index.mjs:225-229 | Of an object exactly the fields with an allowed key are kept, in their order, each with its sanitised value. |
| AuditRecords.SanitizedReached | packages/audit/index.mjs:220-232 | At the end of every way into a value, through keys and positions of any depth, is what was there, sanitised, unless a forbidden key is on the way; array lengths and all other values stay (`AuditRecords.SanitizedShape`). |
| AuditRecords.RecordKeepsAllowed | packages/audit/index.mjs:151-154 | The record written for an event holds under each of its allowed keys the sanitised value, and nothing under a forbidden one. |
| AuditRecords.RecordClean | packages/audit/index.mjs:151-154 | The record written for any event has no forbidden key at any depth. |
| AuditVerify.ReadAnchors | packages/audit/index.mjs:302-334 | The anchor reader's loop computes the attested map and the last sequence, skipping unreadable lines, and throws if and only if a line is `null`. |
| AuditVerify.AttestedMeaning | packages/audit/index.mjs:323-326 | The last readable line for a sequence is the one that counts, and no anchored sequence exceeds the last one. |
| AuditVerify.CheckLinks | packages/audit/index.mjs:245-299 | The verifier's loop returns the verdict its rules define: accepted, or rejected at the first faulty record with that record's first fault, or tail truncation. |
| AuditVerify.VerifyAuditChain | packages/audit/index.mjs:234-300 | The whole verification of a file, with its blank and malformed lines and the anchors, returns the verdict its rules define. |
| AuditVerify.FileOfRecords | packages/audit/index.mjs:247-257 | A file of records is verified as those records, wherever it has blank lines. |
| AuditVerify.VerdictUnique | packages/audit/index.mjs:234-300 | The rules admit exactly one verdict. |
| AuditVerify.CollisionOfHash | packages/audit/index.mjs:265-272 | Two records that collide under the event seal give two different texts with one hash. |
| AuditVerify.BackAlongLinks | packages/audit/index.mjs:261-263 | Two linked lists with a common hash can be followed back to where they start or first point to different hashes. |
| AuditVerify.HashFixesPrefix | packages/audit/index.mjs:245-282 | Two linked logs with the same hash at position k hold the same first k records, or two records at one position collide. |
| AuditVerify.HashFixesPrefixBinding | packages/audit/index.mjs:245-282 | Under a binding seal the first k records are the same. |
| AuditVerify.AnchorFixesPrefix | tests/audit-anchoring.test.mjs:53-115 | A log accepted against a genuine anchor at sequence k has at least k records and its first k are the genuine ones, or two records collide. |
| AuditVerify.DifferencePersists | tests/audit-chain-tamper.test.mjs:79-189 | Accepted logs that differ at record i differ at every later record they share. |
| AuditVerify.StaleHashCaught | tests/audit-chain-tamper.test.mjs:79-95 | Editing record i under its old integrity block stops verification there, with i clean records before it and an event hash mismatch. |
| AuditVerify.RehashCaughtNext | tests/audit-chain-tamper.test.mjs:97-117 | Re-hashing only the edited record stops verification at the next record with a previous hash mismatch. |
| AuditVerify.SingleEditAccepted | tests/audit-chain-tamper.test.mjs:79-189 | A log with one record replaced is accepted if and only if the new record passes its own checks and, unless it is the last, keeps the old hash. |
| AuditVerify.ReasonExactly | packages/audit/index.mjs:254-277 | Which reason is given, of all that may be wrong with the record: a missing integrity block before the sequence, that before the previous hash, that before the event hash, and the anchor last. |
| AuditVerify.DeletionCaught | packages/audit/index.mjs:258-260 | A log without record i, with a record after it, is rejected at i for its sequence. |
| AuditVerify.RepetitionCaught | packages/audit/index.mjs:258-260 | A log that has record i twice is rejected behind the first of them for its sequence. |
| AuditVerify.ExchangeCaught | packages/audit/index.mjs:258-260 | A log with two records exchanged is rejected at the first of them for its sequence. |
| AuditVerify.RenumberingCaught | tests/audit-chain-tamper.test.mjs:172-189 | A record with another number in place i, whatever else it holds, is rejected there for its sequence. |
| AuditVerify.MissingCaught | packages/audit/index.mjs:254-257 | A record whose integrity block is absent or falsy is rejected for that; `null` in place of a record makes the verifier throw. |
| AuditVerify.MalformedCaught | packages/audit/index.mjs:247-253 | A malformed line makes the verifier throw where the records before it end. |
| AuditVerify.RelinkingCaught | tests/audit-chain-tamper.test.mjs:119-154 | A numbered record that does not point back to the record before, or the first one pointing anywhere, is rejected for its previous hash. |
| AuditVerify.FirstMayPointNowhere | packages/audit/index.mjs:261-263 | A first record that passes the other checks is accepted if and only if its previous hash is `null` or left out. |
| AuditVerify.AnchorMismatchCaught | packages/audit/index.mjs:274-277 | A linked log is rejected at the first anchor that holds another hash than its record, naming that anchor's sequence. |
| AuditVerify.ScheduleAttests | packages/audit/index.mjs:118-137 | Anchoring every e records attests a sequence if and only if it is a multiple of e in the log, each with its record's hash. |
| AuditVerify.TruncationBound | tests/audit-anchoring.test.mjs:44-130 | An honest n-record log cut to m records is accepted with its anchors if and only if m >= e * floor(n / e); otherwise the verdict is tail truncation naming that multiple. |
| AuditVerify.HonestLog | tests/audit-chain-tamper.test.mjs:191-210 | The log of any events is linked, and without anchors every prefix of it is accepted. |
| AuditStorage.StoredView | packages/audit/index.mjs:63 | A stored record shows the same integrity block and a digest over the stored fields. |
| AuditStorage.StoredFieldExactly | packages/audit/index.mjs:63 | A stored object holds each field that is not `undefined`, in its stored form, and no other. |
| AuditStorage.StoredDigest | packages/audit/index.mjs:265-272 | The recomputed digest matches if and only if the event holds no `undefined`. |
| AuditStorage.StorableAccepted | packages/audit/index.mjs:234-300 | A file of storable events is accepted in full. |
| AuditStorage.FirstUnstorableRejected | packages/audit/index.mjs:265-272 | The first event that is not storable is where the file stops verifying. |
| AuditStorage.FileAcceptedIff | packages/audit/index.mjs:234-300 | A file verifies if and only if every event is storable. |
| AuditStorage.FileInSequence | packages/audit/index.mjs:341-361 | Every line of a file carries its sequence and points back to the line before, storable or not. |
| AuditStorage.FileHashesDistinct | packages/audit/index.mjs:341-361 | No two lines of one file carry the same hash. |
| AuditStorage.AnchorFixesFile | tests/audit-anchoring.test.mjs:53-115 | A file accepted against an anchor at sequence k of the file the sink wrote holds its first k lines, equal but for key order, or two records collide. |
| ExclusiveAuditStore.NextKeepsInv | tests/audit-store-seam.test.mjs:54-66 | Every step of the promise queue keeps the log one unforked chain of the events written so far. |
| ExclusiveAuditStore.NeverForks | tests/audit-store-seam.test.mjs:149-189 | In every state of every interleaving of `record()` calls, with rejections, the log is the chain of the written events, and every anchor is at a multiple of the schedule, none twice. |
| ExclusiveAuditStore.NextKeepsCalls | packages/audit/index.mjs:147-159 | No step loses, repeats or reorders a call. |
| ExclusiveAuditStore.AllCallsLogged | tests/audit-store-seam.test.mjs:149-189 | When all calls have settled and none was rejected, exactly the calls made are in the log, in call order. |
| ExclusiveAuditStore.AnchorsExactly | packages/audit/index.mjs:118-137 | As long as no call is rejected, the anchors are the multiples of the schedule among the finished records, in order. |
| ExclusiveAuditStore.AllCanBeLogged | packages/audit/index.mjs:147-159 | For any events some run logs exactly their chain, with every anchor that is due. |
| FencedAuditStore.NextKeepsInv | satellites/store-redis/audit.mjs:121-169 | Every step of any number of writers without a lock, failures after the commit included, keeps the stored chain one unforked chain of the committed calls. |
| FencedAuditStore.NeverForks | satellites/store-redis/audit.mjs:63-69 | In every state of every run the stored chain holds one line for each committed call, none twice, each built on the one before. |
| FencedAuditStore.LineForSuccess | packages/audit/index.mjs:151-154 | A call that reported success has exactly one line; one that gave up on conflicts has none; any call has at most one. |
| FencedAuditStore.FailedMayBeLogged | packages/audit/index.mjs:151-154 | A call that fails after the script ran has its line in the chain. |
| FencedAuditStore.FailedLoggedIff | satellites/store-redis/audit.mjs:121-169 | In every run a failed call has its line in the chain, once, if and only if the script had run for it in an earlier state. |
| FencedAuditStore.ConflictMeansProgress | satellites/store-redis/audit.mjs:151-160 | A conflict means that another writer committed since this one read the head. |
| FencedAuditStore.GivesUpOnlyUnderContention | satellites/store-redis/audit.mjs:121-169 | A call that gives up was overtaken by at least 64 lines of other calls since it began, and has none. |
| FencedAuditStore.ConflictExactly | satellites/store-redis/audit.mjs:121-169 | A writer starts again after each of its first 63 conflicts and gives up at the sixty-fourth. |
| FencedAuditStore.AloneSucceeds | satellites/store-redis/audit.mjs:121-169 | From every state of every run, a call in progress with a retry left appends its line on the whole chain and reports success if nothing else runs: no interleaving leaves the store stuck. |
| FencedAuditStore.NewCallSucceeds | satellites/store-redis/audit.mjs:121-169 | In every state of every run a new call for any accepted event can begin, and by itself succeeds. |
| FencedAuditStore.RealTimeOrder | satellites/store-redis/audit.mjs:121-169 | A call that begins after another has reported success has its line behind the other's. |
| AuditSink.FenceExact | satellites/store-redis/audit.mjs:63-69 | The head-hash fence passes if and only if the record was built on the whole current chain. |
| AuditSink.AuditCoreFences | satellites/store-redis/audit.mjs:121-169 | The sink's chain math supplies what the shared store's protocol relies on; it is a core as the stores' contract asks for, whatever the seal (`AuditSink.SinkCoreMeetsContract`). |
| AuditSink.SharedChainAccepted | satellites/store-redis/audit.mjs:121-169 | Whatever the interleaving of writers, the shared chain verifies if and only if its sanitised events are storable, with one record per committed call. |
| AuditSink.GenuineAnchorsAgree | packages/audit/index.mjs:274-290 | Anchors taken from a log never change the verdict on that log, unless the anchor file has a `null` line, which makes the reader throw. |
| AuditSink.SinkLogAccepted | packages/audit/index.mjs:97-170 | Whatever the interleaving of calls and rejections on one sink, its log with its anchors verifies if and only if the logged events are storable. |
| CryptoAad.CryptoAadText | packages/crypto/index.mjs:408-429 | The encoding fails if and only if two keys of one object normalise alike, and otherwise prints the normalised tree with its entries in text order and `[undefined]` as `[]`. |
| CryptoAad.CryptoAadUnambiguous | tests/crypto.test.mjs:46-110 | Two associated data encode alike if and only if their normalised trees are equal up to key order and `[undefined]` for `[]`. |
| CryptoAad.V2OpensIff | packages/crypto/index.mjs:194-217 | A v2 envelope opens if and only if its expiry has not been reached and the normalised trees are equal up to key order and `[undefined]` for `[]`; key collisions, absent data and malformed expiries fail. |
| AadAgreement.AgreeExactly | packages/crypto/index.mjs:408-429 | Normalised trees are equal in this sense exactly for data that agree: strings and keys once normalised, arrays item by item, objects field by field in any order, all else as it is. |
| AadAgreement.CollidesExactly | packages/crypto/index.mjs:413-420 | The encoding fails exactly when some object, at any depth, has two keys that normalise alike. |
| AadAgreement.OpensForAgreeing | packages/crypto/index.mjs:194-217 | A v2 envelope can be sealed if and only if data are given that have no such object and its expiry is a time or none, and opens if and only if it is fresh, for data that agree and have no such object either. |
| CryptoAad.V1OpensIff | packages/crypto/index.mjs:431-461 | A v1 envelope opens if and only if its expiry has not been reached and the data are equal up to key order and `[undefined]` for `[]`, without normalisation. |
| CryptoAad.LoneUndefinedOpens | packages/crypto/index.mjs:398-429 | An envelope sealed for a field `[undefined]` opens for `[]`, in either version. |
| CryptoAad.DecryptExactly | packages/crypto/index.mjs:194-217 | What becomes of any envelope, however made: it opens if and only if it is fresh, names no unknown encoding, the text of the data given is the one authenticated, and the hash it names, if any, is that text's. Otherwise the first check that fails is reported: expiry, encoding, absent data, colliding keys, hash, cipher. An envelope sealed now names the v2 encoding and the hash of its text (`CryptoAad.SealedWith`). |
| NonceBudget.Provider.ReserveNonceWindow | packages/crypto/index.mjs:89-122 | Stored usage is advanced by the granted window before any of it is used; after a failed write the window is counted on in memory; at the limit and for a missing key nothing changes. |
| NonceBudget.Provider.Encrypt | packages/crypto/index.mjs:128-160 | One call is the step of key file and memory that the run lemmas are about. |
| NonceBudget.NextKeepsInv | packages/crypto/index.mjs:74-146 | Starting providers, encrypting with or without a working write, stopping after a reservation and rotating keep the invocation indices of every key whose windows were stored distinct and covered by stored usage. |
| NonceBudget.BudgetSafety | tests/nonce-budget.test.mjs:32-108 | In every run with any number of restarts, providers, rotations and failed writes, for every key whose windows were all stored, stored usage never falls below the encryptions done and the key does not exceed 2^32 of them (section 8.3 of NIST SP 800-38D). |
| NonceBudget.ExactBudget | tests/nonce-budget.test.mjs:32-137 | A provider starting at usage u succeeds on exactly its first 2^32 - u calls, with consecutive indices, and fails ever after, whichever writes of the key file fail. |
| NonceBudget.ActiveExactly | packages/crypto/index.mjs:45-49 | The key used is the first marked active, else the first of the file; there is none only in an empty file. |
| NonceBudget.AfterRotation | packages/crypto/index.mjs:243-262 | After a rotation the new key is the active one and the others keep their usage; a fresh provider begins its budget, and one that has loaded a key before goes on with that one. |
| NonceBudget.StoredExactly | packages/crypto/index.mjs:89-122 | After n calls of a provider whose writes succeed the key file differs only in the usage of its key, which has advanced by the least number of whole windows that hold the calls, or to the limit. |
| NonceBudget.RestartSkips | packages/crypto/index.mjs:18-22 | A provider that replaces it goes on behind the last invocation, less than a window later. |
| NonceBudget.ReadOnlyExceeds | packages/crypto/index.mjs:74-122 | On a key file that cannot be written some run makes any given number of encryptions with one key while its stored usage stays the same. |
| NonceOverlap.SerialRun | packages/crypto/index.mjs:128-138 | With one call at a time, every state between awaits keeps the reservation ahead of the encryptions. |
| NonceOverlap.OverlappingIsRun | packages/crypto/index.mjs:89-138 | Two overlapping calls at the last free usage are a possible run. |
| NonceOverlap.OverlapExact | packages/crypto/index.mjs:89-146 | The limit holds in every run if and only if at most one call is under way at a time. |
| NonceOverlap.OverlapInRange | packages/crypto/index.mjs:128-138 | However many calls overlap, no index used reaches the limit or lies before the usage at the start: what overlap breaks is that indices are used once. |
| RateLimiter.Limiter.SweepExpired | packages/cli/runtime.mjs:1073-1087 | The sweep loop leaves exactly the swept table. |
| RateLimiter.Limiter.Allow | packages/cli/runtime.mjs:1090-1106 | One call is the step of table and answer that the run lemmas are about. |
| RateLimiter.SweptExactly | packages/cli/runtime.mjs:1073-1087 | An entry is dropped if and only if it is expired and among the first `sweepBudget`. |
| RateLimiter.OthersExactly | packages/cli/runtime.mjs:1073-1106 | What a call does to the windows of other keys: nothing below the threshold, and from there on it drops those that are over among the first `sweepBudget`. The table keeps its order, with a new key last (`RateLimiter.SweptOrder`, `RateLimiter.PutOrder`). |
| RateLimiter.SweepRefines | tests/rate-limiter.test.mjs:268-328 | While no window that is over opens again, and so whenever the clock does not go back, for every threshold and budget every answer is that of the key's own unswept window: sweeping changes nothing and keys do not affect each other. |
| RateLimiter.SweepNeedsSteady | packages/cli/runtime.mjs:1073-1106 | A sequence of clock readings lets no sweep setting change any answer if and only if no window that is over at one of them is open at a later one. |
| RateLimiter.SweepChangesAnswer | packages/cli/runtime.mjs:1073-1106 | Otherwise a sweep in between admits a call that the unswept limiter refuses. |
| RateLimiter.WindowExact | packages/cli/runtime.mjs:1096-1105 | In the window a call opens, a constant limit admits exactly the first max(1, limit) calls of the key. |
| RateLimiter.IntervalBound | tests/rate-limiter.test.mjs:268-328 | No interval as long as a window admits a key more than 2m - 1 times, m the largest limit asked for (at least one). |
| RateLimiter.IntervalBoundTight | packages/cli/runtime.mjs:1096-1105 | For every m and every window of two ticks or more some run reaches 2m - 1. |
| KeyFetcher.Fetcher.Get | packages/ssrf/index.mjs:215-232 | A call answers and changes the state as the step function says. |
| KeyFetcher.GetExactly | packages/ssrf/index.mjs:215-232 | Every answer in terms of what happened: the document of the latest success while it is younger than its time to live; else a wait while the latest fetch has not ended; else a new fetch, unless one started less than a cooldown before; then the latest document, or a refusal when there is none. |
| KeyFetcher.OneAnswer | packages/ssrf/index.mjs:215-232 | These rules leave exactly one answer. |
| KeyFetcher.Fetcher.Fulfilled | packages/ssrf/index.mjs:233-237 | A finished fetch replaces the cache and its time. |
| KeyFetcher.Fetcher.Rejected | packages/ssrf/index.mjs:238-241 | A failed fetch changes neither cache nor attempt time. |
| KeyFetcher.FetchesSpaced | tests/ssrf.test.mjs:148-215 | Any two outbound fetches of a run start at least the cooldown apart, whether or not they succeed. |
| KeyFetcher.FetchRate | packages/ssrf/index.mjs:225-232 | However many calls arrive, n outbound fetches take at least n - 1 cooldowns. |
| KeyFetcher.OneInFlight | packages/ssrf/index.mjs:220-222 | Fetches started exceed fetches ended by one or none. |
| KeyFetcher.InflightMeaning | packages/ssrf/index.mjs:220-241 | A fetch is in flight if and only if there was one and the latest has not ended. |
| KeyFetcher.ServedIsFresh | tests/ssrf.test.mjs:148-215 | What is served is the latest successful document, younger than max(ttl, cooldown) unless a fetch has failed since. |
| KeyFetcher.StaleServedIff | packages/ssrf/index.mjs:215-232 | A document as old as both durations is served if and only if the latest fetch failed and started less than a cooldown ago. |
| KeyFetcher.FailureServesStale | packages/ssrf/index.mjs:225-228 | After a failure a document of any age may be served. |
| TokenVault.MutableView.Set | satellites/store-redis/token-vault.mjs:109-113 | A write keeps the tracked diff exact. |
| TokenVault.MutableView.Delete | satellites/store-redis/token-vault.mjs:114-118 | A deletion keeps the tracked diff exact. |
| TokenVault.MutableView.TakeDiff | satellites/store-redis/token-vault.mjs:157-163 | The tracked changes are exactly what turns the snapshot into the view. |
| TokenVault.MutableView.PruneExpired | packages/token-vault/index.mjs:135-144 | The pruning loop leaves exactly the live records and counts the others. |
| TokenVault.MutableView.Perform | packages/token-vault/index.mjs:221-248 | Tokenise, purge and purge-expired leave the map and the answer the history lemmas are about; a tokenise call that needs an envelope and cannot make one throws. |
| TokenVault.Attempt | satellites/store-redis/token-vault.mjs:151-163 | One attempt on a snapshot yields a diff that, applied to that snapshot, is the operation's effect, unless it throws. |
| TokenVault.ReplayAt | packages/token-vault/index.mjs:211-248 | A token's record depends only on the operations about it and on expiry: tokens do not affect each other. |
| TokenVault.RecordExactly | packages/token-vault/index.mjs:135-144 | A token has a record if and only if its last operation issued or renewed it and no later one came after its retention; it expires one retention after that operation. |
| TokenVault.ReuseExactly | packages/token-vault/index.mjs:222-229 | A tokenise call reports reuse if and only if an earlier call keeps the token and its retention has not passed. |
| TokenVault.PurgeExactly | packages/token-vault/index.mjs:340-361 | A purge reports whether an earlier call keeps the token and its retention has not passed; a purge of the expired counts the tokens that are kept and whose retention has passed. |
| TokenVault.RecordMade | packages/token-vault/index.mjs:224-247 | Every record was made whole by one call that did not reuse, its envelope expires one retention after that call, and every later call for its token reused it. |
| TokenVault.MadeOnce | packages/token-vault/index.mjs:224-247 | Only one call made a record. |
| TokenReveal.OpensIff | packages/crypto/index.mjs:194-217 | The vault's envelope opens if and only if it has not expired, neither context has colliding keys, and the contexts agree up to normalisation and key order. |
| TokenReveal.StoredContextAgrees | packages/token-vault/index.mjs:237-246 | A context that went through JSON agrees with the one sealed if and only if that one holds no `undefined`. |
| TokenReveal.RevealExactly | packages/token-vault/index.mjs:250-300 | What reveal answers after any history: denied under the disabled policy, whatever the vault holds (`TokenReveal.DisabledTellsNothing`). Otherwise unknown with no kept call, expired one retention after the last call that kept the token, and in between the value of the call that made the record, exactly until its envelope expires and for a context that fits that call's: with a context of the caller's own, one whose normalised tree agrees; with none, or a falsy one, if that call's held no `undefined`. |
| TokenReveal.TokenizeReveal | packages/token-vault/index.mjs:250-300 | A kept token reveals the value it was issued for if and only if less than one retention has passed since the call that made its record and the context fits that call's. |
| TokenReveal.UndefinedNeverReveals | packages/token-vault/index.mjs:237-275 | A token whose context held `undefined` is never revealed without a context of the caller's own. |
| TokenReveal.RenewedNotRevealable | packages/token-vault/index.mjs:222-248 | A token made at 0 and renewed at r is kept until 2r and does not reveal from r on. |
| TokenReveal.Detokenize | packages/token-vault/index.mjs:306-338 | The loop restores exactly the tokens asked for that reveal without a context of the caller's own, whatever the policy on revealing, each as that value. |
| TokenReveal.RestoredExactly | packages/token-vault/index.mjs:302-338 | Which tokens these are after any history, and as what, in terms of the calls: kept and not expired, within one retention of the call that made the record, whose context held no `undefined` and normalises. |
| TokenVault.OneRecordEach | tests/token-vault-store-seam.test.mjs:192-249 | In deterministic mode each (type, plaintext) has at most one record at any time. |
| TokenVault.OneRecordPerValue | tests/token-vault-store-seam.test.mjs:192-249 | Without purge or expiry the vault holds a record for a (type, plaintext) if and only if it was asked for, and the record holds that value. |
| TokenVault.RepeatReuses | tests/token-vault-store-seam.test.mjs:192-249 | Without purge or expiry a repeated value, and only a repeated value, is reported as reused, and always gets its derived token. |
| FencedTokenStore.FenceExact | satellites/store-redis/token-vault.mjs:69-79 | When the version fence passes, the snapshot read after the version is the stored map. |
| FencedTokenStore.NextKeepsInv | satellites/store-redis/token-vault.mjs:148-184 | Every step of any number of calls, failures after the commit included, keeps the stored map the serial replay of the commits. |
| FencedTokenStore.Serializable | satellites/store-redis/token-vault.mjs:148-191 | In every state of every run the stored map, which a read returns, is the serial replay of the commits; a call that returned is committed exactly once, after it began, with the answer of the serial history; no call is committed twice, and one that gave up on conflicts is not committed. |
| FencedTokenStore.RealTimeOrder | satellites/store-redis/token-vault.mjs:148-184 | A call that begins after another has returned is committed after it. |
| FencedTokenStore.GivesUpOnlyUnderContention | satellites/store-redis/token-vault.mjs:173-182 | A call that gives up has seen at least 64 other commits since it began and changed nothing. |
| FencedTokenStore.RejectedExactly | satellites/store-redis/token-vault.mjs:149-184 | A call starts over after each of its first 63 rejections and gives up at the sixty-fourth. |
| FencedTokenStore.AloneSucceeds | satellites/store-redis/token-vault.mjs:149-184 | From every state of every run, a call in progress with a retry left does its work on the stored map and returns the answer if nothing else runs, whatever it has read before. |
| FencedTokenStore.NewCallSucceeds | satellites/store-redis/token-vault.mjs:149-184 | In every state of every run a new call can begin, and by itself succeeds. |
| FencedTokenStore.FailedMayBeCommitted | satellites/store-redis/token-vault.mjs:148-191 | A call that fails after the script ran has changed the stored map. |
| FencedTokenStore.FailedCommittedIff | satellites/store-redis/token-vault.mjs:148-191 | In every run a failed call is among the commits if and only if the script had applied its diff in an earlier state. |
| FencedTokenStore.ConcurrentDeterministic | tests/token-vault-store-seam.test.mjs:192-249 | Any interleaving of deterministic tokenise calls leaves exactly one record per value, under the token every call for it returned. |
| Spans.RemoveOverlaps | packages/filter/index.mjs:1034-1054 | The loop keeps what the specification accepts of the sorted spans. |
| Spans.RemoveOverlapsMeaning | packages/filter/index.mjs:1034-1054 | Kept spans are detected ones, disjoint and in order, and the start of every other span lies under a kept one that precedes it. |
| StreamProtector.TransformString | packages/core/index.mjs:508-529 | The replacement loop computes the rewritten text. |
| Rewriting.TransformedMeaning | packages/core/index.mjs:508-529 | Replacing disjoint spans leaves every unit outside the replaced ones, in order, and none inside them, with each mask where its span starts. |
| Replacing.ChosenMeaning | packages/core/index.mjs:508-529 | The spans replaced, given in any order, are disjoint and in order of their starts, and every other span starts under one that starts no later. |
| Replacing.TransformedAnyOrder | packages/core/index.mjs:508-529 | What comes out for spans in any order, position by position: the masks of these spans where they start, and every unit outside them. |
| Replacing.WholeLeaf | packages/filter/index.mjs:500-513 | For spans found in a leaf and detections of the whole leaf behind them: the output, and that nothing of the leaf comes out if and only if no span that is replaced starts it, or those found in it hide it all. |
| Replacing.EncodedEscapes | packages/filter/index.mjs:490-513 | An address inside the leaf and one at its start, each with a card number found by decoding: the first leaf becomes one mask, of the second all behind the address comes out. |
| StreamProtector.Protector.Push | packages/core/index.mjs:191-208 | A push emits and holds what the step function says. |
| StreamProtector.Protector.Flush | packages/core/index.mjs:210-217 | A flush emits the protected tail and empties the buffer. |
| StreamProtector.Protector.Handle | packages/stream-filter/index.mjs:36-164 | A delta is pushed, and a terminating frame flushes the tail. |
| StreamProtector.ProtectStream | packages/stream-filter/index.mjs:36-164 | Pushing the deltas in turn, flushing at every terminating frame and at the end, and stopping at the first block, is the stream function. |
| StreamProtector.CommitCutsIff | packages/core/index.mjs:191-208 | The commit point cuts a detected span if and only if a span that ends by the limit strictly contains the least start among those that end after it. |
| StreamProtector.CommitUncut | packages/core/index.mjs:197-201 | It cuts none when spans are disjoint but for ones that cover the whole text. |
| StreamProtector.DefaultEngineUncut | packages/filter/index.mjs:500-592 | It cuts none that the default filter engine returns: spans with overlaps removed, or whole-leaf spans instead, followed by whole-leaf spans from decoding. |
| StreamProtector.OverlapMayBeCut | packages/core/index.mjs:191-208 | With an engine that returns overlapping spans a push cuts a span and emits its beginning unprotected. |
| StreamProtector.HeldBound | packages/core/index.mjs:96-99 | With spans of at most n units, fewer than maxMatch + n units stay held. |
| StreamProtector.StreamConserves | packages/core/index.mjs:191-217 | For every detector, chunking and placement of terminating frames the committed segments are the stream, unit for unit. |
| StreamEquivalence.CleanSplit | packages/core/index.mjs:131-150 | A text whose matches are those of two pieces may be protected piece by piece, with the same text and the same block decision. |
| StreamEquivalence.CommitStaysUncut | packages/core/index.mjs:191-208 | For a rule whose matches are disjoint and fit the hold-back, what is committed now stays outside every match, whatever text follows. |
| StreamEquivalence.StreamingIsOneShot | packages/core/index.mjs:96-99 | For a detector with bounded look-ahead, however the text between terminating frames is cut into deltas, the stream is blocked if and only if one of these texts would be, and otherwise emits exactly what they would become.It is a sufficient condition on rules; the exact one is `StreamExactness.OneShotExact`. |
| StreamExactness.OneShotExact | packages/core/index.mjs:185-217 | For every detector of disjoint, non-empty matches, with any rules, lengths and look-around: streaming equals one-shot protection for every policy and chunking if and only if, for every text and continuation, the matches of the whole are those of what is committed and of the rest. |
| StreamMerging.TogetherExact | packages/filter/index.mjs:557-634 | So it is for any list of rules with validators, whose matches are merged by the removal of overlaps. |
| StreamEquivalence.OneShotWhole | packages/stream-filter/index.mjs:36-164 | Without terminating frames that is the whole text in one piece. |
| StreamPatterns.SearchBounded | packages/core/index.mjs:96-99 | Leftmost search for any fixed-length pattern whose context decides nothing meets the assumptions when a match has at most one unit more than the hold-back. |
| StreamPatterns.LongMatchEscapes | packages/core/index.mjs:96-99 | A match of two units more than the hold-back length, or longer, with or without context before it, can pass unprotected although it is replaced in one piece. |
| StreamPatterns.HoldBackExact | packages/core/index.mjs:96-99 | For an engine of one rule of fixed length, with any context before its match, found in some text: streaming equals one-shot protection for every policy and chunking if and only if a match has at most one unit more than the hold-back and the context decides nothing. |
| StreamLookAround.LookAroundExact | packages/core/index.mjs:96-99 | For an engine of one rule of fixed length that looks behind and ahead any bounded number of units, whose context only forbids and whose matches overlap no text that would match by itself: streaming equals one-shot protection for every policy and chunking if and only if a match has at most one unit more than the hold-back and no context decides anything. |
| StreamPatterns.IgnoringIsContextFree | packages/core/index.mjs:96-99 | The context decides nothing for a rule that does not look at it. |
| StreamPatterns.LookBehindEscapes | packages/core/index.mjs:191-217 | For every rule that needs text before its match, a match that the commit point falls into is streamed out unprotected though it fits the hold-back; the rule is proper and local, and separability alone fails. |
| StreamPatterns.AssignmentEscapes | packages/filter/index.mjs:245-258 | So is the value of an assignment, for every key, value and hold-back, with the value at most as long. |
| StreamPatterns.PasswordEscapes | packages/filter/index.mjs:245-258 | With the default hold-back: `password: `, a secret of twenty units and 240 blanks. |
| StreamBlocking.BlockingExact | packages/core/index.mjs:191-217 | For every detector and stream: it is blocked under every policy that would block one of its texts in one piece if and only if each match of these texts, up to type and text, is a match of one of the pieces the stream protects. |
| StreamBlocking.OneDeltaExact | packages/core/index.mjs:191-217 | A text sent as one delta is blocked under every policy that would block it in one piece if and only if each of its matches, up to type and text, is found in what its push commits or in what it holds. |
| StreamBlocking.KeptIsBlocked | packages/core/index.mjs:191-217 | If no commit loses a match of the whole, whatever text follows, every stream is blocked under every policy that would block its text in one piece. |
| StreamBlocking.KeepingNotNeeded | packages/core/index.mjs:191-217 | That is not needed: an engine of which a commit loses a match blocks all the same in every stream what it blocks in one piece. |
| StreamBlocking.BlockedIsBlocked | packages/core/index.mjs:191-217 | With a detector, of one rule or of several, that loses no match by a cut: if the text up to some terminating frame, or to the end, would be blocked, the stream is, however it is cut. Which detectors do is the subject of the rows on rules and merging. |
| StreamCoverage.HiddenIsHidden | packages/core/index.mjs:191-217 | With such a detector every unit that a stream shows is shown when its text is protected in one piece. |
| StreamCoverage.ShownComesOut | packages/core/index.mjs:131-150 | The units shown are exactly those that come out of a text, with the masks. |
| StreamCoverage.StreamComesOut | packages/core/index.mjs:191-217 | The text of a stream that is not blocked is, position by position, its masks and exactly the units it shows, for every detector of disjoint matches, chunking and placement of terminating frames. |
| StreamRules.FinderLocal | packages/filter/index.mjs:601-634 | The matches of a rule with a validator, of any lengths and with any look around them, change with more text only within reach of its end; a hold-back one unit short of the reach sees them whole. |
| StreamRules.FinderHalves | packages/filter/index.mjs:601-634 | A rule whose context only forbids, and whose bare texts do not overlap its matches from before, finds each match of a text in the half it lies in, wherever the text is cut. |
| StreamMerging.KeptIsFirst | packages/filter/index.mjs:1034-1054 | Of matches with one extent only the one of the first rule is kept: the sort is stable. |
| StreamMerging.MergedLocal | packages/filter/index.mjs:557-634 | Merging by the removal of overlaps keeps the hold-back long enough: what is kept near the start of a text does not depend on what follows. |
| StreamMerging.MergingExact | packages/filter/index.mjs:1034-1054 | Detectors that lose no match each by themselves lose none together if and only if no cut outside the kept matches lets a new match push out a kept one. |
| StreamMerging.ForbiddingGuarded | packages/filter/index.mjs:557-634 | Rules that only forbid and whose matches stand apart lose no match together when no text that matches only with less around it covers a match that is kept. |
| StreamDefaults.DigitRunsGuarded | packages/filter/index.mjs:290-297 | Any rules for runs of n digits not next to a digit or dash, with any n below the hold-back and any validators, lose no match together. |
| StreamDefaults.RunNeverOneShot | packages/filter/index.mjs:290-297 | With a rule for runs of n digits not next to a digit or dash, streaming is not one-shot protection for any hold-back: of a longer run, a part that is committed by itself may match. |
| StreamDefaults.MergingLoses | packages/filter/index.mjs:1034-1054 | `12` not after `0`, and `23`: each rule alone loses no match for any hold-back, but together the two let `0123` out that is blocked in one piece. |
| StreamDefaults.HiddenEscapes | packages/filter/index.mjs:1034-1054 | So with any two rules of which one matches only once the text before it is emitted, and then covers the start of the other's match. |
| StreamDefaults.PhoneHidesCard | packages/filter/index.mjs:60-88 | The telephone and the card rule, whatever their validators: a card number that overlaps a telephone number behind `+` is blocked in one piece and streamed out as it is. `010.1234.4242 4242 4242 4242` with 228 blanks, as long as the default hold-back, is such a text (`StreamDefaults.DefaultInput`). |
| Frames.Splitter.Push | packages/stream-filter/index.mjs:177-189 | The loop returns the complete non-blank frames and keeps the partial one. |
| Frames.Splitter.End | packages/stream-filter/index.mjs:191-196 | The remainder is returned unless blank. |
| Frames.SplitConserves | packages/stream-filter/index.mjs:171-198 | The frames and the partial frame, put together, are the text. |
| Frames.DeliveredExactly | packages/stream-filter/index.mjs:177-196 | A frame is delivered if and only if it has a unit that is not white space (`Whitespace.SpaceExactly` lists them), and frames are delivered in order. |
| Frames.SplitResumes | packages/stream-filter/index.mjs:171-198 | Splitting a text and then its partial frame with more text gives the frames of both together. |
| Frames.DeliveredWhole | packages/stream-filter/index.mjs:171-198 | The frames delivered do not depend on where the stream is cut into chunks, delimiters split over chunks included. |
| WorkerPool.NextKeeps | scripts/bench-throughput.mjs:143-171 | Every step keeps every issued index in exactly one place and all counters exact. |
| WorkerPool.NoIndexLost | scripts/bench-throughput.mjs:135-171 | At any moment each issued index is at one worker or completed once, and at most `concurrency` requests are in flight. |
| WorkerPool.AllDone | scripts/bench-throughput.mjs:135-182 | When all workers have stopped, every index below `total` has completed exactly once. |
| WorkerPool.ExactSample | scripts/bench-throughput.mjs:157-165 | A finished run without errors samples exactly the latencies after the first `warmup` completions, in order: max(0, total - warmup) of them. |
| WorkerPool.RunLength | scripts/bench-throughput.mjs:143-175 | Every interleaving ends after exactly 2 * total + concurrency steps, and until then some worker can move. |
| Percentile.NearestRank | scripts/bench-throughput.mjs:105-110 | For 0 < p <= 100 the percentile is observed and is the least value with at least p percent of the samples at or below it. |
| Percentile.AtTheEnds | scripts/bench-throughput.mjs:105-110 | An empty sample gives zero; p at or below 0 gives the least value, p at or above 100 the greatest. |
| Percentile.MonotoneInP | scripts/bench-throughput.mjs:105-110 | Percentiles do not fall as p rises. |
| Percentile.OrderIndependent | scripts/bench-throughput.mjs:112-124 | Completion order does not matter. |
| Manifest.GenerateManifest | scripts/release-checksums.mjs:42-48 | The loop prints the entries. |
| Manifest.ParseLineGreedy | scripts/release-checksums.mjs:33-38 | A trimmed line is accepted if and only if it reads as hash, white space and one-line name, and the reading taken has the most white space. |
| Manifest.RoundTrip | scripts/release-checksums.mjs:24-48 | A printed manifest parses back to its entries if and only if every entry is 64 lowercase hex digits and a non-empty one-line name without white space at its ends. |
| Manifest.HashExactly | scripts/release-checksums.mjs:33-38 | A hash is 64 digits or letters from `a` to `f`; a printed line has two blanks behind it (`Manifest.LineFormat`). |
| Manifest.Reprint | scripts/release-checksums.mjs:24-48 | Printing what any accepted text parsed to, and parsing again, gives the same entries. |
| PeerRange.Cmp | scripts/check-satellite-peer-ranges.mjs:43-49 | The comparison loop is the lexicographic order, zero only on equal versions. |
| PeerRange.Satisfies | scripts/check-satellite-peer-ranges.mjs:61-72 | The check combines the parsed range and version as specified, failing on any other shape. |
| PeerRange.VersionRoundTrip | scripts/check-satellite-peer-ranges.mjs:33-37 | Printed versions parse back. |
| PeerRange.ParseVersionExactly | scripts/check-satellite-peer-ranges.mjs:33-37 | A version is read from exactly the texts of three numerals with dots between them, as their values. |
| PeerRange.ParseRangeExactly | scripts/check-satellite-peer-ranges.mjs:61-72 | A range is read from exactly the texts of `>=`, a version, some white space, `<` and a version, with white space around them. |
| PeerRange.SatisfiesExactly | scripts/check-satellite-peer-ranges.mjs:61-72 | On printed versions and ranges the check is lower <= v < upper (item 11 of Semantic Versioning 2.0.0 without pre-releases). |
| PeerRange.Convex | scripts/check-satellite-peer-ranges.mjs:61-72 | What lies between two accepted versions is accepted. |
| DetectionGate.ScoreCorpus | scripts/bench-detection.mjs:55-84 | The scoring loops give exactly the scored and the labelled types an entry, and every entry is the count over the corpus. |
| DetectionGate.CountsExactly | scripts/bench-detection.mjs:48-84 | True positives are the expected-present labels of the texts in which the engine finds the type, false negatives those of the other texts, and false positives the expected-absent labels of the texts in which it finds it. |
| DetectionGate.CorpusConserves | scripts/bench-detection.mjs:48-54 | tp + fn is the number of expected-present labels, and fp never exceeds the expected-absent ones. |
| DetectionGate.CorpusAdds | scripts/bench-detection.mjs:55-84 | Scoring concatenated corpora adds the counts. |
| DetectionGate.CorpusOrderFree | scripts/bench-detection.mjs:55-84 | Case order does not matter. |
| DetectionGate.RatiosExactly | scripts/bench-detection.mjs:94-101 | Precision is the share of the expected-present labels among those found, recall the share of those found among the expected-present ones; without any, both are one. |
| DetectionGate.CompareToBaseline | scripts/bench-detection.mjs:122-139 | The regressions listed are exactly the metrics of shared types that fell, each once with both values; the gate passes if and only if there is none; new types are exactly those without a baseline, each once. |
| DetectionGate.PassBounds | scripts/bench-detection.mjs:122-139 | A passing type has lost less than a millionth of either ratio. The epsilon never matters (`DetectionGate.RegressesExactly`), and scores pass against a baseline of their own (`DetectionGate.OwnBaselinePasses`). |
| DetectionGate.NoWorsePasses | scripts/bench-detection.mjs:55-139 | On one corpus, an engine that hits every present label the pinned one hit, and no absent label it did not, passes the gate against the pinned baseline. |
| DetectionGate.RecallGateExact | scripts/bench-detection.mjs:120-157 | The gate reports exactly the losses among n present labels if and only if n is at most a million. |
| DetectionGate.LostRecallListed | scripts/bench-detection.mjs:55-157 | On one corpus with at most a million present labels of a type, its recall is listed if and only if the live engine hits fewer of them. |

## Left out

- AuditVerify.VerifyAuditChain: a line is blank, malformed or a parsed value; parsing JSON, reading files and the anchor count reported with an accepted log are not modelled.
- AuditVerify.ReadAnchors: anchor sequences are integers; fractional ones are not modelled.
- ExclusiveAuditStore.NeverForks: a record or an anchor is written whole or not at all, and a write that is reported as failed has not happened.
- AuditRecords.ChainLinked: sequence numbers are unbounded, so nothing is said beyond 2^53.
- Canonical.CanonicalUnambiguous: non-integer numbers are printed texts; NaN, infinities, dates and `toJSON` are not JSON values here.
- NonceBudget.Provider.Encrypt: a write of the key file happens whole or not at all, and the usage warning is not modelled.
- CryptoAad.V2OpensIff: the choice of key and algorithm by an envelope's header is not modelled; the right key is used.
- NonceBudget.BudgetSafety: a call runs to its end before the next one on any provider; overlap on one provider is `NonceOverlap`.
- KeyFetcher.Fetcher.Get: the checks of the URL and of the two durations at construction are not modelled; the results hold for every integer.
- RateLimiter.Limiter.Allow: the clock is a parameter, and limits are integers.
- TokenVault.MutableView.Perform: metadata, creation times and the audit events of the vault are not modelled, one clock reading stands for the several of a call, and tokens named like members of `Object.prototype` are not told apart.
- TokenReveal.Detokenize: one clock reading stands for those of a call, and the count of skipped tokens, which is only audited, is not modelled.
- FencedTokenStore.Serializable: of what `JSON.stringify` does to a record only its effect on the context is modelled.
- StreamEquivalence.StreamingIsOneShot: detection and policy depend only on the text and the type; whole-leaf spans from decoding are outside its assumptions.
- StreamPatterns.HoldBackExact: one rule of fixed length that does not look ahead; rules that look ahead have `StreamLookAround.LookAroundExact`; rules of varying length, and several, are decided by `StreamExactness.OneShotExact` and covered by `StreamMerging.ForbiddingGuarded`, without a closed bound on lengths.
- StreamMerging.TogetherExact: rules limited to one direction of traffic, the skipping of the engine's own markers, and texts changed by Unicode normalisation are not modelled.
- StreamDefaults.PhoneHidesCard: of the telephone and the card rule only the shape of 13 and of 19 units in the example is modelled; the text of `StreamDefaults.DefaultInput` holds no match of another shape of theirs.
- StreamPatterns.PasswordEscapes: the pattern has the length of the secret; the default rule takes the longest run of twelve or more units, which on this text is the same span.
- StreamProtector.ProtectStream: text frames and the other leaves of a frame, which are protected on their own and can block the stream too, are not modelled.
- StreamProtector.Protector.Push: the tallies of detections, and pushes that overlap, are not modelled.
- Percentile.NearestRank: exact arithmetic; floating-point rounding and the rounding of reported values are not modelled.
- PeerRange.SatisfiesExactly: numbers are unbounded.
- DetectionGate.ScoreCorpus: gap reports and the totals line are not modelled, and the engine is a function of the text.
- Regular-expression rules, checksums of national identifiers, NFKC itself, SHA-256, AES-GCM and HMAC are not modelled.
- File and Redis locks are not modelled: the shared stores are proved correct without them, and the exclusive store by its queue alone.
- The HTTP proxy, TLS, plugin sandbox, signing, and parsing of frame contents are I/O and platform behaviour.
- The check that files have the hashes in a manifest, the filtering of local packages out of the software bill of materials, and the checks of packages and documents for unwanted paths, dependencies, stale names and dates compare each item of a list with a fixed rule; nothing in them depends on order or earlier items.
