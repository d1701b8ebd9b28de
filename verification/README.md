# Remote attestation, verified

This project models the parts of a Go library for TPM-based remote attestation in which
the trust decisions are made, and proves what they establish:

- the TCG event log engine: the two binary formats, the serialiser that concatenates logs,
  the per-PCR hash-chain replay, the merge over banks, and the retry loop with its
  workarounds (`LogFormat`, `LogLayout`, `EventLogs`, `Workarounds`, `Append`, `AppendExamples`,
  `Replay`, `ReplayMeaning`, `Merge`, `Sorting`);
- quote verification for TPM 1.2 and TPM 2.0, which flags and reorders the caller's PCRs in
  place, and its composition with the event log (`Quotes`, `QuoteBinding`, `QuoteMeaning`,
  `Attestation`, `Forgery`);
- the boot-state machines over verified events and the parsers below them (`UefiEvents`,
  `UefiLayout`, `SecureBoot`, `SecureBootMeaning`, `SipaReaders`, `WinEventLog`, `WinProperties`,
  `SipaMeaning`);
- three smaller algorithms: the symmetric part of a TPM 1.2 activation challenge and its
  inverse (`Challenge12`), the truncation of a digest for an ECDSA key (`Ecdsa`), and reading
  all PCRs from a TPM that answers in part (`ReadPcrs`).

`Bytes`, `NetworkOrder`, `Arithmetic` and `Hashing` hold what the others share. Code that
changes state in the repository is a method here, with its loops, buffers and objects, and is
proved against a function or predicate that says what it computes; the properties below are
then proved of those functions for all inputs. What the functions themselves mean is pinned by
`LogLayout` and `UefiLayout`, which say where each field stands in the bytes, and by
`ReplayMeaning`, `Workarounds`, `QuoteMeaning`, `SecureBootMeaning` and `SipaMeaning`, which tell
the results by type numbers, names, positions and the values a register passes through.

Hash functions are arbitrary functions with the right digest length. Injectivity is never
assumed, since a fixed digest length contradicts it: where a result depends on collision
resistance, the proof computes the collision or the preimage (`Replay.FindBreak`). RSA
signatures, X.509 certificates, UTF-16, TPM structures and block ciphers are parameters.

Integers are unbounded with the widths of the code written out: `Narrow32` where the code
converts a length to `uint32`, `% 0x100` where an algorithm ID passes through the eight-bit
`HashAlg`. Slice lengths are those of a 64-bit machine.

## Where the code and its comments differ

The model follows the code.

- attest/secureboot.go:91 says that the SecureBoot variable is 0 or 1. The code (line 168)
  reads every byte but 1 as disabled: `SecureBoot.ByteTwoAccepted` is an input that shows it,
  `SecureBoot.OtherBytesDisable` and `SecureBoot.EnabledMeans` say what the byte means.
- attest/attest.go:439-443 says that the log's digests are authentic once all quotes and the
  log verify. The code accepts PCRs of which that does not follow: two values for one index of
  a bank, of which only the last is compared with the quote while both are flagged
  (`QuoteBinding.SecondValueAccepted`), and values of other lengths than the registers have,
  which move between indices (`QuoteBinding.ShiftedValuesAccepted20` and
  `QuoteBinding.ShiftedValuesAccepted12`). `Forgery.ForgedEventReturned` takes the first
  through the whole procedure. The exact condition is `Sound`, one value of the digest's length
  for each index that a quote covers: `QuoteBinding.CoveredValuesIff` proves it in both
  directions, and `Attestation.AuthenticEvents` states what holds with it.
- attest/eventlog.go:764-768: AppendEvents combines logs into a single sequence of events, but
  algorithm IDs are narrowed to eight bits (line 738) and every spec ID entry for an algorithm
  is compared with the bytes left (lines 730-739), so combined logs can differ from their parts
  and parse to other events or none (`AppendExamples.WideIDsAreRewritten`,
  `AppendExamples.WideIDsAreLost`, `AppendExamples.AmbiguousSizesAreLost`).
  `Append.AppendedBytes` and `Append.AppendedParses` give the exact conditions.
- attest/eventlog.go:408 hashes with the PCR's algorithm without asking whether there is one:
  for a PCR without bank the replay can panic where it otherwise returns an error. `Panics`
  says when, and every result above it carries the case.
- attest/internal/events.go:188-198 range-checks event types with a condition that no value
  fails; only the table lookup decides.
- attest/internal/events.go:345-414 bounds a signature list's header size but never skips the
  header's bytes, so lists with a header, as the cited section 31.4.1 of the UEFI specification
  allows, are misread: `UefiEvents.HeaderReadAsHash` is one, and `UefiEvents.ListReadBackIff`
  says that it is exactly those.

## Model

| member | source | states |
|---|---|---|
| `Bytes.U16Of` | attest/eventlog.go:711-721 | A 16-bit number is read least significant byte first. |
| `Bytes.U32Of` | attest/eventlog.go:679-679 | A 32-bit number likewise: the bytes weigh 1, 0x100, 0x10000 and 0x1000000. |
| `Bytes.U64Of` | attest/internal/events.go:244-244 | And a 64-bit number, of whose halves the first is the lower. |
| `Bytes.NarrowWraps` | attest/eventlog.go:682-682 | Conversion to fewer bits keeps the remainder, which with its range says what it gives. |
| `Replay.Extend` | attest/eventlog.go:398-420 | A PCR is extended by the event's first digest of its bank, from zeros and the locality the first time; an absent digest or one not of the PCR's length is refused, and a bank without hash function panics. |
| `Replay.ReplayPCR` | attest/eventlog.go:426-460 | Succeeds exactly when the log explains the PCR's value (`Replays`), and then returns the PCR's measurements in log order; panics exactly when `Panics` says so. |
| `Replay.PanicsAt` | attest/eventlog.go:401-408 | Whether a replay panics is decided by the first event that measures the PCR: no bank, and a digest without bank of the PCR's length. |
| `Replay.PanicsExplainsNothing` | attest/eventlog.go:408-408 | A log that makes the replay panic does not explain the PCR. |
| `Replay.HashlessDigestPanics` | attest/eventlog.go:401-408 | A log of one such digest is an input that panics. |
| `Replay.UnmeasuredReplays` | attest/eventlog.go:456-459 | A PCR that no event measures replays whatever its value. |
| `Replay.FindBreak` | attest/eventlog.go:398-460 | From two different histories with the same final PCR value, computes a collision or a preimage of an initial value; none exactly when digests and starting localities are equal. |
| `Replay.ReplayBindsLog` | attest/eventlog.go:426-460 | Two logs that both explain one PCR value agree on its digest sequence and starting locality, or the hash function is broken by explicit inputs of twice the digest size. |
| `Replay.EventsDigested` | attest/eventlog.go:401-407 | Every digest a successful replay chains has the PCR's length. |
| `ReplayMeaning.EventsForAre` | attest/eventlog.go:432-453 | The events of a replay are those at the positions where the log measures the PCR, in order, with index, type, data and sequence number of the log. |
| `ReplayMeaning.FirstOfIs` | attest/eventlog.go:401-404 | The digest used is the first of the bank in the event. |
| `ReplayMeaning.StartsFromLocality` | attest/eventlog.go:440-449 | The starting locality is the last byte of the last StartupLocality event of 17 bytes before PCR 0 is first measured; zero without one, and for other PCRs. |
| `ReplayMeaning.ReplaysIff` | attest/eventlog.go:398-460 | A log that measures a PCR explains its value exactly when a register that starts from zeros ending in the locality, and is extended by the first digest of its bank in each measurement, all of the PCR's length, ends with that value. |
| `ReplayMeaning.PanicsIff` | attest/eventlog.go:401-408 | A replay panics exactly when the PCR has no bank and the first digest without bank in its first measurement has its length. |
| `ReplayMeaning.FromZeros` | attest/eventlog.go:412-417 | One measurement d explains exactly the hash of as many zeros and d. |
| `ReplayMeaning.FromLocality` | attest/eventlog.go:412-417 | Behind a StartupLocality event ending in l, exactly the hash of zeros, l and d. |
| `ReplayMeaning.NoActionIgnored` | attest/eventlog.go:445-450 | An event of type 3 changes nothing if it is no such event, names another PCR, or stands behind the first measurement of PCR 0. |
| `ReplayMeaning.DigestMeans` | attest/eventlog.go:139-160 | An event matches data exactly when its digest is the data's SHA1 or SHA256 hash. |
| `Sorting.SortIsUnique` | attest/eventlog.go:507-509 | With distinct keys any two sorts of the same events agree, so an unstable sort has no choice. |
| `Merge.ReplayEach` | attest/eventlog.go:474-478 | Panics exactly when the replay of some provided PCR does; otherwise, for every provided index, the first replay recorded as successful is that of the first bank the log explains. |
| `Merge.FindSuccess` | attest/eventlog.go:483-493 | The first successful replay of an index. |
| `Merge.ReplayEvents` | attest/eventlog.go:467-511 | Whatever order the map is visited in: panics exactly when some PCR's replay does; succeeds exactly when no provided index fails in all its banks, with a sorted permutation of the verified events; otherwise reports exactly the failing indices, once each, and all events without digests. |
| `Merge.OrderDoesNotMatter` | attest/eventlog.go:467-511 | Any two outcomes allowed by map and sort order are the same when sequence numbers are distinct. |
| `Merge.VerifiedInLogOrder` | attest/eventlog.go:504-510 | On a log in sequence order the verified events are the measured events of the provided indices, in log order, each with its bank's digest. |
| `ReplayMeaning.FailingIs` | attest/eventlog.go:482-494 | An index fails exactly when it is provided and no PCR provided for it is explained. |
| `ReplayMeaning.FirstBankIs` | attest/eventlog.go:484-491 | The bank chosen for an index is that of the first explained PCR in the slice. |
| `ReplayMeaning.VerifiedEventsAre` | attest/eventlog.go:467-511 | When nothing fails, the verified events are all measurements of the provided PCRs by their positions in the log, each with the first digest of the bank chosen for its index. |
| `ReplayMeaning.UnverifiedAre` | attest/eventlog.go:496-505 | When something fails, all events of the log are reported in order, without digests. |
| `LogFormat.ReadData` | attest/eventlog.go:682-689 | A length-prefixed field is read exactly as the grammar says, with the length compared on 32 bits. |
| `LogFormat.ParseRawEvent` | attest/eventlog.go:677-699 | An event of the SHA1 format is consumed exactly, or refused. |
| `LogFormat.ParseRawDigest` | attest/eventlog.go:724-745 | A digest has the size of the last spec ID entry for its algorithm; every entry for it must fit into what is left. |
| `LogFormat.ParseRawDigests` | attest/eventlog.go:723-747 | The announced number of digests is read, or none. |
| `LogFormat.ParseRawEvent2` | attest/eventlog.go:708-762 | An event of the crypto agile format is consumed exactly, or refused. |
| `LogFormat.ParseSpecIDEvent` | attest/eventlog.go:606-644 | Accepts exactly signature, version 2.0, the announced algorithms and vendor data of the announced length up to the end. |
| `EventLogs.ReadEvents` | attest/eventlog.go:557-566 | The events behind the first are those of the grammar, numbered 1, 2, 3, ... |
| `EventLogs.UsableAlgs` | attest/eventlog.go:535-545 | The algorithms of a log are its spec ID entries for SHA1 and SHA256, in order. |
| `EventLogs.ParseEventLog` | attest/eventlog.go:521-568 | Accepts exactly the grammar of whole logs and returns a new object holding the log it describes. |
| `EventLogs.ParsedWellFormed` | attest/eventlog.go:521-568 | Every parsed log has increasing sequence numbers and only algorithms with a hash function. |
| `LogLayout.Event1Iff` | attest/eventlog.go:661-699 | An event of the SHA1 format is accepted exactly when its data fits (compared on 32 bits), with index, type, digest and data taken from bytes 0, 4, 8 and 32 on. |
| `LogLayout.SpecIDIff` | attest/eventlog.go:581-644 | A spec ID event is accepted exactly when it is the text "Spec ID Event03" with a NUL, minor version 0 and major version 2 in bytes 20 and 21, entries counted in byte 24 and listed from byte 28, and vendor data behind its length up to the end. |
| `LogLayout.DigestIff` | attest/eventlog.go:724-745 | A digest is accepted exactly when the last entry for its ID gives its size, which is not zero, and no entry for its ID is larger than what is left. |
| `LogLayout.DigestHash` | attest/attest.go:405-413 | The low byte of an ID names the hash: 4 for SHA1, 11 for SHA256, none for others. |
| `LogLayout.DigestAt` | attest/eventlog.go:723-747 | Each digest of a written event stands, behind its two-byte ID, where those before it end. |
| `LogLayout.WireAt` | attest/eventlog.go:703-762 | Index, type and count of a written event stand in bytes 0, 4 and 8, the digests from byte 12 on, and the data behind its length. |
| `LogLayout.WireIff` | attest/eventlog.go:708-762 | What is parsed as an event of the crypto agile format is exactly that event as it is written, if its digests can be read. |
| `LogLayout.AlgsOf` | attest/eventlog.go:535-545 | A log has the algorithms 4 and 11 that its entries list. |
| `LogLayout.FormatOf` | attest/eventlog.go:530-555 | The format is decided by the first event: type 3 and at least 28 bytes of data announce the crypto agile format. |
| `LogLayout.SequenceOf` | attest/eventlog.go:552-566 | Events are numbered in order, from 0 in the SHA1 format and from 1 behind a spec ID event. |
| `LogLayout.Sha1Log` | attest/eventlog.go:521-568 | The bytes of a log of two events in the SHA1 format, and what they parse to. |
| `LogLayout.AgileLog` | attest/eventlog.go:521-568 | The bytes of a crypto agile log of one event with two digests, and what they parse to, for all digests. |
| `EventLogs.EventLog.constructor` | attest/eventlog.go:164-170 | A log object holds what it is made of. |
| `EventLogs.EventLog.Clone` | attest/eventlog.go:172-185 | A new object with equal contents. |
| `EventLogs.EventLog.Inject` | attest/eventlog_workarounds.go:43-56 | Appends one event with the next sequence number and a digest in each of the log's algorithms, and changes nothing else. |
| `EventLogs.EventLog.Apply` | attest/eventlog_workarounds.go:24-40 | Injects a suffix into PCR 5, event by event. |
| `EventLogs.ReplayIgnoresOthers` | attest/eventlog.go:429-435 | An appended event never changes whether another PCR replays. |
| `EventLogs.PatchedReplay` | attest/eventlog_workarounds.go:24-56 | No workaround changes whether a PCR other than 5 replays. |
| `EventLogs.PatchedFailing` | attest/eventlog_workarounds.go:64-86 | After a workaround the same indices other than 5 fail, and 5 no longer fails exactly when the suffix makes it replay in some bank. |
| `EventLogs.PatchedRepairs` | attest/eventlog.go:228-239 | Given that PCR 5 fails, a workaround leaves nothing failing exactly when 5 alone failed and the suffix makes it replay. |
| `EventLogs.PatchedPanics` | attest/eventlog_workarounds.go:43-56 | No workaround causes or prevents a panic. |
| `EventLogs.FailureHasEvents` | attest/eventlog_workarounds.go:47-47 | A replay can only fail on a log with events, so injecting never indexes an empty slice. |
| `EventLogs.VerifiesIff` | attest/eventlog.go:222-243 | Verification succeeds exactly when every provided PCR replays, or PCR 5 alone fails and one of the three suffixes added to the log as parsed makes it replay; the log verified then has no failing index. |
| `EventLogs.EventLog.Retry` | attest/eventlog.go:232-238 | One workaround tried on a copy: the receiver is untouched and the result is that of the patched log. |
| `EventLogs.EventLog.Verify` | attest/eventlog.go:222-254 | Panics exactly when the replay of some provided PCR does; else returns the verified events of the effective log (`Effective`) exactly when there is one, and the first error otherwise; workarounds never accumulate and the receiver does not change. |
| `Workarounds.SuffixesAre` | attest/eventlog_workarounds.go:58-86 | The three suffixes by their texts, in order. |
| `Workarounds.PatchedIs` | attest/eventlog_workarounds.go:43-56 | A patched log is the log followed by one event of type 0 in PCR 5 for each text, numbered on from the last event, with the hash of the text in each of the log's algorithms. |
| `Workarounds.RepairsIff` | attest/eventlog_workarounds.go:24-56 | A suffix makes PCR 5 replay exactly when the log has the PCR's bank, every logged measurement has a digest of its length, and its value is that of a register which starts from zeros and is extended by the logged digests and then by the hashes of the texts. |
| `Workarounds.FirstRepairWins` | attest/eventlog.go:228-239 | With only PCR 5 failing, the log verified is the one with the first suffix that repairs it. |
| `Workarounds.VerifiesIffRepaired` | attest/eventlog.go:222-243 | Verification succeeds exactly when nothing fails, or only PCR 5 and one of the suffixes repairs it. |
| `Workarounds.FirstWorkaroundRepairs` | attest/eventlog.go:222-243 | A log of one event, by its bytes, that fails as parsed and verifies with the first workaround. |
| `Workarounds.WorkaroundExample` | attest/eventlog.go:222-243 | Such a log exists: the two register values differ for a hash function that counts extensions. |
| `Append.WriteDigests` | attest/eventlog.go:809-823 | Writes each digest behind its algorithm's ID; refuses exactly digests without a hash. |
| `Append.WriteEvents` | attest/eventlog.go:801-828 | Writes the events of a log in the crypto agile format. |
| `Append.Covered` | attest/eventlog.go:791-799 | Accepts exactly logs whose spec ID entries all occur in the base log. |
| `Append.AppendEvents` | attest/eventlog.go:769-832 | The base log's bytes followed by the re-serialised events of the others, or an error. |
| `Append.AppendedIff` | attest/eventlog.go:769-823 | Logs can be combined exactly when all are crypto agile, list only entries of the base log, and have only digests with a hash function. |
| `Append.WireConsumed` | attest/eventlog.go:708-762 | Parsing an event consumes exactly the bytes that serialising what was parsed writes. |
| `Append.WireRoundTrip` | attest/eventlog.go:708-762 | Parsing a written event gives it back and leaves the rest, whenever its digests have the sizes and the room the reader asks for. |
| `Append.TailIsWire` | attest/eventlog.go:557-566 | The bytes behind the first event of a parsed log are the serialisation of its events. |
| `Append.TailRoundTrip` | attest/eventlog.go:557-566 | A whole run of written events parses back to the same run. |
| `Append.SerializeCanonical` | attest/eventlog.go:801-828 | Re-serialising a parsed log writes its events with the algorithm IDs as eight bits leave them. |
| `Append.AppendedBytes` | attest/eventlog.go:769-832 | The combined log has the length of base plus the others' events, and is that concatenation byte for byte exactly when every algorithm ID is below 256. |
| `Append.AppendedParses` | attest/eventlog.go:764-832 | A combined log below 4 GiB parses to the base's events followed by all the others', renumbered from 1, exactly when the base's spec ID entries size every appended digest as written and leave room for each entry. |
| `Append.AppendRoundTrip` | attest/eventlog.go:764-832 | With one size per algorithm and IDs below 256, appending is concatenation and parses to the concatenated events. |
| `AppendExamples.EventRoundTrip` | attest/eventlog.go:677-699 | Parsing a written event of the SHA1 format, below 4 GiB, gives back its index, type, data and SHA1 digest and leaves the bytes behind it. |
| `AppendExamples.LogRoundTrip` | attest/eventlog.go:521-568 | Parsing a whole crypto agile log, written with a spec ID event and any events that its entries let be read, gives back its algorithms and events. |
| `AppendExamples.OneEventReadIff` | attest/eventlog.go:764-832 | A log of one event, appended to an empty one, comes back exactly when the base's entries let the rewritten event be read. |
| `AppendExamples.WideIDsAreRewritten` | attest/eventlog.go:738-738 | With algorithm IDs 4 and 0x104, a base log and a log that are combined into other bytes than their own. |
| `AppendExamples.WideIDsAreLost` | attest/eventlog.go:738-738 | The same with a digest of 32 bytes for 0x104: the combined log does not parse to the events of both. |
| `AppendExamples.AmbiguousSizesAreLost` | attest/eventlog.go:730-739 | Two entries of the base log for one algorithm: the combined log does not parse to the events of both. |
| `Quotes.PCRsOfBank` | attest/eventlog.go:359-365 | The last value provided for each index of a bank. |
| `Quotes.ConcatSelected` | attest/eventlog.go:367-376 | The values of the selected PCRs in selection order, if all were provided. |
| `Quotes.FlagQuoted` | attest/eventlog.go:388-395 | Flags exactly the PCRs of the quoted bank in place and clears no flag. |
| `Quotes.Validate20Quote` | attest/eventlog.go:325-396 | Succeeds exactly for an authentic quote over exactly the provided PCRs of its bank whose digest is the hash of their values in selection order; flags exactly that bank; on failure nothing changes. |
| `Quotes.BankIndices` | attest/eventlog.go:378-382 | No index is left uncovered exactly when every provided PCR of the bank was selected. |
| `Quotes.MaskBits` | attest/eventlog.go:301-305 | Bit k of the selection bitmap is set exactly when some PCR has index k. |
| `Quotes.ValuesAt` | attest/eventlog.go:301-307 | Each PCR's digest stands in the hashed values behind those of all PCRs before it. |
| `Quotes.SortPCRs` | attest/eventlog.go:296-296 | The caller's slice becomes a permutation sorted by index. |
| `Quotes.CompositeOf` | attest/eventlog.go:295-311 | The composite of section 5.4.1 of the TPM 1.2 structures: bitmap, length and values in slice order; refused exactly when an index is outside 0 to 23. |
| `Quotes.Validate12Quote` | attest/eventlog.go:273-323 | Leaves the slice unchanged for an inauthentic quote and sorted by index otherwise; succeeds exactly when the composite of the sorted PCRs is what was signed; then sets every flag, else changes none. |
| `QuoteMeaning.Verifies20Iff` | attest/eventlog.go:325-386 | A genuine TPM 2.0 quote verifies exactly when the bank's provided PCRs are the selected ones and the hash of their last values, in selection order, is the one that was signed. |
| `QuoteMeaning.Verifies12Iff` | attest/eventlog.go:273-316 | A TPM 1.2 quote verifies exactly when it is genuine, the PCRs are in index order with indices below 24, and bytes 8 to 27 are the hash of selection and values. |
| `QuoteMeaning.GenuineWhenVerified` | attest/eventlog.go:325-357 | A TPM 2.0 quote that verifies is signed by the RSA key over its hash, is a quote, and carries the nonce. |
| `QuoteMeaning.QuoteIsFresh` | attest/eventlog.go:288-290 | A TPM 2.0 quote verifies for one nonce only, a TPM 1.2 quote for another only if its SHA1 hash is the same. |
| `QuoteMeaning.AcceptanceIsFresh` | attest/attest.go:370-394 | Accepted quotes are not accepted for another nonce, whatever the PCRs, unless all are TPM 1.2 quotes and the two nonces collide. |
| `QuoteMeaning.AcceptedAreSigned` | attest/attest.go:370-394 | Every accepted quote is signed by the one attestation key. |
| `QuoteMeaning.FlagsAre` | attest/eventlog.go:388-395 | Verification flags all PCRs for TPM 1.2, those of the quoted bank for TPM 2.0, and changes nothing else. |
| `QuoteMeaning.OneMask` | attest/eventlog.go:305-305 | A PCR selects the bit of its index modulo 8 in the byte of its index divided by 8. |
| `QuoteMeaning.OneBit` | attest/eventlog.go:305-305 | The eight bits weigh 1, 2, 4 up to 128. |
| `QuoteMeaning.CompositeExample` | attest/eventlog.go:267-311 | The bytes of the composite of PCRs 0 and 9, for all values. |
| `QuoteBinding.SignedValuesIff` | attest/eventlog.go:359-376 | The value hashed for a bank's index is that of every entry for it exactly when no index has two values. |
| `QuoteBinding.SelectedAgree` | attest/eventlog.go:367-376 | What is hashed for two slices is the same exactly when each selected index has the same value, for values of one length. |
| `QuoteBinding.FlaggedValuesIff20` | attest/eventlog.go:359-394 | Every PCR a TPM 2.0 quote flags has the value of the register that was signed exactly when the bank has one value for each index, all of the registers' length; else two explicit inputs collide. |
| `QuoteBinding.FlaggedValuesIff12` | attest/eventlog.go:296-321 | Every PCR a TPM 1.2 quote flags has the value of the register that was signed exactly when there is one SHA1 value for each index; else two explicit inputs collide. |
| `QuoteBinding.CoveredValuesIff` | attest/attest.go:341-346 | The same for quotes of either version: what a successful Verify says of the values it flags. |
| `QuoteBinding.QuoteBindsValues` | attest/attest.go:341-346 | Two sound slices that one quote accepts hold the same values at the same indices, or the collision is returned. |
| `QuoteBinding.SecondValueAccepted` | attest/eventlog.go:359-394 | A second value for the signed index, chosen freely, is accepted and flagged. |
| `QuoteBinding.ShiftedValuesAccepted20` | attest/eventlog.go:367-394 | With one value for each index but of other lengths, PCR 0's value is accepted as PCR 1's. |
| `QuoteBinding.ShiftedValuesAccepted12` | attest/eventlog.go:301-321 | The same for TPM 1.2. |
| `Attestation.Verify` | attest/attest.go:354-363 | The validator of the quote's version; the PCRs the quote covers are flagged exactly on success. |
| `Attestation.FlaggedByAt` | attest/attest.go:378-382 | A PCR is flagged after some quotes exactly when it was before or one of them covers it. |
| `Attestation.VerifyAll` | attest/attest.go:370-394 | Quotes are tried in order up to the first that does not verify over the slice its predecessors left; succeeds exactly when there are quotes and a nonce, all verify, and every PCR was flagged or is covered by one of them; flags exactly the PCRs covered by those that verified. |
| `Attestation.AcceptedIff20` | attest/attest.go:370-394 | Without TPM 1.2 quotes, success is a property of the slice as given: every quote verifies over it and every PCR was flagged or is covered. |
| `Attestation.AcceptedIff` | attest/attest.go:370-394 | With distinct indices success is a property of the slice as given, for quotes of either version: every quote verifies over it, in index order for TPM 1.2, and every PCR was flagged or is covered. |
| `Attestation.SoundPermutes` | attest/eventlog.go:296-296 | Whether a slice is sound can be checked before the call: it depends on neither order nor flags. |
| `Attestation.AcceptedBacks` | attest/attest.go:341-346 | After success every PCR was flagged before or is vouched for by a quote that covers it: when the provided PCRs are sound, its value is that of the registers the quote was made of, or explicit inputs collide. |
| `Attestation.MatchedAt` | attest/eventlog.go:493-509 | The verified events at one index are all the log's measurements of it, in order. |
| `Attestation.VerifiedEventsExplain` | attest/eventlog.go:467-511 | For each verified event some provided PCR's digest is the hash chain of exactly the verified events at its index. |
| `Attestation.AuthenticEvents` | attest/attest.go:436-443 | The documented procedure succeeds exactly when the quotes are acceptable, no replay panics and the log verifies; the slice still holds the given PCRs, flagged where a quote that verified covers them; it returns the verified events of the effective log, all PCRs are flagged, and each event's index has a backed PCR whose digest is the hash chain of exactly the returned events there, workaround or not. |
| `Forgery.ForgedEventReturned` | attest/attest.go:436-443 | Without soundness the comment fails: a quote over one value of PCR 0, a second value, and a log of one measurement chosen freely are accepted, and the measurement is returned. |
| `Forgery.ForgeryExample` | attest/attest.go:436-443 | Such inputs exist, with a log that parses from bytes. |
| `UefiEvents.ReadName` | attest/internal/events.go:245-251 | The name's 16-bit units are read exactly. |
| `UefiEvents.ParseUEFIVariableData` | attest/internal/events.go:237-258 | Accepts exactly a header with bounded lengths followed by name and data. |
| `UefiEvents.VariableRoundTrip` | attest/internal/events.go:237-258 | Parsing a written variable of allowed sizes gives back GUID, name and data. |
| `UefiEvents.ParseEntry` | attest/internal/events.go:356-371 | A signature consumes at least 16 bytes and yields one certificate or hash, also when its size wraps around. |
| `UefiEvents.ParseEntries` | attest/internal/events.go:355-387 | The inner loop consumes at least 16 bytes for each signature it yields, for every list size, signature size and offset. |
| `UefiEvents.ParseSignatureList` | attest/internal/events.go:329-416 | For arbitrary bytes at most one signature for every 16 of them. |
| `UefiEvents.ReadEntry` | attest/internal/events.go:375-385 | One signature, consumed as the grammar says. |
| `UefiEvents.ReadEntries` | attest/internal/events.go:355-387 | The inner loop terminates and reads one list's signatures. |
| `UefiEvents.ReadList` | attest/internal/events.go:340-414 | One list with its header, or an error for sizes or types not handled. |
| `UefiEvents.ParseEfiSignatureList` | attest/internal/events.go:329-416 | The nested loops terminate for arbitrary bytes and collect the signatures of all lists in order. |
| `UefiEvents.ListsRoundTrip` | attest/internal/events.go:339-416 | Reading written lists gives all their signatures in order and leaves nothing. |
| `UefiEvents.ListReadBackIff` | attest/internal/events.go:340-414 | A well-sized list of section 31.4.1 of the UEFI specification is read back, with the rest left, exactly when it has no signature header. |
| `UefiEvents.HeaderReadsMore` | attest/internal/events.go:355-387 | With a signature header more signatures are read than the list has. |
| `UefiEvents.HeaderReadAsHash` | attest/internal/events.go:373-387 | A list of one hash with a header of 48 bytes: two hashes are read, the first from the header. |
| `UefiEvents.SignatureListRoundTrip` | attest/internal/events.go:329-416 | Parsing any sequence of well-sized lists without signature headers gives back every certificate and hash in order. |
| `UefiEvents.ParseElement` | attest/internal/events.go:479-505 | A device path element consumes at least four bytes. |
| `UefiEvents.ParseDevicePathElement` | attest/internal/events.go:479-505 | One element, consumed exactly, or an error. |
| `UefiEvents.DevicePath` | attest/internal/events.go:507-526 | The elements up to the end marker or the end of the data. |
| `UefiEvents.ParseEFIImageLoad` | attest/internal/events.go:531-542 | The device path of the announced, bounded length. |
| `UefiLayout.VariableIff` | attest/internal/events.go:220-258 | A variable is accepted exactly with a name of at most 2048 units counted in byte 16 and data of at most a MiB counted in byte 24, and is what stands behind. |
| `UefiLayout.ImageLoadIff` | attest/internal/events.go:472-542 | An image load is accepted exactly with a path of at most 2048 bytes counted in byte 24, which stands from byte 32 on. |
| `UefiLayout.ElementIff` | attest/internal/events.go:479-505 | A device path element is type, subtype, its whole length of 4 to 2048 in two bytes, and the rest of it. |
| `UefiLayout.PathIff` | attest/internal/events.go:507-526 | A device path is read exactly as the elements written one behind the other, up to the first end marker or the end. |
| `UefiLayout.X509Guid` | attest/internal/events.go:33-33 | The GUID of certificate lists, by its numbers. |
| `UefiLayout.Sha256Guid` | attest/internal/events.go:25-25 | The GUID of hash lists, by its numbers. |
| `UefiLayout.ListAt` | attest/internal/events.go:313-324 | Type, list size, header size and signature size of a written list stand in bytes 0, 16, 20 and 24, header and signatures behind. |
| `UefiLayout.ContentsAre` | attest/internal/events.go:354-387 | The i-th entry of a list is read as the i-th certificate or hash. |
| `UefiLayout.HashList` | attest/internal/events.go:329-415 | The bytes of a list of one hash, and what they parse to. |
| `UefiLayout.CertificateList` | attest/internal/events.go:329-415 | The bytes of a list of one certificate, and what they parse to. |
| `UefiLayout.ListRefused` | attest/internal/events.go:329-414 | Lists of other types or announcing more than a MiB are refused; fewer than 28 bytes are no lists. |
| `UefiLayout.AuthorityIff` | attest/internal/events.go:278-303 | An authority has no certificates for the two shim variables, else the one behind an owner GUID, or else the one the whole data holds, then marked. |
| `SecureBoot.HandlePCR7` | attest/secureboot.go:118-220 | One event of PCR 7: accepted exactly when acceptable behind the events before it, with the effect `After7` on the state. |
| `SecureBoot.HandleVariable` | attest/secureboot.go:146-185 | A driver-config variable: unseen, before the separator, measured, and of readable contents. |
| `SecureBoot.HandleAuthority` | attest/secureboot.go:187-216 | An authority: parsable, and measured with or without its last byte. |
| `SecureBoot.HandlePCR2` | attest/secureboot.go:222-248 | One event of PCR 2. |
| `SecureBoot.HandleEvent` | attest/secureboot.go:107-252 | An event of one PCR leaves the other PCR's machine alone, and an error means that its own PCR's events are not acceptable. |
| `SecureBoot.ClassifySource` | attest/secureboot.go:263-275 | A driver came from PCI MMIO exactly when a relative offset range stands at or behind a PCI device in its path. |
| `SecureBoot.RunEvents` | attest/secureboot.go:107-252 | The loop accepts exactly when both PCRs' events are acceptable, and ends in their summaries. |
| `SecureBoot.ParseSecurebootState` | attest/secureboot.go:84-295 | The result is a function of the events of PCR 7 and those of PCR 2 (`VerdictOn`), for every log. |
| `SecureBootMeaning.Accepts7Iff` | attest/secureboot.go:112-220 | A run of PCR 7 is accepted exactly when each event is fine on its own, by type number, name and digest, there is one separator at most with no variable behind it, and no name occurs twice. |
| `SecureBootMeaning.Accepts2Iff` | attest/secureboot.go:222-249 | A run of PCR 2 is accepted exactly when its types are known, its drivers before the separator have device paths, and there is one separator at most, of four zeros. |
| `SecureBootMeaning.EventsAtAre` | attest/secureboot.go:107-110 | The events of a PCR are those with its index, in order. |
| `SecureBootMeaning.FieldsByName` | attest/secureboot.go:133-185 | The lists of PK, KEK, db and dbx are those of the variables of these names, empty without one; enabled and the DMA flag say whether SecureBoot was 1 and whether an action event was seen. |
| `SecureBootMeaning.RefusedIff` | attest/secureboot.go:278-293 | A run with acceptable events is refused exactly when SecureBoot was 1 and there was no authority, or nothing in PK, KEK or db. |
| `SecureBootMeaning.AuthoritiesOf` | attest/secureboot.go:212-216 | The two lists of authorities are those before and behind the separator, the second empty without one. |
| `SecureBootMeaning.CertsAre` | attest/secureboot.go:212-216 | The certificates of a run are those of its authority events, one event after the other. |
| `SecureBootMeaning.HintsAre` | attest/secureboot.go:236-276 | There is a hint for each driver loaded before the separator, in order: PCI exactly when its path has a PCI device and a relative offset range at or behind it. |
| `SecureBoot.InterleavingIsIrrelevant` | attest/secureboot.go:107-250 | Neighbouring events of different PCRs can change places anywhere without changing the result. |
| `SecureBoot.OtherPCRsAreIrrelevant` | attest/secureboot.go:107-110 | Events of other PCRs can be added or removed anywhere. |
| `SecureBoot.AuthoritiesSplit` | attest/secureboot.go:212-216 | The authority certificates before and after the separator are exactly those of the events before and behind it, in order. |
| `SecureBoot.AcceptedEvents` | attest/secureboot.go:85-90 | In an accepted run every event is measured, a separator is four zero bytes, nothing follows it that declares a variable or is a separator, and no variable is declared twice. |
| `SecureBoot.OneSecureBoot` | attest/secureboot.go:151-168 | An accepted run declares SecureBoot at most once. |
| `SecureBoot.EnabledMeans` | attest/secureboot.go:165-168 | Secure boot is enabled exactly when the single SecureBoot variable is the byte 1. |
| `SecureBoot.EnabledNeeds` | attest/secureboot.go:92-95 | Enabled means that SecureBoot was 1, an authority was seen, and PK, KEK and db each list a certificate or hash. |
| `SecureBoot.OtherBytesDisable` | attest/secureboot.go:165-168 | In every run a measured SecureBoot variable of one byte other than 1 can stand for any other such variable without changing the result. |
| `SecureBoot.AloneAccepted` | attest/secureboot.go:165-168 | Such a variable is accepted on its own, as disabled. |
| `SecureBoot.ByteTwoAccepted` | attest/secureboot.go:91-91 | A variable named SecureBoot that holds the byte 2 is accepted, against the comment. |
| `SipaReaders.LimitedRead` | attest/win_events.go:681-690 | Reading through a limit: the limit falls by what the buffer loses, also on a short read. |
| `SipaReaders.ElamStep` | attest/win_events.go:694-741 | One turn of the ELAM loop on the buffer is one turn on the bytes its limit allows; a nested aggregation takes from the outer limit exactly what it consumed. |
| `SipaReaders.LoadedModuleStep` | attest/win_events.go:559-638 | One turn of the module loop, likewise. |
| `SipaReaders.ReadLoadedModule` | attest/win_events.go:544-646 | An accepted module aggregation consumes exactly its announced size and yields its fields, each of its allowed size and refused once it has a value other than zero, empty or false; module versions may repeat. |
| `WinEventLog.WinEvents.ReadBooleanEvent` | attest/win_events.go:342-395 | The five boolean reports change exactly their own field, and the event is consumed exactly. |
| `WinEventLog.WinEvents.ReadBootCounter` | attest/win_events.go:425-436 | A reading that contradicts a non-zero count is refused. |
| `WinEventLog.WinEvents.ReadTransferControl` | attest/win_events.go:438-449 | Cold boot is what the last report says. |
| `WinEventLog.WinEvents.ReadBitlockerUnlock` | attest/win_events.go:451-473 | Unlocks of PCR 12 are recorded in order, those of PCR 13 checked and dropped. |
| `WinEventLog.WinEvents.ReadLoadedModuleAggregation` | attest/win_events.go:544-669 | A module's entry is replaced, with its non-zero address put before those already reported for its hash. |
| `WinEventLog.WinEvents.ReadELAMAggregation` | attest/win_events.go:681-751 | Terminates, and leaves buffer and table as the nested grammar says, also when the errors of nested aggregations are ignored. |
| `WinEventLog.WinEvents.ReadSIPAEvent` | attest/win_events.go:753-788 | Every event accepted or skipped as unknown consumes exactly 8 bytes and its announced size. |
| `WinEventLog.BlockStep` | attest/win_events.go:792-811 | Splitting a block and applying its events is reading it event by event. |
| `WinEventLog.WinEvents.ReadWinEventBlock` | attest/win_events.go:792-811 | A block is accepted exactly when its plain type-length-value split is and every event of it applies; the state is that of applying them in order. |
| `WinEventLog.ParseTaggedEventData` | attest/internal/events.go:156-177 | ID and exactly the announced bytes. |
| `WinEventLog.HandleEvent` | attest/win_events.go:256-326 | One event of PCR 12 or 13 is accepted exactly when its contribution behind the events before it is, and adds just that. |
| `WinEventLog.ParseWinEvents` | attest/win_events.go:239-329 | The result is the fold of all SIPA events that count (`Stream`), for every log. |
| `SipaMeaning.VerdictIs` | attest/win_events.go:239-329 | A log is accepted exactly when every event of PCR 12 and 13 is fine and the SIPA events of its containers, in order, apply to the initial state, which is the result. |
| `SipaMeaning.StreamIff` | attest/win_events.go:249-326 | Fine are tagged events behind their PCR's separator, measured containers before it, and one measured separator "WBCL" in each PCR; nothing else. |
| `SipaMeaning.TaggedIff` | attest/internal/events.go:156-177 | ID and length of tagged data stand in bytes 0 and 4, the data from byte 8 on. |
| `SipaMeaning.BlockOf` | attest/win_events.go:753-811 | A block is type, length and data of its first event, followed by the others. |
| `SipaMeaning.ContainerByte` | attest/win_events.go:796-798 | A container has 1 in the low half of the third byte of its ID. |
| `SipaMeaning.ScalarsMean` | attest/win_events.go:425-449 | Cold boot is what the last transfer of control (0x20003) reports, the boot count the last reading of the counter (0x20002). |
| `SipaMeaning.UnlocksMean` | attest/win_events.go:451-473 | Every unlock (0x20005) but those of PCR 13 is recorded, in order, by the low byte of its number. |
| `SipaMeaning.UvarintOf` | attest/win_events.go:459-459 | The number has seven bits in each byte, least significant first. |
| `SipaMeaning.BooleansMean` | attest/win_events.go:342-395 | The five boolean fields by their type numbers: debugging and test signing when some report is not zero, the others false when some report is zero and unknown without one. |
| `SipaMeaning.SaneIs` | attest/win_events.go:753-788 | Which events are acceptable on their own, by type number and size. |
| `SipaMeaning.ModuleEntry` | attest/win_events.go:633-668 | A module's entry holds the fields of the last report (0x40010003) for its hash. |
| `SipaMeaning.ModuleAddresses` | attest/win_events.go:628-668 | Its addresses are those of all reports for its hash, newest first. |
| `SipaMeaning.ModuleFieldSets` | attest/win_events.go:562-626 | What each field of a report sets, by type number. |
| `SipaMeaning.ModuleFieldSettable` | attest/win_events.go:562-626 | Which fields can be set: those still zero or empty, of the right size and, for the hash algorithm, one of six. |
| `SipaMeaning.ReportEnds` | attest/win_events.go:557-561 | A report ends with its bytes; a partial header is refused. |
| `SipaMeaning.TakenIs` | attest/win_events.go:671-679 | Texts are read in whole units of two bytes, other fields whole. |
| `SipaMeaning.UnitsOf` | attest/win_events.go:673-678 | The units of a text stand in its bytes, least significant first. |
| `SipaMeaning.TextIs` | attest/win_events.go:678-678 | A text is what its units decode to, without one trailing NUL. |
| `SipaMeaning.DriversMean` | attest/win_events.go:681-751 | A driver has the values of the last event (0x40010002) that reports it, and is not listed without one. |
| `SipaMeaning.ElamAdds` | attest/win_events.go:681-751 | An aggregation, nested ones included, adds the same entries whatever the table holds. |
| `SipaMeaning.ElamFieldSets` | attest/win_events.go:702-737 | What each field of a driver's report sets, each once, by type number. |
| `SipaMeaning.ElamEnds` | attest/win_events.go:691-751 | A report enters its three values under the driver's name; one without a name, or a partial header, is refused. |
| `WinProperties.SplitIsFraming` | attest/win_events.go:753-811 | An accepted block is its events' headers and payloads one behind the other, nothing more, all with the block's PCR. |
| `WinProperties.FramingSplits` | attest/win_events.go:753-811 | And any events, framed, split into themselves: framing is a bijection. |
| `WinProperties.LatchesMean` | attest/win_events.go:342-395 | Debugging and test signing are disjunctions of all reports; code integrity and DEP are false if any report is, true if there is one and all are, else unknown. |
| `WinProperties.LatchesPermute` | attest/win_events.go:342-395 | These five fields do not depend on the order of the events. |
| `WinProperties.ElamIndependent` | attest/win_events.go:681-751 | Whether an ELAM aggregation is accepted, and what it leaves unread, does not depend on the drivers known before. |
| `WinProperties.AcceptedIff` | attest/win_events.go:425-436 | A run of SIPA events is accepted exactly when each is acceptable on its own and the boot counter readings are zeros followed by one constant, which then is the count. |
| `WinProperties.ModulesMean` | attest/win_events.go:648-668 | A module is listed exactly when it was reported, with all non-zero addresses reported for its hash, newest first. |
| `WinProperties.BoundaryHolds` | attest/win_events.go:264-300 | Deleting a tagged event behind its own PCR's separator never changes the result. |
| `WinProperties.ContributorsMeasured` | attest/win_events.go:260-326 | In an accepted run every tagged event that counts, and every separator, has a digest matching its data. |
| `Challenge12.Pad` | attest/challenge.go:83-92 | Between one byte and a block of padding, each byte the padding's length, up to a multiple of the block size (section 6.3 of RFC 5652). |
| `Challenge12.CbcRoundTrip` | attest/challenge.go:125-132 | CBC decryption inverts CBC encryption (section 6.2 of NIST SP 800-38A) for every cipher whose decryption inverts its encryption. |
| `Challenge12.EncryptedBlocks` | attest/challenge.go:125-132 | Each block of the ciphertext is the encryption of the plaintext block combined with the IV or the ciphertext block before it. |
| `Challenge12.DecryptedBlocks` | attest/tpm_windows.go:279-281 | Each block of the plaintext is the decryption of the ciphertext block combined likewise. |
| `Challenge12.XorLaws` | attest/challenge.go:125-132 | What combines them is exclusive or, by its laws. |
| `Challenge12.ChallengeRoundTrip` | attest/tpm_windows.go:250-287 | Decrypting the symmetric part of a challenge gives back the secret, for every secret, key, IV and such cipher. |
| `Challenge12.PanicsIff` | attest/tpm_windows.go:266-285 | Decryption panics exactly for CBC blobs under a usable key whose ciphertext is empty, not whole blocks, or ends in a byte that counts more bytes than there are. |
| `Challenge12.RefusedIff` | attest/tpm_windows.go:250-276 | Decryption is refused exactly for blobs without mode 2 or IV and for keys of other than 16, 24 or 32 bytes. |
| `Challenge12.SecretIs` | attest/tpm_windows.go:281-286 | The secret is the plaintext without as many bytes as its last byte says. |
| `Challenge12.OverlongPaddingPanics` | attest/tpm_windows.go:284-285 | A block of 0xff, encrypted under any key, is such a blob. |
| `Challenge12.GenerateSymmetric` | attest/challenge.go:125-139 | Mode, IV and padded ciphertext, which the credential opens. |
| `Challenge12.DecryptCredential` | attest/tpm_windows.go:250-287 | The outcome for every key and blob: the secret, an error, or a run-time panic for ciphertext that is empty, not whole blocks, or shorter than its last byte says. |
| `Challenge12.DelimitedRoundTrip` | attest/challenge.go:44-63 | Session key and attestation key digest can be read back from the activation blob by its length field. |
| `Challenge12.BlobBytes` | attest/challenge.go:35-81 | The bytes of the activation blob and of what wraps it. |
| `Challenge12.MakeEkBlob` | attest/challenge.go:35-81 | What is encrypted to the endorsement key determines the session key and which attestation key it is for. |
| `Ecdsa.TruncatedIsLeftmost` | attest/wrapped_tpm20.go:616-625 | The prefix, shifted right, is the number of the leftmost bits of the whole digest; it is below the power of two of the order and fits the prefix. |
| `Ecdsa.FillBytes` | attest/wrapped_tpm20.go:628-628 | The number is written big-endian over the prefix, leading zeros included, and the other bytes stay. |
| `Ecdsa.TruncateDigest` | attest/wrapped_tpm20.go:614-628 | What the TPM signs has the smaller of the digest's and the order's length in bytes, and as a number is the leftmost bits of the digest, as many as both have (section 6.4 of FIPS 186-4). |
| `Ecdsa.SignedAsGiven` | attest/wrapped_tpm20.go:614-628 | A prefix of the digest is signed unchanged unless the order ends inside one of its bytes. |
| `Ecdsa.ShiftDropsBits` | attest/wrapped_tpm20.go:622-625 | The right shift drops the rightmost bits. |
| `ReadPcrs.MissingAre` | attest/tpm.go:307-314 | The selection of a round is exactly the PCRs without a value. |
| `ReadPcrs.HonestResult` | attest/tpm.go:299-335 | If a TPM gives only what it is asked for, success means exactly PCRs 0 to 23. |
| `ReadPcrs.CooperativeSucceeds` | attest/tpm.go:303-326 | If it also gives at least one PCR each time, 24 rounds suffice. |
| `ReadPcrs.ValuesAreGiven` | attest/tpm.go:321-323 | Every value returned was given for its PCR in a round that was asked, in answer to that round's selection. |
| `ReadPcrs.RoundEnds` | attest/tpm.go:306-328 | A round that fails ends the reading; one that leaves as many values as PCRs ends it with them, the newest for each. |
| `ReadPcrs.Unread` | attest/tpm.go:307-314 | The selection loop. |
| `ReadPcrs.ReadAllPCRs20` | attest/tpm.go:299-335 | The values after the rounds, 24 in number, complete for a cooperative TPM. |
| `ReadPcrs.ByIndex` | attest/wrapped_tpm20.go:445-452 | In whatever order the map is visited, an index is out of range exactly when some key is not below the number of keys; otherwise every slot holds its PCR's value. |
| `ReadPcrs.PCRs` | attest/wrapped_tpm20.go:439-455 | Fails exactly when the rounds do; a write is out of range exactly when the 24 values are not those of PCRs 0 to 23, never for a TPM that answers only what it is asked; otherwise slot k holds the value of PCR k, given in one of the rounds, for all 24. |

## Left out

- Hash functions, RSA, AES, X.509, UTF-16 and the decoding of TPM structures: parameters of
  the model, of which only digest lengths, block lengths and decrypt-after-encrypt are assumed.
- The TPM command channel, device probing, activation, certification, storage, the command
  line tool and everything else that is input and output or checks on decoded structures.
- Error messages: an error is a single value, except for the failing indices of a replay.
- EventLogs.EventLog.Verify: asks for what `ParsedWellFormed` shows of every parsed log; logs
  built otherwise are not modelled.
- Append.AppendedParses: says nothing of combined logs of 4 GiB or more, where the reader's
  32-bit comparison of lengths wraps around.
- Quotes.Validate20Quote: the attestation key's hash function is taken to be available; where
  it is not, Go panics.
- QuoteBinding.FlaggedValuesIff20: what the TPM signed is given as a slice of registers that
  the quote accepts too; that a TPM hashes its registers that way is not part of this model.
- WinEventLog.WinEvents.ReadBooleanEvent: one method for the one-byte and the eight-byte
  reader, which differ in size only.
- SipaReaders.LimitedRead: a limited reader is its buffer and the count still allowed.
- Modules are found by the bytes of their hash, of which the code uses the hexadecimal text.
- ReadPcrs.ReadAllPCRs20: a TPM is a function of the round and the selection; how its answers
  are decoded is not part of this model.
- Challenge12.MakeEkBlob: the asymmetric encryption of the blob and the drawing of key and IV
  are not modelled; keys of 64 KiB or more, whose length field wraps around, are written but
  nothing is said of reading them.
- Challenge12.Pad: appending to the caller's slice may overwrite spare capacity behind it; the
  model's sequences have none.
- Memory: allocations of up to 4 GiB for an announced length are assumed to succeed.
- `EventLog.Events`, which filters events by bank before verification, and the names of event
  types.
