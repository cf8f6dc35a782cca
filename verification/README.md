# Attestation verification model

A Dafny model of the parts of attestation-go where an error would go unnoticed:
the guest's crash-safe measurement journal, the verifier's replay of it, image
admission, the two binary parsers under it, and the reference-value documents
that configure it. Strings are byte strings, as in Go. Registers, digests and
quotes are real byte strings of their real widths.

## How hashing is modelled

SHA-256 and SHA-384 are parameters (`HashChain.Hashes`). No lemma assumes they are
injective, which no function from all strings to 48 bytes is. Where a result rests
on collision resistance, its statement names the strings whose hashes would have
to fail. `IsBreak(h, seed, a, b, r)` says of two event lists that a string hashed
while extending `seed` with one collides with a different string hashed for the
other, or that one of the two chains passed its seed again; `IsFoldBreak` adds two
digests in one place of two digest lists with one event. `FindBreak` and
`FindFoldBreak` compute such a break from two lists with one register value.
`ChainsBreak`, `FoldsBreak`, `OpenBreaks`, `RunBreaks` and `HistoryBreaks` are the
forms the theorems use: each speaks only of what those logs, that list or the opens
of that run hashed. The vTPM and cache results name the two colliding inputs
outright (`Collides`, `ShareFile`).

## Components

- `Octets`, `HashChain`: byte strings, integers, hex, decimal, line splitting, hash
  chains. `Spellings`: what those encodings spell, stated without them.
- `JournalText`, `JournalProtocol`, `Journal`: the journal's text, its protocol as
  a step machine, and the objects that run it. `JournalOrigins`: where extended
  digests come from. `JournalLosses`: exactly where recovery is lost.
- `TeeTypes`, `Binding`, `Images`, `EndToEnd`: claims, prefix replay, image pins,
  and the theorem that joins guest and verifier. `Admission`: what an admission and
  each refusal mean on the evidence's bytes.
- `TpmQuote`, `TpmClaims`: the TPMS_ATTEST parser and the published registers.
- `Ccel`, `CcelReplay`: the event log parser and the RTMR replay.
- `RefPolicy`, `TupleKeys`, `Config`, `Diff`: flat and whole-image policies, the
  printed pin identity, the config document, the set difference.
- `TcbLevels`, `StrictJson`, `KdsCache`: TCB selection, the duplicate-key walk,
  the shared certificate cache.

Methods are proved against specification functions. What each of those functions is,
the lemmas named `...Exact` and `...Spelled` say without it: on bytes, hash values,
list positions and literal text.

## Fault model of the journal

The register can only be extended; a failed extend leaves it as it was. There is
one writer. It may stop between any two steps on the file or the register. For
"never extended twice" (`NoDoubleExtend`) nothing at all is assumed of the file:
appends may tear anywhere and any bytes may replace it at any moment. Each open
must read the register; `UnreadableOpen` says exactly when an open that cannot is
still safe. An open deceived by a broken hash is not `Honest`: then what it compared
breaks the hash (`OpenBreaks`). `DoubleExtendBreaks`, `LostRecoveryBreaks` and
`QuoteProvesHistory` assume no honesty and conclude that, or that some open of the
run met such a break. For recovery, disk steps happen whole or not at all and a
rollback that fails is followed by a crash (`Disciplined`). Otherwise, over every
continuation: after a failed rollback recovery is lost unless the same digest is
measured next (`StaleLoses`, `StaleMeasure`), after a failed append unless it left
nothing, or the whole line of the digest measured next (`FailedAppend`,
`TornAppend`), and after a torn one as `TornCrash` says. That nothing unasked is extended (`OnlyAsked`) needs only that no
one else writes the file and that it recorded nothing at boot; `AskedExactly` has
the exact condition on the boot file.

## Where the code does less than its comments say

- A line torn by a crash is described as harmless because the open skips it
  (runtimemeasure/journal.go:22-26). The open leaves it in the file, and the next
  record is appended to it, so both are lost. Every continuation after the reopen
  stays recoverable exactly when the tear fell on a line boundary (`TornCrash`); of
  a single measurement, also when only the newline was lost and the same digest is
  measured again (`TornMeasure`). An open of what is lost diverges (`OpenDiverges`),
  and `TornGuest` is a life from first boot that ends so.
- An open takes one digest on file, beyond what the register holds, for an
  interrupted extend (runtimemeasure/journal.go:69-74). On a guest that boots on a
  leftover file with exactly one digest it extends that digest, which nobody
  measured; with none or several it does not (`AskedExactly`).
- "A set that formats is a set that Parse loads back"
  (refvalues/config.go:298-300) holds of the validated structure, but image names
  are not checked for UTF-8 before they are encoded. The document loads exactly
  when its encoder keeps the names apart, and loads as the same set exactly when
  every name is UTF-8 (`DocumentLoads`, `DocumentLoadsSame`, `WrittenNamesCollide`).
- `FromFlags` says it enforces what the flat pins did; that is so exactly when there
  is a digest to pin, or no register, or PCR pins beside them that nothing can
  satisfy (`FromFlagsExact`).

## Model

| member | source | states |
|---|---|---|
| Octets.ParseDigestExact | attestation/teetypes/digest.go:24-42 | the one hex reader accepts exactly the lowercase encodings of width-byte values, one spelling each |
| Spellings.HexSpelled | attestation/teetypes/digest.go:24-42 | each byte is two digits of 0123456789abcdef, the high half first |
| Spellings.BigEndian | attestation/tpmcommon/tpmcommon.go:529-541 | TPM integers have their most significant byte first |
| Spellings.LittleEndian | attestation/tdx/ccel.go:86-118 | event log integers have their least significant byte first |
| Spellings.TrimExact | attestation/teetypes/teetypes.go:195-209 | trimming takes white space, by its code points, off both ends and leaves none there |
| Spellings.SpacesRead | attestation/teetypes/teetypes.go:195-209 | every white-space character is recognized whole, at either end |
| Spellings.OnlySpacesRead | attestation/teetypes/teetypes.go:195-209 | and nothing else is |
| Spellings.LowerSpelled | attestation/teetypes/teetypes.go:195-209 | letters fold to lower case, and nothing beside them |
| Spellings.DecimalSpelled | refvalues/config.go:379-381 | decimals have no leading zeros, and a minus sign when negative |
| HashChain.FromDigestsSeeded | runtimemeasure/runtimemeasure.go:85-91 | the loop computes the hash chain of the digests' events on the seed |
| HashChain.FoldExact | runtimemeasure/runtimemeasure.go:53-91 | an empty list leaves the seed; one digest more makes the register SHA-384 of its value and the SHA-384 of the digest string itself |
| HashChain.ChainExact | runtimemeasure/runtimemeasure.go:59-68 | one extend is SHA-384 of the register and the event |
| HashChain.FindBreak | runtimemeasure/runtimemeasure.go:59-68 | from two different event lists with one register value it computes two colliding strings their chains hashed, or a chain of theirs that returns to its seed |
| HashChain.FindFoldBreak | runtimemeasure/runtimemeasure.go:53-91 | the same from two different digest lists, whose events are themselves hashes: or two of the digests in one place collide |
| HashChain.SeededCycle | runtimemeasure/runtimemeasure.go:93-111 | an anchored register returns to its seed only if the last string it hashed collides with the one that seeded it, or it was all zeros on the way |
| JournalText.CanonicalSpellings | runtimemeasure/runtimemeasure.go:142-170 | a reference canonicalizes to d exactly when it is d, or d pinned after a non-empty name |
| JournalText.CanonicalExact | runtimemeasure/runtimemeasure.go:142-170 | the canonical strings are "sha256:" and the lowercase hex of 32 bytes |
| JournalText.RefusedExact | runtimemeasure/runtimemeasure.go:142-170 | each refusal of a reference, by what stands before and behind its last '@' |
| JournalText.ParseJournal | runtimemeasure/journal.go:131-152 | one pass returns the distinct canonical digests in order, and the lines it skipped |
| JournalText.CollectExact | runtimemeasure/journal.go:131-152 | exactly the canonical digests among the trimmed lines are read |
| JournalText.CollectInOrder | runtimemeasure/journal.go:131-152 | in the order of the lines that first hold them |
| JournalText.SkippedExact | runtimemeasure/journal.go:131-152 | exactly the lines neither blank nor canonical are reported as skipped |
| JournalText.RecordedAfterRecord | runtimemeasure/journal.go:220-240 | a recorded digest is read back exactly once, after everything read before |
| JournalText.RecordedLines | runtimemeasure/journal.go:242-258 | what a rollback writes reads back as the order it was written from |
| JournalText.TornLine | runtimemeasure/journal.go:226-230 | a record appended to a torn line is lost with it |
| JournalText.TornTail | runtimemeasure/journal.go:97-106 | a torn last line adds nothing until the whole digest is there |
| JournalText.AppendedWithin | runtimemeasure/journal.go:220-240 | behind any bytes at all, any part of an append records nothing new but its own digest |
| JournalProtocol.NoDoubleExtend | runtimemeasure/journal.go:29-43 | over every run with honest opens, arbitrary file bytes, torn appends, failures and crashes, no digest is extended twice |
| JournalProtocol.RemembersStep | runtimemeasure/journal.go:84-215 | every step keeps: a journal that may extend remembers everything extended |
| JournalProtocol.Boot | runtimemeasure/journal.go:62-83 | a booting guest starts as exactly-once asks whatever its file holds, and as recovery asks exactly when the file ends at a line end and records at most one digest |
| JournalProtocol.DishonestOpen | runtimemeasure/journal.go:157-182 | an open whose comparison was deceived met a hash break between the history and the digests on file, or those without the last |
| JournalProtocol.DoubleExtendBreaks | runtimemeasure/journal.go:29-43 | a digest is extended twice in a run whose opens read the register only if what some open of that run compared breaks the hash |
| JournalOrigins.OnlyAsked | runtimemeasure/journal.go:184-215 | booting on a file that records nothing, nothing is extended or recorded that was not asked for, over every run without other writers, torn appends included |
| JournalOrigins.AskedExactly | runtimemeasure/journal.go:67-83 | extending only what was asked for holds in every run exactly when the boot file does not record exactly one digest |
| JournalProtocol.UnreadableOpen | runtimemeasure/journal.go:158-165 | an open that cannot read the register never leads to a double extend exactly when the file names everything extended |
| JournalProtocol.ConsistentStep | runtimemeasure/journal.go:84-258 | every whole disk step keeps file, register and memory consistent, or is a failed rollback |
| JournalProtocol.AlwaysRecoverable | runtimemeasure/journal.go:37-40 | in every disciplined run the file names the history, or the history and one digest more |
| JournalProtocol.EveryOpenRecovers | runtimemeasure/journal.go:67-78 | after any disciplined run and a crash, one open ends undiverged with its order folding to the register |
| JournalProtocol.LostRecoveryBreaks | runtimemeasure/journal.go:67-78 | an open after such a run recovers unless what some open of that run compared breaks the hash |
| JournalProtocol.OpenDiverges | runtimemeasure/journal.go:154-182 | an open marks the journal diverged exactly when the file names neither the history nor one digest more |
| JournalProtocol.OpenRecovers | runtimemeasure/journal.go:154-182 | one open of a consistent journal syncs it, or fails only because its repair extend failed |
| JournalLosses.StaleMeasure | runtimemeasure/journal.go:209-215 | after a failed rollback and one measurement, every continuation stays recoverable exactly when the same digest was measured |
| JournalLosses.StaleLoses | runtimemeasure/journal.go:242-258 | so after a failed rollback some continuation without a crash is always lost |
| JournalLosses.TornAppend | runtimemeasure/journal.go:225-240 | after a failed append and one measurement, every continuation stays recoverable exactly when the append left nothing, or the whole line of the digest measured |
| JournalLosses.FailedAppend | runtimemeasure/journal.go:225-240 | right after a failed append every continuation stays recoverable exactly when it left nothing |
| JournalLosses.TornCrash | runtimemeasure/journal.go:22-27 | after a crash inside an append and a reopen, every continuation stays recoverable exactly when the tear fell on a line boundary |
| JournalLosses.TornMeasure | runtimemeasure/journal.go:226-230 | of one measurement after the reopen: exactly then, or when only the newline was lost and the same digest is measured again |
| JournalLosses.TornGuest | runtimemeasure/journal.go:97-106 | a concrete life from first boot with honest opens, torn anywhere inside an append, ends diverged |
| JournalProtocol.ExtendedStaysPrefix | runtimemeasure/journal.go:114-129 | what was extended at one moment is a prefix of what the file reads as at every later one |
| Journal.Journal.MeasureOnce | runtimemeasure/journal.go:184-215 | the call is the record, extend and rewrite steps in order; each error exactly when its branch fails; true exactly when it extended |
| Journal.Journal.Reconcile | runtimemeasure/journal.go:154-182 | the repair is the protocol's open step, fatal exactly when its extend fails |
| Journal.Journal.Record | runtimemeasure/journal.go:220-240 | the file grows by the line or by a first part of it, memory only on success |
| Journal.Journal.UnrecordLast | runtimemeasure/journal.go:242-300 | memory drops the digest it ends in; the file becomes exactly memory's lines, or stays; no error exactly when it was replaced and its directory synced |
| Journal.OpenJournalSeeded | runtimemeasure/journal.go:84-112 | the open is the protocol's open step; each fatal error exactly when it occurred, and then no journal; each other problem reported exactly when it occurred |
| Journal.ReadJournal | runtimemeasure/journal.go:114-129 | reads the recorded digests and changes nothing; an error exactly when the file cannot be read |
| Binding.MatchBindingPrefix | runtimemeasure/binding.go:187-220 | returns the least proven prefix; an error exactly when no prefix is proven, naming the first check that failed |
| Binding.ProvesExact | runtimemeasure/binding.go:76-109 | a prefix is proven exactly when the list is canonical and the signed evidence carries the digest's seed with that prefix folded on top |
| Binding.LaunchFileExact | runtimemeasure/launchfile.go:15-41 | a file's digest is its SHA-384 on TDX and its SHA-256 on SEV-SNP, and an empty file has none |
| Binding.FileDigestExact | runtimemeasure/launchfile.go:60-82 | a digest passes exactly when it has the family's width, is not zero, and is not the empty file's |
| Binding.VerifyBindingExact | runtimemeasure/binding.go:56-137 | on each platform, verification accepts exactly the register value or HOSTDATA that the file's hash and the workloads give |
| Binding.NoBindingExact | runtimemeasure/binding.go:12-54 | which results carry a readable binding, and why each other does not |
| Binding.TdxProves | runtimemeasure/binding.go:76-109 | on TDX, proven exactly when the signed RTMR[3] is the seed extended with the prefix and the digest is one a file can have |
| Binding.SnpProves | runtimemeasure/binding.go:165-170 | on SEV-SNP, proven exactly when k is 0 and the signed HOSTDATA is the digest |
| Binding.OthersProveNothing | runtimemeasure/binding.go:40-54 | an unsigned result, az-snp and unknown platforms prove nothing |
| Binding.ProvenPrefixUnique | runtimemeasure/binding.go:209-217 | two proven prefixes are one, or what extending these two hashed breaks the hash |
| Binding.AnchorIsItsDigest | runtimemeasure/binding.go:171-185 | pinning a file and pinning its digest prove the same prefixes |
| Binding.VerifyBindingIsReplay | runtimemeasure/binding.go:124-137 | whole-list verification is prefix replay with nothing left over |
| Binding.BoundDigestUnique | runtimemeasure/binding.go:111-137 | a result proves one launch digest and one extension list, or what the two registers hashed breaks the hash |
| EndToEnd.QuoteProvesHistory | runtimemeasure/binding.go:156-175 | of a list read from the journal at or after the quote, the quote proves exactly the digests extended when it was taken, unless what an open of that run compared, or what extending that history hashed, breaks the hash |
| EndToEnd.HookJudgesHistory | remote/images.go:60-69 | under the same proviso, the hook of a pin bound to the guest judges exactly those digests |
| Images.LaunchDigestExact | remote/images.go:236-247 | the claim is read as exactly the hex of 48 bytes in either case; blank is a policy miss, the rest malformed |
| Images.CheckLaunchBindingPins | remote/images.go:201-234 | accepts exactly the lists in which every pin can mean what it says |
| Images.EnforceReplayedBinding | remote/images.go:172-191 | accepts exactly when a least prefix is proven and the hook takes all of it |
| Images.EnforceImages | remote/images.go:108-165 | accepts exactly when platforms agree, every pin is well formed and one pin matches whole; otherwise the error is the last near miss |
| Admission.AdmissionExact | remote/images.go:108-165 | on the bytes: admitted exactly when platforms agree, no pin is meaningless, and some pin's launch digest, registers and binding all hold |
| Admission.RefusalExact | remote/images.go:108-165 | and otherwise which refusal is given, of the last pin with that digest |
| Admission.WellFormedExact | remote/images.go:201-234 | a pin is refused exactly for two bindings, an empty file, a hook no file calls, or a digest no file has |
| Admission.BoundExact | remote/images.go:172-191 | a digest pin holds exactly when the evidence carries it with a least prefix on top, all of which the hook takes |
| TeeTypes.RegistersExact | attestation/teetypes/teetypes.go:211-230 | register pins hold exactly when each is claimed as the hex of the pinned 48 bytes; one not claimed refuses |
| TeeTypes.PlatformsExact | attestation/teetypes/platform.go:100-153 | which platforms have registers, a vTPM quote, and which family |
| Images.PinOrderIrrelevant | remote/images.go:123-164 | reordering or repeating pins never changes admission |
| Images.OnlyProvenPrefixJudged | remote/images.go:92-98 | entries past the proven prefix never change the answer |
| TpmQuote.BitsAddUp | attestation/tpmcommon/tpmcommon.go:470-477 | bit k of a bitmap byte is worth 2 to the k |
| TpmQuote.BitsExact | attestation/tpmcommon/tpmcommon.go:470-477 | a bitmap selects exactly its set bits, ascending |
| TpmQuote.ParseQuoteInfo | attestation/tpmcommon/tpmcommon.go:434-489 | the offset loop reads what the message grammar says, in bounds on any bytes |
| TpmQuote.QuoteRoundTrip | attestation/tpmcommon/tpmcommon.go:300-322 | every encoded quote parses back to its selected bits and digest, and to its nonce when the magic is right |
| TpmQuote.QuoteExact | attestation/tpmcommon/tpmcommon.go:434-489 | a message is accepted exactly when it is some quote's encoding and trailing bytes, with that quote's bits and digest |
| TpmQuote.NonceExact | attestation/tpmcommon/tpmcommon.go:300-322 | a nonce is read exactly off the messages that start with the magic and carry it as extraData, whatever follows |
| TpmQuote.QuoteSpelled | attestation/tpmcommon/tpmcommon.go:434-489 | one message given byte for byte, and what is read from it |
| TpmQuote.RefusedExact | attestation/tpmcommon/tpmcommon.go:434-489 | a refused message is shorter than its fixed start, or cut short behind it |
| TpmQuote.NonceRefusedExact | attestation/tpmcommon/tpmcommon.go:300-322 | and for the nonce, does not start with FF 54 43 47 |
| TpmQuote.SignedSelection | attestation/tpmcommon/tpmcommon.go:421-432 | the selection is the parsed one, sorted: an ascending permutation |
| TpmClaims.VerifyTpmPcrs | attestation/tpmcommon/tpmcommon.go:352-379 | accepts exactly the banks the signed digest vouches for; otherwise the first check that failed is named |
| TpmClaims.ConcatExact | attestation/tpmcommon/tpmcommon.go:366-376 | what is hashed is the selected values in selection order, 32 bytes each |
| TpmClaims.VouchesExact | attestation/tpmcommon/tpmcommon.go:352-379 | a bank passes exactly when its values are 32 bytes and those selected, joined in that order, hash to the signed digest |
| TpmClaims.InitDataExact | attestation/tpmcommon/tpmcommon.go:381-419 | init data passes exactly when register 8 is signed, held, and SHA-256 of 32 zeros and the hash; otherwise the first check that failed is named |
| TpmClaims.PcrsExact | remote/verify.go:309-351 | PCR pins hold exactly when each is signed and claimed under its name as the hex of the pinned 32 bytes |
| TpmClaims.VouchedAgree | attestation/tpmcommon/tpmcommon.go:352-379 | two banks one quote vouches for agree on every signed register, or collide |
| TpmClaims.InitDataUnique | attestation/tpmcommon/tpmcommon.go:381-419 | over all such banks at most one init-data hash passes, or there is a collision |
| TpmClaims.ApplyTpmClaims | attestation/tpmcommon/tpmcommon.go:491-527 | publishes exactly the signed registers of the bank and the nonce |
| TpmClaims.PublishedPcrs | attestation/teetypes/teetypes.go:253-271 | a published register reads back exactly when it is signed, with the bank's value |
| TpmClaims.PublishedExact | attestation/tpmcommon/tpmcommon.go:491-519 | nothing is published but signed registers the bank holds, and the nonce |
| TpmClaims.KeysSpelled | attestation/tpmcommon/tpmcommon.go:508-514 | registers are named pcr00 to pcr99 in two digits |
| TpmClaims.PublishedUnique | attestation/tpmcommon/tpmcommon.go:491-519 | two banks that verify for one quote publish identical claims, or collide |
| TpmClaims.UnsignedPinRefused | remote/verify.go:309-351 | a pin outside the signed selection is refused whatever is claimed |
| TpmClaims.PinnedPcrIsSigned | remote/verify.go:325-351 | a satisfied pin is a signed value no other vouched bank contradicts, or there is a collision |
| Ccel.ParseCcel | attestation/tdx/ccel.go:80-175 | the loop reads what the record grammar says, in bounds and terminating on any bytes |
| Ccel.LogRoundTrip | attestation/tdx/ccel.go:74-79 | any well-formed records behind a Spec ID header and before zeros parse to exactly their SHA-384 events in order |
| Ccel.LogExact | attestation/tdx/ccel.go:80-175 | bytes are accepted exactly when they are a header, well-formed records and something that ends the log, with those records' events |
| Ccel.RecordSpelled | attestation/tdx/ccel.go:100-165 | one record given byte for byte |
| Ccel.ReadExact | attestation/tdx/ccel.go:100-165 | a record is read exactly where one is encoded, refused exactly where one with an unknown algorithm starts, and anywhere else the log ends |
| Ccel.RefusedExact | attestation/tdx/ccel.go:80-131 | a log is refused exactly when too short for its header, or when records are followed by one with an unknown algorithm |
| Ccel.EventExact | attestation/tdx/ccel.go:133-172 | an event has its record's register, type and data and the last of its SHA-384 digests |
| Ccel.EventsInOrder | attestation/tdx/ccel.go:165-172 | events come in the order of their records |
| Ccel.TerminatorExact | attestation/tdx/ccel.go:157-160 | only register 0, type 0 and no data together end a log |
| Ccel.SizesExact | attestation/tdx/ccel.go:27-66 | the four known algorithms and their digest sizes, and at most 16 digests |
| Ccel.ContributesIff | attestation/tdx/ccel.go:135-137 | a record contributes an event exactly when it carries a SHA-384 digest |
| Ccel.ZerosStop | attestation/tdx/ccel.go:157-160 | zero padding of any length ends the log |
| CcelReplay.ReplayRtmrs | attestation/tdx/ccel.go:184-201 | one pass over the array gives each register its own independent fold from zero |
| CcelReplay.ReplayExact | attestation/tdx/ccel.go:178-201 | RTMR[i] starts as zeros, and exactly the events of register i + 1 make it SHA-384 of itself and their digest |
| CcelReplay.InterleavingIrrelevant | attestation/tdx/ccel.go:184-201 | logs have the same events per register exactly when exchanges of neighbours for different registers turn one into the other, and then replay to the same registers |
| CcelReplay.VerifyAgainstRtmrs | attestation/tdx/ccel.go:213-236 | accepts exactly when widths are right, the log parses and three registers match; reports the fourth; otherwise names what failed first |
| CcelReplay.AcceptedLogsAgree | attestation/tdx/ccel.go:14-25 | two logs accepted for one quote carry the same digests per boot register, or what replaying these two hashed breaks the hash |
| RefPolicy.EnforcePins | remote/verify.go:264-291 | accepts exactly under platform, PCR pins, and whole images or the flat pins; the first of them that fails names the refusal |
| Admission.PolicyExact | remote/verify.go:264-291 | a policy takes evidence exactly when platforms agree, every PCR pin is signed and claimed, and its images or flat pins take it |
| Admission.FlatExact | remote/verify.go:284-307 | flat pins hold exactly when the launch digest is one pinned (none pinned: absent or well formed) and every pinned register is claimed |
| RefPolicy.CommonRegisters | refvalues/refvalues.go:93-112 | uniform exactly when all register maps are equal, and then that map |
| RefPolicy.HasLaunchBindings | refvalues/refvalues.go:50-61 | true exactly when some image pins a launch binding |
| RefPolicy.Flatten | refvalues/refvalues.go:114-125 | uniform exactly when registers agree and no image pins a binding |
| RefPolicy.FlattenedDigestsParse | refvalues/refvalues.go:83-91 | the rendered digests parse back to the pinned ones |
| RefPolicy.UniformFlattenPreserves | refvalues/refvalues.go:114-125 | a uniform set admits exactly what its flat form admits |
| RefPolicy.FlattenWeakens | refvalues/refvalues.go:118-121 | flattening never refuses what the images admit |
| RefPolicy.FromFlags | refvalues/refvalues.go:135-151 | one plain image per distinct digest, all with the given registers |
| RefPolicy.ImageNameSpelled | refvalues/refvalues.go:135-151 | the images are named "image-" and a number |
| RefPolicy.FromFlagsPreserves | refvalues/refvalues.go:127-134 | on a non-empty digest list images and flags admit the same |
| RefPolicy.FromFlagsExact | refvalues/refvalues.go:127-134 | beside any PCR pins the conversion keeps every decision exactly when a digest, or no register, is pinned, or the PCR pins cannot be satisfied |
| TupleKeys.SortKeys | refvalues/config.go:376-381 | registers are taken in the one ascending order, however their map is walked |
| TupleKeys.BuildTupleKey | refvalues/config.go:374-392 | the builder prints the bar-joined segments of the pin |
| TupleKeys.TagsSpelled | refvalues/config.go:376-391 | the literal text of the key's segments |
| TupleKeys.TupleKeyExact | refvalues/config.go:374-392 | two pins print one key exactly when digest, registers and binding are equal |
| Config.ReadRtmrs | refvalues/config.go:259-290 | pins exactly the entries that are not null, "" as zero and other text as the 48 bytes it spells; an error exactly when no pins read that way |
| Config.Validate | refvalues/config.go:89-128 | accepts exactly valid entries with distinct names and tuples under a schema that can carry them |
| Config.EntryExact | refvalues/config.go:141-238 | an entry is read as a pin exactly when it spells it: a name, its own family's fields and not the other's, at most one binding and none null |
| Config.ValidatesExact | refvalues/config.go:89-139 | a document validates to a set exactly when schema, family, entries, names and tuples are as its text says |
| Config.Format | refvalues/config.go:298-363 | succeeds exactly on the sets whose document it has validated |
| Config.FormatsExactly | refvalues/config.go:298-363 | a set formats exactly when it is not empty, its pins are expressible, and names and tuples are distinct |
| Config.FormatReadsBack | refvalues/config.go:394-401 | what Format writes validates to the same family and pins but for hooks, under schema 2 exactly when a launch file is pinned |
| Config.ValidatedFormats | refvalues/config.go:298-300 | every document that validates is a set that formats, and validates to itself again |
| Config.DocumentLoads | refvalues/config.go:298-300 | a written document loads exactly when its encoder keeps the names apart |
| Config.DocumentLoadsSame | refvalues/config.go:365-372 | and loads as the same set exactly when every name is UTF-8 |
| Config.WrittenNamesCollide | refvalues/config.go:303-307 | two names that are not UTF-8 make a set that formats and does not load |
| Config.RenderedEmpty | refvalues/render.go:15-28 | the rendered empty set reads back as nothing pinned |
| TeeTypes.FamilyNameParses | attestation/teetypes/platform.go:62-85 | a family's canonical name parses to that family |
| TeeTypes.FamilyExact | attestation/teetypes/platform.go:62-85 | a family is named by exactly its own name and its platforms', trimmed and in either case |
| Diff.Difference | refvalues/render.go:38-65 | each side lists exactly the tuples the other lacks, once, in key order |
| Diff.LexExact | refvalues/render.go:51-64 | the order of the listing: the smaller byte first, a key before its extensions |
| Diff.EmptyDifference | refvalues/render.go:38-41 | both sides are empty exactly when the sets pin the same tuples |
| Diff.DifferenceOnce | refvalues/render.go:43-49 | a difference lists no tuple twice |
| Diff.SamePinsAdmitAlike | refvalues/render.go:38-41 | sets with the same tuples, each tuple with one hook, admit the same evidence |
| TcbLevels.PlatformNeverLater | attestation/tdx/tcbstatus.go:189-219 | raising any SVN never moves the platform level later, even when TEE_TCB_SVN[1] becomes non-zero |
| TcbLevels.MatchNeverLater | attestation/tdx/tcbstatus.go:164-187 | with the module version kept, no component moves later and no match is lost |
| TcbLevels.ModuleSvnsIgnored | attestation/tdx/tcbstatus.go:190-195 | with a module identity, SVNs 0 and 1 do not decide the platform level |
| TcbLevels.MajorVersionRaise | attestation/tdx/tcbstatus.go:174-180 | raising SVNs loses the match exactly when the module named has no identity, or no level as low as its SVN in the first one |
| TcbLevels.RaiseLosesMatch | attestation/tdx/tcbstatus.go:221-234 | collateral and a raise that lose it |
| TcbLevels.EvaluateLevels | attestation/tdx/tcbstatus.go:134-152 | succeeds exactly when every level is accepted, and otherwise names the first that is not |
| TcbLevels.EvaluateTcbStatus | attestation/tdx/tcbstatus.go:129-152 | accepts exactly when all components match and their levels are accepted; reports the worst rank, and each advisory once in order of first mention |
| TcbLevels.AcceptsExact | attestation/tdx/tcbstatus.go:129-187 | on the collateral: accepts exactly when platform, QE and, if one is named, TDX module each stand at a level, and each status is accepted |
| TcbLevels.MatchExact | attestation/tdx/tcbstatus.go:164-245 | a match is exactly the first level each component meets, SVN by SVN |
| TcbLevels.NoMatchExact | attestation/tdx/tcbstatus.go:164-234 | and otherwise which component has none |
| TcbLevels.RankExact | attestation/tdx/tcbstatus.go:19-29 | ranks follow the listed order |
| TcbLevels.VerdictUnique | attestation/tdx/tcbstatus.go:134-152 | which is one verdict |
| TcbLevels.ReportedStatus | attestation/tdx/tcbstatus.go:41-57 | the status an evaluation reports is accepted, never Revoked, and the only worst one |
| TcbLevels.AcceptingMore | attestation/tdx/tcbstatus.go:136-140 | one accepted set takes whatever another takes, over all collateral and quotes, exactly when it holds all its statuses |
| TcbLevels.RaisingNeverRefuses | attestation/tdx/tcbstatus.go:129-152 | on collateral listed best first, raising SVNs of one module never refuses a caller who takes every better status, nor worsens the report |
| TcbLevels.RaisingExact | attestation/tdx/tcbstatus.go:129-152 | and exactly such callers are safe from it |
| StrictJson.RejectDuplicateKeys | internal/strictjson/strictjson.go:32-42 | the decoder-driven walk is the walk on positions; a non-object has no keys to check |
| StrictJson.RunObject | internal/strictjson/strictjson.go:44-69 | the object loop consumes what the walk on positions says |
| StrictJson.RunValue | internal/strictjson/strictjson.go:71-93 | so does the value walk, into objects and arrays |
| StrictJson.WalkDecides | internal/strictjson/strictjson.go:20-31 | exactly one value's tokens are consumed; success exactly when no object at any depth repeats a key under folding |
| StrictJson.DocumentDecided | internal/strictjson/strictjson.go:20-31 | an object document is accepted exactly when unambiguous, with its keys as written |
| StrictJson.CutShort | internal/strictjson/strictjson.go:44-93 | an object or array with no closer is refused |
| KdsCache.InvStep | attestation/snp/kdscache.go:64-98 | every step of every getter keeps: published files and carried bodies are upstream answers, temporaries are exclusive |
| KdsCache.PublishedComplete | attestation/snp/kdscache.go:76-77 | under every interleaving a published file is one complete answer for its URL, or two URLs collide |
| KdsCache.ResultIsUpstream | attestation/snp/kdscache.go:25-28 | every result is an upstream answer for the URL asked; an uncacheable URL's is the getter's own |
| KdsCache.GetContext | attestation/snp/kdscache.go:64-98 | a call's whole effect is its steps in the machine's order |
| KdsCache.CachedCall | attestation/snp/kdscache.go:64-71 | a cached non-empty certificate is returned without asking the upstream |
| KdsCache.UncachedCall | attestation/snp/kdscache.go:64-67 | an uncacheable URL asks the upstream and touches no file |
| KdsCache.MissedCall | attestation/snp/kdscache.go:72-98 | a miss returns the answer whatever fails after it, and publishes it whole under its URL's hash exactly when every write step worked; no other file changes |
| KdsCache.FailedCall | attestation/snp/kdscache.go:72-75 | a miss the upstream does not answer fails and changes nothing |

## Left out

- Hardware signatures, certificate chains and quote verification: other libraries; a result carries whether its signature is valid.
- RSA, JWK, PEM and ASN.1 parsing: predicates of the caller (`Library.isPublicKey`).
- ParseHCLReport and VerifyHCLVarDataBinding: a fixed layout and one hash comparison.
- EnforceVerdict and its expected-measurement list, VerifyEvidence and the HTTP client: requests and verdict flags checked one by one.
- JSON text: documents are token lists in `StrictJson` and decoded fields in `Config`; the lexer's own syntax errors are not modelled.
- Error texts: an error is a kind. Where the source iterates a map, which of several bad entries is named is not modelled.
- Platform tags are taken trimmed and case-folded, so a tag of blanks only and an empty one are not told apart by spelling.
- Bytes past ASCII that lower-case to ASCII letters are not folded by `ToLower`; none lowers to a hex digit, which is all its readers look for.
- checkAcceptedTCBStatuses requires collateral to be fetched; the model starts where evaluation runs.
- The collateral recorder, TCB info JSON and the PCK extension parser: inputs to `TcbLevels`.
- fsync, rename internals, file modes and directory creation: a disk step is whole, or torn as its fault argument says.
- A temporary cache name is never reused, as a random name is not; the open file behind a reused name is not modelled.
- Widths of Go integers: lengths and offsets stay far below 2^63 on a 64-bit host, so the overflow checks of ParseCCEL cannot fire.
- armtls, launchmeasure, image manifests, the foreign-function layer and device access: encoding, constants and I/O around the parts above.
