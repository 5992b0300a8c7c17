# libcanokey protocol cores in Dafny

libcanokey talks to a CanoKey through caller-driven protocol machines: `next(None)` once, then
`next(Some(answer))` until the machine is done or fails. This project models the codecs and
machines that carry the most logic and proves what they do over every input, every card answer
and every interrupted run.

How the model is built:

- A machine is a class whose `Next` updates its fields in place. Its contract equates the new
  state and the action with a pure step function, and the theorems about whole runs are lemmas
  about that function, driven by a list of card answers or by a card model.
- Cards are separate: a file store with atomic updates (NDEF), a temporary file with a commit
  (large blobs), a configuration block behind a PIN (Admin), a holder of a management key (PIV).
  They recognise what the host sends by its contents, not by calling the host's own builders. Where a
  result holds against any card whatever, the lemma quantifies over the answers alone.
- The CBOR parser and encoder are methods with loops over a buffer; they are proved equal to
  recursive functions, about which the grammar, round-trip and canonical-form theorems are stated.

| files | part of the system |
|---|---|
| `Base` | bytes, big-endian numbers, errors, card answers |
| `CborOrder`, `Cbor`, `CborParsing`, `CborCanonical`, `CborText`, `CborCodec` | canonical CBOR (sections 4.1 and 4.2.3 of RFC 8949) and UTF-8 text (section 3 of RFC 3629) |
| `Cose`, `AuthData` | COSE keys (section 7 of RFC 9052) and authenticator data (section 6.1 of WebAuthn Level 2) |
| `Ndef`, `NdefRuns`, `NdefReadback` | NDEF read and replace |
| `LargeBlob`, `LargeBlobWrites`, `LargeBlobReads` | the serialized large-blob array (section 6.10 of CTAP 2.1) |
| `Sequence`, `PivBatch`, `PivScan`, `PivAuthorized` | running machines in sequence, PIV batches, their acceptance scan, and their runs against a card that keeps the management flag |
| `Tlv`, `PivManagement`, `PivAccess` | BER fields, management-key authentication, SELECT and authentication around a target |
| `Compat`, `CompatReleases`, `Admin`, `AdminRun` | firmware tables, algorithm identifiers, configuration patches |
| `Oath` | decimal codes |

Three results are worth knowing before reading on:

- `read_array` counts SELECT as one exchange and allows `max_exchanges - 1` *further* reads, but
  the first `get` is not a further read. An array with length / chunk of at least
  `max_exchanges - 1` therefore makes it send one command more than `max_exchanges`, whether it is
  then read to the end or given up (`LargeBlobReads.OwnBudgetAllowsOneTooMany`;
  `OneExchangeIsOverrun` shows one). By `NoOverrunIff` it cannot happen if and only if
  `max_exchanges` is at least 4096 / chunk + 2. The engine's own exchange limit, which is not part
  of this model, is what stops it.
- `encode` accepts maps with repeated keys and `parse` refuses the bytes. The round trip holds
  exactly for values without repeated keys (`CborCanonical.EncodeThenParse`; a failing map is in
  `RepeatedKeyIsRefused`).
- The ordering rule of a batch is always sufficient for a card to be authorized. It is also
  necessary unless the card entered the batch authorized and its SELECT keeps authentication, as
  firmware through 1.6.2 does (`PivAuthorized.CardFlagIsEarned`, `EarlierSessionSurvives`).

## Model

| member | source | states |
|---|---|---|
| `CborOrder.LessIsStrictTotalOrder` | crates/canokey-ctap/src/cbor.rs:359-371 | the length-first key order is irreflexive, transitive, asymmetric and total |
| `CborOrder.OrderIsNumeric` | crates/canokey-ctap/src/cbor.rs:371-371 | the key order is the order of the numbers written by a leading 1 and the key, so a longer key always comes later |
| `CborOrder.SortCorrect` | crates/canokey-ctap/src/cbor.rs:359-371 | the key sort yields an ascending permutation of the entries |
| `CborOrder.SortStrict` | crates/canokey-ctap/src/cbor.rs:359-371 | with distinct keys the sorted keys are strictly ascending |
| `CborOrder.StrictlyAscendingUnique` | crates/canokey-ctap/src/cbor.rs:359-371 | the canonical order of a set of entries is unique |
| `CborParsing.HeadSound` | crates/canokey-ctap/src/cbor.rs:199-212 | an accepted head is spelled by the shortest-form head of its argument |
| `CborParsing.HeadComplete` | crates/canokey-ctap/src/cbor.rs:199-212 | every shortest-form head is accepted with its own argument and length |
| `CborParsing.KeyEncodes` | crates/canokey-ctap/src/cbor.rs:253-270 | the encoder inside the duplicate check never meets its depth limit |
| `CborParsing.ItemSound` | crates/canokey-ctap/src/cbor.rs:177-274 | at any position and depth, an accepted item spells exactly the bytes consumed and obeys depth, UTF-8 and duplicate rules at every depth |
| `CborParsing.ItemComplete` | crates/canokey-ctap/src/cbor.rs:177-274 | every item obeying those rules is accepted from its spelling, whatever follows |
| `CborParsing.ParserDecidesGrammar` | crates/canokey-ctap/src/cbor.rs:300-302 | parsing gives item `v` and length `n` if and only if the input starts with the wire form of `v`, of length `n`, and `v` is well formed |
| `CborParsing.EarlyRejectionLosesNothing` | crates/canokey-ctap/src/cbor.rs:238-252 | the early count tests refuse nothing the loops would have accepted |
| `CborText.ValidUtf8Exact` | crates/canokey-ctap/src/cbor.rs:233-237 | the text test accepts exactly the concatenations of one to four byte encodings of code points up to 10FFFF that are no surrogates |
| `CborCanonical.NormKeepsLimits` | crates/canokey-ctap/src/cbor.rs:338-383 | canonical ordering changes neither the depth nor the length limits, in both directions |
| `CborCanonical.NormLength` | crates/canokey-ctap/src/cbor.rs:338-383 | sorting never changes the number of encoded bytes |
| `CborCanonical.WireUnique` | crates/canokey-ctap/src/cbor.rs:319-383 | at most one item is spelled at a position of a byte string |
| `CborCanonical.NormIsCanonical` | crates/canokey-ctap/src/cbor.rs:338-383 | without repeated keys the normal form has strictly ascending keys at every depth, map keys included |
| `CborCanonical.CanonicalIsNormal` | crates/canokey-ctap/src/cbor.rs:338-383 | an item already in canonical order is left alone |
| `CborCanonical.NormIdempotent` | crates/canokey-ctap/src/cbor.rs:338-383 | canonical ordering is idempotent |
| `CborCanonical.EncodeThenParse` | crates/canokey-ctap/src/cbor.rs:300-383 | an encoding followed by anything parses to the normal form and consumes exactly the encoding, if and only if no map repeats a key; otherwise it is refused |
| `CborCanonical.RepeatedKeyIsRefused` | crates/canokey-ctap/src/cbor.rs:256-260 | a concrete map with one key twice: `encode` gives five bytes for it and `parse` refuses them |
| `CborCanonical.NestingLimit` | crates/canokey-ctap/src/cbor.rs:30-30 | both directions accept 64 levels of nesting and report a limit at 65 |
| `CborCanonical.EncodingIsPrefixFree` | crates/canokey-ctap/src/cbor.rs:313-383 | no encoding is a proper prefix of another; equal starts mean equal normal forms |
| `CborCanonical.ParseThenEncode` | crates/canokey-ctap/src/cbor.rs:284-317 | the wire-order form of a parsed item is the input; re-encoding keeps the length, and keeps the bytes if and only if every map was in canonical order; parsed maps have distinct keys |
| `CborCanonical.ParseIsInjective` | crates/canokey-ctap/src/cbor.rs:284-297 | two inputs with the same parse are equal |
| `CborCanonical.ReorderedIffNorm` | crates/canokey-ctap/src/cbor.rs:338-383 | two items have the same normal form if and only if they differ by reordering entries at any depth |
| `CborCanonical.EncodingIsCanonical` | crates/canokey-ctap/src/cbor.rs:313-383 | two encodings are equal if and only if the items differ by reordering entries |
| `CborCanonical.LookupIsUnique` | crates/canokey-ctap/src/cbor.rs:149-154 | in a map with distinct keys each lookup has one match and returns its value |
| `CborCanonical.LookupInNorm` | crates/canokey-ctap/src/cbor.rs:149-154 | lookups by integer, text or byte label commute with canonical ordering |
| `CborCodec.ReadBe` | crates/canokey-ctap/src/cbor.rs:167-175 | the byte loop computes the big-endian value, or fails exactly when bytes are missing |
| `CborCodec.ParseAt` | crates/canokey-ctap/src/cbor.rs:177-274 | the recursive parser equals the specification whose soundness and completeness are proved |
| `CborCodec.ParseEntries` | crates/canokey-ctap/src/cbor.rs:247-271 | the map loop with its set of seen encodings equals the specified entries |
| `CborCodec.ParseItem` | crates/canokey-ctap/src/cbor.rs:300-302 | success returns an item spelled by the consumed bytes; failure means no well-formed item starts the input |
| `CborCodec.Parse` | crates/canokey-ctap/src/cbor.rs:284-297 | success means the input is exactly one well-formed item; failure means it is none |
| `CborCodec.EmitHead` | crates/canokey-ctap/src/cbor.rs:319-336 | appends the shortest-form head and nothing else |
| `CborCodec.EncodeInto` | crates/canokey-ctap/src/cbor.rs:338-383 | appends the canonical encoding; the depth limit is the only failure, exactly when the item is too deep |
| `CborCodec.EncodeKeys` | crates/canokey-ctap/src/cbor.rs:359-366 | each key is encoded into its own buffer in step with the normal form, or the depth limit is reported |
| `CborCodec.EncodeSorted` | crates/canokey-ctap/src/cbor.rs:370-375 | writing sorted keys with their values writes the entries of the normal form |
| `CborCodec.Encode` | crates/canokey-ctap/src/cbor.rs:313-317 | the buffer encoder equals the canonical encoding of the theorems above |
| `Cose.KeyRoundTrip` | crates/canokey-ctap/src/cose.rs:134-237 | every valid key is read back from its own map |
| `Cose.FromValueIsValid` | crates/canokey-ctap/src/cose.rs:134-200 | every key read is valid, with the fixed lengths of its algorithm |
| `Cose.FromValueExact` | crates/canokey-ctap/src/cose.rs:134-200 | a map is read as a key if and only if its labels hold the types, curve, widths and absences of its algorithm, and the key is the one the labels spell |
| `Cose.IntegersAreExact` | crates/canokey-ctap/src/cbor.rs:85-135 | integers map to items and back by the rule that negative item n is -1 - n, within 64 bits |
| `Cose.KnownKeyIsCanonical` | crates/canokey-ctap/src/cose.rs:212-237 | known keys are written with labels in canonical order |
| `Cose.FromValueInNorm` | crates/canokey-ctap/src/cose.rs:134-200 | reading a key commutes with canonical ordering |
| `AuthData.ParseAuthData` | crates/canokey-ctap/src/authdata.rs:86-140 | the position-advancing parser equals the specified sections, errors included |
| `AuthData.AssembleThenParse` | crates/canokey-ctap/src/authdata.rs:86-140 | assembled parts parse back to exactly those parts, unknown keys and extensions in normal form |
| `AuthData.ParseThenSections` | crates/canokey-ctap/src/authdata.rs:86-140 | every accepted input is the concatenation of its sections, with sections present exactly as flagged and no byte left over |
| `AuthData.LaidIsParsed` | crates/canokey-ctap/src/authdata.rs:86-140 | a header, credential and extensions laid out as the flag bits say are accepted with exactly these parts |
| `AuthData.AcceptedIff` | crates/canokey-ctap/src/authdata.rs:86-140 | an input is accepted if and only if it is such a layout of 37 to 65536 bytes, backed up only if eligible, with an id of 1 to 1023 bytes, a key item that reads as a key, and text-keyed extensions |
| `Ndef.ReadMachine.Next` | crates/canokey-ndef/src/lib.rs:280-339 | one call of the reader equals the step function of the run theorems |
| `Ndef.WriteMachine.Next` | crates/canokey-ndef/src/lib.rs:379-434 | one call of the writer equals the step function of the run theorems |
| `Ndef.ContainerExact` | crates/canokey-ndef/src/lib.rs:181-195 | the container parser accepts exactly fifteen bytes with the 04 06 marker and a size of at least two, and reads file, size and write protection from their bytes |
| `Ndef.AdmittedIff` | crates/canokey-ndef/src/lib.rs:477-553 | the preflights refuse exactly the messages and budgets that cannot carry the run, each with its own error |
| `NdefRuns.WriteInvariant` | crates/canokey-ndef/src/lib.rs:352-434 | after any honest events, a waiting writer has left the card untouched or holding a zero length and the message so far, and a finished one has stored the message |
| `NdefRuns.WriteIsCrashConsistent` | crates/canokey-ndef/src/lib.rs:352-434 | at every point of every run, each update applied or lost, every file is untouched, announces length zero, or announces and holds the complete new message |
| `NdefRuns.WriteCount` | crates/canokey-ndef/src/lib.rs:352-434 | commands sent plus commands left is always 6 + ceil(n / chunk) |
| `NdefRuns.WriteStaysWithinBudget` | crates/canokey-ndef/src/lib.rs:523-553 | against any card the writer keeps to the exchanges checked in advance |
| `NdefRuns.UpdatesStayInside` | crates/canokey-ndef/src/lib.rs:352-434 | against any card an update is sent only if the answered container allows writing, to the file it names, and not past the size it advertises |
| `NdefRuns.ContainerDecidesWrite` | crates/canokey-ndef/src/lib.rs:392-408 | a malformed, write-protected or too small container ends the write with its own error and nothing updated; any other leads to the file it names |
| `NdefRuns.UpdatesFitChannel` | crates/canokey-ndef/src/lib.rs:202-208 | every update is at most 240 bytes and fits the command size it was prepared for |
| `NdefReadback.WriteCompletes` | crates/canokey-ndef/src/lib.rs:352-434 | an undisturbed write finishes after exactly 6 + ceil(n / chunk) commands with the message stored |
| `NdefReadback.ReadCount` | crates/canokey-ndef/src/lib.rs:256-339 | against any card a finished read took exactly 5 + ceil(n / chunk) commands |
| `NdefReadback.ReadsStayInside` | crates/canokey-ndef/src/lib.rs:256-339 | against any card a read of the file the answered container names stays within its size and the chunk |
| `NdefReadback.ReadsFitChannel` | crates/canokey-ndef/src/lib.rs:198-200 | every piece of the message is at most 240 bytes and fits the response size it was prepared for |
| `NdefReadback.ReadStaysWithinBudget` | crates/canokey-ndef/src/lib.rs:477-505 | against any card, at every point of a read, the exchanges so far and the response bytes held and still announced keep to the budgets checked in advance |
| `NdefReadback.ReadAfterWrite` | crates/canokey-ndef/src/lib.rs:256-434 | any write that reports success on an honest card that told its container truthfully took exactly 6 + ceil(n / chunk) commands, and a read on that card returns the same message, for any two chunk sizes |
| `NdefReadback.UndisturbedReadBack` | crates/canokey-ndef/src/lib.rs:256-434 | on a card that can hold the message the undisturbed write reports success and is read back |
| `LargeBlob.MacInputIs70Bytes` | crates/canokey-ctap/src/largeblob.rs:152-188 | the authenticated message has the 70 bytes the firmware rebuilds |
| `LargeBlobWrites.MacInputsAgree` | crates/canokey-ctap/src/largeblob.rs:164-176 | the host authenticates exactly the bytes a card lays out for itself: 32 times ff, 0c 00, the offset with its low byte first, the hash of the fragment |
| `LargeBlob.SetMessageOverhead` | crates/canokey-ctap/src/largeblob.rs:111-188 | every `set` message is at most 64 bytes longer than its fragment |
| `LargeBlob.GetMessageGrows` | crates/canokey-ctap/src/largeblob.rs:136-150 | a `get` at a larger offset is never shorter, so checking the last one covers all |
| `LargeBlob.ReadArray.Next` | crates/canokey-ctap/src/largeblob.rs:225-264 | one call of the reader equals the step function of the run theorems |
| `LargeBlob.WriteArray.Next` | crates/canokey-ctap/src/largeblob.rs:280-305 | one call of the writer equals the step function of the run theorems |
| `LargeBlob.FragmentsPartition` | crates/canokey-ctap/src/largeblob.rs:462-484 | fragments concatenate to the data, each offset is the sum of earlier lengths, only the first carries the total, and there are ceil(n / size) of them |
| `LargeBlob.BuildMessages` | crates/canokey-ctap/src/largeblob.rs:462-484 | the loop builds the message of every fragment in order, and fails exactly when one is over the input limit |
| `LargeBlob.NewWrite` | crates/canokey-ctap/src/largeblob.rs:453-497 | the array length, the fragment size and the exchange budget alone decide; the size test inside the loop never fires |
| `LargeBlob.FragmentsAreLargest` | crates/canokey-ctap/src/largeblob.rs:351-356 | in both directions fragments are as large as 1024 bytes and the margins of 64 and 16 allow, and one byte more would not fit |
| `LargeBlobWrites.CardSeesFragment` | crates/canokey-ctap/src/largeblob.rs:152-188 | a card decoding a `set` message and rebuilding its MAC input on its own refuses the authentication or sees exactly the fragment it was built from; the latter with the same token or none of its own |
| `LargeBlobWrites.WriteRuns` | crates/canokey-ctap/src/largeblob.rs:268-305 | in every run on a card with any token, the temporary file is the concatenation of the acknowledged fragments and the next offset its length |
| `LargeBlobWrites.WriteIsAtomic` | crates/canokey-ctap/src/largeblob.rs:268-305 | on a card with any token the stored array is the old one until the last fragment is accepted and then exactly the data; success is reported only then |
| `LargeBlobWrites.WriteNeedsToken` | crates/canokey-ctap/src/largeblob.rs:268-305 | on a card that checks a token, a host that sends none changes nothing and never reports success |
| `LargeBlobWrites.WriteCompletesIff` | crates/canokey-ctap/src/largeblob.rs:268-305 | an undisturbed write succeeds if and only if the card's integrity test accepts the data |
| `LargeBlobReads.ReadIsBounded` | crates/canokey-ctap/src/largeblob.rs:209-264 | against any card at most 4096 / chunk + 1 gets, at most 4096 bytes held, every `get` within the message checked in advance |
| `LargeBlobReads.RefusalStopsRead` | crates/canokey-ctap/src/largeblob.rs:225-264 | against any card the first answer with a failing status word or status byte ends the read with that status |
| `LargeBlobReads.AnswerFits` | crates/canokey-ctap/src/largeblob.rs:108-111 | the response margin is enough: every answer of a truthful card fits one response |
| `LargeBlobReads.CardSeesGet` | crates/canokey-ctap/src/largeblob.rs:136-150 | a card decoding a `get` message reads the offset and length it was built from |
| `LargeBlobReads.ReadIsExact` | crates/canokey-ctap/src/largeblob.rs:209-264 | on a card holding `a` that decodes and answers the messages sent, the read returns all of `a` if the budget is at least length(a) / chunk, and otherwise stops with the limit error |
| `LargeBlobReads.NeverPastTheEnd` | crates/canokey-ctap/src/largeblob.rs:225-264 | after any number of answers, the outstanding `get`, as the card decodes it, starts within the stored array |
| `LargeBlobReads.OwnBudgetAllowsOneTooMany` | crates/canokey-ctap/src/largeblob.rs:349-384 | over all arrays up to 4096 bytes, a read sends more than `max_exchanges` commands if and only if length(a) / chunk is at least `max_exchanges - 1`, and then exactly one more |
| `LargeBlobReads.OneExchangeIsOverrun` | crates/canokey-ctap/src/largeblob.rs:349-384 | a concrete failing input: one exchange allowed, an empty array, two commands sent |
| `LargeBlobReads.NoOverrunIff` | crates/canokey-ctap/src/largeblob.rs:349-384 | no array overruns the limit if and only if `max_exchanges` is at least 4096 / chunk + 2, which the caller can check before the call |
| `Sequence.SequentialAccounted` | crates/canokey-piv/src/batch.rs:258-289 | in a sequential run, completed, current and waiting machines add up, in order and within the byte limit |
| `PivBatch.BatchMachine.Next` | crates/canokey-piv/src/batch.rs:265-289 | the loop over finished requests equals the step function of the run theorems |
| `PivBatch.BatchMachine.TakeProgressNow` | crates/canokey-piv/src/batch.rs:293-298 | hands over the completed items, marks the failure behind them and leaves nothing |
| `PivBatch.BatchIsSequential` | crates/canokey-piv/src/batch.rs:265-289 | over any answers the batch stands exactly where running the requests one after the other stands |
| `PivBatch.BatchAccounting` | crates/canokey-piv/src/batch.rs:258-299 | in every reachable state completed + current + pending is the request count, items are the outputs in order within the limit, and retained progress is the completed prefix with `failed_index` at its end |
| `PivScan.FlagMeansHeld` | crates/canokey-piv/src/batch.rs:330-420 | the flag kept by the scan says that an authentication precedes with no retry reset in between |
| `PivScan.Scan` | crates/canokey-piv/src/batch.rs:311-420 | a list is accepted if and only if its size and input fit, every request prepares, and the three ordering rules hold at every place; a refusal names the first offender, a broken rule before the request's own error |
| `PivScan.InputBytes` | crates/canokey-piv/src/batch.rs:320-329 | the checked sum of input lengths, failing exactly on overflow |
| `PivAuthorized.MutationIsExact` | crates/canokey-piv/src/batch.rs:341-358 | the requests the scan calls mutations are exactly those that send a command which needs the management key, by instruction |
| `PivAuthorized.RequestCompletesIff` | crates/canokey-piv/src/batch.rs:384-412 | the PIN and retry requests complete exactly on an empty success |
| `PivAuthorized.Answered` | crates/canokey-piv/src/batch.rs:384-420 | an honest answer that completes a request leaves the card authorized after authentication, unauthorized after a retry reset, verified after VERIFY, and its flag unchanged otherwise |
| `PivAuthorized.BehindSelect` | crates/canokey-piv/src/access.rs:58-95 | past SELECT the wrapped run is the target's own run, on a card that is still authorized exactly if it was and its SELECT keeps authentication |
| `PivAuthorized.BatchRuns` | crates/canokey-piv/src/batch.rs:265-289 | from a card in any condition, with any honest answers, an outstanding command belongs to the first uncompleted request, and the card is authorized exactly if the earlier requests earned it or it was before and no retry reset completed |
| `PivAuthorized.CardFlagIsEarned` | crates/canokey-piv/src/batch.rs:330-358 | for any list, accepted or not, and any card, the flag the card keeps from its own exchanges is set if and only if an authentication precedes with no retry reset in between, or the card kept an earlier authentication over SELECT and no retry reset precedes |
| `PivAuthorized.AcceptedBatchIsAuthorized` | crates/canokey-piv/src/batch.rs:311-420 | in every run of an ordered list, a command whose instruction needs the management key is outstanding only while the card is authorized, a retry reset only directly after a PIN verification the card carried out, an algorithm configuration write only with no request left |
| `PivAuthorized.BrokenRuleIsUnauthorized` | crates/canokey-piv/src/batch.rs:330-358 | where a list breaks the rule the scan's ordering refuses it, and a mutation's command sent there finds the card authorized if and only if the card kept an earlier authentication over SELECT and no retry reset precedes |
| `PivAuthorized.FirmwareMakesRuleExact` | crates/canokey-compat/src/lib.rs:573-575 | on firmware whose SELECT is known to end authentication, the card's flag is exactly what the list earned |
| `PivAuthorized.EarlierSessionSurvives` | crates/canokey-piv/tests/legacy.rs:147-154 | a concrete card of the old firmware: after SELECT alone, a refused list's write would go out authorized |
| `Tlv.ReaderMirrorsWriter` | crates/canokey-protocol/src/tlv.rs:160-253 | the strict reader returns a field if and only if the written form of that field heads the input |
| `Tlv.TagShape` | crates/canokey-protocol/src/tlv.rs:35-64 | the checked tags are exactly the one to four byte BER tags without a leading 00 or ff or a zero tag number |
| `PivManagement.ManagementMachine.Next` | crates/canokey-piv/src/management.rs:222-278 | one call of the machine equals the step function of the run theorems |
| `PivManagement.AuthFieldExact` | crates/canokey-piv/src/management.rs:193-211 | `auth_field` accepts exactly one byte string for each tag and value |
| `PivManagement.CommandsAreBuilt` | crates/canokey-piv/src/management.rs:161-178 | the writers' limits are never met by the messages of either mode |
| `Base.StatusIsClassified` | crates/canokey-protocol/src/error.rs:127-162 | each error kind belongs to exactly its status words, phase and credential, and the status word is kept |
| `PivManagement.AuthenticationCompletesIff` | crates/canokey-piv/src/management.rs:213-278 | over all answers, authentication completes if and only if the first answer carries one block under the right tag and the second closes the exchange: the encryption of the host challenge (mutual) or empty (external) |
| `PivManagement.CardFailureIsReported` | crates/canokey-piv/src/management.rs:180-189 | a failing status at either answer ends the run with that status word, as AuthenticationFailed exactly for 6982 and 63Cx and never as a blocked PIN |
| `PivManagement.WrongCryptogramIsReported` | crates/canokey-piv/src/management.rs:251-271 | a well-formed wrong cryptogram ends as DeviceAuthenticationFailed |
| `PivManagement.CompletesAgainstCardIff` | crates/canokey-piv/src/management.rs:213-278 | against a card that recognises commands by header, key identifier and field bytes and follows the protocol with its own key, the run completes if and only if the keys agree on the blocks exchanged; always, if they are equal |
| `PivAccess.SelectedMachine.Next` | crates/canokey-piv/src/access.rs:58-95 | one call of the wrapper equals the step function of the run theorems |
| `PivAccess.PassGate` | crates/canokey-piv/src/access.rs:19-95 | at each stage a good answer leads to the next command or into the target, and any other ends the run with the target untouched |
| `PivAccess.AccessIsGated` | crates/canokey-piv/src/access.rs:12-136 | over all answers the target runs if and only if SELECT, both management messages and VERIFY were answered well, in that order, and then exactly on the answers behind them; the first answer that fails a gate ends the run with that gate's error; `Existing` sends none of them |
| `PivAccess.GateFailureIsReported` | crates/canokey-piv/src/lib.rs:331-340 | a failing SELECT or VERIFY is reported with its status word, as blocked exactly for 6983 and as wrong exactly for 63Cx where a PIN was sent |
| `PivAccess.VerifyCarriesPin` | crates/canokey-piv/src/lib.rs:383-400 | VERIFY carries the PIN itself, filled up with ff to eight bytes |
| `PivAccess.EveryCommandHasLe` | crates/canokey-piv/src/access.rs:87-93 | with explicit Le the run sends the same commands, except that each without a response length asks for 256 |
| `PivAccess.BatchProgressThroughAccess` | crates/canokey-piv/src/access.rs:43-57 | through the wrapper a batch shows no progress before its gates are open, and then exactly the completed prefix with the failure at its end |
| `Compat.ParseConfig` | crates/canokey-compat/src/lib.rs:336-372 | the loop accepts exactly the well-formed configurations and returns an injective map with every field's identifier |
| `Compat.Observed` | crates/canokey-compat/src/lib.rs:497-535 | a profile made from a parsed configuration is constructible |
| `Compat.WithLegacyPivExtensions` | crates/canokey-compat/src/lib.rs:553-562 | confirming the legacy switch keeps a profile constructible |
| `Compat.WireIdsAreInjective` | crates/canokey-compat/src/lib.rs:787-831 | no two algorithms of a constructible profile share a wire identifier |
| `Compat.WireIdRoundTrip` | crates/canokey-compat/src/lib.rs:806-851 | `algorithm_from_wire_id` is the exact inverse of `algorithm_wire_id` |
| `Compat.SupportedAlgorithmHasWireId` | crates/canokey-compat/src/lib.rs:887-937 | a supported key algorithm always has a wire identifier |
| `CompatReleases.CapabilityOfRelease` | crates/canokey-compat/src/lib.rs:569-620 | each capability is supported on exactly the release numbers of its range, the newest series included or not |
| `CompatReleases.LayoutOfRelease` | crates/canokey-compat/src/lib.rs:767-786 | the configuration layout of every release number, and an error for releases that were never inspected |
| `CompatReleases.KeySupportIff` | crates/canokey-compat/src/lib.rs:887-937 | a key algorithm is supported if and only if its release has it and the configuration gives it a usable identifier, or a 2.0 release had its extensions confirmed; RSA-1024 never |
| `CompatReleases.ConfigPlaces` | crates/canokey-compat/src/lib.rs:336-372 | each algorithm gets the byte in its place of the configuration, and no other algorithm gets any |
| `CompatReleases.ConfiguredId` | crates/canokey-compat/src/lib.rs:787-831 | the identifier of a configurable algorithm is that byte, unless extensions are off or the release reserves it for AES management or randomized signing |
| `CompatReleases.FixedIdsAreReserved` | crates/canokey-compat/src/lib.rs:354-361 | the four fixed identifiers are exactly the ones a configuration may not assign |
| `CompatReleases.DefaultIdsResolve` | crates/canokey-compat/src/lib.rs:806-851 | what each default identifier resolves to, on 2.x releases and on the others |
| `Admin.GatesMatchLayouts` | crates/canokey-admin/src/execute.rs:144-205 | a patch is admitted if and only if the firmware layout is known, the access authenticates, the layout has every selected flag, and feature bits are well formed and go to a layout that has them |
| `Admin.ConfigureRefusal` | crates/canokey-admin/src/execute.rs:113-205 | why a patch is not admitted: unknown firmware, missing feature, no authentication, malformed bits, in that order |
| `Admin.ReadableIff` | crates/canokey-admin/src/types.rs:113-131 | a configuration is accepted exactly when it has the length of its layout and every flag its getters report is 0 or 1 |
| `Admin.AdmittedPatchHasFields` | crates/canokey-admin/src/execute.rs:371-396 | an admitted patch never reaches the absent-field error |
| `Admin.FieldWritesExact` | crates/canokey-admin/src/execute.rs:400-412 | the flag writes are exactly those of the selected fields that differ, in ascending order of their byte |
| `Admin.WritesAreNeeded` | crates/canokey-admin/src/execute.rs:370-426 | the queue touches each byte at most once and only to change it |
| `Admin.WritesRealisePatch` | crates/canokey-admin/src/execute.rs:370-426 | applying the queue replaces the selected flags and feature bits and nothing else |
| `Admin.PrefixIsMixture` | crates/canokey-admin/src/execute.rs:370-426 | after any prefix of the queue every byte is the old one or the patched one, as that byte's write lies behind or before the cut |
| `AdminRun.Machine.PatchQueue` | crates/canokey-admin/src/execute.rs:370-426 | the loop extends the queue by exactly the needed writes, or refuses and leaves it alone |
| `AdminRun.Machine.Next` | crates/canokey-admin/src/execute.rs:554-584 | one call of the machine equals the step function of the run theorems |
| `AdminRun.PatchRefusedIff` | crates/canokey-admin/src/execute.rs:413-419 | a patch is refused if and only if it would change feature bits while unknown ones are set |
| `AdminRun.RepeatedPatchIsSilent` | crates/canokey-admin/src/execute.rs:370-426 | repeating an applied patch queues no write |
| `AdminRun.ConfigureRun` | crates/canokey-admin/src/execute.rs:554-591 | in every run on every honest card with a PIN of its own, with failed, refused and lost writes, the card holds exactly the acknowledged writes plus possibly the one whose answer failed, and the retained outcome confirms exactly the acknowledged ones |
| `AdminRun.RefusedRun` | crates/canokey-admin/src/execute.rs:554-591 | a refused patch never sends a write, whatever is answered: the card and the count stay as they were |
| `AdminRun.CommandsInOrder` | crates/canokey-admin/src/execute.rs:211-227 | in every run the commands are SELECT, VERIFY of the given PIN and the read (or the read alone on an existing session), then writes, each sent only after the one before was acknowledged |
| `AdminRun.WritesFollowVerify` | crates/canokey-admin/src/execute.rs:211-219 | while a write is outstanding under PIN access, SELECT and then VERIFY with that PIN were sent and answered with success, the PIN is the card's, and the card still holds the verification; an existing session sends neither |
| `AdminRun.WrongPinWritesNothing` | crates/canokey-admin/src/execute.rs:554-591 | with a PIN that is not the card's, no run writes anything or succeeds |
| `AdminRun.PinFailureIsReported` | crates/canokey-admin/src/execute.rs:559-573 | a failing VERIFY ends the run with its status word, as blocked exactly for 6983 and as wrong exactly for 63Cx |
| `AdminRun.CompletedRunIsPatched` | crates/canokey-admin/src/execute.rs:370-591 | any run that reports success has left exactly the patched configuration and confirmed every write, for every firmware, configuration and admitted patch |
| `AdminRun.UndisturbedRunCompletes` | crates/canokey-admin/src/execute.rs:554-591 | on a card whose PIN is given, or in a verified session, an undisturbed run of a patch that is not refused reports success after the opening and one command per write |
| `Oath.Decimal` | crates/canokey-oath/src/types.rs:291-305 | exactly the requested number of ASCII digits, whose value is the 32-bit code modulo that power of ten (section 5.3 of RFC 4226); absent exactly for other codes and digit counts |

## Left out

- The engine of `canokey-protocol`: command validation, APDU chaining, 61xx and 6Cxx continuation, per-exchange budgets. Machines are modelled at the level of logical commands and reassembled answers.
- Cryptography: ciphers are permutations of blocks, MACs are functions of fixed output width, and the integrity trailer of a large-blob array is a predicate of the card.
- Error details beyond kind, phase and status word: secret references and retry counters are not carried, and the CTAP status kinds of a large-blob answer are one kind with the status byte.
- The TLV reader and writer and the field loop of management commands are functions on values, not objects that advance a slice or fill a buffer; depth limits are not reached by the two levels used.
- The preflight of `with_access` and of `ManagementAuthentication::validate`: firmware support and command limits are taken as passed.
- The `prepare` functions of the individual batch requests: a request is its kind, its input length and the machine (or error) its own checks prepare. The machines of authentication, PIN verification and retry reset are modelled; the others are abstract.
- PivAuthorized.AcceptedBatchIsAuthorized: assumes of the abstract machines that each keeps to the instructions its request sends in the source (`MaySend`, kind by kind); their data fields are not modelled.
- Firmware version text, serial, model and the warnings of `from_observations`; a profile is its version, its configuration and the confirmed switch.
- Lengths at or above 2^64 in CBOR values, which a 64-bit machine cannot hold; integers of the other layers are bounded where the source bounds them.
- Admin requests other than `Configure`, and the explicit Le of its write commands.
- The NDEF capability machine, OATH machines, PIV directory and random reads, OpenPGP, and the CTAP message builders over the CBOR core: they repeat shapes proved here.
- The C interface, zeroization and Debug redaction.
