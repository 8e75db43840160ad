# keyroost, modelled and proved

keyroost manages security keys. This project models the parts of it above
the I/O line that carry state, loops or arithmetic, and proves what they
promise. Each file holds one module; `dafny verify dfyconfig.toml` checks them
all.

- **Large-blob store.** `Cbor` (the encoder, the lenient decoder, the measurer
  and the splitters), `CborLaws`, `CborCode` (their loops); `LargeBlobs` and
  `LargeBlobLaws` (the array whose elements survive every rewrite) and
  `BlobTracking` (which elements a sequence of edits can change);
  `DeviceLabel` (the name kept on a key); `BlobDevice` (fragmented reads and
  writes, check-then-write) and `BlobProtocol` (the same against an
  authenticator that keeps section 6.10.2 of CTAP 2.1).
- **Import.** `ImportModel`, `OathNames`, `ImportPlan` and `PlanLaws` (names,
  duplicates, the prefix rule, room, slots); `ImportRun`, `RunLaws`,
  `RunPlanLaws`, `HiddenLaws` and `IndexLaws` (the write loop against a key that
  may refuse anything and lose any answer, running it again, codes the key
  cannot name, and files that repeat an index); `MoltoWrite` (the three commands
  of one slot).
- **CTAP-HID framing.** `Hid`, `HidCode`, `HidLaws` (section 11.2.4 of CTAP
  2.1), `HidTiming` (how long a command can take).
- **Readers.** `Calendar`, `Base64`, `SshCert`, `SshCertLaws`, `SshCertWrites`;
  `Text` and `Utf8`; `Entries`, `Base32`, `OtpAuth`, `OtpAuthLaws`,
  `OtpAuthWrites`; `Migration`, `MigrationLaws`; `UriLists`, `ListLaws` and
  `ListWrites` (one URI a line, exports included).

How it is written: where the program loops over mutable state, a method or
a class does, and is proved equal to a function; what the program promises is
then proved about the function, for all inputs. Functions that only compute
follow the program's own branches. `Prelude`, `Bytes`, `Division` and `Strings`
hold what the others share.

What stands for the outside world:

- A large-blob device is any function from a state and a request to a state
  and an answer. `BlobProtocol.Conforms` says which of them keep the standard;
  a conforming one may still refuse anything and lose any answer.
- A key that codes are written to is a record of functions (`ImportRun.Key`).
  `Lawful` says that a call which succeeds does what it says, that a name is
  refused as existing only when it is there, and that such a refusal, like a
  full key, changes nothing; a call that fails in any other way may have been
  carried out, and a Molto2 slot may be left with the new seed only
  (`MoltoWrite.WriteSlotIsAnAdd`). `Honest` says that none of that happens; what
  holds only then is stated under that condition.
- What HID reads will find is a list of polls, each with the time and the
  cancel flag as the code sees them there; a list that runs out leaves the
  receive waiting. Which writes fail is a list too. `HidTiming.OneClock` puts
  the times of one command in order.
- AES-GCM, SHA-256 and DEFLATE beyond stored blocks are functions in
  `Ctap.Crypto`; the one law assumed of AES-GCM is that opening what was sealed
  under the same nonce and size gives it back. Nonces, authentication tokens
  and the conversion of names that are not valid UTF-8 are parameters.

Where the code and its documentation disagree, the code is followed:

- `crates/keyroost-ctap/src/device_label.rs:157` puts a name's plaintext under
  300 bytes. The limits are in characters, and two texts of 64 four-byte
  characters take 523 (`DeviceLabel.TheLongestName`).
  `DeviceLabel.UnderThreeHundred` gives the exact condition, which every name
  with keyroost as its writer meets; a stored block holds the longest all the
  same (`DeviceLabel.NameRoundTrip`).
- The 64 KiB cap on reading counts whole fragments only, so an array somewhat
  over it is still read when its last fragment is short
  (`BlobProtocol.ReadsWhatIsStored` gives the exact condition).
- `crates/keyroost-ctap/src/hid.rs:84-87` says the retry budget keeps a busy
  key from holding a command longer than a silent one. The budget decides
  whether another attempt starts; that attempt then has a full receive deadline
  of its own. `HidTiming.ABusyKeyCanTakeLonger` is such a run,
  `HidTiming.SitsLongerExactlyWhenRetried` says that it takes one retry and no
  less, and `HidTiming.DeadlinesAreBounded` how much longer it can be.
- The two otpauth readers differ on a URI that repeats `digits` or
  `algorithm` (`OtpAuthLaws.NarrowRefinesWide` gives the exact condition,
  `OtpAuthWrites.ReadersDifferOnARepeat` such URIs).
- keyroost's own README (lines 944-947) says that running an import again is
  safe. When nothing is to be replaced it is, whatever the key answers and
  wherever the run stopped (`RunPlanLaws.CarryingOnIsSafe`), exactly when no
  code the key holds but cannot name has the name of a row the run can reach
  (`HiddenLaws.SafeExactlyWhenHiddenNamesAreOthers`); a key with no such codes
  always meets that.
- A run looks an entry up by its index (`crates/keyroost-import/src/run.rs:224-228`),
  and a list with an export of more than one account repeats one (`bulk.rs:684-692`
  of the same crate; `ListLaws.DistinctExactlyWhenExportsAreSingle`). A row then
  stores the first item's entry under its own name
  (`IndexLaws.SharedIndexStoresTheWrongEntry`, with entries as in
  `IndexLaws.SuchEntriesExist`, and from the file on
  `ListWrites.AListStoresTheWrongEntry`, with accounts as in
  `ListWrites.SuchAccountsExist`), or is lost when that item holds none
  (`ListWrites.AListLosesAnEntry`).
  `IndexLaws.StoresItsOwnExactlyWhenFoundFirst` gives the exact condition for a
  row to store its own.

## Model

| member | source | states |
|---|---|---|
| CborLaws.RoundTrip | crates/keyroost-ctap/src/cbor.rs:134-252 | Decoding what was encoded, with anything after it, gives the value and what follows if and only if the value nests at most 16 levels; deeper values give the depth error and no other. |
| CborLaws.MeasureRefinesDecode | crates/keyroost-ctap/src/cbor.rs:190-310 | Whenever the lenient decoder accepts, the measurer gives exactly the length it consumed, and re-encoding the value is never longer than that. |
| CborLaws.DecodedItem | crates/keyroost-ctap/src/cbor.rs:194-310 | The same at every depth: an accepted value is well formed, its rest is a suffix, and its measure is what was consumed. |
| CborLaws.MeasuredItemStandsAlone | crates/keyroost-ctap/src/cbor.rs:264-310 | A measured item is between one byte and the input long, unaffected by what follows it, and of the same length at any smaller depth. |
| CborLaws.SplitArrayElements | crates/keyroost-ctap/src/cbor.rs:312-348 | The elements an array is split into are its bytes in order, each is one item, and each that is a map splits into pairs with nothing left over. |
| CborLaws.SplitArrayOfParts | crates/keyroost-ctap/src/cbor.rs:312-331 | An array header followed by raw elements splits back into exactly those elements and the rest. |
| CborLaws.SplitMapOfEncoded | crates/keyroost-ctap/src/cbor.rs:333-348 | Splitting an encoded map gives each key and value as it was encoded. |
| CborLaws.HeaderIsShortest | crates/keyroost-ctap/src/cbor.rs:170-188 | Whatever header an argument was read from, the encoder's own header is never longer. |
| CborLaws.EncodedIsOneElement | crates/keyroost-ctap/src/cbor.rs:264-310 | An encoded value nesting below the limit measures as one array element of its own length. |
| CborCode.EncodeInto | crates/keyroost-ctap/src/cbor.rs:140-168 | The recursive writer appends exactly the canonical encoding to the buffer it is given. |
| CborCode.EncodeHeader | crates/keyroost-ctap/src/cbor.rs:170-188 | The branches on the argument's size append exactly the shortest header. |
| CborCode.DecodeValue | crates/keyroost-ctap/src/cbor.rs:194-252 | The decoder with its container loops computes the decoding relation, errors included. |
| CborCode.MeasureItem | crates/keyroost-ctap/src/cbor.rs:264-310 | The measurer with its loops computes the measure, errors included. |
| CborCode.SplitArrayRaw | crates/keyroost-ctap/src/cbor.rs:312-331 | The loop cuts an array into raw elements, or fails as the specification does. |
| CborCode.SplitMapRaw | crates/keyroost-ctap/src/cbor.rs:333-348 | The loop cuts a map into raw keys and values, or fails as the specification does. |
| LargeBlobs.BuiltEntryConforms | crates/keyroost-ctap/src/large_blobs.rs:461-470 | An entry built here is recognised again, field for field, from its encoding. |
| LargeBlobLaws.ParsedIsValid | crates/keyroost-ctap/src/large_blobs.rs:255-263 | Parsing keeps every element's bytes in order, recognised or not, and counts what follows the array. |
| LargeBlobLaws.WrittenReadsBack | crates/keyroost-ctap/src/large_blobs.rs:333-360 | What is written for valid items parses, with nothing left over, to the same items in the same order. |
| LargeBlobLaws.EditedReadsBack | crates/keyroost-ctap/src/large_blobs.rs:255-430 | After any sequence of edits of an array read from a key, the written form parses back to the same elements byte for byte; an array read with trailing bytes is never written. |
| LargeBlobLaws.ApplyAllKeepsSound | crates/keyroost-ctap/src/large_blobs.rs:363-430 | Every array reachable by edits keeps valid items and the trailing count it was read with. |
| LargeBlobLaws.EditsChangeOnlyWhatTheyName | crates/keyroost-ctap/src/large_blobs.rs:373-391 | A note is replaced exactly when the number names a note, and only that element changes; an entry is removed exactly when the number names one, and every other element keeps its bytes and order. |
| BlobTracking.OnlyNamedElementsChange | crates/keyroost-ctap/src/large_blobs.rs:363-430 | Over any sequence of edits (removals by number included), an element keeps its exact bytes if and only if no edit names it, whoever wrote it; those kept stay in the order they began in. |
| BlobTracking.UnnamedElementsKeepTheirBytes | crates/keyroost-ctap/src/large_blobs.rs:363-430 | So every element no edit named, another tool's or one that could not be read, is found in the array at the end with its bytes as they were. |
| LargeBlobLaws.ItemIndexOf | crates/keyroost-ctap/src/large_blobs.rs:305-314 | The number of an entry is turned into the place of the item that is that entry, past the skipped ones. |
| LargeBlobLaws.LabelAfterSetting | crates/keyroost-ctap/src/large_blobs.rs:393-430 | After a name is set there is exactly one name entry, it is last, and it is the array's name; after clearing there is none; everything else is what was not a name before. |
| LargeBlobLaws.LaterLabelAbsorbs | crates/keyroost-ctap/src/large_blobs.rs:403-420 | Setting a name twice is setting it once, the second time. |
| BlobDevice.RecognizeEntry | crates/keyroost-ctap/src/large_blobs.rs:593-625 | The loop that fills the three slots accepts exactly the elements the specification calls entries: no key missing, repeated or mistyped. |
| DeviceLabel.NameRoundTrip | crates/keyroost-ctap/src/device_label.rs:141-205 | For every name of 1 to 64 characters, with or without a writer of 1 to 64, and every nonce, decoding the encoded entry gives it back; any other name is refused; the plaintext is at most 523 bytes. |
| DeviceLabel.PlaintextSize | crates/keyroost-ctap/src/device_label.rs:141-157 | The exact size of a name's plaintext, from the UTF-8 lengths of its one or two texts. |
| DeviceLabel.UnderThreeHundred | crates/keyroost-ctap/src/device_label.rs:141-157 | A name's plaintext is under 300 bytes if and only if it has no writer or its two texts with their headers take under 295; with keyroost as the writer it always is. |
| DeviceLabel.TheLongestName | crates/keyroost-ctap/src/device_label.rs:141-157 | Two texts of 64 four-byte characters are a valid name whose plaintext takes 523 bytes. |
| DeviceLabel.InflateOfStored | crates/keyroost-ctap/src/device_label.rs:158-170 | Any data of at most 65535 bytes comes back from the stored block it is wrapped in. |
| BlobDevice.Device.Read | crates/keyroost-ctap/src/large_blobs.rs:526-567 | The fragment loop against a device whose state it changes computes the specified read for any device; each continued step adds at least one byte toward the cap. |
| BlobDevice.Device.Write | crates/keyroost-ctap/src/large_blobs.rs:648-686 | The write loop sends the specified requests in order and stops at the first refusal. |
| BlobDevice.Device.ApplyLabelPlan | crates/keyroost-ctap/src/device_label.rs:282-295 | Re-read, compare, write: exactly as specified, on the device's own state. |
| BlobProtocol.GetIsUnderstood | crates/keyroost-ctap/src/large_blobs.rs:496-510 | An authenticator that decodes the request of section 6.10.2 of CTAP 2.1 reads the count and offset that were asked for. |
| BlobProtocol.SetIsUnderstood | crates/keyroost-ctap/src/large_blobs.rs:648-686 | It reads the fragment and offset that were sent, and the length on the first fragment only. |
| BlobProtocol.ReadsWhatIsStored | crates/keyroost-ctap/src/large_blobs.rs:526-567 | Reading gives exactly the stored bytes if and only if the whole fragments of them stay within 64 KiB; so for every array of at most 65536 bytes, exact multiples included. |
| BlobProtocol.WriteSendsContiguousFragments | crates/keyroost-ctap/src/large_blobs.rs:648-686 | The fragments are non-empty, no longer than the limit, contiguous, concatenate to the data, and only the first carries the total. |
| BlobProtocol.WriteIsAllOrNothing | crates/keyroost-ctap/src/large_blobs.rs:648-686 | Against the write state machine of section 6.10.2 of CTAP 2.1, a write stores all of the data or leaves what was stored; done means stored, a refusal means unchanged. |
| BlobProtocol.WritesExactlyWhatChecks | crates/keyroost-ctap/src/large_blobs.rs:648-686 | An authenticator that accepts what it may ends storing all of the data, and the write reports it done, if and only if the data's checksum is right. |
| BlobProtocol.PlannedBytes | crates/keyroost-ctap/src/device_label.rs:252-278 | The planned bytes pass their own checksum and hold every non-name element of the array planned from, in order, and as their only name exactly the one asked for, or none. |
| BlobProtocol.ApplyLosesNothing | crates/keyroost-ctap/src/device_label.rs:252-295 | Whoever wrote before the re-read, the stored array ends unchanged or exactly as planned; when it changed, every non-name element stored at the re-read is still there byte for byte, and its name is the one asked for, or none when clearing. |
| BlobProtocol.ApplyStoresThePlan | crates/keyroost-ctap/src/device_label.rs:282-295 | While the array planned from is still the one stored, an authenticator that answers reads and accepts what it may ends storing the planned bytes, and the change is reported done. |
| OathNames.NamedExactlyWhenItReadsBack | crates/keyroost-import/src/plan.rs:688-728 | A TOTP name is given exactly when it reads back as the entry's own period and issuer/account parts. |
| OathNames.NamesAreUnambiguous | crates/keyroost-import/src/plan.rs:697-728 | Two such entries share a stored name only if they agree on period and parts. |
| ImportPlan.PlanImport | crates/keyroost-import/src/plan.rs:852-961 | The two loops compute the specified plan: one row an item in order, then room. |
| ImportPlan.PlanOne | crates/keyroost-import/src/plan.rs:852-935 | One turn of the loop gives the specified row, remembered names and next slot. |
| ImportPlan.FitToRoom | crates/keyroost-import/src/plan.rs:936-950 | Rewriting verdicts in place turns exactly the adds past the capacity into skips. |
| ImportPlan.CutTitle | crates/keyroost-import/src/entry.rs:196-203 | Stepping back from 12 bytes ends at the longest prefix of whole characters that fits. |
| ImportPlan.LongestPrefixEndsAtBoundary | crates/keyroost-import/src/entry.rs:196-203 | That prefix ends on a character boundary and no later boundary fits. |
| PlanLaws.WrittenNamesAreDistinctAndSafe | crates/keyroost-import/src/plan.rs:852-935 | No two rows write one name, and on firmware with the prefix issue no row writes a name that starts a different name on the key or written before it. |
| PlanLaws.RefusedStaysRefused | crates/keyroost-import/src/plan.rs:899-924 | A name refused by the prefix rule is never written later in the file. |
| PlanLaws.RoomIsUsedInFileOrder | crates/keyroost-import/src/plan.rs:936-950 | The number of adds is the smaller of the candidates and the free room; every add precedes every row without room; every other row is as it was. |
| PlanLaws.SlotsAreConsecutive | crates/keyroost-import/src/plan.rs:866-898 | On a Molto2 the written rows take consecutive slots from the first, none past 99, replacing exactly the slots in use; a row without a slot says why. |
| PlanLaws.PlanWritesDistinctPlaces | crates/keyroost-import/src/plan.rs:852-961 | No two rows of any plan write to the same place. |
| PlanLaws.PlannedAgain | crates/keyroost-import/src/plan.rs:852-935 | Both loops side by side: with the first adds already on the key, those rows become Exists and every other row is the same. |
| PlanLaws.PlanningAgainIsSafe | crates/keyroost-import/src/plan.rs:852-961 | Planning again after the first k adds were stored gives the same plan with exactly those k rows turned to Exists, room and refusals unchanged; after all of them it writes nothing. |
| ImportRun.CodeStore.RunPlan | crates/keyroost-import/src/run.rs:166-190 | The loop over a mutable key computes the specified run: state, outcomes, stop and calls. |
| ImportRun.CodeStore.WriteRow | crates/keyroost-import/src/run.rs:215-260 | Add, and only after a refusal delete and add again, exactly as specified. |
| RunLaws.WriteOneEffect | crates/keyroost-import/src/run.rs:215-260 | One write touches its own place only, and its outcome says what is there; a failure leaves open whether its call was carried out, and in a Molto2 slot may leave the new seed only, except on a key that loses no answer and cuts nothing short; a name is gone only if its deletion was asked for. |
| RunLaws.RunToEffect | crates/keyroost-import/src/run.rs:166-190 | After any part of a run, every row's outcome describes its place in that way and every other place is as it was, whether or not every row's entry is found. |
| RunLaws.NothingAfterStop | crates/keyroost-import/src/run.rs:166-190 | Once stopped, no call is made and every later row gets the stop's outcome. |
| RunLaws.StopsAtFirstFailure | crates/keyroost-import/src/run.rs:166-190 | A run stops at its first failure: the failing row's own calls are the last, and later rows are not tried, or have no room when the key was full. |
| RunLaws.OnlyTheStoppingRowIsUncertain | crates/keyroost-import/src/run.rs:166-260 | Only the row that stopped the run can be uncertain: every row before it went through, every row after it was not tried, and its own calls are the last. |
| RunLaws.AtMostOneNameIsLost | crates/keyroost-import/src/run.rs:215-260 | At most one name is ever lost, whatever answers are lost too: it is the name of the row that stopped the run, reported removed and not added or failed with the delete as its last call; every later row was not tried, and its calls are the last of the run. |
| RunLaws.PlansAreRunnable | crates/keyroost-import/src/run.rs:215-232 | Every writing row of a plan has a name, and no two have one place. |
| RunLaws.WritingRowOf | crates/keyroost-import/src/run.rs:215-232 | A writing row is for the item at its place in the file, which holds an entry; when item indexes are distinct, the entry the run finds is that one. |
| RunLaws.RunStoresWhatItReports | crates/keyroost-import/src/run.rs:166-260 | End to end, for every file, against a key that may overwrite, refuse, fill up, fail, be cut short or lose its answer at any call: each Added or Replaced row's name holds the entry of the first item with its index (its own item's, when indexes are distinct), rows not written left their names as they were, no other name is touched, and a name is gone only if its deletion was asked for; on a key that loses no answer a failed row's name is as it was. |
| RunLaws.TouchIsStoredAsAsked | crates/keyroost-import/src/plan.rs:504-514 | With a touch asked for on chosen rows, each added or replaced row ends with its item's entry and the touch exactly as chosen, never on a Molto2; names, verdicts and order are the plan's. |
| IndexLaws.StoresItsOwnExactlyWhenFoundFirst | crates/keyroost-import/src/run.rs:215-232 | For every file, plan, lawful key and row reported added or replaced: its own item's entry is under its name if and only if the first item with its index holds that entry. |
| IndexLaws.AllStoreTheirOwnExactlyWhenFoundFirst | crates/keyroost-import/src/run.rs:166-260 | On an empty key that takes every add, every row is written and stores its own item's entry if and only if for every row the first item with its index holds that entry. |
| IndexLaws.FoundIsFirst | crates/keyroost-import/src/run.rs:224-228 | The entry a write finds for an index is the entry of the first item in the file with it. |
| IndexLaws.SharedIndexStoresTheWrongEntry | crates/keyroost-import/src/bulk.rs:684-692 | A file of two items with one index, planned for an empty Molto2 and run: the second item's slot, under the second item's title, ends with the first item's secret. |
| UriLists.ReadList | crates/keyroost-import/src/bulk.rs:667-718 | The loop over the lines computes the specified list: numbers, the limit of 1000 items, unreadable exports, the first batch. |
| UriLists.ReadUri | crates/keyroost-import/src/migration.rs:58-96 | The loop over a query's parts keeps the last data value, and the payload is it percent-decoded, pluses kept, and read as base64. |
| ListLaws.ItemsComeFromTheirLines | crates/keyroost-import/src/bulk.rs:667-718 | Every item's index is the number of the line that gave it; the items are the lines' in order, as many as each holds, never more than 1000. |
| ListLaws.DistinctExactlyWhenExportsAreSingle | crates/keyroost-import/src/bulk.rs:684-692 | A list's items have distinct indexes if and only if no line of it is an export of more than one account. |
| ListWrites.ListReadsBack | crates/keyroost-import/src/bulk.rs:667-718 | Any entries a URI can carry and any exports, written one a line with blank lines between, are read as exactly their items in order under their line's number; more than 1000 are refused, none is an empty file. |
| ListWrites.AListStoresTheWrongEntry | crates/keyroost-import/src/bulk.rs:684-692 | A list that is one export of two accounts, read, planned for an empty Molto2 and run: the second account's slot, under its title, ends with the first account's entry. |
| ListWrites.AListLosesAnEntry | crates/keyroost-import/src/run.rs:224-232 | When the first of the two is one no key takes, the second is planned, and the run reports it no longer in the file and stores nothing. |
| MoltoWrite.WriteSlotIsAnAdd | crates/keyroost-transport/src/import.rs:688-701 | However the three commands of a slot write fare, what it leaves and answers is what the run's laws allow a key; it succeeds exactly when all three do. |
| MoltoWrite.NewSeedUnderTheOldTitle | crates/keyroost-transport/src/import.rs:688-701 | A title command that fails leaves the new seed under the old title and settings. |
| MoltoWrite.PlannedIsSendable | crates/keyroost-transport/src/import.rs:635-681 | Every row a Molto2 plan writes, with its own item's entry, passes the checks made before the first command if and only if the entry has a secret. |
| IndexLaws.FailedButStored | crates/keyroost-import/src/run.rs:215-260 | On a key that stores the code and loses its answer the row is reported failed with its own code stored: what a failure leaves open does happen. |
| RunPlanLaws.NothingOnTheKeyStartsWithIt | crates/keyroost-import/src/plan.rs:114-140 | At every write of every run on such firmware, no different name on the key, listed or written earlier in the run, starts with the name being written. |
| RunPlanLaws.NeverPastCapacity | crates/keyroost-import/src/plan.rs:936-950 | No step of a run takes the key past its capacity, or past what it held if that was more already. |
| RunPlanLaws.AddsInOrder | crates/keyroost-import/src/run.rs:166-260 | Without replacing, whatever the key answers and whatever answer is lost, a run adds exactly the first few rows; the codes held are those before and these, and the one that failed if it was carried out after all. Codes the key does not list must not have the name of a row the run can reach. |
| RunPlanLaws.CarryingOnIsSafe | README.md:944-947 | Running the import again is safe: planning from a new listing after any run gives the old plan with exactly the rows on the key turned to Exists, the added ones and the failed one if it was carried out, and writes nothing when that is all of them. |
| HiddenLaws.SafeExactlyWhenHiddenNamesAreOthers | crates/keyroost-oath/src/lib.rs:929-966 | With codes the key holds but cannot name: running the import again is safe in that way for every lawful key and every later listing if and only if none of them has the name of a row the run can reach. Codes written over are listed from then on. |
| HiddenLaws.AHiddenNameBreaksIt | crates/keyroost-import/src/run.rs:215-260 | When one does, a key that refuses what it holds is one it fails for: the row is reported already there, and planning again does not find it. |
| HidCode.HidDevice.SendMessage | crates/keyroost-ctap/src/hid.rs:568-600 | The frame buffer loop writes exactly the specified frames, or the first of them up to a write fault. |
| HidCode.HidDevice.Receive | crates/keyroost-ctap/src/hid.rs:632-716 | The two wait loops compute the specified receive, keepalives, errors and deadline included. |
| HidCode.HidDevice.ReceiveRest | crates/keyroost-ctap/src/hid.rs:684-716 | The continuation loop, from the first chunk on. |
| HidCode.HidDevice.WaitReport | crates/keyroost-ctap/src/hid.rs:611-623 | The deadline is checked first, then cancellation, and only then is a report read. |
| HidCode.HidDevice.DoInit | crates/keyroost-ctap/src/hid.rs:535-566 | The channel request and its loop over answers, with one deadline for all of them. |
| HidCode.HidDevice.Transact | crates/keyroost-ctap/src/hid.rs:461-525 | The retry loop computes the specified exchange and retries. |
| HidLaws.FramesCarryTheMessage | crates/keyroost-ctap/src/hid.rs:42-50 | The frames sent carry the message if and only if it is at most 7609 bytes: one byte more and a masked sequence number differs from the receiver's counter. |
| HidLaws.ContFramesSpell | crates/keyroost-ctap/src/hid.rs:584-600 | From any counter on, the masked numbers match exactly while at most 128 - counter more frames are needed. |
| HidLaws.LongerMessagesLoseTheirPlace | crates/keyroost-ctap/src/hid.rs:684-716 | Without the limit a longer message would be refused as out of sequence, 0 where 128 is expected. |
| HidLaws.MessageArrives | crates/keyroost-ctap/src/hid.rs:632-716 | Keepalives, then a message's frames, then others on a channel, with any empty polls and frames of other channels between: the receive returns exactly the message and leaves the others. |
| HidLaws.WhatIsSentArrives | crates/keyroost-ctap/src/hid.rs:568-716 | For every payload the sender accepts, what one side frames the other reassembles. |
| HidLaws.EachReachesItsOwn | crates/keyroost-ctap/src/hid.rs:632-716 | Two messages shuffled frame by frame on two channels each reach their own receiver. |
| HidLaws.OthersCannotHoldItOpen | crates/keyroost-ctap/src/hid.rs:611-650 | With nothing on its own channel a receive ends in a timeout, cancellation or fault as soon as one poll is late, cancelled or broken; frames on other channels never hold it open. |
| HidLaws.OthersCannotHoldTheRestOpen | crates/keyroost-ctap/src/hid.rs:684-716 | The same between the frames of a message. |
| HidLaws.FirstFrameDecides | crates/keyroost-ctap/src/hid.rs:644-682 | The first frame on the channel that is no keepalive decides: an error frame is reported with its code, another command or an oversized length as such, whatever came between. |
| HidLaws.AnswerComesBack | crates/keyroost-ctap/src/hid.rs:461-511 | A command whose writes work and whose answer arrives in time writes its own frames once and returns exactly the answer. |
| HidLaws.ReceivedWasCarried | crates/keyroost-ctap/src/hid.rs:632-716 | Nothing is received that did not arrive: the frames taken are keepalives, then frames carrying exactly what is returned. |
| HidLaws.OwnChannelIsFound | crates/keyroost-ctap/src/hid.rs:535-566 | However many other programs' answers come first, the request gets the channel of its own answer. |
| HidLaws.ChannelComesFromOwnNonce | crates/keyroost-ctap/src/hid.rs:535-566 | A channel is only ever taken from an answer carrying the request's own nonce. |
| HidLaws.SendWritesAllOrReports | crates/keyroost-ctap/src/hid.rs:568-600 | A message too long is refused with nothing written; otherwise the written reports are the frames in order, all of them exactly when no fault is reported. |
| HidLaws.RetriesAreBounded | crates/keyroost-ctap/src/hid.rs:205-221 | At most four attempts, none started after a pause that could pass 1500 ms, each writing the same frames; the result is the last attempt's own, and busy is returned only when attempts or budget ran out. |
| HidTiming.DeadlinesAreBounded | crates/keyroost-ctap/src/hid.rs:76-90 | On one clock, no receive of a command without keepalives has a deadline as far as the retry budget (plus how late the pauses end) past the first one's. |
| HidTiming.EverythingIsReadInTime | crates/keyroost-ctap/src/hid.rs:205-221 | Without keepalives, everything a command reads over all its attempts comes before the latest of their deadlines. |
| HidTiming.SitsLongerExactlyWhenRetried | crates/keyroost-ctap/src/hid.rs:76-90 | Whether a busy key can hold a command longer than a silent one: if the first answer is not retried, everything is read before the silent key's deadline; if it is, the same answer and then silence keeps the command reading at that deadline or later. |
| HidTiming.OneDeadlineExactlyWhenNotRetried | crates/keyroost-ctap/src/hid.rs:205-221 | The last receive's deadline is no later than the first's if and only if the first answer was not retried. |
| HidTiming.ABusyKeyCanTakeLonger | crates/keyroost-ctap/src/hid.rs:76-90 | With the two-second timeout, a busy answer after 1299 ms and then silence has any command still reading at 3498 ms and timing out at 3499 ms. |
| Calendar.DateOfDay | crates/keyroost-ctap/src/ssh_cert.rs:208-219 | Every day number, negative ones too, gives a real date (month 1 to 12, day within the month, leap years) whose day count is that number. |
| Calendar.DayOfDate | crates/keyroost-ctap/src/ssh_cert.rs:208-219 | Every real date is the date of its own day count: the two are inverse. |
| Calendar.NextDayNextDate | crates/keyroost-ctap/src/ssh_cert.rs:208-219 | The next day number gives the next date of the calendar. |
| Calendar.NothingUnderflows | crates/keyroost-ctap/src/ssh_cert.rs:208-219 | Every unsigned subtraction stays at or above zero. |
| Calendar.YearsAddUp | crates/keyroost-ctap/src/ssh_cert.rs:208-219 | The reference day count: each year adds 365 days and one more in a leap year, and 1970 starts at 0. |
| Base64.DecodeOfEncode | crates/keyroost-proto/src/codec.rs:99-155 | What is encoded decodes to the same bytes. |
| Base64.DecodeLoop | crates/keyroost-proto/src/codec.rs:99-130 | The loop with its 32-bit buffer, which drops high bits, computes the bit-exact decoding. |
| SshCert.ReadWire | crates/keyroost-ctap/src/ssh_cert.rs:97-137 | The reader's loops recognise exactly what the specification calls a certificate. |
| SshCert.ReadPackedStrings | crates/keyroost-ctap/src/ssh_cert.rs:140-147 | The loop reads the packed strings to the end. |
| SshCert.ReadPackedPairs | crates/keyroost-ctap/src/ssh_cert.rs:152-171 | The loop reads the packed pairs to the end, each value empty or one string. |
| SshCert.Reader.ReadBytes | crates/keyroost-ctap/src/ssh_cert.rs:63-66 | On success the position is just after what was read. |
| SshCertLaws.PrefixFree | crates/keyroost-ctap/src/ssh_cert.rs:97-137 | Of two byte strings, one starting the other, at most one is a certificate. |
| SshCertLaws.CertStays | crates/keyroost-ctap/src/ssh_cert.rs:97-137 | A certificate at the start of some bytes reads the same whatever follows. |
| SshCertLaws.PackedStringsExactly | crates/keyroost-ctap/src/ssh_cert.rs:140-147 | Bytes read as packed strings if and only if they are those strings packed. |
| SshCertLaws.StoredReadsBack | crates/keyroost-ctap/src/ssh_cert.rs:225-294 | In both stored forms, what is written back out is one line of printable ASCII that reads back to the same certificate and wire bytes. |
| SshCertLaws.ToCertPubReadsBack | crates/keyroost-ctap/src/ssh_cert.rs:291-294 | The re-encoded line reads back to the same certificate and bytes. |
| SshCertWrites.CertReadsBack | crates/keyroost-ctap/src/ssh_cert.rs:80-137 | A certificate laid out field by field in the order of PROTOCOL.certkeys is recognised with every field as written. |
| SshCertWrites.PackedPairsRead | crates/keyroost-ctap/src/ssh_cert.rs:152-171 | Packed options are read back as the pairs that were packed. |
| Text.Convert | crates/keyroost-import/src/text.rs:52-82 | The loop into a buffer of three bytes a unit, never grown and never overrun, computes the conversion. |
| Text.AnyTextComesThrough | crates/keyroost-import/src/text.rs:52-82 | Any text as UTF-16 of either byte order with its mark becomes exactly its UTF-8. |
| Text.FailsExactly | crates/keyroost-import/src/text.rs:52-82 | It fails exactly on a UTF-16 mark before an odd number of bytes or an unpaired surrogate. |
| Text.AtMostThreeBytesAUnit | crates/keyroost-import/src/text.rs:73-75 | Never more than three bytes are written for a unit. |
| Utf8.DecodeOfEncode | crates/keyroost-ctap/src/ssh_cert.rs:68-70 | Text written as UTF-8 reads back as the same text. |
| Utf8.EncodeOfDecode | crates/keyroost-ctap/src/ssh_cert.rs:68-70 | Bytes accepted as UTF-8 are the encoding of what they read as. |
| OtpAuth.ReadNarrow | crates/keyroost-import/src/otpauth.rs:125-216 | The loop over the parameters computes the specified narrow reading, with the first error it meets. |
| OtpAuth.ReadWide | crates/keyroost-import/src/otpauth.rs:229-324 | The loop that gathers first and judges after computes the specified wide reading. |
| OtpAuth.UnescapeLoop | crates/keyroost-import/src/otpauth.rs:388-424 | The loop computes percent-decoding, and fails on a cut or mistyped escape. |
| OtpAuthLaws.NarrowRefinesWide | crates/keyroost-import/src/otpauth.rs:125-324 | The narrow reader takes a URI if and only if the wide one takes it, the Molto2 check passes, and every algorithm and digits parameter, even a replaced one, is one a Molto2 has; then all six fields agree. |
| OtpAuthLaws.NarrowIsWideAndChecked | crates/keyroost-import/src/otpauth.rs:125-324 | For URIs that give algorithm and digits at most once, the narrow reader takes exactly what the wide one takes and the check passes. |
| OtpAuthWrites.ReadersDifferOnARepeat | crates/keyroost-import/src/otpauth.rs:125-324 | For every secret, the URI that gives digits as 5 and then 6 is refused by the narrow reader for the 5, and read by the wide one as an entry with 6 digits, which passes the Molto2 check when the secret fits. |
| OtpAuthLaws.UnescapeOfEscape | crates/keyroost-import/src/otpauth.rs:388-424 | What is escaped comes back, in a label or a query. |
| OtpAuthLaws.UnescapePlain | crates/keyroost-import/src/otpauth.rs:388-424 | Text without a percent sign is itself in a label; in a query each plus becomes a space. |
| OtpAuthWrites.EntryReadsBack | crates/keyroost-import/src/otpauth.rs:229-374 | Every entry a URI can carry, written as a URI, is read back as the same entry and name. |
| OtpAuthWrites.EveryEntryReadsBack | crates/keyroost-import/src/otpauth.rs:229-374 | With the secret written in base32, every entry a URI can carry comes back. |
| OtpAuthWrites.LabelGivesBoth | crates/keyroost-import/src/otpauth.rs:368-374 | A label is split at its first colon, and both halves are trimmed. |
| Base32.DecodeOfEncode | crates/keyroost-proto/src/codec.rs:63-92 | What is written in base32 is read back as the same bytes: the bits of the last letter past the last byte are zeros, and nothing else is dropped. |
| Base32.DecodeLoop | crates/keyroost-proto/src/codec.rs:63-92 | The loop with its 64-bit buffer, which drops high bits, computes the bit-exact decoding. |
| OtpAuthWrites.QueryReadsBack | crates/keyroost-import/src/otpauth.rs:357-364 | Parameters written with escaped values are read in order with those values. |
| Migration.ReadPayload | crates/keyroost-import/src/migration.rs:215-247 | The loop over the payload's fields computes the specified narrow reading, its accounts read by the narrow loop. |
| Migration.ReadPayloadWide | crates/keyroost-import/src/migration.rs:110-143 | The loop with its limit computes the specified wide reading. |
| Migration.ReadAccount | crates/keyroost-import/src/migration.rs:154-174 | The wide reader's loop over an account's fields, later ones replacing earlier ones. |
| Migration.ReadAccountNarrow | crates/keyroost-import/src/migration.rs:251-273 | The narrow reader's own loop, with its six fields and no counter, computes the specified narrow reading. |
| Migration.Reader.ReadVarint | crates/keyroost-import/src/migration.rs:342-353 | At most ten bytes; bits past the 64th are lost; on success the rest is just after it. |
| Migration.Reader.Skip | crates/keyroost-import/src/migration.rs:365-380 | An unknown field is skipped exactly; groups and cut fields are refused. |
| MigrationLaws.ReadersAgree | crates/keyroost-import/src/migration.rs:110-323 | Both readers take the same payloads of at most 1000 accounts and the wide one refuses more; batch and account order agree; the narrow reader keeps exactly the accounts whose item passes the Molto2 check, with the same fields. |
| MigrationLaws.AccountsAgree | crates/keyroost-import/src/migration.rs:154-323 | A Molto2 takes an account if and only if its wide entry passes the Molto2 check. |
| MigrationLaws.AccountsReadAlike | crates/keyroost-import/src/migration.rs:154-273 | The two account loops take the same bytes, from any state, and read the same account but for the counter. |
| MigrationLaws.VarintReadsBack | crates/keyroost-import/src/migration.rs:342-353 | Every 64-bit number written as a varint is read back and what follows is left. |
| MigrationLaws.ExportReadsBack | crates/keyroost-import/src/migration.rs:215-247 | An export written field by field is read as those accounts and that batch, in order: by the narrow reader without counters, by the wide one, up to 1000 accounts, whole. |
| ListWrites.ExportUriReadsBack | crates/keyroost-import/src/migration.rs:58-107 | An export written as a URI, its base64 escaped or not, is read back by both readers as the accounts and batch it was written for. |

## Left out

- RunPlanLaws.NeverPastCapacity: is stated for OATH and Token2 keys; on a Molto2 the slots are the room (PlanLaws.SlotsAreConsecutive).
- DeviceLabel.InflateOfStored: only a final stored block is opened here; every other DEFLATE block goes to an uninterpreted function, because reading what this program writes needs no more.
- Calendar.DateOfDay: holds for all integers; the 64-bit width is not modelled, since a day number from a 64-bit second count stays far inside it.
- MoltoWrite.WriteSlotIsAnAdd: a slot is described by the entry it was written from, its title standing for that entry's issuer and account; the display time-out and the clock sent with the settings are not modelled.
- SshCert.ReadWire: the head and the body are read by two methods on one reader, where the program has one function.
- The names, hints, notes and messages shown to people, and the notes attached to a plan.
- The names of items and of skipped accounts, as shown to people.
- Cryptography: SHA-256, HMAC, AES-GCM, ECDH, scrypt.
- Device and operating-system I/O: opening devices, raw report reads, PC/SC, files.
- JSON exports read through serde, and the encrypted Aegis vault.
- The space a key reports used and free, which is the length of what would be written.
- The keepalive hook and the trace of each exchange.
- Wiping of memory on drop.
- PIN, configuration, fingerprint and credential-management commands: each builds one request and reads one reply, and keeps nothing between calls that the parts above depend on.
- Lengths are unbounded naturals: an input longer than the address space is not modelled, and u64 counts are bounded where the code's casts need it.
