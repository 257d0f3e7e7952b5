# libpldm, verified

A Dafny model of the parts of libpldm where a mistake is hardest to see, with proofs of what they promise. The
model follows the C code branch by branch and error by error; where the code and its documentation differ, the
code is what is modelled.

| file | models |
|---|---|
| `Common.dfy` | what the modules share: optional values, numbers as bits |
| `Bytes.dfy` | octets, little-endian integers, buffers written in place |
| `Edac.dfy`, `Crc8.dfy` | `src/edac.c`: both CRCs and both lookup tables, against bit-serial shift registers |
| `InstanceId.dfy`, `InstanceIdScan.dfy` | `src/requester/instance-id.c`: instance IDs shared between processes through file locks |
| `BiosEntry.dfy`, `BiosTable.dfy` | `src/dsp/bios_table.c`: entries, tables, iterator, lookups, copy-and-update, checksum |
| `FruScan.dfy`, `Fru.dfy` | `src/dsp/fru.c`: building a FRU record table and selecting from it |
| `Header.dfy` | the message header of `src/dsp/base.c` |
| `Responder.dfy`, `AfMctp.dfy` | `src/responder.c` and `src/transport/af-mctp.c`: pairing responses with requests |
| `Msgbuf.dfy` | `src/msgbuf.h`, `src/msgbuf/core.h`: the cursor whose errors are checked late |
| `PackageRecords.dfy`, `PackageHeader.dfy`, `Package.dfy`, `PackageWalk.dfy`, `PackageDescriptors.dfy` | the firmware update package parser of `src/dsp/firmware_update.c` and `include/libpldm/firmware_update.h` |
| `PackageEncode.dfy`, `PackageBuild.dfy` | what a builder of packages writes, for the parser to read back: records, headers, whole packages |
| `Control.dfy` | `src/control.c`: the responder for the PLDM control commands |
| `Multipart.dfy` | the MultipartSend request codec of `src/dsp/base.c` |

The main results:

- In every interleaving of any number of processes, at the granularity of single `fcntl` calls, with any of them
  failing, processes appearing and dying, and strangers locking the same file, no instance ID of a terminus has two
  owners (`InstanceId.NoIdHasTwoOwners`). The only assumptions are the kernel's rules for open file description locks.
  Conversely every lock of the library is at all times that of an owned or probed ID exactly when no release fails
  (`InstanceId.LocksAreAccountedFor`). And an allocation none of whose calls fails reports -EAGAIN exactly when, for every ID
  but the previous one, it has it or meets somebody else's lock on it (`InstanceIdScan.AgainMeansAllTaken`).
  Which result a call returns is read off the kernel's replies (`InstanceId.AllocByReply`, `InstanceId.FreeByReply`); the
  free of an ID that the caller does not hold is refused with -EINVAL, and nothing else is (`InstanceId.NeverHandedOutTwice`).
- The table-driven CRC-32 is the reflected CRC of clause 3.2.9 of IEEE 802.3 on every byte string, and a BIOS table
  hit by any burst of at most 32 bits, or changed anywhere within four consecutive bytes, is refused, CRC field
  included, whatever its length (`BiosTable.FourByteChangeRefused`, `BiosTable.BurstRefused`).
- A finished BIOS table is, byte by byte, its entries, the fewest zero bytes that align it to four, and the CRC of all that;
  there is only one such table for each list of entries (`BiosTable.SealIsFinished`, `BiosTable.FinishedIsUnique`).
- Copy-and-update of a BIOS value table succeeds exactly when no entry for the attribute has another type and the padded
  result fits; the result is the old list of entries with the new one in place, and every other lookup is unchanged
  (`BiosTable.CopyAndUpdate`, `BiosTable.OtherLookupsUnchanged`).
- Whatever calls of the attribute encoders come one after the other, failed ones in between, a table of the entries they
  wrote gives back, for every handle, exactly the attribute it was issued for, and nothing for a handle that was not issued
  (`BiosTable.EncodeAndLookUp`; `BiosTable.EncodeAndLookUpText` for strings).
- The FRU scan over bytes is a filter on records, with the exact output capacity it needs (`Fru.ScanIsFilter`,
  `Fru.RecordIsFiltered`).
- Every response of a bound AF_MCTP transport goes to the source of an open request with the same terminus, instance,
  type and command, and uses that request up (`AfMctp.ResponsesAnswerRequests`, `AfMctp.RequestConsumedOnce`); it has
  somewhere to go exactly when such a request is open (`AfMctp.AnswerableExactlyWhenOpen`). Whatever else is sent goes to where
  its terminus was mapped last, and the answer from there is received under that terminus (`AfMctp.RequestsGoWhereMapped`,
  `AfMctp.AnswersComeUnderTheirTerminus`).
- A firmware package that was written is read back: for every format revision and every pin that reaches it, the walk hands
  out the device and component records that went in, every field of them and in their order (`PackageBuild.PackageRoundTrip`).
  A single record or header that is not acceptable is refused, and it is said with what (`PackageEncode.DeviceRoundTrip`,
  `PackageEncode.ComponentRoundTrip`, `PackageEncode.HeaderRoundTrip`).
- A firmware package that parses is cut up without gap or overlap, from the header down to the pieces of each record
  (`PackageWalk.PackageIsCutUp`); a revision 1 package looks the same to callers of every revision
  (`PackageWalk.NewerPinsSeeTheSame`); and one whose header is changed within four consecutive bytes, either checksum included
  but not its declared size, is refused (`PackageHeader.ChangedPackageRefused`).

- What the control responder answers follows from the bytes of the request and from what was registered, command by command
  (`Control.TidAnswered`, `Control.VersionsAnswered`, `Control.TypesAnswered`, `Control.CommandsAnswered`,
  `Control.OthersAnswered`).

Where the code does not do what one would expect, the model keeps the code, shows a case, and proves exactly when the
expectation holds:

- `pldm_instance_id_alloc` never hands out the ID it handed out last, so with every other ID taken it reports -EAGAIN for
  ever although one is free (`InstanceId.FreedLastIdIsOutOfReach`; the condition is in `InstanceId.AllocAlone`,
  and among other processes in `InstanceIdScan.AgainMeansAllTaken`).
- `pldm_bios_table_checksum` refuses finished tables whose entries take four bytes or fewer
  (`BiosTable.ShortTableRefused`; the condition is in `BiosTable.FinishedTableAccepted`).
- `get_fru_record_by_option` needs room for fields it leaves out, so a buffer of the size of its result may be too small
  (`Fru.ResultSizeIsNotEnough`; the condition is `Fru.Room` in `Fru.ScanIsFilter`).
- `get_fru_record_by_option` does not notice every table that was cut off (`Fru.CutGoesUnnoticed`). One that ends inside a
  field goes unnoticed exactly when the record of that field is not selected, the field is its last one, and its length byte
  is there and does not exceed the size of the table (`Fru.CutTable`).
- A message that `sendto` would block, or that could not be sent at all, can be sent again exactly when it is not a response of
  a bound transport; such a response has already used up its cookie (`AfMctp.BusyLosesCookie`; `AfMctp.RetryWorks` has the
  condition).
- The component loop of a package with no components lowers its count below zero and hands out records nobody announced
  (`PackageWalk.ZeroCountPackage`, `PackageWalk.UnannouncedComponents`); it succeeds exactly when the count is at least one and
  as many records decode (`PackageWalk.ComponentsExactly`, for whole packages `PackageWalk.ParsesExactly`).
- A probed instance ID whose release reports an error stays locked, so other processes cannot have it until the context closes
  or probes it again (`InstanceId.FailedReleaseLeaks`, `InstanceId.LeakBarsOthers`; `InstanceId.LeakStep` has the condition).
- A descriptor with an empty value at the very end of its field is refused, because the decoder asks for five bytes
  (`PackageDescriptors.EmptyDescriptorRefused`; `PackageDescriptors.DescriptorsRoundTrip` has the condition).
- `pldm_control_add_type` keeps the number of versions in a byte, so of 257 one is reported (`Control.CountWraps`;
  `Control.VersionsReported` says what is reported for every number).
- A null version list lets a type be registered twice (`Control.NullVersionsBreakTidy`). The slots stay tidy exactly when each
  call has versions, is refused for its count, or takes a slot with no used one behind it (`Control.RunTidyExactlyWhenHarmless`).
- `pldm_bios_table_string_find_by_string` compares lengths modulo 2^16, so a longer text may find an entry that is not its own
  (`BiosTable.LongTextFindsAnother`); it tells whether a text is there exactly when the text is shorter or its shortened form
  is not there either (`BiosTable.TextLookupIsRight`).
- A revision 4 package that is changed within four bytes across the end of its payload checksum may decode all the same
  (`PackageHeader.ChangeGoesUnnoticed`). `PackageHeader.ChangedPackageExactly` says of every package changed within four bytes
  whether it decodes.

Conventions. Bytes are integers below 256; integer widths, truncations and wrap-around are written out. Pointers that the
code checks against NULL are either present or an `Option`. A table that the C code receives without a way to check it
(the BIOS iterator is marked unsafe) is given together with the entries it consists of, as a ghost parameter. Sizes are
mathematical integers; only where the code computes with `intmax_t` or lets a `size_t` wrap is that modelled.

Check with `dafny verify dfyconfig.toml` (Dafny 4.11).

## Model

| member | source | states |
|---|---|---|
| `Edac.Crc32TableEntry` | src/edac.c:15-61 | every one of the 256 entries of the literal table is eight division steps by the reflected generator applied to its index |
| `Edac.Crc32StepIsSerial` | src/edac.c:100 | one table step has the effect of the eight bits of the byte entering the register one by one |
| `Edac.Crc32Loop` | src/edac.c:99-101 | the loop leaves the register as the bit-serial reference does, for every byte string and every start |
| `Edac.Crc32Extend` | src/edac.c:95-103 | register complemented on the way in and out |
| `Edac.Crc32` | src/edac.c:89-92 | equals the bit-serial CRC-32 of the data |
| `Edac.Crc32Validate` | src/edac.c:106-113 | clean exactly when the expected word is the reference CRC, an error exactly for a null buffer with something in it |
| `Edac.ExtendIsConcat` | src/edac.c:95-103 | extending the CRC of a over b gives the CRC of a followed by b |
| `Edac.BurstChangesRegister` | src/edac.c:95-103 | two bit streams that differ only within 32 bits leave different registers |
| `Edac.SealedIsResidue` | src/dsp/bios_table.c:1246-1249 | data carries its own CRC exactly when the register ends at one fixed residue |
| `Edac.BurstBreaksSeal` | src/dsp/bios_table.c:1246-1249 | a burst of at most 32 bits anywhere, CRC included, breaks the seal |
| `Edac.FourBytesBreakSeal` | src/dsp/bios_table.c:1246-1249 | so does any change confined to four consecutive bytes |
| `Edac.FieldSeals` | src/dsp/bios_table.c:911-917 | data followed by its little-endian CRC field is sealed |
| `Crc8.Crc8TableEntry` | src/edac.c:63-86 | every entry of the literal CRC-8 table is eight division steps by x^8 + x^2 + x + 1 |
| `Crc8.LookUpIsSerial` | src/edac.c:121 | one look-up is the eight bits of a byte entering, most significant first |
| `Crc8.Compute` | src/edac.c:116-124 | equals the bit-serial CRC-8 of the data |
| `Crc8.OneByte` | src/edac.c:116-124 | the CRC of a single byte is its table entry, and that of 0x01 the generator 0x07 |
| `InstanceId.NextIsModular` | src/requester/instance-id.c:30-33 | the next ID is (cur + 1) mod 32 |
| `InstanceId.OffsetInjective` | src/requester/instance-id.c:146 | the offset is 32 times the terminus plus the ID, so different pairs differ, and all lie below 8192 |
| `InstanceId.LockingKeeps` | src/requester/instance-id.c:148-157 | the invariant survives the shared lock, granted or failed |
| `InstanceId.QueryingKeeps` | src/requester/instance-id.c:172-191 | the invariant survives the promotion query, which alone makes an owner |
| `InstanceId.ReleasingKeeps` | src/requester/instance-id.c:197-209 | the invariant survives the release of a probed byte |
| `InstanceId.UnlockingKeeps` | src/requester/instance-id.c:233-241 | the invariant survives the unlock that gives an ID up |
| `InstanceId.AllocKeeps` | src/requester/instance-id.c:130-143 | and the start of an allocation |
| `InstanceId.FreeKeeps` | src/requester/instance-id.c:228-231 | and the start of a free, refused or not |
| `InstanceId.SelfKeeps` | src/requester/instance-id.c:187-190 | and the updates of a context's own fields |
| `InstanceId.StepKeeps` | src/requester/instance-id.c:119-247 | every step of every context, and of foreign lock holders, keeps the invariant |
| `InstanceId.RunKeeps` | src/requester/instance-id.c:119-247 | so does every run |
| `InstanceId.NoIdHasTwoOwners` | src/requester/instance-id.c:135-209 | in every run from nothing, no ID has two owners, and every owned or probed ID is backed by the context's own shared lock |
| `InstanceId.ProbeNeverMeetsExclusive` | src/requester/instance-id.c:193-195 | the error branch for a conflicting lock that is not shared is never taken |
| `InstanceId.ReleaseSparesAllocations` | src/requester/instance-id.c:197-209 | a release never drops the lock behind an allocated ID |
| `InstanceId.LeakStep` | src/requester/instance-id.c:197-205 | a lock with no allocation and no probe behind it comes about by a failed release and in no other way, and goes when its context closes or probes the ID again and in no other way |
| `InstanceId.NoLeakExactlyWhenClean` | src/requester/instance-id.c:197-205 | a step keeps all locks accounted for exactly when it is not a failed release |
| `InstanceId.LocksAreAccountedFor` | src/requester/instance-id.c:119-247 | over every run from nothing, each lock of the library is that of an owned or probed ID throughout exactly when no release fails |
| `InstanceId.LeakBarsOthers` | src/requester/instance-id.c:172-191 | until it is made up for, a leak keeps the ID from every other context that does not own it |
| `InstanceId.FailedReleaseLeaks` | src/requester/instance-id.c:172-205 | a run of one context whose query and release fail ends in a leak |
| `InstanceId.Candidate` | src/requester/instance-id.c:135-143 | what the scan stops at is unallocated and not the previous ID |
| `InstanceId.CandidateIsFirstFree` | src/requester/instance-id.c:135-143 | it is the first such ID in cyclic order, and the scan gives up exactly when there is none |
| `InstanceId.AllocAlone` | src/requester/instance-id.c:130-213 | without contention or errors alloc returns the first unallocated ID after the previous one, and -EAGAIN exactly when all but that one are allocated |
| `InstanceIdScan.ScanFinds` | src/requester/instance-id.c:135-213 | among other contexts, every ID the scan comes to and does not return is its own or was met locked, and the one it returns is neither |
| `InstanceIdScan.AgainMeansAllTaken` | src/requester/instance-id.c:130-213 | an allocation none of whose calls fails reports -EAGAIN exactly when every ID but the previous one is its own or was met under a shared lock of another description, and otherwise ends with one that is neither |
| `InstanceId.DriveOutcome` | src/requester/instance-id.c:119-247 | whatever the kernel replies, a call changes the fields only as its result says |
| `InstanceId.FreeByReply` | src/requester/instance-id.c:217-247 | a free of an ID of 32 or more or not allocated is -EINVAL and asks nothing; any other asks for the unlock of 32 times the terminus plus the ID, and is done, -EAGAIN or -EPROTO by the reply |
| `InstanceId.AllocByReply` | src/requester/instance-id.c:119-214 | the result of an allocation by its last two requests and their replies: -EAGAIN only after a reply of -EAGAIN or a scan that found nothing, -EPROTO only after another failure or an exclusive lock |
| `InstanceId.ServeIsKnown` | src/requester/instance-id.c:119-247 | after any calls the fields are what the results tell the caller |
| `InstanceId.NeverHandedOutTwice` | src/requester/instance-id.c:119-247 | in any sequence of calls, whatever the replies, an ID handed out is neither held nor the one handed out last, only held IDs are freed, and -EINVAL is the answer to the free of an ID that is not held and to nothing else |
| `InstanceId.PairsRotate` | src/requester/instance-id.c:119-247 | the k-th alloc/free pair uses the k-th ID after the starting point |
| `InstanceId.AllIdsInThirtyTwoPairs` | src/requester/instance-id.c:119-247 | 32 such pairs return all 32 IDs |
| `InstanceId.FillUp` | src/requester/instance-id.c:66-69 | from a fresh state 32 allocs take every ID |
| `InstanceId.FreedLastIdIsOutOfReach` | src/requester/instance-id.c:135-213 | then freeing the last one and asking again gives -EAGAIN |
| `InstanceId.Database.constructor` | src/requester/instance-id.c:62-69 | every terminus starts with no allocation and 31 as the previous ID |
| `InstanceId.Database.Probe` | src/requester/instance-id.c:145-208 | reserve, query and release are the machine's steps, with the same requests in the same order |
| `InstanceId.Database.AllocId` | src/requester/instance-id.c:119-214 | result by the replies of the kernel; the ID handed out becomes the previous one and is allocated, and nothing else changes; same requests as the machine of the protocol |
| `InstanceId.Database.FreeId` | src/requester/instance-id.c:217-247 | -EINVAL exactly for an ID of 32 or more or not allocated, without a request; else one unlock, whose reply decides between 0, -EAGAIN and -EPROTO; the ID is given up exactly on 0 |
| `BiosEntry.LengthIsLocal` | src/dsp/bios_table.c:125-134 | a length handler looks at nothing behind a well-formed entry |
| `BiosEntry.StringRoundTrip` | src/dsp/bios_table.c:59-134 | length, handle and text of a string entry are recovered |
| `BiosEntry.EnumAttrRoundTrip` | src/dsp/bios_table.c:192-320 | likewise every field of an enum attribute, possible values and defaults included |
| `BiosEntry.StringAttrRoundTrip` | src/dsp/bios_table.c:330-495 | likewise a string attribute |
| `BiosEntry.IntegerAttrRoundTrip` | src/dsp/bios_table.c:504-602 | likewise an integer attribute |
| `BiosEntry.AttrRoundTrip` | src/dsp/bios_table.c:148-655 | whatever an attribute encoder accepts is measured and read back exactly, wherever it stands |
| `BiosEntry.ValueRoundTrip` | src/dsp/bios_table.c:657-895 | likewise the three kinds of value entry |
| `BiosEntry.EnumOnWire` | src/dsp/bios_table.c:203-233 | the bytes of an enum attribute entry, one by one |
| `BiosEntry.StringOnWire` | src/dsp/bios_table.c:376-410 | the bytes of a string attribute entry, minimum before maximum |
| `BiosEntry.IntegerOnWire` | src/dsp/bios_table.c:551-579 | the bytes of an integer attribute entry: lower bound, upper bound, increment, default |
| `BiosEntry.OthersOnWire` | src/dsp/bios_table.c:59-827 | the bytes of string entries and of the three kinds of value entry |
| `BiosEntry.IntegerAcceptance` | src/dsp/bios_table.c:512-549 | an integer attribute is accepted exactly when whole increments lead from the lower bound to the default within the bounds |
| `BiosEntry.StringAcceptance` | src/dsp/bios_table.c:344-375 | a string attribute is accepted exactly when its default has the given length, between the limits, and a known type |
| `BiosEntry.Encoder.EncodeString` | src/dsp/bios_table.c:46-91 | result code, bytes written, bytes left alone, next handle issued |
| `BiosEntry.Encoder.EncodeHeader` | src/dsp/bios_table.c:136-169 | header with the next handle, or no change when the buffer is below six bytes or handles have run out |
| `BiosEntry.Encoder.EncodeEnum` | src/dsp/bios_table.c:203-233 | result code and the bytes of the entry |
| `BiosEntry.Encoder.EncodeStringAttr` | src/dsp/bios_table.c:344-410 | result code and bytes; without a default string those bytes stay as they were |
| `BiosEntry.Encoder.EncodeInteger` | src/dsp/bios_table.c:512-579 | result code and the bytes of the entry |
| `BiosEntry.EncodeEnumValue` | src/dsp/bios_table.c:699-721 | result code and the bytes of the entry, or the four header bytes when the indices do not fit |
| `BiosEntry.EncodeStringValue` | src/dsp/bios_table.c:764-788 | result code and the bytes of the entry, written out of order, or handle and type when the text does not fit |
| `BiosEntry.EncodeIntegerValue` | src/dsp/bios_table.c:810-827 | result code and the bytes of the entry |
| `BiosTable.PadAligns` | src/dsp/bios_table.c:897-900 | the padding is the shortest that aligns to four |
| `BiosTable.AppendPadChecksum` | src/dsp/bios_table.c:902-956 | succeeds exactly when it fits; the new table is the data, as many zero bytes as align it to four, and the little-endian reference CRC of what precedes, and nothing behind it changes |
| `BiosTable.SealIsFinished` | src/dsp/bios_table.c:902-917 | a finished table byte by byte: data, up to three zero bytes, CRC of both |
| `BiosTable.FinishedIsUnique` | src/dsp/bios_table.c:902-917 | for each data there is only one such table |
| `BiosTable.TableChecksum` | src/dsp/bios_table.c:1234-1250 | accepts exactly sealed tables of at least twelve bytes |
| `BiosTable.FinishedTableAccepted` | src/dsp/bios_table.c:1234-1250 | a finished table passes exactly when its entries take more than four bytes |
| `BiosTable.ShortTableRefused` | src/dsp/bios_table.c:1240-1244 | a finished table with one empty enum value is refused |
| `BiosTable.FourByteChangeRefused` | src/dsp/bios_table.c:1233-1250 | any change confined to four consecutive bytes of an accepted table is refused |
| `BiosTable.BurstRefused` | src/dsp/bios_table.c:1233-1250 | any burst of at most 32 bits is refused |
| `BiosTable.SealHasLayout` | src/dsp/bios_table.c:897-956 | a finished table is entries and a tail of four to seven bytes |
| `BiosTable.CutOffIsExact` | src/dsp/bios_table.c:1000-1021 | at every entry boundary at most seven bytes are left exactly when all entries are behind, and otherwise the handler measures the next entry |
| `BiosTable.TableIterator.IsEnd` | src/dsp/bios_table.c:1002-1021 | true exactly when every entry has been visited |
| `BiosTable.TableIterator.Next` | src/dsp/bios_table.c:1024-1036 | moves to the next entry, or stays at the end |
| `BiosTable.TableIterator.Value` | src/dsp/bios_table.c:1039-1042 | points at the current entry |
| `BiosTable.Walk` | src/dsp/bios_table.c:1000-1042 | a walk visits exactly the entries of the table, in order, and stops |
| `BiosTable.MatchIsLocal` | src/dsp/bios_table.c:1074-1166 | an equality handler looks at nothing behind a well-formed entry |
| `BiosTable.StringMatches` | src/dsp/bios_table.c:1074-1126 | a written string entry is found by its handle, and by a text exactly when that text, its length taken modulo 2^16, is its own |
| `BiosTable.AttrMatches` | src/dsp/bios_table.c:1128-1160 | a written attribute entry is found by exactly its handle and its name's handle |
| `BiosTable.Find` | src/dsp/bios_table.c:1046-1176 | returns the first matching entry, or none |
| `BiosTable.CopyEntries` | src/dsp/bios_table.c:1192-1214 | the copy loop ends at the first clash or overflow, or with all entries copied and replaced |
| `BiosTable.CopyAndUpdate` | src/dsp/bios_table.c:1179-1231 | success exactly when there is no clash of types and the padded result fits; -INVALID_DATA exactly when a clash is reached; the result is the replaced list, then zero bytes and CRC; the length out-parameter changes only on success |
| `BiosTable.ClashMeans` | src/dsp/bios_table.c:1199-1206 | written value entries clash exactly when handle is equal and type is not, and are replaced exactly when the handle is equal |
| `BiosTable.UpdatedIsWellFormed` | src/dsp/bios_table.c:1179-1231 | the new table can be walked and updated in turn |
| `BiosTable.OtherLookupsUnchanged` | src/dsp/bios_table.c:1179-1231 | every other handle finds the same bytes as before |
| `BiosTable.UpdatedLookup` | src/dsp/bios_table.c:1179-1231 | the updated handle finds the new entry, if it found one before |
| `BiosTable.UpdateIsIdempotent` | src/dsp/bios_table.c:1179-1231 | updating twice is updating once |
| `BiosTable.IssuedEntryIsFound` | src/dsp/bios_table.c:136-146 | handles are not reused, so a handle finds the very entry it was issued for, with its contents, and a handle not issued finds none |
| `BiosTable.SelectionIsFound` | src/dsp/bios_table.c:136-146 | so it is for any selection of issued entries in any order |
| `BiosTable.EncodeAttribute` | src/dsp/bios_table.c:203-579 | a call writes the entry of the attribute it was given under the next handle, or issues none |
| `BiosTable.EncodeAttributes` | src/dsp/bios_table.c:136-579 | a run of calls, failed ones in between, issues consecutive handles from the value of the counter on, one for each entry written |
| `BiosTable.LookUpAttribute` | src/dsp/bios_table.c:1149-1166 | a handle looked up in a table of issued entries gives the attribute it was issued for, and nothing if it was not issued |
| `BiosTable.EncodeAndLookUp` | src/dsp/bios_table.c:136-1166 | from the encoder calls over the finished table to the decoded attribute |
| `BiosTable.IssuedStringIsFound` | src/dsp/bios_table.c:46-57 | likewise for string entries by their handle |
| `BiosTable.IssuedTextIsFound` | src/dsp/bios_table.c:1097-1126 | a text, its length taken modulo 2^16, finds the first string that is this text, and finds one exactly when there is one |
| `BiosTable.TextLookupIsRight` | src/dsp/bios_table.c:1115-1126 | the lookup tells whether a text is there exactly when the text is below 2^16 bytes or its shortened form is not there either |
| `BiosTable.LongTextFindsAnother` | src/dsp/bios_table.c:1120-1121 | a text of 2^16 + 1 bytes finds the entry of its first byte |
| `BiosTable.EncodeTexts` | src/dsp/bios_table.c:46-91 | a run of string encoder calls issues consecutive handles, one for each entry written |
| `BiosTable.EncodeAndLookUpText` | src/dsp/bios_table.c:46-1095 | from the encoder calls over the finished table to the text |
| `FruScan.SkipRecord` | src/dsp/fru.c:267-285 | steps over an unselected record, or fails, on arbitrary bytes |
| `FruScan.FieldFits` | src/dsp/fru.c:312-333 | the five bounds checks on a field, as one condition |
| `FruScan.CopyRecord` | src/dsp/fru.c:308-340 | copies the wanted fields of a selected record, or fails |
| `FruScan.CopySelected` | src/dsp/fru.c:297-341 | header, fields, and then the number of fields kept |
| `FruScan.ScanRecords` | src/dsp/fru.c:263-349 | the outer loop on arbitrary bytes: it terminates, reads only the table, writes only the given room |
| `FruScan.GetFruRecordByOption` | src/dsp/fru.c:228-354 | result code, size and output for any table bytes; tables below eight bytes are refused |
| `Fru.SkipIsLength` | src/dsp/fru.c:267-293 | on the bytes of a record, stepping over its fields ends where it ends |
| `Fru.CopyIsFilter` | src/dsp/fru.c:308-340 | on the bytes of a record, the fields kept are those of the wanted type, if there is room |
| `Fru.ScanIsFilter` | src/dsp/fru.c:263-353 | on the bytes of any list of records the output is the filtered list, and it fails exactly below the capacity `Room` |
| `Fru.RoomBounds` | src/dsp/fru.c:327-329 | that capacity lies between the size of the result and the size of the table |
| `Fru.TableSizeSuffices` | src/dsp/fru.c:327-329 | capacity equal to the table size always suffices |
| `Fru.ResultSizeIsNotEnough` | src/dsp/fru.c:327-329 | a record whose one field is left out still needs room for it |
| `Fru.WildcardsKeepAll` | src/dsp/fru.c:264-266 | with three wildcards every record comes back as it was |
| `Fru.FilterIsIdempotent` | src/dsp/fru.c:263-353 | selecting twice is selecting once |
| `Fru.RecordIsFiltered` | src/dsp/fru.c:264-341 | a record is selected exactly when its set is the wanted one or any is, and its type likewise; its header stays but for the number of fields |
| `Fru.FieldIsKept` | src/dsp/fru.c:335-339 | a field is kept exactly when its type is the wanted one or any is |
| `Fru.RecordLayout` | src/dsp/fru.c:175-217 | the bytes of a record: set, type, number of fields, encoding, and each field with type, length and value |
| `Fru.CutTable` | src/dsp/fru.c:263-349 | a table that ends inside a field is refused, except exactly for the last field of a record that is not selected, cut behind a length byte that does not exceed the size of the table; then the records in front of it come out |
| `Fru.CutGoesUnnoticed` | src/dsp/fru.c:267-293 | eight bytes with a field of four bytes only one of which is there: nothing found, or an error, as the record is asked for or not |
| `Fru.EncodeFruRecord` | src/dsp/fru.c:175-217 | result code and bytes for any count, any bytes as fields and a null pointer to them |
| `Fru.AppendRecord` | src/dsp/fru.c:175-217 | given the fields of a record and their number, a table of records grows by that record, or stays as it is |
| `Fru.AppendEmptyRecord` | src/dsp/fru.c:206-214 | given a null pointer and no fields announced, it grows by a record without fields |
| `Responder.Jar.Track` | src/responder.c:16-41 | fails exactly on a known key; otherwise the cookie is linked in last; the list stays acyclic with distinct keys |
| `Responder.Jar.Untrack` | src/responder.c:43-69 | returns the very cookie tracked under the key and unlinks it, or null and no change |
| `Responder.QueueGrows` | src/responder.c:37-38 | tracking appends to the queue the list stands for |
| `Responder.QueueShrinks` | src/responder.c:64-66 | untracking removes that element and keeps the order of the others |
| `Responder.TrackKeepsDistinct` | src/responder.c:16-41 | keys stay distinct when a new one is tracked |
| `Responder.RemoveKeepsDistinct` | src/responder.c:43-69 | keys stay distinct, and the removed one is gone |
| `Responder.UntrackUndoesTrack` | src/responder.c:16-69 | untracking what was just tracked restores the queue |
| `Header.UnpackPack` | src/dsp/base.c:17-74 | a header packs exactly for instances up to 31 and types up to 63, with -EINVAL and -ENOMSG else, and unpacks to what it was packed from |
| `Header.PackedBits` | src/dsp/base.c:17-53 | the three bytes of a packed header, for requests, responses and notifications |
| `Header.PackUnpack` | src/dsp/base.c:17-74 | a header with clear reserved bits is packed back from what it unpacks to |
| `Header.ResponseCorrelates` | src/dsp/base.c:121-127 | a packed response correlates with a request exactly when packed for its instance, type and command |
| `AfMctp.TidOf` | src/transport/af-mctp.c:83-100 | the terminus found has the address, an entry for any network only where no exact one exists, and none is missed |
| `AfMctp.KeysCorrelate` | src/transport/af-mctp.c:190-193 | a response has the key of a request exactly when the two headers correlate |
| `AfMctp.Transport.FindTid` | src/transport/af-mctp.c:68-80 | the lowest terminus with the address |
| `AfMctp.Transport.GetTid` | src/transport/af-mctp.c:83-100 | exact network first, then any |
| `AfMctp.Transport.Recv` | src/transport/af-mctp.c:141-213 | result code, terminus stored or not, and cookie jar: too short a message, an address no terminus has, a request already pending, and success for everything else |
| `AfMctp.Transport.Send` | src/transport/af-mctp.c:215-276 | a response of a bound transport goes to the source of the request it has the key of, anything else to the terminus with the tag owner bit set; result code by what the kernel makes of it |
| `AfMctp.StepIsOrderly` | src/transport/af-mctp.c:181-244 | after every call the jar holds exactly the open requests |
| `AfMctp.ResponsesAnswerRequests` | src/transport/af-mctp.c:181-244 | in every run each response attempt answers an open request of its key and goes to its source, tag owner bit cleared; a key is never opened twice |
| `AfMctp.RequestConsumedOnce` | src/transport/af-mctp.c:229-244 | between two response attempts of a key there is a delivery |
| `AfMctp.RetryWorks` | src/transport/af-mctp.c:229-273 | a message that was handed to the kernel, whatever came of it, can be sent again exactly when it is not a response of a bound transport |
| `AfMctp.RequestsGoWhereMapped` | src/transport/af-mctp.c:245-273 | after every run since a terminus was mapped last, what is not a response of a bound transport goes to where it was mapped, and changes nothing |
| `AfMctp.AnswersComeUnderTheirTerminus` | src/transport/af-mctp.c:169-213 | what then comes from there, and is no request of a bound transport, is received under that terminus with success, unless another terminus has the address too |
| `AfMctp.BusyLosesCookie` | src/transport/af-mctp.c:229-273 | a request is received, its response would block, and the second attempt fails |
| `AfMctp.AnswerableExactlyWhenOpen` | src/transport/af-mctp.c:181-244 | after every run, a response of a bound transport has somewhere to go exactly when the last event of its key was a delivery, and goes to where that came from |
| `Msgbuf.SpendIsClamped` | src/msgbuf.h:137-152 | one access lowers the count as in mathematics, down to INTMAX_MIN |
| `Msgbuf.DeferredErrorsAreSound` | src/msgbuf.h:128-186 | after any run of unchecked accesses the count is non-negative exactly when each was in bounds, is then what is left, and never underflows |
| `Msgbuf.Digits` | src/msgbuf/core.h:598-620 | numbers of one, two and four bytes, lowest byte first |
| `Msgbuf.Reader.Take` | src/msgbuf/core.h:1040-1065 | cursor and count after a span, in or out of bounds |
| `Msgbuf.Reader.Get` | src/msgbuf.h:128-153 | the little-endian value at the cursor, in bounds |
| `Msgbuf.Reader.TakeUntil` | src/msgbuf/core.h:1285-1317 | everything but a trailer of any length, or an error that sticks |
| `Msgbuf.Reader.TakeRest` | src/msgbuf/core.h:1247-1261 | the rest of the buffer |
| `Msgbuf.Reader.Consumed` | src/msgbuf/core.h:255-266 | true exactly when the accesses took up the buffer |
| `Msgbuf.Writer.Put` | src/msgbuf/core.h:1040-1065 | all of the bytes or, out of bounds, nothing more at all |
| `PackageHeader.DecodeHeader` | src/dsp/firmware_update.c:337-606 | result code and pieces for any bytes and any pin revision |
| `PackageHeader.DecodeAreas` | src/dsp/firmware_update.c:524-606 | sizes, late bounds checks and checksums |
| `PackageHeader.CheckIntegrity` | src/dsp/firmware_update.c:570-594 | header checksum, and payload checksum from revision 4 |
| `PackageHeader.HeaderTiles` | src/dsp/firmware_update.c:528-570 | fixed part, version string, areas and checksums fill the declared header size exactly |
| `PackageHeader.ChangedPackageRefused` | src/dsp/firmware_update.c:570-594 | a package changed within four consecutive bytes of its header, either checksum included, is refused as long as the declared size stays; under revision 4 so is one changed in its payload |
| `PackageHeader.ChangedPackageExactly` | src/dsp/firmware_update.c:528-594 | a package changed within any four consecutive bytes, the declared size staying, decodes exactly when its header did not change (revisions 1 to 3), or when header and payload both did and the payload checksum agrees all the same (revision 4) |
| `PackageHeader.ChangeGoesUnnoticed` | src/dsp/firmware_update.c:580-594 | a change across the end of the payload checksum after which a revision 4 package still decodes |
| `PackageHeader.PinsAgree` | src/dsp/firmware_update.c:474-476 | every pin that reaches a package's revision decodes the same header |
| `PackageEncode.HeaderRoundTrip` | src/dsp/firmware_update.c:396-606 | a header that was written is read back, or refused: for its pin, identifier, revision, bitmap length, string type, size or checksums, and with what |
| `PackageEncode.ShortPackage` | src/dsp/firmware_update.c:408-430 | fewer than 36 bytes are refused |
| `PackageRecords.InitDynamic` | src/dsp/firmware_update.c:657-707 | cuts a record off by its own length, with the field's rest in every case |
| `PackageRecords.DecodeDevice` | src/dsp/firmware_update.c:710-815 | firmware and downstream device records, by offsets, with result codes |
| `PackageRecords.DecodeVariable` | src/dsp/firmware_update.c:3584-3628 | bitmap, version string, stamp, descriptors, package data and manifest, unchecked until consumed |
| `PackageRecords.DeviceTiles` | src/dsp/firmware_update.c:732-814 | the pieces of a device record fill its declared length exactly, and the next record starts there |
| `PackageRecords.DeviceRefusals` | src/dsp/firmware_update.c:657-770 | -EPROTO exactly for a record long enough whose string type is unknown or whose version is wanting, -EOVERFLOW for every other refusal, and what is left of the field |
| `PackageEncode.DeviceRoundTrip` | src/dsp/firmware_update.c:710-815 | a device record that was written is read back, every field and piece of it, with the stamp only downstream, or refused |
| `PackageRecords.DecodeComponent` | src/dsp/firmware_update.c:3694-3802 | component records, with result codes and the field's rest |
| `PackageRecords.ResolveImage` | src/dsp/firmware_update.c:3784-3797 | the image lies in the package |
| `PackageRecords.ComponentTiles` | src/dsp/firmware_update.c:3717-3773 | the pieces of a component record are contiguous, and the next record starts where it ends |
| `PackageRecords.ComponentRefusals` | src/dsp/firmware_update.c:3717-3797 | -EPROTO for an unknown string type, the field left alone, and for a reserved classification; -EOVERFLOW for what is too long or an image outside the package |
| `PackageEncode.ComponentRoundTrip` | src/dsp/firmware_update.c:3717-3802 | a component record that was written is read back, every field of it, the image at the location and of the size written in that order, or refused |
| `Package.StageNeverMovesBack` | src/dsp/firmware_update.c:3384-3690 | a call in its stage leads to the next stage or stays; one out of order is refused, with -EINVAL or -EPROTO, and changes nothing; so no call moves the stage back |
| `Package.InitReadsCount` | src/dsp/firmware_update.c:3412-3428 | each iter_init reads its count, of one byte or two, off the front of its field, or says that it is not there |
| `Package.RunNeverMovesBack` | src/dsp/firmware_update.c:3384-3690 | over every run of calls |
| `Package.Parser.OpenData` | src/dsp/firmware_update.c:3365-3381 | effect and result code of opening a package, the areas stored by a late failure included |
| `Package.Parser.StartFirmware` | src/dsp/firmware_update.c:3384-3428 | effect and result code, the stage changing even when the count is missing |
| `Package.Parser.StartDownstream` | src/dsp/firmware_update.c:3448-3509 | likewise, with no devices for a revision 1 package |
| `Package.Parser.StartComponents` | src/dsp/firmware_update.c:3632-3690 | likewise, from either device stage as the pin allows |
| `Package.Parser.DecodeDeviceRecord` | src/dsp/firmware_update.c:3431-3445 | the next record of the stage |
| `Package.Parser.DecodeComponentRecord` | src/dsp/firmware_update.c:3694-3715 | the next record of the stage |
| `Package.Parser.Step` | include/libpldm/firmware_update.h:2884-2901 | the entry counts, and completion |
| `PackageWalk.ForeachDevice` | include/libpldm/firmware_update.h:2635-2641 | the loop gathers the announced number of records or stops at the first refused one |
| `PackageWalk.ForeachComponent` | include/libpldm/firmware_update.h:2970-2977 | likewise for components, whose count is tested late |
| `PackageWalk.ParsePackage` | include/libpldm/firmware_update.h:2785-2792 | opening and walking a package gives the records of `Parse`, under every pin |
| `PackageWalk.NewerPinsSeeTheSame` | src/dsp/firmware_update.c:3483-3495 | a revision 1 package gives the same records and images under a revision 1 pin as under any newer one |
| `PackageWalk.DevicesTile` | src/dsp/firmware_update.c:724-728 | successive device records are adjacent, and as many as announced |
| `PackageWalk.ComponentsTile` | src/dsp/firmware_update.c:3770-3771 | so are component records |
| `PackageWalk.DevicesStop` | include/libpldm/firmware_update.h:2635-2641 | the device loop hands out the records that lie one behind the other, as many as announced, or up to one that is refused, whose error it reports |
| `PackageWalk.ComponentsStop` | include/libpldm/firmware_update.h:2970-2977 | so does the component loop, with a count of zero standing for 2^64 |
| `PackageWalk.FirstFailureEnds` | include/libpldm/firmware_update.h:2785-2792 | the first part of a package that fails ends the walk, with its error, and what was handed out by then is kept |
| `PackageWalk.ComponentsExactly` | include/libpldm/firmware_update.h:2890-2899 | the loop succeeds exactly when at least one component is announced and as many decode as are announced |
| `PackageWalk.UnannouncedComponents` | include/libpldm/firmware_update.h:2890-2899 | with a count of zero it hands out all records that decode, and then fails |
| `PackageWalk.ZeroCountPackage` | include/libpldm/firmware_update.h:2890-2899 | a 65-byte package that announces no component and holds one has it handed out, with -EOVERFLOW in the end |
| `PackageWalk.ParsesExactly` | src/dsp/firmware_update.c:3383-3802 | a package parses exactly when its devices do, a component is announced, and as many decode as are announced |
| `PackageWalk.PackageTiles` | src/dsp/firmware_update.c:3383-3802 | counts and records fill the areas without gap or overlap, up to what is left behind the last component; so do counts and the pieces of all records |
| `PackageWalk.RecordsAreWhole` | src/dsp/firmware_update.c:710-815 | every device and component record a walk hands out is filled by its pieces, however the walk ends |
| `PackageWalk.PackageIsCutUp` | src/dsp/firmware_update.c:524-3802 | fixed part, version string, counts, pieces of all records, what is left, and checksums fill the declared size from its first byte to its last |
| `PackageWalk.SmallestPackageParses` | src/dsp/firmware_update.c:3365-3802 | a 65-byte revision 1 package with one component and a right checksum parses |
| `PackageBuild.DevicesRoundTrip` | src/dsp/firmware_update.c:710-815 | device records written one behind the other are read back by the loop, in their order |
| `PackageBuild.ComponentsRoundTrip` | src/dsp/firmware_update.c:3694-3802 | so are component records |
| `PackageBuild.PackageRoundTrip` | src/dsp/firmware_update.c:337-3802 | a whole package that was written gives back all its records, in their order, with all they hold |
| `PackageDescriptors.DecodeDescriptor` | src/dsp/firmware_update.c:867-897 | type, value and rest of the field, or the result code; the pointer of the field is lost exactly when the descriptor is longer than the field |
| `PackageDescriptors.ForeachDescriptor` | include/libpldm/firmware_update.h:2701-2710 | the loop gathers as many descriptors as the record announces, or stops at the first refused one |
| `PackageDescriptors.DescriptorsTile` | src/dsp/firmware_update.c:883-894 | descriptors are adjacent and as many as announced |
| `PackageDescriptors.DescriptorsRoundTrip` | src/dsp/firmware_update.c:877-896 | a written list is read back, exactly when its last value is not empty or something follows it |
| `PackageDescriptors.EmptyDescriptorRefused` | src/dsp/firmware_update.c:877-881 | one empty descriptor that is the whole field is refused with -EOVERFLOW |
| `Control.AddAllKeepsTidy` | src/control.c:291-321 | after any additions with versions, used slots form a prefix with distinct types |
| `Control.NullVersionsBreakTidy` | src/control.c:301-318 | a null version list followed by an addition registers a type twice |
| `Control.TidyExactlyWhenHarmless` | src/control.c:291-321 | a call keeps the slots tidy exactly when it has versions, is refused for its count, or takes a slot with no used one behind it |
| `Control.RunTidyExactlyWhenHarmless` | src/control.c:291-321 | over any run of calls the slots are tidy throughout exactly when each call is such a one at its turn |
| `Control.AddedIsFound` | src/control.c:95-101 | tidy or not: what was added is found, other types are unaffected |
| `Control.RemovedIsGone` | src/control.c:301-318 | a type given a null version list is gone exactly when no later slot has it, as in a tidy registry |
| `Control.TypesAgreeWithVersions` | src/control.c:68-151 | in a response of nine bytes or more GetPLDMTypes sets bit t exactly when GetPLDMVersion does not call t invalid; below, and for versions that do not fit, -EOVERFLOW |
| `Control.VersionsReported` | src/control.c:110-120 | the versions reported are those registered, as far as the count modulo 256 reaches, or -EOVERFLOW exactly when they do not fit |
| `Control.CountWraps` | src/control.c:310-318 | of 257 version words one is reported |
| `Control.CommandsReported` | src/control.c:171-198 | likewise the commands |
| `Control.NotAnswered` | src/control.c:207-235 | too little room or too short a message, another type, and anything but a request get no response but an error |
| `Control.TidAnswered` | src/control.c:49-66 | request bytes with command 2 get completion code 0 and terminus 0, or 0x03 for a wrong length |
| `Control.VersionsAnswered` | src/control.c:68-126 | request bytes with command 3 get the versions registered for the type they name |
| `Control.VersionsRefused` | src/control.c:75-108 | 0x03 for a wrong length, 0x81 for another part than the first, 0x83 for a type without versions |
| `Control.TypesAnswered` | src/control.c:128-151 | request bytes with command 4 get 64 bits, bit t set exactly when some slot has versions for type t |
| `Control.CommandsAnswered` | src/control.c:153-201 | request bytes with command 5 get the commands registered for the type they name |
| `Control.CommandsRefused` | src/control.c:160-184 | 0x03 for a wrong length, 0x83 for a type without commands |
| `Control.OthersAnswered` | src/control.c:257-260 | every other command gets 0x05 |
| `Control.SetupAnswers` | src/control.c:270-288 | after setup: version 1.1.0 of the base type and its CRC, the commands 2 to 5, and 0x83 for every other type |
| `Control.SetupVersionIsSealed` | src/control.c:13-22 | the word behind the version is its CRC-32 |
| `Control.Answer` | src/control.c:204-267 | every response fits the buffer and correlates with its request |
| `Control.Written` | src/dsp/base.c:1112-1240 | a failing call leaves nothing behind, or, below nine bytes of payload, the header of a response that correlates |
| `Control.WrittenOnFailure` | src/control.c:204-267 | a response that does not fit leaves its header behind for the commands 2 and 4, and nothing for the others |
| `Control.Responder.constructor` | src/control.c:270-288 | setup registers the base type, its version and its commands in the first slot, and leaves the others unused |
| `Control.Responder.AddType` | src/control.c:291-321 | effect on the slots and result code |
| `Control.Responder.LookUp` | src/control.c:94-101 | the first slot with versions for the type |
| `Control.Responder.LookUpCommands` | src/control.c:171-178 | the first slot with versions and commands for the type |
| `Control.Responder.CollectTypes` | src/control.c:141-147 | one bit for each type below 64 that has versions |
| `Control.Responder.HandleCommand` | src/control.c:237-260 | the payload or error for each command |
| `Control.Responder.HandleMsg` | src/control.c:204-267 | result code, length and the whole response buffer, the header that some failures leave behind included |
| `Multipart.Encode` | src/dsp/base.c:808-877 | result code, with -EPROTO exactly for a section in a part whose flag is neither 1 nor 5; message header and payload, and exactly what an error leaves behind |
| `Multipart.PayloadLayout` | src/dsp/base.c:835-876 | where each field of a payload lies, lowest byte first |
| `Multipart.Decode` | src/dsp/base.c:749-805 | fields, data and checksum, or the result code, for any payload |
| `Multipart.Refusals` | src/dsp/base.c:762-804 | -ENOTSUP exactly for types other than 0 and 7, -EPROTO exactly for a section in a part whose flag is neither 1 nor 5, -EOVERFLOW for what ends too soon and -EBADMSG for what goes on |
| `Multipart.RoundTrip` | src/dsp/base.c:749-877 | what is encoded is decoded to the same request and checksum |
| `Multipart.Canonical` | src/dsp/base.c:749-805 | what is decoded is exactly what would be encoded for it |

## Left out

- The kernel, sockets, polling, file opening and memory allocation: a kernel reply, a datagram or the outcome of a send is an input.
- The size and existence checks of the lock file at opening: they happen before the modelled state exists.
- Freeing an instance ID of 64 or more, which shifts a 32- or 64-bit word too far in C: the model answers -EINVAL, as the code does for 32 to 63.
- Malformed BIOS tables, unknown attribute types and password attributes: the iterator is marked unsafe there and asserts.
- The `errmsg` texts of the BIOS info checks.
- Package.Parser.OpenData: takes the pin as its revision; the size sums and identifiers by which a pin is versioned are not modelled, nor is the header structure of the caller that a failing decoder may have filled in part.
- PackageHeader.DecodeHeader: the NVIDIA build that skips the payload checksum is not modelled, only the default build.
- PackageDescriptors.DecodeDescriptor: a further call on a field whose pointer was lost runs into an assertion in C and is not modelled. Types with a fixed length and vendor-defined titles are not modelled.
- The response half of the multipart codecs, the receive requests and the other fixed-layout codecs: they repeat what is shown here with other fields.
- The firmware device update state machine, the PDR repository, the entity tree and the platform codecs.
- The MCTP demultiplexer transport and the socket send buffer sizing.
- Address-space wrap-around checks on pointers.
