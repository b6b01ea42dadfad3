# ipmitool: verified model of its FRU, parameter and boot-option engines

ipmitool talks to baseboard management controllers. This Dafny project models the parts of
it that keep state while they talk to a device that may answer anything, and proves what
those parts keep. Devices are arbitrary: a device is a finite script of answers (then
silence) or a total function from requests to answers, and every statement holds for all
of them. `dafny verify dfyconfig.toml` checks the whole project.

The project has one style throughout. What the C code does is written once as a function
over values (a run, a scan, an image); the properties are lemmas about that function; and
the C code's own form (buffers edited in place, linked nodes, a sticky static flag, loops
that move cursors) is a method proved to compute exactly that function.

| module | component |
|---|---|
| `Bytes`, `HexText` | checksums, `memcpy`, hex dump and parser (`lib/helper.c`) |
| `FruField` | type/length fields: hex, BCD plus, 6-bit packed, 8-bit |
| `Multirecord` | size walk and checksum repair of the multirecord area |
| `FruBlocs`, `FruBlocRecords`, `FruDevice` | the bloc list of a FRU device, where it starts on a device with records, the Read/Write FRU Data commands |
| `FruWrite`, `FruWriteLog`, `FruWriteArea` | the adaptive write loop: state machine, its requests one by one, then the code over a real buffer, list and device |
| `FruReadRun`, `FruReadLog`, `FruRead`, `SpdRead` | the two adaptive FRU readers, as a run, request by request, and over a buffer, and the SPD reader |
| `FruLayout`, `FruMove`, `FruRelocate`, `FruInternal`, `FruRebuild`, `FruRecords` | the resizing field editor on images: section, relocation and what it achieves, the internal use area, the new image's meaning, the multirecord area |
| `FruEditor`, `FruShortRead`, `FruRoundTrip`, `FruEdit` | the editor on a device: in-place code, what a short read costs, what reaches the device, and the whole operation with its read and its write-back |
| `Cfgp`, `CfgpText`, `CfgpContext` | configuration parameters: set/block scan, selector text, the linked data list |
| `BootMailbox`, `BootProtocol`, `BootCommands`, `BootRuns`, `BootSession` | boot initiator mailbox, the set-in-progress protocol, and what its requests mean |
| `CipherSuites` | cipher suite records: fetch and parse |
| `RecordList` | the doubly linked multirecord list of the e-keying analyzer |

The formats are those of the IPMI Platform Management FRU Information Storage Definition
v1.0 (sections 8, 10 to 13 and 16) and of IPMI v2.0 (sections 22.15, 28.12, 34.2 and 34.3).

## What the proofs found

- The edited area's length byte is updated in the old image only, so after a resize it is
  wrong in the image written back, and right exactly when no resize was needed
  (`FruRebuild.LengthByteIsStale`).
- A resize does not carry a multirecord area behind the edited one along: only as many bytes
  as the first record has data are moved, and when the FRU shrinks, the start of the moved
  area can be cleared as leftover data. The area is kept for every content if and only if
  nothing is resized or it lies before the edited area (`FruRecords.AlwaysKeptIff`); the
  condition for one image is `FruRecords.MovedAreaKeptIff`, and a well-formed 48-byte FRU
  that loses its records is in `FruRecords.ClearingLosesRecords`.
- An internal use area is moved only when its block number exceeds a byte offset, by a
  number of blocks taken as bytes, and when it lies last in a FRU that shrinks, the start
  of what was moved can be erased (`FruInternal.InternalMoved`).
- Copying the rest of the edited section can read up to six bytes behind the old image
  (`FruRebuild.CopyStaysInsideIff`, `FruRebuild.FullEditOverreads`); what it reads there is
  overwritten (`FruRebuild.SlackIsOverwritten`).
- When the FRU size is not a multiple of eight, the write-back can read up to seven bytes
  behind the new buffer (`FruRebuild.WriteBackFitsIff`, `FruRebuild.OddSizeOverruns`).
- The editor ignores whether the old image could be read. What it did not get it writes back
  as zeros, so that even a complete write-back keeps the bytes outside the edited section if
  and only if they were read or were zero (`FruShortRead.KeptIffReadEnough`,
  `FruEdit.SetFieldString`); `FruShortRead.ShortReadLoses` is a device that loses an area.
- A write-back that stops early is reported as a success: write_fru_area returns 0 and the
  editor only looks for -1 (`FruEdit.EditAndWriteBack`). What the device holds then is
  `FruRoundTrip.EditArrivesIff`.
- On a word-addressed device the space behind the last multirecord may start at an odd
  offset, because the alignment check does not cover it (`FruBlocs.OnlyRemainderMayBeOdd`).
  The write loop can then run for ever, or store a word one byte too early and report
  success; `FruWriteArea.EffectiveOnBuiltIff` and `FruWriteArea.BoundedOnBuiltIff` give the
  exact conditions and `FruWriteArea.OddEndBreaksWrites` a device and its five answers.
- The FRU readers deliver the bytes from the even offset below an odd one of a word device
  (`FruReadRun.OffsetIsRightIff`). The SPD reader sends byte offsets to word devices too, so
  from the second request on it reads from twice its offset (`SpdRead.SpdRightIff`).
- The section reader's static request size is reduced before it is compared. Every refused
  call lowers it further, and from 0 it wraps to 2^32 - 1, so that a device can have its
  request repeated that many times, less eight (`FruReadRun.SectionBoundedIff`,
  `FruReadRun.ZeroSizeWraps`).
- An open scan over parameter sets at a fixed block ends only when that block is the
  parameter's first one (`Cfgp.FixedBlockEndsIffFirst`, `Cfgp.OtherBlockNeverEnds`).
- A saved selector is read back if and only if the parameter does not have blocks without
  sets (`CfgpText.SaveThenParse`).
- Writing a single mailbox block cuts the payload without an error
  (`BootMailbox.SingleBlockKeeps`), contrary to the command's help text, and a block number
  that is a non-zero multiple of 256 is sent as block 0 without the IANA number
  (`BootMailbox.SingleBlockReadsBackIff`).
- Setting the boot device gives up only when the acknowledge gets no response, not when it is
  refused; setting the valid flags gives up in both cases (`BootProtocol.BootdevSendsIff`,
  `BootProtocol.BootvalidSendsIff`).
- The record list builder skips a record without data even when it is flagged as the last
  one, and goes on behind it (`RecordList.WalkAcceptsLists`).

## Model

| member | source | states |
|---|---|---|
| Bytes.ComplementCloses | lib/ipmi_fru.c:153-186 | a trailing byte makes an area sum to zero mod 256 exactly when it is the zero checksum of the bytes before it |
| Bytes.FruChecksumIsValid | lib/ipmi_fru.c:178-186 | accepts an area exactly when all of its bytes sum to zero |
| Bytes.IpmiCsum | lib/helper.c:759-767 | the zero checksum of a range; 0 exactly when the range sums to zero |
| HexText.Buf2Str | lib/helper.c:87-130 | for every input the static buffer holds the hex of the longest prefix of whole bytes that leaves room for the NUL |
| HexText.IpmiParseHex | lib/helper.c:157-210 | the result for every input (0, -1, -2, -3 or the byte count, even beyond size) and exactly which bytes are stored, on the error path too |
| HexText.StoredPairs | lib/helper.c:157-210 | on the error path too: as many pairs are stored as stand before the first bad character and fit, each the byte its two digits name |
| HexText.HexPrefixStops | lib/helper.c:181-184 | scanning stops at the first character that is not a hex digit |
| HexText.DumpThenParse | lib/helper.c:87-210 | reading the digit pairs of a dump gives the bytes back |
| HexText.DigitTable | lib/helper.c:87-210 | digit n is character n of 0123456789abcdef, and both that character and its upper-case form have the value n |
| HexText.DumpAt | lib/helper.c:87-130 | byte i of any input is dumped as the digits of its high and of its low half, at 2i and 2i + 1 |
| HexText.ParseThenDump | lib/helper.c:87-210 | dumping parsed digits gives the digits back, in lower case |
| HexText.DumpParsesBack | lib/helper.c:87-210 | the parser accepts every dump of a non-empty byte string, returns its length and stores the same bytes |
| FruField.GetFruAreaStr | lib/ipmi_fru.c:193-288 | advances by 1 + length for all four types, stays inside a buffer of the computed size + 1, and leaves in it the C string the field stands for; no string exactly for an empty buffer |
| FruField.UnpackPack | lib/ipmi_fru.c:251-276 | for every length, 6-bit unpacking of packed text gives the text and then only the spaces that fill the last group of four |
| FruField.UnpackBcd | lib/ipmi_fru.c:245-249 | BCD-plus decoding of packed digits gives the text, and one space when its length is odd |
| FruField.BcdCharacters | lib/ipmi_fru.c:197-249 | the sixteen codes stand for the characters 0 to 9, space, - . : , and _ in this order |
| FruField.PackingExample | lib/ipmi_fru.c:251-276 | the packing example of the Storage Definition: 29h DCh A6h is "IPMI" |
| FruField.FieldShape | lib/ipmi_fru.c:202-288 | type in the two upper bits of the head and length in the others; no text exactly for an empty field that is not 6-bit packed; the computed buffer size covers the characters with less than five to spare |
| FruField.WalkEncoded | lib/ipmi_fru.c:193-288 | k calls in a row land at the sum of the k encoded lengths |
| FruField.DecodeEncoded | lib/ipmi_fru.c:193-288 | the k-th call on an encoded field list decodes the k-th field |
| FruField.StrlenIsPayloadLen | lib/ipmi_fru.c:5054-5086 | strlen of a decoded field is its payload length exactly for an empty field or 8-bit text without NUL: when the editor measures the old field correctly |
| Multirecord.GetAdjustSizeFromBuffer | lib/ipmi_fru.c:3984-4031 | size and status are those of the walk over the buffer, with the 16-bit counter |
| Multirecord.WalkerOnRecords | lib/ipmi_fru.c:3984-4031 | on an encoded list the walk returns the total of length + 5 up to and including the first record that is flagged last or has a bad header, and fails exactly for a bad header |
| Multirecord.LastFlag | include/ipmitool/ipmi_fru.h:114-130 | the end of the list is flagged by the upper bit of the format byte |
| Multirecord.RepairChecksums | lib/ipmi_fru.c:2127-2153 | changes exactly the two checksum bytes of the edited record |
| Multirecord.RepairedSums | lib/ipmi_fru.c:2127-2153 | after the repair the five bytes of the header sum to zero, and so do the data with byte 3 of the header |
| Multirecord.RepairRenewsRecord | lib/ipmi_fru.c:2127-2153 | the repaired area encodes the same list with one record's checksums renewed, every other byte as before |
| Multirecord.WithSumsIsValid | lib/ipmi_fru.c:2127-2153 | a renewed record's header sums to zero, and so do its data with the record checksum |
| Multirecord.RepairedAreaIsAccepted | lib/ipmi_fru.c:2127-2153 | the size walk accepts the repaired area and returns its size |
| FruBlocs.BlocList.Append | lib/ipmi_fru.c:408-430 | the linked list stays a chain whose bloc sizes reach to the next start |
| FruBlocs.BuildFruBloc | lib/ipmi_fru.c:334-509 | null exactly without a valid common header; otherwise a chain of nodes with the starts the header and the multirecords determine, each reaching to the next and the last to the device's end |
| FruBlocRecords.BlocsOfRecords | lib/ipmi_fru.c:334-509 | the starts on a device with a header and a record list of any length: 0, 8 times each offset that is not zero in header order, every record up to the one the walk ends with, and the remaining space |
| FruBlocRecords.WalkOnList | lib/ipmi_fru.c:430-490 | record i of the list starts a bloc behind the encoded records before it, up to the first that is flagged last, has a bad header, reaches the device's end or is followed by an odd offset of a word device; the walk ends behind that one, or one byte further in the last case |
| FruBlocRecords.EndsWithSizeWalk | lib/ipmi_fru.c:430-490 | when the record ends it, the walk ends where the size walk over the same bytes ends |
| FruBlocRecords.AreasInHeaderOrder | lib/ipmi_fru.c:390-430 | the blocs of the areas, spelled out from bytes 1 to 4 of the header |
| FruBlocs.TilesIffOrdered | lib/ipmi_fru.c:334-509 | with 16-bit sizes a bloc list tiles the device exactly when its starts are in order and inside it |
| FruBlocs.TilesIffHeaderOrdered | lib/ipmi_fru.c:334-509 | for every header, size and number of multirecords: the built list is an exact tiling if and only if the header's areas are in order and inside the device |
| FruBlocs.OnlyRemainderMayBeOdd | lib/ipmi_fru.c:430-505 | on a word device every bloc but the one behind the last multirecord starts at an even offset |
| FruDevice.AddressIsBase | lib/ipmi_fru.c:627-634 | the two offset bytes of a request address the cursor, rounded down to a word on a word device |
| FruWrite.RunEffect | lib/ipmi_fru.c:593-692 | for every device: behind the cursor each byte equals its source or is unchanged and lies in a range [cursor, bloc end) declared write protected, and nothing outside changed; on success this is the whole range |
| FruWrite.EffectiveIffNeverShifts | lib/ipmi_fru.c:593-692 | that effect holds for all sources, contents and answers if and only if no odd bloc end with room for a word behind it lies in the range of a word device; and the same condition decides whether it holds for all calls that report success |
| FruWrite.RunStores | lib/ipmi_fru.c:593-685 | for every run: a byte of the device has its source value exactly when a request that covers it was accepted, otherwise its old value |
| FruWrite.RunContained | lib/ipmi_fru.c:593-685 | every request lies inside the destination range and one bloc, is within the request size in force, and keeps source and destination in step |
| FruWriteLog.RunLog | lib/ipmi_fru.c:593-685 | for every device, request by request: each takes as much of the stretch up to the first bloc end behind the cursor as the size in force allows, in whole words on a word device; C7h, C8h and CAh lower a size above 32 by eight, 80h passes the stretch, 00h the bytes sent, and any other answer ends the call |
| FruWrite.RunBounded | lib/ipmi_fru.c:593-685 | under the progress condition no device can make a call send more than length + remaining reductions + 1 requests, at most length + 29 |
| FruWrite.ShrinksBound | lib/ipmi_fru.c:649-656 | at most 28 reductions from any request size up to 255 |
| FruWrite.BoundedIffProgress | lib/ipmi_fru.c:593-685 | a bound that holds for every device exists if and only if the request size covers one unit and no odd bloc end lies in the range of a word device |
| FruWrite.BlockedRuns | lib/ipmi_fru.c:593-685 | without progress, a device that accepts every request keeps the call sending for as long as it likes |
| FruWriteArea.WriteFruArea | lib/ipmi_fru.c:532-692 | refused calls change nothing; any other call leaves device, request size and result exactly as the run of the state machine on the device's answers; 1 exactly when the whole range was passed; -1 exactly for a range behind the device, an odd one on a word device, or an interface of three bytes; a size chosen on first use is the largest up to 255 with which request and three bytes fit the interface, so no message exceeds it, and a stored size is used as it is; the requests are those of FruWriteLog.RunLog |
| FruWriteArea.WriteLoop | lib/ipmi_fru.c:593-692 | the loop over buffer, list and device follows the run, answer by answer |
| FruWriteArea.HandleAnswer | lib/ipmi_fru.c:644-685 | cursors, request size and continuation after each kind of answer |
| FruWriteArea.RequestsStayInTiles | lib/ipmi_fru.c:334-692 | for an ordered header every write request of every run lies inside one bloc of the tiling |
| FruWriteArea.BuiltBlocsReachTheEnd | lib/ipmi_fru.c:597-607 | the built list always reaches behind the destination range |
| FruWriteArea.AlignedIffMultirecordsEndEven | lib/ipmi_fru.c:430-607 | the built blocs keep a word device's writes aligned exactly when the multirecord walk does not end at an odd offset inside the range |
| FruWriteArea.EffectiveOnBuiltIff | lib/ipmi_fru.c:430-692 | for the blocs of an ordered header: every write, and every write that reports success, has its effect on every device if and only if the multirecord area of a word device does not end at an odd offset with a word of the range behind it |
| FruWriteArea.BoundedOnBuiltIff | lib/ipmi_fru.c:430-692 | and a bound on the requests exists if and only if the request size covers one unit and that area does not end at an odd offset inside the range |
| FruWriteArea.OddEndBreaksWrites | lib/ipmi_fru.c:430-692 | a 24-byte word device with one empty last record, on which a write of everything can lose the effect and has no bound; with five answers it reports success after byte 13 of the source replaced byte 12, which was declared protected |
| FruRead.ReadFruArea | lib/ipmi_fru.c:706-834 | a correct prefix of the device's range of exactly the consumed length, the rest of the buffer untouched or cleared by clipping; result, request size, answers used and every request sent are those of the read run; requests stay in range, and their number is at most length + 1 + reductions; each is as FruReadLog.ReadLog says; a size chosen on first use is the largest up to 255 whose reply fits the interface |
| FruRead.SectionReader.ReadFruAreaSection | lib/ipmi_fru.c:848-944 | the same for the section reader with its static request size, at most length + size + 1 requests when that is not 0, each as FruReadLog.ReadLog says |
| SpdRead.ReadSpd | lib/dimm_spd.c:1677-1714 | the cleared buffer holds exactly the pieces of the run over the device's answers, and the result is true exactly when they cover the whole size |
| SpdRead.SpdIsPrefix | lib/dimm_spd.c:1677-1714 | on a byte device these are a correct prefix of the device, like those of the FRU readers |
| SpdRead.SpdRightIff | lib/dimm_spd.c:1686-1712 | for every content of the device the pieces are its first bytes if and only if it is addressed by bytes or no second request brings data |
| SpdRead.SpdRightForAllIff | lib/dimm_spd.c:1686-1712 | the loop is right for every device and content if and only if the device is addressed by bytes or the size is at most 1 |
| FruReadRun.ReadResults | lib/ipmi_fru.c:767-834 | result 0 means the whole range or an empty last reply; -1 means the last request met silence, an error or an impossible count |
| FruReadLog.ReadLog | lib/ipmi_fru.c:767-944 | for every device and both readers, request by request: each asks for the smaller of what is left and the size in force, in eight bits, at the even offset below on a word device; what C7h, C8h and CAh, a usable reply and any other answer make of offset and size; and with which result the last one ends the call |
| FruReadLog.ObeyedRead | lib/ipmi_fru.c:767-944 | a byte device that returns exactly the bytes asked for: n bytes are read with size m in n / m requests, rounded up, each for m bytes behind those before and the last for the rest, with result 0 |
| FruReadLog.ObedientScriptIsObeyed | lib/ipmi_fru.c:767-944 | for every range and size there is such a device |
| FruReadRun.CompleteReadIsTheRange | lib/ipmi_fru.c:706-944 | a read that returned 0 without an empty last reply delivered the device's range byte for byte |
| FruReadRun.CompleteReadsAgree | lib/ipmi_fru.c:706-944 | two reads of one range of one device, by either reader, with any request sizes and answers, leave the same bytes as far as both came, and the same whole range if both were completed |
| FruReadRun.AtMost51Reductions | lib/ipmi_fru.c:785-801 | at most 51 reductions from any size up to 255, exactly 51 from 255 |
| FruReadRun.LifetimeReductions | lib/ipmi_fru.c:745-834 | over any sequence of calls on one fru_info to any devices, each call starting with the request size the one before left: at most 51 requests are refused and retried with a smaller size, and at most the sum of length + 1, plus those, are sent |
| FruReadRun.RequestsCounted | lib/ipmi_fru.c:767-944 | a read sends one request, at most one more for every byte it gets, and one more for every reduction |
| FruReadRun.RetriesAreShrinks | lib/ipmi_fru.c:785-801 | the reductions of a read_fru_area call are exactly those its request size has lost |
| FruReadRun.SectionRetries | lib/ipmi_fru.c:906-916 | the section reader can be made to try again at most size - 9 times, and 2^32 - 9 times from size 0, which wraps |
| FruReadRun.SectionBoundedIff | lib/ipmi_fru.c:848-944 | length + stored size + 1 requests are enough for every device if and only if the stored size is not 0 or nothing is to be read |
| FruReadRun.ZeroSizeWraps | lib/ipmi_fru.c:852-916 | twenty refusing calls bring the stored size from 20 to 0, and a read of one byte then sends three requests |
| FruReadRun.OffsetIsRightIff | lib/ipmi_fru.c:767-824 | n > 0 bytes read from an offset are those of the range for every device content if and only if the device is addressed by bytes or the offset is even |
| FruReadRun.OddOffsetShifts | lib/ipmi_fru.c:767-834 | a complete and successful read of two bytes at offset 1 of a word device that delivers the two bytes before |
| FruLayout.CountPadding | lib/ipmi_fru.c:5076-5084 | counts the zero bytes before the checksum |
| FruLayout.PaddingOfSection | lib/ipmi_fru.c:5076-5084 | that count is the padding of any well-formed section |
| FruLayout.ResizeArithmetic | lib/ipmi_fru.c:5105-5125 | for every integer padding: the change is minus the floor of padding / 8 and leaves 0 to 7, so the internal error branch is unreachable |
| FruLayout.NewBufferFits | lib/ipmi_fru.c:4940-4951 | whatever ends on a block of the old image still fits the new buffer after the shift |
| FruLayout.RewriteSection | lib/ipmi_fru.c:5249-5300 | rewriting field f of an encoded section gives the encoding of the section with that field replaced and the new padding |
| FruLayout.RewriteFrame | lib/ipmi_fru.c:5249-5300 | the rewrite changes nothing outside the section from the field on |
| FruLayout.SectionDecodes | lib/ipmi_fru.c:193-288 | walking to field k of a section in an image decodes that field |
| FruRelocate.RelocateOk | lib/ipmi_fru.c:5132-5248 | every other chassis, board and product area stands byte for byte at its new header offset, the image up to the edited section's new end is untouched with any internal use or multirecord area there, the header sums to zero and only its offsets changed, and the erased tail is zero and hits nothing |
| FruRelocate.EraseIsBehind | lib/ipmi_fru.c:5170-5246 | the erased bytes lie behind the edited section and behind every moved chassis, board or product area |
| FruInternal.EndIsLastArea | lib/ipmi_fru.c:5170-5193 | the end from which a shrunken FRU is erased is that of the area with the greatest offset: its length byte, or for a multirecord area its first record if that is the last, and otherwise nothing |
| FruInternal.InternalMoved | lib/ipmi_fru.c:5141-5246 | an internal use area whose block number exceeds the section's byte offset: as many bytes as there are blocks up to the next area, or the low byte of the FRU size, stand at the new place except those that were erased, and its new offset is in the header |
| FruInternal.InternalStays | lib/ipmi_fru.c:5141-5230 | otherwise the header keeps its offset |
| FruRelocate.InternalIsApart | lib/ipmi_fru.c:5165-5230 | when the internal use area is moved, the bytes moved reach neither the edited section nor another info area |
| FruRelocate.NewAreasApart | lib/ipmi_fru.c:5132-5248 | in the new image the info areas are pairwise disjoint |
| FruRecords.RecordsKeptIff | lib/ipmi_fru.c:5170-5246 | after the whole relocation, erase included, a multirecord area behind the edited one stands at its new offset if and only if it fits there, the bytes of it that are erased were zero, and the other bytes behind the first record's data length were in their new place before |
| FruRecords.MovedAreaKeptIff | lib/ipmi_fru.c:4989-5300 | the same for the image that is written back |
| FruRecords.AlwaysKeptIff | lib/ipmi_fru.c:4989-5300 | for an edit of a FRU with a multirecord area: every well-formed record list is kept, whatever the other bytes, if and only if nothing is resized or the area lies before the edited one |
| FruRecords.ClearingLosesRecords | lib/ipmi_fru.c:5170-5246 | a well-formed 48-byte FRU with two records, of which all but the first eleven bytes already stand where they should go: setting a chassis field to "AB" loses the list, because the erase clears its start |
| FruRebuild.SectionIsReplaced | lib/ipmi_fru.c:4989-5300 | at its old place and new length the edited section is the old one with just field f replaced, re-padded and with a correct checksum |
| FruRebuild.OthersAreKept | lib/ipmi_fru.c:4989-5300 | without a resize every byte outside the section is as before; with one, every other info area is kept as RelocateOk says, all bytes between header and section are as before and the tail is zero, also after the rewrite |
| FruRebuild.EditedFieldsDecode | lib/ipmi_fru.c:4989-5300 | field f decodes to the new string, every other field exactly as before, and the section sums to zero |
| FruRebuild.LengthByteIsStale | lib/ipmi_fru.c:5231-5233 | the length byte in the new image is right exactly when no resize was needed |
| FruRebuild.EditIsShiftable | lib/ipmi_fru.c:4940-5125 | the new buffer has room for the resized section and every shifted area |
| FruRebuild.SomeEditMoves | lib/ipmi_fru.c:4989-5300 | the conditions on an edit can be met, also by one that resizes its area and moves another |
| FruRebuild.CopyStaysInsideIff | lib/ipmi_fru.c:5277-5281 | the copy of the rest of the section stays inside the old image if and only if the new padding fits behind the old content, and never reads more than six bytes behind it |
| FruRebuild.FullEditOverreads | lib/ipmi_fru.c:5277-5281 | an edit that reads all six |
| FruRebuild.SlackIsOverwritten | lib/ipmi_fru.c:5277-5297 | whatever stands there, the rewritten image is the same |
| FruRebuild.WriteBackFitsIff | lib/ipmi_fru.c:4936-5307 | the new FRU size fits the new buffer if and only if the section does not grow, the FRU ends on a block, or the new padding is less than the odd bytes and the old padding; otherwise at most seven bytes behind the buffer are written back |
| FruRebuild.OddSizeOverruns | lib/ipmi_fru.c:4936-5307 | a 25-byte FRU whose edit writes 33 bytes back from a buffer of 32 |
| FruShortRead.KeptIffReadEnough | lib/ipmi_fru.c:5007-5032 | after an edit that keeps the other areas of the image it worked on: every byte of the device outside the section (with a resize, every other info area of the device) survives if and only if those of its bytes that were not read are zero; a complete read sees to that |
| FruShortRead.ShortReadLoses | lib/ipmi_fru.c:5007-5032 | a 24-byte device that answers one read request and then falls silent: the edit is carried out and loses the product area |
| FruEditor.SetFieldStringRebuild | lib/ipmi_fru.c:4989-5306 | the in-place editor up to the write-back: it fails exactly for a wrong area letter or a field without text; otherwise the new buffer is the image of FruRebuild, with its section, other areas, tail, header and size; the section edited starts at 8 times header byte 2, 3 or 4 for c, b or p, and its fields 3, 6 or 3 bytes behind |
| FruEdit.SetFieldString | lib/ipmi_fru.c:4989-5327 | the whole operation against a device: the edit is one of the bytes that could be read, followed by zeros; the device is what the write run leaves, with the outcome below; and after a write-back of everything, what was outside the section survives if and only if it was read or was zero; the section edited on the device is the one at 8 times header byte 2, 3 or 4 for c, b or p |
| FruEdit.EditAndWriteBack | lib/ipmi_fru.c:5032-5327 | the steps behind the read: -1 exactly when the editor fails or the write is refused, and then the device is unchanged; 1 also for a write that stopped early, even one that met only silence; the device is what the write run leaves, with the outcome below, for the section that the letter and the header name |
| FruEdit.WriteBackOutcome | lib/ipmi_fru.c:4989-5327 | unless a bloc end is harmful: the device holds the edited section if and only if every byte of it was delivered or was the same before, and then every field decodes as edited, also when the size has wrapped; a complete run without protected blocs whose size did not wrap sees to that, and then the header and all other areas are on the device as OthersAreKept says |
| FruEditor.ShiftAreas | lib/ipmi_fru.c:5149-5218 | the loop over the header's areas computes the relocation |
| FruEditor.ShiftInternal | lib/ipmi_fru.c:5220-5230 | the move of the internal use area, by a number of blocks taken as bytes, is that of the relocation |
| FruEditor.RewriteInPlace | lib/ipmi_fru.c:5255-5300 | the buffer edits compute the rewritten section |
| FruEditor.SeekField | lib/ipmi_fru.c:5058-5070 | the loop stops at field f with its offset and its string |
| FruRoundTrip.CompleteWriteStores | lib/ipmi_fru.c:532-692 | a complete write that met no protected bloc stores the source and nothing else |
| FruRoundTrip.EditArrivesIff | lib/ipmi_fru.c:4989-5327 | for every run of the write-back, complete or not: the device holds the edited section if and only if each of its bytes was delivered by an accepted request or was the same before |
| FruRoundTrip.EditReachesDevice | lib/ipmi_fru.c:4989-5327 | after a complete write-back that met no protected bloc, every field read from the device decodes as before, and the edited one to the new string, for every edit, also when the size exceeds the buffer; every other info area stands on the device at its new header offset, the new header with its zero sum is there, and the bytes between it and the section are as before |
| Cfgp.ScanExact | lib/ipmi_cfgp.c:333-415 | on a finite domain of consecutive sets and blocks the scan stops after exactly elements + block runs + 1 calls and finds the whole domain, once each, in lexicographic order |
| Cfgp.ScanStarts | lib/ipmi_cfgp.c:333-412 | the first call of a scan is for the selectors given, or for the first set and block, or 0 where they do not apply |
| Cfgp.EmptyDomain | lib/ipmi_cfgp.c:385-412 | a failing first element is the handler's error, or success with nothing when quiet |
| Cfgp.OtherBlockNeverEnds | lib/ipmi_cfgp.c:354-412 | an open set scan at another block than the first makes one call per allocation until memory runs out |
| Cfgp.FixedBlockEndsIffFirst | lib/ipmi_cfgp.c:354-412 | an open set scan at a fixed block ends if and only if it is the first block |
| Cfgp.GetParamSelectorsFit | lib/ipmi_cfgp.c:345-412 | every stored selector is one the parser accepts |
| Cfgp.GetFromExact | lib/ipmi_cfgp.c:423-453 | reading the whole table finds the domain of every readable parameter, in table order |
| Cfgp.GetOneExact | lib/ipmi_cfgp.c:423-442 | reading one parameter finds its domain; an empty one, an unknown parameter and one without a size are errors |
| Cfgp.GetFromReads | lib/ipmi_cfgp.c:444-453 | write-only parameters are passed over, and a read of the whole table that succeeds has read all others |
| CfgpText.LookupCfgp | lib/ipmi_cfgp.c:95-111 | the first descriptor with the name, ignoring case; none exactly when there is none |
| CfgpText.NamesIgnoreCase | lib/ipmi_cfgp.c:95-111 | a name matches when it differs in the case of letters only |
| CfgpText.IpmiCfgpParseSel | lib/ipmi_cfgp.c:124-178 | selector, argument count and every error of the parser |
| CfgpText.ParserIs | lib/ipmi_cfgp.c:124-178 | as many tokens are used as there are and the parameter takes; the parser fails exactly for an unknown name or a token that is not a selector; selectors not given stand for all, or for 0 where they do not apply |
| CfgpText.DecimalReadsBack | lib/ipmi_cfgp.c:496-504 | a printed number is read back |
| CfgpText.NumbersAccepted | lib/helper.c:492-509 | a plain decimal number is accepted exactly below 2^31 |
| CfgpText.LookupOwnName | lib/ipmi_cfgp.c:95-111 | with case-insensitively distinct names every name finds its own descriptor |
| CfgpText.SaveThenParse | lib/ipmi_cfgp.c:124-504 | the saved tokens of a stored selector are parsed back to it, using exactly those tokens, if and only if blocks imply sets |
| CfgpContext.SavedLinesParseBack | lib/ipmi_cfgp.c:459-518 | every line a save prints parses back to the item it came from, whatever values follow |
| CfgpContext.ActHandles | lib/ipmi_cfgp.c:459-518 | an action handles, in list order, exactly the items whose selectors match and whose access is not the filtered one, or those up to the first failure; the tokens of every line a save prints |
| CfgpContext.Context.AddData | lib/ipmi_cfgp.c:186-198 | appends to the linked list, keeping everything before |
| CfgpContext.Context.Uninit | lib/ipmi_cfgp.c:76-93 | the list is empty afterwards |
| CfgpContext.Context.GetParam | lib/ipmi_cfgp.c:333-415 | the nested loops append exactly what the scan finds behind the old contents, with its result and number of calls, also when memory runs out |
| CfgpContext.Context.Get | lib/ipmi_cfgp.c:423-453 | the same for one parameter or the whole table |
| CfgpContext.Context.DoAction | lib/ipmi_cfgp.c:459-518 | handles every selected item not of the filtered access, in list order up to the first failure, and prints its line |
| BootMailbox.MailboxRoundTrip | lib/ipmi_chassis.c:1374-1482 | for every payload the size check accepts: exactly ceil((n + 3) / 16) blocks numbered 0, 1, ..., none above 255 and none empty, and reading them back gives the low 24 bits of the IANA number and the payload |
| BootMailbox.IanaRoundTrip | include/ipmitool/helper.h:167-184 | the 24-bit encoding keeps the number modulo 2^24, negative numbers included |
| BootMailbox.IanaBytes | include/ipmitool/helper.h:167-184 | the low byte comes first |
| BootMailbox.SingleBlockKeeps | lib/ipmi_chassis.c:1420-1482 | a single block carries the first 13 or 16 bytes; nothing is lost exactly when the payload fits |
| BootMailbox.SingleBlockReadsBackIff | lib/ipmi_chassis.c:610-639 | a fitting single block reads back if and only if its number is 0 or not a multiple of 256 |
| BootProtocol.EveryOpKeeps | lib/ipmi_chassis.c:1137-1494 | each operation against any device: an accepted set-in-progress is closed by set-complete in the same operation, commit is sent exactly when something was written and every write succeeded, and a refusal is remembered |
| BootProtocol.CourseKeeps | lib/ipmi_chassis.c:1137-1166 | any body and tail put between the progress requests keeps the protocol |
| BootProtocol.BootdevSendsIff | lib/ipmi_chassis.c:1223-1305 | the boot flags are sent if and only if the acknowledge got any response and the argument is known, so after a refused one too; and the result in each case |
| BootProtocol.BootvalidSendsIff | lib/ipmi_chassis.c:1189-1221 | the valid flags are sent if and only if the acknowledge was accepted and the old flags could be read; and the result in each case |
| BootCommands.FlagsAskFor | lib/ipmi_chassis.c:1223-1305 | read back as the boot parameters are, the flags for any known name select the device the help gives for it, unless the caller's flags select another; they are marked valid, and all other bits are the caller's |
| BootCommands.NamesKnown | lib/ipmi_chassis.c:1239-1290 | exactly the names of the help are known, all but "none" also with "force_" in front, each with the code of its device |
| BootCommands.FlagsSentFit | lib/ipmi_chassis.c:1223-1305 | against any device: any boot flags sent are such flags, and an unknown name sends none and gives a negative result |
| BootCommands.FlagsAreApplied | lib/ipmi_chassis.c:1211 | bit by bit: set if it is to be set, or was set and is not to be cleared |
| BootCommands.BootdevCommands | lib/ipmi_chassis.c:1137-1305 | the commands sent, in order, for every device: BIOS acknowledge, flags, and around them set-in-progress, commit and set-complete as far as set-in-progress is in use |
| BootCommands.BootvalidCommands | lib/ipmi_chassis.c:1137-1221 | the same for the valid flags |
| BootCommands.MailboxCommands | lib/ipmi_chassis.c:1331-1494 | the same for the mailbox: blocks up to the first failure, and the acknowledges of BIOS and OS loader only if there was none |
| BootCommands.MailboxPlanned | lib/ipmi_chassis.c:1331-1482 | what is written: a text with its terminator or all byte arguments, in one block of the given number, or in 256 blocks at most; nothing exactly for bad arguments |
| BootProtocol.WriteBlocksAdds | lib/ipmi_chassis.c:1421-1482 | block writes stop at the first failure, and succeed exactly when all of them did |
| BootProtocol.WholeMailboxReadsBack | lib/ipmi_chassis.c:1331-1494 | an accepted whole-mailbox write whose blocks all succeeded has sent exactly the planned blocks in order, and they read back as the IANA number and the payload |
| BootRuns.RunsAreSafe | lib/ipmi_chassis.c:1137-1494 | over every run of any operations: every accepted set-in-progress is closed, every commit was earned by successful writes, and after the first refusal no progress request is ever sent |
| BootRuns.FreshRunsAreSafe | lib/ipmi_chassis.c:1137-1494 | the same from the start of the program |
| BootSession.Chassis.SetInProgress | lib/ipmi_chassis.c:1137-1166 | the sticky flag and the request sent |
| BootSession.Chassis.SetValidFlags | lib/ipmi_chassis.c:1189-1221 | the code sends and returns exactly what the protocol model does |
| BootSession.Chassis.SetDevice | lib/ipmi_chassis.c:1223-1305 | the same for the boot device; the flags sent select the device named |
| BootSession.Chassis.FillBlock | lib/ipmi_chassis.c:1425-1472 | the request buffer of one block: selector, IANA number in block 0, data, and how much of it is sent |
| BootSession.Chassis.SetMailbox | lib/ipmi_chassis.c:1331-1494 | the same for the mailbox, rejected arguments included |
| CipherSuites.ParseChannelCipherSuiteData | lib/ipmi_channel.c:418-457 | the suites parsed up to the capacity or the first bad record, the remaining entries cleared |
| CipherSuites.ParseEncoded | lib/ipmi_channel.c:363-457 | parsing an encoded list gives its identifiers, IANA numbers and masked algorithms, cut only by the capacity |
| CipherSuites.RecordFields | lib/ipmi_channel.c:363-416 | which byte of a standard (C0h) and of an OEM (C1h) record becomes which field; any other first byte is an error |
| CipherSuites.SuiteFields | lib/ipmi_channel.c:363-416 | identifier, masked algorithms and IANA number of a suite are those of its record |
| CipherSuites.FetchHolds | lib/ipmi_channel.c:493-522 | from a device holding up to 64 chunks: exactly the bytes, in min(64, bytes / 16 + 1) requests |
| CipherSuites.FetchEnds | lib/ipmi_channel.c:493-522 | for every device: the requests ask for consecutive list indices; all replies but the last are accepted and full, and the fetch succeeds exactly when the last is accepted with at most 16 bytes |
| CipherSuites.CipherSuiteRoundTrip | lib/ipmi_channel.c:459-526 | the whole operation returns the list the device holds |
| CipherSuites.GetChannelCipherSuites | lib/ipmi_channel.c:459-526 | result, count, suites and number of requests for every device |
| RecordList.WalkOnRecords | lib/ipmi_ekanalyzer.c:4122-4182 | on an encoded list the walk keeps the records with data in file order up to the first one flagged last; without one it goes on behind the list |
| RecordList.WalkAcceptsLists | lib/ipmi_ekanalyzer.c:4122-4182 | for any bytes the walk succeeds if and only if they start with an encoded list whose last record, and no earlier one, has data and is flagged last |
| RecordList.FileAccepted | lib/ipmi_ekanalyzer.c:4084-4182 | a file is read successfully exactly when such a list stands at 8 times byte 5, which is not 0 |
| RecordList.FileRoundTrip | lib/ipmi_ekanalyzer.c:4122-4182 | when every record has data the list is the one that was encoded |
| RecordList.SizeWalkerAgrees | lib/ipmi_ekanalyzer.c:4122-4182 | the FRU size walk then ends behind the same last record |
| RecordList.List.FromFile | lib/ipmi_ekanalyzer.c:4084-4182 | the well-formed doubly linked list is extended by exactly the kept records, and the result is that of the walk |
| RecordList.List.AddRecord | lib/ipmi_ekanalyzer.c:4202-4222 | appends one node; head, last, next and prev stay consistent |
| RecordList.List.RemoveRecord | lib/ipmi_ekanalyzer.c:4242-4259 | removing any member leaves the same sequence without it, and head, last, next and prev stay consistent |
| RecordList.List.RemoveAll | lib/ipmi_ekanalyzer.c:519-526 | removing the head until there is none empties the list |

## Left out

- FruEditor.SetFieldStringRebuild: the old image is followed by six bytes of arbitrary memory, because the code may read that far behind its buffer; the old field is empty or 8-bit text without NUL and the new string has 1 to 63 characters, the cases in which the code's strlen and length bits are meaningful.
- FruRebuild.EditedFieldsDecode: the section's extent is its new length, not the length byte of the new image, which the code leaves stale.
- FruBlocs.BuildFruBloc: what reading a record header brings is an arbitrary function of the offset; FruBlocRecords takes it from a record list.
- FruRelocate.RelocateOk: an internal use area behind the edited one is not promised to arrive. The code moves it only when its block number exceeds the section's byte offset, and then a number of blocks taken as bytes (FruInternal.InternalMoved). What is moved of an internal use or a multirecord area must be readable and fit the new buffer, and shifted offsets must fit a byte. When the multirecord area arrives is FruRecords.MovedAreaKeptIff.
- FruRecords.RecordsKeptIff: the area's first record lies inside the FRU and apart from the info areas.
- FruEdit.SetFieldString: the device's address space is an array of at least 65536 bytes; a device answers writes it does not have room for with an error, as its script may. The common header is an input, as it is for the code.
- FruEdit.WriteBackOutcome: says nothing about a word device with a harmful odd bloc end, where FruWrite.EffectiveIffNeverShifts shows the effect is lost, nor about the other areas after a write-back whose size wrapped in its sixteen bits.
- FruWriteArea.WriteFruArea: the destination range ends below 65536, as every caller passes it.
- FruRead.ReadFruArea: a read behind the device's end needs a length of at least the device size, because the clearing of the buffer is only meaningful then.
- FruRead.SectionReader.ReadFruAreaSection: the same condition.
- Multirecord.GetAdjustSizeFromBuffer: the walk ends inside the buffer; the code has no bound of its own.
- CfgpContext.Context.GetParam: selectors are unbounded integers; the handler's answer depends on parameter, set and block only.
- CfgpText.IpmiCfgpParseSel: number texts other than plain decimals are a parameter.
- ipmi_fru_set_field_string: the branch for a string of unchanged length.
- Allocation failures (except in the parameter scan) and releasing memory.
- Names of blocs, all printed output, value tables and usage text.
- Transports, files and number parsing: devices, file contents and parsed arguments are inputs.
- Big-endian variants and the separators of the hex dump.
- ipmi_ek_compare_channel_descriptor and the other e-keying comparisons and displays: read-only decisions over two records.
- lib/ipmi_dcmi.c asset tags and lib/ipmi_delloem.c LCD text: easier forms of the mailbox splitting.
- lib/ipmi_gendev.c, lib/ipmi_firewall.c, lib/hpm2.c and lib/ipmi_event.c.
- Floating-point conversions.
