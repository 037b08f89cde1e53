# CloudSMETS in Dafny

CloudSMETS relays a smart meter's readings to the cloud. The meter speaks
ZigBee. A Telink TLSR8258 radio joins the meter's network and forwards ZCL
(ZigBee Cluster Library) messages over a serial line. The framing there is
ZBHCI (ZigBee host control interface): start byte, command id, length,
XOR checksum, payload, end byte. An ESP32 receives the frames, sets its
clock from the meter's time attribute, and passes the rest to an Azure IoT
hub over MQTT. In Azure a decoder turns each read-attributes response back
into a message. An Azure function tells the ESP32 which firmware revision
is the latest, and the ESP32's OTA task upgrades when that revision is
newer than its own.

This project models those parts and proves what they promise:

- `Zbhci`, `ZbhciProperties`, `ZbhciWire` and `ZbhciConstants` cover the
  Azure decoder of `zbhci.cs`. It is a pure parser over bytes that threads
  an explicit cursor and returns a closed set of errors. Also modelled:
  the checksum loop, the attribute loop and the sort by identifier. An
  independent serialiser with a proved decode round trip serves as the
  decoder's partner.
- `Versions`, `LatestRevision` and `Function1` cover the two Azure
  latest-revision functions, including the `SemVer` accumulator, its text
  form, `FromString` and the listing scan. `Ota` covers the ESP32 upgrade
  decision: the `sscanf` reading of a version, `determine_release`,
  `do_we_upgrade`, `start_ota` and the acceptance timer.
- `ZigbeeRx` covers the ESP32 receive path of `cs_zigbee.c`: the checksum,
  the resynchronising frame scanner over the receive buffer, compaction,
  the time attribute and the epoch conversion.
- `Mqtt`, `Flash`, `App` and `Wifi` cover the event handlers of the other
  ESP32 tasks. `Mqtt` includes the URL percent-encoding. The others are
  the LED status word, the clear-key timing and the station retry logic.
- `AppUi`, `Zcl`, `ZclTx` and `ZclHandlers` cover the Telink firmware:
  - the LED blinker;
  - the ZCL response serialisers, which are identical in the CloudSMETS and
    ESME builds and are cited here from the CloudSMETS file;
  - the identify and price handlers.

  `Zcl.ReadRspIsGatewayPayload` proves that a read response the Telink side
  emits is exactly a payload the Azure decoder round-trips.
- `Bytes`, `Decimal`, `Text` and `Wrappers` are shared helpers: byte
  widths, big-endian numbers, XOR, decimal text, `UInt32.Parse`, `IndexOf`,
  `Split`, and `Option`/`Result`.

Code that changes state in place is modelled as classes. Their methods
are proved against the specification functions. Examples are the firmware
buffers, the receive loop, the `SemVer` objects and the task statics.
Pure code is modelled as functions and lemmas. Where a defect in the code
stops it from doing what its comments or callers evidently intend, the
model keeps the code as written. Beside it is a corrected member, used by
the rest of the model. Both are listed under Findings. Nothing here was
executed.

The decoder sorts each response's attributes by identifier
(`azure/cloudsmets/MQTTReceiver/zbhci.cs:517-518`) with `List.Sort`, which
is not a stable sort, and the model follows that: `Zbhci.SortById` promises a permutation sorted by
identifier and nothing about the order of ties. The three version
comparisons (Azure, listing, ESP32) all rank a dev build below its release
and compare `devN` numerically; `Versions.AboveIsKeyOrder` states that
order as a lexicographic key.

## Model

| member | source | states |
|---|---|---|
| Zbhci.ReadBigEndian | azure/cloudsmets/MQTTReceiver/zbhci.cs:82-84 | a successful `BitConverter` read followed by `NetworkToHostOrder` yields a value below 256^width and moves the cursor by width |
| Zbhci.Crc8Calculate | azure/cloudsmets/MQTTReceiver/zbhci.cs:102-117 | the loop computes the XOR of both bytes of command id and payload length and of `payload[offset+1 .. offset+payloadLength]`, low 8 bits, or a truncation failure when the payload is short |
| Zbhci.Crc8Step | azure/cloudsmets/MQTTReceiver/zbhci.cs:111-114 | one loop iteration extends the XOR by exactly the next payload byte |
| Zbhci.Crc8Done | azure/cloudsmets/MQTTReceiver/zbhci.cs:111-116 | after the loop the accumulated XOR is the checksum of the whole payload |
| Zbhci.Crc8OfPayload | azure/cloudsmets/MQTTReceiver/zbhci.cs:102-117 | the checksum is taken over exactly the payload bytes after the CRC byte's index |
| Zbhci.ZbhciFrameHeader | azure/cloudsmets/MQTTReceiver/zbhci.cs:72-99 | the constructor's result is the functional frame-header parse: framing check, big-endian id and length, CRC check, cursor 6 |
| Zbhci.AttributesFrom | azure/cloudsmets/MQTTReceiver/zbhci.cs:510-515 | reading `count` records appends exactly `count` attributes to those read before, keeping them, and fails only by truncation, a non-success status or an unsupported type |
| Zbhci.CompareTo | azure/cloudsmets/MQTTReceiver/zbhci.cs:343-352 | zero iff the identifiers are equal, negative iff the first is smaller |
| Zbhci.InsertMultiset | azure/cloudsmets/MQTTReceiver/zbhci.cs:518 | one insertion step keeps the attributes, adding the one inserted |
| Zbhci.InsertSorted | azure/cloudsmets/MQTTReceiver/zbhci.cs:518 | inserting into a list sorted by identifier keeps it sorted |
| Zbhci.SortById | azure/cloudsmets/MQTTReceiver/zbhci.cs:518 | `List.Sort` with `CompareTo`: sorted ascending by identifier and a permutation of the input; nothing is promised about the order of equal identifiers |
| Zbhci.ReadAttributes | azure/cloudsmets/MQTTReceiver/zbhci.cs:510-515 | the loop of `GetAttribute` calls returns what the wire-order record parse returns |
| Zbhci.ZbhciMessage | azure/cloudsmets/MQTTReceiver/zbhci.cs:492-519 | fails exactly when the wire-order decode fails, with the same error; otherwise the same headers and the decoded attributes sorted by identifier, as a permutation |
| Zbhci.ValueAt | azure/cloudsmets/MQTTReceiver/zbhci.cs:228-337 | a value read fails only by truncation or with an unsupported-type error naming the tag |
| Zbhci.GetAttribute | azure/cloudsmets/MQTTReceiver/zbhci.cs:210-340 | a record fails only by truncation, a non-success status or an unsupported type |
| Zbhci.DecodeWire | azure/cloudsmets/MQTTReceiver/zbhci.cs:492-515 | a decoded message is a read-attributes response with fewer than 256 records; a refused command is not one |
| ZbhciProperties.CommandHeaderErrors | azure/cloudsmets/MQTTReceiver/zbhci.cs:145-160 | the command header fails only by truncation |
| ZbhciProperties.LaterErrors | azure/cloudsmets/MQTTReceiver/zbhci.cs:497-515 | once the frame header is accepted, no framing or CRC error can follow |
| ZbhciProperties.FramingIff | azure/cloudsmets/MQTTReceiver/zbhci.cs:75-78 | decoding fails with a framing error iff the first byte is not 0x55 or the last is not 0xAA, and the error carries both bytes |
| ZbhciProperties.ReadU16Field | azure/cloudsmets/MQTTReceiver/zbhci.cs:82-84 | a 16-bit field is the big-endian value of its two bytes |
| ZbhciProperties.Crc8Field | azure/cloudsmets/MQTTReceiver/zbhci.cs:93 | the CRC is computed over `frame[6 .. 5+payloadLength]` |
| ZbhciProperties.FrameHeaderIff | azure/cloudsmets/MQTTReceiver/zbhci.cs:72-99 | the frame header is accepted iff the markers and the CRC agree (and the payload is present); then it holds the big-endian id and length, the CRC byte, and the cursor is 6 |
| ZbhciProperties.CrcMismatchReported | azure/cloudsmets/MQTTReceiver/zbhci.cs:94-97 | a wrong CRC byte fails with the expected and the received value |
| ZbhciProperties.Crc8OfUpdate | azure/cloudsmets/MQTTReceiver/zbhci.cs:111-114 | changing one payload byte changes the checksum |
| ZbhciProperties.CrcDetectsOneByteChange | azure/cloudsmets/MQTTReceiver/zbhci.cs:92-97 | a frame with one payload byte altered is refused with a CRC mismatch |
| ZbhciProperties.BytesAfterPayloadIgnored | azure/cloudsmets/MQTTReceiver/zbhci.cs:86-98 | the frame header ignores any bytes between the payload and the end marker |
| ZbhciProperties.FrameHeaderVectors | azure/cloudsmets/testmqttreceiver/zbhciTests.cs:42-66 | the tests' framing failures, and CRC 0x03 expected for command 0x0102 with an empty payload |
| ZbhciProperties.CommandHeaderIff | azure/cloudsmets/MQTTReceiver/zbhci.cs:145-160 | the command header is read iff 7 bytes remain: big-endian source address, three single bytes, big-endian cluster id, cursor plus 7 |
| ZbhciProperties.NotAttributesIff | azure/cloudsmets/MQTTReceiver/zbhci.cs:497-506 | a command other than 0x8100 is refused, naming it, exactly when both headers were read |
| ZbhciProperties.AttributeCount | azure/cloudsmets/MQTTReceiver/zbhci.cs:510-515 | a decoded message holds exactly `frame[13]` attributes, the records read in wire order from byte 14 |
| ZbhciProperties.StatusBeforeDataType | azure/cloudsmets/MQTTReceiver/zbhci.cs:218-225 | a non-success status fails, naming status and identifier, with only three bytes present |
| ZbhciProperties.FailedRecordAborts | azure/cloudsmets/MQTTReceiver/zbhci.cs:512-515 | a failing record aborts the whole decode with its error |
| ZbhciProperties.UnsupportedIff | azure/cloudsmets/MQTTReceiver/zbhci.cs:336-337 | a value read fails as unsupported iff the tag is none of the dispatched ones |
| ZbhciProperties.RejectedTags | azure/cloudsmets/MQTTReceiver/zbhci.cs:245-337 | 8-bit integers, booleans, the 24/40/56-bit tags, collections, time of day and the key are rejected |
| ZbhciProperties.SupportedTags | azure/cloudsmets/MQTTReceiver/zbhciConstants.cs:83-141 | each accepted tag value belongs to exactly the case group it is listed in |
| ZbhciProperties.IntegerValues | azure/cloudsmets/MQTTReceiver/zbhci.cs:359-441 | ENUM8, the 16-bit and the 32-bit families are the big-endian reading of 1, 2 and 4 bytes, the cursor moving past them, or a truncation |
| ZbhciProperties.Uint48Values | azure/cloudsmets/MQTTReceiver/zbhci.cs:379-391 | as written the 48-bit read needs 8 bytes; corrected 6; where both succeed they agree on `(hi32 << 16) + lo16`, the big-endian value of the 6 bytes |
| ZbhciProperties.Uint64Values | azure/cloudsmets/MQTTReceiver/zbhci.cs:454-458 | the 64-bit value is the big-endian reading of 8 bytes; as written the cursor does not move, corrected it moves by 8 |
| ZbhciProperties.StringValues | azure/cloudsmets/MQTTReceiver/zbhci.cs:230-243 | a long string has a 2-byte big-endian length and a short one a 1-byte length, then exactly that many bytes; anything short is a truncation |
| ZbhciProperties.SingleRecordFrame | azure/cloudsmets/MQTTReceiver/zbhci.cs:492-515 | the 25-byte frame of one 48-bit record passes both headers, has count 1 and the record at byte 14 |
| ZbhciProperties.Uint48RecordTruncated | azure/cloudsmets/MQTTReceiver/zbhci.cs:384-389 | as written, a 48-bit record followed by a single byte fails as truncated |
| ZbhciProperties.Uint48LastRecordFinding | azure/cloudsmets/MQTTReceiver/zbhci.cs:387 | as written, a frame whose last record is 48-bit fails to decode; corrected it decodes to that record |
| ZbhciProperties.BigEndianPair | azure/cloudsmets/MQTTReceiver/zbhci.cs:82-84 | two bytes read big-endian are `hi * 256 + lo` |
| ZbhciProperties.Uint64CursorFinding | azure/cloudsmets/MQTTReceiver/zbhci.cs:454-458 | as written, a 64-bit record followed by an ENUM8 record re-reads the 64-bit value as a record and fails with tag 0x00; corrected both records are read |
| ZbhciProperties.PairFirst | azure/cloudsmets/MQTTReceiver/zbhci.cs:454-458 | the first record of that frame: cursor 4 as written, 12 corrected |
| ZbhciProperties.PairSecond | azure/cloudsmets/MQTTReceiver/zbhci.cs:454-458 | the second read: unsupported tag 0x00 as written, the ENUM8 record corrected |
| ZbhciProperties.ZeroUint64Record | azure/cloudsmets/MQTTReceiver/zbhci.cs:454-458 | a UINT64 record with success status is read as the same record by both decoders, the cursor left after its header as written and after its value corrected |
| ZbhciProperties.SecondRecordReads | azure/cloudsmets/MQTTReceiver/zbhci.cs:210-340 | a record whose data-type byte is 0x00 is refused as unsupported; one tagged ENUM8 yields its single value byte |
| ZbhciWire.ValueImage | azure/cloudsmets/MQTTReceiver/zbhci.cs:228-337 | the encoding of each value is decoded back to it, the cursor moving by its length (not at all for 64-bit as written) |
| ZbhciWire.Uint48At | azure/cloudsmets/MQTTReceiver/zbhci.cs:379-391 | the 6-byte encoding of a 48-bit value is read back, given two further bytes as written |
| ZbhciWire.LongStringAt | azure/cloudsmets/MQTTReceiver/zbhci.cs:230-237 | a 2-byte length and the bytes are read back as that string |
| ZbhciWire.ShortStringAt | azure/cloudsmets/MQTTReceiver/zbhci.cs:239-243 | a 1-byte length and the bytes are read back as that string |
| ZbhciWire.AttributeLayout | azure/cloudsmets/MQTTReceiver/zbhciConstants.cs:67-80 | a record's image holds identifier (big-endian), status and data type at offsets 0, 2 and 3 and the value from offset 4 |
| ZbhciWire.GetAttributeImage | azure/cloudsmets/MQTTReceiver/zbhci.cs:210-340 | `GetAttribute` reads the image of a record back to it, the cursor advancing by the record's length (less 8 for a 64-bit value as written) |
| ZbhciWire.ValueAtCanonical | azure/cloudsmets/MQTTReceiver/zbhci.cs:228-337 | corrected, a value read is exactly the encoding of what it yields |
| ZbhciWire.GetAttributeCanonical | azure/cloudsmets/MQTTReceiver/zbhci.cs:210-340 | corrected, the bytes a record read consumes are exactly the encoding of the record it yields |
| ZbhciWire.AttributesImage | azure/cloudsmets/MQTTReceiver/zbhci.cs:510-515 | the concatenated records are read back as the list of records, in order (as written, under the same 64-bit and 48-bit provisos) |
| ZbhciWire.FrameLayout | azure/cloudsmets/MQTTReceiver/zbhciConstants.cs:40-46 | a frame is start marker, big-endian id, big-endian length, CRC, payload, end marker: 7 bytes more than its payload |
| ZbhciWire.FrameHeaderRoundTrip | azure/cloudsmets/MQTTReceiver/zbhci.cs:72-99 | the frame header of a built frame is read back with its id, length and CRC, cursor 6 |
| ZbhciWire.CommandHeaderImage | azure/cloudsmets/MQTTReceiver/zbhci.cs:145-160 | the 7-byte encoding of a command header is read back to it |
| ZbhciWire.ReadRspLayout | azure/cloudsmets/MQTTReceiver/zbhci.cs:492-515 | a read-attributes-response frame holds the command header at 6, the count at 13 and the records from 14 up to the end marker |
| ZbhciWire.DecodeImage | azure/cloudsmets/MQTTReceiver/zbhci.cs:492-515 | a frame laid out that way decodes to its headers and records |
| ZbhciWire.DecodeRoundTrip | azure/cloudsmets/MQTTReceiver/zbhci.cs:492-515 | decoding the frame built from a command header and success records gives them back in wire order: always corrected, and as written when no 64-bit record precedes another and the last record is not 48-bit |
| Bytes.BigEndianOfToBigEndian | azure/cloudsmets/MQTTReceiver/zbhci.cs:82-84 | reading back the n-byte network-order image of a value below 256^n gives the value |
| Bytes.ToBigEndianOfBigEndian | azure/cloudsmets/MQTTReceiver/zbhci.cs:82-84 | the n-byte image of the value read from n bytes is those bytes |
| Bytes.BigEndianAppend | azure/cloudsmets/MQTTReceiver/zbhci.cs:384-390 | a network-order read of two concatenated pieces is the first shifted by the second's width plus the second |
| Bytes.XorAllAppend | azure/cloudsmets/MQTTReceiver/zbhci.cs:111-114 | the XOR of concatenated bytes is the XOR of the two parts' XORs |
| Decimal.ParseUInt32 | azure/latestRev/LastestRevision/Function1.cs:59-61 | `UInt32.Parse` succeeds only with a value below 2^32 |
| Decimal.ParseUInt32Digits | azure/latestRev/LastestRevision/Function1.cs:59-61 | a non-empty run of digits parses to its value exactly when that value fits in 32 bits |
| Decimal.ParseUInt32OfToDecimal | azure/latestRev/LastestRevision/Function1.cs:97-110 | a 32-bit value printed in decimal parses back to itself |
| Text.IndexOf | azure/latestRev/LastestRevision/Function1.cs:36 | `IndexOf` returns the first position where the pattern occurs, or -1 exactly when it occurs nowhere |
| Text.Split | azure/latestRev/LastestRevision/Function1.cs:53 | `Split` yields at least one part, and no part contains the separator |
| Text.SplitJoin | azure/latestRev/LastestRevision/Function1.cs:53 | joining the parts with the separator gives back the string |
| Text.SplitOfJoin | azure/latestRev/LastestRevision/Function1.cs:53 | splitting a join of separator-free parts gives back the parts |
| Versions.AboveIsKeyOrder | azure/cloudsmets/CloudSMETS/LatestRevision.cs:50-63 | "strictly newer" is the lexicographic order on (major, minor, revision, release-above-dev, dev), the precedence of section 11 of Semantic Versioning 2.0.0 with dev numbers compared numerically |
| Versions.AboveIrreflexive | azure/cloudsmets/CloudSMETS/LatestRevision.cs:50-63 | no version is newer than itself |
| Versions.AboveTransitive | azure/cloudsmets/CloudSMETS/LatestRevision.cs:50-63 | "newer" is transitive |
| Versions.AboveTotal | azure/cloudsmets/CloudSMETS/LatestRevision.cs:50-63 | of two different versions one is newer |
| Versions.AtLeastTransitive | azure/cloudsmets/CloudSMETS/LatestRevision.cs:50-63 | "no older than" is transitive |
| Versions.BaseHasNoDash | azure/cloudsmets/CloudSMETS/LatestRevision.cs:82 | the text of a triple holds no `-` |
| Versions.RenderDevMarker | azure/cloudsmets/CloudSMETS/LatestRevision.cs:75-88 | `-dev` first occurs in the text of a version nowhere for a release and right after the triple for a dev build |
| Versions.RenderMarksDev | azure/cloudsmets/CloudSMETS/LatestRevision.cs:75-88 | the text contains `-dev` exactly when the version is a dev build |
| LatestRevision.MatchRevisionSound | azure/cloudsmets/CloudSMETS/LatestRevision.cs:94 | a third field the pattern accepts is a digit run, optionally followed by `-dev` and a number without a leading zero, and is exactly their concatenation |
| LatestRevision.MatchRevisionComplete | azure/cloudsmets/CloudSMETS/LatestRevision.cs:94 | every such field is accepted, with those groups |
| LatestRevision.MatchBodySound | azure/cloudsmets/CloudSMETS/LatestRevision.cs:94 | a body the pattern accepts is three valid groups joined by dots |
| LatestRevision.MatchSound | azure/cloudsmets/CloudSMETS/LatestRevision.cs:171-172 | a matched prefix is the assembled groups followed by `/` (or by `/` and the newline `$` allows) |
| LatestRevision.MatchBodyComplete | azure/cloudsmets/CloudSMETS/LatestRevision.cs:94 | every valid set of groups is matched back to itself |
| LatestRevision.MatchComplete | azure/cloudsmets/CloudSMETS/LatestRevision.cs:171-172 | every valid set of groups followed by `/` is matched, with those groups |
| LatestRevision.ReadPrefix | azure/cloudsmets/CloudSMETS/LatestRevision.cs:171-179 | an accepted prefix yields a candidate of four 32-bit numbers |
| LatestRevision.ParseGroups | azure/cloudsmets/CloudSMETS/LatestRevision.cs:174-177 | the four `UInt32.Parse` calls, a missing dev group as 0; an accepted candidate fits 32 bits |
| LatestRevision.Readings | azure/cloudsmets/CloudSMETS/LatestRevision.cs:169-180 | one reading per listed prefix |
| LatestRevision.ReadingsAt | azure/cloudsmets/CloudSMETS/LatestRevision.cs:169-180 | the reading of the i-th prefix is that prefix read alone, in listing order |
| LatestRevision.ReadMatched | azure/cloudsmets/CloudSMETS/LatestRevision.cs:171-178 | a matched prefix is read through its groups |
| LatestRevision.AssembleGroupsOf | azure/cloudsmets/CloudSMETS/LatestRevision.cs:75-88 | the text `ToString` gives a version is made of valid groups |
| LatestRevision.ParseGroupsOf | azure/cloudsmets/CloudSMETS/LatestRevision.cs:174-177 | the groups of a version's text parse back to that version |
| LatestRevision.RenderIsRead | azure/cloudsmets/CloudSMETS/LatestRevision.cs:171-178 | a prefix that is `ToString()` of a version plus `/` is read as that version |
| LatestRevision.SemVer.constructor | azure/cloudsmets/CloudSMETS/LatestRevision.cs:40-46 | the four fields are the arguments, 0 by default, so a fresh accumulator is 0.0.0 |
| LatestRevision.SemVer.Latest | azure/cloudsmets/CloudSMETS/LatestRevision.cs:48-73 | the four fields are overwritten exactly when the nested condition holds, else unchanged |
| LatestRevision.AdoptsWithDev | azure/cloudsmets/CloudSMETS/LatestRevision.cs:54-63 | with `allowDev`, a candidate is adopted iff it is strictly newer, or is the same release |
| LatestRevision.AdoptsWithoutDev | azure/cloudsmets/CloudSMETS/LatestRevision.cs:54-63 | without `allowDev`, a candidate is adopted iff its triple is greater (dev build or not) or its triple is equal and it is a release |
| LatestRevision.LatestIsMonotone | azure/cloudsmets/CloudSMETS/LatestRevision.cs:54-72 | the stored version never decreases; with `allowDev` it ends no older than the candidate |
| LatestRevision.SelectThrows | azure/cloudsmets/CloudSMETS/LatestRevision.cs:165-188 | once a parse has thrown, the request fails whatever follows |
| LatestRevision.ReadOne | azure/cloudsmets/CloudSMETS/LatestRevision.cs:171-178 | the reading of one prefix, a 32-bit candidate when accepted |
| LatestRevision.SelectLatest | azure/cloudsmets/CloudSMETS/LatestRevision.cs:113-191 | the response is the text of the fold of `Latest` over the prefixes' readings, in listing order, or failure when a parse throws |
| LatestRevision.SelectFailsIff | azure/cloudsmets/CloudSMETS/LatestRevision.cs:182-188 | the request fails iff some prefix matched but did not parse |
| LatestRevision.ApplyStep | azure/cloudsmets/CloudSMETS/LatestRevision.cs:54-72 | corrected, one competing candidate leaves the stored version no older than either |
| LatestRevision.SelectCorrectedIsNewest | azure/cloudsmets/CloudSMETS/LatestRevision.cs:113-191 | corrected, the answer is no older than any competing candidate nor than 0.0.0, and is a release without `allowDev` |
| LatestRevision.SelectWithDevIsNewest | azure/cloudsmets/CloudSMETS/LatestRevision.cs:113-191 | with `allowDev` the code as written already gives the newest candidate |
| LatestRevision.SameWithDev | azure/cloudsmets/CloudSMETS/LatestRevision.cs:54-63 | with `allowDev` the corrected and as-written selections agree |
| LatestRevision.ReadingsOfOne | azure/cloudsmets/CloudSMETS/LatestRevision.cs:169-180 | a one-prefix listing has one reading |
| LatestRevision.SelectOne | azure/cloudsmets/CloudSMETS/LatestRevision.cs:115-180 | a one-candidate listing answers with that candidate applied to 0.0.0 |
| LatestRevision.DevAnsweredWithoutAllowDev | azure/cloudsmets/CloudSMETS/LatestRevision.cs:54-63 | as written, a request without `dev` over the single prefix of a dev build above 0.0.0 is answered with that dev build; corrected, with 0.0.0 |
| LatestRevision.DevExample | azure/cloudsmets/CloudSMETS/LatestRevision.cs:75-88 | the text of 1.0.0 dev 1 is `1.0.0-dev1`, the listing of the finding |
| LatestRevision.Adopts | azure/cloudsmets/CloudSMETS/LatestRevision.cs:54-63 | a candidate with a lower triple is never adopted; an equal version is adopted exactly when it is a release |
| LatestRevision.Apply | azure/cloudsmets/CloudSMETS/LatestRevision.cs:54-72 | the stored version after one candidate is either the stored one or the candidate; corrected, a dev build is ignored unless dev builds are allowed |
| LatestRevision.Select | azure/cloudsmets/CloudSMETS/LatestRevision.cs:113-191 | a response other than 0.0.0 is the version of one of the listed prefixes |
| Function1.ParseTriple | azure/latestRev/LastestRevision/Function1.cs:53-62 | a successful split-and-parse of the base keeps the dev number found before it |
| Function1.FromString | azure/latestRev/LastestRevision/Function1.cs:34-63 | as written, from-end slices included; without `allowDev` a result is never a dev build and the text held no `-dev` |
| Function1.FromStringCorrected | azure/latestRev/LastestRevision/Function1.cs:48-50 | the intended slices; the same `allowDev` gate as `FromString` |
| Function1.SplitBase | azure/latestRev/LastestRevision/Function1.cs:53 | the triple's text splits on `.` into exactly its three numerals |
| Function1.ParseTripleOfParts | azure/latestRev/LastestRevision/Function1.cs:53-62 | three parts that each parse as `UInt32` give that version |
| Function1.ParseTripleOfBase | azure/latestRev/LastestRevision/Function1.cs:53-62 | the text of any triple of 32-bit numbers is parsed back to that triple |
| Function1.FromStringRelease | azure/latestRev/LastestRevision/Function1.cs:34-63 | as written, `FromString(ToString(v))` is `v` for every release `v`, whatever `allowDev` is |
| Function1.FromStringCorrectedRoundTrip | azure/latestRev/LastestRevision/Function1.cs:34-63 | corrected, `FromString(ToString(v))` is `v` when `allowDev` holds or `v` is a release, and null otherwise |
| Function1.FromStringReadsWrongDev | azure/latestRev/LastestRevision/Function1.cs:48-50 | as written, `1.2.3-dev4` is read as `1.2.3-dev1`; corrected, as itself |
| Function1.ParseTripleOfTwoDots | azure/latestRev/LastestRevision/Function1.cs:53-61 | a base ending in a dot has an empty third part and `UInt32.Parse` fails |
| Function1.FromStringThrowsOnDev | azure/latestRev/LastestRevision/Function1.cs:48-61 | as written, `10.2.3-dev4` makes `FromString` throw; corrected, it is read as itself |
| Function1.SemVer.constructor | azure/latestRev/LastestRevision/Function1.cs:26-32 | the four fields are the arguments, 0 by default |
| Function1.SemVer.Latest | azure/latestRev/LastestRevision/Function1.cs:66-95 | null changes nothing; otherwise the candidate is adopted exactly under the nested condition (greater triple, or equal triple and a release candidate, or both dev with a greater dev number) |
| Function1.SemVer.ToString | azure/latestRev/LastestRevision/Function1.cs:97-110 | `M.m.r` for dev 0, `M.m.r-devD` otherwise |
| Function1.KeepIsNewest | azure/latestRev/LastestRevision/Function1.cs:66-95 | the stored version never goes back, ends no older than a non-null candidate, and is one of the two |
| Function1.Read | azure/latestRev/LastestRevision/Function1.cs:161 | a name read without `allowDev` never yields a dev build |
| Function1.Reads | azure/latestRev/LastestRevision/Function1.cs:147-169 | one reading per listed name, in listing order |
| Function1.ScanFails | azure/latestRev/LastestRevision/Function1.cs:147-169 | once a `FromString` has thrown, `Run` fails whatever follows |
| Function1.Run | azure/latestRev/LastestRevision/Function1.cs:134-172 | the response is the text of the fold of `Latest` over the names read, or failure when a `FromString` throws |
| Function1.ScanIsNewest | azure/latestRev/LastestRevision/Function1.cs:147-171 | the response is no older than any version that was read |
| Function1.ScanRelease | azure/latestRev/LastestRevision/Function1.cs:147-171 | when every reading is a release or null, the response is a release |
| Function1.ReleaseWithoutAllowDev | azure/latestRev/LastestRevision/Function1.cs:42-47 | a request without `dev` is answered with a release |
| Function1.ScanCorrectedIsNewest | azure/latestRev/LastestRevision/Function1.cs:147-171 | corrected, the response is no older than any listed version text that is wanted |
| Function1.Keep | azure/latestRev/LastestRevision/Function1.cs:66-95 | the stored version after `Latest` is the old one or the candidate |
| Function1.Scan | azure/latestRev/LastestRevision/Function1.cs:147-169 | a response other than 0.0.0 is the version read from one of the listed names |
| Ota.ConvertU16 | esp32/cloudsmets/main/cs_ota.c:36 | a `%hu` conversion consumes at least one character |
| Ota.ScanFrom | esp32/cloudsmets/main/cs_ota.c:90-96 | `sscanf`'s count is -1 with nothing stored, or the number of values stored, at most one per conversion of the format |
| Ota.ScanSemVer | esp32/cloudsmets/main/cs_ota.c:36 | `sscanf` with `%hu.%hu.%hu-dev%hu` returns -1 or the number of fields stored, at most 4 |
| Ota.ConvertNumeral | esp32/cloudsmets/main/cs_ota.c:36 | `%hu` reads a numeral back as its value modulo 2^16, stopping at the first non-digit |
| Ota.ScanLiteral | esp32/cloudsmets/main/cs_ota.c:36 | a literal of the format consumes the same text |
| Ota.ScanNumeral | esp32/cloudsmets/main/cs_ota.c:36 | a `%hu` of the format consumes a numeral and stores its value |
| Ota.ScanAtEnd | esp32/cloudsmets/main/cs_ota.c:36 | input running out after a conversion ends the scan with the values stored so far |
| Ota.ScanRevisionAtEnd | esp32/cloudsmets/main/cs_ota.c:97-100 | a text ending after the third numeral scans 3 fields |
| Ota.ScanRevisionDev | esp32/cloudsmets/main/cs_ota.c:90-96 | a text with a `-devN` tail scans 4 fields |
| Ota.ScanDevTail | esp32/cloudsmets/main/cs_ota.c:36 | `-dev` then a numeral stores one more field |
| Ota.ScanRender | esp32/cloudsmets/main/cs_ota.c:90-100 | the text of a version scans 3 fields for a release and 4 for a dev build, each modulo 2^16 |
| Ota.OtaVersion.constructor | esp32/cloudsmets/main/cs_ota.c:369 | `latest_version = {0}`: four zero fields |
| Ota.OtaVersion.Store | esp32/cloudsmets/main/cs_ota.c:90-96 | `sscanf` overwrites the first fields it converted and leaves the rest |
| Ota.OtaVersion.Scan | esp32/cloudsmets/main/cs_ota.c:90-96 | the count returned and the fields stored are `sscanf`'s |
| Ota.OtaVersion.Read | esp32/cloudsmets/main/cs_ota.c:90-100 | `sscanf` followed by `dev = 0` when 3 fields were read |
| Ota.Overwrite | esp32/cloudsmets/main/cs_ota.c:90-96 | four fields whose prefix is the values stored and whose rest is unchanged |
| Ota.ScannedVersion | esp32/cloudsmets/main/cs_ota.c:296-312 | a version is read iff `sscanf` returns 3 or 4, its fields below 2^16 |
| Ota.AfterReadValid | esp32/cloudsmets/main/cs_ota.c:97-100 | a valid read leaves in the fields exactly the version read, dev 0 when absent |
| Ota.ScannedOf | esp32/cloudsmets/main/cs_ota.c:296-307 | a scan of 3 or 4 fields gives that version |
| Ota.ReadRender | esp32/cloudsmets/main/cs_ota.c:296-307 | the text of a version with 16-bit fields is read back as that version |
| Ota.OnData | esp32/cloudsmets/main/cs_ota.c:86-106 | the data handler fails iff the body does not scan 3 or 4 fields, and stores what `sscanf` stored, dev cleared after 3 |
| Ota.UpgradesIffAbove | esp32/cloudsmets/main/cs_ota.c:324-332 | the upgrade condition holds iff the candidate is strictly newer, i.e. above in the Semantic Versioning precedence key |
| Ota.NoUpgradeToSame | esp32/cloudsmets/main/cs_ota.c:324-332 | no upgrade to the version running |
| Ota.NoUpgradeFromReleaseAtSameTriple | esp32/cloudsmets/main/cs_ota.c:329-332 | no upgrade at an equal triple when a release is running |
| Ota.DoWeUpgrade | esp32/cloudsmets/main/cs_ota.c:282-349 | as written, `success` is the uninitialised value when the running version is read and false otherwise; `upgrade` is success and strictly newer |
| Ota.DoWeUpgradeCorrected | esp32/cloudsmets/main/cs_ota.c:282-349 | `success` initialised: success iff the running version is read; upgrade iff also strictly newer |
| Ota.Fetched | esp32/cloudsmets/main/cs_ota.c:164-217 | the fields after the configured release is scanned and then the body overwrites them |
| Ota.DetermineRelease | esp32/cloudsmets/main/cs_ota.c:151-223 | as written, the result is the HTTP status alone (the `&&` test never fires), the request always goes out, with query `dev` iff allowed |
| Ota.ConfiguredReleaseOverridden | esp32/cloudsmets/main/cs_ota.c:164-217 | as written, a valid body overrides the configured release |
| Ota.DetermineReleaseCorrected | esp32/cloudsmets/main/cs_ota.c:163-186 | with a logical or in the test, a configured release is used alone and must be valid; otherwise the fetched one |
| Ota.Release | esp32/cloudsmets/main/cs_ota.c:163-217 | the configured release when one is set, else present iff the HTTP exchange succeeded |
| Ota.RetryDelays | esp32/cloudsmets/main/cs_ota.c:398-410 | 86,400,000,000 µs after success, 3,600,000,000 µs after failure |
| Ota.AsWrittenReflashes | esp32/cloudsmets/main/cs_ota.c:383-392 | as written, a round calls `upgrade_to(v)` with v the fetched version, and restarts once that succeeds, even when v is the version running |
| Ota.AsWrittenNeverWaitsADay | esp32/cloudsmets/main/cs_ota.c:398-410 | as written, the 24-hour retry is never armed |
| Ota.CorrectedOutcomeProperties | esp32/cloudsmets/main/cs_ota.c:364-411 | corrected, a round is disabled iff OTA is off, restarts only after `upgrade_to(v)` succeeds with v strictly newer than the version running, and waits a day iff both versions were read and nothing newer found |
| Ota.OtaTask.constructor | esp32/cloudsmets/main/cs_ota.c:553 | no retry armed |
| Ota.OtaTask.StartOta | esp32/cloudsmets/main/cs_ota.c:364-411 | as written: disabled returns with the timer stopped; otherwise restart or the retry timer armed with the outcome's delay |
| Ota.OtaTask.StartOtaCorrected | esp32/cloudsmets/main/cs_ota.c:364-411 | the corrected round, with the same timer discipline |
| Ota.AcceptanceDelay | esp32/cloudsmets/main/cs_ota.c:562-564 | minutes × 60 × 1000 × 1000 µs |
| Ota.AcceptanceTimer | esp32/cloudsmets/main/cs_ota.c:555-566 | as written, armed iff not the factory image and the image is already VALID, with that delay |
| Ota.PendingImageNeverAccepted | esp32/cloudsmets/main/cs_ota.c:560 | as written, a PENDING_VERIFY image never gets the timer that would accept it |
| Ota.AcceptanceTimerCorrected | esp32/cloudsmets/main/cs_ota.c:555-566 | corrected, armed iff not factory and PENDING_VERIFY |
| Ota.Upgrades | esp32/cloudsmets/main/cs_ota.c:324-332 | an upgrade is never to the same version and never to a lower major version |
| Ota.AsWrittenOutcome | esp32/cloudsmets/main/cs_ota.c:364-411 | as written: disabled exactly when OTA is off; a restart only after `upgrade_to(v)` succeeds, with v the fetched version; the 24-hour retry never happens |
| Ota.CorrectedOutcome | esp32/cloudsmets/main/cs_ota.c:364-411 | corrected: disabled exactly when OTA is off; a restart only after `upgrade_to(v)` succeeds, with v a version strictly newer than the one running |
| ZigbeeRx.ZigbeeEpochIsJanuary2000 | esp32/cloudsmets/main/cs_zigbee.c:151 | the offset 946684800 is exactly the seconds from 1 January 1970 to 1 January 2000 (30 years, 7 of them leap) |
| ZigbeeRx.HighByteCancels | esp32/cloudsmets/main/cs_zigbee.c:63-72 | XORing the command id's high byte twice cancels it: the as-written checksum is the XOR of the low byte only, the length bytes and the data |
| ZigbeeRx.Crc8Calculate | esp32/cloudsmets/main/cs_zigbee.c:59-75 | the function returns true exactly when the as-written XOR is non-zero; it reports a bool, never the checksum |
| ZigbeeRx.Crc8CalculateCorrected | esp32/cloudsmets/main/cs_zigbee.c:59-75 | with each byte of the command id XORed once and the checksum returned, the loop yields the ZBHCI checksum of command id, length and the first length bytes |
| ZigbeeRx.GoodChecksumRejected | esp32/cloudsmets/main/cs_zigbee.c:230-235 | a frame whose checksum byte is correct and above 1 fails the as-written comparison against the bool |
| ZigbeeRx.CombineAsWritten | esp32/cloudsmets/main/cs_zigbee.c:227 | `(hi << 8) & lo` is always 0, whatever the bytes |
| ZigbeeRx.CombineSplits | esp32/cloudsmets/main/cs_zigbee.c:268 | combining with `+` and splitting into high and low bytes gives back both bytes |
| ZigbeeRx.SplitCombines | esp32/cloudsmets/main/cs_zigbee.c:268 | splitting a 16-bit value into bytes and combining them gives back the value |
| ZigbeeRx.UnixTime | esp32/cloudsmets/main/cs_zigbee.c:151-152 | the Unix time is the ZigBee time plus the 2000 epoch, wrapped modulo 2^32 as the `uint32_t` sum wraps |
| ZigbeeRx.ReadAttrRsp | esp32/cloudsmets/main/cs_zigbee.c:89-166 | over the bytes the `_zbhci_attr_t` overlay covers, the clock is set or adjusted only for a count of 1 with status SUCCESS and type UTC, and it is set (not adjusted) exactly when it was not set before |
| ZigbeeRx.AsWrittenDispatchesNothing | esp32/cloudsmets/main/cs_zigbee.c:216-239 | with the `&` combine the command id is 0, so no frame reaches the attribute handler: a frame reads past the bytes received exactly when its payload is longer than they are, and otherwise it is ignored as command 0 if the as-written checksum test passes and refused as a mismatch if not |
| ZigbeeRx.CorrectedTimePath | esp32/cloudsmets/main/cs_zigbee.c:116-166 | with the ids combined by `+` and the overlay placed after the 7-byte command header, a frame sets or adjusts the clock exactly when its checksum holds, it is a read-attribute response, its record lies within the bytes received, the count at byte 13 is 1, the identifier is the standard-time attribute, the status SUCCESS and the type UTC; the time set is the big-endian value of bytes 18 to 21 plus the 2000 epoch |
| ZigbeeRx.CorrectedForwards | esp32/cloudsmets/main/cs_zigbee.c:124-129 | a checked read-attribute response whose count after the command header is not 1, or whose attribute id is another, is forwarded with its payload length |
| ZigbeeRx.CorrectedReadsPastData | esp32/cloudsmets/main/cs_zigbee.c:191-193 | corrected, a frame reads past the bytes received exactly when its payload is longer than they are, or when it is a checked read-attribute response shorter than the 22 bytes its record needs; the length test for the record is made only on that branch |
| ZigbeeRx.FrameAction | esp32/cloudsmets/main/cs_zigbee.c:179-239 | a payload longer than the bytes received reads past them; a forwarded frame carries its payload length; an ignored command is not a read-attributes response; any other outcome had the whole payload and the attribute overlay inside the bytes received |
| ZigbeeTimeResponse.TimePayloadBytes | tlsr8258/build/tlsr_tc32/apps/cloudsmets/zcl_cloudsmetsCb.c:154-181 | the Telink read response to the standard-time attribute is the source address (high, low), both endpoints, the sequence number, the cluster (high, low), the count 1, the identifier (high, low), SUCCESS, UTC and the stored value byte-reversed |
| ZigbeeTimeResponse.FrameFields | tlsr8258/build/tlsr_tc32/apps/cloudsmets/zcl_cloudsmetsCb.c:183 | the frame `zbhciTx` sends holds the command id in bytes 1 and 2, the checksum of the payload in byte 5 and the payload from byte 6 |
| ZigbeeTimeResponse.TimeResponseLayout | tlsr8258/build/tlsr_tc32/apps/cloudsmets/zcl_cloudsmetsCb.c:154-183 | in the framed time response, the command header lies at bytes 6 to 12 and the record (count at 13, identifier at 14, status 16, type 17, value 18 to 21) after it |
| ZigbeeTimeResponse.ProducerTimeSetsClock | esp32/cloudsmets/main/cs_zigbee.c:116-166 | corrected, the receiver sets the clock from the Telink time response to the ZigBee time it carries plus the epoch the first time, and adjusts it by the difference from `now` afterwards |
| ZigbeeTimeResponse.HeaderTakenForCount | esp32/cloudsmets/main/cs_zigbee.c:116 | as written, the overlay at `pData[0]` reads the source address, source endpoint, destination endpoint and sequence number as count, identifier, status and type; a time response from a node whose short address is not 0x01xx is forwarded instead of setting the clock |
| ZigbeeRx.SkipAsWritten | esp32/cloudsmets/main/cs_zigbee.c:255 | the skip loop, as written, always moves past the byte it tested, and never beyond the memory it reads |
| ZigbeeRx.NextStart | esp32/cloudsmets/main/cs_zigbee.c:255 | the skip finds the first start marker at or after the position, or reports that none is present |
| ZigbeeRx.ScanSpec | esp32/cloudsmets/main/cs_zigbee.c:241-300 | the scan never reads past the data, and it accepts at most the bytes present; an accepted frame covers its framing bytes |
| ZigbeeRx.ScanFindsFirstFrame | esp32/cloudsmets/main/cs_zigbee.c:255-292 | an accepted frame starts at a marker whose length field is at most 256 and is fully present; every marker skipped before it carried an implausible length |
| ZigbeeRx.ScanDiscards | esp32/cloudsmets/main/cs_zigbee.c:256-260 | all bytes are discarded only when every marker in them carried an implausible length |
| ZigbeeRx.MaybeFrame | esp32/cloudsmets/main/cs_zigbee.c:241-300 | the loop over the buffer returns exactly the scan of the bytes present |
| ZigbeeRx.AsWrittenAgreesOnFrames | esp32/cloudsmets/main/cs_zigbee.c:241-300 | whenever the corrected scan finds a frame, the as-written scan finds the same frame |
| ZigbeeRx.AsWrittenOverruns | esp32/cloudsmets/main/cs_zigbee.c:255-291 | with no marker in the data, the as-written skip loop stops one byte past the end and accepts a frame from beyond the bytes present, where the corrected scan discards them all |
| ZigbeeRx.OversizedFrameNeverFits | esp32/cloudsmets/main/cs_zigbee.c:48-50 | a plausible length of more than 249 bytes of payload in a full 256-byte buffer leaves the scan waiting for more data |
| ZigbeeRx.ReceiveKeepsTail | esp32/cloudsmets/main/cs_zigbee.c:396-422 | after one turn the bytes left are a suffix of what was present plus what was read, and at most one frame is appended to those handled |
| ZigbeeRx.ClockSetOnce | esp32/cloudsmets/main/cs_zigbee.c:155-166 | once the clock has been set, no later frame sets it again |
| ZigbeeRx.FullBufferStalls | esp32/cloudsmets/main/cs_zigbee.c:398-407 | a full buffer leaves nothing to read, so the turn changes nothing |
| ZigbeeRx.ZigbeeTask.constructor | esp32/cloudsmets/main/cs_zigbee.c:304-314 | the task starts with a fresh 256-byte buffer, no bytes present and the clock not set |
| ZigbeeRx.ZigbeeTask.Append | esp32/cloudsmets/main/cs_zigbee.c:398-400 | the bytes read land directly after the bytes present, which are kept |
| ZigbeeRx.ZigbeeTask.Compact | esp32/cloudsmets/main/cs_zigbee.c:417-421 | the first count bytes are afterwards the count bytes from the given offset |
| ZigbeeRx.ZigbeeTask.HandleFrame | esp32/cloudsmets/main/cs_zigbee.c:288 | the corrected frame action (checksum, command-id combine and attribute overlay) is recorded, and the clock is set after the first good time, with the byte count unchanged |
| ZigbeeRx.ZigbeeTask.ConsumeFrame | esp32/cloudsmets/main/cs_zigbee.c:414-421 | one corrected scan, the corrected frame action and the compaction leave the state that the one-scan specification gives |
| ZigbeeRx.ZigbeeTask.Receive | esp32/cloudsmets/main/cs_zigbee.c:396-422 | one turn of the loop leaves the state that the one-turn specification gives |
| ZigbeeRx.CrcPassesAsWritten | esp32/cloudsmets/main/cs_zigbee.c:230-231 | as written the check compares the checksum byte with a boolean, so it can only pass for a checksum of 0 or 1 |
| ZigbeeRx.ZigbeeTime | esp32/cloudsmets/main/cs_zigbee.c:145 | the four value bytes are read as one big-endian number, most significant byte first |
| ZigbeeRx.ScanAsWritten | esp32/cloudsmets/main/cs_zigbee.c:241-300 | the scan as written: a discard drops every byte received; a frame it reports starts at or after the scan position and has a plausible length |
| ZigbeeRx.ReceiveSpec | esp32/cloudsmets/main/cs_zigbee.c:396-423 | a read that brings no bytes changes nothing; while 10 bytes or fewer are present the bytes are only buffered, no frame is looked for |
| Mqtt.HexDigitIsTable | esp32/cloudsmets/main/cs_mqtt.c:74 | the digit of a nibble is the character at that index of `0123456789ABCDEF` |
| Mqtt.QuoteAppend | esp32/cloudsmets/main/cs_mqtt.c:136-150 | the encoding works byte by byte: one more input byte appends exactly its own escape, or the byte itself |
| Mqtt.QuoteLength | esp32/cloudsmets/main/cs_mqtt.c:113-124 | the encoded length is the input length plus 2 for every escaped byte, the count the first loop makes |
| Mqtt.HexRoundTrip | esp32/cloudsmets/main/cs_mqtt.c:142-143 | the two hex digits written for a byte decode back to that byte |
| Mqtt.PercentEscaped | esp32/cloudsmets/main/cs_mqtt.c:73 | `%` is itself among the escaped characters, so a literal `%` never survives into the output |
| Mqtt.UnquoteQuote | esp32/cloudsmets/main/cs_mqtt.c:109-150 | percent-decoding the encoded URL gives back the input exactly |
| Mqtt.QuoteIsSafe | esp32/cloudsmets/main/cs_mqtt.c:136-150 | every byte of the output is a `%` introducing an escape or a byte that needs no escape |
| Mqtt.DigitsUnescaped | esp32/cloudsmets/main/cs_mqtt.c:73-74 | no hex digit is among the escaped characters |
| Mqtt.QuotedLength | esp32/cloudsmets/main/cs_mqtt.c:113-124 | the counting loop returns the input length plus 2 per escaped byte |
| Mqtt.PutEscaped | esp32/cloudsmets/main/cs_mqtt.c:138-149 | one byte's output is written at the cursor and what precedes it is kept |
| Mqtt.PutNext | esp32/cloudsmets/main/cs_mqtt.c:136-150 | after one more iteration the cursor has advanced past the next byte's encoding and the output so far is the encoding of the bytes read |
| Mqtt.UrlQuotePlus | esp32/cloudsmets/main/cs_mqtt.c:109-150 | the allocated buffer has exactly the counted length and holds the percent-encoding of the input |
| Mqtt.StepKeepsKey | esp32/cloudsmets/main/cs_mqtt.c:346-363 | every handler keeps the access key index 0 or 1, and only a not-authorised refusal changes it |
| Mqtt.StartOnlyWhenReady | esp32/cloudsmets/main/cs_mqtt.c:279-332 | the client is started exactly on a station connection, configuration change or clock set that leaves both the clock set and the station connected |
| Mqtt.DisconnectStops | esp32/cloudsmets/main/cs_mqtt.c:307-314 | a station disconnection clears the connected flag and stops the client, changing nothing else |
| Mqtt.RefusalsAlternateKeys | esp32/cloudsmets/main/cs_mqtt.c:356 | after n refusals the key is the starting one exactly when n is even |
| Mqtt.StaleRefusalsWait | esp32/cloudsmets/main/cs_mqtt.c:355-363 | once a key has gone stale, every further refusal arms the one-minute wait and the stale count stays as it is |
| Mqtt.RefusalsAfterConnecting | esp32/cloudsmets/main/cs_mqtt.c:390-392 | after a successful connection the first refusal reconnects almost at once, and every later one waits a minute |
| Mqtt.MqttTask.constructor | esp32/cloudsmets/main/cs_mqtt.c:489-507 | the statics start cleared and the client is started at once by `init_mqtt` |
| Mqtt.MqttTask.MaybeStartMqtt | esp32/cloudsmets/main/cs_mqtt.c:279-288 | the statics are unchanged and a start is requested exactly when the clock is set and the station connected |
| Mqtt.MqttTask.MaybeStaleAccessKey | esp32/cloudsmets/main/cs_mqtt.c:346-364 | the key is switched and the timer armed as the stale-key specification says |
| Mqtt.MqttTask.Handle | esp32/cloudsmets/main/cs_mqtt.c:290-486 | the statics and the request after one event are those of the one-event specification |
| Mqtt.Quote | esp32/cloudsmets/main/cs_mqtt.c:109-153 | the encoded URL is at least as long as the input and at most three bytes per input byte |
| Mqtt.Unquote | esp32/cloudsmets/main/cs_mqtt.c:136-150 | the decoding partner of the encoder (no decoder exists in the source): never longer than its input, and empty only for empty input |
| Mqtt.MaybeStart | esp32/cloudsmets/main/cs_mqtt.c:279-288 | the client is asked to start exactly when the clock is set and the station is connected, and nothing else is asked |
| Mqtt.StaleKey | esp32/cloudsmets/main/cs_mqtt.c:346-364 | a stale key switches to the other of the two keys, keeps the clock and WiFi flags, and arms the reconnect timer: at once the first time, after the wait otherwise |
| Mqtt.Step | esp32/cloudsmets/main/cs_mqtt.c:290-487 | only a not-authorised refusal changes the key; a start request comes only with the clock set and the station connected; a token is signed with the current key |
| Flash.OneBitChanges | esp32/cloudsmets/main/cs_flash.c:166-223 | a WiFi, MQTT or ZigBee event sets or clears its own status bit and leaves every other bit as it was; the timer and unexpected events change no bit |
| Flash.UpdateSetsOrClears | esp32/cloudsmets/main/cs_flash.c:166-223 | each event either ors its bit into the status or ands the status with the bit's complement; the timer and unexpected events name no bit |
| Flash.DisplayCountsLinks | esp32/cloudsmets/main/cs_flash.c:109-136 | the LED is solid exactly when all four links are up, flashes 3, 2 or 1 times exactly when the first three, two or one are up and the next is not, and is dark exactly when the soft AP is down |
| Flash.TicksSplit | esp32/cloudsmets/main/cs_flash.c:75-100 | m + n timer ticks are m ticks followed by n ticks, in the ticker and in what the LED did |
| Flash.TwoTicks | esp32/cloudsmets/main/cs_flash.c:75-100 | two ticks are one tick after another |
| Flash.CycleFrom | esp32/cloudsmets/main/cs_flash.c:75-100 | from unlit with k flashes left, the next 2k + 2 ticks give k pairs (on, off) then (nothing, off) and reload the count |
| Flash.CycleRepeats | esp32/cloudsmets/main/cs_flash.c:68-74 | with n flashes per cycle the pattern repeats every 2n + 2 ticks as n times (on, off) followed by (off, off), as the comment above `flash_timer_action` describes |
| Flash.FirstCycleStarts | esp32/cloudsmets/main/cs_flash.c:77-78 | from the statics' initial values the first two ticks leave the LED dark and load the flash count |
| Flash.FlashTask.constructor | esp32/cloudsmets/main/cs_flash.c:45-149 | all statics start at zero, the LED off and no timer running |
| Flash.FlashTask.LedFlash | esp32/cloudsmets/main/cs_flash.c:58-66 | the flash count is set and the periodic timer is running afterwards; nothing else changes |
| Flash.FlashTask.TimerAction | esp32/cloudsmets/main/cs_flash.c:75-100 | the ticker and the LED change as one tick of the specification says, and nothing else changes |
| Flash.FlashTask.UpdateFlashStatus | esp32/cloudsmets/main/cs_flash.c:109-136 | afterwards the LED and timer show what the status word calls for; the solid and dark cases stop the timer, and a flashing case leaves the LED as it was |
| Flash.FlashTask.SetStatusBit | esp32/cloudsmets/main/cs_flash.c:166-223 | the status word is updated as the event's bit says, and the ticker, flash count, LED and timer are unchanged |
| Flash.FlashTask.Handle | esp32/cloudsmets/main/cs_flash.c:144-231 | the status word is updated, a timer event ticks the ticker, and the LED then shows the new status; while the status calls for flashes, a timer event sets the LED as the tick says and any other event leaves it as it was |
| Flash.TimerTickDropped | esp32/cloudsmets/main/cs_flash.c:257-277 | as written the handler receives every WiFi, MQTT and ZigBee event but not the flash timer's tick, which is posted under the flash event base; corrected, every event reaches it |
| Flash.FlashTask.Dispatch | esp32/cloudsmets/main/cs_flash.c:102-107 | an event of a registered base runs the handler (status updated, display refreshed, the tick advanced by a timer event and kept by any other, the LED of a flashing display set by the tick or kept); an event of an unregistered base changes nothing |
| Flash.UpdateStatus | esp32/cloudsmets/main/cs_flash.c:144-231 | an event changes none of the four high status bits; a timer or unexpected event leaves the status as it was |
| Flash.DisplayOf | esp32/cloudsmets/main/cs_flash.c:109-134 | a flashing display flashes 1 to 3 times; without the soft AP bit the LED is dark |
| Flash.Tick | esp32/cloudsmets/main/cs_flash.c:75-100 | every tick toggles the lit flag; a lit LED is turned off; the LED is turned on exactly from unlit with a count not zero |
| App.AsUnsigned64 | esp32/cloudsmets/main/cs_app.c:98 | a `time_t` difference compared with a `uint64_t` constant is taken modulo 2^64, so a negative one becomes huge |
| App.HoldDecides | esp32/cloudsmets/main/cs_app.c:97-140 | a release posts the ZigBee factory reset exactly when the hold was more than 4 s and at most `FIRST_JAN_2023` s; otherwise (short, huge or negative hold) it posts nothing, and a negative hold counts as a clock change |
| App.FullResetIsZigbeeReset | esp32/cloudsmets/main/cs_app.c:106-124 | a hold of more than 10 s takes the full-reset branch, which posts exactly what the ZigBee-only reset posts |
| App.AppTask.constructor | esp32/cloudsmets/main/cs_app.c:89 | the press time starts at 0 and nothing has been requested |
| App.AppTask.KeyAction | esp32/cloudsmets/main/cs_app.c:86-147 | a press records the time and requests nothing; a release keeps the press time and requests what the hold's classification posts |
| App.AppTask.FactoryReset | esp32/cloudsmets/main/cs_app.c:211-214 | the configuration is erased and then the chip restarted, in that order |
| App.Classify | esp32/cloudsmets/main/cs_app.c:86-147 | a negative hold is a clock change; up to 4 s a short press; over 4 s up to 10 s a ZigBee-only reset; over 10 s up to `FIRST_JAN_2023` s a full reset |
| Wifi.StepBoundsRetries | esp32/cloudsmets/main/cs_wifi.c:123-150 | the retry counter stays between 0 and `CS_WIFI_STA_MAXIMUM_RETRY` whatever the event |
| Wifi.LossRetriesThenGivesUp | esp32/cloudsmets/main/cs_wifi.c:137-152 | a station loss below the maximum counts one more retry and reconnects; at the maximum it does not reconnect, drops to AP only and arms the one-shot retry timer of the interval in microseconds |
| Wifi.RecoveryResets | esp32/cloudsmets/main/cs_wifi.c:123-134 | a station connection resets the counter; the retry timer resets it and re-enables the station and nothing else |
| Wifi.ConfigChangeRestarts | esp32/cloudsmets/main/cs_wifi.c:184-199 | a configuration change stops the timer, disconnects and drops to AP only; the station is re-enabled and the counter reset exactly when the new SSID and password are both longer than 8 |
| Wifi.WifiTask.constructor | esp32/cloudsmets/main/cs_wifi.c:33 | the counter starts at 0 and nothing has been requested |
| Wifi.WifiTask.WifiConfigSta | esp32/cloudsmets/main/cs_wifi.c:61-88 | the result is true exactly when both lengths exceed 8, and only then are station mode and its configuration requested |
| Wifi.WifiTask.Handle | esp32/cloudsmets/main/cs_wifi.c:90-250 | the counter and the requests after one event are those of the one-event specification |
| Wifi.IntervalOverflows | esp32/cloudsmets/main/cs_wifi.c:148-150 | as written the `int` product of the retry interval and 10^6 is right up to 2147 seconds; from 2148 to 4294 seconds it overflows 32 bits and, widened with its sign, arms the timer for 2^64 - 2^32 more microseconds than intended, at least 2^63 |
| Wifi.Interval | esp32/cloudsmets/main/cs_wifi.c:148-150 | computed in 64 bits, the interval in microseconds fits the `uint64_t` for every non-negative Kconfig `int` |
| Wifi.ConfigSta | esp32/cloudsmets/main/cs_wifi.c:61-88 | the station is configured exactly when both the SSID and the password are longer than 8 bytes, and then station mode is the last mode requested |
| Wifi.Step | esp32/cloudsmets/main/cs_wifi.c:90-205 | the retry counter is reset, kept, or increased by one; it increases only on a station loss below the maximum |
| AppUi.TickToggles | tlsr8258/build/tlsr_tc32/apps/cloudsmets/app_ui.c:63-85 | a tick stops (returns -1) exactly when the LED is at rest with one period left; otherwise it toggles the LED and returns the interval for the new state |
| AppUi.TickCountsDown | tlsr8258/build/tlsr_tc32/apps/cloudsmets/app_ui.c:67-72 | the u8 count drops by one, modulo 256, on each tick that finds the LED at rest; the blink ends exactly when it was inactive or that count reaches 0, and a stopping tick leaves the LED alone |
| AppUi.StartOnlyWhenIdle | tlsr8258/build/tlsr_tc32/apps/cloudsmets/app_ui.c:87-107 | the count is always stored; while a blink is running nothing else changes, otherwise the LED is put away from rest and the first tick is scheduled with that state's interval |
| AppUi.StopRestores | tlsr8258/build/tlsr_tc32/apps/cloudsmets/app_ui.c:109-121 | afterwards no blink is running; a running one has its count zeroed and the LED put back at rest, and an idle blinker is unchanged |
| AppUi.TwoThen | tlsr8258/build/tlsr_tc32/apps/cloudsmets/app_ui.c:63-85 | n + 2 ticks are two ticks followed by n |
| AppUi.LastTwo | tlsr8258/build/tlsr_tc32/apps/cloudsmets/app_ui.c:63-85 | away from rest with one period left, the next two ticks go back to rest and stop, zeroing the count |
| AppUi.BlinkCount | tlsr8258/build/tlsr_tc32/apps/cloudsmets/app_ui.c:63-85 | away from rest with k periods left (1 to 255), the next 2k ticks return the pattern of k blinks and end at rest and stopped |
| AppUi.PatternOnlyIntervals | tlsr8258/build/tlsr_tc32/apps/cloudsmets/app_ui.c:75-84 | the pattern depends only on the resting state and the two intervals |
| AppUi.StartBlinks | tlsr8258/build/tlsr_tc32/apps/cloudsmets/app_ui.c:87-107 | a start with times of 1 or more from idle blinks exactly times periods and ends at rest |
| AppUi.AfterWrap | tlsr8258/build/tlsr_tc32/apps/cloudsmets/app_ui.c:67-69 | away from rest with count k + 1 truncated to 8 bits, two ticks leave count k and the blink then runs k more periods |
| AppUi.ZeroTimesWraps | tlsr8258/build/tlsr_tc32/apps/cloudsmets/app_ui.c:68-69 | a start with times 0 is not a no-op: the u8 decrement wraps to 255 and the LED blinks 256 periods before stopping |
| AppUi.SwitchAppCtx.constructor | tlsr8258/build/tlsr_tc32/apps/cloudsmets/app_ui.c:67-92 | the zero-initialised context is idle, with the given resting state, a zero count and the LED off |
| AppUi.SwitchAppCtx.LedTimerCb | tlsr8258/build/tlsr_tc32/apps/cloudsmets/app_ui.c:63-85 | the context and the return value are those of one tick of the specification |
| AppUi.SwitchAppCtx.LedBlinkStart | tlsr8258/build/tlsr_tc32/apps/cloudsmets/app_ui.c:87-107 | the context and the scheduled interval are those of the start specification |
| AppUi.SwitchAppCtx.LedBlinkStop | tlsr8258/build/tlsr_tc32/apps/cloudsmets/app_ui.c:109-121 | the context is that of the stop specification |
| AppUi.Tick | tlsr8258/build/tlsr_tc32/apps/cloudsmets/app_ui.c:63-85 | a tick that stops returns -1 with the timer cleared and the count at 0 at the resting level; one that does not stop toggles the LED and returns the interval for its new level |
| AppUi.Start | tlsr8258/build/tlsr_tc32/apps/cloudsmets/app_ui.c:87-107 | the count is always stored and the blink is active after it; a first tick is scheduled exactly when none was active, with the LED turned away from rest and the interval of its new level |
| AppUi.Stop | tlsr8258/build/tlsr_tc32/apps/cloudsmets/app_ui.c:109-121 | afterwards no blink is active; an active one is put back at rest with its count zeroed; without one nothing changes |
| Zcl.HiLo | tlsr8258/build/tlsr_tc32/apps/cloudsmets/zcl_cloudsmetsCb.c:154-155 | `HI_UINT16` then `LO_UINT16` is the big-endian image of a 16-bit value, and reading it back gives the value |
| Zcl.WireValue | tlsr8258/build/tlsr_tc32/apps/cloudsmets/zcl_cloudsmetsCb.c:172-179 | the value copied and conditionally swapped keeps the length `zcl_getAttrSize` gives |
| Zcl.ReadRspLayout | tlsr8258/build/tlsr_tc32/apps/cloudsmets/zcl_cloudsmetsCb.c:144-185 | a read response is the 7-byte command header, the record count, then the records in order; a failed record is identifier and status only, a successful one adds a type byte and its value |
| Zcl.WriteRspLayout | tlsr8258/build/tlsr_tc32/apps/cloudsmets/zcl_cloudsmetsCb.c:198-232 | a write response is the header followed, when the incoming data length is 1, by the first status and 0xFFFF, and otherwise by status and identifier of every record |
| Zcl.CfgReportRspLayout | tlsr8258/build/tlsr_tc32/apps/cloudsmets/zcl_cloudsmetsCb.c:296-327 | a configure-report response is 8 + 4n bytes: header, count, and for each record status, direction and identifier at its fixed offset |
| Zcl.CfgReadRecordFields | tlsr8258/build/tlsr_tc32/apps/cloudsmets/zcl_cloudsmetsCb.c:425-447 | a report-configuration record carries status, direction and identifier, then either data type, both report intervals and (only for analogue types) the reportable change, or the timeout period alone |
| Zcl.ReportLengthMatches | tlsr8258/build/tlsr_tc32/apps/cloudsmets/zcl_cloudsmetsCb.c:345-384 | computed without the u8 truncation, the length counted before allocation equals the length of the report written |
| Zcl.ReportBufLenWraps | tlsr8258/build/tlsr_tc32/apps/cloudsmets/zcl_cloudsmetsCb.c:345-353 | one 250-byte long octet string makes a 261-byte report, while the `u8` count allocates 5 bytes |
| Zcl.ReadRspOverruns | tlsr8258/build/tlsr_tc32/apps/cloudsmets/zcl_cloudsmetsCb.c:147-181 | nineteen failed records already make a 65-byte response, more than the 64-byte array holds |
| Zcl.WriteRspOverruns | tlsr8258/build/tlsr_tc32/apps/cloudsmets/zcl_cloudsmetsCb.c:198-232 | twenty records of a partial write make a 67-byte response, more than the 64-byte array holds |
| Zcl.CfgReportRspOverruns | tlsr8258/build/tlsr_tc32/apps/cloudsmets/zcl_cloudsmetsCb.c:296-327 | fifteen configure-report records make a 68-byte response, more than the 64-byte array holds |
| Zcl.CfgReadRspOverruns | tlsr8258/build/tlsr_tc32/apps/cloudsmets/zcl_cloudsmetsCb.c:402-451 | ten records of received attributes, each with its timeout, make a 68-byte response, more than the 64-byte array holds |
| Zcl.StringTypesAreNotSwapped | tlsr8258/build/tlsr_tc32/apps/cloudsmets/zcl_cloudsmetsCb.c:174-177 | strings keep their stored order, and every fixed-width type the gateway decodes is swapped |
| Zcl.RecordHead | tlsr8258/build/tlsr_tc32/apps/cloudsmets/zcl_cloudsmetsCb.c:167-171 | a successful record's identifier, status and type bytes match the head of the record image the gateway decodes |
| Zcl.FixedImage | tlsr8258/build/tlsr_tc32/apps/cloudsmets/zcl_cloudsmetsCb.c:177 | reversing a stored little-endian value gives its big-endian image |
| Zcl.ShortStringImage | tlsr8258/build/tlsr_tc32/apps/cloudsmets/zcl_cloudsmetsCb.c:172-179 | a short string's stored length byte and characters are the image the gateway reads as a string |
| Zcl.ValueImage | tlsr8258/build/tlsr_tc32/apps/cloudsmets/zcl_cloudsmetsCb.c:172-179 | the value bytes of every record the gateway can decode are exactly that value's wire image |
| Zcl.RecordImage | tlsr8258/build/tlsr_tc32/apps/cloudsmets/zcl_cloudsmetsCb.c:167-179 | the Telink record of a decodable value is byte for byte the record image the gateway's decoder reads |
| Zcl.ReadRspIsGatewayPayload | tlsr8258/build/tlsr_tc32/apps/cloudsmets/zcl_cloudsmetsCb.c:144-185 | a read response whose records are all decodable is exactly the payload the gateway's decoder round-trips, so the firmware and the gateway agree on the format |
| Zcl.FailedRecordRejected | tlsr8258/build/tlsr_tc32/apps/cloudsmets/zcl_cloudsmetsCb.c:167-170 | a failed record, sent as identifier and status only, makes the gateway's decoder report that status |
| Zcl.LongStringLengthMisread | tlsr8258/build/tlsr_tc32/apps/cloudsmets/zcl_cloudsmetsCb.c:174-177 | a long string is sent with its little-endian length unswapped, so the gateway's big-endian length read takes n as n * 256 |
| Zcl.WireValueCorrected | tlsr8258/build/tlsr_tc32/apps/cloudsmets/zcl_cloudsmetsCb.c:172-179 | corrected, a long string's length prefix is put in network order and the value keeps its length |
| Zcl.LongStringCorrected | tlsr8258/build/tlsr_tc32/apps/cloudsmets/zcl_cloudsmetsCb.c:172-179 | corrected, the gateway reads a long string whose stored length counts its characters back as exactly those characters, the cursor moving past them |
| Zcl.Le16RoundTrip | tlsr8258/build/tlsr_tc32/apps/cloudsmets/zcl_cloudsmetsCb.c:511-512 | `U16_BYTE0`, `U16_BYTE1` read back little-endian give the value |
| Zcl.Le32RoundTrip | tlsr8258/build/tlsr_tc32/apps/cloudsmets/zcl_cloudsmetsCb.c:496-499 | `U32_BYTE0` to `U32_BYTE3` read back little-endian give the value |
| Zcl.PublishPrice | tlsr8258/build/tlsr_tc32/apps/cloudsmets/zcl_cloudsmetsCb.c:489-544 | the publish-price payload is always 56 bytes: the provider id, the whole `ZCL_RATE_LABEL_MAX_LENGTH`-byte label buffer and 39 bytes of other fields |
| Zcl.IssueFields | tlsr8258/build/tlsr_tc32/apps/cloudsmets/zcl_cloudsmetsCb.c:502-514 | issuer event id, current time, units, currency and the two tier bytes are at their offsets, little-endian |
| Zcl.PeriodFields | tlsr8258/build/tlsr_tc32/apps/cloudsmets/zcl_cloudsmetsCb.c:515-522 | start time, duration, price and price ratio are at their offsets, little-endian |
| Zcl.GenerationFields | tlsr8258/build/tlsr_tc32/apps/cloudsmets/zcl_cloudsmetsCb.c:523-540 | the generation price and the remaining one-byte fields are at their offsets |
| Zcl.PriceTailFields | tlsr8258/build/tlsr_tc32/apps/cloudsmets/zcl_cloudsmetsCb.c:502-540 | every field after the rate label is at its offset in the 39-byte tail |
| Zcl.PublishPriceRoundTrip | tlsr8258/build/tlsr_tc32/apps/cloudsmets/zcl_cloudsmetsCb.c:489-544 | every field of the command, the full rate-label buffer included, is recovered from its fixed place in the payload |
| Zcl.ReadRsp | tlsr8258/build/tlsr_tc32/apps/cloudsmets/zcl_cloudsmetsCb.c:144-185 | the header is followed by the record count, at byte 7 |
| Zcl.WriteRsp | tlsr8258/build/tlsr_tc32/apps/cloudsmets/zcl_cloudsmetsCb.c:198-232 | for a one-byte incoming payload the response is the header and the single triple (status, 0xFF, 0xFF) |
| Zcl.Report | tlsr8258/build/tlsr_tc32/apps/cloudsmets/zcl_cloudsmetsCb.c:338-390 | the header is followed by the record count, at byte 7 |
| Zcl.CfgReadRsp | tlsr8258/build/tlsr_tc32/apps/cloudsmets/zcl_cloudsmetsCb.c:402-451 | the header is followed by the record count, at byte 7 |
| ZclTx.PutBytes | tlsr8258/build/tlsr_tc32/apps/cloudsmets/zcl_cloudsmetsCb.c:154-165 | `*pBuf++ = …` writes the bytes at the cursor, keeps what precedes them, and leaves the zeroed rest of the buffer zero |
| ZclTx.LeBeSwap | tlsr8258/build/tlsr_tc32/apps/cloudsmets/zcl_cloudsmetsCb.c:177 | `ZB_LEBESWAP` reverses the bytes in place and leaves the rest of the buffer unchanged |
| ZclTx.PutHeader | tlsr8258/build/tlsr_tc32/apps/cloudsmets/zcl_cloudsmetsCb.c:154-163 | the first seven bytes are source address, both endpoints, sequence number and cluster id, in the gateway's header layout |
| ZclTx.PutValue | tlsr8258/build/tlsr_tc32/apps/cloudsmets/zcl_cloudsmetsCb.c:172-179 | `memcpy` then the conditional swap leave the wire image of the stored value at the cursor |
| ZclTx.PutReadRecord | tlsr8258/build/tlsr_tc32/apps/cloudsmets/zcl_cloudsmetsCb.c:167-180 | one loop iteration writes exactly that record's bytes |
| ZclTx.PutReadRecords | tlsr8258/build/tlsr_tc32/apps/cloudsmets/zcl_cloudsmetsCb.c:166-181 | the loop writes the records' bytes one after another |
| ZclTx.ReadRspCmd | tlsr8258/build/tlsr_tc32/apps/cloudsmets/zcl_cloudsmetsCb.c:144-185 | the bytes handed to `zbhciTx` are the read response (in a buffer the size of the response) |
| ZclTx.PutParts | tlsr8258/build/tlsr_tc32/apps/cloudsmets/zcl_cloudsmetsCb.c:223-227 | fixed-size records written one after another leave their concatenation at the cursor |
| ZclTx.WriteRspCmd | tlsr8258/build/tlsr_tc32/apps/cloudsmets/zcl_cloudsmetsCb.c:198-232 | the bytes handed to `zbhciTx` are the write response |
| ZclTx.CfgReportRspCmd | tlsr8258/build/tlsr_tc32/apps/cloudsmets/zcl_cloudsmetsCb.c:296-327 | the bytes handed to `zbhciTx` are the configure-report response |
| ZclTx.PutCfgReadRecord | tlsr8258/build/tlsr_tc32/apps/cloudsmets/zcl_cloudsmetsCb.c:426-446 | one loop iteration writes exactly that report-configuration record |
| ZclTx.PutCfgReadRecords | tlsr8258/build/tlsr_tc32/apps/cloudsmets/zcl_cloudsmetsCb.c:425-447 | the loop writes the report-configuration records one after another |
| ZclTx.CfgReadRspCmd | tlsr8258/build/tlsr_tc32/apps/cloudsmets/zcl_cloudsmetsCb.c:402-451 | the bytes handed to `zbhciTx` are the read-report-configuration response |
| ZclTx.PutReportRecord | tlsr8258/build/tlsr_tc32/apps/cloudsmets/zcl_cloudsmetsCb.c:373-383 | one loop iteration writes exactly that report record |
| ZclTx.PutReportRecords | tlsr8258/build/tlsr_tc32/apps/cloudsmets/zcl_cloudsmetsCb.c:372-384 | the loop writes the report records one after another |
| ZclTx.ReportBufLen | tlsr8258/build/tlsr_tc32/apps/cloudsmets/zcl_cloudsmetsCb.c:345-351 | the `u8` length counted for a report is the true length modulo 256 |
| ZclTx.ReportSize | tlsr8258/build/tlsr_tc32/apps/cloudsmets/zcl_cloudsmetsCb.c:345-351 | counted in an unbounded integer, the length is 8 plus 3 and the value size for every record |
| ZclTx.ReportCmd | tlsr8258/build/tlsr_tc32/apps/cloudsmets/zcl_cloudsmetsCb.c:338-390 | with the intended length and a buffer available, the bytes handed to `zbhciTx` are the report; without a buffer nothing is sent |
| ZclTx.PutIssue | tlsr8258/build/tlsr_tc32/apps/cloudsmets/zcl_cloudsmetsCb.c:502-514 | the issue fields are written at the cursor as their 13-byte image |
| ZclTx.PutPeriod | tlsr8258/build/tlsr_tc32/apps/cloudsmets/zcl_cloudsmetsCb.c:515-522 | the period fields are written as their 8-byte image |
| ZclTx.PutGeneration | tlsr8258/build/tlsr_tc32/apps/cloudsmets/zcl_cloudsmetsCb.c:523-540 | the generation fields are written as their 18-byte image |
| ZclTx.PublishPriceCmd | tlsr8258/build/tlsr_tc32/apps/cloudsmets/zcl_cloudsmetsCb.c:489-544 | the 56 bytes handed to `zbhciTx` are the publish-price payload |
| ZclHandlers.IdentifyCountsDown | tlsr8258/build/tlsr_tc32/apps/cloudsmets/zcl_cloudsmetsCb.c:576-584 | a running identify of t seconds ticks t times returning 0, then stops with -1, its time at 0 and its handle cleared |
| ZclHandlers.IdentifyCmdOutcome | tlsr8258/build/tlsr_tc32/apps/cloudsmets/zcl_cloudsmetsCb.c:604-617 | the identify time is always stored; the timer runs afterwards exactly when the time is not 0; time 0 stops the blinking, and a blink of that many flashes at 500/500 ms starts exactly when a non-zero time arrives with no timer running |
| ZclHandlers.TriggerEffectBlinks | tlsr8258/build/tlsr_tc32/apps/cloudsmets/zcl_cloudsmetsCb.c:628-655 | every known effect but stop starts exactly one blink of at least one flash, at least half a second each; stop stops the blink; an unknown effect does nothing |
| ZclHandlers.IdentifyQueryRsp | tlsr8258/build/tlsr_tc32/apps/cloudsmets/zcl_cloudsmetsCb.c:667-686 | the identify-query response is 7 bytes |
| ZclHandlers.IdentifyQueryRspFields | tlsr8258/build/tlsr_tc32/apps/cloudsmets/zcl_cloudsmetsCb.c:675-682 | source address (big-endian), both endpoints, sequence number and timeout (big-endian) are at their offsets |
| ZclHandlers.IdentifyServer.constructor | tlsr8258/build/tlsr_tc32/apps/cloudsmets/zcl_cloudsmetsCb.c:576-591 | no identify is running and nothing has been requested or sent |
| ZclHandlers.IdentifyServer.TimerCb | tlsr8258/build/tlsr_tc32/apps/cloudsmets/zcl_cloudsmetsCb.c:576-584 | the identify state and return value are those of one tick, and nothing is requested or sent |
| ZclHandlers.IdentifyServer.TimerStop | tlsr8258/build/tlsr_tc32/apps/cloudsmets/zcl_cloudsmetsCb.c:586-591 | the timer is cancelled and the identify time is kept |
| ZclHandlers.IdentifyServer.IdentifyCmdHandler | tlsr8258/build/tlsr_tc32/apps/cloudsmets/zcl_cloudsmetsCb.c:604-617 | the state and LED requests are those of the identify specification |
| ZclHandlers.IdentifyServer.TriggerCmdHandler | tlsr8258/build/tlsr_tc32/apps/cloudsmets/zcl_cloudsmetsCb.c:628-655 | the LED requests are those of the effect, and the identify state is unchanged |
| ZclHandlers.IdentifyServer.QueryRspCmdHandler | tlsr8258/build/tlsr_tc32/apps/cloudsmets/zcl_cloudsmetsCb.c:667-686 | exactly one identify-query response is sent, built from the incoming address and the timeout |
| ZclHandlers.IdentifyServer.IdentifyCb | tlsr8258/build/tlsr_tc32/apps/cloudsmets/zcl_cloudsmetsCb.c:699-721 | only commands to this endpoint act: identify and trigger from a client, a query response from a server; every other command changes nothing |
| ZclHandlers.PriceReplyRouting | tlsr8258/build/tlsr_tc32/apps/esme/zcl_esmeCb.c:650-679 | a request with no reply pending schedules one reply to the requester's address, endpoint and profile, acknowledged and secured when the request was; one while a reply is pending changes nothing; the timer then publishes once and leaves nothing pending |
| ZclHandlers.SecurityIsSticky | tlsr8258/build/tlsr_tc32/apps/esme/zcl_esmeCb.c:673-676 | as written, the security option set for a secured request stays set for a later unsecured request |
| ZclHandlers.CorrectedSecurityFollowsRequest | tlsr8258/build/tlsr_tc32/apps/esme/zcl_esmeCb.c:669-676 | with the options rebuilt for each request, the reply is secured exactly when the request was, and every other field is as written |
| ZclHandlers.PriceServer.constructor | tlsr8258/build/tlsr_tc32/apps/esme/zcl_esmeCb.c:661 | no reply is pending and the zero-initialised destination has no options |
| ZclHandlers.PriceServer.GetCurrentPriceCmdHandler | tlsr8258/build/tlsr_tc32/apps/esme/zcl_esmeCb.c:650-679 | the state is that of the corrected request handler and nothing is published |
| ZclHandlers.PriceServer.PublishPriceTimerCb | tlsr8258/build/tlsr_tc32/apps/esme/zcl_esmeCb.c:639-648 | exactly one publish to the stored destination, with the state and return value of the timer specification |
| ZclHandlers.IdentifyCmd | tlsr8258/build/tlsr_tc32/apps/cloudsmets/zcl_cloudsmetsCb.c:604-617 | the identify time is stored; the timer runs exactly when it is not zero; zero stops the blink, any other time never does |
| ZclHandlers.GetCurrentPrice | tlsr8258/build/tlsr_tc32/apps/esme/zcl_esmeCb.c:650-679 | a reply is pending afterwards; a request while one is pending changes nothing; a security option once set is never cleared |

## Left out

- Text is not decoded: the decoder's `Encoding.UTF8.GetString` and the strings it makes are kept as their bytes, because Dafny has no UTF-8 decoder to compare with.
- The host is taken to be little-endian. `BitConverter` and `IPAddress.NetworkToHostOrder` become a fixed big-endian read, which is what they do together there.
- `AttributeId`, `GetEnum` and `AttributeValue` (`azure/cloudsmets/MQTTReceiver/zbhci.cs:187-208`) need attribute-name singletons that are not shown and runtime reflection; they are not part of this model.
- The decoder's unit tests are used only in part: the framing and CRC vectors of `azure/cloudsmets/testmqttreceiver/zbhciTests.cs:42-66` are restated by `ZbhciProperties.FrameHeaderVectors`; the other tests are not restated.
- `ZCL_RATE_LABEL_MAX_LENGTH` is not defined in the files shown. It is taken as 13, the size that makes `4 + label + 39` fill the 56-byte payload; the label is that whole buffer (`Zcl.RateLabel`) and is copied in full, as the handler does.
- The price field of the published price is written as one byte, and the publish goes out with the command id the source gives it; both as written.
- `light_blink_start`, `light_blink_stop` and the light timer callback are not shown. The handlers record the LED requests they make, and `AppUi` models the blinker of `app_ui.c` by itself. If `light_blink_start` expands to `led_blink_start`, whose count is a `u8` (`app_ui.c:87`), an identify time of 256 would be cut to 0 and blink 256 periods (`AppUi.ZeroTimesWraps`); the recorded request keeps the full count.
- The `ssid[length] = 0` terminator writes of `cs_wifi.c` are not modelled; only the lengths copied are.
- `zcl_getAttrSize` is the length of the data passed; `ZB_LEBESWAP` is a byte reversal; whether a type is analogue is a field of the record; `ev_buf_allocate` succeeding is a parameter; effect identifiers are a datatype; `ESME_ENDPOINT` is a parameter.
- The ESME build's report and read-response serialisers are the same text as the CloudSMETS build's, so they are modelled once and cite the CloudSMETS file.
- `cs_zigbee.c` calls its checksum and its handlers with arguments that do not match their declarations (lines 127, 230 and 238), and it is missing several semicolons. The model takes the signatures as declared.
- Kconfig values such as the OTA switch, the acceptance minutes, the configured release and `ZCL_ATTRID_STANDARD_TIME` are parameters.
- `time`, `settimeofday` and `adjtime` become a `now` parameter and the clock action taken.
- The `XmlTextReader` loop and the storage listing are reduced to the sequence of names or prefixes they yield.
- Connection-string failover, SAS tokens and the HMAC signing (`esp32/cloudsmets/main/cs_mqtt.c:93-107` and `158-274`) are left out, as are the web server, the configuration store, task creation, drivers, HTTP transport, `upgrade_to` and `esp_https_ota`, because they are I/O.
- The factory-reset timer of `cs_app.c` is commented out in the source and is not modelled.
- Concurrency between the ESP32 tasks and event-loop ordering are not modelled; each handler runs to completion on one event.
- `upgrade_to` as written does not put the version in the image URL: its `sprintf` calls pass `"/"` as the format and the version as unused arguments (`esp32/cloudsmets/main/cs_ota.c:235-242`). The OTA outcome members therefore speak of the version passed to `upgrade_to`, not of the image it flashes.
- Ota.ConvertNumeral: reads a numeral of any size as its value modulo 2^16. For a numeral that does not fit, C leaves `%hu` undefined, and a newlib build, which converts through `strtoul`, stores 0xFFFF from 2^32 upwards; the model is exact only below 2^32.
- Ota.ConvertU16: the same reading of `%hu` for a numeral of 2^32 or more.
- Ota.ScanRender: the same reading of `%hu`; its "modulo 2^16" holds as the platform behaves only for fields below 2^32.
- Zbhci.SortById: promises sorted by identifier and a permutation, not stability, because `List.Sort` is unstable.
- ZclTx.ReadRspCmd: writes into a buffer sized to fit, not the fixed 64-byte array; the overrun of that array is a finding.
- ZclTx.WriteRspCmd: writes into a buffer sized to fit, not the fixed 64-byte `array` of `zcl_cloudsmetsCb.c:201`; twenty records of a partial write overrun it, a finding (`Zcl.WriteRspOverruns`).
- ZclTx.CfgReportRspCmd: writes into a buffer sized to fit, not the fixed 64-byte `array` of `zcl_cloudsmetsCb.c:301`; fifteen records overrun it, a finding (`Zcl.CfgReportRspOverruns`).
- ZclTx.CfgReadRspCmd: writes into a buffer sized to fit, not the fixed 64-byte `array` of `zcl_cloudsmetsCb.c:406`; ten timeout records overrun it, a finding (`Zcl.CfgReadRspOverruns`).
- ZclTx.ReportCmd: allocates the intended length, not the 8-bit `bufLen`; the wrap of that length is a finding.
- ZigbeeRx.ZigbeeTask.Receive: uses the corrected marker scan, checksum (`Zbhci.Crc8Of` in place of the bool-returning `crc8_calculate`), command-id combine and attribute overlay; the code as written is modelled by the finding members.
- ZigbeeRx.ZigbeeTask.HandleFrame: records the corrected `FrameAction`, with the corrected checksum, command-id combine and attribute overlay; as written no frame is dispatched (`ZigbeeRx.AsWrittenDispatchesNothing`).
- ZigbeeRx.ZigbeeTask.ConsumeFrame: runs the corrected marker scan and the corrected `FrameAction`; the as-written scan and action are the finding members.
- LatestRevision.MatchRevisionSound: models `\d` as the ASCII digits, whereas .NET's `\d` takes every Unicode decimal digit; a prefix such as `١.0.0/` (Arabic-Indic one) is matched by the source and then makes `UInt32.Parse` throw, failing the request, where the model skips it.
- LatestRevision.MatchBodySound: the same ASCII reading of `\d`.
- LatestRevision.MatchSound: the same ASCII reading of `\d`; a listing prefix with non-ASCII digits is not matched here.
- LatestRevision.SelectFailsIff: its failure cases are those of the ASCII reading of `\d`; the source also fails on a prefix whose digits are non-ASCII decimal digits.
- AppUi.StartBlinks: assumes the timer `led_blink_start` schedules is `zclLEDTimerCb` (the source names `zclLightTimerCb`, which is not shown) and that `light_on`/`light_off` and `led_on(pin)`/`led_off(pin)` drive the same LED; one LED level models both.
- AppUi.SwitchAppCtx.LedBlinkStart: the same two assumptions about the scheduled callback and the LED calls.
- Wifi.WifiTask.Handle: arms the retry timer with the 64-bit product of the interval; the `int` overflow as written is a finding.
- Flash.FlashTask.Handle: runs the tick on a timer event as `event_handler` does; that the event never arrives as written is a finding, modelled by `Flash.FlashTask.Dispatch`.
- Zcl.ReadRecordBytes: the serialisers keep the long-string length as written; the corrected form is `Zcl.WireValueCorrected`, and long strings are outside the records the round-trip lemmas cover.
- The `uart_read_bytes` error return of -1 (`esp32/cloudsmets/main/cs_zigbee.c:400-406`) is not modelled: a read is a sequence of zero or more bytes. As written the check tests `bytes_present`, so a -1 would be added to the count unnoticed.
- ZclHandlers.PriceServer.GetCurrentPriceCmdHandler: rebuilds the transmit options for each request; the sticky option as written is a finding.

## Findings

| source | as written | input that shows it | evidently intended | confidence | as-written member | corrected member |
|---|---|---|---|---|---|---|
| azure/cloudsmets/MQTTReceiver/zbhci.cs:454-458 | the 64-bit attribute reads its value without advancing `offset` | a UINT64 record followed by an ENUM8 record: the next record is read from the value's bytes and fails as an unsupported type | `offset += 8` after the read | high, not executed | ZbhciProperties.Uint64CursorFinding | ZbhciWire.DecodeRoundTrip |
| azure/cloudsmets/MQTTReceiver/zbhci.cs:379-391 | the low 16 bits of a 48-bit value are read with a 4-byte read | a UINT48 record that is the last bytes of the frame: the read runs past the end and the decode fails | a 2-byte read | high, not executed | ZbhciProperties.Uint48LastRecordFinding | ZbhciWire.DecodeRoundTrip |
| azure/latestRev/LastestRevision/Function1.cs:48-50 | the dev number and the base are cut with from-end indices `^` | `1.2.3-dev4` reads dev 1; `10.2.3-dev4` throws | cut at `devOffset` from the start | high, not executed | Function1.FromStringReadsWrongDev | Function1.FromStringCorrectedRoundTrip |
| azure/cloudsmets/CloudSMETS/LatestRevision.cs:54-63 | `allowDev` guards only the dev-versus-dev step of the comparison | the listing `1.0.0-dev1/` with `allowDev` false answers with that dev build | no dev build adopted unless allowed | medium, not executed | LatestRevision.DevAnsweredWithoutAllowDev | LatestRevision.SelectCorrectedIsNewest |
| esp32/cloudsmets/main/cs_ota.c:180 | `(ss_rc < 3) && (ss_rc > 4)` is never true | a valid configured release: the request still goes out and its answer replaces the release | a logical or, and the configured release used alone | high, not executed | Ota.ConfiguredReleaseOverridden | Ota.DetermineReleaseCorrected |
| esp32/cloudsmets/main/cs_ota.c:285 | `success` is never assigned on the path that reads the running version | any running version that reads: the result is the uninitialised value | `success = true` once the version is read | high, not executed | Ota.DoWeUpgrade | Ota.DoWeUpgradeCorrected |
| esp32/cloudsmets/main/cs_ota.c:383-392 | `start_ota` never consults `do_upgrade` | the latest release equals the running one: `upgrade_to` is called and the device restarts | upgrade only when `do_upgrade` | high, not executed | Ota.AsWrittenReflashes | Ota.CorrectedOutcomeProperties |
| esp32/cloudsmets/main/cs_ota.c:560 | the acceptance timer is armed for an image already VALID | a new image in PENDING_VERIFY never gets the timer that accepts it | arm it for PENDING_VERIFY | high, not executed | Ota.PendingImageNeverAccepted | Ota.AcceptanceTimerCorrected |
| esp32/cloudsmets/main/cs_zigbee.c:59-75 | the checksum is returned as `bool` and XORs the high type byte twice | any frame whose correct checksum is above 1 is rejected | return the `uint8_t` XOR of low and high bytes | high, not executed | ZigbeeRx.GoodChecksumRejected | ZigbeeRx.Crc8CalculateCorrected |
| esp32/cloudsmets/main/cs_zigbee.c:227 | the command id is combined with `&` | every frame: command id 0, so no read-attributes response is dispatched | combine with a bitwise or | high, not executed | ZigbeeRx.AsWrittenDispatchesNothing | ZigbeeRx.CorrectedTimePath |
| esp32/cloudsmets/main/cs_zigbee.c:255 | the marker scan decrements `data_remains` past zero when no marker is present | a buffer with no start marker: the scan runs on into the bytes beyond the data | stop when the data runs out and discard it | high, not executed | ZigbeeRx.AsWrittenOverruns | ZigbeeRx.MaybeFrame |
| esp32/cloudsmets/main/cs_zigbee.c:116 | the attribute overlay is laid at `pData[0]`, where the Telink firmware puts its 7-byte command header | the time response of a node with short address 0x0000: count read as 0, so it is forwarded and the clock is never set | lay the overlay at `pData[7]`, after the header | high, not executed | ZigbeeTimeResponse.HeaderTakenForCount | ZigbeeTimeResponse.ProducerTimeSetsClock |
| esp32/cloudsmets/main/cs_flash.c:257-277 | `event_handler` is registered for the WiFi, MQTT and ZigBee bases only, while the timer callback posts its tick under the flash base | any flashing status (soft AP up alone): no tick reaches `flash_timer_action`, so the LED never flashes | register the handler for the flash base too | high, not executed | Flash.TimerTickDropped | Flash.FlashTask.Dispatch |
| esp32/cloudsmets/main/cs_wifi.c:149 | `CS_WIFI_STA_RETRY_INTERVAL * 1000 * 1000` is computed in `int` before it is widened | a retry interval of 2148 seconds: the timer is armed for 18446744071562584320 microseconds, so the station is never retried | a 64-bit product | medium, not executed | Wifi.IntervalOverflows | Wifi.LossRetriesThenGivesUp |
| tlsr8258/build/tlsr_tc32/apps/cloudsmets/zcl_cloudsmetsCb.c:174-177 | long strings are excluded from `ZB_LEBESWAP`, so their stored little-endian length goes out unswapped | a long string of 5 characters: the gateway reads its length as 1280 | put the length prefix in network order | medium, not executed | Zcl.LongStringLengthMisread | Zcl.LongStringCorrected |
| tlsr8258/build/tlsr_tc32/apps/cloudsmets/zcl_cloudsmetsCb.c:345-353 | the report length is summed in a `u8` | one report of a 250-byte long octet string: 5 bytes allocated for a 261-byte message | a 16-bit length | high, not executed | Zcl.ReportBufLenWraps | ZclTx.ReportCmd |
| tlsr8258/build/tlsr_tc32/apps/cloudsmets/zcl_cloudsmetsCb.c:147-181 | the read response is built in a fixed 64-byte array without a bound | 19 failed records: a 65-byte message | bound the records or size the buffer | high, not executed | Zcl.ReadRspOverruns | ZclTx.ReadRspCmd |
| tlsr8258/build/tlsr_tc32/apps/cloudsmets/zcl_cloudsmetsCb.c:198-232 | the write response is built in the same fixed 64-byte array without a bound | 20 records of a partial write: a 67-byte message | bound the records or size the buffer | high, not executed | Zcl.WriteRspOverruns | ZclTx.WriteRspCmd |
| tlsr8258/build/tlsr_tc32/apps/cloudsmets/zcl_cloudsmetsCb.c:296-327 | the configure-report response is built in the same fixed 64-byte array without a bound | 15 records: a 68-byte message | bound the records or size the buffer | high, not executed | Zcl.CfgReportRspOverruns | ZclTx.CfgReportRspCmd |
| tlsr8258/build/tlsr_tc32/apps/cloudsmets/zcl_cloudsmetsCb.c:402-451 | the read-report-configuration response is built in the same fixed 64-byte array without a bound | 10 records of received attributes: a 68-byte message | bound the records or size the buffer | high, not executed | Zcl.CfgReadRspOverruns | ZclTx.CfgReadRspCmd |
| tlsr8258/build/tlsr_tc32/apps/esme/zcl_esmeCb.c:673-676 | the static destination's options are or-ed and never cleared | a secured request, then an unsecured one: the second reply is sent secured | options rebuilt for each request | medium, not executed | ZclHandlers.SecurityIsSticky | ZclHandlers.CorrectedSecurityFollowsRequest |
