# SMB1 client packet, in Dafny

This project models `SMBPacket`, the client-side SMB1 packet of the file-sharing
stack, and proves what its operations do. A packet is one byte buffer. The buffer
starts with the 4-byte NetBIOS session header (RFC 1002, section 4.3.1). Next
come the SMB header ([MS-CIFS] section 2.2.3.1), the parameter block (section
2.2.3.2) and the data block (section 2.2.3.3).

The model has five modules:

- `DataPacker`: little-endian integer and string encodings, and the alignment
  helpers. The Java utility class of that name is not part of this model. Its
  reads and writes are specified here by their contracts.
- `SMBHeader`: the field offsets and the getters as pure functions of the buffer
  contents.
  - The parameter count is read as a signed byte, as the source does.
  - The byte offset, byte count and length are recomputed from the word-count
    byte on every read.
  - `Parameter` accepts the index equal to the count.
  - The error model: `isValidResponse`, `checkForError` and `equalsError`. Bit
    0x4000 of flags2 decides how header bytes 5..8 are read: as a legacy
    error class and code, or as a 32-bit status.
- `FlagText`: the text forms of the flags and flags2 fields.
- `ReceiveSpec`: the receive loops as pure functions over the sequence of frames
  that the transport delivers.
- `Client`:
  - `SMBPacket`, a class with the buffer (`buf`), the cached command `pkttype`, the
    cursors `pos` and `endpos`, and `lastTxTime`. Its setters, pack/unpack and
    cursor methods change these in place.
  - `Session` and `NetworkSession`, which model the transport. A network session
    holds the frames still to be received and a ghost log of what was sent,
    verified and passed on as an asynchronous response.

The getters are functions over `buf[..]`. The getters that only return a field
(`getBuffer`, `isType`, `getPosition`, `getLastPacketSendTime`) are read as the
class fields themselves.

Two behaviours of `ExchangeSMB` are stated as the code has them:

- The signature check and the error check look at the request packet, not at
  the receive packet. The two can be the same object, and the contract covers
  both cases.
- A frame shorter than an SMB header is skipped. The loop never ends on one
  (`ReceiveSpec.LenientNeverShort`), so the throw after the loop cannot run.
  The model takes the case where the transport has no further frame as the
  receive itself failing.

## Model

| member | source | states |
|---|---|---|
| `DataPacker.ShortRoundTrip` | src/main/java/org/filesys/client/SMBPacket.java:871-874 | a 16-bit write read back at the same offset gives the value modulo 2^16 |
| `DataPacker.IntRoundTrip` | src/main/java/org/filesys/client/SMBPacket.java:881-884 | a 32-bit write read back at the same offset gives the Java `int` value again, sign included |
| `DataPacker.LongRoundTrip` | src/main/java/org/filesys/client/SMBPacket.java:891-894 | a 64-bit write read back at the same offset gives the Java `long` value again |
| `DataPacker.LERoundTrip` | src/main/java/org/filesys/client/SMBPacket.java:871-894 | n little-endian bytes decode to the value modulo 256^n |
| `DataPacker.SignedByte` | src/main/java/org/filesys/client/SMBPacket.java:919-921 | the sign-extended byte lies in -128..127 and has the same low 8 bits as the stored byte |
| `DataPacker.WordAlign` | src/main/java/org/filesys/client/SMBPacket.java:845-864 | the next even position at or after p (at most one byte of padding) |
| `DataPacker.LongwordAlign` | src/main/java/org/filesys/client/SMBPacket.java:1419-1421 | the next multiple of 4 at or after p (at most three bytes of padding) |
| `DataPacker.GetString` | src/main/java/org/filesys/client/SMBPacket.java:978-1005 | at most maxlen non-NUL bytes copied from pos, all inside the buffer; a read shorter than maxlen that is still inside the buffer stopped at a NUL byte |
| `DataPacker.GetUnicodeString` | src/main/java/org/filesys/client/SMBPacket.java:978-1005 | at most maxlen non-NUL 16-bit units read from pos, all inside the buffer |
| `DataPacker.UnicodeStops` | src/main/java/org/filesys/client/SMBPacket.java:978-1005 | each unit getUnicodeString returns is the 16-bit read at its position, and a read shorter than maxlen with a unit left in the buffer stopped at a NUL unit |
| `DataPacker.AsciiScan` | src/main/java/org/filesys/client/SMBPacket.java:845-864 | an ASCII string stored with its NUL reads back unchanged |
| `DataPacker.UnicodeScan` | src/main/java/org/filesys/client/SMBPacket.java:845-864 | a UTF-16LE string stored with its NUL word reads back unchanged |
| `SMBHeader.RequestIsNotResponse` | src/main/java/org/filesys/client/SMBPacket.java:771-785 | isRequest holds exactly when isResponse does not |
| `SMBHeader.HeaderFieldLayout` | src/main/java/org/filesys/client/SMBPacket.java:495-742 | the 16-bit getters (getFlags2, getTreeId, getProcessId, getUserId, getMultiplexId, getByteCount) read their two bytes low byte first; getCommand, getErrorClass, getErrorCode, getFlags and getAndXCommand read one byte at their offset |
| `SMBHeader.FlagBitsLayout` | src/main/java/org/filesys/client/SMBPacket.java:531-785 | the header byte and bit each flag predicate tests: the response bit is the top bit of flags; long file names and signatures are bits 0 and 2 of the low flags2 byte; extended setup, long error codes and Unicode are bits 3, 6 and 7 of the high byte |
| `SMBHeader.ParameterCount` | src/main/java/org/filesys/client/SMBPacket.java:704-706 | the word-count byte read as a signed Java byte: in -128..127 with the stored byte as its low 8 bits, negative exactly when the byte is 0x80 or more |
| `SMBHeader.ByteOffset` | src/main/java/org/filesys/client/SMBPacket.java:508-515 | the data block starts right after the declared parameter words and the 2-byte byte count, that is two bytes past the slot getByteCount reads at PARAMWORDS + 2 * count |
| `SMBHeader.ByteCount` | src/main/java/org/filesys/client/SMBPacket.java:495-501 | an unsigned 16-bit value |
| `SMBHeader.Length` | src/main/java/org/filesys/client/SMBPacket.java:645-647 | lies between the byte offset and the byte offset plus 0xFFFF (less the transport header), and covers at least the header and word count when the count is not negative |
| `SMBHeader.AvailableLength` | src/main/java/org/filesys/client/SMBPacket.java:486-488 | the room from the byte offset rounded up to a multiple of 4 to the end of the buffer |
| `SMBHeader.ParameterLong` | src/main/java/org/filesys/client/SMBPacket.java:694-697 | the signed 32-bit value whose low word is parameter idx and whose high word is parameter idx+1 |
| `SMBHeader.ByteCountSlot` | src/main/java/org/filesys/client/SMBPacket.java:495-515 | the slot that getByteCount reads is the two bytes before the byte offset, for every word count |
| `SMBHeader.Parameter` | src/main/java/org/filesys/client/SMBPacket.java:674-686 | fails with an index error exactly when idx > getParameterCount(); otherwise the unsigned 16-bit word at WORDCNT + 2*idx + 1 |
| `SMBHeader.SetParameterSpec` | src/main/java/org/filesys/client/SMBPacket.java:1316-1319 | after setParameter(i, v), word i reads v mod 2^16 (getParameter too, for i <= count), the count is unchanged and no other parameter word changes |
| `SMBHeader.SetParameterCountSpec` | src/main/java/org/filesys/client/SMBPacket.java:1338-1340 | after setParameterCount(c), the signed count is the low byte sign-extended; it equals c exactly when -128 <= c < 128 |
| `SMBHeader.SetByteCountSpec` | src/main/java/org/filesys/client/SMBPacket.java:1216-1219 | for a word count other than -1, a byte-count write reads back mod 2^16, keeps the offset, and sets the length to offset + count - H |
| `SMBHeader.PutDataSpec` | src/main/java/org/filesys/client/SMBPacket.java:1236-1244 | storing the data block keeps the word count, byte offset, byte count and every byte before the block |
| `SMBHeader.WithBytes` | src/main/java/org/filesys/client/SMBPacket.java:1236-1244 | after setBytes(b), b is stored at the byte offset, nothing before the count slot or after the data changes, and (for a non-negative count) the byte count reads back \|b\| mod 2^16 at the same offset |
| `SMBHeader.IsValidResponse` | src/main/java/org/filesys/client/SMBPacket.java:792-808 | only a response to the cached command can be valid |
| `SMBHeader.CheckForError` | src/main/java/org/filesys/client/SMBPacket.java:158-172 | passes exactly the valid responses; the exception carries the 32-bit status exactly when the long-error bit is set |
| `SMBHeader.EqualsError` | src/main/java/org/filesys/client/SMBPacket.java:291-295 | for a legacy status, holds exactly when the decoded class and code are the ones given |
| `SMBHeader.ValidResponseSpec` | src/main/java/org/filesys/client/SMBPacket.java:792-808 | isValidResponse holds exactly for a response to the cached command whose status is success, in the form that flags2 bit 0x4000 selects |
| `SMBHeader.CheckForErrorSpec` | src/main/java/org/filesys/client/SMBPacket.java:158-172 | checkForError passes exactly the valid responses. Otherwise it fails with NTError(long status) when the long-error bit is set, and with SMBError(class, code) when it is not |
| `SMBHeader.SetErrorSpec` | src/main/java/org/filesys/client/SMBPacket.java:1261-1272 | after setErrorClass and setErrorCode, equalsError holds for the low bytes written, and the legacy status decodes to them |
| `SMBHeader.LongErrorOverlap` | src/main/java/org/filesys/client/SMBPacket.java:1279-1281 | a 32-bit status reads back unchanged, and overlaps the error class (its low byte) and the error code (its third byte) |
| `FlagText.AppendedIsJoin` | src/main/java/org/filesys/client/SMBPacket.java:1472-1502 | the string buffer holds the set names joined by commas plus one trailing comma, and is empty when no named bit is set |
| `FlagText.FlagsText` | src/main/java/org/filesys/client/SMBPacket.java:1472-1544 | corrected text: "<None>" for 0, otherwise the names of the set bits in table order, joined by commas |
| `FlagText.AsWrittenFails` | src/main/java/org/filesys/client/SMBPacket.java:1472-1502 | the text as written fails exactly for a non-zero value with no named bit set; otherwise it equals the corrected text |
| `FlagText.UnnamedBitsThrow` | src/main/java/org/filesys/client/SMBPacket.java:1509-1544 | flags 0x02 and flags2 0x0008 make the text as written fail |
| `FlagText.FlagsTextAsWritten` | src/main/java/org/filesys/client/SMBPacket.java:1472-1544 | as written: "<None>" for 0; otherwise the appended names with the last character cut off, and an index failure when the appended text is empty |
| `FlagText.FlagsAsString` | src/main/java/org/filesys/client/SMBPacket.java:1472-1502 | corrected: "<None>" for flags 0, otherwise the joined names of the set flag bits (empty when only unnamed bits are set, where the source throws) |
| `FlagText.Flags2AsString` | src/main/java/org/filesys/client/SMBPacket.java:1509-1544 | corrected: "<None>" for flags2 0, otherwise the joined names of the set flags2 bits (empty when only unnamed bits are set, where the source throws) |
| `FlagText.SetNamesMember` | src/main/java/org/filesys/client/SMBPacket.java:1472-1502 | a name of a table with distinct names is listed exactly when its bit is set |
| `FlagText.FlagNamesFaithful` | src/main/java/org/filesys/client/SMBPacket.java:1481-1497 | each of the six flag names is listed exactly when its bit is set |
| `FlagText.Flag2NamesFaithful` | src/main/java/org/filesys/client/SMBPacket.java:1520-1539 | each of the seven flags2 names is listed exactly when its bit is set |
| `ReceiveSpec.AwaitLenient` | src/main/java/org/filesys/client/SMBPacket.java:377-452 | the lenient loop ends at the first long frame for the command, if there is one. It leaves the later frames unreceived and passes on every earlier long frame in order, none dropped. Without such a frame it passes on every long frame |
| `ReceiveSpec.LenientNeverShort` | src/main/java/org/filesys/client/SMBPacket.java:411-451 | the lenient loop never stops on a short frame, so the throw after the loop is unreachable |
| `ReceiveSpec.AwaitStrict` | src/main/java/org/filesys/client/SMBPacket.java:1077-1131 | the strict loop stops at the first frame that is short or for the command, and fails exactly when that frame is short. Every earlier frame was long and was passed on in order. It ends without a stop exactly when no frame ends it |
| `Client.PrepareFields` | src/main/java/org/filesys/client/SMBPacket.java:382-386 | the request takes the session's pid and uid modulo 2^16, the multiplex id becomes 1 exactly when it was 0, and no other byte changes |
| `Client.StringRoundTrip` | src/main/java/org/filesys/client/SMBPacket.java:845-1005 | a string packed at pos unpacks as the same string, and both cursors end at the same position (ASCII len+1; Unicode word-aligned then 2*len+2) |
| `Client.SignatureOfInt` | src/main/java/org/filesys/client/SMBPacket.java:1374-1377 | after setSignature(int), the 64-bit signature reads as the value's unsigned 32 bits |
| `Client.InitialLayout` | src/main/java/org/filesys/client/SMBPacket.java:129-151 | a new sized packet has command, flags and flags2 0, no parameter words, byte count 0 and length 35 |
| `Client.SMBPacket.constructor` | src/main/java/org/filesys/client/SMBPacket.java:129-132 | a fresh 4096-byte zero buffer with the protocol signature written |
| `Client.SMBPacket.FromBuffer` | src/main/java/org/filesys/client/SMBPacket.java:139-141 | uses the caller's buffer as it is, with no signature written |
| `Client.SMBPacket.OfSize` | src/main/java/org/filesys/client/SMBPacket.java:148-151 | a fresh zero buffer of the given size with the protocol signature written |
| `Client.SMBPacket.InitializeBuffer` | src/main/java/org/filesys/client/SMBPacket.java:756-764 | writes 0xFF 'S' 'M' 'B' after the transport header and nothing else |
| `Client.SMBPacket.SetCommand` | src/main/java/org/filesys/client/SMBPacket.java:1251-1254 | caches the command in pkttype and stores its low byte |
| `Client.SMBPacket.SetErrorClass` | src/main/java/org/filesys/client/SMBPacket.java:1261-1263 | stores the low byte of the class, which getErrorClass then returns |
| `Client.SMBPacket.SetErrorCode` | src/main/java/org/filesys/client/SMBPacket.java:1270-1272 | stores the low byte of the code, which getErrorCode then returns |
| `Client.SMBPacket.SetLongErrorCode` | src/main/java/org/filesys/client/SMBPacket.java:1279-1281 | stores the 32-bit status; it reads back unchanged and sets the class and code bytes it overlaps |
| `Client.SMBPacket.SetFlags` | src/main/java/org/filesys/client/SMBPacket.java:1288-1290 | stores the low byte, which getFlags returns |
| `Client.SMBPacket.SetFlags2` | src/main/java/org/filesys/client/SMBPacket.java:1297-1299 | stores 16 bits, which getFlags2 returns |
| `Client.SMBPacket.SetMultiplexId` | src/main/java/org/filesys/client/SMBPacket.java:1306-1308 | stores 16 bits, which getMultiplexId returns |
| `Client.SMBPacket.SetProcessId` | src/main/java/org/filesys/client/SMBPacket.java:1347-1349 | stores 16 bits, which getProcessId returns |
| `Client.SMBPacket.SetSeqNo` | src/main/java/org/filesys/client/SMBPacket.java:1356-1358 | stores 16 bits at the sequence-number offset |
| `Client.SMBPacket.SetSID` | src/main/java/org/filesys/client/SMBPacket.java:1365-1367 | stores 16 bits at the session-id offset |
| `Client.SMBPacket.SetTreeId` | src/main/java/org/filesys/client/SMBPacket.java:1403-1405 | stores 16 bits, which getTreeId returns |
| `Client.SMBPacket.SetUserId` | src/main/java/org/filesys/client/SMBPacket.java:1412-1414 | stores 16 bits, which getUserId returns |
| `Client.SMBPacket.SetSignatureInt` | src/main/java/org/filesys/client/SMBPacket.java:1374-1377 | four value bytes and four zero bytes; getSignature then gives the value's unsigned 32 bits |
| `Client.SMBPacket.SetSignatureLong` | src/main/java/org/filesys/client/SMBPacket.java:1384-1386 | eight value bytes; getSignature then gives the value |
| `Client.SMBPacket.SetSignatureBytes` | src/main/java/org/filesys/client/SMBPacket.java:1394-1396 | copies the 8 bytes of the array from offset on into the signature field |
| `Client.SMBPacket.SetAndXCommand` | src/main/java/org/filesys/client/SMBPacket.java:1198-1209 | stores the AndX command byte and a zero reserved byte, and zeroes parameter 1 when no command is chained |
| `Client.SMBPacket.SetParameterCount` | src/main/java/org/filesys/client/SMBPacket.java:1338-1340 | stores the low byte; the count reads back equal exactly when -128 <= c < 128 |
| `Client.SMBPacket.SetParameter` | src/main/java/org/filesys/client/SMBPacket.java:1316-1319 | stores 16 bits at word idx without checking idx against the count |
| `Client.SMBPacket.SetParameterLong` | src/main/java/org/filesys/client/SMBPacket.java:1328-1331 | stores 32 bits at word idx, which getParameterLong returns |
| `Client.SMBPacket.SetByteCount` | src/main/java/org/filesys/client/SMBPacket.java:1216-1219 | stores the count two bytes before the byte offset; for a word count other than -1 the byte count reads it back mod 2^16 |
| `Client.SMBPacket.ClearBytes` | src/main/java/org/filesys/client/SMBPacket.java:177-180 | stores a zero byte count; for a word count other than -1 the byte count then reads 0 |
| `Client.SMBPacket.SetByteCountFromPosition` | src/main/java/org/filesys/client/SMBPacket.java:1225-1229 | stores pos - byteOffset as the byte count |
| `Client.SMBPacket.SetBytes` | src/main/java/org/filesys/client/SMBPacket.java:1236-1244 | the count, then the loop copying the data byte by byte, leave the buffer equal to `WithBytes` of the old one |
| `Client.SMBPacket.PackByte` | src/main/java/org/filesys/client/SMBPacket.java:815-826 | stores the low byte at pos and advances pos by 1 |
| `Client.SMBPacket.PackBytes` | src/main/java/org/filesys/client/SMBPacket.java:834-837 | copies the first len bytes to pos and advances pos by len |
| `Client.SMBPacket.PackWord` | src/main/java/org/filesys/client/SMBPacket.java:871-874 | stores 16 bits at pos, which read back at the old pos, and advances pos by 2 |
| `Client.SMBPacket.PackInt` | src/main/java/org/filesys/client/SMBPacket.java:881-884 | stores 32 bits at pos, which read back at the old pos, and advances pos by 4 |
| `Client.SMBPacket.PackLong` | src/main/java/org/filesys/client/SMBPacket.java:891-894 | stores 64 bits at pos, which read back at the old pos, and advances pos by 8 |
| `Client.SMBPacket.PackString` | src/main/java/org/filesys/client/SMBPacket.java:845-864 | ASCII: the string and a NUL at pos, pos += len+1. Unicode: pos is word-aligned first, then UTF-16LE and a NUL word, pos += 2*len+2 |
| `Client.SMBPacket.UnpackByte` | src/main/java/org/filesys/client/SMBPacket.java:919-921 | returns the byte at pos sign-extended, and advances pos by 1 |
| `Client.SMBPacket.UnpackBytes` | src/main/java/org/filesys/client/SMBPacket.java:929-937 | no result and no move for len <= 0; otherwise the len bytes at pos, and pos += len |
| `Client.SMBPacket.UnpackWord` | src/main/java/org/filesys/client/SMBPacket.java:944-948 | returns the unsigned 16-bit value at pos, and advances pos by 2 |
| `Client.SMBPacket.UnpackInt` | src/main/java/org/filesys/client/SMBPacket.java:955-959 | returns the signed 32-bit value at pos, and advances pos by 4 |
| `Client.SMBPacket.UnpackLong` | src/main/java/org/filesys/client/SMBPacket.java:966-970 | returns the signed 64-bit value at pos, and advances pos by 8 |
| `Client.SMBPacket.UnpackString` | src/main/java/org/filesys/client/SMBPacket.java:978-1005 | the string of at most 255 units at pos (word-aligned first for Unicode), with pos moved past it and its terminator |
| `Client.SMBPacket.UnpackStringLen` | src/main/java/org/filesys/client/SMBPacket.java:1014-1041 | the string of at most len units at pos (word-aligned first for Unicode), with pos moved past its units only |
| `Client.SMBPacket.SetPosition` | src/main/java/org/filesys/client/SMBPacket.java:910-912 | sets pos |
| `Client.SMBPacket.AlignBytePointer` | src/main/java/org/filesys/client/SMBPacket.java:1419-1421 | rounds pos up to a multiple of 4 |
| `Client.SMBPacket.ResetBytePointer` | src/main/java/org/filesys/client/SMBPacket.java:1426-1429 | pos is the byte offset and endpos is pos + byte count, so there is more data exactly when the byte count is not 0 |
| `Client.SMBPacket.ResetBytePointerAlign` | src/main/java/org/filesys/client/SMBPacket.java:1435-1438 | pos is the longword-aligned byte offset and endpos is pos + byte count, so there is more data exactly when the byte count is not 0 |
| `Client.SMBPacket.ResetParameterPointer` | src/main/java/org/filesys/client/SMBPacket.java:1443-1445 | pos is the first parameter word |
| `Client.SMBPacket.SetBytePointer` | src/main/java/org/filesys/client/SMBPacket.java:1453-1456 | pos is off and endpos is off + len, so there is more data exactly when len > 0 |
| `Client.SMBPacket.HasMoreData` | src/main/java/org/filesys/client/SMBPacket.java:1048-1052 | true only while the unpack cursor lies before the end of the area the last pointer reset marked out |
| `Client.SMBPacket.SkipBytes` | src/main/java/org/filesys/client/SMBPacket.java:1463-1465 | advances pos by cnt |
| `Client.SMBPacket.PrepareRequest` | src/main/java/org/filesys/client/SMBPacket.java:380-400 | the request after the ids are set and, when the session signs, after signing; the byte count stays readable |
| `Client.SMBPacket.AwaitResponse` | src/main/java/org/filesys/client/SMBPacket.java:407-447 | the receive loop ends in the state `Await` gives for the frames and the receive buffer, and logs each diverted buffer in order |
| `Client.SMBPacket.ExchangeSMB` | src/main/java/org/filesys/client/SMBPacket.java:377-452 | the full exchange. One send of the prepared request, `getLength()` bytes. The loop result is `Await` (lenient). On a match the request is verified when signing and receive-signing are on, then checkForError runs when throwerr. Both look at this packet, which holds the response only when rxPkt is this packet |
| `Client.SMBPacket.ExchangeLowLevelSMB` | src/main/java/org/filesys/client/SMBPacket.java:306-350 | the multiplex id is set, one send, one receive. A frame that is short or for another command fails with "Invalid SMB Receive Packet"; a matching one is error-checked when throwerr |
| `Client.SMBPacket.ReceiveSMB` | src/main/java/org/filesys/client/SMBPacket.java:1077-1131 | the loop result is `Await` (strict). A short frame fails with "Short NetBIOS receive"; a match is verified and error-checked as in ExchangeSMB |
| `Client.SMBPacket.ReceiveAsynchSMB` | src/main/java/org/filesys/client/SMBPacket.java:1141-1163 | sets the timeout and receives one frame. A long frame is passed on whatever its command; a short one fails with "Short NetBIOS receive" |
| `Client.SMBPacket.SendSMB` | src/main/java/org/filesys/client/SMBPacket.java:1171-1191 | records the send time, signs when the session signs, then sends `getLength()` bytes of the (signed) buffer |

## Left out

- `DumpPacket` and the debug output of every method: logging only.
- The signing and verifying algorithms, with the sequence-number state they keep. A session carries them as two functions: the 8-byte signature of a buffer, and whether a received buffer verifies. A failed verification is the failure `SigningFailure`.
- `SessionFactory.isReceivedSMBSigningEnabled`: a `rxSigning` flag of the session.
- Socket I/O:
  - A send never fails.
  - The timeout only records its value; a receive never times out.
  - The transport delivers a finite sequence of frames, and the receive after the last one fails.
- `System.currentTimeMillis` in `SendSMB`: the time is a parameter.
- Java `int` overflow of positions, offsets and counts: values are unbounded integers. Values stored into the buffer are truncated explicitly.
- Array-bounds exceptions of the getters, setters and pack/unpack methods, and of the sized constructor (`OfSize` requires room for the four signature bytes, where `new SMBPacket(siz)` would throw in InitializeBuffer): the methods require their slots to be inside the buffer. `getParameter`'s own index check is modelled.
- `setBytes` when its argument is the packet's own buffer: the data is a value.
- The overloads `ExchangeSMB(sess, rxPkt)` and `ReceiveSMB(sess)`: they only pass `throwerr = false` and `throwErr = true` to the methods modelled.
- GetUnicodeString: its own contract does not say where the read stops. Stated inside the function, that clause makes the proofs about it too costly for the verifier. The lemma `UnicodeStops` proves it for every input.
- `packByte(byte)`: it stores the same bits as `packByte(int)`, which is modelled.
- Java strings: strings are sequences of UTF-16 code units. ASCII packing stores the low byte of each unit. The null results of the string readers do not occur in the model; a read stops at the end of the buffer.
- `processAsynchResponse`: recorded in the log with the buffer it was given; what the session does with it is not modelled.
- `FileServer`, `DefaultShareMapper` and `NetBIOSSMBChannelSessionHandler`: server lifecycle and channel plumbing.
- `synchronized` on the exchange methods: the model is sequential.

## Findings

| source | as written | input that shows it | evidently intended | confidence | as-written member | corrected member |
|---|---|---|---|---|---|---|
| src/main/java/org/filesys/client/SMBPacket.java:1472-1544 | a non-zero flags value gets its last character cut by `str.setLength(str.length() - 1)`, even when no named bit was appended | flags 0x02 (or flags2 0x0008): the buffer is empty, and `setLength(-1)` throws | a text for every flag value: the joined names, empty when only unnamed bits are set | medium, not executed | `FlagText.AsWrittenFails` (on `FlagText.FlagsTextAsWritten`), `FlagText.UnnamedBitsThrow` | `FlagText.FlagsText` |
