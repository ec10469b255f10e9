/** The SMB1 packet layout: the field offsets of the SMB header ([MS-CIFS]
    section 2.2.3.1), the parameter block (2.2.3.2) and the data block
    (2.2.3.3), all placed after the 4-byte NetBIOS session header of RFC 1002
    section 4.3.1; and the header getters and the error/status model, as pure
    functions of the buffer contents. */
module SMBHeader {
  import opened DataPacker

  /** Length of the transport (NetBIOS session service) header. */
  const H := 4

  const SMBHEADER := H
  const COMMAND := 4 + H
  const ERRORCODE := 5 + H
  const ERRORCLASS := 5 + H
  const ERROR := 7 + H
  const FLAGS := 9 + H
  const FLAGS2 := 10 + H
  const PIDHIGH := 12 + H
  const SIGNATURE := 14 + H
  const SID := 18 + H
  const SEQNO := 20 + H
  const TID := 24 + H
  const PID := 26 + H
  const UID := 28 + H
  const MID := 30 + H
  const WORDCNT := 32 + H
  const ANDXCOMMAND := 33 + H
  const ANDXRESERVED := 34 + H
  const PARAMWORDS := 33 + H

  const MIN_RXLEN := 32
  const DEFAULT_BUFSIZE := 4096

  const FLG_SUBDIALECT := 0x01
  const FLG_CASELESS := 0x08
  const FLG_CANONICAL := 0x10
  const FLG_OPLOCK := 0x20
  const FLG_NOTIFY := 0x40
  const FLG_RESPONSE := 0x80

  const FLG2_LONGFILENAMES := 0x0001
  const FLG2_EXTENDEDATTRIB := 0x0002
  const FLG2_SECURITYSIG := 0x0004
  const FLG2_EXTENDEDSETUP := 0x0800
  const FLG2_READIFEXE := 0x2000
  const FLG2_LONGERRORCODE := 0x4000
  const FLG2_UNICODE := 0x8000

  /** The protocol's success values: error code 0 (SUCCESS) and the 32-bit
      status STATUS_SUCCESS, which is also 0. */
  const Success := 0
  const NTSuccess := 0

  /** AndX command value meaning "no further chained command". */
  const NoChainedCommand := 0xFF

  /** The signature at the start of every SMB1 header: 0xFF 'S' 'M' 'B'. */
  const PROTOCOL_ID: seq<byte> := [0xFF, 0x53, 0x4D, 0x42]

  /** The exceptions the packet class throws, one case per kind. */
  datatype Failure =
    | SMBError(errClass: int, errCode: int)   // SMBException(class, code)
    | NTError(status: int)                    // SMBException(NTErr, status)
    | IndexOutOfBounds
    | IOError(msg: string)
    | TransportClosed                         // the socket read failed
    | SigningFailure                          // the received signature did not verify

  datatype Outcome = Pass | Fail(failure: Failure)

  datatype Result<T> = Ok(value: T) | Err(failure: Failure)

  /** `(v & mask) != 0` for a single-bit mask and a non-negative value. */
  predicate HasBit(v: int, mask: nat)
    requires mask > 0
  {
    (v / mask) % 2 == 1
  }

  // ---------------------------------------------------------------------
  // Fixed header fields

  function Command(s: seq<byte>): byte
    requires COMMAND < |s|
  {
    s[COMMAND]
  }

  function ErrorClass(s: seq<byte>): byte
    requires ERRORCLASS < |s|
  {
    s[ERRORCLASS]
  }

  function ErrorCode(s: seq<byte>): byte
    requires ERROR < |s|
  {
    s[ERROR]
  }

  function LongErrorCode(s: seq<byte>): int32
    requires ERRORCODE + 4 <= |s|
  {
    GetIntelInt(s, ERRORCODE)
  }

  function Flags(s: seq<byte>): byte
    requires FLAGS < |s|
  {
    s[FLAGS]
  }

  function Flags2(s: seq<byte>): nat
    requires FLAGS2 + 2 <= |s|
  {
    GetIntelShort(s, FLAGS2)
  }

  function Signature(s: seq<byte>): int64
    requires SIGNATURE + 8 <= |s|
  {
    GetIntelLong(s, SIGNATURE)
  }

  function TreeId(s: seq<byte>): nat
    requires TID + 2 <= |s|
  {
    GetIntelShort(s, TID)
  }

  function ProcessId(s: seq<byte>): nat
    requires PID + 2 <= |s|
  {
    GetIntelShort(s, PID)
  }

  function UserId(s: seq<byte>): nat
    requires UID + 2 <= |s|
  {
    GetIntelShort(s, UID)
  }

  function MultiplexId(s: seq<byte>): nat
    requires MID + 2 <= |s|
  {
    GetIntelShort(s, MID)
  }

  function AndXCommand(s: seq<byte>): byte
    requires ANDXCOMMAND < |s|
  {
    s[ANDXCOMMAND]
  }

  function BufferLength(s: seq<byte>): int
  {
    |s| - H
  }

  // ---------------------------------------------------------------------
  // Flag predicates

  predicate IsResponse(s: seq<byte>)
    requires FLAGS < |s|
  {
    HasBit(Flags(s), FLG_RESPONSE)
  }

  predicate IsRequest(s: seq<byte>)
    requires FLAGS < |s|
  {
    (Flags(s) / FLG_RESPONSE) % 2 == 0
  }

  predicate IsCaseless(s: seq<byte>)
    requires FLAGS < |s|
  {
    HasBit(Flags(s), FLG_CASELESS)
  }

  /** isLongErrorCode, and hasLongErrorCode, which tests the same bit. */
  predicate IsLongErrorCode(s: seq<byte>)
    requires FLAGS2 + 2 <= |s|
  {
    HasBit(Flags2(s), FLG2_LONGERRORCODE)
  }

  predicate HasSecuritySignature(s: seq<byte>)
    requires FLAGS2 + 2 <= |s|
  {
    HasBit(Flags2(s), FLG2_SECURITYSIG)
  }

  predicate HasExtendedSetup(s: seq<byte>)
    requires FLAGS2 + 2 <= |s|
  {
    HasBit(Flags2(s), FLG2_EXTENDEDSETUP)
  }

  predicate IsUnicode(s: seq<byte>)
    requires FLAGS2 + 2 <= |s|
  {
    HasBit(Flags2(s), FLG2_UNICODE)
  }

  predicate IsLongFileNames(s: seq<byte>)
    requires FLAGS2 + 2 <= |s|
  {
    HasBit(Flags2(s), FLG2_LONGFILENAMES)
  }

  lemma RequestIsNotResponse(s: seq<byte>)
    requires FLAGS < |s|
    ensures IsRequest(s) <==> !IsResponse(s)
  {
  }

  /** A bit of the high byte of a little-endian 16-bit value. */
  lemma HighByteBit(lo: int, hi: int, m: int)
    requires 0 <= lo < 256 && 0 <= hi && m > 0
    ensures (lo + 256 * hi) / (256 * m) == hi / m
  {
    var q, r := hi / m, hi % m;
    assert lo + 256 * hi == q * (256 * m) + (256 * r + lo);
    ModUnique(lo + 256 * hi, 256 * m, q, 256 * r + lo);
  }

  /** Bit 1 or bit 4 of a little-endian 16-bit value lies in its low byte. */
  lemma LowByteBit(lo: int, hi: int, m: int)
    requires 0 <= lo < 256 && 0 <= hi && (m == 1 || m == 4)
    ensures ((lo + 256 * hi) / m) % 2 == (lo / m) % 2
  {
    var q, r := lo / m, lo % m;
    ModUnique(lo + 256 * hi, m, q + (256 / m) * hi, r);
    ModUnique(q + (256 / m) * hi, 2, q / 2 + (128 / m) * hi, q % 2);
  }

  /** The header fields as they sit on the wire: the 16-bit ones low byte
      first, the one-byte ones at their own offset. */
  lemma HeaderFieldLayout(s: seq<byte>)
    requires WORDCNT < |s|
    ensures ANDXCOMMAND < |s| ==>
      Command(s) == s[COMMAND] && ErrorClass(s) == s[ERRORCLASS] &&
      ErrorCode(s) == s[ERROR] && Flags(s) == s[FLAGS] &&
      AndXCommand(s) == s[ANDXCOMMAND]
    ensures Flags2(s) == s[FLAGS2] as int + 256 * s[FLAGS2 + 1] as int
    ensures TreeId(s) == s[TID] as int + 256 * s[TID + 1] as int
    ensures ProcessId(s) == s[PID] as int + 256 * s[PID + 1] as int
    ensures UserId(s) == s[UID] as int + 256 * s[UID + 1] as int
    ensures MultiplexId(s) == s[MID] as int + 256 * s[MID + 1] as int
    ensures ByteCountReadable(s) ==>
      ByteCount(s) == s[ByteOffset(s) - 2] as int + 256 * s[ByteOffset(s) - 1] as int
  {
    ShortBytes(s, FLAGS2);
    ShortBytes(s, TID);
    ShortBytes(s, PID);
    ShortBytes(s, UID);
    ShortBytes(s, MID);
    if ByteCountReadable(s) {
      ShortBytes(s, ByteCountPos(s));
    }
  }

  /** The byte of the header that holds each flag a predicate tests: the
      response bit is the top bit of flags; long file names and security
      signatures are in the low byte of flags2, extended setup, long error
      codes and Unicode in its high byte. */
  lemma FlagBitsLayout(s: seq<byte>)
    requires FLAGS2 + 2 <= |s|
    ensures IsResponse(s) <==> s[FLAGS] >= 0x80
    ensures IsLongFileNames(s) <==> s[FLAGS2] % 2 == 1
    ensures HasSecuritySignature(s) <==> (s[FLAGS2] / 4) % 2 == 1
    ensures HasExtendedSetup(s) <==> (s[FLAGS2 + 1] / 8) % 2 == 1
    ensures IsLongErrorCode(s) <==> (s[FLAGS2 + 1] / 0x40) % 2 == 1
    ensures IsUnicode(s) <==> s[FLAGS2 + 1] >= 0x80
  {
    var lo: int, hi: int := s[FLAGS2], s[FLAGS2 + 1];
    ShortBytes(s, FLAGS2);
    LowByteBit(lo, hi, 1);
    LowByteBit(lo, hi, 4);
    HighByteBit(lo, hi, 8);
    HighByteBit(lo, hi, 0x40);
    HighByteBit(lo, hi, 0x80);
  }

  // ---------------------------------------------------------------------
  // Parameter block and data block: every offset is recomputed from the
  // word-count byte

  /** getParameterCount: the word-count byte read as a signed Java byte. */
  function ParameterCount(s: seq<byte>): (r: int)
    requires WORDCNT < |s|
    ensures -128 <= r < 128 && r % 256 == s[WORDCNT]
    ensures r < 0 <==> s[WORDCNT] >= 0x80
  {
    SignedByte(s[WORDCNT])
  }

  /** getByteOffset: the data block follows the declared parameter words and
      the 2-byte byte count. */
  function ByteOffset(s: seq<byte>): (r: int)
    requires WORDCNT < |s|
    ensures r == ParamPos(ParameterCount(s)) + 2
    ensures r == ByteCountPos(s) + 2
  {
    WORDCNT + 2 * ParameterCount(s) + 3
  }

  /** Offset of the byte-count field, as getByteCount computes it. */
  function ByteCountPos(s: seq<byte>): int
    requires WORDCNT < |s|
  {
    PARAMWORDS + 2 * ParameterCount(s)
  }

  predicate ByteCountReadable(s: seq<byte>)
  {
    WORDCNT < |s| && 0 <= ByteCountPos(s) && ByteCountPos(s) + 2 <= |s|
  }

  /** getByteCount: the unsigned 16-bit word just before the byte offset. */
  function ByteCount(s: seq<byte>): (r: nat)
    requires ByteCountReadable(s)
    ensures r < 0x1_0000
  {
    GetIntelShort(s, ByteCountPos(s))
  }

  /** getLength: the bytes after the transport header that the packet uses. */
  function Length(s: seq<byte>): (r: int)
    requires ByteCountReadable(s)
    ensures ByteOffset(s) - H <= r < ByteOffset(s) - H + 0x1_0000
    ensures ParameterCount(s) >= 0 ==> r >= WORDCNT + 3 - H
  {
    ByteOffset(s) + ByteCount(s) - H
  }

  /** getAvailableLength: the room from the longword-aligned byte offset to
      the end of the buffer. */
  function AvailableLength(s: seq<byte>): (r: int)
    requires WORDCNT < |s|
    ensures |s| - ByteOffset(s) - 3 <= r <= |s| - ByteOffset(s)
    ensures (|s| - r) % 4 == 0
  {
    |s| - LongwordAlign(ByteOffset(s))
  }

  /** The byte-count slot that getByteCount reads is the one that setByteCount
      writes, two bytes before the byte area, whatever the word count. */
  lemma ByteCountSlot(s: seq<byte>)
    requires WORDCNT < |s|
    ensures ByteCountPos(s) == ByteOffset(s) - 2
  {
  }

  /** Offset of parameter word i. */
  function ParamPos(i: int): int
  {
    WORDCNT + 2 * i + 1
  }

  predicate ParamInBounds(s: seq<byte>, i: int)
  {
    0 <= ParamPos(i) && ParamPos(i) + 2 <= |s|
  }

  /** Parameter word i, unchecked (the read that getParameter performs). */
  function ParamWord(s: seq<byte>, i: int): nat
    requires ParamInBounds(s, i)
  {
    GetIntelShort(s, ParamPos(i))
  }

  /** getParameter: refuses only an index above the count, so the slot just
      past the last declared parameter word is readable. */
  function Parameter(s: seq<byte>, idx: int): (r: Result<int>)
    requires WORDCNT < |s|
    requires idx <= ParameterCount(s) ==> ParamInBounds(s, idx)
    ensures r.Err? <==> idx > ParameterCount(s)
    ensures r.Err? ==> r.failure == IndexOutOfBounds
    ensures r.Ok? ==> 0 <= r.value < 0x1_0000 && r.value == ParamWord(s, idx)
  {
    if idx > ParameterCount(s) then Err(IndexOutOfBounds)
    else Ok(ParamWord(s, idx))
  }

  /** getParameterLong: a signed 32-bit read at parameter word idx, unchecked. */
  function ParameterLong(s: seq<byte>, idx: int): (r: int32)
    requires ParamInBounds(s, idx) && ParamPos(idx) + 4 <= |s|
    ensures r % 0x1_0000 == ParamWord(s, idx)
    ensures (r / 0x1_0000) % 0x1_0000 == ParamWord(s, idx + 1)
  {
    Pow256Values();
    IntWords(s, ParamPos(idx));
    GetIntelInt(s, ParamPos(idx))
  }

  /** A parameter write at index i (0 <= i) reads back as the value's low
      16 bits, leaves the word count and every other parameter word as they
      were. */
  lemma SetParameterSpec(s: seq<byte>, i: int, v: int)
    requires WORDCNT < |s| && 0 <= i && ParamInBounds(s, i)
    ensures var t := Put(s, ParamPos(i), LE(v, 2));
      && ParameterCount(t) == ParameterCount(s)
      && ParamWord(t, i) == v % 0x1_0000
      && (i <= ParameterCount(s) ==> Parameter(t, i) == Ok(v % 0x1_0000))
      && (forall j :: j != i && ParamInBounds(s, j) ==> ParamWord(t, j) == ParamWord(s, j))
  {
    var t := Put(s, ParamPos(i), LE(v, 2));
    assert t[WORDCNT] == s[WORDCNT];
    ShortRoundTrip(s, ParamPos(i), v);
    forall j | j != i && ParamInBounds(s, j)
      ensures ParamWord(t, j) == ParamWord(s, j)
    {
      GetAcrossPut(s, ParamPos(i), LE(v, 2), ParamPos(j), 2);
    }
  }

  /** setParameterCount: the count reads back unchanged exactly for the values
      a signed byte can hold; 128..255 read back negative. */
  lemma SetParameterCountSpec(s: seq<byte>, c: int)
    requires WORDCNT < |s|
    ensures var t := s[WORDCNT := c % 256];
      && ParameterCount(t) == SignedByte(c % 256)
      && (ParameterCount(t) == c <==> -128 <= c < 128)
      && ByteOffset(t) == WORDCNT + 2 * SignedByte(c % 256) + 3
  {
    var t := s[WORDCNT := c % 256];
    if -128 <= c < 0 {
      ModUnique(c, 256, -1, c + 256);
    } else if 0 <= c < 128 {
      ModUnique(c, 256, 0, c);
    }
  }

  /** A byte-count write reads back modulo 2^16 and moves nothing, unless the
      word-count byte is 0xFF: then the slot covers the word count itself. */
  lemma SetByteCountSpec(s: seq<byte>, n: int)
    requires ByteCountReadable(s) && ParameterCount(s) != -1
    ensures var t := Put(s, ByteOffset(s) - 2, LE(n, 2));
      && ParameterCount(t) == ParameterCount(s)
      && ByteOffset(t) == ByteOffset(s)
      && ByteCountReadable(t)
      && ByteCount(t) == n % 0x1_0000
      && Length(t) == ByteOffset(s) + n % 0x1_0000 - H
  {
    var t := Put(s, ByteOffset(s) - 2, LE(n, 2));
    assert t[WORDCNT] == s[WORDCNT];
    ShortRoundTrip(s, ByteOffset(s) - 2, n);
  }

  /** Writing the data block leaves the word count, the byte offset and the
      byte count as they were, for a non-negative word count. */
  lemma PutDataSpec(u: seq<byte>, b: seq<byte>)
    requires ByteCountReadable(u) && ParameterCount(u) >= 0
    requires ByteOffset(u) + |b| <= |u|
    ensures var t := Put(u, ByteOffset(u), b);
      && ByteCountReadable(t)
      && ByteOffset(t) == ByteOffset(u)
      && ByteCount(t) == ByteCount(u)
      && t[..ByteOffset(u)] == u[..ByteOffset(u)]
      && t[..ByteOffset(u) - 2] == u[..ByteOffset(u) - 2]
  {
    var o := ByteOffset(u);
    var t := Put(u, o, b);
    assert t[WORDCNT] == u[WORDCNT];
    assert t[o - 2..o] == u[o - 2..o] by {
      assert t[o - 2..o] == t[..o][o - 2..o];
      assert u[o - 2..o] == u[..o][o - 2..o];
    }
    assert t[..o - 2] == t[..o][..o - 2];
    assert u[..o - 2] == u[..o][..o - 2];
  }

  /** setBytes with the byte-count slot written as the two bytes w. */
  lemma PutCountAndData(s: seq<byte>, w: seq<byte>, b: seq<byte>)
    requires ByteCountReadable(s) && |w| == 2 && ByteOffset(s) + |b| <= |s|
    ensures Put(Put(s, ByteOffset(s) - 2, w), ByteOffset(s), b)[..ByteOffset(s) - 2] == s[..ByteOffset(s) - 2]
    ensures ParameterCount(s) >= 0 ==>
      ByteCountReadable(Put(Put(s, ByteOffset(s) - 2, w), ByteOffset(s), b))
    ensures ParameterCount(s) >= 0 ==>
      ByteOffset(Put(Put(s, ByteOffset(s) - 2, w), ByteOffset(s), b)) == ByteOffset(s)
    ensures ParameterCount(s) >= 0 ==>
      ByteCount(Put(Put(s, ByteOffset(s) - 2, w), ByteOffset(s), b)) == FromLE(w)
  {
    var o := ByteOffset(s);
    var u := Put(s, o - 2, w);
    var t := Put(u, o, b);
    assert t[..o - 2] == t[..o][..o - 2];
    if ParameterCount(s) >= 0 {
      assert u[WORDCNT] == s[WORDCNT];
      assert ByteCount(u) == FromLE(w);
      PutDataSpec(u, b);
    }
  }

  /** setBytes: the buffer after the data b is stored at the byte offset
      (computed once, before either write) behind its length. The data sits
      at that offset and nothing before the byte-count slot changes; for a
      non-negative word count the byte offset has not moved and the byte count
      is the length of the data modulo 2^16. (With a negative word count the
      writes can cover the word-count byte itself.) */
  function WithBytes(s: seq<byte>, b: seq<byte>): (t: seq<byte>)
    requires ByteCountReadable(s) && ByteOffset(s) + |b| <= |s|
    ensures |t| == |s|
    ensures t[ByteOffset(s)..ByteOffset(s) + |b|] == b
    ensures t[..ByteOffset(s) - 2] == s[..ByteOffset(s) - 2]
    ensures t[ByteOffset(s) + |b|..] == s[ByteOffset(s) + |b|..]
    ensures ParameterCount(s) >= 0 ==>
      ByteCountReadable(t) && ByteOffset(t) == ByteOffset(s) && ByteCount(t) == |b| % 0x1_0000
  {
    LERoundTrip(|b|, 2);
    Pow256Values();
    PutCountAndData(s, LE(|b|, 2), b);
    Put(Put(s, ByteOffset(s) - 2, LE(|b|, 2)), ByteOffset(s), b)
  }

  /** WithBytes is the two stores setBytes makes: the count, then the data. */
  lemma WithBytesIsPut(s: seq<byte>, b: seq<byte>)
    requires ByteCountReadable(s) && ByteOffset(s) + |b| <= |s|
    ensures WithBytes(s, b) == Put(Put(s, ByteOffset(s) - 2, LE(|b|, 2)), ByteOffset(s), b)
  {
  }

  // ---------------------------------------------------------------------
  // Error/status model

  /** The two readings of header bytes 5..8, chosen by the flags2 long-error bit. */
  datatype Status = DOSStatus(errClass: int, errCode: int) | NTStatus(code: int)

  predicate StatusReadable(s: seq<byte>)
  {
    FLAGS2 + 2 <= |s|
  }

  function ErrorStatus(s: seq<byte>): Status
    requires StatusReadable(s)
  {
    if IsLongErrorCode(s) then NTStatus(LongErrorCode(s))
    else DOSStatus(ErrorClass(s), ErrorCode(s))
  }

  /** Success of a status: in the legacy form only the error code is compared,
      the error class is not. */
  predicate StatusIsSuccess(st: Status)
  {
    match st
    case DOSStatus(_, code) => code == Success
    case NTStatus(code) => code == NTSuccess
  }

  function StatusFailure(st: Status): Failure
  {
    match st
    case DOSStatus(cl, code) => SMBError(cl, code)
    case NTStatus(code) => NTError(code)
  }

  /** isValidResponse: only a response to the cached command can be valid. */
  predicate IsValidResponse(s: seq<byte>, pkttype: int)
    requires StatusReadable(s)
    ensures IsValidResponse(s, pkttype) ==> IsResponse(s) && Command(s) == pkttype
  {
    if IsResponse(s) && Command(s) == pkttype then
      if (Flags2(s) / FLG2_LONGERRORCODE) % 2 == 0 then ErrorCode(s) == Success
      else LongErrorCode(s) == NTSuccess
    else false
  }

  /** checkForError: passes the valid responses; otherwise the exception
      carries the 32-bit status exactly when the long-error bit is set. */
  function CheckForError(s: seq<byte>, pkttype: int): (r: Outcome)
    requires StatusReadable(s)
    ensures r.Pass? <==> IsValidResponse(s, pkttype)
    ensures r.Fail? ==> (r.failure.NTError? <==> IsLongErrorCode(s))
  {
    if !IsValidResponse(s, pkttype) then
      if IsLongErrorCode(s) then Fail(NTError(LongErrorCode(s)))
      else Fail(SMBError(ErrorClass(s), ErrorCode(s)))
    else Pass
  }

  /** equalsError: for a legacy status, the decoded class and code match. */
  function EqualsError(s: seq<byte>, errClass: int, errCode: int): (r: bool)
    requires ERROR < |s|
    ensures StatusReadable(s) && !IsLongErrorCode(s) ==>
      (r <==> ErrorStatus(s) == DOSStatus(errClass, errCode))
  {
    ErrorClass(s) == errClass && ErrorCode(s) == errCode
  }

  /** isValidResponse in terms of the decoded status: a valid response is a
      response to the expected command whose status, in the form the
      long-error bit selects, is success. */
  lemma ValidResponseSpec(s: seq<byte>, pkttype: int)
    requires StatusReadable(s)
    ensures IsValidResponse(s, pkttype) <==>
      IsResponse(s) && Command(s) == pkttype && StatusIsSuccess(ErrorStatus(s))
  {
  }

  /** checkForError passes a valid response, and fails any other packet with
      the status it carries, in the form the long-error bit selects. */
  lemma CheckForErrorSpec(s: seq<byte>, pkttype: int)
    requires StatusReadable(s)
    ensures CheckForError(s, pkttype) ==
      if IsValidResponse(s, pkttype) then Pass else Fail(StatusFailure(ErrorStatus(s)))
    ensures CheckForError(s, pkttype).Fail? <==> !IsValidResponse(s, pkttype)
  {
  }

  /** Class and code of a legacy status as written by setErrorClass and setErrorCode. */
  lemma SetErrorSpec(s: seq<byte>, cl: int, code: int)
    requires StatusReadable(s)
    ensures var t := s[ERRORCLASS := cl % 256][ERROR := code % 256];
      && EqualsError(t, cl % 256, code % 256)
      && (!IsLongErrorCode(s) ==> ErrorStatus(t) == DOSStatus(cl % 256, code % 256))
  {
    var t := s[ERRORCLASS := cl % 256][ERROR := code % 256];
    assert t[FLAGS2..FLAGS2 + 2] == s[FLAGS2..FLAGS2 + 2];
  }

  /** The long status overlaps the legacy fields: writing a 32-bit status sets
      the error class to its lowest byte and the error code to its third byte. */
  lemma LongErrorOverlap(s: seq<byte>, x: int32)
    requires ERRORCODE + 4 <= |s|
    ensures var t := Put(s, ERRORCODE, LE(x, 4));
      && LongErrorCode(t) == x
      && ErrorClass(t) == x % 256
      && ErrorCode(t) == (x / 0x1_0000) % 256
  {
    var t := Put(s, ERRORCODE, LE(x, 4));
    IntRoundTrip(s, ERRORCODE, x);
    var w := LE(x, 4);
    assert w[0] == x % 256;
    assert w[2] == ((x / 256) / 256) % 256;
    var a := x / 256;
    var b := a / 256;
    assert x == b * 0x1_0000 + (256 * (a % 256) + x % 256);
    ModUnique(x, 0x1_0000, b, 256 * (a % 256) + x % 256);
    assert t[ERROR] == w[ERROR - ERRORCODE];
  }
}
