/** The client-side SMB1 packet: a byte buffer with its cached command code
    and its pack/unpack cursors, the setters and cursor methods that update it
    in place, and the send/receive exchanges over a session. */
module Client {
  import opened DataPacker
  import opened SMBHeader
  import opened ReceiveSpec

  datatype Option<T> = None | Some(value: T)

  /** What the transport and the session observe, in order. */
  datatype Event =
    | Sent(bytes: seq<byte>, len: int)        // Send(buffer, len)
    | TimeoutSet(ms: int)                     // setTimeout(ms)
    | VerifiedRx(bytes: seq<byte>)            // verifyRxPacket on a packet holding bytes
    | Diverted(bytes: seq<byte>)              // processAsynchResponse on a packet holding bytes

  /** The events for passing on each buffer of d as an asynchronous response. */
  function Diversions(d: seq<seq<byte>>): (r: seq<Event>)
    ensures |r| == |d|
    ensures forall i :: 0 <= i < |d| ==> r[i] == Diverted(d[i])
  {
    seq(|d|, i requires 0 <= i < |d| => Diverted(d[i]))
  }

  lemma DiversionsAppend(d: seq<seq<byte>>, x: seq<byte>)
    ensures Diversions(d + [x]) == Diversions(d) + [Diverted(x)]
  {
    assert Diversions(d + [x]) == Diversions(d) + [Diverted(x)];
  }

  // ---------------------------------------------------------------------
  // Request preparation

  /** The multiplex id set to 1 when it is 0. */
  function MidSet(s: seq<byte>): (r: seq<byte>)
    requires MID + 2 <= |s|
    ensures |r| == |s|
    ensures MultiplexId(r) == if MultiplexId(s) == 0 then 1 else MultiplexId(s)
    ensures forall i :: 0 <= i < |s| && !(MID <= i < MID + 2) ==> r[i] == s[i]
  {
    if MultiplexId(s) == 0 then
      ShortRoundTrip(s, MID, 1);
      Put(s, MID, LE(1, 2))
    else s
  }

  /** The request as ExchangeSMB prepares it: the session's process id and
      user id, and a multiplex id of 1 in place of 0. */
  function Prepare(s: seq<byte>, pid: int, uid: int): (r: seq<byte>)
    requires MID + 2 <= |s|
    ensures |r| == |s|
  {
    MidSet(Put(Put(s, PID, LE(pid, 2)), UID, LE(uid, 2)))
  }

  /** Prepare sets exactly the three id fields. */
  lemma PrepareFields(s: seq<byte>, pid: int, uid: int)
    requires MID + 2 <= |s|
    ensures var r := Prepare(s, pid, uid);
      && ProcessId(r) == pid % 0x1_0000
      && UserId(r) == uid % 0x1_0000
      && MultiplexId(r) == (if MultiplexId(s) == 0 then 1 else MultiplexId(s))
      && (forall i :: 0 <= i < |s| && !(PID <= i < MID + 2) ==> r[i] == s[i])
  {
    var t := Put(s, PID, LE(pid, 2));
    var u := Put(t, UID, LE(uid, 2));
    var r := MidSet(u);
    ShortRoundTrip(s, PID, pid);
    ShortRoundTrip(t, UID, uid);
    GetAcrossPut(t, UID, LE(uid, 2), PID, 2);
    GetAcrossPut(u, MID, LE(1, 2), PID, 2);
    GetAcrossPut(u, MID, LE(1, 2), UID, 2);
    GetAcrossPut(s, PID, LE(pid, 2), MID, 2);
    GetAcrossPut(t, UID, LE(uid, 2), MID, 2);
  }

  /** The buffer with the signature field holding the 8-byte value sig. */
  function SignedBuffer(s: seq<byte>, sig: int): (r: seq<byte>)
    requires SIGNATURE + 8 <= |s|
    ensures |r| == |s|
    ensures forall i :: 0 <= i < |s| && !(SIGNATURE <= i < SIGNATURE + 8) ==> r[i] == s[i]
    ensures -0x8000_0000_0000_0000 <= sig < 0x8000_0000_0000_0000 ==> Signature(r) == sig
  {
    if -0x8000_0000_0000_0000 <= sig < 0x8000_0000_0000_0000 then
      LongRoundTrip(s, SIGNATURE, sig);
      Put(s, SIGNATURE, LE(sig, 8))
    else Put(s, SIGNATURE, LE(sig, 8))
  }

  /** The request that ExchangeSMB sends: prepared, then signed when the
      session signs. Only the header fields below the word count change, so
      the word count, and with it the byte offset, are the caller's. */
  function Request(s: seq<byte>, pid: int, uid: int, signing: bool, signer: seq<byte> -> int): (r: seq<byte>)
    requires MID + 2 <= |s|
    ensures |r| == |s|
    ensures forall i :: 0 <= i < |s| && !(SIGNATURE <= i < MID + 2) ==> r[i] == s[i]
  {
    PrepareFields(s, pid, uid);
    var q := Prepare(s, pid, uid);
    if signing then SignedBuffer(q, signer(q)) else q
  }

  // ---------------------------------------------------------------------
  // The transport and the session

  /** A NetBIOS session: the frames still to be received, the receive
      timeout, and a log of what was sent and observed. */
  class NetworkSession {
    var inbox: seq<Frame>
    var timeout: int
    ghost var trace: seq<Event>

    constructor (frames: seq<Frame>)
      ensures inbox == frames && timeout == 0 && trace == []
    {
      inbox := frames;
      timeout := 0;
      trace := [];
    }

    /** Send len bytes of the SMB packet in a. */
    method Send(a: array<byte>, len: int)
      modifies this`trace
      ensures trace == old(trace) + [Sent(a[..], len)]
    {
      trace := trace + [Sent(a[..], len)];
    }

    /** Receive the next frame into a and return its length; fails when the
        transport has no more frames. */
    method Receive(a: array<byte>) returns (r: Result<int>)
      modifies this`inbox, a
      ensures old(inbox) == [] ==> r == Err(TransportClosed) && inbox == [] && a[..] == old(a[..])
      ensures old(inbox) != [] ==>
        && r == Ok(old(inbox)[0].len)
        && inbox == old(inbox)[1..]
        && a[..] == Overlay(old(a[..]), old(inbox)[0].data)
    {
      if inbox == [] {
        return Err(TransportClosed);
      }
      var f := inbox[0];
      inbox := inbox[1..];
      var n := if |f.data| < a.Length then |f.data| else a.Length;
      Write(a, 0, f.data[..n]);
      assert a[..] == Overlay(old(a[..]), f.data);
      return Ok(f.len);
    }

    method SetTimeout(ms: int)
      modifies this`timeout, this`trace
      ensures timeout == ms && trace == old(trace) + [TimeoutSet(ms)]
    {
      timeout := ms;
      trace := trace + [TimeoutSet(ms)];
    }
  }

  /** An SMB session: its network session, ids and signing settings. The
      signing and verifying algorithms are parameters: signer gives the
      8-byte signature of a packet, verifier says whether a received packet's
      signature is good. */
  class Session {
    const net: NetworkSession
    const pid: int
    const uid: int
    const signing: bool      // hasSMBSigning
    const rxSigning: bool    // received-packet signatures are checked
    const signer: seq<byte> -> int
    const verifier: seq<byte> -> bool

    constructor (net: NetworkSession, pid: int, uid: int, signing: bool, rxSigning: bool,
                 signer: seq<byte> -> int, verifier: seq<byte> -> bool)
      ensures this.net == net && this.pid == pid && this.uid == uid
      ensures this.signing == signing && this.rxSigning == rxSigning
      ensures this.signer == signer && this.verifier == verifier
    {
      this.net := net;
      this.pid := pid;
      this.uid := uid;
      this.signing := signing;
      this.rxSigning := rxSigning;
      this.signer := signer;
      this.verifier := verifier;
    }

    method SignTxPacket(pkt: SMBPacket)
      requires SIGNATURE + 8 <= pkt.buf.Length
      modifies pkt.buf
      ensures pkt.buf[..] == SignedBuffer(old(pkt.buf[..]), signer(old(pkt.buf[..])))
    {
      Write(pkt.buf, SIGNATURE, LE(signer(pkt.buf[..]), 8));
    }

    method VerifyRxPacket(pkt: SMBPacket) returns (ok: bool)
      modifies net`trace
      ensures ok == verifier(pkt.buf[..])
      ensures net.trace == old(net.trace) + [VerifiedRx(pkt.buf[..])]
    {
      net.trace := net.trace + [VerifiedRx(pkt.buf[..])];
      ok := verifier(pkt.buf[..]);
    }

    method ProcessAsynchResponse(pkt: SMBPacket)
      modifies net`trace
      ensures net.trace == old(net.trace) + [Diverted(pkt.buf[..])]
    {
      net.trace := net.trace + [Diverted(pkt.buf[..])];
    }
  }

  // ---------------------------------------------------------------------
  // Strings in the byte area

  /** Where packString stores a string and unpackString reads one: Unicode
      strings start at the next even offset. */
  function StringPos(p: int, uni: bool): int
  {
    if uni then WordAlign(p) else p
  }

  /** The NUL-terminated bytes packString stores. */
  function StringBytes(str: seq<int>, uni: bool): (r: seq<byte>)
    ensures |r| == if uni then 2 * |str| + 2 else |str| + 1
  {
    if uni then UnicodeZ(str) else AsciiZ(str)
  }

  /** The string unpackString reads at p (at most 255 units). */
  function UnpackedString(s: seq<byte>, p: int, uni: bool): seq<int>
    requires 0 <= p
  {
    if uni then GetUnicodeString(s, WordAlign(p), 255) else GetString(s, p, 255)
  }

  /** The position after unpackString read r at p: past the units and the terminator. */
  function StringEnd(p: int, r: seq<int>, uni: bool): int
  {
    if uni then WordAlign(p) + 2 * |r| + 2 else p + |r| + 1
  }

  /** A string without NUL units, of at most 255 units that fit the chosen
      width, reads back as stored, and the read advances the position exactly
      as far as the write did. */
  lemma StringRoundTrip(s: seq<byte>, p: int, str: seq<int>, uni: bool)
    requires 0 <= p && StringPos(p, uni) + |StringBytes(str, uni)| <= |s|
    requires |str| <= 255
    requires forall i :: 0 <= i < |str| ==> 0 < str[i] < (if uni then 0x1_0000 else 256)
    ensures var t := Put(s, StringPos(p, uni), StringBytes(str, uni));
      && UnpackedString(t, p, uni) == str
      && StringEnd(p, str, uni) == StringPos(p, uni) + |StringBytes(str, uni)|
  {
    var q := StringPos(p, uni);
    var t := Put(s, q, StringBytes(str, uni));
    if uni {
      UnicodeScan(t, q, str, 255);
    } else {
      AsciiScan(t, q, str, 255);
    }
  }

  // ---------------------------------------------------------------------
  // The packet

  /** The initial buffer of the sized constructors: zero bytes with the
      protocol signature after the transport header. */
  function InitialBuffer(n: nat): (r: seq<byte>)
    requires n >= SMBHEADER + 4
    ensures |r| == n && r[SMBHEADER..SMBHEADER + 4] == PROTOCOL_ID
    ensures forall i :: 0 <= i < n && !(SMBHEADER <= i < SMBHEADER + 4) ==> r[i] == 0
  {
    Put(seq(n, _ => 0), SMBHEADER, PROTOCOL_ID)
  }

  /** A new packet of at least header size has no parameter words and no data
      bytes, and its length is the 32-byte SMB header with the word count and
      the byte count. */
  lemma InitialLayout(n: nat)
    requires n >= WORDCNT + 3
    ensures var s := InitialBuffer(n);
      && Command(s) == 0 && Flags(s) == 0 && Flags2(s) == 0
      && ParameterCount(s) == 0 && ByteOffset(s) == WORDCNT + 3
      && ByteCountReadable(s) && ByteCount(s) == 0 && Length(s) == 35
  {
    var s := InitialBuffer(n);
    assert s[FLAGS2..FLAGS2 + 2] == [0, 0];
    assert s[WORDCNT + 1..WORDCNT + 3] == [0, 0];
    assert FromLE([0, 0]) == 0 by {
      assert [0, 0][1..] == [0];
      assert [0][1..] == [];
    }
  }

  class SMBPacket {
    const buf: array<byte>
    var pkttype: int
    var pos: int
    var endpos: int
    var lastTxTime: int

    /** A packet over a new buffer of the default size. */
    constructor ()
      ensures fresh(buf) && buf[..] == InitialBuffer(DEFAULT_BUFSIZE)
      ensures pkttype == 0 && pos == 0 && endpos == 0 && lastTxTime == 0
    {
      buf := new byte[DEFAULT_BUFSIZE](_ => 0);
      pkttype, pos, endpos, lastTxTime := 0, 0, 0, 0;
      new;
      InitializeBuffer();
      assert buf[..] == InitialBuffer(DEFAULT_BUFSIZE);
    }

    /** A packet over the caller's buffer, which is used as it is. */
    constructor FromBuffer(b: array<byte>)
      ensures buf == b && b[..] == old(b[..])
      ensures pkttype == 0 && pos == 0 && endpos == 0 && lastTxTime == 0
    {
      buf := b;
      pkttype, pos, endpos, lastTxTime := 0, 0, 0, 0;
    }

    /** A packet over a new buffer of siz bytes. */
    constructor OfSize(siz: int)
      requires siz >= SMBHEADER + 4
      ensures fresh(buf) && buf[..] == InitialBuffer(siz)
      ensures pkttype == 0 && pos == 0 && endpos == 0 && lastTxTime == 0
    {
      buf := new byte[siz](_ => 0);
      pkttype, pos, endpos, lastTxTime := 0, 0, 0, 0;
      new;
      InitializeBuffer();
      assert buf[..] == InitialBuffer(siz);
    }

    /** Store the protocol signature 0xFF 'S' 'M' 'B' after the transport header. */
    method InitializeBuffer()
      requires buf.Length >= SMBHEADER + 4
      modifies buf
      ensures buf[..] == Put(old(buf[..]), SMBHEADER, PROTOCOL_ID)
    {
      buf[SMBHEADER] := 0xFF;
      buf[SMBHEADER + 1] := 0x53;
      buf[SMBHEADER + 2] := 0x4D;
      buf[SMBHEADER + 3] := 0x42;
      assert buf[..] == Put(old(buf[..]), SMBHEADER, PROTOCOL_ID);
    }

    /** hasMoreData: the unpack cursor has not reached the end of the area
        that the last resetBytePointer or setBytePointer marked out. The
        ensures gives one direction; the pointer resets state its value
        outright, as an if-and-only-if on the byte count or length. */
    function HasMoreData(): (r: bool)
      reads this
      ensures r ==> endpos - pos >= 1
    {
      pos < endpos
    }

    // -------------------------------------------------------------------
    // Header setters

    method SetCommand(cmd: int)
      requires COMMAND < buf.Length
      modifies this`pkttype, buf
      ensures pkttype == cmd && buf[..] == old(buf[..])[COMMAND := cmd % 256]
      ensures Command(buf[..]) == cmd % 256
    {
      pkttype := cmd;
      buf[COMMAND] := cmd % 256;
    }

    method SetErrorClass(cl: int)
      requires ERRORCLASS < buf.Length
      modifies buf
      ensures buf[..] == old(buf[..])[ERRORCLASS := cl % 256]
      ensures ErrorClass(buf[..]) == cl % 256
    {
      buf[ERRORCLASS] := cl % 256;
    }

    method SetErrorCode(sts: int)
      requires ERROR < buf.Length
      modifies buf
      ensures buf[..] == old(buf[..])[ERROR := sts % 256]
      ensures ErrorCode(buf[..]) == sts % 256
    {
      buf[ERROR] := sts % 256;
    }

    method SetLongErrorCode(lsts: int32)
      requires ERRORCODE + 4 <= buf.Length
      modifies buf
      ensures buf[..] == Put(old(buf[..]), ERRORCODE, LE(lsts, 4))
      ensures LongErrorCode(buf[..]) == lsts
      ensures ErrorClass(buf[..]) == lsts % 256 && ErrorCode(buf[..]) == (lsts / 0x1_0000) % 256
    {
      LongErrorOverlap(buf[..], lsts);
      Write(buf, ERRORCODE, LE(lsts, 4));
    }

    method SetFlags(flg: int)
      requires FLAGS < buf.Length
      modifies buf
      ensures buf[..] == old(buf[..])[FLAGS := flg % 256]
      ensures Flags(buf[..]) == flg % 256
    {
      buf[FLAGS] := flg % 256;
    }

    method SetFlags2(flg: int)
      requires FLAGS2 + 2 <= buf.Length
      modifies buf
      ensures buf[..] == Put(old(buf[..]), FLAGS2, LE(flg, 2))
      ensures Flags2(buf[..]) == flg % 0x1_0000
    {
      ShortRoundTrip(buf[..], FLAGS2, flg);
      Write(buf, FLAGS2, LE(flg, 2));
    }

    /** Store a 16-bit field at off, reading back as the value's low 16 bits. */
    method PutShort(off: int, v: int)
      requires 0 <= off && off + 2 <= buf.Length
      modifies buf
      ensures buf[..] == Put(old(buf[..]), off, LE(v, 2))
      ensures GetIntelShort(buf[..], off) == v % 0x1_0000
    {
      ShortRoundTrip(buf[..], off, v);
      Write(buf, off, LE(v, 2));
    }

    method SetMultiplexId(mid: int)
      requires MID + 2 <= buf.Length
      modifies buf
      ensures buf[..] == Put(old(buf[..]), MID, LE(mid, 2))
      ensures MultiplexId(buf[..]) == mid % 0x1_0000
    {
      PutShort(MID, mid);
    }

    method SetProcessId(pid: int)
      requires PID + 2 <= buf.Length
      modifies buf
      ensures buf[..] == Put(old(buf[..]), PID, LE(pid, 2))
      ensures ProcessId(buf[..]) == pid % 0x1_0000
    {
      PutShort(PID, pid);
    }

    method SetUserId(uid: int)
      requires UID + 2 <= buf.Length
      modifies buf
      ensures buf[..] == Put(old(buf[..]), UID, LE(uid, 2))
      ensures UserId(buf[..]) == uid % 0x1_0000
    {
      PutShort(UID, uid);
    }

    method SetTreeId(tid: int)
      requires TID + 2 <= buf.Length
      modifies buf
      ensures buf[..] == Put(old(buf[..]), TID, LE(tid, 2))
      ensures TreeId(buf[..]) == tid % 0x1_0000
    {
      PutShort(TID, tid);
    }

    method SetSeqNo(sq: int)
      requires SEQNO + 2 <= buf.Length
      modifies buf
      ensures buf[..] == Put(old(buf[..]), SEQNO, LE(sq, 2))
      ensures GetIntelShort(buf[..], SEQNO) == sq % 0x1_0000
    {
      PutShort(SEQNO, sq);
    }

    method SetSID(sid: int)
      requires SID + 2 <= buf.Length
      modifies buf
      ensures buf[..] == Put(old(buf[..]), SID, LE(sid, 2))
      ensures GetIntelShort(buf[..], SID) == sid % 0x1_0000
    {
      PutShort(SID, sid);
    }

    /** setSignature(int): the 32-bit value, then four zero bytes; the 64-bit
        signature then reads as the value's unsigned 32 bits. */
    method SetSignatureInt(ival: int32)
      requires SIGNATURE + 8 <= buf.Length
      modifies buf
      ensures buf[..] == Put(Put(old(buf[..]), SIGNATURE, LE(ival, 4)), SIGNATURE + 4, [0, 0, 0, 0])
      ensures Signature(buf[..]) == ival % 0x1_0000_0000
    {
      Write(buf, SIGNATURE, LE(ival, 4));
      Write(buf, SIGNATURE + 4, [0, 0, 0, 0]);
      SignatureOfInt(old(buf[..]), ival);
    }

    method SetSignatureLong(lval: int64)
      requires SIGNATURE + 8 <= buf.Length
      modifies buf
      ensures buf[..] == Put(old(buf[..]), SIGNATURE, LE(lval, 8))
      ensures Signature(buf[..]) == lval
    {
      LongRoundTrip(buf[..], SIGNATURE, lval);
      Write(buf, SIGNATURE, LE(lval, 8));
    }

    /** setSignature(byte[], int): the 8 bytes of byts from offset on. */
    method SetSignatureBytes(byts: seq<byte>, offset: int)
      requires 0 <= offset && offset + 8 <= |byts| && SIGNATURE + 8 <= buf.Length
      modifies buf
      ensures buf[..] == Put(old(buf[..]), SIGNATURE, byts[offset..offset + 8])
    {
      Write(buf, SIGNATURE, byts[offset..offset + 8]);
    }

    /** The AndX command, a zero reserved byte and, when nothing is chained,
        a zero offset to the chained command (parameter word 1). */
    method SetAndXCommand(cmd: int)
      requires ANDXRESERVED < buf.Length
      requires cmd == NoChainedCommand ==> ParamPos(1) + 2 <= buf.Length
      modifies buf
      ensures var t := old(buf[..])[ANDXCOMMAND := cmd % 256][ANDXRESERVED := 0];
        buf[..] == if cmd == NoChainedCommand then Put(t, ParamPos(1), LE(0, 2)) else t
      ensures AndXCommand(buf[..]) == cmd % 256 && buf[ANDXRESERVED] == 0
      ensures cmd == NoChainedCommand ==> ParamWord(buf[..], 1) == 0
    {
      buf[ANDXCOMMAND] := cmd % 256;
      buf[ANDXRESERVED] := 0;
      if cmd == NoChainedCommand {
        SetParameter(1, 0);
      }
    }

    // -------------------------------------------------------------------
    // Parameter and byte areas

    method SetParameterCount(cnt: int)
      requires WORDCNT < buf.Length
      modifies buf
      ensures buf[..] == old(buf[..])[WORDCNT := cnt % 256]
      ensures ParameterCount(buf[..]) == SignedByte(cnt % 256)
      ensures ParameterCount(buf[..]) == cnt <==> -128 <= cnt < 128
    {
      SetParameterCountSpec(buf[..], cnt);
      buf[WORDCNT] := cnt % 256;
    }

    /** Parameter word idx; the index is not checked against the count. */
    method SetParameter(idx: int, val: int)
      requires WORDCNT < buf.Length && ParamInBounds(buf[..], idx)
      modifies buf
      ensures buf[..] == Put(old(buf[..]), ParamPos(idx), LE(val, 2))
      ensures ParamWord(buf[..], idx) == val % 0x1_0000
    {
      PutShort(ParamPos(idx), val);
    }

    method SetParameterLong(idx: int, val: int32)
      requires 0 <= ParamPos(idx) && ParamPos(idx) + 4 <= buf.Length
      modifies buf
      ensures buf[..] == Put(old(buf[..]), ParamPos(idx), LE(val, 4))
      ensures ParameterLong(buf[..], idx) == val
    {
      IntRoundTrip(buf[..], ParamPos(idx), val);
      Write(buf, ParamPos(idx), LE(val, 4));
    }

    method SetByteCount(cnt: int)
      requires ByteCountReadable(buf[..])
      modifies buf
      ensures buf[..] == Put(old(buf[..]), ByteOffset(old(buf[..])) - 2, LE(cnt, 2))
      ensures ParameterCount(old(buf[..])) != -1 ==>
        ByteCountReadable(buf[..]) && ByteCount(buf[..]) == cnt % 0x1_0000
    {
      if ParameterCount(buf[..]) != -1 {
        SetByteCountSpec(buf[..], cnt);
      }
      Write(buf, ByteOffset(buf[..]) - 2, LE(cnt, 2));
    }

    method ClearBytes()
      requires ByteCountReadable(buf[..])
      modifies buf
      ensures buf[..] == Put(old(buf[..]), ByteOffset(old(buf[..])) - 2, LE(0, 2))
      ensures ParameterCount(old(buf[..])) != -1 ==>
        ByteCountReadable(buf[..]) && ByteCount(buf[..]) == 0
    {
      SetByteCount(0);
    }

    /** setByteCount(): the byte count is the distance from the byte offset
        to the cursor. */
    method SetByteCountFromPosition()
      requires ByteCountReadable(buf[..])
      modifies buf
      ensures var o := ByteOffset(old(buf[..]));
        buf[..] == Put(old(buf[..]), o - 2, LE(pos - o, 2))
      ensures ParameterCount(old(buf[..])) != -1 ==>
        ByteCountReadable(buf[..]) && ByteCount(buf[..]) == (pos - ByteOffset(old(buf[..]))) % 0x1_0000
    {
      var len := pos - ByteOffset(buf[..]);
      SetByteCount(len);
    }

    /** The byte count, then the data byte by byte from the byte offset. */
    method SetBytes(byts: seq<byte>)
      requires ByteCountReadable(buf[..]) && ByteOffset(buf[..]) + |byts| <= buf.Length
      modifies buf
      ensures buf[..] == WithBytes(old(buf[..]), byts)
    {
      ghost var s0 := buf[..];
      WithBytesIsPut(s0, byts);
      var offset := ByteOffset(buf[..]) - 2;
      Write(buf, offset, LE(|byts|, 2));
      offset := offset + 2;
      ghost var counted := buf[..];
      var idx := 0;
      while idx < |byts|
        invariant 0 <= idx <= |byts|
        invariant buf[..] == Put(counted, offset, byts[..idx])
      {
        ghost var prev := buf[..];
        buf[offset + idx] := byts[idx];
        assert buf[..] == prev[offset + idx := byts[idx]];
        PutExtend(counted, offset, byts[..idx], byts[idx]);
        assert byts[..idx + 1] == byts[..idx] + [byts[idx]];
        idx := idx + 1;
      }
      assert byts[..idx] == byts;
    }

    // -------------------------------------------------------------------
    // Pack and unpack at the cursor

    method PackByte(val: int)
      requires 0 <= pos < buf.Length
      modifies this`pos, buf
      ensures buf[..] == old(buf[..])[old(pos) := val % 256] && pos == old(pos) + 1
    {
      buf[pos] := val % 256;
      pos := pos + 1;
    }

    /** The first len bytes of byts. */
    method PackBytes(byts: seq<byte>, len: int)
      requires 0 <= len <= |byts| && 0 <= pos && pos + len <= buf.Length
      modifies this`pos, buf
      ensures buf[..] == Put(old(buf[..]), old(pos), byts[..len]) && pos == old(pos) + len
    {
      Write(buf, pos, byts[..len]);
      pos := pos + len;
    }

    method PackWord(val: int)
      requires 0 <= pos && pos + 2 <= buf.Length
      modifies this`pos, buf
      ensures buf[..] == Put(old(buf[..]), old(pos), LE(val, 2)) && pos == old(pos) + 2
      ensures GetIntelShort(buf[..], old(pos)) == val % 0x1_0000
    {
      PutShort(pos, val);
      pos := pos + 2;
    }

    method PackInt(val: int32)
      requires 0 <= pos && pos + 4 <= buf.Length
      modifies this`pos, buf
      ensures buf[..] == Put(old(buf[..]), old(pos), LE(val, 4)) && pos == old(pos) + 4
      ensures GetIntelInt(buf[..], old(pos)) == val
    {
      IntRoundTrip(buf[..], pos, val);
      Write(buf, pos, LE(val, 4));
      pos := pos + 4;
    }

    method PackLong(val: int64)
      requires 0 <= pos && pos + 8 <= buf.Length
      modifies this`pos, buf
      ensures buf[..] == Put(old(buf[..]), old(pos), LE(val, 8)) && pos == old(pos) + 8
      ensures GetIntelLong(buf[..], old(pos)) == val
    {
      LongRoundTrip(buf[..], pos, val);
      Write(buf, pos, LE(val, 8));
      pos := pos + 8;
    }

    /** A NUL-terminated string: Unicode at the next even position, two bytes
        per unit; ASCII one byte per unit. */
    method PackString(str: seq<int>, uni: bool)
      requires 0 <= pos && StringPos(pos, uni) + |StringBytes(str, uni)| <= buf.Length
      modifies this`pos, buf
      ensures buf[..] == Put(old(buf[..]), StringPos(old(pos), uni), StringBytes(str, uni))
      ensures pos == if uni then WordAlign(old(pos)) + 2 * |str| + 2 else old(pos) + |str| + 1
    {
      if uni {
        pos := WordAlign(pos);
        Write(buf, pos, UnicodeZ(str));
        pos := pos + |str| * 2 + 2;
      } else {
        Write(buf, pos, AsciiZ(str));
        pos := pos + |str| + 1;
      }
    }

    /** A byte, sign-extended. */
    method UnpackByte() returns (v: int)
      requires 0 <= pos < buf.Length
      modifies this`pos
      ensures v == SignedByte(buf[old(pos)]) && pos == old(pos) + 1
    {
      v := SignedByte(buf[pos]);
      pos := pos + 1;
    }

    method UnpackBytes(len: int) returns (r: Option<seq<byte>>)
      requires len > 0 ==> 0 <= pos && pos + len <= buf.Length
      modifies this`pos
      ensures len <= 0 ==> r == None && pos == old(pos)
      ensures len > 0 ==> r == Some(buf[old(pos)..old(pos) + len]) && pos == old(pos) + len
    {
      if len <= 0 {
        return None;
      }
      r := Some(buf[pos..pos + len]);
      pos := pos + len;
    }

    method UnpackWord() returns (v: int)
      requires 0 <= pos && pos + 2 <= buf.Length
      modifies this`pos
      ensures v == GetIntelShort(buf[..], old(pos)) && pos == old(pos) + 2
    {
      v := GetIntelShort(buf[..], pos);
      pos := pos + 2;
    }

    method UnpackInt() returns (v: int32)
      requires 0 <= pos && pos + 4 <= buf.Length
      modifies this`pos
      ensures v == GetIntelInt(buf[..], old(pos)) && pos == old(pos) + 4
    {
      v := GetIntelInt(buf[..], pos);
      pos := pos + 4;
    }

    method UnpackLong() returns (v: int64)
      requires 0 <= pos && pos + 8 <= buf.Length
      modifies this`pos
      ensures v == GetIntelLong(buf[..], old(pos)) && pos == old(pos) + 8
    {
      v := GetIntelLong(buf[..], pos);
      pos := pos + 8;
    }

    /** A NUL-terminated string of at most 255 units; the cursor moves past
        its terminator. */
    method UnpackString(uni: bool) returns (r: seq<int>)
      requires 0 <= pos
      modifies this`pos
      ensures r == UnpackedString(buf[..], old(pos), uni)
      ensures pos == StringEnd(old(pos), r, uni)
    {
      if uni {
        pos := WordAlign(pos);
        r := GetUnicodeString(buf[..], pos, 255);
        pos := pos + |r| * 2 + 2;
      } else {
        r := GetString(buf[..], pos, 255);
        pos := pos + |r| + 1;
      }
    }

    /** A string of at most len units; the cursor moves past the units only. */
    method UnpackStringLen(len: int, uni: bool) returns (r: seq<int>)
      requires 0 <= pos
      modifies this`pos
      ensures uni ==> r == GetUnicodeString(buf[..], WordAlign(old(pos)), len) && pos == WordAlign(old(pos)) + 2 * |r|
      ensures !uni ==> r == GetString(buf[..], old(pos), len) && pos == old(pos) + |r|
    {
      if uni {
        pos := WordAlign(pos);
        r := GetUnicodeString(buf[..], pos, len);
        pos := pos + |r| * 2;
      } else {
        r := GetString(buf[..], pos, len);
        pos := pos + |r|;
      }
    }

    // -------------------------------------------------------------------
    // Cursors

    method SetPosition(p: int)
      modifies this`pos
      ensures pos == p
    {
      pos := p;
    }

    method AlignBytePointer()
      modifies this`pos
      ensures pos == LongwordAlign(old(pos))
    {
      pos := LongwordAlign(pos);
    }

    /** The cursor at the byte area, its end after the byte count. */
    method ResetBytePointer()
      requires ByteCountReadable(buf[..])
      modifies this`pos, this`endpos
      ensures pos == ByteOffset(buf[..]) && endpos == pos + ByteCount(buf[..])
      ensures HasMoreData() <==> ByteCount(buf[..]) > 0
    {
      pos := ByteOffset(buf[..]);
      endpos := pos + ByteCount(buf[..]);
    }

    method ResetBytePointerAlign()
      requires ByteCountReadable(buf[..])
      modifies this`pos, this`endpos
      ensures pos == LongwordAlign(ByteOffset(buf[..])) && endpos == pos + ByteCount(buf[..])
      ensures HasMoreData() <==> ByteCount(buf[..]) > 0
    {
      pos := LongwordAlign(ByteOffset(buf[..]));
      endpos := pos + ByteCount(buf[..]);
    }

    method ResetParameterPointer()
      modifies this`pos
      ensures pos == PARAMWORDS
    {
      pos := PARAMWORDS;
    }

    method SetBytePointer(off: int, len: int)
      modifies this`pos, this`endpos
      ensures pos == off && endpos == off + len
      ensures HasMoreData() <==> len > 0
    {
      pos := off;
      endpos := pos + len;
    }

    method SkipBytes(cnt: int)
      modifies this`pos
      ensures pos == old(pos) + cnt
    {
      pos := pos + cnt;
    }

    // -------------------------------------------------------------------
    // Exchanges

    /** The receive loop of ExchangeSMB and ReceiveSMB: receive into rxPkt
        until a long frame carries this packet's command; a long frame with
        another command is passed on as an asynchronous response, and a short
        frame ends the loop when strict and is skipped otherwise. */
    method AwaitResponse(sess: Session, rxPkt: SMBPacket, strict: bool) returns (stop: Stop)
      requires COMMAND < rxPkt.buf.Length
      modifies rxPkt.buf, sess.net`inbox, sess.net`trace
      ensures var w := Await(old(sess.net.inbox), old(rxPkt.buf[..]), pkttype, strict);
        && stop == w.stop
        && rxPkt.buf[..] == w.rx
        && sess.net.inbox == w.rest
        && sess.net.trace == old(sess.net.trace) + Diversions(w.diverted)
    {
      var netSess := sess.net;
      ghost var inbox0 := netSess.inbox;
      ghost var rx0 := rxPkt.buf[..];
      ghost var trace0 := netSess.trace;
      ghost var diverted: seq<seq<byte>> := [];
      while true
        invariant COMMAND < rxPkt.buf.Length
        invariant Await(inbox0, rx0, pkttype, strict) ==
          Divert(diverted, Await(netSess.inbox, rxPkt.buf[..], pkttype, strict))
        invariant netSess.trace == trace0 + Diversions(diverted)
        decreases |netSess.inbox|
      {
        ghost var rxBefore := rxPkt.buf[..];
        ghost var inboxBefore := netSess.inbox;
        var r := netSess.Receive(rxPkt.buf);
        if r.Err? {
          return Closed;
        }
        AwaitStep(inboxBefore, rxBefore, pkttype, strict);
        if r.value >= MIN_RXLEN {
          if Command(rxPkt.buf[..]) == pkttype {
            return Matched;
          }
          sess.ProcessAsynchResponse(rxPkt);
          DiversionsAppend(diverted, rxPkt.buf[..]);
          DivertTwice(diverted, rxPkt.buf[..], Await(netSess.inbox, rxPkt.buf[..], pkttype, strict));
          diverted := diverted + [rxPkt.buf[..]];
        } else if strict {
          return Short;
        }
      }
    }

    /** The first steps of ExchangeSMB: the session's process and user ids,
        a multiplex id of 1 in place of 0, and the signature when the session
        signs. */
    method PrepareRequest(sess: Session)
      requires ByteCountReadable(buf[..]) && MID + 2 <= buf.Length
      modifies buf
      ensures buf[..] == Request(old(buf[..]), sess.pid, sess.uid, sess.signing, sess.signer)
      ensures ByteCountReadable(buf[..])
    {
      ghost var s0 := buf[..];
      SetProcessId(sess.pid);
      SetUserId(sess.uid);
      if MultiplexId(buf[..]) == 0 {
        SetMultiplexId(1);
      }
      if sess.signing {
        sess.SignTxPacket(this);
      }
      assert buf[..] == Request(s0, sess.pid, sess.uid, sess.signing, sess.signer);
      assert buf[WORDCNT] == s0[WORDCNT];
    }

    /** Send this request and receive the response into rxPkt, which may be
        this packet itself. Frames too short for an SMB header are skipped,
        responses to other commands are passed on as asynchronous responses,
        and the exchange returns on the first response to this packet's
        command. The signature check and the error check then look at THIS
        packet, which holds the response only when rxPkt is this packet. */
    method ExchangeSMB(sess: Session, rxPkt: SMBPacket, throwerr: bool) returns (o: Outcome)
      requires ByteCountReadable(buf[..]) && MID + 2 <= buf.Length
      requires COMMAND < rxPkt.buf.Length
      modifies buf, rxPkt.buf, sess.net`inbox, sess.net`trace
      ensures var s := Request(old(buf[..]), sess.pid, sess.uid, sess.signing, sess.signer);
        var w := Await(old(sess.net.inbox), if rxPkt.buf == buf then s else old(rxPkt.buf[..]), pkttype, false);
        var sent := old(sess.net.trace) + [Sent(s, Length(s))] + Diversions(w.diverted);
        var req := if rxPkt.buf == buf then w.rx else s;
        var verifying := sess.signing && sess.rxSigning;
        && w.stop != Short
        && rxPkt.buf[..] == w.rx
        && buf[..] == req
        && sess.net.inbox == w.rest
        && (w.stop == Closed ==> o == Fail(TransportClosed) && sess.net.trace == sent)
        && (w.stop == Matched ==>
              && sess.net.trace == sent + (if verifying then [VerifiedRx(req)] else [])
              && o == if verifying && !sess.verifier(req) then Fail(SigningFailure)
                      else if throwerr then CheckForError(req, pkttype)
                      else Pass)
    {
      PrepareRequest(sess);
      sess.net.Send(buf, Length(buf[..]));
      LenientNeverShort(sess.net.inbox, rxPkt.buf[..], pkttype);
      var stop := AwaitResponse(sess, rxPkt, false);
      if stop != Matched {
        return Fail(TransportClosed);
      }
      if sess.signing && sess.rxSigning {
        var ok := sess.VerifyRxPacket(this);
        if !ok {
          return Fail(SigningFailure);
        }
      }
      if throwerr {
        return CheckForError(buf[..], pkttype);
      }
      return Pass;
    }

    /** Send this request and receive exactly one frame into rxPkt, which
        must be a response to this packet's command. */
    method ExchangeLowLevelSMB(net: NetworkSession, rxPkt: SMBPacket, throwerr: bool) returns (o: Outcome)
      requires ByteCountReadable(buf[..]) && MID + 2 <= buf.Length
      requires COMMAND < rxPkt.buf.Length
      modifies buf, rxPkt.buf, net
      ensures var s := MidSet(old(buf[..]));
        var rx0 := if rxPkt.buf == buf then s else old(rxPkt.buf[..]);
        && net.trace == old(net.trace) + [Sent(s, Length(s))]
        && net.timeout == old(net.timeout)
        && (old(net.inbox) == [] ==>
              o == Fail(TransportClosed) && net.inbox == [] && rxPkt.buf[..] == rx0 && buf[..] == s)
        && (old(net.inbox) != [] ==>
              var f := old(net.inbox)[0];
              var rx := Overlay(rx0, f.data);
              var req := if rxPkt.buf == buf then rx else s;
              && net.inbox == old(net.inbox)[1..]
              && rxPkt.buf[..] == rx
              && buf[..] == req
              && o == if Long(f) && Command(rx) == pkttype then
                        (if throwerr then CheckForError(req, pkttype) else Pass)
                      else Fail(IOError("Invalid SMB Receive Packet")))
    {
      if MultiplexId(buf[..]) == 0 {
        SetMultiplexId(1);
      }
      assert ByteCountReadable(buf[..]) by {
        assert buf[WORDCNT] == old(buf[WORDCNT]);
      }
      net.Send(buf, Length(buf[..]));
      var r := net.Receive(rxPkt.buf);
      if r.Err? {
        return Fail(r.failure);
      }
      if r.value >= MIN_RXLEN && Command(rxPkt.buf[..]) == pkttype {
        if throwerr {
          return CheckForError(buf[..], pkttype);
        }
        return Pass;
      }
      return Fail(IOError("Invalid SMB Receive Packet"));
    }

    /** Receive into this packet until a response to its command arrives;
        other responses are passed on as asynchronous responses, and a frame
        too short for an SMB header fails the receive. */
    method ReceiveSMB(sess: Session, throwErr: bool) returns (o: Outcome)
      requires MID + 2 <= buf.Length
      modifies buf, sess.net`inbox, sess.net`trace
      ensures var w := Await(old(sess.net.inbox), old(buf[..]), pkttype, true);
        var sent := old(sess.net.trace) + Diversions(w.diverted);
        var verifying := sess.signing && sess.rxSigning;
        && buf[..] == w.rx
        && sess.net.inbox == w.rest
        && (w.stop == Closed ==> o == Fail(TransportClosed) && sess.net.trace == sent)
        && (w.stop == Short ==> o == Fail(IOError("Short NetBIOS receive")) && sess.net.trace == sent)
        && (w.stop == Matched ==>
              && sess.net.trace == sent + (if verifying then [VerifiedRx(w.rx)] else [])
              && o == if verifying && !sess.verifier(w.rx) then Fail(SigningFailure)
                      else if throwErr then CheckForError(w.rx, pkttype)
                      else Pass)
    {
      var stop := AwaitResponse(sess, this, true);
      if stop == Closed {
        return Fail(TransportClosed);
      }
      if stop == Short {
        return Fail(IOError("Short NetBIOS receive"));
      }
      if sess.signing && sess.rxSigning {
        var ok := sess.VerifyRxPacket(this);
        if !ok {
          return Fail(SigningFailure);
        }
      }
      if throwErr {
        return CheckForError(buf[..], pkttype);
      }
      return Pass;
    }

    /** Wait up to waitTime for one frame and pass it on as an asynchronous
        response, whatever its command. */
    method ReceiveAsynchSMB(sess: Session, waitTime: int) returns (o: Outcome)
      requires COMMAND < buf.Length
      modifies buf, sess.net
      ensures sess.net.timeout == waitTime
      ensures old(sess.net.inbox) == [] ==>
        && o == Fail(TransportClosed) && sess.net.inbox == [] && buf[..] == old(buf[..])
        && sess.net.trace == old(sess.net.trace) + [TimeoutSet(waitTime)]
      ensures old(sess.net.inbox) != [] ==>
        var f := old(sess.net.inbox)[0];
        var rx := Overlay(old(buf[..]), f.data);
        && sess.net.inbox == old(sess.net.inbox)[1..]
        && buf[..] == rx
        && (Long(f) ==>
              o == Pass && sess.net.trace == old(sess.net.trace) + [TimeoutSet(waitTime), Diverted(rx)])
        && (!Long(f) ==>
              o == Fail(IOError("Short NetBIOS receive")) && sess.net.trace == old(sess.net.trace) + [TimeoutSet(waitTime)])
    {
      var netSess := sess.net;
      netSess.SetTimeout(waitTime);
      var r := netSess.Receive(buf);
      if r.Err? {
        return Fail(r.failure);
      }
      if r.value >= MIN_RXLEN {
        sess.ProcessAsynchResponse(this);
        return Pass;
      }
      return Fail(IOError("Short NetBIOS receive"));
    }

    /** Stamp the send time, sign when the session signs, and send. */
    method SendSMB(sess: Session, now: int)
      requires ByteCountReadable(buf[..]) && SIGNATURE + 8 <= buf.Length
      modifies this`lastTxTime, buf, sess.net`trace
      ensures lastTxTime == now
      ensures var s := if sess.signing then SignedBuffer(old(buf[..]), sess.signer(old(buf[..]))) else old(buf[..]);
        && buf[..] == s
        && sess.net.trace == old(sess.net.trace) + [Sent(s, Length(s))]
    {
      lastTxTime := now;
      if sess.signing {
        sess.SignTxPacket(this);
      }
      assert ByteCountReadable(buf[..]) by {
        assert buf[WORDCNT] == old(buf[WORDCNT]);
      }
      sess.net.Send(buf, Length(buf[..]));
    }
  }

  /** setSignature(int) writes the value's four bytes and four zeros: the
      signature then reads as the value's unsigned 32 bits. */
  lemma SignatureOfInt(s: seq<byte>, v: int32)
    requires SIGNATURE + 8 <= |s|
    ensures Signature(Put(Put(s, SIGNATURE, LE(v, 4)), SIGNATURE + 4, [0, 0, 0, 0])) == v % 0x1_0000_0000
  {
    var t := Put(Put(s, SIGNATURE, LE(v, 4)), SIGNATURE + 4, [0, 0, 0, 0]);
    assert t[SIGNATURE..SIGNATURE + 8] == LE(v, 4) + [0, 0, 0, 0];
    LERoundTrip(v, 4);
    Pow256Values();
    FromLEZeros(LE(v, 4));
  }

  /** Zero bytes above a little-endian number do not change its value. */
  lemma {:induction false} FromLEZeros(b: seq<byte>)
    ensures FromLE(b + [0, 0, 0, 0]) == FromLE(b)
  {
    if b == [] {
      var z: seq<byte> := [0, 0, 0, 0];
      assert b + z == z;
      assert z[1..] == [0, 0, 0] && z[1..][1..] == [0, 0] && z[1..][1..][1..] == [0];
      assert [0][1..] == [];
    } else {
      assert (b + [0, 0, 0, 0])[1..] == b[1..] + [0, 0, 0, 0];
      FromLEZeros(b[1..]);
    }
  }
}
