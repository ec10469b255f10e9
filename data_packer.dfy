/** Little-endian ("Intel") encodings of integers and strings inside a packet
    buffer, and the alignment helpers used by the packet class.

    The utility class that performs these conversions in the original program is
    not part of this model; what it does is stated here by the encoding functions
    and their contracts: an n-byte write stores the low n bytes of the two's
    complement of the value, least significant byte first, and changes no other
    byte; a read assembles the same bytes back. */
module DataPacker {

  /** One octet of a packet buffer, as Java's `b & 0xFF` sees it. */
  type byte = x: int | 0 <= x < 256

  /** Java's `int` and `long` parameter types. */
  type int32 = x: int | -0x8000_0000 <= x < 0x8000_0000
  type int64 = x: int | -0x8000_0000_0000_0000 <= x < 0x8000_0000_0000_0000

  function Pow256(n: nat): (r: nat)
    ensures r > 0
  {
    if n == 0 then 1 else 256 * Pow256(n - 1)
  }

  lemma Pow256Values()
    ensures Pow256(1) == 0x100 && Pow256(2) == 0x1_0000 && Pow256(4) == 0x1_0000_0000
    ensures Pow256(8) == 0x1_0000_0000_0000_0000
  {
    assert Pow256(2) == 0x1_0000;
    assert Pow256(4) == 256 * (256 * Pow256(2));
  }

  /** The n bytes that an n-byte little-endian write stores for v: the low n
      bytes of v's two's complement (Euclidean `%` and `/` by 256 are `& 0xFF`
      and the arithmetic `>> 8` of Java). */
  function LE(v: int, n: nat): (r: seq<byte>)
    ensures |r| == n
    decreases n
  {
    if n == 0 then [] else [v % 256] + LE(v / 256, n - 1)
  }

  /** The unsigned value of a little-endian byte sequence. */
  function FromLE(b: seq<byte>): (r: nat)
    ensures r < Pow256(|b|)
  {
    if b == [] then 0 else b[0] + 256 * FromLE(b[1..])
  }

  /** Two's-complement reinterpretation of an unsigned n-byte value. */
  function Signed(u: int, n: nat): int
  {
    if u >= Pow256(n) / 2 then u - Pow256(n) else u
  }

  /** The buffer `s` with the bytes `w` stored from offset `off` on. */
  function Put(s: seq<byte>, off: int, w: seq<byte>): (r: seq<byte>)
    requires 0 <= off && off + |w| <= |s|
    ensures |r| == |s|
    ensures r[off..off + |w|] == w
    ensures r[..off] == s[..off] && r[off + |w|..] == s[off + |w|..]
    ensures forall i :: 0 <= i < |s| && !(off <= i < off + |w|) ==> r[i] == s[i]
  {
    s[..off] + w + s[off + |w|..]
  }

  /** Unsigned little-endian read of n bytes at off. */
  function GetLE(s: seq<byte>, off: int, n: nat): nat
    requires 0 <= off && off + n <= |s|
  {
    FromLE(s[off..off + n])
  }

  /** getIntelShort: an unsigned 16-bit read. */
  function GetIntelShort(s: seq<byte>, off: int): (r: nat)
    requires 0 <= off && off + 2 <= |s|
    ensures r < 0x1_0000
  {
    Pow256Values();
    GetLE(s, off, 2)
  }

  /** getIntelInt: a 32-bit read into a Java `int`, hence signed. */
  function GetIntelInt(s: seq<byte>, off: int): (r: int32)
    requires 0 <= off && off + 4 <= |s|
  {
    Pow256Values();
    Signed(GetLE(s, off, 4), 4)
  }

  /** getIntelLong: a 64-bit read into a Java `long`, hence signed. */
  function GetIntelLong(s: seq<byte>, off: int): (r: int64)
    requires 0 <= off && off + 8 <= |s|
  {
    Pow256Values();
    Signed(GetLE(s, off, 8), 8)
  }

  /** `(int) b` for a Java byte: sign extension, no `& 0xFF`. */
  function SignedByte(b: byte): (r: int)
    ensures -128 <= r < 128
    ensures r % 256 == b
  {
    if b >= 128 then b - 256 else b
  }

  /** wordAlign: round a position up to the next even one. */
  function WordAlign(p: int): (r: int)
    ensures r % 2 == 0 && p <= r <= p + 1
  {
    (p + 1) / 2 * 2
  }

  /** longwordAlign: round a position up to the next multiple of four. */
  function LongwordAlign(p: int): (r: int)
    ensures r % 4 == 0 && p <= r <= p + 3
  {
    (p + 3) / 4 * 4
  }

  // ---------------------------------------------------------------------
  // Strings, as sequences of code units

  /** putString with a NUL terminator: one byte per unit (its low byte), then 0. */
  function AsciiZ(str: seq<int>): (r: seq<byte>)
    ensures |r| == |str| + 1
  {
    if str == [] then [0] else [str[0] % 256] + AsciiZ(str[1..])
  }

  /** putUnicodeString with a NUL terminator: two little-endian bytes per unit, then 0, 0. */
  function UnicodeZ(str: seq<int>): (r: seq<byte>)
    ensures |r| == 2 * |str| + 2
  {
    if str == [] then [0, 0] else LE(str[0], 2) + UnicodeZ(str[1..])
  }

  /** getString: the bytes from pos up to the first NUL, at most maxlen of them,
      and none past the end of the buffer. The read stops only at maxlen, at
      the end of the buffer or at a NUL byte. */
  function GetString(s: seq<byte>, pos: int, maxlen: int): (r: seq<int>)
    requires 0 <= pos
    ensures |r| <= if maxlen < 0 then 0 else maxlen
    ensures pos + |r| <= |s| || r == []
    ensures forall i :: 0 <= i < |r| ==> r[i] != 0 && r[i] == s[pos + i]
    ensures |r| < maxlen && pos + |r| < |s| ==> s[pos + |r|] == 0
    decreases |s| - pos
  {
    if maxlen <= 0 || pos >= |s| || s[pos] == 0 then []
    else [s[pos]] + GetString(s, pos + 1, maxlen - 1)
  }

  /** getUnicodeString: the 16-bit units from pos up to the first NUL unit, at
      most maxlen of them, and none past the end of the buffer. Where the read
      stops is stated by UnicodeStops. */
  function GetUnicodeString(s: seq<byte>, pos: int, maxlen: int): (r: seq<int>)
    requires 0 <= pos
    ensures |r| <= if maxlen < 0 then 0 else maxlen
    ensures pos + 2 * |r| <= |s| || r == []
    ensures forall i :: 0 <= i < |r| ==> 0 < r[i] < 0x1_0000
    decreases |s| - pos
  {
    if maxlen <= 0 || pos + 2 > |s| || GetIntelShort(s, pos) == 0 then []
    else [GetIntelShort(s, pos)] + GetUnicodeString(s, pos + 2, maxlen - 1)
  }

  // ---------------------------------------------------------------------
  // Round trips

  /** Euclidean remainder is determined by any quotient/remainder split. */
  lemma ModUnique(v: int, m: int, k: int, x: int)
    requires m > 0 && 0 <= x < m && v == k * m + x
    ensures v % m == x && v / m == k
  {
    var q, r := v / m, v % m;
    assert v == q * m + r;
    if q < k {
      assert (k - q) * m >= m by { MulMono(k - q, m); }
      assert false;
    } else if q > k {
      assert (q - k) * m >= m by { MulMono(q - k, m); }
      assert false;
    }
  }

  lemma MulMono(a: int, m: int)
    requires a >= 1 && m > 0
    ensures a * m >= m
  {
  }

  lemma ModSplit(v: int, p: nat)
    requires p > 0
    ensures v % 256 + 256 * ((v / 256) % p) == v % (256 * p)
  {
    var q, r := v / 256, v % 256;
    var t, u := q / p, q % p;
    assert q == t * p + u;
    assert v == t * (256 * p) + (256 * u + r);
    ModUnique(v, 256 * p, t, 256 * u + r);
  }

  /** Reading back n little-endian bytes yields the value modulo 256^n. */
  lemma {:induction false} LERoundTrip(v: int, n: nat)
    ensures FromLE(LE(v, n)) == v % Pow256(n)
    decreases n
  {
    if n > 0 {
      LERoundTrip(v / 256, n - 1);
      assert LE(v, n)[1..] == LE(v / 256, n - 1);
      ModSplit(v, Pow256(n - 1));
    }
  }

  /** A read at the offset of a write returns the written value modulo 256^n. */
  lemma GetAfterPut(s: seq<byte>, off: int, n: nat, v: int)
    requires 0 <= off && off + n <= |s|
    ensures GetLE(Put(s, off, LE(v, n)), off, n) == v % Pow256(n)
  {
    LERoundTrip(v, n);
  }

  /** A read of bytes disjoint from a write is unaffected by it. */
  lemma GetAcrossPut(s: seq<byte>, off: int, w: seq<byte>, off2: int, n: nat)
    requires 0 <= off && off + |w| <= |s|
    requires 0 <= off2 && off2 + n <= |s|
    requires off2 + n <= off || off + |w| <= off2
    ensures GetLE(Put(s, off, w), off2, n) == GetLE(s, off2, n)
  {
    assert Put(s, off, w)[off2..off2 + n] == s[off2..off2 + n];
  }

  /** Reading a stored value back as a signed n-byte quantity restores it when it fits. */
  lemma SignedRoundTrip(v: int, n: nat)
    requires n > 0
    requires -(Pow256(n) / 2) <= v < Pow256(n) / 2
    ensures Signed(v % Pow256(n), n) == v
  {
    var p := Pow256(n);
    assert p == 256 * Pow256(n - 1);
    if v >= 0 {
      ModUnique(v, p, 0, v);
    } else {
      ModUnique(v, p, -1, v + p);
    }
  }

  /** putIntelShort then getIntelShort, at the same offset. */
  lemma ShortRoundTrip(s: seq<byte>, off: int, v: int)
    requires 0 <= off && off + 2 <= |s|
    ensures GetIntelShort(Put(s, off, LE(v, 2)), off) == v % 0x1_0000
  {
    Pow256Values();
    GetAfterPut(s, off, 2, v);
  }

  /** putIntelInt then getIntelInt restores a Java `int`. */
  lemma IntRoundTrip(s: seq<byte>, off: int, v: int32)
    requires 0 <= off && off + 4 <= |s|
    ensures GetIntelInt(Put(s, off, LE(v, 4)), off) == v
  {
    Pow256Values();
    GetAfterPut(s, off, 4, v);
    SignedRoundTrip(v, 4);
  }

  /** putIntelLong then getIntelLong restores a Java `long`. */
  lemma LongRoundTrip(s: seq<byte>, off: int, v: int64)
    requires 0 <= off && off + 8 <= |s|
    ensures GetIntelLong(Put(s, off, LE(v, 8)), off) == v
  {
    Pow256Values();
    GetAfterPut(s, off, 8, v);
    SignedRoundTrip(v, 8);
  }

  /** The two bytes of a 16-bit read, low byte first. */
  lemma ShortBytes(s: seq<byte>, off: int)
    requires 0 <= off && off + 2 <= |s|
    ensures GetIntelShort(s, off) == s[off] as int + 256 * s[off + 1] as int
  {
    var w := s[off..off + 2];
    assert w[1..][1..] == [];
    assert FromLE(w) == w[0] as int + 256 * (w[1] as int + 256 * FromLE([]));
  }

  /** A 32-bit read is two 16-bit reads, the low word first. */
  lemma IntWords(s: seq<byte>, off: int)
    requires 0 <= off && off + 4 <= |s|
    ensures GetIntelInt(s, off) % 0x1_0000 == GetIntelShort(s, off)
    ensures (GetIntelInt(s, off) / 0x1_0000) % 0x1_0000 == GetIntelShort(s, off + 2)
  {
    Pow256Values();
    var w := s[off..off + 4];
    assert w[1..][1..][1..][1..] == [];
    var lo: int, hi: int := GetIntelShort(s, off), GetIntelShort(s, off + 2);
    ShortBytes(s, off);
    ShortBytes(s, off + 2);
    assert FromLE(w) == w[0] as int + 256 * (w[1] as int + 256 * (w[2] as int + 256 * (w[3] as int + 256 * FromLE([]))));
    assert GetLE(s, off, 4) == lo + 0x1_0000 * hi;
    var r := GetIntelInt(s, off);
    if GetLE(s, off, 4) >= 0x8000_0000 {
      assert r == (hi - 0x1_0000) * 0x1_0000 + lo;
      ModUnique(r, 0x1_0000, hi - 0x1_0000, lo);
      ModUnique(hi - 0x1_0000, 0x1_0000, -1, hi);
    } else {
      ModUnique(r, 0x1_0000, hi, lo);
      ModUnique(hi, 0x1_0000, 0, hi);
    }
  }

  /** A NUL-terminated ASCII string without NUL units reads back whole. */
  lemma {:induction false} AsciiScan(t: seq<byte>, pos: int, str: seq<int>, maxlen: int)
    requires forall i :: 0 <= i < |str| ==> 0 < str[i] < 256
    requires |str| <= maxlen
    requires 0 <= pos && pos + |str| + 1 <= |t|
    requires t[pos..pos + |str| + 1] == AsciiZ(str)
    ensures GetString(t, pos, maxlen) == str
    decreases |str|
  {
    if str == [] {
      assert t[pos] == AsciiZ(str)[0];
    } else {
      assert t[pos] == str[0] && t[pos + 1..pos + 1 + |str[1..]| + 1] == AsciiZ(str[1..]) by {
        assert t[pos] == AsciiZ(str)[0];
        assert t[pos + 1..pos + 1 + |str[1..]| + 1] == AsciiZ(str)[1..];
      }
      AsciiScan(t, pos + 1, str[1..], maxlen - 1);
      assert str == [str[0]] + str[1..];
    }
  }

  /** Two little-endian bytes decode to any 16-bit value they encode. */
  lemma ShortValue(v: int)
    requires 0 <= v < 0x1_0000
    ensures FromLE(LE(v, 2)) == v
  {
    LERoundTrip(v, 2);
    Pow256Values();
    ModUnique(v, 0x1_0000, 0, v);
  }

  /** A 16-bit read of two bytes that encode v. */
  lemma ShortAt(t: seq<byte>, pos: int, v: int)
    requires 0 <= v < 0x1_0000
    requires 0 <= pos && pos + 2 <= |t| && t[pos..pos + 2] == LE(v, 2)
    ensures GetIntelShort(t, pos) == v
  {
    ShortValue(v);
  }

  /** A stored concatenation: where each of its two parts lies. */
  lemma SliceParts(t: seq<byte>, pos: int, head: seq<byte>, tail: seq<byte>)
    requires 0 <= pos && pos + |head| + |tail| <= |t|
    requires t[pos..pos + |head| + |tail|] == head + tail
    ensures t[pos..pos + |head|] == head
    ensures t[pos + |head|..pos + |head| + |tail|] == tail
  {
    var w := t[pos..pos + |head| + |tail|];
    assert t[pos..pos + |head|] == w[..|head|];
    assert t[pos + |head|..pos + |head| + |tail|] == w[|head|..];
  }

  /** UnicodeZ of a non-empty string: its first unit, then the rest. */
  lemma UnicodeZCons(str: seq<int>)
    requires str != []
    ensures UnicodeZ(str) == LE(str[0], 2) + UnicodeZ(str[1..])
  {
  }

  /** The first unit of a stored UnicodeZ(str), and where the rest of it lies. */
  lemma UnicodeHead(t: seq<byte>, pos: int, str: seq<int>)
    requires str != [] && 0 < str[0] < 0x1_0000
    requires 0 <= pos && pos + 2 * |str| + 2 <= |t|
    requires t[pos..pos + 2 * |str| + 2] == UnicodeZ(str)
    ensures GetIntelShort(t, pos) == str[0]
    ensures t[pos + 2..pos + 2 + 2 * |str[1..]| + 2] == UnicodeZ(str[1..])
  {
    UnicodeZCons(str);
    SliceParts(t, pos, LE(str[0], 2), UnicodeZ(str[1..]));
    ShortAt(t, pos, str[0]);
  }

  /** getUnicodeString stops only at maxlen, at the end of the buffer or at a
      NUL unit, and each unit it returns is the 16-bit read at its position. */
  lemma {:induction false} UnicodeStops(s: seq<byte>, pos: int, maxlen: int)
    requires 0 <= pos
    ensures var r := GetUnicodeString(s, pos, maxlen);
      && (forall i :: 0 <= i < |r| ==> r[i] == GetIntelShort(s, pos + 2 * i))
      && (|r| < maxlen && pos + 2 * |r| + 2 <= |s| ==> GetIntelShort(s, pos + 2 * |r|) == 0)
    decreases |s| - pos
  {
    if !(maxlen <= 0 || pos + 2 > |s| || GetIntelShort(s, pos) == 0) {
      UnicodeStops(s, pos + 2, maxlen - 1);
      var r := GetUnicodeString(s, pos, maxlen);
      var r' := GetUnicodeString(s, pos + 2, maxlen - 1);
      assert r == [GetIntelShort(s, pos)] + r';
      assert forall i :: 1 <= i < |r| ==> r[i] == r'[i - 1];
    }
  }

  /** getUnicodeString at a NUL unit reads nothing. */
  lemma UnicodeNil(t: seq<byte>, pos: int, maxlen: int)
    requires 0 <= pos && pos + 2 <= |t| && t[pos..pos + 2] == UnicodeZ([])
    ensures GetUnicodeString(t, pos, maxlen) == []
  {
    assert LE(0, 2) == [0, 0];
    ShortAt(t, pos, 0);
  }

  /** getUnicodeString at a non-NUL unit u reads u, then goes on two bytes later. */
  lemma UnicodeCons(t: seq<byte>, pos: int, maxlen: int, str: seq<int>)
    requires str != [] && 0 < maxlen && 0 <= pos && pos + 2 <= |t|
    requires GetIntelShort(t, pos) == str[0] != 0
    requires GetUnicodeString(t, pos + 2, maxlen - 1) == str[1..]
    ensures GetUnicodeString(t, pos, maxlen) == str
  {
    assert [str[0]] + str[1..] == str;
  }

  /** A NUL-terminated Unicode string without NUL units reads back whole. */
  lemma {:induction false} UnicodeScan(t: seq<byte>, pos: int, str: seq<int>, maxlen: int)
    requires forall i :: 0 <= i < |str| ==> 0 < str[i] < 0x1_0000
    requires |str| <= maxlen
    requires 0 <= pos && pos + 2 * |str| + 2 <= |t|
    requires t[pos..pos + 2 * |str| + 2] == UnicodeZ(str)
    ensures GetUnicodeString(t, pos, maxlen) == str
    decreases |str|
  {
    if str == [] {
      UnicodeNil(t, pos, maxlen);
    } else {
      assert 0 < str[0] < 0x1_0000 && 0 < maxlen;
      UnicodeHead(t, pos, str);
      var rest := str[1..];
      assert forall i :: 0 <= i < |rest| ==> 0 < rest[i] < 0x1_0000 by {
        assert forall i :: 0 <= i < |rest| ==> rest[i] == str[i + 1];
      }
      UnicodeScan(t, pos + 2, rest, maxlen - 1);
      assert GetIntelShort(t, pos) == str[0] != 0;
      UnicodeCons(t, pos, maxlen, str);
    }
  }

  /** Storing one more byte right after a stored run extends the run. */
  lemma PutExtend(s: seq<byte>, off: int, w: seq<byte>, x: byte)
    requires 0 <= off && off + |w| < |s|
    ensures Put(s, off, w)[off + |w| := x] == Put(s, off, w + [x])
  {
    assert Put(s, off, w)[off + |w| := x] == s[..off] + (w + [x]) + s[off + |w| + 1..];
  }

  // ---------------------------------------------------------------------
  // Writes into an array

  /** Store the bytes w into a from offset off (the common core of every put). */
  method Write(a: array<byte>, off: int, w: seq<byte>)
    requires 0 <= off && off + |w| <= a.Length
    modifies a
    ensures a[..] == Put(old(a[..]), off, w)
  {
    forall i | 0 <= i < |w| {
      a[off + i] := w[i];
    }
    assert a[..] == Put(old(a[..]), off, w);
  }
}
