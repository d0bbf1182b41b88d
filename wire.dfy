/** Bytes, results, and the framework conversions the Topic code relies on:
    BitConverter's host-order 16- and 32-bit conversions, UTF-8 encoding and the
    ASCII decoder with the String trimming helpers. */
module Wire {

  newtype byte = b: int | 0 <= b < 256

  datatype Option<+T> = None | Some(value: T)

  /** The exceptions the modelled code throws. */
  datatype Error =
    | TopicTooLong           // ArgumentOutOfRangeException("Topic too long!") while building a request
    | MissingContentLength   // InvalidOperationException: the header gave no content length
    | IndexOutOfRange        // an element read past the end of the received bytes
    | SliceOutOfRange        // ArgumentOutOfRangeException from a range slice of the received bytes

  datatype Result<+T> = Ok(value: T) | Err(error: Error)

  const UInt16MaxValue: nat := 65535

  function Min(a: int, b: int): int { if a <= b then a else b }

  function Zeros(n: nat): (z: seq<byte>)
    ensures |z| == n && forall i :: 0 <= i < n ==> z[i] == 0
  {
    seq(n, _ => 0)
  }

  /** The value of two bytes in network (big-endian) order. */
  function BigEndian16(hi: byte, lo: byte): (v: nat)
    ensures v <= UInt16MaxValue
  {
    256 * hi as nat + lo as nat
  }

  /** The two bytes are the big-endian digits of their value. */
  lemma BigEndian16Digits(hi: byte, lo: byte)
    ensures BigEndian16(hi, lo) / 256 == hi as int && BigEndian16(hi, lo) % 256 == lo as int
  {
  }

  /** The value of four bytes in little-endian order. */
  function LittleEndian32(b0: byte, b1: byte, b2: byte, b3: byte): (v: nat)
    ensures v < 0x1_0000_0000
  {
    b0 as nat + 0x100 * b1 as nat + 0x1_0000 * b2 as nat + 0x100_0000 * b3 as nat
  }

  /** BitConverter.ToUInt16: two bytes read in the host's byte order. */
  function ToUInt16(b: seq<byte>, littleEndian: bool): (v: nat)
    requires |b| == 2
    ensures v <= UInt16MaxValue
    ensures v == if littleEndian then BigEndian16(b[1], b[0]) else BigEndian16(b[0], b[1])
  {
    if littleEndian then b[0] as nat + 256 * b[1] as nat else 256 * b[0] as nat + b[1] as nat
  }

  /** BitConverter.GetBytes(ushort): the two bytes of v in the host's byte order. */
  function GetBytes16(v: nat, littleEndian: bool): (r: seq<byte>)
    requires v <= UInt16MaxValue
    ensures |r| == 2
    ensures ToUInt16(r, littleEndian) == v
  {
    var lo, hi := (v % 256) as byte, (v / 256) as byte;
    if littleEndian then [lo, hi] else [hi, lo]
  }

  /** The 32-bit pattern BitConverter.ToSingle reinterprets: four bytes read in the
      host's byte order. */
  function ToUInt32(b: seq<byte>, littleEndian: bool): (v: nat)
    requires |b| == 4
    ensures v < 0x1_0000_0000
    ensures v == if littleEndian then LittleEndian32(b[0], b[1], b[2], b[3])
                 else LittleEndian32(b[3], b[2], b[1], b[0])
  {
    if littleEndian then LittleEndian32(b[0], b[1], b[2], b[3])
    else 0x100_0000 * b[0] as nat + 0x1_0000 * b[1] as nat + 0x100 * b[2] as nat + b[3] as nat
  }

  // ---------------------------------------------------------------------------
  // UTF-8 (Encoding.UTF8.GetBytes on Unicode scalar values)

  predicate IsContinuation(b: byte) { 0x80 <= b < 0xC0 }

  predicate IsScalar(cp: int) { 0 <= cp < 0xD800 || 0xE000 <= cp < 0x11_0000 }

  /** The UTF-8 bytes of one character. */
  function CharUtf8(c: char): (r: seq<byte>)
    ensures 1 <= |r| <= 4
    ensures (r[0] < 0x80) == (|r| == 1)
    ensures |r| == 1 ==> r[0] as int == c as int
    ensures forall i :: 1 <= i < |r| ==> IsContinuation(r[i])
  {
    var cp := c as int;
    if cp < 0x80 then [cp as byte]
    else if cp < 0x800 then [(0xC0 + cp / 64) as byte, (0x80 + cp % 64) as byte]
    else if cp < 0x1_0000 then
      [(0xE0 + cp / 4096) as byte, (0x80 + (cp / 64) % 64) as byte, (0x80 + cp % 64) as byte]
    else
      [(0xF0 + cp / 262144) as byte, (0x80 + (cp / 4096) % 64) as byte,
       (0x80 + (cp / 64) % 64) as byte, (0x80 + cp % 64) as byte]
  }

  /** Encoding.UTF8.GetBytes. */
  function Utf8(s: string): (r: seq<byte>)
    ensures |r| >= |s|
    ensures s == [] <==> r == []
  {
    if s == [] then [] else CharUtf8(s[0]) + Utf8(s[1..])
  }

  lemma {:induction false} Utf8Append(a: string, b: string)
    ensures Utf8(a + b) == Utf8(a) + Utf8(b)
  {
    if a == [] {
      assert a + b == b;
    } else {
      assert (a + b)[0] == a[0];
      assert (a + b)[1..] == a[1..] + b;
      Utf8Append(a[1..], b);
    }
  }

  /** ASCII text (NUL, '?', the query's plain characters) encodes byte for byte. */
  lemma {:induction false} Utf8Ascii(s: string)
    requires forall i :: 0 <= i < |s| ==> s[i] as int < 0x80
    ensures |Utf8(s)| == |s|
    ensures forall i :: 0 <= i < |s| ==> Utf8(s)[i] as int == s[i] as int
  {
    if s != [] {
      Utf8Ascii(s[1..]);
      assert Utf8(s) == [s[0] as int as byte] + Utf8(s[1..]);
    }
  }

  /** Reads one character from the front of UTF-8 bytes: the character and how many
      bytes it used, or None when the front is not a well-formed sequence. */
  function Utf8DecodeFirst(b: seq<byte>): (r: Option<(char, nat)>)
    requires |b| > 0
    ensures r.Some? ==> 1 <= r.value.1 <= |b| && r.value.1 <= 4
  {
    var b0 := b[0] as int;
    if b0 < 0x80 then Some((b0 as char, 1))
    else if 0xC0 <= b0 < 0xE0 && |b| >= 2 && IsContinuation(b[1]) then
      var cp := (b0 - 0xC0) * 64 + (b[1] as int - 0x80);
      if 0x80 <= cp then Some((cp as char, 2)) else None
    else if 0xE0 <= b0 < 0xF0 && |b| >= 3 && IsContinuation(b[1]) && IsContinuation(b[2]) then
      var cp := (b0 - 0xE0) * 4096 + (b[1] as int - 0x80) * 64 + (b[2] as int - 0x80);
      if 0x800 <= cp && IsScalar(cp) then Some((cp as char, 3)) else None
    else if 0xF0 <= b0 < 0xF8 && |b| >= 4 && IsContinuation(b[1]) && IsContinuation(b[2])
            && IsContinuation(b[3]) then
      var cp := (b0 - 0xF0) * 262144 + (b[1] as int - 0x80) * 4096
                + (b[2] as int - 0x80) * 64 + (b[3] as int - 0x80);
      if 0x1_0000 <= cp && IsScalar(cp) then Some((cp as char, 4)) else None
    else None
  }

  /** UTF-8 decoding of well-formed input; None on the first malformed sequence. */
  function Utf8Decode(b: seq<byte>): Option<string>
    decreases |b|
  {
    if b == [] then Some([])
    else match Utf8DecodeFirst(b)
      case None => None
      case Some((c, n)) =>
        match Utf8Decode(b[n..])
        case None => None
        case Some(rest) => Some([c] + rest)
  }

  lemma CharUtf8DecodesFirst(c: char, rest: seq<byte>)
    ensures Utf8DecodeFirst(CharUtf8(c) + rest) == Some((c, |CharUtf8(c)|))
  {
    var cp := c as int;
    var e := CharUtf8(c);
    var b := e + rest;
    if cp < 0x80 {
    } else if cp < 0x800 {
      assert b[0] as int == 0xC0 + cp / 64 && b[1] as int == 0x80 + cp % 64;
      assert (cp / 64) * 64 + cp % 64 == cp;
    } else if cp < 0x1_0000 {
      assert b[0] as int == 0xE0 + cp / 4096;
      assert b[1] as int == 0x80 + (cp / 64) % 64 && b[2] as int == 0x80 + cp % 64;
      DivMod64(cp);
    } else {
      assert b[0] as int == 0xF0 + cp / 262144;
      assert b[1] as int == 0x80 + (cp / 4096) % 64;
      assert b[2] as int == 0x80 + (cp / 64) % 64 && b[3] as int == 0x80 + cp % 64;
      DivMod64(cp);
      DivMod64(cp / 64);
      assert cp / 262144 == (cp / 64) / 4096;
      assert cp / 4096 == (cp / 64) / 64;
    }
  }

  /** Splitting a number into base-64 digits and putting them back gives the number. */
  lemma DivMod64(x: nat)
    ensures (x / 4096) * 4096 + ((x / 64) % 64) * 64 + x % 64 == x
    ensures x / 4096 == (x / 64) / 64
  {
  }

  lemma {:induction false} Utf8RoundTrip(s: string)
    ensures Utf8Decode(Utf8(s)) == Some(s)
  {
    if s != [] {
      var e := CharUtf8(s[0]);
      CharUtf8DecodesFirst(s[0], Utf8(s[1..]));
      assert (e + Utf8(s[1..]))[|e|..] == Utf8(s[1..]);
      Utf8RoundTrip(s[1..]);
      assert [s[0]] + s[1..] == s;
    }
  }

  // ---------------------------------------------------------------------------
  // Encoding.ASCII.GetString and the String trimming helpers

  /** The character ASCII decoding gives a byte: itself below 0x80, '?' otherwise. */
  function AsciiChar(b: byte): (c: char)
    ensures c as int < 0x80
    ensures b < 0x80 ==> c as int == b as int
    ensures b >= 0x80 ==> c == '?'
  {
    if b < 0x80 then (b as int) as char else '?'
  }

  /** Encoding.ASCII.GetString. */
  function AsciiDecode(data: seq<byte>): (s: string)
    ensures |s| == |data|
    ensures forall i :: 0 <= i < |s| ==> s[i] == AsciiChar(data[i])
  {
    if data == [] then [] else [AsciiChar(data[0])] + AsciiDecode(data[1..])
  }

  /** Char.IsWhiteSpace on the Latin-1 range. */
  predicate IsWhiteSpace(c: char)
  {
    c == ' ' || ('\t' <= c <= '\r') || c as int == 0x85 || c as int == 0xA0
  }

  /** TrimEnd(x): drops every trailing occurrence of x. */
  function TrimEnd<T(==)>(s: seq<T>, x: T): (r: seq<T>)
    ensures r <= s
    ensures r == [] || r[|r| - 1] != x
    ensures forall i :: |r| <= i < |s| ==> s[i] == x
    decreases |s|
  {
    if |s| > 0 && s[|s| - 1] == x then TrimEnd(s[..|s| - 1], x) else s
  }

  /** Drops leading white space. */
  function TrimStartWhiteSpace(s: string): (r: string)
    ensures |r| <= |s| && r == s[|s| - |r|..]
    ensures r == [] || !IsWhiteSpace(r[0])
    ensures forall i :: 0 <= i < |s| - |r| ==> IsWhiteSpace(s[i])
  {
    if |s| > 0 && IsWhiteSpace(s[0]) then TrimStartWhiteSpace(s[1..]) else s
  }

  /** Drops trailing white space. */
  function TrimEndWhiteSpace(s: string): (r: string)
    ensures r <= s
    ensures r == [] || !IsWhiteSpace(r[|r| - 1])
    ensures forall i :: |r| <= i < |s| ==> IsWhiteSpace(s[i])
    decreases |s|
  {
    if |s| > 0 && IsWhiteSpace(s[|s| - 1]) then TrimEndWhiteSpace(s[..|s| - 1]) else s
  }

  /** String.Trim(): drops white space at both ends. */
  function Trim(s: string): string
  {
    TrimEndWhiteSpace(TrimStartWhiteSpace(s))
  }

  /** A prefix r of a suffix t of s, where s is white space before t and t is white
      space after r, is a slice of s with only white space outside it. */
  lemma TrimmedSlice(s: string, t: string, r: string)
    requires |t| <= |s| && t == s[|s| - |t|..] && r <= t
    requires forall i :: 0 <= i < |s| - |t| ==> IsWhiteSpace(s[i])
    requires forall i :: |r| <= i < |t| ==> IsWhiteSpace(t[i])
    requires t == [] || !IsWhiteSpace(t[0])
    requires r == [] || !IsWhiteSpace(r[|r| - 1])
    ensures |s| - |t| + |r| <= |s|
    ensures forall i {:trigger r[i]} :: 0 <= i < |r| ==> r[i] == s[|s| - |t| + i]
    ensures forall i :: 0 <= i < |s| - |t| ==> IsWhiteSpace(s[i])
    ensures forall i :: |s| - |t| + |r| <= i < |s| ==> IsWhiteSpace(s[i])
    ensures r == [] || (!IsWhiteSpace(r[0]) && !IsWhiteSpace(r[|r| - 1]))
  {
    var k := |s| - |t|;
    forall i | 0 <= i < |r| ensures r[i] == s[k + i] {
      assert r[i] == t[i];
    }
    forall i | k + |r| <= i < |s| ensures IsWhiteSpace(s[i]) {
      assert s[i] == t[i - k];
    }
    assert r != [] ==> r[0] == t[0];
  }

  /** Trim keeps one slice of s, starting after the leading white space, with only
      white space outside it and none at its ends. */
  lemma TrimSlice(s: string)
    ensures |s| - |TrimStartWhiteSpace(s)| + |Trim(s)| <= |s|
    ensures forall i {:trigger Trim(s)[i]} :: 0 <= i < |Trim(s)| ==> Trim(s)[i] == s[|s| - |TrimStartWhiteSpace(s)| + i]
    ensures forall i :: 0 <= i < |s| - |TrimStartWhiteSpace(s)| ==> IsWhiteSpace(s[i])
    ensures forall i :: |s| - |TrimStartWhiteSpace(s)| + |Trim(s)| <= i < |s| ==> IsWhiteSpace(s[i])
    ensures Trim(s) == [] || (!IsWhiteSpace(Trim(s)[0]) && !IsWhiteSpace(Trim(s)[|Trim(s)| - 1]))
  {
    var t := TrimStartWhiteSpace(s);
    var r := TrimEndWhiteSpace(t);
    assert Trim(s) == r;
    TrimmedSlice(s, t, r);
  }
}
