/** The header of a Topic response (TopicResponseHeader.cs): the first four bytes
    carry the signature 0x83 at offset 1 and a big-endian length field at offsets 2-3
    that counts the bytes after the header. */
module TopicResponseHeader {
  import opened Wire

  /** The number of header bytes; the response type tag follows them. */
  const HeaderLength: nat := 4

  const Signature: byte := 0x83

  /** True when the constructor reads the length field rather than returning early. */
  predicate HasHeader(data: seq<byte>)
  {
    |data| >= HeaderLength && data[1] == Signature
  }

  /** The length field, moved through the two-byte scratch array into host order
      and read back with BitConverter.ToUInt16. Whatever the host's byte order, the
      value is the big-endian reading of offsets 2-3. */
  function LengthField(data: seq<byte>, littleEndian: bool): (v: nat)
    requires |data| >= HeaderLength
    ensures v == BigEndian16(data[2], data[3])
  {
    var receiveLengthBytes := [0 as byte, 0][if littleEndian then 1 else 0 := data[2]]
                                            [if littleEndian then 0 else 1 := data[3]];
    ToUInt16(receiveLengthBytes, littleEndian)
  }

  /** The PacketLength property: the whole response's length (length field plus
      header), or 0 when the input is short, the signature is wrong, or the sum does
      not fit in 16 bits. */
  function PacketLength(data: seq<byte>, littleEndian: bool): (r: nat)
    ensures r == 0 || HeaderLength <= r <= UInt16MaxValue
    ensures r != 0 <==> HasHeader(data) && BigEndian16(data[2], data[3]) + HeaderLength <= UInt16MaxValue
    ensures r != 0 ==> r == BigEndian16(data[2], data[3]) + HeaderLength
  {
    if |data| < HeaderLength || data[1] != Signature then 0
    else
      var sum := LengthField(data, littleEndian) + HeaderLength;
      var intContentLength := if sum >= 0 then sum else 0;   // Math.Max(sum, 0)
      if intContentLength <= UInt16MaxValue then intContentLength else 0
  }

  /** The content length the receive loop asks the header for: the raw length field,
      present exactly when the constructor gets past its early return. */
  function ContentLength(data: seq<byte>, littleEndian: bool): (r: Option<nat>)
    ensures r.Some? <==> HasHeader(data)
    ensures r.Some? ==> r.value == BigEndian16(data[2], data[3]) && r.value <= UInt16MaxValue
    ensures PacketLength(data, littleEndian) != 0 ==>
              r == Some(PacketLength(data, littleEndian) - HeaderLength)
  {
    if |data| < HeaderLength || data[1] != Signature then None
    else Some(LengthField(data, littleEndian))
  }

  /** The header is decoded the same way on little- and big-endian hosts. */
  lemma PacketLengthEndianIndependent(data: seq<byte>)
    ensures PacketLength(data, true) == PacketLength(data, false)
    ensures ContentLength(data, true) == ContentLength(data, false)
  {
  }

  /** Only bytes 1-3 are read: inputs that agree there (and are both long enough)
      have the same header. */
  lemma HeaderReadsOnlyBytes1To3(a: seq<byte>, b: seq<byte>, littleEndian: bool)
    requires |a| >= HeaderLength && |b| >= HeaderLength
    requires a[1] == b[1] && a[2] == b[2] && a[3] == b[3]
    ensures PacketLength(a, littleEndian) == PacketLength(b, littleEndian)
    ensures ContentLength(a, littleEndian) == ContentLength(b, littleEndian)
  {
  }

  /** A length field of 65532 or more overflows the 16-bit packet length, which then
      stays 0; the Math.Max(..., 0) never changes the sum. */
  lemma PacketLengthOverflow(data: seq<byte>, littleEndian: bool)
    requires HasHeader(data)
    ensures BigEndian16(data[2], data[3]) >= 65532 <==> PacketLength(data, littleEndian) == 0
  {
  }
}
