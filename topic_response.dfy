/** A decoded Topic response (TopicResponse.cs, TopicResponseType.cs): the header,
    the response type from the tag byte at offset 4, and the string or float payload. */
module TopicResponse {
  import opened Wire
  import opened TopicResponseHeader

  datatype ResponseType = UnknownResponse | StringResponse | FloatResponse

  const StringTag: byte := 0x06
  const FloatTag: byte := 0x2a

  /** The properties of a TopicResponse. The string is kept as its UTF-8 bytes with
      the trailing NULs removed; the float as the 32-bit pattern of its bytes. */
  datatype Response = Response(
    rawData: seq<byte>,
    packetLength: nat,
    responseType: ResponseType,
    stringData: Option<seq<byte>>,
    floatBits: Option<nat>)

  /** The response type chosen from the tag byte; reading the tag fails when a
      valid header is not followed by it. */
  function DetectType(rawData: seq<byte>, packetLength: nat): (r: Result<ResponseType>)
    ensures packetLength == 0 ==> r == Ok(UnknownResponse)
    ensures packetLength >= 1 && |rawData| < 5 ==> r == Err(IndexOutOfRange)
    ensures packetLength >= 1 && |rawData| >= 5 ==>
              r == Ok(if rawData[4] == StringTag then StringResponse
                      else if rawData[4] == FloatTag && packetLength >= 5 then FloatResponse
                      else UnknownResponse)
  {
    if packetLength >= 1 then
      if |rawData| < 5 then Err(IndexOutOfRange)
      else
        var responseType := rawData[4];
        var t := if responseType == StringTag then StringResponse else UnknownResponse;
        Ok(if responseType == FloatTag && packetLength >= 5 then FloatResponse else t)
    else Ok(UnknownResponse)
  }

  /** The float's bytes 5-8 moved into host order through the four-byte scratch
      array, then read as BitConverter.ToSingle would read them. */
  function FloatBits(rawData: seq<byte>, littleEndian: bool): (v: nat)
    requires |rawData| >= 9
    ensures v == LittleEndian32(rawData[5], rawData[6], rawData[7], rawData[8])
  {
    var floatBytes := [0 as byte, 0, 0, 0][if littleEndian then 0 else 3 := rawData[5]]
                                          [if littleEndian then 1 else 2 := rawData[6]]
                                          [if littleEndian then 2 else 1 := rawData[7]]
                                          [if littleEndian then 3 else 0 := rawData[8]];
    ToUInt32(floatBytes, littleEndian)
  }

  /** The TopicResponse constructor. */
  function Decode(rawData: seq<byte>, littleEndian: bool): (r: Result<Response>)
    ensures r.Ok? ==> r.value.rawData == rawData
    ensures r.Ok? ==> r.value.packetLength == PacketLength(rawData, littleEndian)
    ensures r.Ok? ==> !(r.value.stringData.Some? && r.value.floatBits.Some?)
    ensures r.Ok? ==> (r.value.stringData.Some? <==> r.value.responseType == StringResponse)
    ensures r.Ok? ==> (r.value.floatBits.Some? <==> r.value.responseType == FloatResponse)
  {
    var packetLength := PacketLength(rawData, littleEndian);
    match DetectType(rawData, packetLength)
    case Err(e) => Err(e)
    case Ok(responseType) =>
      match responseType
      case StringResponse =>
        var stringStartIndex := HeaderLength + 1;
        var stringEndIndex := packetLength - 1;
        if stringStartIndex <= stringEndIndex <= |rawData| then
          Ok(Response(rawData, packetLength, responseType,
                      Some(TrimEnd(rawData[stringStartIndex..stringEndIndex], 0)), None))
        else Err(SliceOutOfRange)
      case FloatResponse =>
        if |rawData| < 9 then Err(IndexOutOfRange)
        else Ok(Response(rawData, packetLength, responseType, None, Some(FloatBits(rawData, littleEndian))))
      case UnknownResponse =>
        Ok(Response(rawData, packetLength, responseType, None, None))
  }

  /** An invalid header (PacketLength 0) gives an unknown response with no data. */
  lemma DecodeInvalidHeader(rawData: seq<byte>, littleEndian: bool)
    requires PacketLength(rawData, littleEndian) == 0
    ensures Decode(rawData, littleEndian) == Ok(Response(rawData, 0, UnknownResponse, None, None))
  {
  }

  /** Tag 0x06 means a string, tag 0x2a a float when the packet is at least five
      bytes long, and every other tag an unknown response; a valid header without
      the tag byte fails. */
  lemma DecodeResponseType(rawData: seq<byte>, littleEndian: bool)
    requires PacketLength(rawData, littleEndian) != 0
    ensures |rawData| < 5 ==> Decode(rawData, littleEndian) == Err(IndexOutOfRange)
    ensures |rawData| >= 5 && rawData[4] != StringTag && rawData[4] != FloatTag ==>
              Decode(rawData, littleEndian) == Ok(Response(rawData, PacketLength(rawData, littleEndian),
                                                           UnknownResponse, None, None))
    ensures |rawData| >= 5 && rawData[4] == StringTag && Decode(rawData, littleEndian).Ok? ==>
              Decode(rawData, littleEndian).value.responseType == StringResponse
    ensures |rawData| >= 5 && rawData[4] == FloatTag && Decode(rawData, littleEndian).Ok? ==>
              Decode(rawData, littleEndian).value.responseType ==
                (if PacketLength(rawData, littleEndian) >= 5 then FloatResponse else UnknownResponse)
  {
  }

  /** A string response decodes exactly when 6 <= PacketLength <= |rawData| + 1; its
      data is bytes [5, PacketLength - 1) without trailing NULs, so it never ends in one. */
  lemma DecodeString(rawData: seq<byte>, littleEndian: bool)
    requires PacketLength(rawData, littleEndian) != 0 && |rawData| >= 5 && rawData[4] == StringTag
    ensures var p := PacketLength(rawData, littleEndian);
            Decode(rawData, littleEndian).Ok? <==> 6 <= p <= |rawData| + 1
    ensures var p := PacketLength(rawData, littleEndian);
            Decode(rawData, littleEndian).Ok? ==>
              var s := Decode(rawData, littleEndian).value.stringData.value;
              s <= rawData[5..p - 1] && (s == [] || s[|s| - 1] != 0)
              && forall i :: 5 + |s| <= i < p - 1 ==> rawData[i] == 0
    ensures Decode(rawData, littleEndian).Err? ==> Decode(rawData, littleEndian).error == SliceOutOfRange
  {
    var p := PacketLength(rawData, littleEndian);
    if 6 <= p <= |rawData| + 1 {
      var t := rawData[5..p - 1];
      var s := TrimEnd(t, 0);
      forall i | 5 + |s| <= i < p - 1 ensures rawData[i] == 0 {
        assert rawData[i] == t[i - 5];
      }
    }
  }

  /** A float response decodes exactly when bytes 5-8 are present; its pattern is
      those bytes in little-endian order. */
  lemma DecodeFloat(rawData: seq<byte>, littleEndian: bool)
    requires PacketLength(rawData, littleEndian) >= 5 && |rawData| >= 5 && rawData[4] == FloatTag
    ensures Decode(rawData, littleEndian).Ok? <==> |rawData| >= 9
    ensures Decode(rawData, littleEndian).Err? ==> Decode(rawData, littleEndian).error == IndexOutOfRange
    ensures |rawData| >= 9 ==>
              Decode(rawData, littleEndian).value.floatBits ==
                Some(LittleEndian32(rawData[5], rawData[6], rawData[7], rawData[8]))
              && Decode(rawData, littleEndian).value.stringData == None
  {
  }

  /** The decoder gives the same response on little- and big-endian hosts. */
  lemma DecodeEndianIndependent(rawData: seq<byte>)
    ensures Decode(rawData, true) == Decode(rawData, false)
  {
  }

  /** The string reply "hello" as a server frames it: length field 7 (tag, five
      characters, terminator). */
  lemma DecodeHello(littleEndian: bool)
    ensures Decode([0, 0x83, 0, 7, 0x06, 0x68, 0x65, 0x6c, 0x6c, 0x6f, 0], littleEndian).Ok?
    ensures Decode([0, 0x83, 0, 7, 0x06, 0x68, 0x65, 0x6c, 0x6c, 0x6f, 0], littleEndian).value.stringData
            == Some([0x68, 0x65, 0x6c, 0x6c, 0x6f])
  {
    var raw: seq<byte> := [0, 0x83, 0, 7, 0x06, 0x68, 0x65, 0x6c, 0x6c, 0x6f, 0];
    assert PacketLength(raw, littleEndian) == 11;
    assert raw[5..10] == [0x68, 0x65, 0x6c, 0x6c, 0x6f];
  }
}
