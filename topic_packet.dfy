/** The request side of the Topic protocol, written the same way in
    TopicClient.SendTopic and ByondTopicSender.SendTopic: the packet built from a
    query string, and the loop that hands it to the socket chunk by chunk. */
module TopicPacket {
  import opened Wire

  /** The bytes before the query: NUL, the 0x83 signature, the length, four NULs. */
  const PrefixLength: nat := 8

  /** The query as sent: a '?' is prepended unless it already starts with one. */
  function WithQuestionMark(queryString: string): (q: string)
    ensures |q| > 0 && q[0] == '?'
    ensures q == queryString <==> |queryString| > 0 && queryString[0] == '?'
    ensures q != queryString ==> q == "?" + queryString
  {
    if |queryString| == 0 || queryString[0] != '?' then "?" + queryString else queryString
  }

  /** The request packet: [0x00, 0x83, length (big-endian), 0x00 x 4], the UTF-8
      query after WithQuestionMark, then a NUL. The length counts everything after
      offset 3 and must fit in 16 bits. */
  function RequestPacket(queryString: string): (r: Result<seq<byte>>)
    ensures r.Err? ==> r.error == TopicTooLong
  {
    var body := Utf8(WithQuestionMark(queryString));
    var finalLength := PrefixLength + |body| + 1 - 4;
    if finalLength > UInt16MaxValue then Err(TopicTooLong)
    else
      Ok([0, 0x83, (finalLength / 256) as byte, (finalLength % 256) as byte, 0, 0, 0, 0] + body + [0])
  }

  /** Reads a request packet back: checks the framing and decodes the query. */
  function DecodeRequest(packet: seq<byte>): Option<string>
  {
    if |packet| < PrefixLength + 1 || packet[0] != 0 || packet[1] != 0x83
       || BigEndian16(packet[2], packet[3]) != |packet| - 4
       || packet[4..PrefixLength] != [0, 0, 0, 0] || packet[|packet| - 1] != 0
    then None
    else Utf8Decode(packet[PrefixLength..|packet| - 1])
  }

  /** The layout of a successfully built packet. */
  lemma RequestLayout(queryString: string)
    requires RequestPacket(queryString).Ok?
    ensures var p := RequestPacket(queryString).value;
            var body := Utf8(WithQuestionMark(queryString));
            |p| == PrefixLength + |body| + 1
            && p[0] == 0 && p[1] == 0x83 && p[4..PrefixLength] == [0, 0, 0, 0]
            && p[PrefixLength..|p| - 1] == body && p[PrefixLength] == 0x3F && p[|p| - 1] == 0
            && BigEndian16(p[2], p[3]) == |p| - 4
  {
  }

  /** Building fails exactly when the length field would exceed 65535. */
  lemma RequestTooLong(queryString: string)
    ensures RequestPacket(queryString).Err? <==>
              |Utf8(WithQuestionMark(queryString))| + PrefixLength + 1 - 4 > UInt16MaxValue
  {
  }

  /** A query without its leading '?' gives the same packet as with it. */
  lemma RequestQuestionMarkIdempotent(queryString: string)
    requires |queryString| == 0 || queryString[0] != '?'
    ensures RequestPacket(queryString) == RequestPacket("?" + queryString)
  {
  }

  /** Decoding a built packet gives back the query that was framed. */
  lemma RequestRoundTrip(queryString: string)
    requires RequestPacket(queryString).Ok?
    ensures DecodeRequest(RequestPacket(queryString).value) == Some(WithQuestionMark(queryString))
  {
    RequestLayout(queryString);
    Utf8RoundTrip(WithQuestionMark(queryString));
  }

  /** The packet construction as the source performs it: a StringBuilder of eight
      NULs, the query and a NUL, UTF-8 encoded into an array; byte 1 overwritten with
      0x83, the length checked, then bytes 2-3 taken from BitConverter.GetBytes in
      the host's byte order. */
  method BuildRequestPacket(queryString: string, littleEndian: bool) returns (r: Result<seq<byte>>)
    ensures r == RequestPacket(queryString)
  {
    var stringPacket: string := "\0\0\0\0\0\0\0\0";
    var query := queryString;
    if |query| == 0 || query[0] != '?' {
      query := "?" + query;
    }
    stringPacket := stringPacket + query;
    stringPacket := stringPacket + "\0";
    var fullString := stringPacket;

    var bytes := Utf8(fullString);
    Utf8Framed(query);
    assert query == WithQuestionMark(queryString);
    ghost var body := Utf8(query);
    assert bytes == Zeros(PrefixLength) + body + [0];
    var sendPacket := new byte[|bytes|](i requires 0 <= i < |bytes| => bytes[i]);
    assert sendPacket[..] == bytes;
    sendPacket[1] := 0x83;
    assert sendPacket[..] == bytes[1 := 0x83];
    var finalLength := sendPacket.Length - 4;
    assert finalLength == PrefixLength + |body| + 1 - 4;
    if finalLength > UInt16MaxValue {
      assert RequestPacket(queryString) == Err(TopicTooLong);
      return Err(TopicTooLong);
    }
    assert RequestPacket(queryString) ==
           Ok([0, 0x83, (finalLength / 256) as byte, (finalLength % 256) as byte, 0, 0, 0, 0] + body + [0]);
    var sendLengthBytes := GetBytes16(finalLength, littleEndian);
    var hi, lo := sendLengthBytes[if littleEndian then 1 else 0], sendLengthBytes[if littleEndian then 0 else 1];
    sendPacket[2] := hi;
    assert sendPacket[..] == bytes[1 := 0x83][2 := hi];
    sendPacket[3] := lo;
    assert sendPacket[..] == bytes[1 := 0x83][2 := hi][3 := lo];
    BigEndian16Digits(hi, lo);
    HeaderWrites(query, hi, lo);
    r := Ok(sendPacket[..]);
  }

  /** Writing the signature and the length over the NULs at offsets 1-3. */
  lemma HeaderWrites(query: string, hi: byte, lo: byte)
    ensures (Zeros(PrefixLength) + Utf8(query) + [0])[1 := 0x83][2 := hi][3 := lo]
            == [0, 0x83, hi, lo, 0, 0, 0, 0] + Utf8(query) + [0]
  {
  }

  /** UTF-8 encoding of the built string: the NULs become zero bytes around the query's bytes. */
  lemma Utf8Framed(query: string)
    ensures Utf8("\0\0\0\0\0\0\0\0" + query + "\0") == Zeros(PrefixLength) + Utf8(query) + [0]
  {
    Utf8Append("\0\0\0\0\0\0\0\0" + query, "\0");
    Utf8Append("\0\0\0\0\0\0\0\0", query);
    Utf8Ascii("\0\0\0\0\0\0\0\0");
    Utf8Ascii("\0");
  }

  // ---------------------------------------------------------------------------
  // The send loop

  /** Socket.BeginSend's argument rule: the count may not run past the buffer. */
  predicate SendArgumentsValid(bufferLength: nat, offset: nat, size: nat)
  {
    offset <= bufferLength && size <= bufferLength - offset
  }

  /** The count ByondTopicSender.cs passes to BeginSend: the rest of the packet. */
  function SendCount(packetLength: nat, offset: nat): (size: nat)
    requires offset <= packetLength
    ensures offset + size == packetLength
    ensures SendArgumentsValid(packetLength, offset, size)
  {
    packetLength - offset
  }

  /** The count TopicClient.cs passes to BeginSend, as written. */
  function SendCountAsWritten(packetLength: nat, offset: nat): nat
  {
    packetLength + offset
  }

  /** Once a send has been partial, the as-written count is refused by BeginSend. */
  lemma SendCountAsWrittenInvalid(packetLength: nat, offset: nat)
    requires 0 < offset <= packetLength
    ensures !SendArgumentsValid(packetLength, offset, SendCountAsWritten(packetLength, offset))
  {
  }

  /** The concrete case: a 10-byte packet, 4 bytes already sent. */
  lemma SendCountAsWrittenExample()
    ensures SendCountAsWritten(10, 4) == 14 && !SendArgumentsValid(10, 4, 14)
    ensures SendCount(10, 4) == 6 && SendArgumentsValid(10, 4, 6)
  {
  }

  /** The send loop over an abstract socket: accepted[k] bounds how many bytes the
      k-th send takes (sends past the end of accepted take everything offered).
      Returns the bytes in the order the peer receives them and the number of sends. */
  method SendLoop(packet: seq<byte>, accepted: seq<nat>) returns (wire: seq<byte>, sends: nat)
    requires forall k :: 0 <= k < |accepted| ==> accepted[k] > 0
    ensures wire == packet
    ensures sends <= |packet| && sends <= |accepted| + 1
    ensures |packet| > 0 ==> sends >= 1
  {
    var offset := 0;
    wire, sends := [], 0;
    while offset < |packet|
      invariant offset <= |packet|
      invariant wire == packet[..offset]
      invariant sends <= offset
      invariant sends <= |accepted| + 1
      invariant sends > |accepted| ==> offset == |packet|
      invariant |packet| > 0 && offset == |packet| ==> sends >= 1
    {
      var size := SendCount(|packet|, offset);
      var sent := if sends < |accepted| then Min(accepted[sends], size) else size;
      wire := wire + packet[offset..offset + sent];
      offset := offset + sent;
      sends := sends + 1;
    }
  }
}
