/** TopicClient.SendTopic's transport phases: the send loop, the header-driven
    receive loop that grows its buffer once the header is known, and the
    truncation of the buffer to what was read. The peer is abstract: the bytes it
    sends before closing, and how many of them each receive returns. */
module TopicClient {
  import opened Wire
  import opened TopicResponseHeader
  import opened TopicPacket
  import opened TopicResponse

  /** The size of the first receive buffer. */
  const InitialBufferLength: nat := 5

  /** The buffer length the loop resizes to: (ushort)(HeaderLength + ContentLength),
      which wraps around past 65535. */
  function ExpectedLength(contentLength: nat): (n: nat)
    ensures n <= UInt16MaxValue
    ensures HeaderLength + contentLength <= UInt16MaxValue ==> n == HeaderLength + contentLength
    ensures UInt16MaxValue < HeaderLength + contentLength <= 2 * UInt16MaxValue ==>
              n == HeaderLength + contentLength - 65536
  {
    (HeaderLength + contentLength) % 65536
  }

  /** Array.Resize: a new array of length n holding the first min(n, src.Length)
      elements of src, zero after them. */
  method Resize(src: array<byte>, n: nat) returns (dst: array<byte>)
    ensures fresh(dst) && dst.Length == n
    ensures forall i :: 0 <= i < n && i < src.Length ==> dst[i] == src[i]
    ensures forall i :: src.Length <= i < n ==> dst[i] == 0
  {
    dst := new byte[n];
    for i := 0 to n
      invariant forall j :: 0 <= j < i && j < src.Length ==> dst[j] == src[j]
      invariant forall j :: src.Length <= j < i ==> dst[j] == 0
    {
      dst[i] := if i < src.Length then src[i] else 0;
    }
  }

  /** The state of the receive loop. */
  class Receiver {
    var buffer: array<byte>
    var receiveOffset: nat
    var checkedHeader: bool
    /** Every byte received so far, in order. */
    ghost var received: seq<byte>
    /** BitConverter.IsLittleEndian, which the header parser consults. */
    const littleEndian: bool

    /** The loop's invariant: the buffer holds the bytes received that fit in it;
        until the header is checked it is the 5-byte first buffer and fewer than
        HeaderLength bytes have arrived; afterwards its length is the one the
        header declared. */
    ghost predicate Valid()
      reads this, buffer
    {
      |received| == receiveOffset
      && (forall i :: 0 <= i < buffer.Length && i < receiveOffset ==> buffer[i] == received[i])
      && (!checkedHeader ==> buffer.Length == InitialBufferLength && receiveOffset < HeaderLength)
      && (checkedHeader ==>
            HasHeader(received) && receiveOffset <= InitialBufferLength + buffer.Length
            && buffer.Length == ExpectedLength(BigEndian16(received[2], received[3])))
    }

    constructor (littleEndian: bool)
      ensures Valid() && fresh(buffer)
      ensures this.littleEndian == littleEndian
      ensures buffer.Length == InitialBufferLength && receiveOffset == 0 && !checkedHeader && received == []
    {
      buffer := new byte[InitialBufferLength];
      receiveOffset := 0;
      checkedHeader := false;
      received := [];
      this.littleEndian := littleEndian;
    }

    /** Space the next receive asks for. */
    function Room(): int
      reads this, buffer
    {
      buffer.Length - receiveOffset
    }

    /** One non-empty receive: the chunk lands at receiveOffset; the first time at
        least HeaderLength bytes are in, the header is parsed and the buffer resized
        to the declared length, keeping what was read. Returns false where the
        source throws because the header has no content length. */
    method Receive(chunk: seq<byte>) returns (ok: bool)
      requires Valid()
      requires 0 < |chunk| <= buffer.Length - receiveOffset
      modifies this, buffer
      ensures received == old(received) + chunk && receiveOffset == old(receiveOffset) + |chunk|
      ensures ok <==> old(checkedHeader) || receiveOffset < HeaderLength || HasHeader(received)
      ensures checkedHeader <==> ok && (old(checkedHeader) || receiveOffset >= HeaderLength)
      ensures old(checkedHeader) || receiveOffset < HeaderLength ==> buffer == old(buffer)
      ensures ok ==> Valid()
      ensures buffer == old(buffer) || fresh(buffer)
    {
      for j := 0 to |chunk|
        modifies buffer
        invariant forall i :: 0 <= i < buffer.Length && i < receiveOffset ==> buffer[i] == received[i]
        invariant forall i :: 0 <= i < j ==> buffer[receiveOffset + i] == chunk[i]
      {
        buffer[receiveOffset + j] := chunk[j];
      }
      received := received + chunk;
      receiveOffset := receiveOffset + |chunk|;
      ok := true;
      if !checkedHeader && receiveOffset >= HeaderLength {
        var header := ContentLength(buffer[..], littleEndian);
        assert buffer[1] == received[1] && buffer[2] == received[2] && buffer[3] == received[3];
        HeaderReadsOnlyBytes1To3(buffer[..], received, littleEndian);
        if header.None? {
          return false;
        }
        var expectedLength := ExpectedLength(header.value);
        buffer := Resize(buffer, expectedLength);
        checkedHeader := true;
      }
    }

    /** Drops the buffer's unread tail: Take(receiveOffset) when the buffer is longer. */
    method Truncate()
      requires Valid()
      modifies this
      ensures received == old(received) && receiveOffset == old(receiveOffset)
      ensures checkedHeader == old(checkedHeader)
      ensures buffer[..] == received[..Min(receiveOffset, old(buffer.Length))]
    {
      if buffer.Length > receiveOffset {
        buffer := Resize(buffer, receiveOffset);
      }
      assert buffer[..] == received[..Min(receiveOffset, old(buffer.Length))];
    }
  }

  /** What the receive phase yields for the bytes the peer sends before closing:
      everything when fewer than HeaderLength bytes come, an error when the header
      has no content length, and otherwise the bytes up to the length the header
      declares (wrapped to 16 bits), or fewer if the peer closes first. */
  function ReceiveSpec(stream: seq<byte>, littleEndian: bool): (r: Result<seq<byte>>)
  {
    if |stream| < HeaderLength then Ok(stream)
    else match ContentLength(stream, littleEndian)
      case None => Err(MissingContentLength)
      case Some(contentLength) => Ok(stream[..Min(ExpectedLength(contentLength), |stream|)])
  }

  /** The receive loop. stream is what the peer sends before closing; readLimits[k]
      bounds how many bytes the k-th receive returns (each at least one; receives
      past the end of readLimits return all the space asks for). Each receive
      asks for Room() bytes, and a receive that returns 0 means the peer closed. */
  method ReceiveResponse(stream: seq<byte>, readLimits: seq<nat>, littleEndian: bool)
    returns (r: Result<seq<byte>>)
    requires forall k :: 0 <= k < |readLimits| ==> readLimits[k] > 0
    ensures r == ReceiveSpec(stream, littleEndian)
  {
    var receiver := new Receiver(littleEndian);
    var chunkCount := 0;
    while receiver.receiveOffset < receiver.buffer.Length
      invariant fresh(receiver) && fresh(receiver.buffer)
      invariant receiver.Valid() && receiver.littleEndian == littleEndian
      invariant receiver.receiveOffset <= |stream| && receiver.received == stream[..receiver.receiveOffset]
      invariant receiver.receiveOffset <= UInt16MaxValue
      decreases 65536 - receiver.receiveOffset
    {
      var room := receiver.Room();
      var read := Min(room, |stream| - receiver.receiveOffset);
      if chunkCount < |readLimits| {
        read := Min(read, readLimits[chunkCount]);
      }
      chunkCount := chunkCount + 1;
      if read == 0 {
        assert receiver.receiveOffset == |stream|;
        break;
      }
      var chunk := stream[receiver.receiveOffset..receiver.receiveOffset + read];
      assert stream[..receiver.receiveOffset] + chunk == stream[..receiver.receiveOffset + read];
      var ok := receiver.Receive(chunk);
      if !ok {
        HeaderReadsOnlyBytes1To3(receiver.received, stream, littleEndian);
        return Err(MissingContentLength);
      }
    }
    assert receiver.receiveOffset >= receiver.buffer.Length || receiver.receiveOffset == |stream|;
    ghost var kept := Min(receiver.receiveOffset, receiver.buffer.Length);
    if |stream| >= HeaderLength {
      assert receiver.checkedHeader;
      HeaderReadsOnlyBytes1To3(receiver.received, stream, littleEndian);
      assert kept == Min(receiver.buffer.Length, |stream|);
      assert receiver.received[2] == stream[2] && receiver.received[3] == stream[3];
      assert ReceiveSpec(stream, littleEndian) == Ok(stream[..kept]);
    } else {
      assert kept == |stream| && stream[..kept] == stream;
    }
    receiver.Truncate();
    r := Ok(receiver.buffer[..]);
    assert receiver.buffer[..] == stream[..kept];
  }

  /** The received bytes are a prefix of what the peer sent, never more than 65535. */
  lemma ReceivedIsPrefix(stream: seq<byte>, littleEndian: bool)
    requires ReceiveSpec(stream, littleEndian).Ok?
    ensures ReceiveSpec(stream, littleEndian).value <= stream
    ensures |ReceiveSpec(stream, littleEndian).value| <= UInt16MaxValue || |stream| < HeaderLength
  {
  }

  /** The receive phase fails exactly when a header arrives with the wrong signature. */
  lemma ReceiveFails(stream: seq<byte>, littleEndian: bool)
    ensures ReceiveSpec(stream, littleEndian).Err? <==> |stream| >= HeaderLength && stream[1] != Signature
    ensures ReceiveSpec(stream, littleEndian).Err? ==>
              ReceiveSpec(stream, littleEndian).error == MissingContentLength
  {
  }

  /** With a valid header whose packet length fits, the bytes kept are exactly the
      packet when the peer sent it all, and everything sent when it closed early;
      bytes the peer sends after the packet are never read. */
  lemma ReceiveWholePacket(stream: seq<byte>, littleEndian: bool)
    requires PacketLength(stream, littleEndian) != 0
    ensures var p := PacketLength(stream, littleEndian);
            ReceiveSpec(stream, littleEndian) == Ok(stream[..Min(p, |stream|)])
  {
  }

  /** A length field of 65532 or more wraps the buffer below the header length, so
      fewer than HeaderLength bytes are kept and they decode as an unknown response. */
  lemma ReceiveWrappedLength(stream: seq<byte>, littleEndian: bool)
    requires HasHeader(stream) && BigEndian16(stream[2], stream[3]) >= 65532
    ensures ReceiveSpec(stream, littleEndian).Ok?
    ensures |ReceiveSpec(stream, littleEndian).value| == BigEndian16(stream[2], stream[3]) - 65532
    ensures Decode(ReceiveSpec(stream, littleEndian).value, littleEndian).Ok?
    ensures Decode(ReceiveSpec(stream, littleEndian).value, littleEndian).value.responseType == UnknownResponse
  {
  }

  /** The whole call over an abstract peer: accepted bounds the sends, stream and
      readLimits describe the reply. Returns the bytes the peer received and the
      decoded response or the exception. Connect and disconnect are left out. */
  method SendTopic(queryString: string, littleEndian: bool, accepted: seq<nat>,
                   stream: seq<byte>, readLimits: seq<nat>)
    returns (wire: seq<byte>, r: Result<Response>)
    requires forall k :: 0 <= k < |accepted| ==> accepted[k] > 0
    requires forall k :: 0 <= k < |readLimits| ==> readLimits[k] > 0
    ensures RequestPacket(queryString).Err? ==> wire == [] && r == Err(TopicTooLong)
    ensures RequestPacket(queryString).Ok? ==> wire == RequestPacket(queryString).value
    ensures RequestPacket(queryString).Ok? ==>
              r == match ReceiveSpec(stream, littleEndian)
                   case Err(e) => Err(e)
                   case Ok(returnedData) => Decode(returnedData, littleEndian)
  {
    wire := [];
    var sendPacket := BuildRequestPacket(queryString, littleEndian);
    if sendPacket.Err? {
      return [], Err(sendPacket.error);
    }
    var sends;
    wire, sends := SendLoop(sendPacket.value, accepted);
    var returnedData := ReceiveResponse(stream, readLimits, littleEndian);
    if returnedData.Err? {
      return wire, Err(returnedData.error);
    }
    r := Decode(returnedData.value, littleEndian);
  }
}
