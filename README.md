# Byond.TopicSender: the Topic protocol's framing, in Dafny

This project models the byte-level core of Byond.TopicSender, a client for BYOND's
`/world/Topic` protocol. It covers:

- the request packet built from a query string: NUL, the 0x83 signature, the
  big-endian length, four NULs, the `?`-prefixed UTF-8 query, and a closing NUL;
- the send loop that hands the packet to the socket in chunks;
- the receive loop that starts with a 5-byte buffer. Once the header is in, the loop
  resizes the buffer to the length the header declares, and at the end it cuts the
  buffer down to what was read;
- the response header (`TopicResponseHeader`) and the typed response (`TopicResponse`);
- the older `ByondTopicSender`: its ASCII response parse and its `SanitizeString`.

Modules follow the source:

- `Wire`: bytes and results, plus the framework conversions. These are
  BitConverter in either host byte order, UTF-8 encoding with a decoder,
  ASCII decoding, and the String trims.
- `TopicResponseHeader` and `TopicResponse`: pure functions.
- `TopicPacket`: the request encoder, which is the same code in `TopicClient.cs` and
  `ByondTopicSender.cs`, and the send loop. The two send loops differ in the count they pass
  to `BeginSend`. `ByondTopicSender.cs` passes the rest of the packet. `TopicClient.cs`
  passes `Length + offset` (see Findings). The model's loop uses the rest of the packet.
- `TopicClient`: the `Receiver` class (buffer, `receiveOffset`, `checkedHeader`)
  and the receive loop driving it.
- `ByondTopicSender`: the legacy sender.

`BitConverter.IsLittleEndian` is a `littleEndian: bool` parameter. The model proves
that packets, headers and decoded responses are the same for either value.

The peer behind the socket is abstract:

- `accepted[k]` bounds how many bytes the k-th send takes.
- `stream` is every byte the peer sends before it closes.
- `readLimits[k]` bounds how many bytes the k-th receive returns. A receive never
  returns more than the space it asks for, and it returns 0 only when the peer has
  closed.

`TopicClient.ReceiveResponse` is proved equal to `ReceiveSpec(stream)`, which does not
mention `readLimits`. So the bytes kept do not depend on how the peer's bytes are
split into chunks.

Facts about the code that the model keeps:

- The header is 4 bytes (`HeaderLength = 4`), and `PacketLength` is the length field
  plus 4.
- The string payload ends at `PacketLength - 1`.
- A string response whose bytes stop short of `PacketLength - 1` fails with
  `SliceOutOfRange`.
- The receive loop does no peek read after the body and does not tolerate a connection
  reset.
- The legacy parse returns null for a one-character reply: the five header characters
  plus one make six, and the parse needs more than six.

## Model

| member | source | states |
|---|---|---|
| `Wire.ToUInt16` | Byond.TopicSender/TopicResponseHeader.cs:38 | BitConverter.ToUInt16 reads two bytes in host order: the big-endian value of the bytes reversed on little-endian hosts, of the bytes as given otherwise |
| `Wire.GetBytes16` | Byond.TopicSender/TopicClient.cs:111 | BitConverter.GetBytes(ushort) gives two bytes that ToUInt16 reads back as the same value on the same host |
| `Wire.ToUInt32` | Byond.TopicSender/TopicResponse.cs:77 | the 32-bit pattern ToSingle reinterprets: the four bytes read little-endian on little-endian hosts, reversed on big-endian ones |
| `Wire.CharUtf8` | Byond.TopicSender/TopicClient.cs:105 | one character's UTF-8 form is 1-4 bytes; it is a single byte exactly when the lead byte is below 0x80, and then it equals the code point; every later byte is a continuation byte |
| `Wire.Utf8` | Byond.TopicSender/TopicClient.cs:105 | Encoding.UTF8.GetBytes gives at least one byte per character and no bytes only for the empty string |
| `Wire.Utf8Append` | Byond.TopicSender/TopicClient.cs:96-105 | encoding the StringBuilder's concatenation equals concatenating the encodings of its parts |
| `Wire.Utf8Ascii` | Byond.TopicSender/TopicClient.cs:97-101 | NULs, `?` and other characters below 0x80 encode byte for byte |
| `Wire.Utf8RoundTrip` | Byond.TopicSender/TopicClient.cs:105 | the UTF-8 decoder recovers every encoded string |
| `Wire.Utf8DecodeFirst` | Byond.TopicSender/TopicClient.cs:105 | the decoder's step consumes between 1 and 4 of the available bytes |
| `Wire.CharUtf8DecodesFirst` | Byond.TopicSender/TopicClient.cs:105 | decoding the front of a character's encoding followed by anything gives that character and the encoding's length |
| `Wire.AsciiChar` | Byond.TopicSender/ByondTopicSender.cs:145 | ASCII decoding keeps bytes below 0x80 and turns every other byte into `?` |
| `Wire.AsciiDecode` | Byond.TopicSender/ByondTopicSender.cs:145 | Encoding.ASCII.GetString gives one 7-bit character per byte, each AsciiChar of its byte |
| `Wire.BigEndian16Digits` | Byond.TopicSender/TopicClient.cs:111-116 | the two bytes put in the header are the high and low base-256 digits of the length they encode |
| `Wire.TrimEnd` | Byond.TopicSender/TopicResponse.cs:66 | TrimEnd(x) gives the longest prefix that does not end in x; everything dropped is x |
| `Wire.TrimStartWhiteSpace` | Byond.TopicSender/ByondTopicSender.cs:145 | the longest suffix not starting with white space; everything dropped is white space |
| `Wire.TrimEndWhiteSpace` | Byond.TopicSender/ByondTopicSender.cs:145 | the longest prefix not ending in white space; everything dropped is white space |
| `Wire.IsWhiteSpace` | Byond.TopicSender/ByondTopicSender.cs:145 | the characters below U+0100 that Char.IsWhiteSpace accepts: space, tab through carriage return, U+0085 and U+00A0 |
| `Wire.Trim` | Byond.TopicSender/ByondTopicSender.cs:145 | String.Trim() drops the white space at the front and then at the end |
| `Wire.TrimmedSlice` | Byond.TopicSender/ByondTopicSender.cs:145 | a front trim followed by an end trim leaves one slice of the input, with white space only outside it and at neither of its ends |
| `Wire.TrimSlice` | Byond.TopicSender/ByondTopicSender.cs:145 | String.Trim() keeps one slice of its input starting after the leading white space; everything outside it is white space, and the slice neither starts nor ends with white space |
| `TopicResponseHeader.LengthField` | Byond.TopicSender/TopicResponseHeader.cs:32-38 | the length read through the host-order scratch array is the big-endian value of bytes 2-3 on either host |
| `TopicResponseHeader.PacketLength` | Byond.TopicSender/TopicResponseHeader.cs:24-41 | PacketLength is 0 or in [4, 65535]; it is non-zero exactly when the input has 4 bytes, byte 1 is 0x83 and field + 4 fits in 16 bits, and then it is 256*data[2] + data[3] + 4 |
| `TopicResponseHeader.ContentLength` | Byond.TopicSender/TopicResponseHeader.cs:29-36 | the content length the receive loop uses is present exactly when the constructor does not return early; it is the raw big-endian field, which is PacketLength - 4 whenever PacketLength is non-zero |
| `TopicResponseHeader.PacketLengthEndianIndependent` | Byond.TopicSender/TopicResponseHeader.cs:32-40 | the header gives the same PacketLength and content length on little- and big-endian hosts |
| `TopicResponseHeader.HeaderReadsOnlyBytes1To3` | Byond.TopicSender/TopicResponseHeader.cs:29-36 | inputs of at least 4 bytes that agree on bytes 1-3 have the same header |
| `TopicResponseHeader.PacketLengthOverflow` | Byond.TopicSender/TopicResponseHeader.cs:38-40 | with a valid signature, PacketLength is 0 exactly when the field is 65532 or more; the Math.Max never changes the sum |
| `TopicResponse.DetectType` | Byond.TopicSender/TopicResponse.cs:46-56 | PacketLength 0 gives UnknownResponse; otherwise reading the tag fails below 5 bytes, and tag 0x06 gives StringResponse, tag 0x2a gives FloatResponse only when PacketLength >= 5, and anything else gives UnknownResponse |
| `TopicResponse.FloatBits` | Byond.TopicSender/TopicResponse.cs:69-77 | the float's bit pattern is rawData[5] \| rawData[6]<<8 \| rawData[7]<<16 \| rawData[8]<<24 on either host |
| `TopicResponse.Decode` | Byond.TopicSender/TopicResponse.cs:41-85 | a decoded response keeps the input as RawData and the header's PacketLength; StringData is set exactly for StringResponse and FloatData exactly for FloatResponse, so never both |
| `TopicResponse.DecodeInvalidHeader` | Byond.TopicSender/TopicResponse.cs:46 | an invalid header gives UnknownResponse with neither StringData nor FloatData |
| `TopicResponse.DecodeResponseType` | Byond.TopicSender/TopicResponse.cs:48-55 | with a valid header: fewer than 5 bytes is an index error; other tags give an unknown response; 0x06 gives a string response; 0x2a gives a float response only when PacketLength >= 5 |
| `TopicResponse.DecodeString` | Byond.TopicSender/TopicResponse.cs:61-66 | a string response decodes exactly when 6 <= PacketLength <= \|rawData\| + 1, failing with a slice error otherwise; StringData is rawData[5, PacketLength-1) minus its trailing NULs and never ends in NUL |
| `TopicResponse.DecodeFloat` | Byond.TopicSender/TopicResponse.cs:68-77 | a float response decodes exactly when bytes 5-8 exist, failing with an index error otherwise; its pattern is those bytes little-endian and StringData is absent |
| `TopicResponse.DecodeEndianIndependent` | Byond.TopicSender/TopicResponse.cs:69-77 | decoding gives the same response on little- and big-endian hosts |
| `TopicResponse.DecodeHello` | Byond.TopicSender/TopicResponse.cs:61-66 | a server's framed string reply "hello" (length field 7, tag, text, NUL) decodes to StringData "hello" |
| `TopicPacket.WithQuestionMark` | Byond.TopicSender/TopicClient.cs:98-99 | the query sent starts with `?`; it is the query itself exactly when the query already starts with `?`, otherwise `?` + query |
| `TopicPacket.RequestPacket` | Byond.TopicSender/TopicClient.cs:107-109 | building a packet can fail only with the "topic too long" error |
| `TopicPacket.RequestLayout` | Byond.TopicSender/TopicClient.cs:96-116 | a built packet has length 8 + \|utf8(q')\| + 1: byte 0 is 0, byte 1 is 0x83, bytes 4-7 are 0, then utf8(q') starting with 0x3F, then a final 0; bytes 2-3 hold Length - 4 big-endian |
| `TopicPacket.RequestTooLong` | Byond.TopicSender/TopicClient.cs:107-109 | building fails exactly when Length - 4 exceeds 65535 |
| `TopicPacket.RequestQuestionMarkIdempotent` | Byond.TopicSender/TopicClient.cs:98-99 | a query not starting with `?` gives the same packet (or failure) as `?` + query |
| `TopicPacket.RequestRoundTrip` | Byond.TopicSender/TopicClient.cs:95-116 | reading a built packet back (framing checks, then UTF-8 decoding) gives the `?`-prefixed query |
| `TopicPacket.BuildRequestPacket` | Byond.TopicSender/TopicClient.cs:95-116 | the StringBuilder, UTF-8, in-place byte 1-3 writes and length check produce exactly RequestPacket, for either host byte order |
| `TopicPacket.HeaderWrites` | Byond.TopicSender/TopicClient.cs:106-116 | writing 0x83 and the two length bytes over offsets 1-3 of the NUL-framed bytes gives the packet's header |
| `TopicPacket.Utf8Framed` | Byond.TopicSender/TopicClient.cs:96-105 | the encoded builder string is 8 zero bytes, the query's bytes and a zero byte |
| `TopicPacket.SendArgumentsValid` | Byond.TopicSender/TopicClient.cs:155 | BeginSend's rule: the offset lies in the buffer and the count does not reach past its end |
| `TopicPacket.SendCountAsWritten` | Byond.TopicSender/TopicClient.cs:155 | the count TopicClient passes as written: the packet length plus the offset |
| `TopicPacket.SendCount` | Byond.TopicSender/ByondTopicSender.cs:95 | the corrected count is the rest of the packet, which BeginSend's argument rule accepts |
| `TopicPacket.SendCountAsWrittenInvalid` | Byond.TopicSender/TopicClient.cs:155 | after a partial send, the count as written (Length + offset) breaks BeginSend's rule offset + count <= Length |
| `TopicPacket.SendCountAsWrittenExample` | Byond.TopicSender/TopicClient.cs:155 | with a 10-byte packet and 4 bytes sent, the count as written is 14 and invalid; the corrected count is 6 and valid |
| `TopicPacket.SendLoop` | Byond.TopicSender/ByondTopicSender.cs:92-108 | adding each send's count to offset until offset >= Length puts exactly the packet on the wire, in order. It makes at least one send for a non-empty packet, at most one per byte, and at most one more than the bounded sends |
| `TopicClient.ExpectedLength` | Byond.TopicSender/TopicClient.cs:193 | the resize length (ushort)(4 + ContentLength) is 4 + ContentLength when that fits in 16 bits, and wraps to that minus 65536 otherwise |
| `TopicClient.Resize` | Byond.TopicSender/TopicClient.cs:194 | Array.Resize gives a new array of the requested length with the old elements that fit, zero after them |
| `TopicClient.Receiver.constructor` | Byond.TopicSender/TopicClient.cs:162-164 | the loop starts with a fresh 5-byte buffer, offset 0, header not checked |
| `TopicClient.Receiver.Room` | Byond.TopicSender/TopicClient.cs:171 | the space left for the next receive: the buffer length minus receiveOffset |
| `TopicClient.Receiver.Receive` | Byond.TopicSender/TopicClient.cs:170-196 | a non-empty chunk is appended at receiveOffset. The header is checked at the first point where receiveOffset >= 4, and only then. A missing content length fails. Otherwise the buffer is resized to the declared length and keeps the bytes read |
| `TopicClient.Receiver.Truncate` | Byond.TopicSender/TopicClient.cs:211-212 | the buffer becomes the first min(receiveOffset, buffer length) bytes received |
| `TopicClient.ReceiveResponse` | Byond.TopicSender/TopicClient.cs:161-197 | the loop, stopping on a zero-byte read or a full buffer and then truncating, returns exactly ReceiveSpec(stream) however the peer chunks its bytes |
| `TopicClient.ReceivedIsPrefix` | Byond.TopicSender/TopicClient.cs:211-215 | the bytes returned are a prefix of what the peer sent, and at most 65535 bytes once a header has arrived |
| `TopicClient.ReceiveFails` | Byond.TopicSender/TopicClient.cs:190-191 | the receive phase fails, with InvalidOperationException, exactly when 4 bytes arrive and byte 1 is not 0x83 |
| `TopicClient.ReceiveWholePacket` | Byond.TopicSender/TopicClient.cs:185-196 | with a valid header, the bytes kept are the first min(PacketLength, bytes sent), so bytes after the packet are never read |
| `TopicClient.ReceiveWrappedLength` | Byond.TopicSender/TopicClient.cs:193-194 | a length field of 65532 or more wraps the buffer to field - 65532 bytes, which decode as an unknown response |
| `TopicClient.SendTopic` | Byond.TopicSender/TopicClient.cs:88-216 | a topic too long fails before anything is sent. Otherwise exactly the packet is sent, and the result is the decoded ReceiveSpec bytes or the receive error |
| `ByondTopicSender.Replace` | Byond.TopicSender/ByondTopicSender.cs:157 | after String.Replace(c, r), mentions of c survive only through r, and no character appears that was in neither the input nor r |
| `ByondTopicSender.SanitizeString` | Byond.TopicSender/ByondTopicSender.cs:157 | SanitizeString's output contains none of `=`, `;`, `&`, `+` |
| `ByondTopicSender.EscapeChar` | Byond.TopicSender/ByondTopicSender.cs:157 | each of the five special characters becomes a three-character code starting with its only `%`; every other character is kept |
| `ByondTopicSender.ReplaceAppend` | Byond.TopicSender/ByondTopicSender.cs:157 | String.Replace distributes over concatenation |
| `ByondTopicSender.ReplaceAbsent` | Byond.TopicSender/ByondTopicSender.cs:157 | replacing a character that does not occur changes nothing |
| `ByondTopicSender.SanitizeAppend` | Byond.TopicSender/ByondTopicSender.cs:157 | the replace chain distributes over concatenation |
| `ByondTopicSender.SanitizeChar` | Byond.TopicSender/ByondTopicSender.cs:157 | on one character the chain gives EscapeChar, because `%` is replaced first |
| `ByondTopicSender.SanitizeIsEscape` | Byond.TopicSender/ByondTopicSender.cs:157 | the replace chain equals escaping each character on its own, in order |
| `ByondTopicSender.EscapeLength` | Byond.TopicSender/ByondTopicSender.cs:157 | the escaped length is the input length plus 2 per `%`, `=`, `;`, `&`, `+` |
| `ByondTopicSender.EscapePercents` | Byond.TopicSender/ByondTopicSender.cs:157 | every `%` of the escaped text begins `%25`, `%3d`, `%3b`, `%26` or `%2b` |
| `ByondTopicSender.UnescapeEscape` | Byond.TopicSender/ByondTopicSender.cs:157 | decoding the five codes recovers the input |
| `ByondTopicSender.SanitizeProperties` | Byond.TopicSender/IByondTopicSender.cs:51-55 | "properly escapes": every `%` of the output begins a code, the length grows by 2 per escaped character, and decoding the codes gives the input back |
| `ByondTopicSender.SanitizePlain` | Byond.TopicSender/ByondTopicSender.cs:157 | text without the five special characters is returned unchanged |
| `ByondTopicSender.EscapePlain` | Byond.TopicSender/ByondTopicSender.cs:157 | escaping text without special characters is the identity |
| `ByondTopicSender.ResponseText` | Byond.TopicSender/ByondTopicSender.cs:145 | the `raw_string` chain (ASCII decoding, TrimEnd of NUL, Trim) gives 7-bit text no longer than the buffer that neither starts nor ends with white space |
| `ByondTopicSender.TrimSevenBit` | Byond.TopicSender/ByondTopicSender.cs:145 | trimming 7-bit text leaves 7-bit text |
| `ByondTopicSender.SevenBitSlice` | Byond.TopicSender/ByondTopicSender.cs:145 | any slice of 7-bit text, such as what Trim keeps, is 7-bit text |
| `ByondTopicSender.ParseResponse` | Byond.TopicSender/ByondTopicSender.cs:145-148 | the parse is null exactly when the NUL-trimmed, white-space-trimmed ASCII text has length <= 6. Otherwise it is that text minus its first 5 characters: at least 2 characters, 7-bit, and not ending in white space |
| `ByondTopicSender.TrimEndPadding` | Byond.TopicSender/ByondTopicSender.cs:145 | trailing NULs added to a text vanish under TrimEnd('\0') |
| `ByondTopicSender.PaddingIgnored` | Byond.TopicSender/ByondTopicSender.cs:112-145 | the zeros after the received bytes in the 65535-byte buffer do not change the parse |
| `ByondTopicSender.TrimEndAppend` | Byond.TopicSender/ByondTopicSender.cs:145 | TrimEnd('\0') of a + b only touches b when b does not trim away entirely |
| `ByondTopicSender.TrimEndWhiteSpaceAppend` | Byond.TopicSender/ByondTopicSender.cs:145 | trimming trailing white space of a + b only touches b when b does not trim away entirely |
| `ByondTopicSender.TrimEndVanishes` | Byond.TopicSender/ByondTopicSender.cs:145 | when b is all NULs, TrimEnd('\0') of a + b is that of a |
| `ByondTopicSender.TrimEndWhiteSpaceVanishes` | Byond.TopicSender/ByondTopicSender.cs:145 | when b is all white space, trimming trailing white space of a + b trims a |
| `ByondTopicSender.TrimStartStops` | Byond.TopicSender/ByondTopicSender.cs:145 | text starting with a non-white-space character (the header's NUL) is not trimmed at the front |
| `ByondTopicSender.AsciiDecodeAppend` | Byond.TopicSender/ByondTopicSender.cs:145 | ASCII decoding distributes over concatenation |
| `ByondTopicSender.ReplyText` | Byond.TopicSender/ByondTopicSender.cs:145 | behind a header starting with NUL, the trimmed text is the header's characters followed by the reply text trimmed at its end |
| `ByondTopicSender.ReplyTextEmpty` | Byond.TopicSender/ByondTopicSender.cs:145 | behind a header that starts with NUL and ends with neither NUL nor white space, a reply that trims away entirely leaves just the header's characters |
| `ByondTopicSender.ParseStringReply` | Byond.TopicSender/ByondTopicSender.cs:145-148 | on a string reply (0x00 0x83 length 0x06 text), whatever the length field, the parse gives the text without trailing NULs and white space when at least 2 characters remain, and null when fewer remain |
| `ByondTopicSender.ParseOneCharReply` | Byond.TopicSender/ByondTopicSender.cs:146-148 | the one-character reply "1" parses to null |
| `ByondTopicSender.ReceiveIntoBuffer` | Byond.TopicSender/ByondTopicSender.cs:112-125 | the single receive leaves the 65535-byte zeroed buffer holding the chunk followed by zeros |
| `ByondTopicSender.SendTopic` | Byond.TopicSender/ByondTopicSender.cs:38-149 | a topic too long fails before anything is sent. Otherwise exactly the packet TopicClient builds is sent, and the result is the parse of the received chunk |

## Left out

- Connecting, disconnecting, DNS resolution and logging are left out. So are the
  timeouts and cancellation in `AsyncSocketOperation` and the `TaskCompletionSource`
  blocks. These are network I/O and asynchronous machinery; the socket appears only
  as the abstract peer described above.
- The overloads taking a host name or an `IPAddress` are left out. They only resolve
  the address, and null checks cannot arise for Dafny values.
- `TopicClient.SanitizeString` is a call into `HttpUtility.UrlEncode`, a foreign
  library. It is left out.
- TopicResponse.Decode: FloatData is kept as its 32-bit pattern, so the bits-to-float
  value of `BitConverter.ToSingle` (and the 3.14f test) is not modelled. StringData is
  kept as its bytes with trailing zero bytes removed, so UTF-8 decoding is not
  modelled. A trailing 0x00 byte always decodes to U+0000, so trimming before
  decoding matches trimming after it.
- Wire.Utf8: C# strings are UTF-16. A lone surrogate, which .NET encodes as
  EF BF BD, cannot occur in a Dafny string and is not modelled.
- Wire.IsWhiteSpace covers only the Latin-1 range of `Char.IsWhiteSpace`. Trim is
  only ever applied to ASCII-decoded text, which stays below 0x80.
- TopicPacket.SendLoop models the loop at ByondTopicSender.cs:92-108. It stands for the
  loop at TopicClient.cs:149-159 with the corrected send count (see Findings).
- TopicClient.SendTopic uses the corrected send count (see Findings). When a send is
  partial, the source's count makes `BeginSend` throw; the model does not follow
  that path.
- TopicPacket.SendLoop and TopicClient.ReceiveResponse require each bound in
  `accepted` and `readLimits` to be positive. A blocking socket never completes a
  send of zero bytes, and a receive of zero bytes means the peer has closed.
- `SocketParameters.cs` and the two interfaces hold no logic. The integration tests
  need live servers.

## Findings

| source | as written | input that shows it | evidently intended | confidence | as-written member | corrected member |
|---|---|---|---|---|---|---|
| Byond.TopicSender/TopicClient.cs:155 | `BeginSend(sendPacket, offset, sendPacket.Length + offset, …)` asks for Length + offset bytes | a 10-byte packet whose first send takes 4 bytes: the second call asks for 14 bytes from offset 4, past the buffer, which BeginSend rejects | the rest of the packet, Length - offset, as ByondTopicSender.cs:95 passes | high; not executed | `TopicPacket.SendCountAsWrittenInvalid` | `TopicPacket.SendCount` |
