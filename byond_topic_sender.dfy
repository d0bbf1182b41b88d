/** The older ByondTopicSender: the same request packet and send loop, one receive
    into a 65535-byte buffer parsed as ASCII text, and SanitizeString, which
    percent-escapes the five characters a Topic() parameter list gives meaning to. */
module ByondTopicSender {
  import opened Wire
  import opened TopicPacket

  // ---------------------------------------------------------------------------
  // SanitizeString

  /** String.Replace of one character by a string, everywhere, left to right. */
  function Replace(s: string, c: char, replacement: string): (r: string)
    ensures c !in replacement ==> c !in r
    ensures forall x :: x in r && x != c && x !in replacement ==> x in s
    decreases |s|
  {
    if s == [] then []
    else (if s[0] == c then replacement else [s[0]]) + Replace(s[1..], c, replacement)
  }

  /** The replace chain of ByondTopicSender.SanitizeString; '%' goes first so
      that the escapes later steps add are not escaped again. */
  function SanitizeString(input: string): (r: string)
    ensures '=' !in r && ';' !in r && '&' !in r && '+' !in r
  {
    Replace(Replace(Replace(Replace(Replace(input, '%', "%25"), '=', "%3d"), ';', "%3b"), '&', "%26"), '+', "%2b")
  }

  /** The characters SanitizeString escapes. */
  predicate IsSpecial(c: char)
  {
    c == '%' || c == '=' || c == ';' || c == '&' || c == '+'
  }

  /** The escape of one character: its three-character code, or itself. */
  function EscapeChar(c: char): (e: string)
    ensures IsSpecial(c) ==> |e| == 3 && e[0] == '%' && e[1] != '%' && e[2] != '%'
    ensures !IsSpecial(c) ==> e == [c]
  {
    match c
    case '%' => "%25"
    case '=' => "%3d"
    case ';' => "%3b"
    case '&' => "%26"
    case '+' => "%2b"
    case _ => [c]
  }

  /** Character-by-character escaping: the reference the replace chain is proved equal to. */
  function Escape(s: string): string
  {
    if s == [] then [] else EscapeChar(s[0]) + Escape(s[1..])
  }

  /** The number of characters SanitizeString escapes. */
  function SpecialCount(s: string): nat
  {
    if s == [] then 0 else (if IsSpecial(s[0]) then 1 else 0) + SpecialCount(s[1..])
  }

  /** The character a two-character code after '%' stands for. */
  function DecodeCode(a: char, b: char): Option<char>
  {
    if a == '2' && b == '5' then Some('%')
    else if a == '3' && b == 'd' then Some('=')
    else if a == '3' && b == 'b' then Some(';')
    else if a == '2' && b == '6' then Some('&')
    else if a == '2' && b == 'b' then Some('+')
    else None
  }

  /** Decodes the five codes; every other character is kept. */
  function Unescape(t: string): string
    decreases |t|
  {
    if t == [] then []
    else if |t| >= 3 && t[0] == '%' && DecodeCode(t[1], t[2]).Some? then
      [DecodeCode(t[1], t[2]).value] + Unescape(t[3..])
    else [t[0]] + Unescape(t[1..])
  }

  /** Every '%' starts one of the five codes. */
  predicate PercentsStartCodes(t: string)
  {
    forall i :: 0 <= i < |t| && t[i] == '%' ==> i + 3 <= |t| && DecodeCode(t[i + 1], t[i + 2]).Some?
  }

  lemma {:induction false} ReplaceAppend(a: string, b: string, c: char, replacement: string)
    ensures Replace(a + b, c, replacement) == Replace(a, c, replacement) + Replace(b, c, replacement)
    decreases |a|
  {
    if a == [] {
      assert a + b == b;
    } else {
      assert (a + b)[0] == a[0] && (a + b)[1..] == a[1..] + b;
      ReplaceAppend(a[1..], b, c, replacement);
    }
  }

  lemma {:induction false} ReplaceAbsent(s: string, c: char, replacement: string)
    requires c !in s
    ensures Replace(s, c, replacement) == s
    decreases |s|
  {
    if s != [] {
      assert s[0] != c;
      ReplaceAbsent(s[1..], c, replacement);
      assert [s[0]] + s[1..] == s;
    }
  }

  lemma SanitizeAppend(a: string, b: string)
    ensures SanitizeString(a + b) == SanitizeString(a) + SanitizeString(b)
  {
    ReplaceAppend(a, b, '%', "%25");
    var a1, b1 := Replace(a, '%', "%25"), Replace(b, '%', "%25");
    ReplaceAppend(a1, b1, '=', "%3d");
    var a2, b2 := Replace(a1, '=', "%3d"), Replace(b1, '=', "%3d");
    ReplaceAppend(a2, b2, ';', "%3b");
    var a3, b3 := Replace(a2, ';', "%3b"), Replace(b2, ';', "%3b");
    ReplaceAppend(a3, b3, '&', "%26");
    var a4, b4 := Replace(a3, '&', "%26"), Replace(b3, '&', "%26");
    ReplaceAppend(a4, b4, '+', "%2b");
  }

  lemma SanitizeChar(c: char)
    ensures SanitizeString([c]) == EscapeChar(c)
  {
    var s1 := Replace([c], '%', "%25");
    assert s1 == (if c == '%' then "%25" else [c]) by {
      assert [c][1..] == [];
      assert s1 == (if c == '%' then "%25" else [c]) + Replace([], '%', "%25");
    }
    var s2 := Replace(s1, '=', "%3d");
    if c == '=' { assert s1[1..] == []; } else { ReplaceAbsent(s1, '=', "%3d"); }
    var s3 := Replace(s2, ';', "%3b");
    if c == ';' { assert s2[1..] == []; } else { ReplaceAbsent(s2, ';', "%3b"); }
    var s4 := Replace(s3, '&', "%26");
    if c == '&' { assert s3[1..] == []; } else { ReplaceAbsent(s3, '&', "%26"); }
    if c == '+' { assert s4[1..] == []; } else { ReplaceAbsent(s4, '+', "%2b"); }
  }

  /** The replace chain escapes each character on its own. */
  lemma {:induction false} SanitizeIsEscape(s: string)
    ensures SanitizeString(s) == Escape(s)
    decreases |s|
  {
    if s == [] {
    } else {
      assert s == [s[0]] + s[1..];
      SanitizeAppend([s[0]], s[1..]);
      SanitizeChar(s[0]);
      SanitizeIsEscape(s[1..]);
    }
  }

  /** Each escaped character grows by two. */
  lemma {:induction false} EscapeLength(s: string)
    ensures |Escape(s)| == |s| + 2 * SpecialCount(s)
    decreases |s|
  {
    if s != [] {
      EscapeLength(s[1..]);
    }
  }

  /** Every '%' of an escaped string starts a code. */
  lemma {:induction false} EscapePercents(s: string)
    ensures PercentsStartCodes(Escape(s))
    decreases |s|
  {
    if s != [] {
      EscapePercents(s[1..]);
      var e, rest := EscapeChar(s[0]), Escape(s[1..]);
      var t := e + rest;
      forall i | 0 <= i < |t| && t[i] == '%'
        ensures i + 3 <= |t| && DecodeCode(t[i + 1], t[i + 2]).Some?
      {
        if i < |e| {
          assert i == 0 && IsSpecial(s[0]);
        } else {
          assert rest[i - |e|] == '%';
          assert t[i + 1] == rest[i - |e| + 1] && t[i + 2] == rest[i - |e| + 2];
        }
      }
    }
  }

  /** Decoding the five codes undoes the escaping. */
  lemma {:induction false} UnescapeEscape(s: string)
    ensures Unescape(Escape(s)) == s
    decreases |s|
  {
    if s != [] {
      var e, rest := EscapeChar(s[0]), Escape(s[1..]);
      UnescapeEscape(s[1..]);
      if IsSpecial(s[0]) {
        assert (e + rest)[3..] == rest;
        assert (e + rest)[..3] == e;
      } else {
        assert (e + rest)[1..] == rest;
      }
      assert [s[0]] + s[1..] == s;
    }
  }

  /** SanitizeString's promises: none of '=', ';', '&', '+' survive, each '%' starts
      a code, two characters are added per escaped one, and decoding the codes gives
      the input back. */
  lemma SanitizeProperties(input: string)
    ensures var r := SanitizeString(input);
            PercentsStartCodes(r)
            && |r| == |input| + 2 * SpecialCount(input)
            && Unescape(r) == input
  {
    SanitizeIsEscape(input);
    EscapePercents(input);
    EscapeLength(input);
    UnescapeEscape(input);
  }

  /** Text with nothing to escape is left alone. */
  lemma {:induction false} SanitizePlain(input: string)
    requires forall i :: 0 <= i < |input| ==> !IsSpecial(input[i])
    ensures SanitizeString(input) == input
  {
    SanitizeIsEscape(input);
    EscapePlain(input);
  }

  lemma {:induction false} EscapePlain(s: string)
    requires forall i :: 0 <= i < |s| ==> !IsSpecial(s[i])
    ensures Escape(s) == s
    decreases |s|
  {
    if s != [] {
      EscapePlain(s[1..]);
      assert [s[0]] + s[1..] == s;
    }
  }

  // ---------------------------------------------------------------------------
  // The response parse

  /** The text of the receive buffer: ASCII-decoded, trailing NULs dropped, then
      trimmed of white space at both ends. It is 7-bit, no longer than the buffer,
      and starts and ends with a character that is not white space. */
  function ResponseText(returnedData: seq<byte>): (r: string)
    ensures |r| <= |returnedData|
    ensures forall i :: 0 <= i < |r| ==> r[i] as int < 0x80
    ensures r == [] || (!IsWhiteSpace(r[0]) && !IsWhiteSpace(r[|r| - 1]))
  {
    var a := AsciiDecode(returnedData);
    var b := TrimEnd(a, '\0');
    assert forall i :: 0 <= i < |b| ==> b[i] == a[i];
    TrimSevenBit(b);
    TrimSlice(b);
    Trim(b)
  }

  lemma TrimSevenBit(s: string)
    requires forall i :: 0 <= i < |s| ==> s[i] as int < 0x80
    ensures forall i :: 0 <= i < |Trim(s)| ==> Trim(s)[i] as int < 0x80
  {
    TrimSlice(s);
    SevenBitSlice(s, Trim(s), |s| - |TrimStartWhiteSpace(s)|);
  }

  /** A slice of 7-bit text is 7-bit text. */
  lemma SevenBitSlice(s: string, r: string, k: nat)
    requires k + |r| <= |s|
    requires forall i {:trigger r[i]} :: 0 <= i < |r| ==> r[i] == s[k + i]
    requires forall i :: 0 <= i < |s| ==> s[i] as int < 0x80
    ensures forall i :: 0 <= i < |r| ==> r[i] as int < 0x80
  {
    forall i | 0 <= i < |r| ensures r[i] as int < 0x80 {
      assert r[i] == s[k + i];
    }
  }

  /** The parse SendTopic returns: the text without its first five characters when it
      is longer than six, otherwise null (None). */
  function ParseResponse(returnedData: seq<byte>): (r: Option<string>)
    ensures r.None? <==> |ResponseText(returnedData)| <= 6
    ensures r.Some? ==> |r.value| >= 2 && r.value == ResponseText(returnedData)[5..]
    ensures r.Some? ==> !IsWhiteSpace(r.value[|r.value| - 1])
    ensures r.Some? ==> forall i :: 0 <= i < |r.value| ==> r.value[i] as int < 0x80
  {
    var rawString := ResponseText(returnedData);
    if |rawString| > 6 then Some(rawString[5..]) else None
  }

  lemma {:induction false} TrimEndPadding(s: string, n: nat)
    ensures TrimEnd(s + seq(n, _ => '\0'), '\0') == TrimEnd(s, '\0')
    decreases n
  {
    if n > 0 {
      var t := s + seq(n, _ => '\0');
      assert t[..|t| - 1] == s + seq(n - 1, _ => '\0');
      TrimEndPadding(s, n - 1);
    } else {
      assert s + seq(n, _ => '\0') == s;
    }
  }

  /** The zeros after the received bytes do not change the parse. */
  lemma PaddingIgnored(chunk: seq<byte>, data: seq<byte>)
    requires ZeroPadded(data, chunk)
    ensures ParseResponse(data) == ParseResponse(chunk)
  {
    var n := |data| - |chunk|;
    assert data == chunk + Zeros(n);
    assert AsciiDecode(chunk + Zeros(n)) == AsciiDecode(chunk) + seq(n, _ => '\0');
    TrimEndPadding(AsciiDecode(chunk), n);
  }

  /** data is chunk followed by zeros. */
  predicate ZeroPadded(data: seq<byte>, chunk: seq<byte>)
  {
    |chunk| <= |data| && data[..|chunk|] == chunk && forall i :: |chunk| <= i < |data| ==> data[i] == 0
  }

  lemma {:induction false} TrimEndAppend(a: string, b: string)
    requires TrimEnd(b, '\0') != []
    ensures TrimEnd(a + b, '\0') == a + TrimEnd(b, '\0')
    decreases |b|
  {
    assert (a + b)[|a + b| - 1] == b[|b| - 1];
    if b[|b| - 1] == '\0' {
      assert (a + b)[..|a + b| - 1] == a + b[..|b| - 1];
      TrimEndAppend(a, b[..|b| - 1]);
    }
  }

  lemma {:induction false} TrimEndWhiteSpaceAppend(a: string, b: string)
    requires TrimEndWhiteSpace(b) != []
    ensures TrimEndWhiteSpace(a + b) == a + TrimEndWhiteSpace(b)
    decreases |b|
  {
    assert (a + b)[|a + b| - 1] == b[|b| - 1];
    if IsWhiteSpace(b[|b| - 1]) {
      assert (a + b)[..|a + b| - 1] == a + b[..|b| - 1];
      TrimEndWhiteSpaceAppend(a, b[..|b| - 1]);
    }
  }

  /** ASCII decoding distributes over concatenation. */
  lemma AsciiDecodeAppend(a: seq<byte>, b: seq<byte>)
    ensures AsciiDecode(a + b) == AsciiDecode(a) + AsciiDecode(b)
  {
  }

  /** Behind a header that starts with NUL, the text keeps the header and is
      trimmed only at the reply's end. */
  lemma ReplyText(header: seq<byte>, text: seq<byte>)
    requires |header| > 0 && header[0] == 0
    requires TrimEndWhiteSpace(TrimEnd(AsciiDecode(text), '\0')) != []
    ensures ResponseText(header + text) ==
              AsciiDecode(header) + TrimEndWhiteSpace(TrimEnd(AsciiDecode(text), '\0'))
  {
    var h := AsciiDecode(header);
    var textChars := AsciiDecode(text);
    var u := TrimEnd(textChars, '\0');
    var a := AsciiDecode(header + text);
    assert a == h + textChars by {
      AsciiDecodeAppend(header, text);
    }
    assert u != [];
    var b := TrimEnd(a, '\0');
    TrimEndAppend(h, textChars);
    assert b == h + u;
    assert b[0] == '\0';
    TrimStartStops(b);
    TrimEndWhiteSpaceAppend(h, u);
    assert Trim(b) == h + TrimEndWhiteSpace(u);
  }

  lemma TrimStartStops(s: string)
    requires |s| > 0 && !IsWhiteSpace(s[0])
    ensures TrimStartWhiteSpace(s) == s
  {
  }

  /** When b trims away entirely, TrimEnd('\0') of a + b is that of a. */
  lemma {:induction false} TrimEndVanishes(a: string, b: string)
    requires TrimEnd(b, '\0') == []
    ensures TrimEnd(a + b, '\0') == TrimEnd(a, '\0')
    decreases |b|
  {
    if b == [] {
      assert a + b == a;
    } else {
      assert b[|b| - 1] == '\0';
      assert (a + b)[|a + b| - 1] == '\0';
      assert (a + b)[..|a + b| - 1] == a + b[..|b| - 1];
      TrimEndVanishes(a, b[..|b| - 1]);
    }
  }

  /** When b is all white space, trimming trailing white space of a + b trims a. */
  lemma {:induction false} TrimEndWhiteSpaceVanishes(a: string, b: string)
    requires TrimEndWhiteSpace(b) == []
    ensures TrimEndWhiteSpace(a + b) == TrimEndWhiteSpace(a)
    decreases |b|
  {
    if b == [] {
      assert a + b == a;
    } else {
      assert IsWhiteSpace(b[|b| - 1]);
      assert (a + b)[|a + b| - 1] == b[|b| - 1];
      assert (a + b)[..|a + b| - 1] == a + b[..|b| - 1];
      TrimEndWhiteSpaceVanishes(a, b[..|b| - 1]);
    }
  }

  /** Behind a header that starts with NUL and ends with neither NUL nor white space,
      a reply that trims away entirely leaves just the header's characters. */
  lemma ReplyTextEmpty(header: seq<byte>, text: seq<byte>)
    requires |header| > 0 && header[0] == 0
    requires AsciiChar(header[|header| - 1]) != '\0' && !IsWhiteSpace(AsciiChar(header[|header| - 1]))
    requires TrimEndWhiteSpace(TrimEnd(AsciiDecode(text), '\0')) == []
    ensures ResponseText(header + text) == AsciiDecode(header)
  {
    var h := AsciiDecode(header);
    var textChars := AsciiDecode(text);
    var u := TrimEnd(textChars, '\0');
    var a := AsciiDecode(header + text);
    assert a == h + textChars by {
      AsciiDecodeAppend(header, text);
    }
    assert h[0] == '\0' && h[|h| - 1] == AsciiChar(header[|header| - 1]);
    assert TrimEnd(h, '\0') == h && TrimEndWhiteSpace(h) == h;
    var b := TrimEnd(a, '\0');
    if u == [] {
      TrimEndVanishes(h, textChars);
      assert b == h;
      TrimStartStops(h);
    } else {
      TrimEndAppend(h, textChars);
      assert b == h + u;
      assert b[0] == '\0';
      TrimStartStops(b);
      TrimEndWhiteSpaceVanishes(h, u);
    }
    assert Trim(b) == h;
  }

  /** On a string reply (tag 0x06) the parse returns the reply's text with trailing
      NULs and white space dropped, whatever the length field says, when at least two
      characters remain, and null otherwise. */
  lemma ParseStringReply(hi: byte, lo: byte, text: seq<byte>)
    ensures var t := TrimEndWhiteSpace(TrimEnd(AsciiDecode(text), '\0'));
            ParseResponse([0, 0x83, hi, lo, 0x06] + text) == if |t| >= 2 then Some(t) else None
  {
    var header: seq<byte> := [0, 0x83, hi, lo, 0x06];
    var t := TrimEndWhiteSpace(TrimEnd(AsciiDecode(text), '\0'));
    var h := AsciiDecode(header);
    assert |h| == 5;
    if t == [] {
      ReplyTextEmpty(header, text);
    } else {
      ReplyText(header, text);
      assert (h + t)[5..] == t;
    }
  }

  /** A one-character reply such as "1" parses to null: with the five header
      characters the text is only six long. */
  lemma ParseOneCharReply()
    ensures ParseResponse([0, 0x83, 0, 3, 0x06, 0x31, 0]) == None
  {
    ParseStringReply(0, 3, [0x31, 0]);
    assert AsciiDecode([0x31, 0]) == "1\0";
    assert TrimEnd("1\0", '\0') == "1";
  }

  /** ByondTopicSender.SendTopic over an abstract peer: accepted bounds the sends and
      chunk is what the single receive returns (at most the 65535 bytes asked for).
      Connect and disconnect are left out. */
  method SendTopic(queryString: string, littleEndian: bool, accepted: seq<nat>, chunk: seq<byte>)
    returns (wire: seq<byte>, r: Result<Option<string>>)
    requires forall k :: 0 <= k < |accepted| ==> accepted[k] > 0
    requires |chunk| <= UInt16MaxValue
    ensures RequestPacket(queryString).Err? ==> wire == [] && r == Err(TopicTooLong)
    ensures RequestPacket(queryString).Ok? ==> wire == RequestPacket(queryString).value
    ensures RequestPacket(queryString).Ok? ==> r == Ok(ParseResponse(chunk))
  {
    var packet := BuildRequestPacket(queryString, littleEndian);
    if packet.Err? {
      return [], Err(packet.error);
    }
    var sends;
    wire, sends := SendLoop(packet.value, accepted);

    var returnedData := ReceiveIntoBuffer(chunk);
    PaddingIgnored(chunk, returnedData);
    r := Ok(ParseResponse(returnedData));
  }

  /** The single receive: a zeroed 65535-byte buffer with the chunk written at offset 0. */
  method ReceiveIntoBuffer(chunk: seq<byte>) returns (data: seq<byte>)
    requires |chunk| <= UInt16MaxValue
    ensures |data| == UInt16MaxValue && ZeroPadded(data, chunk)
  {
    var returnedData := new byte[UInt16MaxValue](_ => 0);
    for i := 0 to |chunk|
      invariant forall j :: 0 <= j < i ==> returnedData[j] == chunk[j]
      invariant forall j :: |chunk| <= j < returnedData.Length ==> returnedData[j] == 0
    {
      returnedData[i] := chunk[i];
    }
    data := returnedData[..];
  }
}
