/**
 * The request that sendImageToTelegramChannel builds (MainActivity.kt:149-190),
 * as values: the boundary, the Content-Type header value, the sendPhoto URL
 * and the exact bytes of the multipart/form-data body.
 *
 * The body is stated in the shape of section 5.1.1 of RFC 2046 (dash-boundary,
 * encapsulated parts, delimiters, close-delimiter), with per-part
 * Content-Disposition headers as in section 4.2 of RFC 7578. The writer in
 * module Telegram, which follows the source call by call, is proved to emit
 * exactly these bytes.
 */
module Multipart {
  import opened Wrappers
  import opened Text

  const LineEnd := "\r\n"
  const TwoHyphens := "--"
  const FormDataDisposition := "Content-Disposition: form-data; "
  const ChatIdDisposition := FormDataDisposition + "name=\"chat_id\""
  const PhotoDisposition := FormDataDisposition + "name=\"photo\";filename=\"image.jpg\""
  const JpegContentType := "Content-Type: image/jpeg"
  const ContentTypePrefix := "multipart/form-data;boundary="
  const UrlPrefix := "https://api.telegram.org/bot"
  const UrlSuffix := "/sendPhoto"

  /** CR LF as bytes. */
  const CRLF: seq<Byte> := [13, 10]

  // ---------------------------------------------------------------------
  // Boundary, header value and URL.

  /** The boundary: five asterisks, the clock's milliseconds in decimal, five asterisks. */
  function Boundary(millis: Long): (b: string)
    ensures |b| >= 11 && b[..5] == "*****" && b[|b| - 5..] == "*****"
  {
    "*****" + LongToString(millis) + "*****"
  }

  /**
   * The value of the request's Content-Type header, with no space after the
   * semicolon. A receiver reading its boundary parameter gets back the boundary.
   */
  function ContentTypeHeader(boundary: string): (value: string)
    ensures BoundaryParameter(value) == Some(boundary)
  {
    ContentTypePrefix + boundary
  }

  /** What a receiver reads as the boundary parameter of that header value. */
  function BoundaryParameter(value: string): Option<string>
  {
    if |ContentTypePrefix| <= |value| && value[..|ContentTypePrefix|] == ContentTypePrefix
    then Some(value[|ContentTypePrefix|..])
    else None
  }

  /**
   * The sendPhoto endpoint, with the bot token inserted as it is, unescaped:
   * the URL string holds the token verbatim between the fixed prefix and suffix.
   */
  function SendPhotoUrl(botToken: string): (url: string)
    ensures TokenOfUrl(url) == Some(botToken)
  {
    var url := UrlPrefix + botToken + UrlSuffix;
    assert url[..|UrlPrefix|] == UrlPrefix;
    assert url[|url| - |UrlSuffix|..] == UrlSuffix;
    assert url[|UrlPrefix|..|url| - |UrlSuffix|] == botToken;
    url
  }

  /**
   * The text between the fixed prefix and suffix of a URL string. A receiver
   * that parses the URL gets the same token only when it holds no '/', '?' or '#'.
   */
  function TokenOfUrl(url: string): Option<string>
  {
    if |UrlPrefix| + |UrlSuffix| <= |url|
       && url[..|UrlPrefix|] == UrlPrefix
       && url[|url| - |UrlSuffix|..] == UrlSuffix
    then Some(url[|UrlPrefix|..|url| - |UrlSuffix|])
    else None
  }

  /** Between the five asterisks on each side, the boundary reads back as the millisecond value. */
  lemma BoundaryShape(millis: Long)
    ensures var b := Boundary(millis);
      ParseLong(b[5..|b| - 5]) == Some(millis)
  {
    var b := Boundary(millis);
    assert b[5..|b| - 5] == LongToString(millis);
    LongToStringRoundTrip(millis);
  }

  /** Two requests made at different milliseconds use different boundaries. */
  lemma BoundaryInjective(m1: Long, m2: Long)
    requires m1 != m2
    ensures Boundary(m1) != Boundary(m2)
  {
    BoundaryShape(m1);
    BoundaryShape(m2);
  }

  /** The boundary has 11 to 30 characters, inside the 1 to 70 that RFC 2046 allows. */
  lemma BoundaryLength(millis: Long)
    ensures 11 <= |Boundary(millis)| <= 30
  {
    LongToStringLength(millis);
  }

  /** The characters section 5.1.1 of RFC 2046 allows in a boundary ("bchars"). */
  predicate BChar(c: char)
  {
    || 'a' <= c <= 'z' || 'A' <= c <= 'Z' || '0' <= c <= '9'
    || c in {'\'', '(', ')', '+', '_', ',', '-', '.', '/', ':', '=', '?', ' '}
  }

  /** The boundary is NOT made of RFC 2046 bchars: '*' is not one of them. */
  lemma BoundaryOutsideBChars(millis: Long)
    ensures exists i :: 0 <= i < |Boundary(millis)| && !BChar(Boundary(millis)[i])
  {
    assert Boundary(millis)[0] == '*';
  }

  /** A boundary is read only from a header value of exactly this form. */
  lemma BoundaryParameterOnlyFromPrefix(value: string, boundary: string)
    requires BoundaryParameter(value) == Some(boundary)
    ensures value == ContentTypeHeader(boundary)
  {
    assert value == value[..|ContentTypePrefix|] + value[|ContentTypePrefix|..];
  }

  /** Different tokens give different URLs: no escaping merges two tokens. */
  lemma SendPhotoUrlInjective(t1: string, t2: string)
    requires SendPhotoUrl(t1) == SendPhotoUrl(t2)
    ensures t1 == t2
  {
  }

  // ---------------------------------------------------------------------
  // The body, in the terms of RFC 2046.

  /** "--" followed by the boundary. */
  function DashBoundary(boundary: string): seq<Byte>
  {
    LowBytes(TwoHyphens + boundary)
  }

  /** The delimiter that ends every encapsulated part: CR LF, then the dash-boundary. */
  function Delimiter(boundary: string): (d: seq<Byte>)
    ensures |d| >= 4 && d[..2] == CRLF
  {
    var d := CRLF + DashBoundary(boundary);
    LowBytesAppend(TwoHyphens, boundary);
    LowBytesLatin1(TwoHyphens);
    d
  }

  /** The chat_id part: one Content-Disposition header, no Content-Type, a blank line, the id. */
  function ChatIdPart(channelId: string): seq<Byte>
  {
    LowBytes(ChatIdDisposition) + CRLF + CRLF + LowBytes(channelId)
  }

  /** The photo part: Content-Disposition with the file name, Content-Type, a blank line, the image. */
  function PhotoPart(image: seq<Byte>): seq<Byte>
  {
    LowBytes(PhotoDisposition) + CRLF + LowBytes(JpegContentType) + CRLF + CRLF + image
  }

  /**
   * The whole body: the dash-boundary line, the chat_id part, a delimiter, the
   * photo part, the close-delimiter (a delimiter followed by "--") and a final
   * CR LF. There is no preamble and no epilogue.
   */
  function Body(boundary: string, channelId: string, image: seq<Byte>): (body: seq<Byte>)
    ensures |body| == |image| + |LowBytes(channelId)| + 3 * |LowBytes(boundary)| + 163
  {
    LowBytesAppend(TwoHyphens, boundary);
    LowBytesLatin1(TwoHyphens);
    HeadersAreHeaderText();
    HeaderBytes(ChatIdDisposition);
    HeaderBytes(PhotoDisposition);
    HeaderBytes(JpegContentType);
    DashBoundary(boundary) + CRLF
    + ChatIdPart(channelId)
    + Delimiter(boundary) + CRLF
    + PhotoPart(image)
    + Delimiter(boundary) + LowBytes(TwoHyphens) + CRLF
  }

  // ---------------------------------------------------------------------
  // Facts about the fixed header text.

  /** Printable ASCII: one byte per character and no CR or LF. */
  predicate HeaderText(s: string)
  {
    forall i :: 0 <= i < |s| ==> ' ' <= s[i] <= '~'
  }

  lemma HeaderTextAppend(a: string, b: string)
    requires HeaderText(a) && HeaderText(b)
    ensures HeaderText(a + b)
  {
    forall i | 0 <= i < |a + b| ensures ' ' <= (a + b)[i] <= '~' {
      if i >= |a| {
        assert (a + b)[i] == b[i - |a|];
      }
    }
  }

  /** The bytes of header text are its characters, and none of them is CR. */
  lemma HeaderBytes(s: string)
    requires HeaderText(s)
    ensures |LowBytes(s)| == |s|
    ensures forall i :: 0 <= i < |s| ==> LowBytes(s)[i] == s[i] as int
    ensures forall i :: 0 <= i < |s| ==> LowBytes(s)[i] != 13
  {
    LowBytesLatin1(s);
  }

  /** The three header lines of the body are printable ASCII. */
  lemma HeadersAreHeaderText()
    ensures HeaderText(ChatIdDisposition)
    ensures HeaderText(PhotoDisposition)
    ensures HeaderText(JpegContentType)
  {
    var chat, photo := "name=\"chat_id\"", "name=\"photo\";filename=\"image.jpg\"";
    assert HeaderText(FormDataDisposition) && HeaderText(chat) && HeaderText(photo);
    HeaderTextAppend(FormDataDisposition, chat);
    HeaderTextAppend(FormDataDisposition, photo);
    assert HeaderText(JpegContentType);
  }

  lemma LineEndBytes()
    ensures LowBytes(LineEnd) == CRLF
  {
    LowBytesLatin1(LineEnd);
  }

  // ---------------------------------------------------------------------
  // The body as the writer emits it, and the layout the source promises.

  /** Regrouping of the body's pieces, stated over arbitrary byte strings. */
  lemma RegroupWrites(dash: seq<Byte>, crlf: seq<Byte>, chat: seq<Byte>, id: seq<Byte>, photo: seq<Byte>,
                      jpeg: seq<Byte>, image: seq<Byte>, hyphens: seq<Byte>)
    ensures dash + crlf + (chat + crlf + crlf + id) + (crlf + dash) + crlf
            + (photo + crlf + jpeg + crlf + crlf + image) + (crlf + dash) + hyphens + crlf
         == (dash + crlf) + (chat + crlf) + crlf + (id + crlf) + (dash + crlf)
            + (photo + crlf) + (jpeg + crlf) + crlf + image + crlf + (dash + hyphens + crlf)
  {
  }

  /**
   * The ten writeBytes calls of the source, with the copied image between the
   * eighth and the ninth, emit exactly Body.
   */
  lemma {:induction false} WritesFormBody(boundary: string, channelId: string, image: seq<Byte>)
    ensures LowBytes(TwoHyphens + boundary + LineEnd)
            + LowBytes(ChatIdDisposition + LineEnd)
            + LowBytes(LineEnd)
            + LowBytes(channelId + LineEnd)
            + LowBytes(TwoHyphens + boundary + LineEnd)
            + LowBytes(PhotoDisposition + LineEnd)
            + LowBytes(JpegContentType + LineEnd)
            + LowBytes(LineEnd)
            + image
            + LowBytes(LineEnd)
            + LowBytes(TwoHyphens + boundary + TwoHyphens + LineEnd)
         == Body(boundary, channelId, image)
  {
    LineEndBytes();
    LowBytesAppend(TwoHyphens + boundary, LineEnd);
    LowBytesAppend(ChatIdDisposition, LineEnd);
    LowBytesAppend(channelId, LineEnd);
    LowBytesAppend(PhotoDisposition, LineEnd);
    LowBytesAppend(JpegContentType, LineEnd);
    LowBytesAppend(TwoHyphens + boundary, TwoHyphens);
    LowBytesAppend(TwoHyphens + boundary + TwoHyphens, LineEnd);
    RegroupWrites(DashBoundary(boundary), CRLF, LowBytes(ChatIdDisposition), LowBytes(channelId),
                  LowBytes(PhotoDisposition), LowBytes(JpegContentType), image, LowBytes(TwoHyphens));
  }

  /**
   * The body opens with "--" + boundary + CR LF, immediately followed by the
   * line Content-Disposition: form-data; name="chat_id" + CR LF.
   */
  lemma BodyStart(boundary: string, channelId: string, image: seq<Byte>)
    ensures var open := LowBytes(TwoHyphens + boundary + LineEnd + ChatIdDisposition + LineEnd);
      |open| <= |Body(boundary, channelId, image)|
      && Body(boundary, channelId, image)[..|open|] == open
  {
    var first, second := TwoHyphens + boundary + LineEnd, ChatIdDisposition + LineEnd;
    assert first + second == TwoHyphens + boundary + LineEnd + ChatIdDisposition + LineEnd;
    LowBytesAppend(first, second);
    WritesFormBody(boundary, channelId, image);
    SplitAfterTwo(LowBytes(first), LowBytes(second), LowBytes(LineEnd), LowBytes(channelId + LineEnd),
                  LowBytes(PhotoDisposition + LineEnd), LowBytes(JpegContentType + LineEnd), image,
                  LowBytes(TwoHyphens + boundary + TwoHyphens + LineEnd));
  }

  lemma SplitAfterTwo(w1: seq<Byte>, w2: seq<Byte>, crlf: seq<Byte>, w4: seq<Byte>, w6: seq<Byte>,
                      w7: seq<Byte>, image: seq<Byte>, w10: seq<Byte>)
    ensures var all := w1 + w2 + crlf + w4 + w1 + w6 + w7 + crlf + image + crlf + w10;
      |w1 + w2| <= |all| && all[..|w1 + w2|] == w1 + w2
  {
    var all := w1 + w2 + crlf + w4 + w1 + w6 + w7 + crlf + image + crlf + w10;
    assert all == (w1 + w2) + (crlf + w4 + w1 + w6 + w7 + crlf + image + crlf + w10);
  }

  lemma SplitBeforeLast(w1: seq<Byte>, w2: seq<Byte>, crlf: seq<Byte>, w4: seq<Byte>, w6: seq<Byte>,
                        w7: seq<Byte>, image: seq<Byte>, w10: seq<Byte>)
    ensures var all := w1 + w2 + crlf + w4 + w1 + w6 + w7 + crlf + image + crlf + w10;
      |image + crlf + w10| <= |all| && all[|all| - |image + crlf + w10|..] == image + crlf + w10
  {
    var all := w1 + w2 + crlf + w4 + w1 + w6 + w7 + crlf + image + crlf + w10;
    assert all == (w1 + w2 + crlf + w4 + w1 + w6 + w7 + crlf) + (image + crlf + w10);
  }

  /**
   * The body closes with the image bytes, then CR LF + "--" + boundary + "--" + CR LF,
   * and nothing follows.
   */
  lemma BodyEnd(boundary: string, channelId: string, image: seq<Byte>)
    ensures var close := image + CRLF + LowBytes(TwoHyphens + boundary + TwoHyphens + LineEnd);
      |close| <= |Body(boundary, channelId, image)|
      && Body(boundary, channelId, image)[|Body(boundary, channelId, image)| - |close|..] == close
  {
    var w1, w2, w4 := LowBytes(TwoHyphens + boundary + LineEnd), LowBytes(ChatIdDisposition + LineEnd),
                      LowBytes(channelId + LineEnd);
    var w6, w7, w10 := LowBytes(PhotoDisposition + LineEnd), LowBytes(JpegContentType + LineEnd),
                       LowBytes(TwoHyphens + boundary + TwoHyphens + LineEnd);
    LineEndBytes();
    WritesFormBody(boundary, channelId, image);
    assert w1 + w2 + CRLF + w4 + w1 + w6 + w7 + CRLF + image + CRLF + w10 == Body(boundary, channelId, image);
    SplitBeforeLast(w1, w2, CRLF, w4, w6, w7, image, w10);
  }
}
