/**
 * A strict reader of multipart/form-data bodies, the receiving side of the
 * body that Multipart.Body describes. It follows the grammar of section 5.1.1
 * of RFC 2046 without preamble and without transport padding: the body opens
 * with the dash-boundary and CR LF, each part ends at the first delimiter
 * (CR LF "--" boundary) that follows it, a delimiter followed by CR LF starts
 * another part, and one followed by "--" closes the body (any epilogue after
 * it is ignored). A part is its header lines, a blank line, and its content.
 *
 * The main result: reading the body the source writes gives back, in order,
 * the chat_id field with the channel id and the photo field with the image,
 * provided the boundary delimiter does not occur inside either part.
 */
module FormData {
  import opened Wrappers
  import opened Text
  import opened Multipart

  /** One encapsulated part: its header lines (without CR LF) and its content. */
  datatype Part = Part(headers: seq<seq<Byte>>, content: seq<Byte>)

  /** "--" as bytes. */
  const Hyphens: seq<Byte> := [45, 45]

  predicate MatchAt(s: seq<Byte>, pattern: seq<Byte>, j: int)
  {
    0 <= j && j + |pattern| <= |s| && s[j..j + |pattern|] == pattern
  }

  /** The first position at or after `from` where `pattern` occurs in `s`. */
  function IndexOf(s: seq<Byte>, pattern: seq<Byte>, from: nat): (r: Option<nat>)
    ensures r.Some? ==> from <= r.value && MatchAt(s, pattern, r.value)
    ensures forall j :: from <= j && (r.None? || j < r.value) ==> !MatchAt(s, pattern, j)
    decreases |s| - from
  {
    if from + |pattern| > |s| then None
    else if s[from..from + |pattern|] == pattern then Some(from)
    else IndexOf(s, pattern, from + 1)
  }

  /** The lines of a header block, split at every CR LF. */
  function Lines(s: seq<Byte>): (r: seq<seq<Byte>>)
    ensures |r| >= 1
    decreases |s|
  {
    match IndexOf(s, CRLF, 0)
    case None => [s]
    case Some(k) => [s[..k]] + Lines(s[k + 2..])
  }

  /** A part: header lines up to the first blank line, then the content. */
  function ParsePart(p: seq<Byte>): Option<Part>
  {
    if |p| >= 2 && p[..2] == CRLF then Some(Part([], p[2..]))
    else
      match IndexOf(p, CRLF + CRLF, 0)
      case None => None
      case Some(k) => Some(Part(Lines(p[..k]), p[k + 4..]))
  }

  /** The parts that follow a dash-boundary line, up to and including the close-delimiter. */
  function ParseParts(delimiter: seq<Byte>, s: seq<Byte>): (r: Option<seq<Part>>)
    ensures r.Some? ==> |r.value| >= 1
    decreases |s|
  {
    match IndexOf(s, delimiter, 0)
    case None => None
    case Some(k) =>
      var after := s[k + |delimiter|..];
      match ParsePart(s[..k])
      case None => None
      case Some(part) =>
        if |after| >= 2 && after[..2] == Hyphens then Some([part])
        else if |after| >= 2 && after[..2] == CRLF then
          match ParseParts(delimiter, after[2..])
          case None => None
          case Some(rest) => Some([part] + rest)
        else None
  }

  /** The parts of a body framed by `boundary`, or None when it is not well framed. */
  function ParseBody(boundary: seq<Byte>, body: seq<Byte>): Option<seq<Part>>
  {
    var open := Hyphens + boundary + CRLF;
    if |open| <= |body| && body[..|open|] == open
    then ParseParts(CRLF + Hyphens + boundary, body[|open|..])
    else None
  }

  /** The chat_id field as a reader sees it: only a Content-Disposition header. */
  function ChatIdField(channelId: string): Part
  {
    Part([LowBytes(ChatIdDisposition)], LowBytes(channelId))
  }

  /** The photo field as a reader sees it: Content-Disposition, then Content-Type image/jpeg. */
  function PhotoField(image: seq<Byte>): Part
  {
    Part([LowBytes(PhotoDisposition), LowBytes(JpegContentType)], image)
  }

  /**
   * The delimiter does not start anywhere inside the part (it may only begin
   * where the part ends), the condition RFC 2046 puts on every encapsulated part.
   */
  predicate DelimiterFree(part: seq<Byte>, delimiter: seq<Byte>)
  {
    forall j :: 0 <= j < |part| ==> !MatchAt(part + delimiter, delimiter, j)
  }

  // ---------------------------------------------------------------------
  // Searching.

  /** The search stops exactly at the first occurrence. */
  lemma IndexOfFirst(s: seq<Byte>, pattern: seq<Byte>, k: nat)
    requires MatchAt(s, pattern, k)
    requires forall j :: 0 <= j < k ==> !MatchAt(s, pattern, j)
    ensures IndexOf(s, pattern, 0) == Some(k)
  {
  }

  /** A pattern that starts with CR cannot occur where there is no CR. */
  lemma NoMatchWithoutCR(s: seq<Byte>, pattern: seq<Byte>, lo: nat, hi: nat)
    requires |pattern| >= 1 && pattern[0] == 13
    requires hi <= |s|
    requires forall j :: lo <= j < hi ==> s[j] != 13
    ensures forall j :: lo <= j < hi ==> !MatchAt(s, pattern, j)
  {
    forall j | lo <= j < hi ensures !MatchAt(s, pattern, j) {
      if j + |pattern| <= |s| {
        assert s[j..j + |pattern|][0] == s[j];
      }
    }
  }

  /** Whether a pattern occurs at j depends only on the bytes from j on that it covers. */
  lemma MatchAtPrefix(x: seq<Byte>, rest: seq<Byte>, pattern: seq<Byte>, j: nat)
    requires j + |pattern| <= |x|
    ensures MatchAt(x + rest, pattern, j) == MatchAt(x, pattern, j)
  {
    assert (x + rest)[j..j + |pattern|] == x[j..j + |pattern|];
  }

  /** In a part followed by its delimiter, the first delimiter found is the one after the part. */
  lemma {:induction false} DelimiterAfterPart(part: seq<Byte>, delimiter: seq<Byte>, rest: seq<Byte>)
    requires DelimiterFree(part, delimiter)
    ensures IndexOf(part + delimiter + rest, delimiter, 0) == Some(|part|)
  {
    var s := part + delimiter + rest;
    assert s == (part + delimiter) + rest;
    forall j | 0 <= j < |part| ensures !MatchAt(s, delimiter, j) {
      MatchAtPrefix(part + delimiter, rest, delimiter, j);
    }
    assert s[|part|..|part| + |delimiter|] == delimiter;
    IndexOfFirst(s, delimiter, |part|);
  }

  // ---------------------------------------------------------------------
  // Reading the two parts the source writes.

  /** A header line followed by CR LF: the first CR LF found is the one after the line. */
  lemma {:induction false} HeaderLineEnds(h: string, pattern: seq<Byte>, rest: seq<Byte>)
    requires HeaderText(h)
    requires |pattern| >= 1 && pattern[0] == 13
    requires MatchAt(LowBytes(h) + rest, pattern, |LowBytes(h)|)
    ensures IndexOf(LowBytes(h) + rest, pattern, 0) == Some(|LowBytes(h)|)
  {
    var s := LowBytes(h) + rest;
    HeaderBytes(h);
    forall j | 0 <= j < |h| ensures s[j] != 13 {
      assert s[j] == LowBytes(h)[j];
    }
    NoMatchWithoutCR(s, pattern, 0, |h|);
    IndexOfFirst(s, pattern, |h|);
  }

  /** A single header line is a single line. */
  lemma OneLine(h: string)
    requires HeaderText(h)
    ensures Lines(LowBytes(h)) == [LowBytes(h)]
  {
    HeaderBytes(h);
    NoMatchWithoutCR(LowBytes(h), CRLF, 0, |h|);
  }

  /** A non-empty header line does not start with CR LF. */
  lemma NotBlank(h: string, rest: seq<Byte>)
    requires HeaderText(h) && |h| >= 1
    ensures !(|LowBytes(h) + rest| >= 2 && (LowBytes(h) + rest)[..2] == CRLF)
  {
    HeaderBytes(h);
    assert (LowBytes(h) + rest)[0] == LowBytes(h)[0];
  }

  /** The chat_id part reads back as the chat_id field. */
  lemma {:induction false} ChatIdPartReads(channelId: string)
    ensures ParsePart(ChatIdPart(channelId)) == Some(ChatIdField(channelId))
  {
    var cd := LowBytes(ChatIdDisposition);
    var p := ChatIdPart(channelId);
    HeadersAreHeaderText();
    HeaderBytes(ChatIdDisposition);
    assert p == cd + (CRLF + CRLF + LowBytes(channelId));
    NotBlank(ChatIdDisposition, CRLF + CRLF + LowBytes(channelId));
    assert (CRLF + CRLF + LowBytes(channelId))[..4] == CRLF + CRLF;
    HeaderLineEnds(ChatIdDisposition, CRLF + CRLF, CRLF + CRLF + LowBytes(channelId));
    assert p[..|cd|] == cd;
    assert p[|cd| + 4..] == LowBytes(channelId);
    OneLine(ChatIdDisposition);
  }

  predicate NoCR(s: seq<Byte>)
  {
    forall i :: 0 <= i < |s| ==> s[i] != 13
  }

  lemma HeaderNoCR(h: string)
    requires HeaderText(h)
    ensures NoCR(LowBytes(h)) && |LowBytes(h)| == |h|
  {
    HeaderBytes(h);
  }

  /** With two header lines, the first blank line is the one after the second. */
  lemma {:induction false} BlankLineAfterTwoHeaders(first: seq<Byte>, second: seq<Byte>, content: seq<Byte>)
    requires NoCR(first) && NoCR(second) && |second| >= 1
    ensures IndexOf(first + CRLF + second + CRLF + CRLF + content, CRLF + CRLF, 0)
         == Some(|first| + 2 + |second|)
  {
    var p := first + CRLF + second + CRLF + CRLF + content;
    var pattern := CRLF + CRLF;
    forall j | 0 <= j < |first| ensures p[j] != 13 {
      assert p[j] == first[j];
    }
    NoMatchWithoutCR(p, pattern, 0, |first|);
    assert !MatchAt(p, pattern, |first|) by {
      assert p[|first| + 2] == second[0];
      assert p[|first|..|first| + 4][2] == p[|first| + 2];
    }
    assert p[|first| + 1] == 10;
    NoMatchWithoutCR(p, pattern, |first| + 1, |first| + 2);
    forall j | |first| + 2 <= j < |first| + 2 + |second| ensures p[j] != 13 {
      assert p[j] == second[j - |first| - 2];
    }
    NoMatchWithoutCR(p, pattern, |first| + 2, |first| + 2 + |second|);
    var k := |first| + 2 + |second|;
    assert p[k..k + 4] == pattern;
    IndexOfFirst(p, pattern, k);
  }

  /** Two header lines joined by CR LF split back into those two lines. */
  lemma {:induction false} TwoLines(first: seq<Byte>, second: seq<Byte>)
    requires NoCR(first) && NoCR(second)
    ensures Lines(first + CRLF + second) == [first, second]
  {
    var s := first + CRLF + second;
    forall j | 0 <= j < |first| ensures s[j] != 13 {
      assert s[j] == first[j];
    }
    NoMatchWithoutCR(s, CRLF, 0, |first|);
    assert s[|first|..|first| + 2] == CRLF;
    IndexOfFirst(s, CRLF, |first|);
    assert s[..|first|] == first && s[|first| + 2..] == second;
    NoMatchWithoutCR(second, CRLF, 0, |second|);
  }

  /** The photo part reads back as the photo field. */
  lemma {:induction false} PhotoPartReads(image: seq<Byte>)
    ensures ParsePart(PhotoPart(image)) == Some(PhotoField(image))
  {
    var pd, ct := LowBytes(PhotoDisposition), LowBytes(JpegContentType);
    var p := PhotoPart(image);
    HeadersAreHeaderText();
    HeaderNoCR(PhotoDisposition);
    HeaderNoCR(JpegContentType);
    var tail := CRLF + ct + CRLF + CRLF + image;
    assert p == pd + tail;
    NotBlank(PhotoDisposition, tail);
    BlankLineAfterTwoHeaders(pd, ct, image);
    var k := |pd| + 2 + |ct|;
    assert p[..k] == pd + CRLF + ct;
    assert p[k + 4..] == image;
    TwoLines(pd, ct);
  }

  /** A delimiter-free part followed by the close-delimiter is the last part. */
  lemma {:induction false} LastPartRead(delimiter: seq<Byte>, part: seq<Byte>, field: Part, epilogue: seq<Byte>)
    requires DelimiterFree(part, delimiter)
    requires ParsePart(part) == Some(field)
    ensures ParseParts(delimiter, part + delimiter + (Hyphens + epilogue)) == Some([field])
  {
    var s := part + delimiter + (Hyphens + epilogue);
    DelimiterAfterPart(part, delimiter, Hyphens + epilogue);
    assert s[..|part|] == part;
    var after := s[|part| + |delimiter|..];
    assert after == Hyphens + epilogue;
    assert after[..2] == Hyphens;
  }

  /** A delimiter-free part followed by a delimiter and CR LF is followed by more parts. */
  lemma {:induction false} PartThenMore(delimiter: seq<Byte>, part: seq<Byte>, field: Part,
                                        more: seq<Byte>, fields: seq<Part>)
    requires DelimiterFree(part, delimiter)
    requires ParsePart(part) == Some(field)
    requires ParseParts(delimiter, more) == Some(fields)
    ensures ParseParts(delimiter, part + delimiter + (CRLF + more)) == Some([field] + fields)
  {
    var s := part + delimiter + (CRLF + more);
    DelimiterAfterPart(part, delimiter, CRLF + more);
    assert s[..|part|] == part;
    var after := s[|part| + |delimiter|..];
    assert after == CRLF + more;
    assert after[..2] == CRLF && after[..2] != Hyphens;
    assert after[2..] == more;
  }

  /**
   * Reading two parts, each free of the delimiter, the first followed by a
   * delimiter and CR LF, the second by the close-delimiter.
   */
  lemma {:induction false} TwoPartsRead(delimiter: seq<Byte>, chat: seq<Byte>, photo: seq<Byte>,
                                        chatField: Part, photoField: Part)
    requires DelimiterFree(chat, delimiter) && DelimiterFree(photo, delimiter)
    requires ParsePart(chat) == Some(chatField) && ParsePart(photo) == Some(photoField)
    ensures ParseParts(delimiter, chat + delimiter + (CRLF + (photo + delimiter + (Hyphens + CRLF))))
         == Some([chatField, photoField])
  {
    var more := photo + delimiter + (Hyphens + CRLF);
    LastPartRead(delimiter, photo, photoField, CRLF);
    PartThenMore(delimiter, chat, chatField, more, [photoField]);
    assert [chatField] + [photoField] == [chatField, photoField];
  }

  /** Regrouping of the body after its first line, stated over arbitrary byte strings. */
  lemma RegroupParts(chat: seq<Byte>, delimiter: seq<Byte>, crlf: seq<Byte>, photo: seq<Byte>, hyphens: seq<Byte>)
    ensures chat + delimiter + crlf + photo + delimiter + hyphens + crlf
         == chat + delimiter + (crlf + (photo + delimiter + (hyphens + crlf)))
  {
  }

  lemma RegroupDelimiter(crlf: seq<Byte>, hyphens: seq<Byte>, b: seq<Byte>)
    ensures crlf + (hyphens + b) == crlf + hyphens + b
  {
  }

  lemma RegroupOpen(hyphens: seq<Byte>, b: seq<Byte>, crlf: seq<Byte>, chat: seq<Byte>, delimiter: seq<Byte>,
                    photo: seq<Byte>)
    ensures (hyphens + b) + crlf + chat + delimiter + crlf + photo + delimiter + hyphens + crlf
         == (hyphens + b + crlf) + (chat + delimiter + crlf + photo + delimiter + hyphens + crlf)
  {
  }

  /**
   * Reading a body framed by an arbitrary boundary b: the opening dash-boundary
   * line, two delimiter-free parts, the close-delimiter.
   */
  lemma {:induction false} FramedBodyRead(b: seq<Byte>, chat: seq<Byte>, photo: seq<Byte>,
                                          chatField: Part, photoField: Part)
    requires DelimiterFree(chat, CRLF + Hyphens + b) && DelimiterFree(photo, CRLF + Hyphens + b)
    requires ParsePart(chat) == Some(chatField) && ParsePart(photo) == Some(photoField)
    ensures var delimiter := CRLF + Hyphens + b;
      ParseBody(b, (Hyphens + b + CRLF) + (chat + delimiter + CRLF + photo + delimiter + Hyphens + CRLF))
        == Some([chatField, photoField])
  {
    var delimiter := CRLF + Hyphens + b;
    var s := chat + delimiter + CRLF + photo + delimiter + Hyphens + CRLF;
    var body := (Hyphens + b + CRLF) + s;
    assert body[..|Hyphens + b + CRLF|] == Hyphens + b + CRLF;
    assert body[|Hyphens + b + CRLF|..] == s;
    RegroupParts(chat, delimiter, CRLF, photo, Hyphens);
    TwoPartsRead(delimiter, chat, photo, chatField, photoField);
  }

  /** The dash-boundary and the delimiter as bytes: "--" and CR LF "--" before the boundary's bytes. */
  lemma DelimiterBytes(boundary: string)
    ensures DashBoundary(boundary) == Hyphens + LowBytes(boundary)
    ensures Delimiter(boundary) == CRLF + Hyphens + LowBytes(boundary)
    ensures LowBytes(TwoHyphens) == Hyphens
  {
    assert LowBytes(TwoHyphens) == Hyphens by {
      LowBytesLatin1(TwoHyphens);
    }
    LowBytesAppend(TwoHyphens, boundary);
    RegroupDelimiter(CRLF, Hyphens, LowBytes(boundary));
  }

  /** The body the source writes, in the shape FramedBodyRead reads. */
  lemma BodyFraming(boundary: string, channelId: string, image: seq<Byte>)
    ensures Body(boundary, channelId, image)
         == (Hyphens + LowBytes(boundary) + CRLF)
            + (ChatIdPart(channelId) + Delimiter(boundary) + CRLF + PhotoPart(image)
               + Delimiter(boundary) + Hyphens + CRLF)
  {
    DelimiterBytes(boundary);
    RegroupOpen(Hyphens, LowBytes(boundary), CRLF, ChatIdPart(channelId), Delimiter(boundary), PhotoPart(image));
  }

  /**
   * Round trip: a reader given the boundary gets back exactly two fields from
   * the body the source writes, chat_id with the channel id and then photo
   * with the image, provided the delimiter occurs inside neither part.
   */
  lemma {:induction false} BodyReadsBack(boundary: string, channelId: string, image: seq<Byte>)
    requires DelimiterFree(ChatIdPart(channelId), Delimiter(boundary))
    requires DelimiterFree(PhotoPart(image), Delimiter(boundary))
    ensures ParseBody(LowBytes(boundary), Body(boundary, channelId, image))
         == Some([ChatIdField(channelId), PhotoField(image)])
  {
    DelimiterBytes(boundary);
    BodyFraming(boundary, channelId, image);
    ChatIdPartReads(channelId);
    PhotoPartReads(image);
    FramedBodyRead(LowBytes(boundary), ChatIdPart(channelId), PhotoPart(image),
                   ChatIdField(channelId), PhotoField(image));
  }
}
