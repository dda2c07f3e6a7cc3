# ChronoCapture: the sendPhoto request, modelled in Dafny

ChronoCapture is an Android app. It takes a photo and posts it to a Telegram
channel through the Bot API's `sendPhoto` method. This project models the
part of `sendImageToTelegramChannel` that builds that request. It covers:

- the boundary `*****<milliseconds>*****`;
- the URL `https://api.telegram.org/bot<token>/sendPhoto`;
- the Content-Type value `multipart/form-data;boundary=<boundary>`;
- the `multipart/form-data` body written through a `DataOutputStream`: ten
  `writeBytes` calls and the copy of the image file in 1024-byte chunks.

Modules:

- `Text`: what `DataOutputStream.writeBytes` does to a `String`. It emits the
  low eight bits of every UTF-16 code unit, and a character outside the Basic
  Multilingual Plane is a surrogate pair, so it yields two bytes. The module
  also holds Kotlin's decimal text of a `Long` and a reader for that text.
- `Multipart`: the request as values. It defines the boundary, the header
  value, the URL and the exact body bytes (`Body`), written in the terms of
  section 5.1.1 of RFC 2046 and section 4.2 of RFC 7578.
- `FormData`: a strict reader of `multipart/form-data` bodies, the partner of
  `Body`. Given the boundary, it recovers the two fields the source writes,
  provided the delimiter does not occur inside a part. Nothing in the source
  checks that condition.
- `Streams`: the two streams as classes.
  - `OutputBuffer` is the connection's output stream. `HttpURLConnection` has
    neither a fixed length nor chunked mode set, so it buffers the whole body;
    the model is a growable array.
  - `FileInput` is the `FileInputStream`. Each `read` returns a chunk whose
    size the platform chooses, or -1 at the end of the file.
- `Telegram`: `SendImageToTelegramChannel`, which follows the source call by
  call, and `CopyFile`, its read/write loop. Both are proved to produce exactly
  what `Multipart` specifies.

Two inputs become parameters: the clock reading (`System.currentTimeMillis()`)
and the image file's bytes.

## Model

| member | source | states |
|---|---|---|
| Telegram.SendImageToTelegramChannel | app/src/main/java/com/ivanlukomskiy/chronocapture/MainActivity.kt:149-190 | the request built step by step has URL SendPhotoUrl(token), Content-Type ContentTypeHeader(Boundary(millis)) and body exactly Body(Boundary(millis), channelId, image) |
| Telegram.CopyFile | app/src/main/java/com/ivanlukomskiy/chronocapture/MainActivity.kt:180-187 | the 1024-byte read/write loop appends the file's bytes to the output stream exactly and in order, whatever chunk sizes the reads return |
| Telegram.SendPhotoRequest | app/src/main/java/com/ivanlukomskiy/chronocapture/MainActivity.kt:151-190 | the request as a value: the sendPhoto URL for the token, the multipart/form-data Content-Type with the millisecond boundary, and Body; a reader finds the token in the URL and that boundary in the header |
| Telegram.RequestReadsBack | app/src/main/java/com/ivanlukomskiy/chronocapture/MainActivity.kt:151-190 | the URL string holds the token verbatim and the header holds the boundary; reading the body with that boundary gives exactly the fields chat_id = channel id and photo = image, in that order, if the delimiter occurs in neither part |
| Telegram.RequestsAtDifferentTimesDiffer | app/src/main/java/com/ivanlukomskiy/chronocapture/MainActivity.kt:151 | requests built at different milliseconds have different Content-Type values, so their boundaries differ |
| Streams.OutputBuffer.WriteBytes | app/src/main/java/com/ivanlukomskiy/chronocapture/MainActivity.kt:170 | writeBytes(s) appends LowBytes(s), the low byte of every UTF-16 code unit of s, and changes nothing else |
| Streams.OutputBuffer.AppendChar | app/src/main/java/com/ivanlukomskiy/chronocapture/MainActivity.kt:170 | one character appends the low bytes of its one or two code units |
| Streams.OutputBuffer.Write | app/src/main/java/com/ivanlukomskiy/chronocapture/MainActivity.kt:185 | write(buffer, 0, n) appends buffer[0..n) in order |
| Streams.FileInput.Read | app/src/main/java/com/ivanlukomskiy/chronocapture/MainActivity.kt:184 | read returns -1 only at the end of the file; otherwise it returns 1..1024 bytes, the next ones of the file, and advances past them |
| Multipart.Body | app/src/main/java/com/ivanlukomskiy/chronocapture/MainActivity.kt:170-190 | the body bytes: dash-boundary line, chat_id part, delimiter, photo part, close-delimiter, CR LF; its length is the image, the channel id's bytes, three boundaries and 163 fixed bytes |
| Multipart.WritesFormBody | app/src/main/java/com/ivanlukomskiy/chronocapture/MainActivity.kt:170-190 | the ten writeBytes strings, with the image after the eighth, concatenate to Body: dash-boundary line, chat_id part, delimiter, photo part, close-delimiter, CR LF |
| Multipart.BodyStart | app/src/main/java/com/ivanlukomskiy/chronocapture/MainActivity.kt:170-171 | the body opens with "--" boundary CR LF, then the chat_id Content-Disposition line |
| Multipart.BodyEnd | app/src/main/java/com/ivanlukomskiy/chronocapture/MainActivity.kt:189-190 | the body ends with the image, CR LF, "--" boundary "--" CR LF, and nothing after |
| Multipart.Boundary | app/src/main/java/com/ivanlukomskiy/chronocapture/MainActivity.kt:151 | the boundary "*****" + the decimal milliseconds + "*****": at least 11 characters, framed by five asterisks on each side |
| Multipart.BoundaryShape | app/src/main/java/com/ivanlukomskiy/chronocapture/MainActivity.kt:151 | the text between the five asterisks on each side reads back as the same millisecond Long |
| Multipart.BoundaryInjective | app/src/main/java/com/ivanlukomskiy/chronocapture/MainActivity.kt:151 | different milliseconds give different boundaries |
| Multipart.BoundaryLength | app/src/main/java/com/ivanlukomskiy/chronocapture/MainActivity.kt:151 | the boundary has 11 to 30 characters, within RFC 2046's limit of 70 |
| Multipart.BoundaryOutsideBChars | app/src/main/java/com/ivanlukomskiy/chronocapture/MainActivity.kt:151 | the boundary has a character ('*') outside RFC 2046's bchars |
| Multipart.ContentTypeHeader | app/src/main/java/com/ivanlukomskiy/chronocapture/MainActivity.kt:163-166 | the header value "multipart/form-data;boundary=" + boundary, with no space; reading its boundary parameter gives back the boundary the body uses |
| Multipart.BoundaryParameterOnlyFromPrefix | app/src/main/java/com/ivanlukomskiy/chronocapture/MainActivity.kt:163-166 | the reader finds a boundary b only in the value "multipart/form-data;boundary=" + b |
| Multipart.SendPhotoUrl | app/src/main/java/com/ivanlukomskiy/chronocapture/MainActivity.kt:156 | the URL "https://api.telegram.org/bot" + token + "/sendPhoto"; the URL string holds the token verbatim between that prefix and suffix |
| Multipart.SendPhotoUrlInjective | app/src/main/java/com/ivanlukomskiy/chronocapture/MainActivity.kt:156 | different tokens give different URLs |
| Multipart.Delimiter | app/src/main/java/com/ivanlukomskiy/chronocapture/MainActivity.kt:174 | every delimiter starts with CR LF and has at least four bytes |
| Multipart.HeadersAreHeaderText | app/src/main/java/com/ivanlukomskiy/chronocapture/MainActivity.kt:171-177 | the three fixed header lines are printable ASCII, so they contain no CR or LF |
| Multipart.HeaderBytes | app/src/main/java/com/ivanlukomskiy/chronocapture/MainActivity.kt:171-177 | writeBytes of printable ASCII header text emits its characters one byte each, none of them CR |
| Multipart.LineEndBytes | app/src/main/java/com/ivanlukomskiy/chronocapture/MainActivity.kt:149 | lineEnd is written as the bytes 13, 10 |
| FormData.BodyReadsBack | app/src/main/java/com/ivanlukomskiy/chronocapture/MainActivity.kt:170-190 | parsing Body with its boundary gives exactly [chat_id field, photo field] when the delimiter occurs in neither part |
| FormData.ChatIdPartReads | app/src/main/java/com/ivanlukomskiy/chronocapture/MainActivity.kt:171-173 | the chat_id part parses to one header line and the channel id as content |
| FormData.PhotoPartReads | app/src/main/java/com/ivanlukomskiy/chronocapture/MainActivity.kt:176-178 | the photo part parses to its two header lines and the image, unchanged, as content |
| FormData.BodyFraming | app/src/main/java/com/ivanlukomskiy/chronocapture/MainActivity.kt:170-190 | the body is the opening dash-boundary line followed by part, delimiter, CR LF, part, delimiter, "--", CR LF |
| FormData.DelimiterBytes | app/src/main/java/com/ivanlukomskiy/chronocapture/MainActivity.kt:170 | twoHyphens + boundary is written as the bytes "--" then the boundary's bytes |
| Text.LowBytes | app/src/main/java/com/ivanlukomskiy/chronocapture/MainActivity.kt:170 | what writeBytes emits for a string: the low byte of each UTF-16 code unit, so between one and two bytes per character |
| Text.LowBytesAppend | app/src/main/java/com/ivanlukomskiy/chronocapture/MainActivity.kt:170 | writeBytes(a + b) emits what writeBytes(a) then writeBytes(b) emit |
| Text.LowBytesLatin1 | app/src/main/java/com/ivanlukomskiy/chronocapture/MainActivity.kt:170 | on Latin-1 text writeBytes emits each character's code as one byte |
| Text.Latin1RoundTrip | app/src/main/java/com/ivanlukomskiy/chronocapture/MainActivity.kt:173 | a Latin-1 channel id is read back from its bytes unchanged |
| Text.CodeUnits | app/src/main/java/com/ivanlukomskiy/chronocapture/MainActivity.kt:170 | a character is one UTF-16 unit in the BMP, otherwise a high and a low surrogate that reconstruct it |
| Text.LongToStringRoundTrip | app/src/main/java/com/ivanlukomskiy/chronocapture/MainActivity.kt:151 | the decimal text of the milliseconds reads back as the same value |
| Text.LongToStringInjective | app/src/main/java/com/ivanlukomskiy/chronocapture/MainActivity.kt:151 | different Longs have different decimal text |
| Text.LongToStringLength | app/src/main/java/com/ivanlukomskiy/chronocapture/MainActivity.kt:151 | the text of a Long has at most 20 characters |
| Text.LongToString | app/src/main/java/com/ivanlukomskiy/chronocapture/MainActivity.kt:151 | the text is non-empty and starts with a digit exactly when the value is not negative |
| Text.NatToDecimal | app/src/main/java/com/ivanlukomskiy/chronocapture/MainActivity.kt:151 | the digits of a magnitude: at least one, all decimal, no leading zero |

## Left out

- Connection setup is not modelled (MainActivity.kt:157-162): `doInput`, `doOutput`, `useCaches`, the POST method and the `Connection: Keep-Alive` header. The model records only the URL and the Content-Type value.
- Sending and the response are not modelled (MainActivity.kt:192-204): `flush`/`close`, the choice between the input and error stream on `HTTP_OK`, and printing the response. Both are I/O.
- The outcome report and cleanup are not modelled (MainActivity.kt:205-210): the "Image sent" toast, `onError` on any exception and `disconnect`. These are UI and I/O. In the source the success toast appears for any response whose stream can be read, including non-200 responses with an error body; when `errorStream` is null the read throws and `onError` runs.
- Exceptions in the middle of the body are not modelled: a missing or unreadable file, or a failed write. The model assumes every write succeeds and that the file's bytes are given.
- Unpaired UTF-16 surrogates in the channel id cannot occur in the model, because a Dafny `char` is a Unicode scalar value.
- Telegram.CopyFile: in the source the loop sits inline in sendImageToTelegramChannel. Here it is its own method, and `fileInputStream.close()` has no counterpart.
- The callers are not modelled, since they only call into this code: photo capture (`takePhoto`), the timestamped file name, stored settings, the screens and the coroutines. The source has no scheduler of its own.
- The boundary is not random: it is a fixed frame around `System.currentTimeMillis()`. Two requests in the same millisecond share a boundary. RequestsAtDifferentTimesDiffer covers only different milliseconds.
- FormData.BodyReadsBack and Telegram.RequestReadsBack hold only under the hypothesis that the delimiter occurs inside neither part. The source never checks this for the channel id or the image bytes, so the model does not claim it.
- The boundary is not RFC 2046 conformant: `*` is not a bchar (BoundaryOutsideBChars). Receivers that accept it anyway are what the source relies on.
- FormData's reader is strict: no preamble and no transport padding after a boundary, and any epilogue after the close-delimiter is ignored, so the final CR LF is pinned down by BodyEnd, not by BodyReadsBack. It reads exactly the framing the source writes and is not a general RFC 7578 parser.
- Multipart.TokenOfUrl cuts the token out of the URL string; it does not parse the URL. A receiver that does would cut short a token holding '/', '?' or '#', which the source does not escape.
