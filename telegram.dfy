/**
 * sendImageToTelegramChannel (MainActivity.kt:143-212), up to the point
 * where the request is complete: the URL, the Content-Type header and the
 * body written through the DataOutputStream, including the copy of the image
 * file in chunks of up to 1024 bytes. The clock reading and the file's bytes
 * are parameters; opening, sending and reading the response are not modelled.
 */
module Telegram {
  import opened Wrappers
  import opened Text
  import opened Multipart
  import opened Streams
  import FormData

  /** What the function hands to the connection: the URL, the Content-Type header value and the body. */
  datatype Request = Request(url: string, contentType: string, body: seq<Byte>)

  /** The request for a bot token, a channel id, a clock reading in milliseconds and the image file. */
  function SendPhotoRequest(botToken: string, channelId: string, millis: Long, image: seq<Byte>): (r: Request)
    ensures TokenOfUrl(r.url) == Some(botToken)
    ensures BoundaryParameter(r.contentType) == Some(Boundary(millis))
  {
    var boundary := Boundary(millis);
    Request(SendPhotoUrl(botToken), ContentTypeHeader(boundary), Body(boundary, channelId, image))
  }

  /** The size of the copy buffer. */
  const ChunkSize := 1024

  /**
   * The copy loop (MainActivity.kt:180-187): open the file, read it into a
   * 1024-byte buffer until read returns -1, and after every read write
   * buffer[0..bytesRead) to the output stream. Whatever chunk sizes the reads
   * return, the file's bytes are appended exactly, in order.
   */
  method CopyFile(image: seq<Byte>, outputStream: OutputBuffer)
    requires outputStream.Valid()
    modifies outputStream, outputStream.data
    ensures outputStream.Valid() && outputStream.Contents() == old(outputStream.Contents()) + image
    ensures outputStream.data == old(outputStream.data) || fresh(outputStream.data)
  {
    var fileInputStream := new FileInput(image);
    var buffer := new Byte[ChunkSize];
    while true
      invariant outputStream.Valid() && fileInputStream.Valid()
      invariant fileInputStream.content == image && buffer.Length == ChunkSize
      invariant outputStream.data == old(outputStream.data) || fresh(outputStream.data)
      invariant buffer != outputStream.data
      invariant outputStream.Contents() == old(outputStream.Contents()) + image[..fileInputStream.position]
      decreases |image| - fileInputStream.position
    {
      var bytesRead := fileInputStream.Read(buffer);
      if bytesRead == -1 {
        break;
      }
      outputStream.Write(buffer, 0, bytesRead);
      assert image[..fileInputStream.position]
          == image[..fileInputStream.position - bytesRead] + buffer[0..bytesRead];
    }
    assert image[..fileInputStream.position] == image;
  }

  /**
   * Builds the request step by step as the source does: the boundary from the
   * clock, the URL, the header value, then the body through eight writeBytes
   * calls, the copy of the file and two more writeBytes calls. The body is
   * exactly Body.
   */
  method SendImageToTelegramChannel(botToken: string, channelId: string, millis: Long, image: seq<Byte>)
    returns (request: Request)
    ensures request.url == SendPhotoUrl(botToken)
    ensures request.contentType == ContentTypeHeader(Boundary(millis))
    ensures request.body == Body(Boundary(millis), channelId, image)
  {
    var lineEnd := LineEnd;
    var twoHyphens := TwoHyphens;
    var boundary := "*****" + LongToString(millis) + "*****";

    var url := UrlPrefix + botToken + UrlSuffix;
    var contentType := ContentTypePrefix + boundary;

    var outputStream := new OutputBuffer();
    outputStream.WriteBytes(twoHyphens + boundary + lineEnd);
    assert outputStream.Contents() == LowBytes(twoHyphens + boundary + lineEnd);
    outputStream.WriteBytes(ChatIdDisposition + lineEnd);
    outputStream.WriteBytes(lineEnd);
    outputStream.WriteBytes(channelId + lineEnd);
    outputStream.WriteBytes(twoHyphens + boundary + lineEnd);

    outputStream.WriteBytes(PhotoDisposition + lineEnd);
    outputStream.WriteBytes(JpegContentType + lineEnd);
    outputStream.WriteBytes(lineEnd);

    CopyFile(image, outputStream);

    outputStream.WriteBytes(lineEnd);
    outputStream.WriteBytes(twoHyphens + boundary + twoHyphens + lineEnd);

    WritesFormBody(boundary, channelId, image);
    request := Request(url, contentType, outputStream.Contents());
  }

  /**
   * The URL string holds the bot token verbatim, the Content-Type header
   * holds the boundary and, reading the body with that boundary, a receiver finds exactly
   * two fields in order, chat_id with the channel id and photo with the
   * image, provided the delimiter built from the boundary occurs inside
   * neither part (nothing in the source checks this).
   */
  lemma RequestReadsBack(botToken: string, channelId: string, millis: Long, image: seq<Byte>)
    requires FormData.DelimiterFree(ChatIdPart(channelId), Delimiter(Boundary(millis)))
    requires FormData.DelimiterFree(PhotoPart(image), Delimiter(Boundary(millis)))
    ensures var request := SendPhotoRequest(botToken, channelId, millis, image);
      && TokenOfUrl(request.url) == Some(botToken)
      && BoundaryParameter(request.contentType) == Some(Boundary(millis))
      && FormData.ParseBody(LowBytes(BoundaryParameter(request.contentType).value), request.body)
         == Some([FormData.ChatIdField(channelId), FormData.PhotoField(image)])
  {
    FormData.BodyReadsBack(Boundary(millis), channelId, image);
  }

  /** Requests built at different milliseconds carry different boundaries. */
  lemma RequestsAtDifferentTimesDiffer(botToken: string, channelId: string, m1: Long, m2: Long, image: seq<Byte>)
    requires m1 != m2
    ensures SendPhotoRequest(botToken, channelId, m1, image).contentType
         != SendPhotoRequest(botToken, channelId, m2, image).contentType
  {
    BoundaryInjective(m1, m2);
  }
}
