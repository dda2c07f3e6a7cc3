/**
 * The two streams sendImageToTelegramChannel works with (MainActivity.kt:168-187).
 *
 * OutputBuffer stands for the connection's output stream wrapped in a
 * DataOutputStream: with neither a fixed length nor chunked streaming set,
 * HttpURLConnection collects the whole body in a growable byte buffer before
 * it sends it, so the stream is modelled as that buffer.
 *
 * FileInput stands for the FileInputStream over the captured image: each read
 * hands back some chunk of the bytes not yet read, of a size the platform
 * chooses, and -1 once the file is exhausted.
 */
module Streams {
  import opened Text

  class OutputBuffer {
    var data: array<Byte>
    var size: nat

    ghost predicate Valid()
      reads this
    {
      size <= data.Length
    }

    /** The bytes written so far. */
    function Contents(): seq<Byte>
      reads this, data
      requires Valid()
    {
      data[..size]
    }

    constructor ()
      ensures Valid() && Contents() == [] && fresh(data)
    {
      data := new Byte[32];
      size := 0;
    }

    /** Appends one byte, doubling the storage when it is full. */
    method Append(x: Byte)
      requires Valid()
      modifies this, data
      ensures Valid() && Contents() == old(Contents()) + [x]
      ensures data == old(data) || fresh(data)
    {
      if size == data.Length {
        var grown := new Byte[2 * data.Length + 1];
        forall i | 0 <= i < size {
          grown[i] := data[i];
        }
        data := grown;
      }
      data[size] := x;
      size := size + 1;
    }

    /** The low eight bits of each UTF-16 code unit of one character. */
    method AppendChar(c: char)
      requires Valid()
      modifies this, data
      ensures Valid() && Contents() == old(Contents()) + CharBytes(c)
      ensures data == old(data) || fresh(data)
    {
      var units := CodeUnits(c);
      Append(LowByte(units[0]));
      if |units| == 2 {
        Append(LowByte(units[1]));
      }
    }

    /** DataOutputStream.writeBytes: the low eight bits of every UTF-16 code unit of s. */
    method WriteBytes(s: string)
      requires Valid()
      modifies this, data
      ensures Valid() && Contents() == old(Contents()) + LowBytes(s)
      ensures data == old(data) || fresh(data)
    {
      var i := 0;
      while i < |s|
        invariant 0 <= i <= |s| && Valid()
        invariant Contents() == old(Contents()) + LowBytes(s[..i])
        invariant data == old(data) || fresh(data)
      {
        AppendChar(s[i]);
        assert s[..i + 1][..i] == s[..i];
        i := i + 1;
      }
      assert s[..i] == s;
    }

    /** OutputStream.write(b, off, len): the bytes b[off..off+len], in order. */
    method Write(b: array<Byte>, off: nat, len: nat)
      requires Valid() && b != data && off + len <= b.Length
      modifies this, data
      ensures Valid() && Contents() == old(Contents()) + b[off..off + len]
      ensures data == old(data) || fresh(data)
    {
      var k := 0;
      while k < len
        invariant 0 <= k <= len && Valid() && b != data
        invariant Contents() == old(Contents()) + b[off..off + k]
        invariant data == old(data) || fresh(data)
      {
        Append(b[off + k]);
        assert b[off..off + k + 1] == b[off..off + k] + [b[off + k]];
        k := k + 1;
      }
    }
  }

  class FileInput {
    /** The bytes of the file. */
    const content: seq<Byte>
    /** How many of them have been read. */
    var position: nat

    ghost predicate Valid()
      reads this
    {
      position <= |content|
    }

    constructor (content: seq<Byte>)
      ensures Valid() && this.content == content && position == 0
    {
      this.content := content;
      position := 0;
    }

    /**
     * InputStream.read(buffer): 0 for an empty buffer; -1 at the end of the
     * file; otherwise some n with 1 <= n <= buffer.Length, the next n bytes of
     * the file placed in buffer[0..n). Which n is the platform's choice.
     */
    method Read(buffer: array<Byte>) returns (n: int)
      requires Valid()
      modifies this, buffer
      ensures Valid()
      ensures buffer.Length == 0 ==> n == 0 && position == old(position)
      ensures buffer.Length > 0 && old(position) == |content| ==> n == -1 && position == old(position)
      ensures buffer.Length > 0 && old(position) < |content| ==>
        1 <= n <= buffer.Length && position == old(position) + n
        && buffer[..n] == content[old(position)..position]
        && buffer[n..] == old(buffer[n..])
      ensures n <= 0 ==> buffer[..] == old(buffer[..])
    {
      if buffer.Length == 0 {
        return 0;
      }
      if position == |content| {
        return -1;
      }
      n :| 1 <= n <= buffer.Length && n <= |content| - position;
      forall i | 0 <= i < n {
        buffer[i] := content[position + i];
      }
      position := position + n;
    }
  }
}
