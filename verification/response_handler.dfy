/** `src/redis_store/response_handler.rs`: an older response writer over a
    raw stream, and a response reader that takes whatever one `read` call
    returns. */
module ResponseHandler {
  import opened Base
  import opened Decimal
  import Connection

  /** The `ResponseType` of this file: `connection.rs`'s without the array
      frame. */
  datatype Response =
    | SimpleString(text: string)
    | BulkString(content: Option<string>)
    | SimpleError(text: string)
    | RdbFile(payload: seq<byte>)

  const CRLF: string := "\r\n"

  /** The size of the buffer `read_response` reads into. */
  const READ_BUFFER: nat := 512

  /** `write_response`: the bytes written for each kind of response. */
  function WriteResponse(r: Response): (out: string)
    ensures 3 <= |out|
  {
    match r
    case SimpleString(text) => "+" + text + CRLF
    case BulkString(Some(content)) => "$" + NatToString(|content|) + CRLF + content + CRLF
    case BulkString(None) => "$-1" + CRLF
    case RdbFile(payload) => "$" + NatToString(|payload|) + CRLF + Latin1(payload)
    case SimpleError(text) => "-" + text + CRLF
  }

  /** The same response in the `ResponseType` of `connection.rs`. */
  function AsConnection(r: Response): Connection.ResponseType {
    match r
    case SimpleString(text) => Connection.SimpleString(text)
    case BulkString(content) => Connection.BulkString(content)
    case SimpleError(text) => Connection.SimpleError(text)
    case RdbFile(payload) => Connection.RdbFile(payload)
  }

  /** The two writers agree byte for byte on every response they share. */
  lemma {:induction false} WriteResponseAgrees(r: Response)
    ensures WriteResponse(r) == Connection.EncodeResponse(AsConnection(r))
  {
  }

  /** `read_response`. `received` is what one `read` on the stream
      delivers, `None` when the read fails; at most `READ_BUFFER` bytes of
      it are taken. The first character and the last two bytes are
      dropped whatever the header is, and a chunk too short for that
      panics (`nth(0).unwrap()` on an empty chunk, `len() - 2` underflow,
      or a slice whose start passes its end). */
  function ReadResponse(received: Option<string>): (r: Outcome<Option<string>>)
    ensures !r.Err?
    ensures r == Ok(None) <==> received.None?
    ensures r.Panic? <==> received.Some? && |received.value| < 3
    ensures r.Ok? && received.Some? ==>
              && r.value.Some? && |r.value.value| + 3 == |Chunk(received.value)|
              && var c := Chunk(received.value); c == [c[0]] + r.value.value + c[|c| - 2..]
  {
    match received
    case None => Ok(None)
    case Some(bytes) =>
      var chunk := Chunk(bytes);
      if |chunk| == 0 then Panic
      else if |chunk| < 2 then Panic
      else if |chunk| - 2 < 1 then Panic
      else Ok(Some(chunk[1..|chunk| - 2]))
  }

  /** The bytes one `read` into the buffer takes from what is available. */
  function Chunk(bytes: string): (c: string)
    ensures |c| <= READ_BUFFER && |c| <= |bytes| && c == bytes[..|c|]
    ensures |bytes| <= READ_BUFFER ==> c == bytes
  {
    if |bytes| <= READ_BUFFER then bytes else bytes[..READ_BUFFER]
  }

  /** Round trip for simple strings and errors that fit the buffer: the
      reader gives back the text that was written. */
  lemma {:induction false} ReadSimpleResponse(r: Response)
    requires r.SimpleString? || r.SimpleError?
    requires |r.text| + 3 <= READ_BUFFER
    ensures ReadResponse(Some(WriteResponse(r))) == Ok(Some(r.text))
  {
    var out := WriteResponse(r);
    assert out[1..|out| - 2] == r.text;
  }

  /** The header is never looked at: a bulk string reads back as its length
      line's digits, a line break and the content, not as the content. */
  lemma {:induction false} ReadBulkResponse(content: string)
    requires |content| + 5 + |NatToString(|content|)| <= READ_BUFFER
    ensures ReadResponse(Some(WriteResponse(BulkString(Some(content)))))
            == Ok(Some(NatToString(|content|) + CRLF + content))
  {
    var out := WriteResponse(BulkString(Some(content)));
    assert out == "$" + (NatToString(|content|) + CRLF + content) + CRLF;
    assert out[1..|out| - 2] == NatToString(|content|) + CRLF + content;
  }

  /** A response longer than the buffer is cut: only its first
      `READ_BUFFER` bytes are seen, so the last two of those are lost. */
  lemma {:induction false} ReadLongResponse(bytes: string)
    requires READ_BUFFER < |bytes|
    ensures ReadResponse(Some(bytes)) == Ok(Some(bytes[1..READ_BUFFER - 2]))
  {
    assert Chunk(bytes) == bytes[..READ_BUFFER];
    assert bytes[..READ_BUFFER][1..READ_BUFFER - 2] == bytes[1..READ_BUFFER - 2];
  }
}
