/** `src/redis_store/response_writer.rs`: the oldest response writer, which
    takes the kind of response and its content separately. */
module ResponseWriter {
  import opened Base
  import opened Decimal
  import Connection

  /** This file's `ResponseType`: only the kind, no content. */
  datatype Kind = SimpleString | BulkString | SimpleError

  const CRLF: string := "\r\n"

  /** `response`: the bytes written for a kind and optional content. The
      simple kinds `unwrap` their content, so they panic without one. */
  function Response(kind: Kind, content: Option<string>): (r: Outcome<string>)
    ensures !r.Err?
    ensures r.Panic? <==> content.None? && !kind.BulkString?
  {
    match kind
    case SimpleString =>
      if content.None? then Panic else Ok("+" + content.value + CRLF)
    case BulkString =>
      (match content
       case Some(c) => Ok("$" + NatToString(|c|) + CRLF + c + CRLF)
       case None => Ok("$-1" + CRLF))
    case SimpleError =>
      if content.None? then Panic else Ok("-" + content.value + CRLF)
  }

  /** The response of `connection.rs` a kind and content stand for. */
  function AsConnection(kind: Kind, content: Option<string>): Connection.ResponseType
    requires content.Some? || kind.BulkString?
  {
    match kind
    case SimpleString => Connection.SimpleString(content.value)
    case BulkString => Connection.BulkString(content)
    case SimpleError => Connection.SimpleError(content.value)
  }

  /** Whenever it does not panic, this writer produces exactly the bytes
      `connection.rs` writes for the same response. */
  lemma {:induction false} ResponseAgrees(kind: Kind, content: Option<string>)
    ensures Response(kind, content)
            == if content.None? && !kind.BulkString? then Panic
               else Ok(Connection.EncodeResponse(AsConnection(kind, content)))
  {
  }
}
