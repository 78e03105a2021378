/** `src/redis_store/request_writer.rs`: the older request writer, which
    builds the frame token by token. */
module RequestWriter {
  import opened Base
  import opened Decimal
  import opened Text
  import opened Connection

  /** `request`: the count line for the `" "`-split tokens, then one
      `$<len>\r\n<token>\r\n` pair per token, appended in order. The
      result is the bytes `write_request` of `connection.rs` produces. */
  method Request(content: string) returns (cmd: string)
    ensures cmd == WriteRequest(content)
    ensures |Tokens(content)| == Count(content, ' ') + 1
  {
    var tokens := Split(content, " ");
    cmd := "*" + NatToString(|tokens|) + CRLF;
    var i := 0;
    while i < |tokens|
      invariant 0 <= i <= |tokens|
      invariant cmd == Header(|tokens|) + Elements(tokens[..i])
    {
      ElementsAppend(tokens[..i], [tokens[i]]);
      assert tokens[..i + 1] == tokens[..i] + [tokens[i]];
      assert Elements([tokens[i]]) == Element(tokens[i]) by {
        assert [tokens[i]][1..] == [];
      }
      cmd := cmd + ("$" + NatToString(|tokens[i]|) + CRLF + tokens[i] + CRLF);
      i := i + 1;
    }
    assert tokens[..|tokens|] == tokens;
    WriteRequestCount(content);
  }
}
