/** The wire codec of `src/redis_store/connection.rs`: the five response
    frames, the request (array of bulk strings) frame, and the two decoders,
    `read_request` and `read_response`, as functions of the bytes still
    unread on the connection. Each decoder returns what it read together
    with the bytes it left unread. */
module Connection {
  import opened Base
  import opened Decimal
  import opened Text

  /** `ResponseType`: what `write_response` can put on the wire. */
  datatype ResponseType =
    | SimpleString(text: string)
    | BulkString(content: Option<string>)
    | SimpleError(text: string)
    | RdbFile(payload: seq<byte>)
    | RespArray(text: string)

  const CRLF: string := "\r\n"

  /** Every token is free of line feeds. */
  predicate NoLineFeeds(toks: seq<string>) {
    forall i :: 0 <= i < |toks| ==> NoChar(toks[i], '\n')
  }

  /** `content.split(" ")`: the tokens of a request text. */
  function Tokens(content: string): seq<string> {
    Split(content, " ")
  }

  /** The `*<n>\r\n` line that opens an array frame. */
  function Header(n: nat): string {
    "*" + NatToString(n) + CRLF
  }

  /** The `$<len>\r\n<token>\r\n` pair of one array element. */
  function Element(tok: string): string {
    "$" + NatToString(|tok|) + CRLF + tok + CRLF
  }

  function Elements(toks: seq<string>): string {
    if toks == [] then [] else Element(toks[0]) + Elements(toks[1..])
  }

  /** The array frame of a token list: the count line, then one element
      per token, in order. */
  function Frame(toks: seq<string>): string {
    Header(|toks|) + Elements(toks)
  }

  /** `write_request`: the request frame of `content`'s space-separated
      tokens, built as one formatted string. */
  function WriteRequest(content: string): string {
    Frame(Tokens(content))
  }

  /** The `for token in tokens` loop of the `RESPArray` arm, appending each
      element to the buffer in turn. */
  function PutTokens(buffer: string, toks: seq<string>): string
    decreases |toks|
  {
    if toks == [] then buffer
    else PutTokens(buffer + "$" + NatToString(|toks[0]|) + CRLF + toks[0] + CRLF, toks[1..])
  }

  /** `write_response`: the bytes written for each kind of response. */
  function EncodeResponse(r: ResponseType): string {
    match r
    case SimpleString(text) => "+" + text + CRLF
    case BulkString(Some(content)) => "$" + NatToString(|content|) + CRLF + content + CRLF
    case BulkString(None) => "$-1" + CRLF
    case RespArray(text) =>
      var toks := Tokens(text);
      PutTokens("*" + NatToString(|toks|) + CRLF, toks)
    case RdbFile(payload) => "$" + NatToString(|payload|) + CRLF + Latin1(payload)
    case SimpleError(text) => "-" + text + CRLF
  }

  /** The element loop of `read_request`: for each element, two lines are
      read into one buffer, the buffer is split on `"\r\n"` and its second
      piece is the token. The declared length is never looked at. Indexing
      a missing piece panics. */
  function ReadElements(s: string, count: nat): (r: Outcome<(seq<string>, nat, string)>)
    ensures r.Ok? ==> |r.value.0| == count
    ensures r.Ok? ==> r.value.1 + |r.value.2| == |s|
    ensures !r.Err?
    decreases count
  {
    if count == 0 then Ok(([], 0, s))
    else
      var (lenLine, s1) := ReadLine(s);
      var (tokLine, s2) := ReadLine(s1);
      var pieces := Split(lenLine + tokLine, CRLF);
      if |pieces| < 2 then Panic
      else
        var more := ReadElements(s2, count - 1);
        if more.Panic? then Panic
        else
          var (toks, n, rest) := more.value;
          Ok(([pieces[1]] + toks, |lenLine| + |tokLine| + n, rest))
  }

  /** The opening line of a frame: one line, or the line after it when the
      first is exactly `"\r\n"`. Both decoders start this way, so at most
      one blank line is ever skipped. */
  function ReadFrameLine(input: string): (r: (string, string))
    ensures |r.0| + |r.1| <= |input|
  {
    var (first, afterFirst) := ReadLine(input);
    if first == CRLF then ReadLine(afterFirst) else (first, afterFirst)
  }

  /** `read_request`, up to the token array handed to `parse_to_cmd`: one
      leading `"\r\n"` line is skipped (and not counted); the element count
      is the single character at index 1 of the header line; the result is
      the tokens, the number of bytes of the lines read, and what is left
      unread. */
  function ReadRequest(input: string): (r: Outcome<(seq<string>, nat, string)>)
    ensures r.Ok? ==> |r.value.0| <= 9
  {
    var (line, rest) := ReadFrameLine(input);
    RequestAfter(line, rest)
  }

  /** The opening line and what is left after it make up the input, less
      the skipped blank line if there was one. */
  lemma {:induction false} ReadFrameLineCounts(input: string)
    ensures var (line, rest) := ReadFrameLine(input);
            |line| + |rest| == |input|
            || (|input| >= 2 && input[..2] == CRLF && |line| + |rest| + 2 == |input|)
  {
    var (first, afterFirst) := ReadLine(input);
    if first == CRLF {
      ReadLineSplits(input);
      assert input[..2] == first;
    }
  }

  /** `read_request` counts every byte it reads, except one skipped blank
      line: the bytes counted and the bytes left are the whole input. */
  lemma {:induction false} ReadRequestCounts(input: string)
    ensures var r := ReadRequest(input);
            r.Ok? ==> r.value.1 + |r.value.2| == |input|
                      || (|input| >= 2 && input[..2] == CRLF && r.value.1 + |r.value.2| + 2 == |input|)
  {
    ReadFrameLineCounts(input);
  }

  /** The part of `read_request` after the header line `line` has been read
      and `rest` is left. */
  function RequestAfter(line: string, rest: string): (r: Outcome<(seq<string>, nat, string)>)
    ensures r.Ok? ==> |r.value.0| <= 9
    ensures r.Ok? ==> r.value.1 + |r.value.2| == |line| + |rest|
  {
    if |line| < 2 then Panic
    else
      match ParseUnsigned(line[1..2], USIZE_LIMIT)
      case None => Err(ParseInt)
      case Some(count) =>
        assert count <= 9 by {
          var d := line[1..2];
          assert d[0] != '+' by {
            assert |d[1..]| == 0;
          }
          assert d[..|d| - 1] == [];
          assert Value(d) == DigitValue(d[0]);
        }
        var elements := ReadElements(rest, count);
        if elements.Panic? then Panic
        else
          var (toks, n, rest') := elements.value;
          Ok((toks, |line| + n, rest'))
  }

  /** `read_response`: skips one leading `"\r\n"` line, then dispatches on
      the first character of the line read. `+` and `-` give the line minus
      its first character and last two bytes; `$` gives exactly the declared
      number of bytes that follow the line; anything else gives `None`. A
      missing header, a line too short to slice, an unparsable length or a
      payload cut short panics. */
  function ReadResponse(input: string): (r: Outcome<(Option<string>, string)>)
    ensures !r.Err?
  {
    var (line, rest) := ReadFrameLine(input);
    ResponseAfter(line, rest)
  }

  /** The part of `read_response` after the header line `line` has been
      read and `rest` is left. */
  function ResponseAfter(line: string, rest: string): (r: Outcome<(Option<string>, string)>)
    ensures !r.Err?
  {
    if |line| == 0 then Panic
    else if line[0] == '+' || line[0] == '-' then
      if |line| < 3 then Panic else Ok((Some(line[1..|line| - 2]), rest))
    else if line[0] == '$' then
      if |line| < 3 then Panic
      else
        match ParseUnsigned(line[1..|line| - 2], USIZE_LIMIT)
        case None => Panic
        case Some(n) => if |rest| < n then Panic else Ok((Some(rest[..n]), rest[n..]))
    else Ok((None, rest))
  }

  // ---------------------------------------------------------------------
  // Request frames

  lemma {:induction false} ElementsAppend(a: seq<string>, b: seq<string>)
    ensures Elements(a + b) == Elements(a) + Elements(b)
  {
    if a != [] {
      assert (a + b)[0] == a[0];
      assert (a + b)[1..] == a[1..] + b;
      ElementsAppend(a[1..], b);
    } else {
      assert a + b == b;
    }
  }

  lemma {:induction false} PutTokensAppends(buffer: string, toks: seq<string>)
    ensures PutTokens(buffer, toks) == buffer + Elements(toks)
    decreases |toks|
  {
    if toks != [] {
      var t := toks[0];
      PutTokensAppends(buffer + "$" + NatToString(|t|) + CRLF + t + CRLF, toks[1..]);
    }
  }

  /** `write_response(RESPArray(s))` puts exactly the bytes of
      `write_request(s)` on the wire. */
  lemma {:induction false} RespArrayIsWriteRequest(content: string)
    ensures EncodeResponse(RespArray(content)) == WriteRequest(content)
  {
    var toks := Tokens(content);
    PutTokensAppends("*" + NatToString(|toks|) + CRLF, toks);
  }

  /** The type byte that opens the frame of each kind of response. */
  function TypeMarker(r: ResponseType): char {
    match r
    case SimpleString(_) => '+'
    case SimpleError(_) => '-'
    case BulkString(_) => '$'
    case RdbFile(_) => '$'
    case RespArray(_) => '*'
  }

  /** Every frame `write_response` writes opens with its kind's type byte.
      Every frame but the snapshot ends with `"\r\n"`; the snapshot ends
      with its payload, right after the `"\r\n"` of its length line. */
  lemma {:induction false} EncodeResponseFraming(r: ResponseType)
    ensures var out := EncodeResponse(r);
            && |out| >= 3 && out[0] == TypeMarker(r)
            && (!r.RdbFile? ==> out[|out| - 2..] == CRLF)
            && (r.RdbFile? ==> |out| >= |r.payload| + 2
                               && out[|out| - |r.payload|..] == Latin1(r.payload)
                               && out[|out| - |r.payload| - 2..|out| - |r.payload|] == CRLF)
  {
    match r
    case RespArray(text) =>
      var toks := Tokens(text);
      PutTokensAppends("*" + NatToString(|toks|) + CRLF, toks);
      ElementsEnd(toks);
    case _ =>
  }

  /** The elements of a non-empty token list end with `"\r\n"`. */
  lemma {:induction false} ElementsEnd(toks: seq<string>)
    ensures toks != [] ==> |Elements(toks)| >= 2 && Elements(toks)[|Elements(toks)| - 2..] == CRLF
    decreases |toks|
  {
    if toks != [] {
      ElementsEnd(toks[1..]);
    }
  }

  /** The declared element count of a request is the number of spaces in
      its text plus one. */
  lemma {:induction false} WriteRequestCount(content: string)
    ensures |Tokens(content)| == Count(content, ' ') + 1
  {
    SplitCharCount(content, ' ');
  }

  /** The tokens of a text free of line feeds are free of them too. */
  lemma {:induction false} TokensNoLineFeeds(content: string)
    requires NoChar(content, '\n')
    ensures NoLineFeeds(Tokens(content))
  {
    SplitKeepsNoChar(content, " ", '\n');
  }

  /** The `"\r\n"`-separated segments of a run of elements: each element
      contributes its `$<len>` line and then its token. */
  function LengthsAndTokens(toks: seq<string>): (segs: seq<string>)
    ensures |segs| == 2 * |toks|
  {
    if toks == [] then [] else ["$" + NatToString(|toks[0]|), toks[0]] + LengthsAndTokens(toks[1..])
  }

  /** The `$<len>` line of a token: free of line feeds. */
  lemma {:induction false} LengthLinePlain(t: string)
    ensures NoChar("$" + NatToString(|t|), '\n')
  {
    NatToStringPlain(|t|);
  }

  lemma {:induction false} SplitElement(t: string, tail: string)
    requires NoChar(t, '\n')
    ensures Split(Element(t) + tail, CRLF) == ["$" + NatToString(|t|), t] + Split(tail, CRLF)
  {
    var lenText := "$" + NatToString(|t|);
    LengthLinePlain(t);
    assert Element(t) + tail == lenText + CRLF + (t + CRLF + tail);
    CrlfNoMatch(lenText, t + CRLF + tail);
    SplitCons(lenText, CRLF, t + CRLF + tail);
    CrlfNoMatch(t, tail);
    SplitCons(t, CRLF, tail);
  }

  lemma {:induction false} SplitElements(toks: seq<string>, rest: string)
    requires NoLineFeeds(toks)
    ensures Split(Elements(toks) + rest, CRLF) == LengthsAndTokens(toks) + Split(rest, CRLF)
  {
    if toks != [] {
      var tail := Elements(toks[1..]) + rest;
      assert Elements(toks) + rest == Element(toks[0]) + tail;
      SplitElement(toks[0], tail);
      assert NoLineFeeds(toks[1..]);
      SplitElements(toks[1..], rest);
    } else {
      assert Elements(toks) + rest == rest;
    }
  }

  /** Frame shape: split on `"\r\n"`, a frame is the `*<n>` count line,
      then for each token in order its `$<len>` line (the token's byte
      length) and the token, then whatever follows the frame. */
  lemma {:induction false} FrameSegments(toks: seq<string>, rest: string)
    requires NoLineFeeds(toks)
    ensures Split(Frame(toks) + rest, CRLF)
            == ["*" + NatToString(|toks|)] + LengthsAndTokens(toks) + Split(rest, CRLF)
  {
    var countText := "*" + NatToString(|toks|);
    NatToStringPlain(|toks|);
    assert NoChar(countText, '\n');
    assert Frame(toks) + rest == countText + CRLF + (Elements(toks) + rest);
    CrlfNoMatch(countText, Elements(toks) + rest);
    SplitCons(countText, CRLF, Elements(toks) + rest);
    SplitElements(toks, rest);
  }

  /** The shape of `write_request`'s output: the count line, then the
      length line and the token of each `" "`-separated token in order, and
      nothing after the last `"\r\n"`. */
  lemma {:induction false} WriteRequestSegments(content: string)
    requires NoChar(content, '\n')
    ensures var toks := Tokens(content);
            Split(WriteRequest(content), CRLF) == ["*" + NatToString(|toks|)] + LengthsAndTokens(toks) + [""]
  {
    TokensNoLineFeeds(content);
    FrameSegments(Tokens(content), "");
    assert Frame(Tokens(content)) + "" == WriteRequest(content);
    assert Split("", CRLF) == [""];
  }

  /** Element `i` of `LengthsAndTokens` in closed form. */
  lemma {:induction false} LengthsAndTokensAt(toks: seq<string>, i: nat)
    requires i < |toks|
    ensures LengthsAndTokens(toks)[2 * i] == "$" + NatToString(|toks[i]|)
    ensures LengthsAndTokens(toks)[2 * i + 1] == toks[i]
  {
    if i > 0 {
      LengthsAndTokensAt(toks[1..], i - 1);
    }
  }

  // ---------------------------------------------------------------------
  // read_request

  lemma {:induction false} ElementThenTail(t: string, tail: string)
    ensures Element(t) + tail == ("$" + NatToString(|t|)) + CRLF + (t + CRLF + tail)
  {
    Regroup("$" + NatToString(|t|), CRLF, t, tail);
  }

  lemma {:induction false} ReadLengthLine(t: string, tail: string)
    ensures ReadLine(Element(t) + tail) == ("$" + NatToString(|t|) + CRLF, t + CRLF + tail)
  {
    LengthLinePlain(t);
    ReadLineCrlf("$" + NatToString(|t|), t + CRLF + tail);
    ElementThenTail(t, tail);
  }

  lemma {:induction false} ReadTokenLine(t: string, tail: string)
    requires NoChar(t, '\n')
    ensures ReadLine(t + CRLF + tail) == (t + CRLF, tail)
  {
    ReadLineCrlf(t, tail);
  }

  lemma {:induction false} TokenOfElement(t: string)
    requires NoChar(t, '\n')
    ensures var pieces := Split(("$" + NatToString(|t|) + CRLF) + (t + CRLF), CRLF);
            |pieces| >= 2 && pieces[1] == t
  {
    assert ("$" + NatToString(|t|) + CRLF) + (t + CRLF) == Element(t) + "";
    SplitElement(t, "");
  }

  /** The two lines of one element frame, and the token `read_request`
      cuts out of them. */
  lemma {:induction false} ReadElementLines(t: string, tail: string)
    requires NoChar(t, '\n')
    ensures var lenLine := "$" + NatToString(|t|) + CRLF;
            && ReadLine(Element(t) + tail) == (lenLine, t + CRLF + tail)
            && ReadLine(t + CRLF + tail) == (t + CRLF, tail)
            && |Split(lenLine + (t + CRLF), CRLF)| >= 2
            && Split(lenLine + (t + CRLF), CRLF)[1] == t
  {
    ReadLengthLine(t, tail);
    ReadTokenLine(t, tail);
    TokenOfElement(t);
  }

  /** One round of the element loop, when both lines are there and the
      buffer has a second piece. */
  lemma {:induction false} ReadElementsStep(s: string, count: nat, lenLine: string, s1: string, tokLine: string, s2: string,
                         t: string, size: nat, toks: seq<string>, n: nat, rest: string)
    requires 0 < count
    requires ReadLine(s) == (lenLine, s1) && ReadLine(s1) == (tokLine, s2)
    requires |Split(lenLine + tokLine, CRLF)| >= 2 && Split(lenLine + tokLine, CRLF)[1] == t
    requires size == |lenLine| + |tokLine|
    requires ReadElements(s2, count - 1) == Ok((toks, n, rest))
    ensures ReadElements(s, count) == Ok(([t] + toks, size + n, rest))
  {
  }

  /** The first element's frame, then the others'. */
  lemma {:induction false} ElementsCons(toks: seq<string>, rest: string)
    requires toks != []
    ensures Elements(toks) + rest == Element(toks[0]) + (Elements(toks[1..]) + rest)
    ensures |Elements(toks)| == |Element(toks[0])| + |Elements(toks[1..])|
  {
    Assoc(Element(toks[0]), Elements(toks[1..]), rest);
  }

  /** One element frame in front of a readable run of elements is read as
      its token, and all its bytes are counted. */
  lemma {:induction false} ReadElementsCons(input: string, t: string, tail: string, count: nat, toks: seq<string>, n: nat, rest: string)
    requires input == Element(t) + tail
    requires NoChar(t, '\n') && 0 < count
    requires ReadElements(tail, count - 1) == Ok((toks, n, rest))
    ensures ReadElements(input, count) == Ok(([t] + toks, |Element(t)| + n, rest))
  {
    var lenLine := "$" + NatToString(|t|) + CRLF;
    assert ReadLine(input) == (lenLine, t + CRLF + tail) by {
      ReadLengthLine(t, tail);
    }
    assert ReadLine(t + CRLF + tail) == (t + CRLF, tail) by {
      ReadTokenLine(t, tail);
    }
    assert |Split(lenLine + (t + CRLF), CRLF)| >= 2 && Split(lenLine + (t + CRLF), CRLF)[1] == t by {
      TokenOfElement(t);
    }
    assert |Element(t)| == |lenLine| + |t + CRLF|;
    ReadElementsStep(input, count, lenLine, t + CRLF + tail, t + CRLF, tail, t, |Element(t)|, toks, n, rest);
  }

  /** Reading `|toks|` elements back from their frames gives the tokens,
      counts every byte of the frames, and leaves the rest unread. */
  lemma {:induction false} ReadElementsWritten(toks: seq<string>, rest: string)
    requires NoLineFeeds(toks)
    ensures ReadElements(Elements(toks) + rest, |toks|) == Ok((toks, |Elements(toks)|, rest))
  {
    if toks != [] {
      var tail := Elements(toks[1..]) + rest;
      NoLineFeedsCons(toks);
      ReadElementsWritten(toks[1..], rest);
      ElementsCons(toks, rest);
      ReadElementsCons(Elements(toks) + rest, toks[0], tail, |toks|, toks[1..], |Elements(toks[1..])|, rest);
      HeadTail(toks);
    } else {
      assert Elements(toks) + rest == rest;
    }
  }

  lemma {:induction false} NoLineFeedsCons(toks: seq<string>)
    requires NoLineFeeds(toks) && toks != []
    ensures NoChar(toks[0], '\n') && NoLineFeeds(toks[1..])
  {
  }

  /** Reading fewer elements than were written stops after the first `k`
      and leaves the other elements unread. */
  lemma {:induction false} ReadElementsPrefix(toks: seq<string>, k: nat, rest: string)
    requires NoLineFeeds(toks) && k <= |toks|
    ensures ReadElements(Elements(toks) + rest, k)
            == Ok((toks[..k], |Elements(toks[..k])|, Elements(toks[k..]) + rest))
  {
    assert toks == toks[..k] + toks[k..];
    ElementsAppend(toks[..k], toks[k..]);
    assert Elements(toks) + rest == Elements(toks[..k]) + (Elements(toks[k..]) + rest);
    assert NoLineFeeds(toks[..k]);
    ReadElementsWritten(toks[..k], Elements(toks[k..]) + rest);
  }

  /** A frame line that is not blank is read as the opening line. */
  lemma {:induction false} FrameLineOf(a: string, b: string)
    requires NoChar(a, '\n') && a != []
    ensures ReadFrameLine(a + CRLF + b) == (a + CRLF, b)
  {
    ReadLineCrlf(a, b);
  }

  /** A blank line in front of a frame is skipped... */
  lemma {:induction false} FrameLineAfterBlank(s: string)
    ensures ReadFrameLine(CRLF + s) == ReadLine(s)
  {
    ReadLineCrlf([], s);
    assert [] + CRLF + s == CRLF + s;
  }

  /** ...and without one the opening line is the first line. */
  lemma {:induction false} FrameLineNoBlank(s: string)
    requires ReadLine(s).0 != CRLF
    ensures ReadFrameLine(s) == ReadLine(s)
  {
  }

  /** After a header line whose second character is a digit `d`,
      `read_request` reads exactly `d` elements. */
  lemma {:induction false} RequestAfterDigit(a: string, body: string, toks: seq<string>, n: nat, rest: string)
    requires |a| >= 2 && IsDigit(a[1])
    requires ReadElements(body, DigitValue(a[1])) == Ok((toks, n, rest))
    ensures RequestAfter(a + CRLF, body) == Ok((toks, |a| + 2 + n, rest))
  {
    var line := a + CRLF;
    assert line[1..2] == [a[1]];
    ParseDigit(a[1], USIZE_LIMIT);
    assert ParseUnsigned(line[1..2], USIZE_LIMIT) == Some(DigitValue(a[1]));
    assert |line| == |a| + 2;
  }

  /** A header line that is not blank is consumed whole by `read_request`. */
  lemma {:induction false} ReadRequestLine(a: string, body: string)
    requires NoChar(a, '\n') && a != []
    ensures ReadRequest(a + CRLF + body) == RequestAfter(a + CRLF, body)
  {
    FrameLineOf(a, body);
  }

  lemma {:induction false} HeaderThenBody(k: nat, pre: seq<string>, post: seq<string>, rest: string)
    ensures Header(k) + Elements(pre + post) + rest == Header(k) + (Elements(pre) + (Elements(post) + rest))
  {
    ElementsAppend(pre, post);
    Assoc(Header(k), Elements(pre), Elements(post));
    Assoc(Header(k), Elements(pre) + Elements(post), rest);
    Assoc(Elements(pre), Elements(post), rest);
  }

  /** A header line whose second character is a digit `d`, followed by
      `d` readable elements. */
  lemma {:induction false} ReadRequestDigitLine(input: string, a: string, body: string, toks: seq<string>, n: nat, rest: string)
    requires input == a + CRLF + body
    requires NoChar(a, '\n') && |a| >= 2 && IsDigit(a[1])
    requires ReadElements(body, DigitValue(a[1])) == Ok((toks, n, rest))
    ensures ReadRequest(input) == Ok((toks, |a| + 2 + n, rest))
  {
    ReadRequestLine(a, body);
    RequestAfterDigit(a, body, toks, n, rest);
  }

  /** A `*<k>` header line followed by as many readable elements as the
      first digit of `k`. */
  lemma {:induction false} ReadRequestHeader(input: string, k: nat, body: string, toks: seq<string>, m: nat, rest: string)
    requires input == Header(k) + body
    requires ReadElements(body, DigitValue(NatToString(k)[0])) == Ok((toks, m, rest))
    ensures ReadRequest(input) == Ok((toks, |Header(k)| + m, rest))
  {
    HeaderLine(k);
    ReadRequestDigitLine(input, "*" + NatToString(k), body, toks, m, rest);
  }

  /** The `*<k>` line: no line feed, and its second character is the
      first digit of `k`. */
  lemma {:induction false} HeaderLine(k: nat)
    ensures var a := "*" + NatToString(k);
            && NoChar(a, '\n') && |a| >= 2 && IsDigit(a[1]) && a[1] == NatToString(k)[0]
            && Header(k) == a + CRLF
  {
    NatToStringPlain(k);
  }

  /** `read_request` on a frame with header count `k` whose elements are
      `pre` then `post`, where `pre` has as many tokens as the first digit of
      `k`: it returns `pre`, counts the bytes of the header and of `pre`'s
      elements, and leaves `post`'s elements unread. */
  lemma {:induction false} ReadRequestFrame(input: string, k: nat, pre: seq<string>, post: seq<string>, rest: string)
    requires input == Header(k) + Elements(pre + post) + rest
    requires NoLineFeeds(pre) && |pre| == DigitValue(NatToString(k)[0])
    ensures ReadRequest(input) == Ok((pre, |Header(k)| + |Elements(pre)|, Elements(post) + rest))
  {
    var tail := Elements(post) + rest;
    HeaderThenBody(k, pre, post, rest);
    ReadElementsWritten(pre, tail);
    ReadRequestHeader(input, k, Elements(pre) + tail, pre, |Elements(pre)|, tail);
  }

  /** What `read_request` makes of a frame written by `write_request`: the
      element count it uses is only the first digit `d` of the written
      count, so it returns the first `d` tokens, counts the bytes of the
      header and of those `d` elements, and leaves the other elements
      unread. */
  lemma {:induction false} ReadRequestWritten(content: string, rest: string)
    requires NoChar(content, '\n')
    ensures var toks := Tokens(content);
            var d := DigitValue(NatToString(|toks|)[0]);
            && d <= |toks|
            && ReadRequest(WriteRequest(content) + rest)
               == Ok((toks[..d], |Header(|toks|)| + |Elements(toks[..d])|, Elements(toks[d..]) + rest))
  {
    TokensNoLineFeeds(content);
    var toks := Tokens(content);
    var d := DigitValue(NatToString(|toks|)[0]);
    FirstDigitBound(|toks|);
    ReadFrameCut(WriteRequest(content) + rest, toks, d, toks[..d], toks[d..], rest);
  }

  /** A frame of any length is read as its first `d` tokens, where `d` is
      the first digit of its count, and the other elements are left. */
  lemma {:induction false} ReadFrameCut(input: string, toks: seq<string>, d: nat, pre: seq<string>, post: seq<string>, rest: string)
    requires input == Frame(toks) + rest
    requires NoLineFeeds(toks) && d == DigitValue(NatToString(|toks|)[0])
    requires d <= |toks| && pre == toks[..d] && post == toks[d..]
    ensures ReadRequest(input)
            == Ok((pre, |Header(|toks|)| + |Elements(pre)|, Elements(post) + rest))
  {
    NoLineFeedsPrefix(toks, d);
    FrameAt(toks, d, rest);
    ReadRequestFrame(input, |toks|, pre, post, rest);
  }

  /** A frame cut into the elements before and after index `d`. */
  lemma {:induction false} FrameAt(toks: seq<string>, d: nat, rest: string)
    requires d <= |toks|
    ensures Frame(toks) + rest == Header(|toks|) + Elements(toks[..d] + toks[d..]) + rest
  {
    assert toks[..d] + toks[d..] == toks;
  }

  lemma {:induction false} NoLineFeedsPrefix(toks: seq<string>, d: nat)
    requires NoLineFeeds(toks) && d <= |toks|
    ensures NoLineFeeds(toks[..d])
  {
  }

  /** Round trip on frames: a frame of at most nine tokens, none containing
      a line feed, reads back as its tokens, and all its bytes are counted. */
  lemma {:induction false} ReadFrameRoundTrip(toks: seq<string>, rest: string)
    requires NoLineFeeds(toks) && |toks| <= 9
    ensures ReadRequest(Frame(toks) + rest) == Ok((toks, |Frame(toks)|, rest))
  {
    FirstDigitBound(|toks|);
    FrameWhole(toks, rest);
    ReadRequestFrame(Frame(toks) + rest, |toks|, toks, [], rest);
  }

  /** A frame is its header and all its elements, with none after them. */
  lemma {:induction false} FrameWhole(toks: seq<string>, rest: string)
    ensures Frame(toks) + rest == Header(|toks|) + Elements(toks + []) + rest
    ensures |Frame(toks)| == |Header(|toks|)| + |Elements(toks)|
    ensures Elements([]) + rest == rest
  {
    assert toks + [] == toks;
  }

  /** Round trip: a request of at most nine tokens, none containing a line
      feed, reads back as its tokens, and all its bytes are counted. */
  lemma {:induction false} ReadRequestRoundTrip(content: string, rest: string)
    requires NoChar(content, '\n') && |Tokens(content)| <= 9
    ensures ReadRequest(WriteRequest(content) + rest)
            == Ok((Tokens(content), |WriteRequest(content)|, rest))
  {
    TokensNoLineFeeds(content);
    ReadFrameRoundTrip(Tokens(content), rest);
  }

  /** One blank line before a frame is skipped and not counted. */
  lemma {:induction false} ReadRequestSkipsBlankLine(s: string)
    requires ReadLine(s).0 != CRLF
    ensures ReadRequest(CRLF + s) == ReadRequest(s)
  {
    FrameLineAfterBlank(s);
    FrameLineNoBlank(s);
  }

  /** A second blank line is not skipped: its `"\n"` is read as the element
      count, which fails to parse. */
  lemma {:induction false} ReadRequestTwoBlankLines(s: string)
    ensures ReadRequest(CRLF + CRLF + s) == Err(ParseInt)
  {
    assert CRLF + CRLF + s == CRLF + (CRLF + s);
    FrameLineAfterBlank(CRLF + s);
    ReadLineCrlf([], s);
    assert [] + CRLF + s == CRLF + s;
    assert CRLF[1..2] == "\n";
  }

  /** The first character of the header line is never checked: any
      character other than a line break reads the same as `*`. */
  lemma {:induction false} ReadRequestIgnoresMarker(c: char, t: string)
    requires c != '\n' && c != '\r'
    ensures ReadRequest([c] + t) == ReadRequest(['*'] + t)
  {
    FrameLineCons(c, t);
    FrameLineCons('*', t);
    RequestAfterMarker(c, ReadLine(t).0, ReadLine(t).1);
  }

  /** A header line that does not start with a line break is read as one
      line, with no blank line skipped. */
  lemma {:induction false} FrameLineCons(c: char, t: string)
    requires c != '\n' && c != '\r'
    ensures ReadFrameLine([c] + t) == ([c] + ReadLine(t).0, ReadLine(t).1)
  {
    ReadLineCons(c, t);
    assert ([c] + ReadLine(t).0)[0] != '\r';
  }

  /** The part of `read_request` after the header line never looks at the
      line's first character. */
  lemma {:induction false} RequestAfterMarker(c: char, l: string, rest: string)
    ensures RequestAfter([c] + l, rest) == RequestAfter(['*'] + l, rest)
  {
    if l != [] {
      assert ([c] + l)[1..2] == (['*'] + l)[1..2];
    }
  }


  /** As written, a frame of ten tokens reads back as its first token
      alone: the count `10` is read as `1`, and the other nine elements are
      left unread. */
  lemma {:induction false} ReadRequestTenTokens(toks: seq<string>, rest: string)
    requires NoLineFeeds(toks) && |toks| == 10
    ensures ReadRequest(Frame(toks) + rest)
            == Ok((toks[..1], |Header(10)| + |Elements(toks[..1])|, Elements(toks[1..]) + rest))
  {
    TenReadsAsOne();
    ReadFrameCut(Frame(toks) + rest, toks, 1, toks[..1], toks[1..], rest);
  }

  /** The first digit of `10` is `1`. */
  lemma {:induction false} TenReadsAsOne()
    ensures DigitValue(NatToString(10)[0]) == 1
  {
    assert NatToString(10) == NatToString(1) + [DigitChar(0)];
  }

  /** The end of `read_request`: the command `parse` makes of the token
      array read, its error returned with `?`, together with the byte count
      and the bytes left unread. The command parser `read_request` calls
      belongs to the server's extended command type, whose source is not
      part of this model, so it is a parameter. */
  function ParseRead<C>(read: Outcome<(seq<string>, nat, string)>, parse: seq<string> -> Outcome<C>): Outcome<(C, nat, string)> {
    match read
    case Panic => Panic
    case Err(e) => Err(e)
    case Ok((toks, n, rest)) =>
      match parse(toks)
      case Ok(cmd) => Ok((cmd, n, rest))
      case Err(e) => Err(e)
      case Panic => Panic
  }

  /** `read_request` in full, as written, with command parser `parse`. */
  function ReadRequestWith<C>(input: string, parse: seq<string> -> Outcome<C>): Outcome<(C, nat, string)> {
    ParseRead(ReadRequest(input), parse)
  }

  /** The parser sees exactly the token array `toks` of a frame of at most
      nine tokens: `read_request` gives back what the parser makes of it,
      with all the frame's bytes counted and what follows left unread. */
  lemma {:induction false} ReadRequestWithFrame<C>(toks: seq<string>, rest: string, parse: seq<string> -> Outcome<C>)
    requires NoLineFeeds(toks) && |toks| <= 9
    ensures var r := ReadRequestWith(Frame(toks) + rest, parse);
            && (r.Ok? <==> parse(toks).Ok?) && (r.Err? <==> parse(toks).Err?)
            && (r.Ok? ==> r.value == (parse(toks).value, |Frame(toks)|, rest))
            && (r.Err? ==> r.error == parse(toks).error)
  {
    ReadFrameRoundTrip(toks, rest);
  }

  /** As written, the parser of a ten-token frame sees its first token
      alone, and the other nine elements are left unread. */
  lemma {:induction false} ReadRequestWithTenTokens<C>(toks: seq<string>, rest: string, parse: seq<string> -> Outcome<C>)
    requires NoLineFeeds(toks) && |toks| == 10
    ensures var r := ReadRequestWith(Frame(toks) + rest, parse);
            && (r.Ok? <==> parse(toks[..1]).Ok?) && (r.Err? <==> parse(toks[..1]).Err?)
            && (r.Ok? ==> r.value == (parse(toks[..1]).value, |Header(10)| + |Elements(toks[..1])|, Elements(toks[1..]) + rest))
  {
    ReadRequestTenTokens(toks, rest);
  }

  /** `read_request` as evidently intended: the element count is the whole
      header line after the marker and before its `"\r\n"`, the way the
      `$` length of `read_response` is taken. */
  function ReadRequestFixed(input: string): (r: Outcome<(seq<string>, nat, string)>)
  {
    var (line, rest) := ReadFrameLine(input);
    RequestAfterFixed(line, rest)
  }

  function RequestAfterFixed(line: string, rest: string): (r: Outcome<(seq<string>, nat, string)>)
    ensures r.Ok? ==> r.value.1 + |r.value.2| == |line| + |rest|
  {
    if |line| < 3 then Panic
    else
      match ParseUnsigned(line[1..|line| - 2], USIZE_LIMIT)
      case None => Err(ParseInt)
      case Some(count) =>
        var elements := ReadElements(rest, count);
        if elements.Panic? then Panic
        else
          var (toks, n, rest') := elements.value;
          Ok((toks, |line| + n, rest'))
  }

  /** Round trip of the corrected reader: every frame of tokens free of
      line feeds reads back whole, however many tokens it has. */
  lemma {:induction false} ReadRequestFixedRoundTrip(toks: seq<string>, rest: string)
    requires NoLineFeeds(toks) && |toks| < USIZE_LIMIT
    ensures ReadRequestFixed(Frame(toks) + rest) == Ok((toks, |Frame(toks)|, rest))
  {
    var a := "*" + NatToString(|toks|);
    var body := Elements(toks) + rest;
    NatToStringPlain(|toks|);
    assert NoChar(a, '\n');
    assert Frame(toks) + rest == a + CRLF + body;
    FrameLineOf(a, body);
    var line := a + CRLF;
    assert line[1..|line| - 2] == NatToString(|toks|);
    ParseNatToString(|toks|, USIZE_LIMIT);
    ReadElementsWritten(toks, rest);
  }

  /** `read_request` with the corrected token reader and command parser
      `parse`. */
  function ReadRequestFixedWith<C>(input: string, parse: seq<string> -> Outcome<C>): Outcome<(C, nat, string)> {
    ParseRead(ReadRequestFixed(input), parse)
  }

  /** With the corrected reader, the parser sees the whole token array of
      a frame of any size. */
  lemma {:induction false} ReadRequestFixedWithFrame<C>(toks: seq<string>, rest: string, parse: seq<string> -> Outcome<C>)
    requires NoLineFeeds(toks) && |toks| < USIZE_LIMIT
    ensures var r := ReadRequestFixedWith(Frame(toks) + rest, parse);
            && (r.Ok? <==> parse(toks).Ok?) && (r.Err? <==> parse(toks).Err?)
            && (r.Ok? ==> r.value == (parse(toks).value, |Frame(toks)|, rest))
            && (r.Err? ==> r.error == parse(toks).error)
  {
    ReadRequestFixedRoundTrip(toks, rest);
  }

  /** The corrected reader agrees with the one as written on every frame
      of at most nine tokens. */
  lemma {:induction false} ReadRequestFixedAgrees(toks: seq<string>, rest: string)
    requires NoLineFeeds(toks) && |toks| <= 9
    ensures ReadRequestFixed(Frame(toks) + rest) == ReadRequest(Frame(toks) + rest)
  {
    ReadRequestFixedRoundTrip(toks, rest);
    ReadFrameRoundTrip(toks, rest);
  }

  // ---------------------------------------------------------------------
  // read_response

  lemma {:induction false} SimpleThenRest(marker: string, text: string, rest: string)
    ensures marker + text + CRLF + rest == (marker + text) + CRLF + rest
  {
  }

  /** A simple string or simple error reads back as its text. */
  lemma {:induction false} ReadResponseSimple(r: ResponseType, rest: string)
    requires r.SimpleString? || r.SimpleError?
    requires NoChar(r.text, '\n')
    ensures ReadResponse(EncodeResponse(r) + rest) == Ok((Some(r.text), rest))
  {
    var marker := if r.SimpleString? then "+" else "-";
    assert NoChar(marker + r.text, '\n');
    SimpleThenRest(marker, r.text, rest);
    FrameLineOf(marker + r.text, rest);
    var line := (marker + r.text) + CRLF;
    assert line[1..|line| - 2] == r.text;
  }

  /** A `$<k>` header followed by at least `k` bytes yields exactly those
      `k` bytes, leaving everything after them unread. */
  lemma {:induction false} ReadResponseLengthPrefixed(input: string, k: nat, body: string)
    requires input == ("$" + NatToString(k)) + CRLF + body
    requires k <= |body| && k < USIZE_LIMIT
    ensures ReadResponse(input) == Ok((Some(body[..k]), body[k..]))
  {
    var n := NatToString(k);
    NatToStringPlain(k);
    assert NoChar("$" + n, '\n');
    FrameLineOf("$" + n, body);
    var line := ("$" + n) + CRLF;
    assert line[0] == '$';
    assert line[1..|line| - 2] == n;
    ParseNatToString(k, USIZE_LIMIT);
  }

  lemma {:induction false} BulkFrame(content: string, rest: string)
    ensures EncodeResponse(BulkString(Some(content))) + rest
            == ("$" + NatToString(|content|)) + CRLF + (content + (CRLF + rest))
  {
    FrameRegroup("$" + NatToString(|content|), CRLF, content, CRLF, rest);
  }

  /** Regrouping `a ++ b ++ c ++ d ++ rest` around `b`. */
  lemma {:induction false} FrameRegroup(a: string, b: string, c: string, d: string, rest: string)
    ensures a + b + c + d + rest == a + b + (c + (d + rest))
  {
    Assoc(a + b + c, d, rest);
    Assoc(a + b, c, d + rest);
  }

  /** Cutting a concatenation where its first part ends gives back both parts. */
  lemma {:induction false} CutAt(a: string, b: string)
    ensures (a + b)[..|a|] == a && (a + b)[|a|..] == b
  {
  }

  /** A bulk string reads back as exactly its declared bytes, whatever they
      are; its closing `"\r\n"` is left unread. */
  lemma {:induction false} ReadResponseBulk(content: string, rest: string)
    requires |content| < USIZE_LIMIT
    ensures ReadResponse(EncodeResponse(BulkString(Some(content))) + rest)
            == Ok((Some(content), CRLF + rest))
  {
    BulkFrame(content, rest);
    ReadResponseLengthPrefixed(EncodeResponse(BulkString(Some(content))) + rest, |content|, content + (CRLF + rest));
    CutAt(content, CRLF + rest);
  }

  /** The null bulk string cannot be read: `-1` is not a `usize`. */
  lemma {:induction false} ReadResponseNullBulkPanics(rest: string)
    ensures ReadResponse(EncodeResponse(BulkString(None)) + rest) == Panic
  {
    assert NoChar("$-1", '\n');
    FrameLineOf("$-1", rest);
    assert ("$-1" + CRLF)[1..3] == "-1";
  }

  lemma {:induction false} RdbFrame(payload: seq<byte>, rest: string)
    ensures EncodeResponse(RdbFile(payload)) + rest
            == ("$" + NatToString(|Latin1(payload)|)) + CRLF + (Latin1(payload) + rest)
  {
    assert |Latin1(payload)| == |payload|;
    Assoc("$" + NatToString(|payload|) + CRLF, Latin1(payload), rest);
  }

  /** An RDB payload reads back byte for byte, and nothing after it is
      consumed: the frame has no trailing `"\r\n"`. */
  lemma {:induction false} ReadResponseRdb(payload: seq<byte>, rest: string)
    requires |payload| < USIZE_LIMIT
    ensures ReadResponse(EncodeResponse(RdbFile(payload)) + rest) == Ok((Some(Latin1(payload)), rest))
  {
    RdbFrame(payload, rest);
    ReadResponseLengthPrefixed(EncodeResponse(RdbFile(payload)) + rest, |Latin1(payload)|, Latin1(payload) + rest);
    CutAt(Latin1(payload), rest);
  }

  /** Any header other than `+`, `-` and `$` gives `None`, after consuming
      the header line. */
  lemma {:induction false} ReadResponseOtherHeader(c: char, t: string)
    requires c !in "+-$\r\n"
    ensures ReadResponse([c] + t) == Ok((None, ReadLine(t).1))
  {
    FrameLineCons(c, t);
  }

  /** One blank line before a response is skipped, so the `"\r\n"` a bulk
      string leaves behind does not disturb the next read. */
  lemma {:induction false} ReadResponseSkipsBlankLine(s: string)
    requires ReadLine(s).0 != CRLF
    ensures ReadResponse(CRLF + s) == ReadResponse(s)
  {
    FrameLineAfterBlank(s);
    FrameLineNoBlank(s);
  }
}
