/** `src/command.rs`: the four commands of the basic server and the two
    parsers that take a request frame to a command, `parse_command_array`
    (frame text to token array) and `parse_to_cmd` (token array to
    command). `ReadCommand` hands the token array `read_request` reads to
    this four-command `parse_to_cmd`, and `ReadCommandFixed` does the same
    with the corrected token reader. */
module Commands {
  import opened Base
  import opened Decimal
  import opened Text
  import opened Connection

  /** `Command`. The TTL of `SET` is in milliseconds, a `u64`. */
  datatype Command =
    | Ping
    | Echo(text: string)
    | Set(key: string, value: string, ttl: Option<nat>)
    | Get(key: string)

  /** A length line the element loop of `parse_command_array` accepts: it
      drops the first character, whatever it is, and the rest must parse
      as a `usize`. The value is never used. */
  predicate LengthLineOk(line: string) {
    |line| >= 1 && ParseUnsigned(line[1..], USIZE_LIMIT).Some?
  }

  /** The `for _ in 0..cmd_len` loop of `parse_command_array` over the
      segments after the count line: each round takes a length line, parses
      it (an error ends the parse), and keeps the segment after it as the
      token. A missing segment panics (`unwrap` of `None`), and so does an
      empty length line (`[1..]` of `""`). */
  function TakeElements(segs: seq<string>, n: nat): (r: Outcome<seq<string>>)
    ensures r.Ok? ==> |r.value| == n && 2 * n <= |segs|
    ensures r.Ok? ==> forall i :: 0 <= i < n ==> r.value[i] == segs[2 * i + 1]
    ensures r.Err? ==> r.error == ParseInt
    decreases n
  {
    if n == 0 then Ok([])
    else if |segs| == 0 || |segs[0]| == 0 then Panic
    else if ParseUnsigned(segs[0][1..], USIZE_LIMIT).None? then Err(ParseInt)
    else if |segs| < 2 then Panic
    else
      var more := TakeElements(segs[2..], n - 1);
      if !more.Ok? then more
      else
        TakeElementsCons(segs, more.value, n);
        Ok([segs[1]] + more.value)
  }

  /** Putting the first token in front of the tokens taken from the later
      segments keeps every token at twice its index plus one. */
  lemma {:induction false} TakeElementsCons(segs: seq<string>, more: seq<string>, n: nat)
    requires 2 * n <= |segs| && 0 < n && |more| == n - 1
    requires forall i :: 0 <= i < n - 1 ==> more[i] == segs[2..][2 * i + 1]
    ensures forall i :: 0 <= i < n ==> ([segs[1]] + more)[i] == segs[2 * i + 1]
  {
    forall i | 0 <= i < n
      ensures ([segs[1]] + more)[i] == segs[2 * i + 1]
    {
      if i > 0 {
        assert ([segs[1]] + more)[i] == more[i - 1];
        assert segs[2..][2 * (i - 1) + 1] == segs[2 * i + 1];
      }
    }
  }

  /** The size in bytes of a `&str`, a pointer and a length. */
  const STR_REF_SIZE := 16

  /** `Vec::<&str>::with_capacity(n)` succeeds: the `n * 16` bytes it asks
      for fit in an `isize`. Otherwise it panics with a capacity overflow. */
  predicate CapacityFits(n: nat) {
    STR_REF_SIZE * n < ISIZE_LIMIT
  }

  /** `parse_command_array`: the frame is split on `"\r\n"`; the first
      segment must start with `*` and the rest of it is the element count,
      parsed as a `usize`, for which a vector is reserved before any
      element is read. */
  function ParseCommandArray(command: string): (r: Outcome<seq<string>>)
    ensures r.Ok? ==> var segs := Split(command, CRLF);
                      && 1 + 2 * |r.value| <= |segs|
                      && forall i :: 0 <= i < |r.value| ==> r.value[i] == segs[2 * i + 2]
    ensures r.Ok? ==> var first := Split(command, CRLF)[0];
                      && 1 <= |first| && ParseUnsigned(first[1..], USIZE_LIMIT) == Some(|r.value|)
                      && CapacityFits(|r.value|)
  {
    var segs := Split(command, CRLF);
    var first := segs[0];
    if |first| == 0 || first[0] != '*' then Err(InvalidCommand)
    else
      match ParseUnsigned(first[1..], USIZE_LIMIT)
      case None => Err(ParseInt)
      case Some(n) =>
        if !CapacityFits(n) then Panic
        else
          var r := TakeElements(segs[1..], n);
          assert r.Ok? ==> forall i :: 0 <= i < n ==> r.value[i] == segs[1..][2 * i + 1];
          r
  }

  /** `parse_to_cmd`: the first token, upper-cased, picks the command; the
      arguments are taken by index, so a missing one panics, and so does an
      empty array. */
  function ParseToCmd(arr: seq<string>): (r: Outcome<Command>)
    ensures r.Ok? ==> |arr| >= 1
    ensures r.Ok? && r.value.Echo? ==> |arr| >= 2 && r.value.text == arr[1]
    ensures r.Ok? && r.value.Get? ==> |arr| >= 2 && r.value.key == arr[1]
    ensures r.Ok? && r.value.Set? ==> |arr| >= 3 && r.value.key == arr[1] && r.value.value == arr[2]
  {
    if |arr| == 0 then Panic
    else
      var word := ToUpper(arr[0]);
      if word == "PING" then Ok(Ping)
      else if word == "ECHO" then
        if |arr| < 2 then Panic else Ok(Echo(arr[1]))
      else if word == "SET" then
        if |arr| < 3 then Panic
        else if |arr| == 5 && ToUpper(arr[3]) == "PX" then
          match ParseUnsigned(arr[4], U64_LIMIT)
          case None => Err(ParseInt)
          case Some(ms) => Ok(Set(arr[1], arr[2], Some(ms)))
        else Ok(Set(arr[1], arr[2], None))
      else if word == "GET" then
        if |arr| < 2 then Panic else Ok(Get(arr[1]))
      else Err(UnknownCommand)
  }

  /** `Command::new`: `parse_command_array`, then `parse_to_cmd`. */
  function New(command: string): Outcome<Command> {
    match ParseCommandArray(command)
    case Ok(arr) => ParseToCmd(arr)
    case Err(e) => Err(e)
    case Panic => Panic
  }

  /** `read_request` as written (`ReadRequestWith`) with this file's
      four-command `parse_to_cmd` as its command parser. The server's own
      parser also knows `REPLCONF`, `PSYNC` and `INFO`; on frames of the
      four commands here the two are taken to agree. */
  function ReadCommand(input: string): Outcome<(Command, nat, string)> {
    ReadRequestWith(input, ParseToCmd)
  }

  /** The same with the corrected token reader, which parses the whole
      element count. */
  function ReadCommandFixed(input: string): Outcome<(Command, nat, string)> {
    ReadRequestFixedWith(input, ParseToCmd)
  }

  /** The words of the known commands, upper-cased. */
  predicate KnownWord(word: string) {
    word == "PING" || word == "ECHO" || word == "SET" || word == "GET"
  }

  /** The token array of a command, the reference encoding the parser
      inverts: the upper-case word, the arguments, and `PX <ms>` for a TTL. */
  function ToTokens(cmd: Command): seq<string> {
    match cmd
    case Ping => ["PING"]
    case Echo(text) => ["ECHO", text]
    case Get(key) => ["GET", key]
    case Set(key, value, None) => ["SET", key, value]
    case Set(key, value, Some(ms)) => ["SET", key, value, "PX", NatToString(ms)]
  }

  /** No TTL exceeds `u64`. */
  predicate WellFormed(cmd: Command) {
    cmd.Set? && cmd.ttl.Some? ==> cmd.ttl.value < U64_LIMIT
  }

  // ---------------------------------------------------------------------
  // parse_command_array

  /** The element loop succeeds exactly when there are enough segments and
      every length line it reads parses; what the length says is never
      compared with the token. */
  lemma {:induction false} TakeElementsOk(segs: seq<string>, n: nat)
    ensures TakeElements(segs, n).Ok?
            <==> 2 * n <= |segs| && forall i :: 0 <= i < n ==> LengthLineOk(segs[2 * i])
  {
    if TakeElements(segs, n).Ok? {
      TakeElementsOkSound(segs, n);
    }
    if 2 * n <= |segs| && forall i :: 0 <= i < n ==> LengthLineOk(segs[2 * i]) {
      TakeElementsOkComplete(segs, n);
    }
  }

  lemma {:induction false} TakeElementsOkSound(segs: seq<string>, n: nat)
    requires TakeElements(segs, n).Ok?
    ensures forall i :: 0 <= i < n ==> LengthLineOk(segs[2 * i])
    decreases n
  {
    if n > 0 {
      TakeElementsHead(segs, n);
      TakeElementsOkSound(segs[2..], n - 1);
      LengthLinesCons(segs, n);
    }
  }

  /** A successful round consumed an accepted length line and its token. */
  lemma {:induction false} TakeElementsHead(segs: seq<string>, n: nat)
    requires 0 < n && TakeElements(segs, n).Ok?
    ensures 2 <= |segs| && LengthLineOk(segs[0]) && TakeElements(segs[2..], n - 1).Ok?
  {
  }

  lemma {:induction false} LengthLinesCons(segs: seq<string>, n: nat)
    requires 0 < n && 2 <= |segs| && LengthLineOk(segs[0])
    requires 2 * n <= |segs|
    requires forall i :: 0 <= i < n - 1 ==> LengthLineOk(segs[2..][2 * i])
    ensures forall i :: 0 <= i < n ==> LengthLineOk(segs[2 * i])
  {
    forall i | 0 <= i < n ensures LengthLineOk(segs[2 * i]) {
      if i > 0 {
        assert segs[2 * i] == segs[2..][2 * (i - 1)];
      }
    }
  }

  lemma {:induction false} TakeElementsOkComplete(segs: seq<string>, n: nat)
    requires 2 * n <= |segs| && forall i :: 0 <= i < n ==> LengthLineOk(segs[2 * i])
    ensures TakeElements(segs, n).Ok?
    decreases n
  {
    if n > 0 {
      assert LengthLineOk(segs[2 * 0]);
      var tail := segs[2..];
      forall i | 0 <= i < n - 1 ensures LengthLineOk(tail[2 * i]) {
        assert tail[2 * i] == segs[2 * (i + 1)];
      }
      TakeElementsOkComplete(tail, n - 1);
    }
  }

  /** A frame that does not start with `*` is rejected as an invalid
      command, and only such a frame is. */
  lemma {:induction false} ParseCommandArrayRejects(command: string)
    ensures ParseCommandArray(command) == Err(InvalidCommand) <==> command == [] || command[0] != '*'
  {
    SplitFirst(command, CRLF);
    var first := Split(command, CRLF)[0];
    if first != [] {
      assert first[0] == command[0];
    }
  }

  /** Every length line written for a token is accepted. */
  lemma {:induction false} LengthsAccepted(toks: seq<string>)
    requires forall i :: 0 <= i < |toks| ==> |toks[i]| < USIZE_LIMIT
    ensures forall i :: 0 <= i < |toks| ==> LengthLineOk(LengthsAndTokens(toks)[2 * i])
  {
    forall i | 0 <= i < |toks| ensures LengthLineOk(LengthsAndTokens(toks)[2 * i]) {
      LengthsAndTokensAt(toks, i);
      var line := "$" + NatToString(|toks[i]|);
      assert line[1..] == NatToString(|toks[i]|);
      ParseNatToString(|toks[i]|, USIZE_LIMIT);
    }
  }

  /** Round trip: `parse_command_array` gives back the tokens of any frame
      whose tokens contain no line feed, whatever follows the frame. */
  lemma {:induction false} ParseFrame(toks: seq<string>, rest: string)
    requires NoLineFeeds(toks) && CapacityFits(|toks|)
    requires forall i :: 0 <= i < |toks| ==> |toks[i]| < USIZE_LIMIT
    ensures ParseCommandArray(Frame(toks) + rest) == Ok(toks)
  {
    FrameSegments(toks, rest);
    Assoc(["*" + NatToString(|toks|)], LengthsAndTokens(toks), Split(rest, CRLF));
    ParseCommandArrayOf(Frame(toks) + rest, |toks|, LengthsAndTokens(toks) + Split(rest, CRLF));
    TakeLengthsAndTokens(toks, Split(rest, CRLF));
  }

  /** A frame whose count line is `*<n>` goes on to take `n` elements from
      the segments after that line. */
  lemma {:induction false} ParseCommandArrayOf(command: string, n: nat, tail: seq<string>)
    requires CapacityFits(n)
    requires Split(command, CRLF) == ["*" + NatToString(n)] + tail
    ensures ParseCommandArray(command) == TakeElements(tail, n)
  {
    var segs := Split(command, CRLF);
    assert segs[0] == "*" + NatToString(n);
    assert segs[1..] == tail;
    assert ("*" + NatToString(n))[1..] == NatToString(n);
    ParseNatToString(n, USIZE_LIMIT);
  }

  /** The element loop over the segments of written elements takes back
      exactly the tokens, whatever segments follow them. */
  lemma {:induction false} TakeLengthsAndTokens(toks: seq<string>, more: seq<string>)
    requires forall i :: 0 <= i < |toks| ==> |toks[i]| < USIZE_LIMIT
    ensures TakeElements(LengthsAndTokens(toks) + more, |toks|) == Ok(toks)
  {
    var tail := LengthsAndTokens(toks) + more;
    LengthsAccepted(toks);
    assert forall i :: 0 <= i < |toks| ==> tail[2 * i] == LengthsAndTokens(toks)[2 * i];
    TakeElementsOk(tail, |toks|);
    var r := TakeElements(tail, |toks|).value;
    forall i | 0 <= i < |toks| ensures r[i] == toks[i] {
      LengthsAndTokensAt(toks, i);
      assert tail[2 * i + 1] == LengthsAndTokens(toks)[2 * i + 1];
    }
    assert r == toks;
  }

  /** Round trip through `write_request`: the frame it writes for a text
      free of line feeds parses back to the text's tokens. */
  lemma {:induction false} ParseWriteRequest(content: string)
    requires NoChar(content, '\n') && |content| < ISIZE_LIMIT && CapacityFits(|Tokens(content)|)
    ensures ParseCommandArray(WriteRequest(content)) == Ok(Tokens(content))
  {
    var toks := Tokens(content);
    TokensNoLineFeeds(content);
    WriteRequestCount(content);
    CountBound(content, ' ');
    TokensShorter(content);
    ParseFrame(toks, "");
    assert Frame(toks) + "" == WriteRequest(content);
  }

  /** No character occurs more often than the text is long. */
  lemma {:induction false} CountBound(s: string, c: char)
    ensures Count(s, c) <= |s|
  {
    if s != [] {
      CountBound(s[1..], c);
    }
  }

  /** No piece of a split is longer than the text. */
  lemma {:induction false} TokensShorter(content: string)
    ensures forall i :: 0 <= i < |Tokens(content)| ==> |Tokens(content)[i]| <= |content|
  {
    JoinSplit(content, " ");
    forall i | 0 <= i < |Tokens(content)| ensures |Tokens(content)[i]| <= |content| {
      JoinPartShorter(Tokens(content), " ", i);
    }
  }

  lemma {:induction false} JoinPartShorter(parts: seq<string>, sep: string, i: nat)
    requires 1 <= |parts| && i < |parts|
    ensures |parts[i]| <= |Join(parts, sep)|
  {
    if |parts| > 1 && i > 0 {
      JoinPartShorter(parts[1..], sep, i - 1);
    }
  }

  /** The declared length is read but never checked: a one-element frame
      reads back as its token whatever `usize` length it declares. */
  lemma {:induction false} ParseIgnoresDeclaredLength(tok: string, declared: nat)
    requires NoChar(tok, '\n') && declared < USIZE_LIMIT
    ensures ParseCommandArray("*1" + CRLF + ("$" + NatToString(declared)) + CRLF + tok + CRLF) == Ok([tok])
  {
    var len := "$" + NatToString(declared);
    var s := "*1" + CRLF + len + CRLF + tok + CRLF;
    OneElementSegments(len, tok, declared);
    assert Split(s, CRLF) == ["*1", len, tok, ""];
    assert "*1"[1..] == "1";
    ParseDigit('1', USIZE_LIMIT);
    assert len[1..] == NatToString(declared);
    ParseNatToString(declared, USIZE_LIMIT);
    TakeOneElement(len, tok, [""]);
    assert Split(s, CRLF)[1..] == [len, tok] + [""];
  }

  lemma {:induction false} OneElementSegments(len: string, tok: string, declared: nat)
    requires NoChar(tok, '\n') && len == "$" + NatToString(declared)
    ensures Split("*1" + CRLF + len + CRLF + tok + CRLF, CRLF) == ["*1", len, tok, ""]
  {
    NatToStringPlain(declared);
    assert NoChar(len, '\n');
    var s := "*1" + CRLF + len + CRLF + tok + CRLF;
    assert s == "*1" + CRLF + (len + CRLF + (tok + CRLF + ""));
    CrlfNoMatch("*1", len + CRLF + (tok + CRLF + ""));
    SplitCons("*1", CRLF, len + CRLF + (tok + CRLF + ""));
    CrlfNoMatch(len, tok + CRLF + "");
    SplitCons(len, CRLF, tok + CRLF + "");
    CrlfNoMatch(tok, "");
    SplitCons(tok, CRLF, "");
    assert Split("", CRLF) == [""];
  }

  /** One round of the element loop on an accepted length line. */
  lemma {:induction false} TakeOneElement(len: string, tok: string, tail: seq<string>)
    requires LengthLineOk(len)
    ensures TakeElements([len, tok] + tail, 1) == Ok([tok])
  {
    var segs := [len, tok] + tail;
    assert segs[0] == len && segs[1] == tok;
    assert TakeElements(segs[2..], 0) == Ok([]);
    assert [tok] + [] == [tok];
  }

  // ---------------------------------------------------------------------
  // parse_to_cmd

  /** Only the four known words are commands; every other word is an
      "unknown command" error. */
  lemma {:induction false} ParseToCmdUnknown(arr: seq<string>)
    requires |arr| >= 1
    ensures ParseToCmd(arr) == Err(UnknownCommand) <==> !KnownWord(ToUpper(arr[0]))
  {
  }

  /** The command word is matched case-insensitively. */
  lemma {:induction false} ParseToCmdCaseInsensitive(word: string, args: seq<string>)
    ensures ParseToCmd([word] + args) == ParseToCmd([ToUpper(word)] + args)
  {
    ToUpperIdempotent(word);
    assert ([word] + args)[1..] == args && ([ToUpper(word)] + args)[1..] == args;
  }

  /** `SET` carries a TTL exactly when there are five tokens and the fourth
      is `PX` in any case; with `PX` and a fifth token that is not a `u64`,
      the parse fails. */
  lemma {:induction false} SetTtlRule(arr: seq<string>)
    requires |arr| >= 3 && ToUpper(arr[0]) == "SET"
    ensures var r := ParseToCmd(arr);
            && (r.Ok? ==> r.value.Set? && (r.value.ttl.Some? <==> |arr| == 5 && ToUpper(arr[3]) == "PX"))
            && (r.Ok? && r.value.ttl.Some? ==> ParseUnsigned(arr[4], U64_LIMIT) == Some(r.value.ttl.value))
            && (r.Err? <==> |arr| == 5 && ToUpper(arr[3]) == "PX" && ParseUnsigned(arr[4], U64_LIMIT).None?)
            && !r.Panic?
  {
  }

  /** `parse_to_cmd` inverts the reference encoding. */
  lemma {:induction false} ParseToCmdToTokens(cmd: Command)
    requires WellFormed(cmd)
    ensures ParseToCmd(ToTokens(cmd)) == Ok(cmd)
  {
    UpperWords();
    match cmd
    case Set(_, _, Some(ms)) =>
      ParseNatToString(ms, U64_LIMIT);
    case _ =>
  }

  /** The words of the reference encoding are already upper case. */
  lemma {:induction false} UpperWords()
    ensures ToUpper("PING") == "PING" && ToUpper("ECHO") == "ECHO"
    ensures ToUpper("SET") == "SET" && ToUpper("GET") == "GET" && ToUpper("PX") == "PX"
  {
    ToUpperFixes("PING");
    ToUpperFixes("ECHO");
    ToUpperFixes("SET");
    ToUpperFixes("GET");
    ToUpperFixes("PX");
  }

  /** Any argument free of line feeds and any `u64` TTL survive the
      frame: `Command::new` of the frame of a command's tokens is the
      command. */
  lemma {:induction false} NewOfFrame(cmd: Command)
    requires WellFormed(cmd)
    requires NoLineFeeds(ToTokens(cmd))
    requires forall i :: 0 <= i < |ToTokens(cmd)| ==> |ToTokens(cmd)[i]| < USIZE_LIMIT
    ensures New(Frame(ToTokens(cmd))) == Ok(cmd)
  {
    assert |ToTokens(cmd)| <= 5;
    ParseFrame(ToTokens(cmd), "");
    assert Frame(ToTokens(cmd)) + "" == Frame(ToTokens(cmd));
    ParseToCmdToTokens(cmd);
  }

  /** `Command::new` rejects a frame as an invalid command exactly when it
      does not start with `*`: `parse_to_cmd` never gives that error. */
  lemma {:induction false} NewRejects(command: string)
    ensures New(command) == Err(InvalidCommand) <==> command == [] || command[0] != '*'
  {
    ParseCommandArrayRejects(command);
  }

  /** A count whose vector of `&str` would not fit in an `isize` panics
      before any element is read, whatever follows the count line. */
  lemma {:induction false} ParseCommandArrayCapacity(n: nat, rest: string)
    requires n < USIZE_LIMIT && !CapacityFits(n)
    ensures ParseCommandArray("*" + NatToString(n) + CRLF + rest) == Panic
  {
    var a := "*" + NatToString(n);
    NatToStringPlain(n);
    assert NoChar(a, '\n');
    CrlfNoMatch(a, rest);
    SplitCons(a, CRLF, rest);
    assert a[1..] == NatToString(n);
    ParseNatToString(n, USIZE_LIMIT);
  }

  /** `read_request` reads a command's frame back as the command, counts
      all of its bytes and leaves what follows unread: a command has at most
      five tokens, so the count's one digit is the whole count. */
  lemma {:induction false} ReadCommandOfFrame(cmd: Command, rest: string)
    requires WellFormed(cmd) && NoLineFeeds(ToTokens(cmd))
    ensures ReadCommand(Frame(ToTokens(cmd)) + rest) == Ok((cmd, |Frame(ToTokens(cmd))|, rest))
  {
    assert |ToTokens(cmd)| <= 5;
    ReadFrameRoundTrip(ToTokens(cmd), rest);
    ParseToCmdToTokens(cmd);
  }

  /** The corrected reader, too, reads a command's frame back whole. */
  lemma {:induction false} ReadCommandFixedOfFrame(cmd: Command, rest: string)
    requires WellFormed(cmd) && NoLineFeeds(ToTokens(cmd))
    ensures ReadCommandFixed(Frame(ToTokens(cmd)) + rest) == Ok((cmd, |Frame(ToTokens(cmd))|, rest))
  {
    ReadRequestFixedRoundTrip(ToTokens(cmd), rest);
    ParseToCmdToTokens(cmd);
  }

  /** As written, a `SET` frame of ten tokens panics: its count is read as
      `1`, so `parse_to_cmd` sees `SET` without a key. The corrected reader
      reads it as a `SET` of its second and third tokens, without a TTL. */
  lemma {:induction false} ReadCommandTenTokens(toks: seq<string>, rest: string)
    requires NoLineFeeds(toks) && |toks| == 10 && ToUpper(toks[0]) == "SET"
    ensures ReadCommand(Frame(toks) + rest) == Panic
    ensures ReadCommandFixed(Frame(toks) + rest) == Ok((Set(toks[1], toks[2], None), |Frame(toks)|, rest))
  {
    ReadRequestTenTokens(toks, rest);
    assert toks[..1][0] == toks[0];
    ReadRequestFixedRoundTrip(toks, rest);
  }

  /** The unit test of the crate: `Command::new` on the frame of
      `echo hey` is `ECHO("hey")`. */
  lemma {:induction false} NewEchoExample()
    ensures New("*2\r\n$4\r\necho\r\n$3\r\nhey\r\n") == Ok(Echo("hey"))
  {
    EchoFrameText();
    EchoParses();
  }

  lemma {:induction false} EchoParses()
    ensures New(Frame(["echo", "hey"])) == Ok(Echo("hey"))
  {
    var toks := ["echo", "hey"];
    assert NoLineFeeds(toks) by {
      assert NoChar("echo", '\n') && NoChar("hey", '\n');
    }
    ParseFrame(toks, "");
    assert Frame(toks) + "" == Frame(toks);
    EchoWord();
  }

  lemma {:induction false} EchoWord()
    ensures ParseToCmd(["echo", "hey"]) == Ok(Echo("hey"))
  {
    assert ToUpper("echo") == "ECHO";
  }

  lemma {:induction false} EchoFrameText()
    ensures Frame(["echo", "hey"]) == "*2\r\n$4\r\necho\r\n$3\r\nhey\r\n"
  {
    var toks := ["echo", "hey"];
    EchoPieces();
    assert toks[1..] == ["hey"];
    assert Elements(toks) == Element("echo") + Element("hey") by {
      assert Elements(["hey"]) == Element("hey") + Elements([]);
    }
  }

  lemma {:induction false} EchoPieces()
    ensures Header(2) == "*2\r\n"
    ensures Element("echo") == "$4\r\necho\r\n"
    ensures Element("hey") == "$3\r\nhey\r\n"
  {
    assert NatToString(2) == "2";
    assert NatToString(4) == "4";
    assert NatToString(3) == "3";
  }
}
