/**
 * client/client.go: the request lines `Client.Get` and `Client.Set` send,
 * `parseResponse`, and what each call makes of the reply line.
 */
module Client {
  import opened ByteStrings
  import opened Results
  import Server

  /** `Response`: whether the status was OK, and the payload after it. */
  datatype Response = Response(isOk: bool, payload: Bytes)

  datatype ClientError =
    | UnknownFormat              // `parseResponse` met neither OK nor ERROR
    | ServerError(message: Bytes) // the reply was an ERROR line
    | EndOfStream                // the connection ended before a newline

  const ERROR_OCCURED: Bytes :=  // "error occured: ", the prefix of Client.Get's error
    [0x65, 0x72, 0x72, 0x6F, 0x72, 0x20, 0x6F, 0x63, 0x63, 0x75, 0x72, 0x65, 0x64, 0x3A, 0x20]
  const ERROR_COLON: Bytes :=    // "error: ", the prefix of Client.Set's error
    [0x65, 0x72, 0x72, 0x6F, 0x72, 0x3A, 0x20]

  /** The line `Client.Get` writes: `GET <key>\n`. */
  function GetLine(key: Bytes): (r: Bytes)
    ensures |r| == 5 + |key| && StartsWith(r, Server.GET + [SP]) && r[4..|r| - 1] == key
    ensures NL !in key ==> OneLine(r)
  {
    Server.GET + [SP] + key + [NL]
  }

  /** The line `Client.Set` writes: `SET <key> <value>\n`. */
  function SetLine(key: Bytes, value: Bytes): (r: Bytes)
    ensures |r| == 6 + |key| + |value|
    ensures StartsWith(r, Server.SET + [SP] + key + [SP]) && r[5 + |key|..|r| - 1] == value
    ensures NL !in key && NL !in value ==> OneLine(r)
  {
    Server.SET + [SP] + key + [SP] + value + [NL]
  }

  /**
   * `bufio.Reader.ReadBytes('\n')` on what the server sent: the bytes up to
   * and including the first newline; the rest stays in the reader.
   */
  function ReadLine(stream: Bytes): (r: Result<Bytes, ClientError>)
    ensures r.Ok? <==> NL in stream
    ensures r.Ok? ==> OneLine(r.value) && StartsWith(stream, r.value)
    ensures r.Err? ==> r.error == EndOfStream
  {
    var i := FirstIndex(stream, NL);
    if i < 0 then Err(EndOfStream)
    else
      var line := stream[..i + 1];
      assert line[..|line| - 1] == stream[..i];
      Ok(line)
  }

  /** Reading a line off a stream that starts with one gives that line. */
  lemma ReadLineOf(line: Bytes, rest: Bytes)
    requires OneLine(line)
    ensures ReadLine(line + rest) == Ok(line)
  {
    var s := line + rest;
    var n := |line| - 1;
    assert s[..n] == line[..n];
    FirstIndexIs(s, NL, n);
    assert s[..n + 1] == line;
  }

  /** The bytes of `v` before its first newline: what survives of `v` in one line. */
  function LineHead(v: Bytes): (r: Bytes)
    ensures NL !in r && StartsWith(v, r)
    ensures NL !in v <==> r == v
    ensures NL in v ==> v[|r|] == NL
  {
    var i := FirstIndex(v, NL);
    if i < 0 then v else v[..i]
  }

  /** The client reads only the first line of a GET reply whose value holds a newline. */
  lemma ReadGetReply(value: Bytes)
    ensures ReadLine(Server.GetReply(Ok(value))) == Ok(Server.GetReply(Ok(LineHead(value))))
  {
    var h := LineHead(value);
    var line := Server.GetReply(Ok(h));
    assert line == Server.OK + [SP] + h + [NL];
    if NL in value {
      var t := value[|h| + 1..];
      assert value == h + [NL] + t;
      var reply := Server.GetReply(Ok(value));
      assert reply == Server.OK + [SP] + (h + [NL] + t) + [NL];
      assert reply == line + (t + [NL]);
      ReadLineOf(line, t + [NL]);
    } else {
      assert line + [] == line;
      ReadLineOf(line, []);
    }
  }

  /** `parseResponse` reads `bytesSplitted[1]` after an ERROR status, which needs a space. */
  predicate Parsable(res: Bytes) {
    SP in res || TrimSpace(res) != Server.ERROR
  }

  /** The status (the trimmed bytes before the first space) of a reply line. */
  function Status(res: Bytes): (r: Bytes)
    ensures Trimmed(r) && SP !in r
  {
    var i := FirstIndex(res, SP);
    TrimSpace(if i < 0 then res else res[..i])
  }

  /**
   * `parseResponse`: an ERROR status carries the untrimmed rest as payload,
   * an OK status the trimmed rest (empty without a space), anything else
   * is "unknown format".
   */
  function ParseResponse(res: Bytes): (r: Result<Response, ClientError>)
    requires Parsable(res)
    ensures r.Ok? <==> Status(res) == Server.OK || Status(res) == Server.ERROR
    ensures r.Err? ==> r.error == UnknownFormat
    ensures r.Ok? ==> (r.value.isOk <==> Status(res) == Server.OK)
    ensures r.Ok? && !r.value.isOk ==>
      SP in res && r.value.payload == res[FirstIndex(res, SP) + 1..]
    ensures r.Ok? && r.value.isOk ==>
      r.value.payload == if SP in res then TrimSpace(res[FirstIndex(res, SP) + 1..]) else []
  {
    var parts := SplitOnce(res, SP);
    var status := TrimSpace(parts[0]);
    if status == Server.ERROR then
      Ok(Response(false, parts[1]))
    else if status == Server.OK then
      Ok(Response(true, if |parts| >= 2 then TrimSpace(parts[1]) else []))
    else
      Err(UnknownFormat)
  }

  /** What `Client.Get` returns for a reply line: the payload of an OK, an error otherwise. */
  function GetResult(reply: Bytes): (r: Result<Bytes, ClientError>)
    requires Parsable(reply)
    ensures r.Ok? <==> ParseResponse(reply).Ok? && ParseResponse(reply).value.isOk
    ensures r.Ok? ==> r.value == ParseResponse(reply).value.payload
    ensures ParseResponse(reply).Ok? && !ParseResponse(reply).value.isOk ==>
      r == Err(ServerError(ERROR_OCCURED + ParseResponse(reply).value.payload))
  {
    match ParseResponse(reply)
    case Err(e) => Err(e)
    case Ok(response) =>
      if !response.isOk then Err(ServerError(ERROR_OCCURED + response.payload))
      else Ok(response.payload)
  }

  /** What `Client.Set` returns for a reply line: success on OK, an error otherwise. */
  function SetResult(reply: Bytes): (r: Outcome<ClientError>)
    requires Parsable(reply)
    ensures r.Pass? <==> ParseResponse(reply).Ok? && ParseResponse(reply).value.isOk
    ensures ParseResponse(reply).Ok? && !ParseResponse(reply).value.isOk ==>
      r == Fail(ServerError(ERROR_COLON + ParseResponse(reply).value.payload))
  {
    match ParseResponse(reply)
    case Err(e) => Fail(e)
    case Ok(response) =>
      if !response.isOk then Fail(ServerError(ERROR_COLON + response.payload))
      else Pass
  }

  /** What the sending side of a call can still be given: a stream whose first line parses. */
  predicate Receivable(stream: Bytes) {
    ReadLine(stream).Ok? ==> Parsable(ReadLine(stream).value)
  }

  /** `Client.Get` after its request is sent: read one line of the reply and make a result of it. */
  function ReceiveGet(stream: Bytes): (r: Result<Bytes, ClientError>)
    requires Receivable(stream)
    ensures r == Err(EndOfStream) <==> NL !in stream
    ensures NL in stream ==> r == GetResult(ReadLine(stream).value)
  {
    match ReadLine(stream)
    case Err(e) => Err(e)
    case Ok(line) => GetResult(line)
  }

  /** `Client.Set` after its request is sent: read one line of the reply and make a result of it. */
  function ReceiveSet(stream: Bytes): (r: Outcome<ClientError>)
    requires Receivable(stream)
    ensures r == Fail(EndOfStream) <==> NL !in stream
    ensures NL in stream ==> r == SetResult(ReadLine(stream).value)
  {
    match ReadLine(stream)
    case Err(e) => Fail(e)
    case Ok(line) => SetResult(line)
  }

  /**
   * The server reads the client's GET line as one line and recovers the key,
   * provided the key has no white space at its ends and no newline.
   */
  lemma GetLineRoundTrip(key: Bytes)
    requires Trimmed(key) && NL !in key
    ensures OneLine(GetLine(key))
    ensures Server.ParseRequest(GetLine(key)) == Server.GetRequest(key)
  {
    var head := Server.GET + [SP];
    assert GetLine(key) == (head + key) + [NL] == head + (key + [NL]);
    assert NL !in head + key;
    OneLineOf(head + key);
    Server.ParseGetOf(key + [NL]);
    TrimSpaceNewline(key);
    TrimSpaceTrimmed(key);
  }

  /**
   * The server reads the client's SET line as one line and recovers key and
   * value, provided the key has no space, the value no white space at its
   * ends, and neither a newline.
   */
  lemma SetLineRoundTrip(key: Bytes, value: Bytes)
    requires SP !in key && NL !in key && NL !in value && Trimmed(value)
    ensures OneLine(SetLine(key, value))
    ensures Server.ParseRequest(SetLine(key, value)) == Server.SetRequest(key, value)
  {
    var body := Server.SET + [SP] + key + [SP] + value;
    assert SetLine(key, value) == body + [NL] == Server.SET + [SP] + key + [SP] + (value + [NL]);
    assert NL !in body;
    OneLineOf(body);
    Server.ParseSetOf(key, value + [NL]);
    TrimSpaceNewline(value);
    TrimSpaceTrimmed(value);
  }

  /** The client reads the server's GET reply `OK <value>\n` as the value, trimmed. */
  lemma GetReplyRoundTrip(value: Bytes)
    ensures Parsable(Server.GetReply(Ok(value)))
    ensures GetResult(Server.GetReply(Ok(value))) == Ok(TrimSpace(value))
  {
    var reply := Server.GetReply(Ok(value));
    assert reply == Server.OK + [SP] + (value + [NL]);
    SplitOnceJoin(Server.OK, SP, value + [NL]);
    TrimSpaceTrimmed(Server.OK);
    TrimSpaceNewline(value);
  }

  /** The client reads the server's SET reply `OK\n` as success. */
  lemma SetReplyRoundTrip()
    ensures Parsable(Server.SetReply(Pass))
    ensures SetResult(Server.SetReply(Pass)) == Pass
  {
    var reply := Server.SetReply(Pass);
    TrimSpacePadded([], Server.OK, [NL]);
    assert [] + Server.OK + [NL] == reply;
  }

  /** An `ERROR <message>\n` line reaches the client as a failure carrying `<message>\n`. */
  lemma ErrorLineRoundTrip(message: Bytes)
    ensures Parsable(Server.ErrorLine(message))
    ensures ParseResponse(Server.ErrorLine(message)) == Ok(Response(false, message + [NL]))
    ensures GetResult(Server.ErrorLine(message)) == Err(ServerError(ERROR_OCCURED + message + [NL]))
    ensures SetResult(Server.ErrorLine(message)) == Fail(ServerError(ERROR_COLON + message + [NL]))
  {
    var line := Server.ErrorLine(message);
    assert line == Server.ERROR + [SP] + (message + [NL]);
    SplitOnceJoin(Server.ERROR, SP, message + [NL]);
    TrimSpaceTrimmed(Server.ERROR);
    assert ERROR_OCCURED + (message + [NL]) == ERROR_OCCURED + message + [NL];
    assert ERROR_COLON + (message + [NL]) == ERROR_COLON + message + [NL];
  }

  /** `Client.Get` receives a found value as its first line, trimmed. */
  lemma ReceiveGetValue(value: Bytes)
    ensures Receivable(Server.GetReply(Ok(value)))
    ensures ReceiveGet(Server.GetReply(Ok(value))) == Ok(TrimSpace(LineHead(value)))
  {
    ReadGetReply(value);
    GetReplyRoundTrip(LineHead(value));
  }

  /** `Client.Get` receives an error line as an error carrying the message and its newline. */
  lemma ReceiveGetError(message: Bytes)
    requires NL !in message
    ensures Receivable(Server.ErrorLine(message))
    ensures ReceiveGet(Server.ErrorLine(message))
         == Err(ServerError(ERROR_OCCURED + message + [NL]))
  {
    var line := Server.ErrorLine(message);
    assert line + [] == line;
    ReadLineOf(line, []);
    ErrorLineRoundTrip(message);
  }

  /** `Client.Set` receives the server's `OK\n` as success. */
  lemma ReceiveSetOk()
    ensures Receivable(Server.SetReply(Pass))
    ensures ReceiveSet(Server.SetReply(Pass)) == Pass
  {
    var line := Server.SetReply(Pass);
    assert line + [] == line;
    ReadLineOf(line, []);
    SetReplyRoundTrip();
  }
}
