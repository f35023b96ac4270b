/**
 * The per-line decisions of main.go: how a request line is split and
 * dispatched, and the reply line written for each outcome.
 */
module Server {
  import opened ByteStrings
  import opened Results
  import opened Record
  import Storage

  const GET: Bytes := [0x47, 0x45, 0x54]              // "GET"
  const SET: Bytes := [0x53, 0x45, 0x54]              // "SET"
  const OK: Bytes := [0x4F, 0x4B]                     // "OK"
  const ERROR: Bytes := [0x45, 0x52, 0x52, 0x4F, 0x52] // "ERROR"

  datatype RequestError = InvalidFormat | UnknownOperation

  datatype Request =
    | GetRequest(key: Bytes)
    | SetRequest(key: Bytes, value: Bytes)
    | BadRequest(error: RequestError)

  /**
   * Splits the line at its first space into operation and message; a GET
   * key is the trimmed message, a SET message is split again at its first
   * space into the untrimmed key and the trimmed value.
   */
  function ParseRequest(line: Bytes): (r: Request)
    ensures SP !in line ==> r == BadRequest(InvalidFormat)
  {
    var parts := SplitOnce(line, SP);
    if |parts| != 2 then BadRequest(InvalidFormat)
    else
      var operation, message := parts[0], parts[1];
      if operation == GET then
        GetRequest(TrimSpace(message))
      else if operation == SET then
        var messageParts := SplitOnce(message, SP);
        if |messageParts| != 2 then BadRequest(InvalidFormat)
        else SetRequest(messageParts[0], TrimSpace(messageParts[1]))
      else
        BadRequest(UnknownOperation)
  }

  /** Splitting at the first space of a line that starts with the word `w` and a space. */
  lemma SplitAfterWord(line: Bytes, w: Bytes)
    requires SP !in w && |line| > |w| && line[..|w| + 1] == w + [SP]
    ensures SplitOnce(line, SP) == [w, line[|w| + 1..]]
  {
    assert line == w + [SP] + line[|w| + 1..];
    SplitOnceJoin(w, SP, line[|w| + 1..]);
  }

  /** A GET is exactly a line that starts with `GET `, and its key is the rest, trimmed. */
  lemma ParseGetLine(line: Bytes)
    ensures ParseRequest(line).GetRequest? <==> StartsWith(line, GET + [SP])
    ensures ParseRequest(line).GetRequest? ==> ParseRequest(line).key == TrimSpace(line[4..])
  {
    if StartsWith(line, GET + [SP]) {
      SplitAfterWord(line, GET);
    }
  }

  /** A SET is exactly a line that starts with `SET ` and has a second space. */
  lemma ParseSetLine(line: Bytes)
    ensures ParseRequest(line).SetRequest? <==>
      StartsWith(line, SET + [SP]) && SP in line[4..]
  {
    ParseSetNeedsPrefix(line);
    if StartsWith(line, SET + [SP]) {
      ParseSetMessage(line);
    }
  }

  /**
   * The key of a SET is the untrimmed bytes between the first two spaces
   * and the value is the rest, trimmed, so that spaces inside the value
   * survive.
   */
  lemma ParseSetFields(line: Bytes)
    ensures var r := ParseRequest(line);
      r.SetRequest? ==>
        SP !in r.key && StartsWith(line, SET + [SP] + r.key + [SP]) &&
        r.value == TrimSpace(line[5 + |r.key|..])
  {
    if ParseRequest(line).SetRequest? {
      ParseSetLine(line);
      SetFieldsAt(line);
    }
  }

  lemma SetFieldsAt(line: Bytes)
    requires StartsWith(line, SET + [SP]) && SP in line[4..]
    ensures var r := ParseRequest(line);
      r.SetRequest? && SP !in r.key && StartsWith(line, SET + [SP] + r.key + [SP]) &&
      r.value == TrimSpace(line[5 + |r.key|..])
  {
    var rest := line[4..];
    ParseSetMessage(line);
    var m := SplitOnce(rest, SP);
    assert ParseRequest(line) == SetRequest(m[0], TrimSpace(m[1]));
    SetLineShape(line, m[0], m[1]);
  }

  lemma ParseSetNeedsPrefix(line: Bytes)
    ensures ParseRequest(line).SetRequest? ==> StartsWith(line, SET + [SP])
  {
  }

  /** After `SET `, the message is split at its first space. */
  lemma ParseSetMessage(line: Bytes)
    requires StartsWith(line, SET + [SP])
    ensures var rest := line[4..];
      ParseRequest(line) ==
        if SP in rest then SetRequest(SplitOnce(rest, SP)[0], TrimSpace(SplitOnce(rest, SP)[1]))
        else BadRequest(InvalidFormat)
  {
    SplitAfterWord(line, SET);
  }

  lemma SetLineShape(line: Bytes, key: Bytes, rest: Bytes)
    requires StartsWith(line, SET + [SP]) && line[4..] == key + [SP] + rest
    ensures StartsWith(line, SET + [SP] + key + [SP]) && line[5 + |key|..] == rest
  {
    var head := SET + [SP] + key + [SP];
    assert line == (SET + [SP]) + line[4..];
    assert line == head + rest;
    assert line[..|head|] == head;
    assert line[|head|..] == rest;
  }

  /**
   * "invalid format" is a line without a space, or a SET whose message has
   * no second space; "unknown operation" is any other first word.
   */
  lemma ParseBadLine(line: Bytes)
    ensures ParseRequest(line) == BadRequest(InvalidFormat) <==>
      SP !in line || (StartsWith(line, SET + [SP]) && SP !in line[4..])
    ensures ParseRequest(line) == BadRequest(UnknownOperation) <==>
      SP in line && line[..FirstIndex(line, SP)] != GET && line[..FirstIndex(line, SP)] != SET
  {
    if SP in line {
      var parts := SplitOnce(line, SP);
      assert line[..FirstIndex(line, SP)] == parts[0];
      if StartsWith(line, SET + [SP]) {
        SplitAfterWord(line, SET);
      }
    }
  }

  /** `GET <rest>` asks for the trimmed rest. */
  lemma ParseGetOf(rest: Bytes)
    ensures ParseRequest(GET + [SP] + rest) == GetRequest(TrimSpace(rest))
  {
    var line := GET + [SP] + rest;
    assert line[..4] == GET + [SP] && line[4..] == rest;
    ParseGetLine(line);
  }

  /** `SET <key> <rest>`, with no space in the key, sets the key to the trimmed rest. */
  lemma ParseSetOf(key: Bytes, rest: Bytes)
    requires SP !in key
    ensures ParseRequest(SET + [SP] + key + [SP] + rest) == SetRequest(key, TrimSpace(rest))
  {
    var line := SET + [SP] + (key + [SP] + rest);
    assert line == SET + [SP] + key + [SP] + rest;
    assert line[..4] == SET + [SP] && line[4..] == key + [SP] + rest;
    SplitAfterWord(line, SET);
    SplitOnceJoin(key, SP, rest);
  }

  /** `ERROR <message>\n`. */
  function ErrorLine(message: Bytes): (r: Bytes)
    ensures NL !in message ==> OneLine(r)
  {
    ERROR + [SP] + message + [NL]
  }

  /** What `err.Error()` says for each storage error. */
  function ErrorText(e: Storage.Error): (r: Bytes)
    ensures e.WriteFailed? ==> r == e.message
    ensures !e.WriteFailed? ==> |r| > 0 && NL !in r
  {
    match e
    case NotFound => [0x6E, 0x6F, 0x74, 0x20, 0x66, 0x6F, 0x75, 0x6E, 0x64]  // "not found"
    case KeyMismatch =>                                                      // "key mismatch"
      [0x6B, 0x65, 0x79, 0x20, 0x6D, 0x69, 0x73, 0x6D, 0x61, 0x74, 0x63, 0x68]
    case ReadEOF => [0x45, 0x4F, 0x46]                                       // "EOF"
    case ShortRead =>                                                        // "unexpected EOF"
      [0x75, 0x6E, 0x65, 0x78, 0x70, 0x65, 0x63, 0x74, 0x65, 0x64, 0x20, 0x45, 0x4F, 0x46]
    case WriteFailed(message) => message
    case CorruptLog => [0x63, 0x6F, 0x72, 0x72, 0x75, 0x70, 0x74]             // "corrupt"
  }

  function RequestErrorText(e: RequestError): (r: Bytes)
    ensures |r| > 0 && NL !in r
  {
    match e
    case InvalidFormat =>                                                    // "invalid format"
      [0x69, 0x6E, 0x76, 0x61, 0x6C, 0x69, 0x64, 0x20, 0x66, 0x6F, 0x72, 0x6D, 0x61, 0x74]
    case UnknownOperation =>                                                 // "unknown operation"
      [0x75, 0x6E, 0x6B, 0x6E, 0x6F, 0x77, 0x6E, 0x20,
       0x6F, 0x70, 0x65, 0x72, 0x61, 0x74, 0x69, 0x6F, 0x6E]
  }

  /** `handleGetRequest`'s reply: `OK <value>\n`, or the error line. */
  function GetReply(result: Result<Bytes, Storage.Error>): (r: Bytes)
    ensures result.Ok? && NL !in result.value ==> OneLine(r)
    ensures result.Err? && NL !in ErrorText(result.error) ==> OneLine(r)
  {
    match result
    case Ok(value) =>
      var r := OK + [SP] + value + [NL];
      assert r[..|r| - 1] == OK + [SP] + value;
      r
    case Err(e) => ErrorLine(ErrorText(e))
  }

  /** `handleSetRequest`'s reply: `OK\n`, or the error line. */
  function SetReply(outcome: Outcome<Storage.Error>): (r: Bytes)
    ensures outcome.Pass? ==> r == OK + [NL]
    ensures outcome.Pass? || NL !in ErrorText(outcome.error) ==> OneLine(r)
  {
    match outcome
    case Pass => OK + [NL]
    case Fail(e) => ErrorLine(ErrorText(e))
  }

  /**
   * One turn of `handleConnection`'s loop after a line is read: parse,
   * call the store, and answer with one reply line.
   */
  method HandleRequest(kv: Storage.StorageKV, line: Bytes, write: Storage.WriteResult)
    returns (reply: Bytes)
    requires |kv.segments| > 0
    modifies kv.segments[0]
    ensures var req := ParseRequest(line);
      req.BadRequest? ==>
        reply == ErrorLine(RequestErrorText(req.error)) && unchanged(kv.segments[0])
    ensures var req := ParseRequest(line);
      req.GetRequest? ==> reply == GetReply(kv.Get(req.key)) && unchanged(kv.segments[0])
    ensures var req := ParseRequest(line);
      req.SetRequest? ==>
        var s := kv.segments[0];
        if write.Written? then
          reply == SetReply(Pass) &&
          s.log == old(s.log) + Encode(req.key, req.value) &&
          s.index == old(s.index)[req.key := old(s.head)] &&
          s.head == old(s.head) + EncodedSize(req.key, req.value) &&
          s.entries == old(s.entries) + [Storage.Entry(req.key, req.value)]
        else
          reply == SetReply(Fail(Storage.WriteFailed(write.message))) &&
          s.log == old(s.log) && s.index == old(s.index) && s.head == old(s.head) &&
          s.entries == old(s.entries)
    ensures var req := ParseRequest(line);
      old(kv.Valid()) && (req.SetRequest? ==> write.WriteError? || InBounds(req.key, req.value))
      ==> kv.Valid()
  {
    var req := ParseRequest(line);
    match req
    case BadRequest(e) =>
      reply := ErrorLine(RequestErrorText(e));
    case GetRequest(key) =>
      reply := GetReply(kv.Get(key));
    case SetRequest(key, value) =>
      var outcome := kv.Set(key, value, write);
      reply := SetReply(outcome);
  }
}
