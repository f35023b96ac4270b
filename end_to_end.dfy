/**
 * A client talking to the server over one connection, as client_test.go
 * does: each call sends one request line and reads one reply line.
 */
module EndToEnd {
  import opened ByteStrings
  import opened Results
  import opened Record
  import opened Storage
  import Server
  import Client

  /** `Client.Set` against the server: valid writes that succeed are acknowledged and logged. */
  method SetOverWire(kv: StorageKV, key: Bytes, value: Bytes) returns (result: Outcome<Client.ClientError>)
    requires kv.Valid()
    requires SP !in key && NL !in key && NL !in value && Trimmed(value)
    requires InBounds(key, value)
    modifies kv.segments[0]
    ensures kv.Valid()
    ensures kv.segments[0].entries == old(kv.segments[0].entries) + [Entry(key, value)]
    ensures result == Pass
  {
    var line := Client.SetLine(key, value);
    Client.SetLineRoundTrip(key, value);
    assert Server.ParseRequest(line) == Server.SetRequest(key, value);
    var reply := Server.HandleRequest(kv, line, Written);
    assert reply == Server.SetReply(Pass);
    Client.ReceiveSetOk();
    result := Client.ReceiveSet(reply);
  }

  /** The server's reply to the line `Client.Get` sends: the reply of the store's `Get`. */
  method ServeGetLine(kv: StorageKV, key: Bytes) returns (reply: Bytes)
    requires kv.Valid()
    requires Trimmed(key) && NL !in key
    modifies kv.segments[0]
    ensures unchanged(kv.segments[0])
    ensures reply == Server.GetReply(kv.segments[0].Get(key))
  {
    var line := Client.GetLine(key);
    Client.GetLineRoundTrip(key);
    reply := Server.HandleRequest(kv, line, Written);
  }

  /**
   * `Client.Get` against the server: the trimmed value of the key's last
   * `Set`, or the server's "not found" as an error. The client reads one
   * line, so of a value holding a newline it gets only the part before it.
   */
  method GetOverWire(kv: StorageKV, key: Bytes) returns (result: Result<Bytes, Client.ClientError>)
    requires kv.Valid()
    requires Trimmed(key) && NL !in key
    modifies kv.segments[0]
    ensures unchanged(kv.segments[0])
    ensures var es := kv.segments[0].entries; var i := LastWith(es, key);
      result == if i < 0 then Err(Client.ServerError(Client.ERROR_OCCURED + Server.ErrorText(NotFound) + [NL]))
                else Ok(TrimSpace(Client.LineHead(es[i].value)))
  {
    var s := kv.segments[0];
    ghost var es := s.entries;
    var i := LastWith(es, key);
    GetLatest(s, key);
    var reply := ServeGetLine(kv, key);
    if i < 0 {
      var message := Server.ErrorText(NotFound);
      assert reply == Server.ErrorLine(message);
      Client.ReceiveGetError(message);
    } else {
      assert reply == Server.GetReply(Ok(es[i].value));
      Client.ReceiveGetValue(es[i].value);
    }
    result := Client.ReceiveGet(reply);
  }

  /**
   * `Client.Set(key, value)` followed by `Client.Get(key)` on a valid store
   * whose writes succeed: the set succeeds and the get returns `value`.
   */
  method SetThenGet(kv: StorageKV, key: Bytes, value: Bytes)
    returns (setResult: Outcome<Client.ClientError>, getResult: Result<Bytes, Client.ClientError>)
    requires kv.Valid()
    requires SP !in key && Trimmed(key) && NL !in key
    requires NL !in value && Trimmed(value)
    requires InBounds(key, value)
    modifies kv.segments[0]
    ensures kv.Valid()
    ensures setResult == Pass && getResult == Ok(value)
  {
    ghost var before := kv.segments[0].entries;
    setResult := SetOverWire(kv, key, value);
    ghost var es := kv.segments[0].entries;
    assert es == before + [Entry(key, value)];
    LastWithAppend(before, Entry(key, value), key);
    assert LastWith(es, key) == |es| - 1 && es[|es| - 1].value == value;
    assert kv.Valid();
    getResult := GetOverWire(kv, key);
    assert Client.LineHead(value) == value;
    TrimSpaceTrimmed(value);
  }

  /** The exchange of client_test.go: set "foo" to "bar" on a fresh store, then get "foo". */
  method FooBar() returns (setResult: Outcome<Client.ClientError>, getResult: Result<Bytes, Client.ClientError>)
    ensures setResult == Pass && getResult == Ok([0x62, 0x61, 0x72])
  {
    var foo: Bytes := [0x66, 0x6F, 0x6F];
    var bar: Bytes := [0x62, 0x61, 0x72];
    ReplaySerialize([]);
    var kv := NewStorageKV([]);
    setResult, getResult := SetThenGet(kv.value, foo, bar);
  }
}
