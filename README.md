# simple-kv in Dafny

simple-kv is a key-value server. It is a log-structured store behind a line protocol over TCP.

- **Store.** Every `SET` appends one length-framed record to an append-only log file. An in-memory index maps each key to the offset of its latest record, so a `GET` seeks there and decodes one record.
- **Startup.** At startup the index is rebuilt by replaying the log from offset 0.
- **Client.** A small client builds the request lines and parses the reply lines.

This project models that core and proves its behaviour:

- `record.dfy` (module `Record`): the record framing
  `[key length K: 1 byte][K key bytes][value length V: 2 bytes, big-endian][V value bytes]`.
  - `Encode` is the layout. The method `EncodeRecord` is the buffer-filling loops of `Segment.Set`. `Decode` is `readRecord`.
  - Lemmas prove both directions of the codec round trip.
- `storage.dfy` (module `Storage`):
  - `Segment` is a class with the log (a byte sequence that is both what `Set` writes and what `readRecord` reads), the `index` map and `head`.
  - A ghost `entries` field lists the `Set`s behind the log. `Valid()` says:
    - `head == |log|`;
    - the log is the concatenation of the entries' records;
    - the index is the one those entries build.
  - `NewSegment` is the replay loop, proved against the function `Replay`.
  - Lemmas show that replay of a log of records rebuilds exactly the incremental index, and that indexing is last-writer-wins. They also show that `Get` returns the value of the key's last `Set`, or "not found".
  - `StorageKV` forwards to its one segment.
- `server.dfy` (module `Server`): the per-line decisions of `handleConnection`, `handleGetRequest` and `handleSetRequest`:
  - splitting at the first space;
  - dispatch on `GET`/`SET`;
  - key and value extraction and trimming;
  - the reply lines;
  - one request turn against the store (`HandleRequest`).
- `client.dfy` (module `Client`): the request lines of `Client.Get`/`Client.Set`, `parseResponse`, and the result of each client call. Cross-file lemmas show what survives each crossing:
  - the server parses the client's GET line back to its key when the key has no white space at its ends and no newline;
  - it parses the client's SET line back to its key and value when the key has no space and no newline and the value has no newline and no white space at its ends (`SET a b c` reaches the server as key `a` with value `b c`);
  - the client reads one line of each reply (`ReadBytes('\n')`), so of a GET reply it gets the value's part before its first newline, trimmed;
  - a SET reply `OK\n` is success;
  - an ERROR reply is a failure whose message keeps its trailing newline.
- `end_to_end.dfy` (module `EndToEnd`): a client talking to the store through the server, as in `client/client_test.go`.
- `bytes.dfy` (module `ByteStrings`): byte strings and the parts of Go's `bytes` package that the code uses (`SplitN(…, 2)`, `TrimSpace`, `IndexByte`).
- `results.dfy` (module `Results`): `Result` and `Outcome`.

Bytes are `seq<Byte>` with `Byte` the integers 0..255. The protocol words are byte literals.

`Set` does not reject a key longer than 255 bytes or a value longer than 65535 bytes: `byte(len(key))` and `uint16(len(value))` wrap (storage.go:97, 102). `Encode` wraps the same way, and the codec round trip and `Valid()` preservation are proved under `InBounds` only.

## Model

| member | source | states |
|---|---|---|
| ByteStrings.FirstIndex | main.go:63 | the position of the first occurrence of the byte, or -1 exactly when it is absent; no earlier occurrence |
| ByteStrings.FirstIndexIs | main.go:63 | the first occurrence is at `k` whenever the byte is at `k` and nowhere before it |
| ByteStrings.SplitOnce | main.go:63-64 | `SplitN(s, sep, 2)`: one part, equal to the input, exactly when sep is absent; otherwise two parts joined by sep, with no sep in the first |
| ByteStrings.SplitOnceJoin | main.go:63 | splitting `a + [sep] + b` where `a` has no sep gives back `[a, b]` |
| ByteStrings.TrimLeft | main.go:85 | the result is a suffix of the input, only white space is dropped, and it does not start with white space |
| ByteStrings.TrimRight | main.go:85 | the result is a prefix of the input, only white space is dropped, and it does not end with white space |
| ByteStrings.TrimSpace | main.go:85 | the result has no white space at either end, is no longer than the input and holds only bytes of the input; `TrimSpacePadded` shows it removes exactly the padding |
| ByteStrings.TrimSpacePadded | main.go:108 | trimming white-space padding around a trimmed core gives the core, so interior spaces survive |
| ByteStrings.TrimSpaceTrimmed | main.go:108 | trimming is the identity on trimmed strings |
| ByteStrings.TrimSpaceNewline | main.go:85 | the line's trailing newline does not change what is trimmed |
| Record.Decode | storage.go:39-75 | `readRecord`: end of log exactly when the offset is at or past the end; a decoded record fits its length fields and ends at offset + 1 + K + 2 + V, within the log |
| Record.EncodeRecord | storage.go:96-108 | the buffer has length 1 + K + 2 + V; byte 0 is K mod 256; then the key; then V mod 65536 big-endian; then the value; the result is `Encode(key, value)` |
| Record.Encode | storage.go:96-108 | the record layout: its length is 1 + K + 2 + V, the `length` that `Set` advances `head` by |
| Record.EncodeFields | storage.go:96-106 | in an in-bounds record, byte 0 is K, then the key, then V big-endian in two bytes, then the value |
| Record.DecodeEncode | storage.go:39-75 | an in-bounds record decodes at any offset in any log to its key and value, with the next offset right after it |
| Record.DecodedIsEncoded | storage.go:39-75 | whatever decodes at an offset is exactly the encoding of the decoded key and value |
| Storage.LastWith | storage.go:115 | the position of the last entry with the key, or -1 when there is none; no later entry has the key |
| Storage.SerializeConcat | storage.go:110 | the log of two runs of `Set`s is the log of the first followed by the log of the second |
| Storage.DecodeEntry | storage.go:39-75 | in the log of a sequence of entries, each entry's record decodes at its offset and is followed by the next entry's offset |
| Storage.IndexForLatest | storage.go:32-33 | last writer wins: the index has a key exactly when some entry has it, and maps it to the offset of the last such entry |
| Storage.LastWithAppend | storage.go:115 | a new `Set` becomes the last entry for its key and leaves every other key's last entry unchanged |
| Storage.IndexFor | storage.go:115-116 | the index that successive `Set`s build: every entry's key is in it and every offset lies inside the log; `IndexForLatest` shows it maps each key to its last record |
| Storage.AppendEntry | storage.go:110-116 | one more `Set` appends its record to the log and points its key at the old end of the log |
| Storage.ReplayFrom | storage.go:22-34 | the replay loop from an offset: when it ends without corruption, `head` is the end of the log, and no key is dropped from the index it started with |
| Storage.Replay | storage.go:19-37 | replay from offset 0 with an empty index ends, when it succeeds, at the end of the log; `ReplaySerialize` shows it rebuilds the index of the entries |
| Storage.ReplayStep | storage.go:23-33 | a record decoded where the replayed prefix ends extends that prefix by one entry, and the index moves its key to that record |
| Storage.ReplaySerialize | storage.go:19-37 | replaying a log of records stops exactly at its end and rebuilds the index that incremental `Set`s build |
| Storage.ReplaySuffix | storage.go:22-34 | replay from the n-th record, with the index of the first n records, ends with the full index at the end of the log |
| Storage.Segment.constructor | storage.go:36 | the struct literal: the fields are the given log, index and head |
| Storage.Segment.Get | storage.go:77-93 | a key missing from the index gives "not found"; a record with another key gives "key mismatch"; otherwise the record's value; any read failure is an error |
| Storage.Segment.Set | storage.go:95-121 | a failed write returns its error and changes nothing; a successful one appends exactly the encoded record, points the key at the old head, leaves other keys alone and advances head by the record's length; it keeps `Valid()` for in-bounds records |
| Storage.NewSegment | storage.go:19-37 | replay succeeds exactly when no record is truncated, and then gives a fresh valid segment over the log with the replayed index and head; otherwise a corrupt-log error |
| Storage.GetLatest | storage.go:77-93 | in a valid segment, `Get` gives "not found" when no `Set` had the key, and otherwise the value of the key's last `Set` |
| Storage.IndexPointsAtLatest | storage.go:22-34 | in a valid segment, the record at each indexed offset has that key and is the key's last record |
| Storage.SegmentSetThenGet | storage.go:77-121 | after a successful in-bounds `Set(k, v)`, `Get(k)` returns `v` and every other key reads what it read before |
| Storage.ValidIsReplay | storage.go:19-37 | a valid segment's index and head are exactly what replaying its log gives |
| Storage.Restart | storage.go:19-37 | reopening a valid segment's log gives a valid segment with the same log, index and head, so every `Get` agrees |
| Storage.StorageKV.constructor | storage.go:136 | the store holds the one given segment |
| Storage.StorageKV.Get | storage.go:139-141 | returns exactly what the first segment's `Get` returns |
| Storage.StorageKV.Set | storage.go:143-145 | has exactly the effect and result of the first segment's `Set` |
| Storage.NewStorageKV | storage.go:127-137 | fails exactly when the log is corrupt; otherwise one fresh valid segment over the log |
| Server.ParseRequest | main.go:63-108 | a line without a space is "invalid format"; `ParseGetLine`, `ParseSetLine`, `ParseSetFields` and `ParseBadLine` characterise every other outcome |
| Server.SplitAfterWord | main.go:63-70 | a line starting with a word and a space splits into the word and the rest |
| Server.ParseGetLine | main.go:63-85 | a request is a GET exactly when the line starts with `GET `; its key is the rest trimmed, newline included |
| Server.ParseSetLine | main.go:63-105 | a request is a SET exactly when the line starts with `SET ` and the rest has a space |
| Server.ParseSetFields | main.go:100-108 | a SET's key is the untrimmed bytes before the second space and has no space; its value is the rest after it, trimmed |
| Server.SetFieldsAt | main.go:99-108 | a line starting with `SET ` whose rest has a space is a SET of the space-free bytes before that space and of the rest after it, trimmed |
| Server.ParseSetMessage | main.go:99-108 | after `SET `, a message without a space is "invalid format"; otherwise it is split into key and trimmed value |
| Server.ParseBadLine | main.go:63-104 | "invalid format" exactly for a line without a space or a SET without a second space; "unknown operation" exactly when the first word is neither GET nor SET |
| Server.ParseGetOf | main.go:84-85 | `GET <rest>` asks for the trimmed rest |
| Server.ParseSetOf | main.go:99-108 | `SET <key> <rest>` with a space-free key sets that key to the trimmed rest |
| Server.ErrorText | storage.go:80-89 | the storage errors' texts: "not found", "key mismatch" and the read errors are non-empty single-line texts; a write error carries its own message |
| Server.RequestErrorText | main.go:66-79 | "invalid format" and "unknown operation" are non-empty single-line texts |
| Server.ErrorLine | main.go:89 | `ERROR <message>\n` is a single line when the message has no newline |
| Server.GetReply | main.go:84-96 | `OK <value>\n` or the error line, a single line when the value or message has no newline |
| Server.SetReply | main.go:110-117 | success replies exactly `OK\n`; the reply is a single line |
| Server.HandleRequest | main.go:63-80 | a malformed line gets its error reply and leaves the store alone; a GET replies with the store's `Get` and changes nothing; a SET replies `OK\n` and appends the record, or replies the write error and changes nothing; the store stays valid |
| Client.GetLine | client/client.go:31-34 | `GET `, then the key, then the newline; one line when the key has no newline |
| Client.SetLine | client/client.go:59-64 | `SET `, the key, a space, then the value, then the newline; one line when neither has a newline |
| Client.ReadLine | client/client.go:41 | `ReadBytes('\n')`: the stream's bytes up to and including its first newline, a single line at the start of the stream; end of stream exactly when there is no newline |
| Client.ReadLineOf | client/client.go:41 | a stream that starts with a line reads as exactly that line, whatever follows |
| Client.LineHead | client/client.go:41 | the bytes of a value before its first newline: newline-free, a prefix of the value, and the whole value exactly when it has no newline |
| Client.ReadGetReply | client/client.go:41 | the line the client reads of a GET reply is the reply of the value's part before its first newline |
| Client.Status | client/client.go:94-96 | the status of a reply line is trimmed and holds no space |
| Client.ParseResponse | client/client.go:93-113 | OK or ERROR status exactly when parsing succeeds; anything else is "unknown format"; ERROR carries the untrimmed rest; OK carries the trimmed rest, or nothing without a space |
| Client.GetResult | client/client.go:46-55 | `Client.Get` returns the payload exactly on an OK reply; an ERROR reply becomes `error occured: <payload>` |
| Client.SetResult | client/client.go:76-85 | `Client.Set` succeeds exactly on an OK reply; an ERROR reply becomes `error: <payload>` |
| Client.ReceiveGet | client/client.go:41-55 | `Client.Get` after sending: end of stream exactly when no newline arrives; otherwise the result of the first reply line |
| Client.ReceiveSet | client/client.go:71-85 | `Client.Set` after sending: end of stream exactly when no newline arrives; otherwise the result of the first reply line |
| Client.GetLineRoundTrip | client/client.go:31-34 | the client's `GET <key>\n` is one line that the server parses as a GET of the key, for trimmed keys without newline |
| Client.SetLineRoundTrip | client/client.go:59-64 | the client's `SET <key> <value>\n` is one line that the server parses as a SET of exactly the key and value, for a space-free key and trimmed value |
| Client.GetReplyRoundTrip | client/client.go:102-105 | the client reads the server's `OK <value>\n` as the value, trimmed |
| Client.SetReplyRoundTrip | client/client.go:81-85 | the client reads the server's `OK\n` as success |
| Client.ErrorLineRoundTrip | client/client.go:98-100 | an `ERROR <message>\n` reply is a failure carrying `<message>\n` for both client calls |
| Client.ReceiveGetValue | client/client.go:41-55 | `Client.Get` receives a found value as the value's part before its first newline, trimmed |
| Client.ReceiveGetError | client/client.go:41-53 | `Client.Get` receives an `ERROR <message>\n` reply as the error `error occured: <message>\n` |
| Client.ReceiveSetOk | client/client.go:71-85 | `Client.Set` receives `OK\n` as success |
| EndToEnd.ServeGetLine | main.go:63-96 | the server answers the client's GET line with the reply of the store's `Get` for that key, and changes nothing |
| EndToEnd.SetOverWire | client/client.go:58-86 | a client SET of an in-bounds key and value whose write succeeds is acknowledged and appends exactly that entry |
| EndToEnd.GetOverWire | client/client.go:30-56 | a client GET returns the part before the first newline, trimmed, of the value of the key's last SET, or the server's "not found" as an error, and changes nothing |
| EndToEnd.SetThenGet | client/client_test.go:19-31 | a client SET followed by a GET of the same key returns the value set |
| EndToEnd.FooBar | client/client_test.go:19-31 | on a fresh log, setting "foo" to "bar" succeeds and getting "foo" returns "bar" |

## Left out

- The TCP listener, the per-connection goroutines, `bufio` line reading, `net.Dial` and `conn.Write` (main.go:22-61, client/client.go:21-28) are I/O and concurrency. `HandleRequest` takes one already-read line. The unsynchronised sharing of the index between connections is not modelled.
- `os.OpenFile` and the file system (storage.go:128-131): the log file is a byte sequence given to `NewSegment` and `NewStorageKV`. The reader and the writer are the same sequence, as the one file opened with `O_APPEND` is in the code.
- The `io.Reader` short-read semantics of `readRecord`: `Decode` returns end-of-log exactly at the end of the log and a distinct truncation error otherwise. This is an abstraction of how `*os.File` reports a truncated tail. `Segment.Get` renders a truncated read as "unexpected EOF".
- Seek errors are not modelled: seeking in a byte sequence cannot fail.
- The result of the write at storage.go:110 is a parameter (`Written` or `WriteError(message)`). A failed write appends nothing, so partial writes are not modelled.
- The `panic` in `NewSegment` (storage.go:28-30) becomes the `CorruptLog` error result. Its message text "corrupt" is the model's own.
- logrus logging, the unused `context.Context` parameters and the `hex` debug output.
- Go's `TrimSpace` trims Unicode white space; `TrimSpace` here trims ASCII white space only (space, tab, newline, vertical tab, form feed, carriage return).
- `parseResponse` on a reply whose status is `ERROR` and which has no space indexes out of range (client/client.go:99). `ParseResponse` requires `Parsable` instead of modelling the panic.
- Go's distinction between a nil and an empty payload is not modelled; both are the empty sequence.
- `head` is an `int64` in the code; it is unbounded here, so its overflow is not modelled.
- Storage.Segment.Set: `Valid()` is only preserved for records within the length bounds. Over-long keys or values wrap their length fields, as in the code, and the log then no longer decodes to the entries.
- Storage.GetLatest: shown for valid segments; the result of `Get` on a log corrupted by wrapped lengths is only stated by `Segment.Get`'s case analysis.
- The bytes of a reply after its first newline stay in the client's reader and would be read as the reply to the next request. Each call here reads one reply line and drops what follows it.
- EndToEnd.SetOverWire: requires a value without a newline. The server reads one line per request, so a value with a newline would reach it as a SET of the part before the newline, followed by a second request line.
