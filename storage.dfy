/**
 * The storage engine of storage.go: a segment is an append-only log of
 * records plus an in-memory index from each key to the offset of its
 * latest record; `StorageKV` routes to its one segment.
 */
module Storage {
  import opened ByteStrings
  import opened Results
  import opened Record

  /** The errors `Segment` and `StorageKV` return. */
  datatype Error =
    | NotFound                    // the key is not in the index
    | KeyMismatch                 // the record at the indexed offset holds another key
    | ReadEOF                     // the indexed offset is at or past the end of the log
    | ShortRead                   // the log ends inside the indexed record
    | WriteFailed(message: Bytes) // the write of a new record failed
    | CorruptLog                  // replay met a record it could not frame

  /** How the one write of `Set` ends; the file system decides. */
  datatype WriteResult = Written | WriteError(message: Bytes)

  /** One `Set` as the log keeps it. */
  datatype Entry = Entry(key: Bytes, value: Bytes)

  predicate AllInBounds(entries: seq<Entry>) {
    forall i :: 0 <= i < |entries| ==> InBounds(entries[i].key, entries[i].value)
  }

  /** The log that the entries make, one record after another. */
  function Serialize(entries: seq<Entry>): Bytes
    decreases |entries|
  {
    if entries == [] then []
    else
      var last := entries[|entries| - 1];
      Serialize(entries[..|entries| - 1]) + Encode(last.key, last.value)
  }

  /** Where the record of `entries[i]` starts in `Serialize(entries)`. */
  function Offset(entries: seq<Entry>, i: nat): nat
    requires i <= |entries|
  {
    |Serialize(entries[..i])|
  }

  /** The index that a sequence of `Set`s builds: each key to the offset of its record. */
  function IndexFor(entries: seq<Entry>): (index: map<Bytes, nat>)
    ensures forall i :: 0 <= i < |entries| ==> entries[i].key in index
    ensures forall k :: k in index ==> index[k] < |Serialize(entries)|
    decreases |entries|
  {
    if entries == [] then map[]
    else
      var init := entries[..|entries| - 1];
      var last := entries[|entries| - 1];
      assert forall i :: 0 <= i < |init| ==> entries[i] == init[i];
      assert |Serialize(entries)| == |Serialize(init)| + EncodedSize(last.key, last.value);
      IndexFor(init)[last.key := |Serialize(init)|]
  }

  /** The position of the last entry with `key`, or -1 when there is none. */
  function LastWith(entries: seq<Entry>, key: Bytes): (i: int)
    ensures -1 <= i < |entries|
    ensures 0 <= i ==> entries[i].key == key
    ensures forall j :: i < j < |entries| ==> entries[j].key != key
    decreases |entries|
  {
    if entries == [] then -1
    else if entries[|entries| - 1].key == key then |entries| - 1
    else LastWith(entries[..|entries| - 1], key)
  }

  lemma {:induction false} SerializeConcat(a: seq<Entry>, b: seq<Entry>)
    ensures Serialize(a + b) == Serialize(a) + Serialize(b)
    decreases |b|
  {
    if b == [] {
      assert a + b == a;
    } else {
      var ab, b' := a + b, b[..|b| - 1];
      var last := b[|b| - 1];
      assert ab[..|ab| - 1] == a + b';
      assert ab[|ab| - 1] == last;
      SerializeConcat(a, b');
      var e := Encode(last.key, last.value);
      assert Serialize(ab) == Serialize(a + b') + e;
      assert Serialize(b) == Serialize(b') + e;
      assert Serialize(a) + Serialize(b') + e == Serialize(a) + (Serialize(b') + e);
    }
  }

  /** Each entry's record sits at its offset in the log and decodes back to the entry. */
  lemma DecodeEntry(entries: seq<Entry>, i: nat)
    requires AllInBounds(entries) && i < |entries|
    ensures Decode(Serialize(entries), Offset(entries, i))
         == Record(entries[i].key, entries[i].value, Offset(entries, i + 1))
  {
    var e := entries[i];
    assert InBounds(e.key, e.value);
    var pre, suf := Serialize(entries[..i]), Serialize(entries[i + 1..]);
    var enc := Encode(e.key, e.value);
    SerializeAround(entries, i);
    assert Serialize(entries) == pre + enc + suf;
    SerializeStep(entries, i);
    assert Offset(entries, i) == |pre|;
    assert Offset(entries, i + 1) == |pre| + |enc|;
    assert |enc| == EncodedSize(e.key, e.value);
    DecodeEncode(pre, e.key, e.value, suf);
  }

  lemma SerializeAround(entries: seq<Entry>, i: nat)
    requires i < |entries|
    ensures Serialize(entries)
         == Serialize(entries[..i]) + Encode(entries[i].key, entries[i].value) + Serialize(entries[i + 1..])
  {
    var a, b := entries[..i + 1], entries[i + 1..];
    assert entries == a + b;
    SerializeConcat(a, b);
    assert Serialize(entries) == Serialize(a) + Serialize(b);
    SerializeStep(entries, i);
    assert Serialize(a) == Serialize(entries[..i]) + Encode(entries[i].key, entries[i].value);
  }

  /** One more `Set` appends its record and points its key at the old end of the log. */
  lemma AppendEntry(entries: seq<Entry>, e: Entry)
    ensures Serialize(entries + [e]) == Serialize(entries) + Encode(e.key, e.value)
    ensures IndexFor(entries + [e]) == IndexFor(entries)[e.key := |Serialize(entries)|]
  {
    assert (entries + [e])[..|entries|] == entries;
  }

  lemma SerializeStep(entries: seq<Entry>, i: nat)
    requires i < |entries|
    ensures Serialize(entries[..i + 1])
         == Serialize(entries[..i]) + Encode(entries[i].key, entries[i].value)
  {
    assert entries[..i + 1][..i] == entries[..i];
  }

  /** Last writer wins: the index holds a key exactly when some entry has it, at its last record. */
  lemma {:induction false} IndexForLatest(entries: seq<Entry>, key: Bytes)
    ensures key in IndexFor(entries) <==> LastWith(entries, key) >= 0
    ensures key in IndexFor(entries) ==>
      IndexFor(entries)[key] == Offset(entries, LastWith(entries, key))
    decreases |entries|
  {
    if entries != [] {
      var init := entries[..|entries| - 1];
      IndexForLatest(init, key);
      if entries[|entries| - 1].key != key && LastWith(init, key) >= 0 {
        assert entries[..LastWith(init, key)] == init[..LastWith(init, key)];
      }
      assert entries[..|entries| - 1] == init;
    }
  }

  /** Appending an entry makes it the last for its key and leaves every other key's last entry alone. */
  lemma LastWithAppend(entries: seq<Entry>, e: Entry, key: Bytes)
    ensures LastWith(entries + [e], key) == if e.key == key then |entries| else LastWith(entries, key)
  {
    assert (entries + [e])[..|entries|] == entries;
  }

  /** The outcome of replaying a log. */
  datatype Replayed = Replayed(index: map<Bytes, nat>, head: nat) | Corrupt

  /** The replay of `NewSegment`, from `offset` on, starting from `index`. */
  function ReplayFrom(log: Bytes, offset: nat, index: map<Bytes, nat>): (r: Replayed)
    ensures r.Replayed? ==> r.head == if offset <= |log| then |log| else offset
    ensures r.Replayed? ==> index.Keys <= r.index.Keys
    decreases |log| - offset
  {
    match Decode(log, offset)
    case EndOfLog => Replayed(index, offset)
    case Truncated => Corrupt
    case Record(key, _, next) => ReplayFrom(log, next, index[key := offset])
  }

  function Replay(log: Bytes): (r: Replayed)
    ensures r.Replayed? ==> r.head == |log|
  {
    ReplayFrom(log, 0, map[])
  }

  /** Replaying a log of records rebuilds the index of its entries and stops at its end. */
  lemma ReplaySerialize(entries: seq<Entry>)
    requires AllInBounds(entries)
    ensures Replay(Serialize(entries)) == Replayed(IndexFor(entries), |Serialize(entries)|)
  {
    assert entries[..0] == [];
    ReplaySuffix(entries, 0);
  }

  lemma {:induction false} ReplaySuffix(entries: seq<Entry>, n: nat)
    requires AllInBounds(entries) && n <= |entries|
    ensures ReplayFrom(Serialize(entries), Offset(entries, n), IndexFor(entries[..n]))
         == Replayed(IndexFor(entries), |Serialize(entries)|)
    decreases |entries| - n
  {
    if n == |entries| {
      assert entries[..n] == entries;
    } else {
      DecodeEntry(entries, n);
      assert entries[..n + 1][..n] == entries[..n];
      ReplaySuffix(entries, n + 1);
    }
  }

  /** storage.go's `Segment`; `log` is the file it both appends to and reads from. */
  class Segment {
    var log: Bytes
    var index: map<Bytes, nat>
    var head: nat
    /** The `Set`s whose records form the log, oldest first. */
    ghost var entries: seq<Entry>

    /** The log is the records of the entries, `head` is its end, the index is theirs. */
    ghost predicate Valid()
      reads this
    {
      head == |log| && log == Serialize(entries) && index == IndexFor(entries) &&
      AllInBounds(entries)
    }

    /** The struct literal at the end of `NewSegment`. */
    constructor (log: Bytes, index: map<Bytes, nat>, head: nat, ghost entries: seq<Entry>)
      ensures this.log == log && this.index == index && this.head == head
      ensures this.entries == entries
    {
      this.log := log;
      this.index := index;
      this.head := head;
      this.entries := entries;
    }

    /** Looks the key up in the index and decodes the record it points to. */
    function Get(key: Bytes): (r: Result<Bytes, Error>)
      reads this
      ensures key !in index ==> r == Err(NotFound)
      ensures key in index && Decode(log, index[key]).Record? ==>
        r == (if Decode(log, index[key]).key == key then Ok(Decode(log, index[key]).value)
              else Err(KeyMismatch))
      ensures key in index && !Decode(log, index[key]).Record? ==> r.Err?
    {
      if key !in index then Err(NotFound)
      else
        match Decode(log, index[key])
        case EndOfLog => Err(ReadEOF)
        case Truncated => Err(ShortRead)
        case Record(recordKey, value, _) =>
          if key != recordKey then Err(KeyMismatch) else Ok(value)
    }

    /**
     * Appends the record of (`key`, `value`) with one write; only when the
     * write succeeds does it point the index at the record and advance `head`.
     */
    method Set(key: Bytes, value: Bytes, write: WriteResult) returns (r: Outcome<Error>)
      modifies this
      ensures write.WriteError? ==>
        r == Fail(WriteFailed(write.message)) &&
        log == old(log) && index == old(index) && head == old(head) && entries == old(entries)
      ensures write.Written? ==>
        r == Pass &&
        log == old(log) + Encode(key, value) &&
        index == old(index)[key := old(head)] &&
        head == old(head) + EncodedSize(key, value) &&
        entries == old(entries) + [Entry(key, value)]
      ensures old(Valid()) && (write.WriteError? || InBounds(key, value)) ==> Valid()
    {
      var record := EncodeRecord(key, value);
      var length := |record|;
      if write.WriteError? {
        return Fail(WriteFailed(write.message));
      }
      AppendEntry(entries, Entry(key, value));
      log := log + record;
      index := index[key := head];
      head := head + length;
      entries := entries + [Entry(key, value)];
      r := Pass;
    }
  }

  /** A record decoded at the end of the replayed prefix extends the entries behind it. */
  lemma ReplayStep(file: Bytes, head: nat, entries: seq<Entry>)
    requires head <= |file| && file[..head] == Serialize(entries) && AllInBounds(entries)
    requires Decode(file, head).Record?
    ensures var d := Decode(file, head); var es := entries + [Entry(d.key, d.value)];
      file[..d.next] == Serialize(es) && AllInBounds(es) &&
      IndexFor(es) == IndexFor(entries)[d.key := head]
  {
    var d := Decode(file, head);
    DecodedIsEncoded(file, head);
    assert file[..d.next] == file[..head] + file[head..d.next];
    AppendEntry(entries, Entry(d.key, d.value));
  }

  /**
   * `NewSegment`: replays the log from offset 0 until the end, pointing the
   * index at each record in turn; a record it cannot frame is `CorruptLog`.
   */
  method NewSegment(file: Bytes) returns (r: Result<Segment, Error>)
    ensures r.Err? <==> Replay(file).Corrupt?
    ensures r.Err? ==> r.error == CorruptLog
    ensures r.Ok? ==>
      fresh(r.value) && r.value.Valid() && r.value.log == file &&
      Replay(file) == Replayed(r.value.index, r.value.head)
  {
    var index: map<Bytes, nat> := map[];
    var head: nat := 0;
    ghost var entries: seq<Entry> := [];
    while true
      invariant head <= |file|
      invariant file[..head] == Serialize(entries)
      invariant index == IndexFor(entries) && AllInBounds(entries)
      invariant ReplayFrom(file, head, index) == Replay(file)
      decreases |file| - head
    {
      var d := Decode(file, head);
      if d.EndOfLog? {
        break;
      }
      if d.Truncated? {
        return Err(CorruptLog);
      }
      ReplayStep(file, head, entries);
      assert ReplayFrom(file, head, index) == ReplayFrom(file, d.next, index[d.key := head]);
      index := index[d.key := head];
      entries := entries + [Entry(d.key, d.value)];
      head := d.next;
    }
    assert file[..head] == file;
    var s := new Segment(file, index, head, entries);
    r := Ok(s);
  }

  /** A valid segment's `Get` returns the value of the key's last `Set`, or `NotFound`. */
  lemma GetLatest(s: Segment, key: Bytes)
    requires s.Valid()
    ensures LastWith(s.entries, key) < 0 ==> s.Get(key) == Err(NotFound)
    ensures LastWith(s.entries, key) >= 0 ==>
      s.Get(key) == Ok(s.entries[LastWith(s.entries, key)].value)
  {
    IndexForLatest(s.entries, key);
    var i := LastWith(s.entries, key);
    if i >= 0 {
      DecodeEntry(s.entries, i);
    }
  }

  /** In a valid segment, each indexed offset holds the key's last record. */
  lemma IndexPointsAtLatest(s: Segment, key: Bytes)
    requires s.Valid() && key in s.index
    ensures var d, i := Decode(s.log, s.index[key]), LastWith(s.entries, key);
      0 <= i && d.Record? && d.key == key && d.value == s.entries[i].value &&
      s.index[key] == Offset(s.entries, i)
  {
    IndexForLatest(s.entries, key);
    DecodeEntry(s.entries, LastWith(s.entries, key));
  }

  /**
   * A successful `Set` followed by `Get` on the same key returns the value
   * just set; every other key reads what the entries before it gave.
   */
  method SegmentSetThenGet(s: Segment, key: Bytes, value: Bytes) returns (r: Result<Bytes, Error>)
    requires s.Valid() && InBounds(key, value)
    modifies s
    ensures s.Valid() && s.entries == old(s.entries) + [Entry(key, value)]
    ensures r == Ok(value)
    ensures forall k :: k != key ==>
      var i := LastWith(old(s.entries), k);
      s.Get(k) == if i < 0 then Err(NotFound) else Ok(old(s.entries)[i].value)
  {
    ghost var before := s.entries;
    var _ := s.Set(key, value, Written);
    LastWithAppend(before, Entry(key, value), key);
    GetLatest(s, key);
    r := s.Get(key);
    forall k | k != key
      ensures var i := LastWith(before, k);
        s.Get(k) == if i < 0 then Err(NotFound) else Ok(before[i].value)
    {
      LastWithAppend(before, Entry(key, value), k);
      GetLatest(s, k);
      if LastWith(before, k) >= 0 {
        assert s.entries[LastWith(before, k)] == before[LastWith(before, k)];
      }
    }
  }

  /** A valid segment's index is exactly what a replay of its log rebuilds. */
  lemma ValidIsReplay(s: Segment)
    requires s.Valid()
    ensures Replay(s.log) == Replayed(s.index, s.head)
  {
    ReplaySerialize(s.entries);
  }

  /** Reopening a valid segment's log gives the same index and head, so every `Get` agrees. */
  method Restart(s: Segment) returns (t: Segment)
    requires s.Valid()
    ensures fresh(t) && t.Valid()
    ensures t.log == s.log && t.index == s.index && t.head == s.head
    ensures forall key :: t.Get(key) == s.Get(key)
  {
    ValidIsReplay(s);
    var r := NewSegment(s.log);
    t := r.value;
  }

  /** storage.go's `StorageKV`: a router over its segments, of which there is one. */
  class StorageKV {
    var segments: seq<Segment>

    ghost predicate Valid()
      reads this, segments
    {
      |segments| == 1 && segments[0].Valid()
    }

    constructor (segment: Segment)
      ensures segments == [segment]
    {
      segments := [segment];
    }

    /** Returns what the first segment's `Get` returns. */
    function Get(key: Bytes): (r: Result<Bytes, Error>)
      reads this, segments
      requires |segments| > 0
      ensures r == segments[0].Get(key)
    {
      segments[0].Get(key)
    }

    /** Does what the first segment's `Set` does, and returns what it returns. */
    method Set(key: Bytes, value: Bytes, write: WriteResult) returns (r: Outcome<Error>)
      requires |segments| > 0
      modifies segments[0]
      ensures write.WriteError? ==>
        r == Fail(WriteFailed(write.message)) &&
        segments[0].log == old(segments[0].log) && segments[0].index == old(segments[0].index) &&
        segments[0].head == old(segments[0].head) &&
        segments[0].entries == old(segments[0].entries)
      ensures write.Written? ==>
        r == Pass &&
        segments[0].log == old(segments[0].log) + Encode(key, value) &&
        segments[0].index == old(segments[0].index)[key := old(segments[0].head)] &&
        segments[0].head == old(segments[0].head) + EncodedSize(key, value) &&
        segments[0].entries == old(segments[0].entries) + [Entry(key, value)]
      ensures old(Valid()) && (write.WriteError? || InBounds(key, value)) ==> Valid()
    {
      r := segments[0].Set(key, value, write);
    }
  }

  /** `NewStorageKV` over the bytes of the log file. */
  method NewStorageKV(file: Bytes) returns (r: Result<StorageKV, Error>)
    ensures r.Err? <==> Replay(file).Corrupt?
    ensures r.Ok? ==>
      fresh(r.value) && r.value.Valid() && fresh(r.value.segments[0]) &&
      r.value.segments[0].log == file
  {
    var s := NewSegment(file);
    if s.Err? {
      return Err(s.error);
    }
    var kv := new StorageKV(s.value);
    r := Ok(kv);
  }
}
