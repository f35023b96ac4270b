/**
 * The on-log record framing of storage.go:
 *   [1 byte: key length K][K key bytes][2 bytes: value length V, big-endian][V value bytes]
 */
module Record {
  import opened ByteStrings

  const MaxKeyLength: nat := 0xFF
  const MaxValueLength: nat := 0xFFFF

  /** The lengths fit their length fields, so that no cast wraps. */
  predicate InBounds(key: Bytes, value: Bytes) {
    |key| <= MaxKeyLength && |value| <= MaxValueLength
  }

  function EncodedSize(key: Bytes, value: Bytes): nat {
    1 + |key| + 2 + |value|
  }

  /**
   * The bytes `Set` writes. The length fields are `byte(len(key))` and
   * `uint16(len(value))`, so an over-long key or value wraps modulo 2^8 or 2^16.
   */
  function Encode(key: Bytes, value: Bytes): (r: Bytes)
    ensures |r| == EncodedSize(key, value)
  {
    var n := |value| % 0x1_0000;
    [|key| % 0x100] + key + [n / 0x100, n % 0x100] + value
  }

  /** What decoding one record at an offset can give. */
  datatype Decoded =
    | Record(key: Bytes, value: Bytes, next: nat)  // a whole record, and where the next one starts
    | EndOfLog                                      // nothing left to read: `io.EOF`
    | Truncated                                     // the log ends inside a record

  /** `readRecord`: decodes the record that starts at `offset`. */
  function Decode(log: Bytes, offset: nat): (r: Decoded)
    ensures r.EndOfLog? <==> offset >= |log|
    ensures r.Record? ==>
      r.next == offset + EncodedSize(r.key, r.value) && r.next <= |log| &&
      InBounds(r.key, r.value)
  {
    if offset >= |log| then EndOfLog
    else
      var k: nat := log[offset];
      if offset + 1 + k + 2 > |log| then Truncated
      else
        var v: nat := log[offset + 1 + k] as int * 0x100 + log[offset + 2 + k];
        var start := offset + 3 + k;
        if start + v > |log| then Truncated
        else Record(log[offset + 1..offset + 1 + k], log[start..start + v], start + v)
  }

  /** The encoding loop of `Set`: fills a buffer of the record's size field by field. */
  method EncodeRecord(key: Bytes, value: Bytes) returns (r: Bytes)
    ensures |r| == EncodedSize(key, value)
    ensures r[0] == |key| % 0x100
    ensures r[1..1 + |key|] == key
    ensures r[1 + |key|] as int * 0x100 + r[2 + |key|] == |value| % 0x1_0000
    ensures r[3 + |key|..] == value
    ensures r == Encode(key, value)
  {
    var buf := new Byte[1 + |key| + 2 + |value|];
    buf[0] := |key| % 0x100;
    for i := 0 to |key|
      invariant buf[0] == |key| % 0x100
      invariant forall j :: 0 <= j < i ==> buf[1 + j] == key[j]
    {
      buf[1 + i] := key[i];
    }
    var n := |value| % 0x1_0000;
    buf[1 + |key|] := n / 0x100;
    buf[2 + |key|] := n % 0x100;
    for i := 0 to |value|
      invariant buf[0] == |key| % 0x100
      invariant forall j :: 0 <= j < |key| ==> buf[1 + j] == key[j]
      invariant buf[1 + |key|] == n / 0x100 && buf[2 + |key|] == n % 0x100
      invariant forall j :: 0 <= j < i ==> buf[3 + |key| + j] == value[j]
    {
      buf[3 + |key| + i] := value[i];
    }
    r := buf[..];
    assert r[1..1 + |key|] == key;
    assert r[3 + |key|..] == value;
    assert r == [r[0]] + r[1..1 + |key|] + [r[1 + |key|], r[2 + |key|]] + r[3 + |key|..];
  }

  /** Codec round trip: a record decodes to what was encoded, wherever it sits in the log. */
  lemma DecodeEncode(prefix: Bytes, key: Bytes, value: Bytes, suffix: Bytes)
    requires InBounds(key, value)
    ensures Decode(prefix + Encode(key, value) + suffix, |prefix|)
         == Record(key, value, |prefix| + EncodedSize(key, value))
  {
    var e := Encode(key, value);
    var log := prefix + e + suffix;
    var o := |prefix|;
    assert log[o..o + |e|] == e;
    EncodeFields(key, value);
    DecodeFields(log, o, key, value);
  }

  /** Where the fields of an in-bounds record sit. */
  lemma EncodeFields(key: Bytes, value: Bytes)
    requires InBounds(key, value)
    ensures var e, k := Encode(key, value), |key|;
      |e| == EncodedSize(key, value) && e[0] == k && e[1..1 + k] == key &&
      e[1 + k] == |value| / 0x100 && e[2 + k] == |value| % 0x100 && e[3 + k..] == value
  {
  }

  /** A record whose fields are in place at `o` decodes to them. */
  lemma DecodeFields(log: Bytes, o: nat, key: Bytes, value: Bytes)
    requires InBounds(key, value) && o + EncodedSize(key, value) <= |log|
    requires var e, k := log[o..o + EncodedSize(key, value)], |key|;
      e[0] == k && e[1..1 + k] == key &&
      e[1 + k] == |value| / 0x100 && e[2 + k] == |value| % 0x100 && e[3 + k..] == value
    ensures Decode(log, o) == Record(key, value, o + EncodedSize(key, value))
  {
    var k, n := |key|, EncodedSize(key, value);
    var e := log[o..o + n];
    assert log[o] == e[0];
    SubSlice(log, o, o + n, 1, 1 + k);
    assert log[o + 1 + k] == e[1 + k] && log[o + 2 + k] == e[2 + k];
    SubSlice(log, o, o + n, 3 + k, n);
  }

  lemma SubSlice(s: Bytes, a: nat, b: nat, c: nat, d: nat)
    requires a <= b <= |s| && c <= d <= b - a
    ensures s[a..b][c..d] == s[a + c..a + d]
  {
    forall j | 0 <= j < d - c ensures s[a..b][c..d][j] == s[a + c..a + d][j] {
    }
  }

  /** Two records with the same fields are the same bytes. */
  lemma SameFields(x: Bytes, y: Bytes, k: nat)
    requires |x| == |y| >= 3 + k
    requires x[0] == y[0] && x[1..1 + k] == y[1..1 + k]
    requires x[1 + k] == y[1 + k] && x[2 + k] == y[2 + k] && x[3 + k..] == y[3 + k..]
    ensures x == y
  {
    assert x == [x[0]] + x[1..1 + k] + [x[1 + k], x[2 + k]] + x[3 + k..];
    assert y == [y[0]] + y[1..1 + k] + [y[1 + k], y[2 + k]] + y[3 + k..];
  }

  /** The converse: whatever decodes is the encoding of what it decodes to. */
  lemma DecodedIsEncoded(log: Bytes, offset: nat)
    requires Decode(log, offset).Record?
    ensures var d := Decode(log, offset);
      log[offset..d.next] == Encode(d.key, d.value)
  {
    var d := Decode(log, offset);
    var k, n := |d.key|, EncodedSize(d.key, d.value);
    var hi, lo := log[offset + 1 + k], log[offset + 2 + k];
    assert hi as int * 0x100 + lo == |d.value|;
    assert |d.value| / 0x100 == hi && |d.value| % 0x100 == lo;
    var l := log[offset..d.next];
    SubSlice(log, offset, offset + n, 1, 1 + k);
    SubSlice(log, offset, offset + n, 3 + k, n);
    EncodeFields(d.key, d.value);
    SameFields(l, Encode(d.key, d.value), k);
  }
}
