/**
 * Byte strings and the two helpers of Go's `bytes`/`strings` packages
 * that the protocol code relies on: `SplitN(s, sep, 2)` and `TrimSpace`.
 */
module ByteStrings {

  /** One octet, Go's `byte`. */
  type Byte = b: int | 0 <= b < 0x100

  type Bytes = seq<Byte>

  const SP: Byte := 0x20  // ' '
  const NL: Byte := 0x0A  // '\n'

  /** The ASCII white space that `TrimSpace` removes: `\t \n \v \f \r` and space. */
  predicate IsSpace(b: Byte) {
    b == SP || 0x09 <= b <= 0x0D
  }

  predicate AllSpace(s: Bytes) {
    forall i :: 0 <= i < |s| ==> IsSpace(s[i])
  }

  /** Neither end of `s` is white space. */
  predicate Trimmed(s: Bytes) {
    s == [] || (!IsSpace(s[0]) && !IsSpace(s[|s| - 1]))
  }

  predicate StartsWith(s: Bytes, prefix: Bytes) {
    |prefix| <= |s| && s[..|prefix|] == prefix
  }

  /** `s` is one line as `ReadBytes('\n')` delivers it: its only newline is its last byte. */
  predicate OneLine(s: Bytes) {
    |s| > 0 && s[|s| - 1] == NL && NL !in s[..|s| - 1]
  }

  /** Position of the first `b` in `s`, or -1 (Go's `bytes.IndexByte`). */
  function FirstIndex(s: Bytes, b: Byte): (i: int)
    ensures -1 <= i < |s|
    ensures i == -1 <==> b !in s
    ensures 0 <= i ==> s[i] == b && b !in s[..i]
    decreases |s|
  {
    if s == [] then -1
    else if s[0] == b then 0
    else
      var j := FirstIndex(s[1..], b);
      if j < 0 then -1 else (assert s[..j + 1] == [s[0]] + s[1..][..j]; j + 1)
  }

  /** The first `b` is at `k` when `s[k]` is `b` and no earlier byte is. */
  lemma FirstIndexIs(s: Bytes, b: Byte, k: nat)
    requires k < |s| && s[k] == b && b !in s[..k]
    ensures FirstIndex(s, b) == k
  {
    var i := FirstIndex(s, b);
    assert forall j :: 0 <= j < k ==> s[j] != b by {
      forall j | 0 <= j < k ensures s[j] != b { assert s[..k][j] == s[j]; }
    }
    assert forall j :: 0 <= j < i ==> s[j] != b by {
      forall j | 0 <= j < i ensures s[j] != b { assert s[..i][j] == s[j]; }
    }
  }

  /**
   * `bytes.SplitN(s, []byte{sep}, 2)`: the whole of `s` when it holds no
   * `sep`, otherwise the parts before and after its first `sep`.
   */
  function SplitOnce(s: Bytes, sep: Byte): (parts: seq<Bytes>)
    ensures |parts| == 1 || |parts| == 2
    ensures |parts| == 1 <==> sep !in s
    ensures |parts| == 1 ==> parts[0] == s
    ensures |parts| == 2 ==> s == parts[0] + [sep] + parts[1] && sep !in parts[0]
  {
    var i := FirstIndex(s, sep);
    if i < 0 then [s] else [s[..i], s[i + 1..]]
  }

  /** Splitting at the first separator undoes joining with one. */
  lemma SplitOnceJoin(a: Bytes, sep: Byte, b: Bytes)
    requires sep !in a
    ensures SplitOnce(a + [sep] + b, sep) == [a, b]
  {
    var s := a + [sep] + b;
    var i := FirstIndex(s, sep);
    assert s[..|a|] == a;
    assert s[|a|] == sep;
    assert i == |a|;
    assert s[..i] == a;
    assert s[i + 1..] == b;
  }

  /** Drops the white space at the front. */
  function TrimLeft(s: Bytes): (r: Bytes)
    ensures |r| <= |s| && r == s[|s| - |r|..]
    ensures AllSpace(s[..|s| - |r|])
    ensures r == [] || !IsSpace(r[0])
    decreases |s|
  {
    if s != [] && IsSpace(s[0]) then
      var r := TrimLeft(s[1..]);
      assert s[..|s| - |r|] == [s[0]] + s[1..][..|s| - 1 - |r|];
      r
    else s
  }

  /** Drops the white space at the back. */
  function TrimRight(s: Bytes): (r: Bytes)
    ensures |r| <= |s| && r == s[..|r|]
    ensures AllSpace(s[|r|..])
    ensures r == [] || !IsSpace(r[|r| - 1])
    decreases |s|
  {
    if s != [] && IsSpace(s[|s| - 1]) then
      var r := TrimRight(s[..|s| - 1]);
      assert s[|r|..] == s[..|s| - 1][|r|..] + [s[|s| - 1]];
      r
    else s
  }

  lemma SliceElements(s: Bytes, i: nat, j: nat)
    requires i <= j <= |s|
    ensures forall b :: b in s[i..j] ==> b in s
  {
    forall b | b in s[i..j] ensures b in s {
      var k :| 0 <= k < j - i && s[i..j][k] == b;
      assert s[i + k] == b;
    }
  }

  /** Go's `bytes.TrimSpace` / `strings.TrimSpace`, over ASCII white space. */
  function TrimSpace(s: Bytes): (r: Bytes)
    ensures Trimmed(r)
    ensures |r| <= |s|
    ensures forall b :: b in r ==> b in s
  {
    var l := TrimLeft(s);
    var r := TrimRight(l);
    SliceElements(l, 0, |r|);
    SliceElements(s, |s| - |l|, |s|);
    r
  }

  /** `TrimSpace` removes exactly the padding: the other half of its characterisation. */
  lemma {:induction false} TrimSpacePadded(pre: Bytes, core: Bytes, post: Bytes)
    requires AllSpace(pre) && AllSpace(post) && Trimmed(core)
    ensures TrimSpace(pre + core + post) == core
  {
    if core == [] {
      assert pre + core + post == (pre + post) + [];
      TrimLeftPadded(pre + post, []);
    } else {
      assert pre + core + post == pre + (core + post);
      TrimLeftPadded(pre, core + post);
      TrimRightPadded(core, post);
    }
  }

  lemma {:induction false} TrimLeftPadded(pre: Bytes, s: Bytes)
    requires AllSpace(pre) && (s == [] || !IsSpace(s[0]))
    ensures TrimLeft(pre + s) == s
    decreases |pre|
  {
    if pre != [] {
      assert (pre + s)[1..] == pre[1..] + s;
      TrimLeftPadded(pre[1..], s);
    } else {
      assert pre + s == s;
    }
  }

  lemma {:induction false} TrimRightPadded(s: Bytes, post: Bytes)
    requires AllSpace(post) && (s == [] || !IsSpace(s[|s| - 1]))
    ensures TrimRight(s + post) == s
    decreases |post|
  {
    if post != [] {
      var t := s + post;
      assert t[..|t| - 1] == s + post[..|post| - 1];
      TrimRightPadded(s, post[..|post| - 1]);
    } else {
      assert s + post == s;
    }
  }

  /** `TrimSpace` leaves trimmed bytes alone. */
  lemma TrimSpaceTrimmed(s: Bytes)
    requires Trimmed(s)
    ensures TrimSpace(s) == s
  {
    assert [] + s + [] == s;
    TrimSpacePadded([], s, []);
  }

  lemma OneLineOf(body: Bytes)
    requires NL !in body
    ensures OneLine(body + [NL])
  {
    assert (body + [NL])[..|body|] == body;
  }

  /** A trailing newline never survives `TrimSpace`. */
  lemma TrimSpaceNewline(s: Bytes)
    ensures TrimSpace(s + [NL]) == TrimSpace(s)
  {
    var l := TrimLeft(s);
    TrimLeftNewline(s);
    if l != [] {
      assert TrimLeft(s + [NL]) == l + [NL];
      assert (l + [NL])[|l|] == NL && IsSpace(NL);
      assert (l + [NL])[..|l|] == l;
      assert TrimRight(l + [NL]) == TrimRight(l);
    }
  }

  lemma {:induction false} TrimLeftNewline(s: Bytes)
    ensures TrimLeft(s + [NL]) == if TrimLeft(s) == [] then [] else TrimLeft(s) + [NL]
    decreases |s|
  {
    if s == [] {
      assert TrimLeft([NL]) == TrimLeft([]);
    } else {
      assert (s + [NL])[0] == s[0];
      assert (s + [NL])[1..] == s[1..] + [NL];
      if IsSpace(s[0]) {
        TrimLeftNewline(s[1..]);
        assert TrimLeft(s + [NL]) == TrimLeft(s[1..] + [NL]);
        assert TrimLeft(s) == TrimLeft(s[1..]);
      } else {
        assert TrimLeft(s + [NL]) == s + [NL];
        assert TrimLeft(s) == s;
      }
    }
  }
}
