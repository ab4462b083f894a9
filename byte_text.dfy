/** Bytes, Node's 'ascii' decoding and the substring tests that the PDF
    utilities run on decoded text. */
module ByteText {

  /** One byte of a Node Buffer. */
  type Byte = b: int | 0 <= b < 256

  function Min(a: int, b: int): int { if a <= b then a else b }

  /** `buffer.toString('ascii')`: Node clears the high bit of every byte
      before decoding, so byte 0xA5 reads as '%'. */
  function AsciiDecode(bs: seq<Byte>): (s: string)
    ensures |s| == |bs|
    ensures forall i :: 0 <= i < |bs| ==> s[i] as int == bs[i] % 128
  {
    seq(|bs|, i requires 0 <= i < |bs| => (bs[i] % 128) as char)
  }

  /** Every character is 7-bit ASCII. */
  predicate IsAscii(s: string)
  {
    forall i :: 0 <= i < |s| ==> s[i] as int < 128
  }

  /** `Buffer.from(s, 'latin1')`: each character keeps its low byte. On a
      7-bit ASCII text this is also `Buffer.from(s, 'utf8')`. */
  function Latin1Bytes(s: string): (bs: seq<Byte>)
    ensures |bs| == |s|
    ensures forall i :: 0 <= i < |s| ==> bs[i] == s[i] as int % 256
  {
    seq(|s|, i requires 0 <= i < |s| => s[i] as int % 256)
  }

  /** Encoding then decoding distributes over concatenation. */
  lemma Latin1AsciiConcat(x: string, y: string)
    ensures AsciiDecode(Latin1Bytes(x + y)) == AsciiDecode(Latin1Bytes(x)) + AsciiDecode(Latin1Bytes(y))
  {
    var l, r := AsciiDecode(Latin1Bytes(x + y)), AsciiDecode(Latin1Bytes(x)) + AsciiDecode(Latin1Bytes(y));
    assert forall i :: 0 <= i < |x| + |y| ==> l[i] == r[i];
  }

  /** An ASCII text survives encoding and 'ascii' decoding. */
  lemma Latin1AsciiIdentity(s: string)
    requires IsAscii(s)
    ensures AsciiDecode(Latin1Bytes(s)) == s
  {
    var d := AsciiDecode(Latin1Bytes(s));
    assert forall i :: 0 <= i < |s| ==> d[i] as int == s[i] as int;
  }

  /** Decoding commutes with slicing. */
  lemma AsciiDecodeSlice(bs: seq<Byte>, lo: int, hi: int)
    requires 0 <= lo <= hi <= |bs|
    ensures AsciiDecode(bs[lo..hi]) == AsciiDecode(bs)[lo..hi]
  {
    var a, b := AsciiDecode(bs[lo..hi]), AsciiDecode(bs)[lo..hi];
    assert forall i :: 0 <= i < hi - lo ==> a[i] == b[i];
  }

  /** Length of the run of elements satisfying `p` at the start of `s`:
      what a greedy `p*` takes there. */
  function RunLength<T>(s: seq<T>, p: T -> bool): (n: nat)
    ensures n <= |s|
    ensures forall k :: 0 <= k < n ==> p(s[k])
    ensures n < |s| ==> !p(s[n])
  {
    if s != [] && p(s[0]) then 1 + RunLength(s[1..], p) else 0
  }

  /** A run of `k` elements satisfying `p` at the front adds `k` to the run. */
  lemma {:induction false} RunLengthSkip<T>(s: seq<T>, p: T -> bool, k: nat)
    requires k <= |s| && forall i :: 0 <= i < k ==> p(s[i])
    ensures RunLength(s, p) == k + RunLength(s[k..], p)
    decreases k
  {
    if k > 0 {
      assert s[1..][k - 1..] == s[k..];
      assert forall i :: 0 <= i < k - 1 ==> s[1..][i] == s[i + 1];
      RunLengthSkip(s[1..], p, k - 1);
    }
  }

  /** A run that is followed by an element outside `p` is the whole run. */
  lemma RunLengthUnique<T>(s: seq<T>, p: T -> bool, n: nat)
    requires n <= |s| && forall i :: 0 <= i < n ==> p(s[i])
    requires n < |s| ==> !p(s[n])
    ensures RunLength(s, p) == n
  {
  }

  /** `p` occurs in `s` starting at index `i`. */
  predicate OccursAt<T(==)>(s: seq<T>, p: seq<T>, i: int)
  {
    0 <= i && i + |p| <= |s| && s[i..i + |p|] == p
  }

  /** JavaScript `s.includes(p)`. */
  predicate Contains<T(==)>(s: seq<T>, p: seq<T>)
  {
    exists i | 0 <= i <= |s| - |p| :: OccursAt(s, p, i)
  }

  /** JavaScript `s.startsWith(p)`. */
  predicate StartsWith<T(==)>(s: seq<T>, p: seq<T>)
  {
    |p| <= |s| && s[..|p|] == p
  }

  /** An occurrence inside a prefix is an occurrence in every longer prefix. */
  lemma ContainsInLongerPrefix<T>(s: seq<T>, p: seq<T>, m: nat, n: nat)
    requires m <= n <= |s|
    requires Contains(s[..m], p)
    ensures Contains(s[..n], p)
  {
    var i :| 0 <= i <= m - |p| && OccursAt(s[..m], p, i);
    assert s[..n][i..i + |p|] == s[i..i + |p|] == s[..m][i..i + |p|];
    assert OccursAt(s[..n], p, i);
  }

  /** An occurrence of `p` carries an occurrence of each of its suffixes. */
  lemma ContainsSuffix<T>(s: seq<T>, p: seq<T>, k: nat)
    requires k <= |p|
    requires Contains(s, p)
    ensures Contains(s, p[k..])
  {
    var i :| 0 <= i <= |s| - |p| && OccursAt(s, p, i);
    assert s[i + k..i + |p|] == s[i..i + |p|][k..];
    assert OccursAt(s, p[k..], i + k);
  }

  /** A sequence that lacks some element of `p` cannot contain `p`. */
  lemma MissingElementExcludes<T>(s: seq<T>, p: seq<T>, j: nat)
    requires j < |p|
    requires p[j] !in s
    ensures !Contains(s, p)
  {
    forall i | 0 <= i <= |s| - |p| ensures !OccursAt(s, p, i) {
      assert s[i + j] in s;
      assert s[i..i + |p|][j] != p[j];
    }
  }
}
