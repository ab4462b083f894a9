/** Buffer sizes in megabytes (pdf-utils.js, `getBufferSizeMB` and
    `exceedsSize`). A size is `length / (1024 * 1024)`; dividing an integer
    below 2^53 by a power of two is exact in a JavaScript number, so `real`
    models it without rounding. */
module PdfSize {
  import opened ByteText

  const BytesPerMB: nat := 1048576

  /** `getBufferSizeMB`: the length of the buffer in units of 1024 * 1024 bytes. */
  function GetBufferSizeMB(b: seq<Byte>): (mb: real)
    ensures mb >= 0.0
    ensures mb * BytesPerMB as real == |b| as real
  {
    |b| as real / BytesPerMB as real
  }

  /** `exceedsSize(buffer, maxSizeMB = 25)`: strictly more bytes than the limit allows. */
  function ExceedsSize(b: seq<Byte>, maxSizeMB: real := 25.0): (r: bool)
    ensures r <==> |b| as real > maxSizeMB * BytesPerMB as real
  {
    GetBufferSizeMB(b) > maxSizeMB
  }

  /** Comparing sizes in megabytes is comparing lengths. */
  lemma SizeOrderIsLengthOrder(a: seq<Byte>, b: seq<Byte>)
    ensures GetBufferSizeMB(a) < GetBufferSizeMB(b) <==> |a| < |b|
    ensures GetBufferSizeMB(a) <= GetBufferSizeMB(b) <==> |a| <= |b|
  {
  }

  /** For a whole number of megabytes the test is an integer comparison:
      a buffer of exactly `m` MB does not exceed `m`. */
  lemma ExceedsWholeMegabytes(b: seq<Byte>, m: nat)
    ensures ExceedsSize(b, m as real) <==> |b| > m * BytesPerMB
    ensures !ExceedsSize(b, m as real) <==> |b| <= m * BytesPerMB
  {
  }

  /** The default limit is 25 MB = 26214400 bytes. */
  lemma DefaultLimit(b: seq<Byte>)
    ensures ExceedsSize(b) <==> |b| > 26214400
  {
  }
}
