/** `isValidPDF` (pdf-utils.js): a structural sanity check on raw bytes.
    Every window is decoded with Node's 'ascii' decoding, which clears the
    high bit of each byte before the substring tests. */
module PdfValidator {
  import opened ByteText

  /** Buffers shorter than this are rejected outright. */
  const MinPdfLength: nat := 100
  /** Width of the header window, `toString('ascii', 0, 8)`. */
  const HeaderWindow: nat := 8
  /** The end-of-file marker is looked for in the last 100 bytes. */
  const TailWindow: nat := 100
  /** `obj` and `endobj` are looked for in the first 5000 bytes. */
  const StructureWindow: nat := 5000

  /** The first eight bytes, decoded, start with `%PDF-`. */
  predicate HasHeader(b: seq<Byte>)
    requires |b| >= HeaderWindow
  {
    StartsWith(AsciiDecode(b[..HeaderWindow]), "%PDF-")
  }

  /** The last 100 bytes, decoded (`toString('ascii', length - 100)`). */
  function TailText(b: seq<Byte>): string
    requires |b| >= TailWindow
  {
    AsciiDecode(b[|b| - TailWindow..])
  }

  /** The first `min(length, 5000)` bytes, decoded. */
  function StructureText(b: seq<Byte>): string
  {
    AsciiDecode(b[..Min(|b|, StructureWindow)])
  }

  /** `isValidPDF(buffer)`, following the order of the source's checks. The
      `obj` test is implied by the `endobj` test, so a buffer is valid exactly
      when it is long enough, has the header, has `%%EOF` near its end and
      has `endobj` near its start. */
  function IsValidPDF(b: seq<Byte>): (valid: bool)
    ensures valid <==>
      && |b| >= MinPdfLength
      && HasHeader(b)
      && Contains(TailText(b), "%%EOF")
      && Contains(StructureText(b), "endobj")
  {
    if |b| == 0 then false
    else if |b| < MinPdfLength then false
    else if !HasHeader(b) then false
    else if !Contains(TailText(b), "%%EOF") then false
    else
      var content := StructureText(b);
      EndobjContainsObj(content);
      if !Contains(content, "obj") || !Contains(content, "endobj") then false
      else true
  }

  /** Every text containing `endobj` contains `obj`. */
  lemma EndobjContainsObj(s: string)
    ensures Contains(s, "endobj") ==> Contains(s, "obj")
  {
    if Contains(s, "endobj") {
      assert "endobj"[3..] == "obj";
      ContainsSuffix(s, "endobj", 3);
    }
  }

  /** The header test on raw bytes: with the high bit cleared, the first five
      bytes are `%`, `P`, `D`, `F`, `-`. So 0x25 and 0xA5 both pass as `%`. */
  lemma HeaderBytes(b: seq<Byte>)
    requires |b| >= HeaderWindow
    ensures HasHeader(b) <==>
      b[0] % 128 == 37 && b[1] % 128 == 80 && b[2] % 128 == 68 &&
      b[3] % 128 == 70 && b[4] % 128 == 45
  {
    var h := AsciiDecode(b[..HeaderWindow]);
    assert "%PDF-" == ['%', 'P', 'D', 'F', '-'];
    if HasHeader(b) {
      assert h[..5] == "%PDF-";
      assert h[0] == '%' && h[1] == 'P' && h[2] == 'D' && h[3] == 'F' && h[4] == '-';
    }
    if b[0] % 128 == 37 && b[1] % 128 == 80 && b[2] % 128 == 68 &&
       b[3] % 128 == 70 && b[4] % 128 == 45 {
      assert h[..5] == "%PDF-";
    }
  }

  /** A buffer whose first byte is neither `%` nor `%` with the high bit set
      is not a valid PDF. */
  lemma FirstByteMustReadAsPercent(b: seq<Byte>)
    requires IsValidPDF(b)
    ensures b[0] == 37 || b[0] == 165
  {
    HeaderBytes(b);
  }

  /** The validator fails closed on the inputs its callers worry about. */
  lemma FailsClosed(b: seq<Byte>)
    ensures !IsValidPDF([])
    ensures !IsValidPDF(seq(50, _ => 65))  // fifty 'A' bytes
    ensures |b| >= MinPdfLength && HasHeader(b) && !Contains(TailText(b), "%%EOF") ==> !IsValidPDF(b)
    ensures |b| >= MinPdfLength && Contains(TailText(b), "%%EOF") && !HasHeader(b) ==> !IsValidPDF(b)
  {
  }

  /** The four-object document that the compression test script builds,
      cut where the validator looks: header, first object up to its
      `endobj`, the rest, and the end-of-file marker. */
  const MinimalPdfHeader: string := "%PDF-"
  const MinimalPdfFirstObject: string := "1.4\n1 0 obj\n<<\n/Type /Catalog\n/Pages 2 0 R\n>>\n"
  const MinimalPdfRest: string :=
    "\n\n2 0 obj\n<<\n/Type /Pages\n/Kids [3 0 R]\n/Count 1\n>>\nendobj\n" +
    "\n3 0 obj\n<<\n/Type /Page\n/Parent 2 0 R\n/MediaBox [0 0 612 792]\n/Contents 4 0 R\n>>\nendobj\n" +
    "\n4 0 obj\n<<\n/Length 44\n>>\nstream\nBT\n/F1 12 Tf\n100 700 Td\n(Test PDF for compression) Tj\nET\nendstream\nendobj\n" +
    "\nxref\n0 5\n0000000000 65535 f \n0000000009 00000 n \n0000000058 00000 n \n0000000115 00000 n \n0000000206 00000 n \n" +
    "trailer\n<<\n/Size 5\n/Root 1 0 R\n>>\nstartxref\n300\n"
  const MinimalPdfText: string :=
    MinimalPdfHeader + MinimalPdfFirstObject + "endobj" + MinimalPdfRest + "%%EOF"

  /** The minimal document, encoded as the test script encodes it, passes
      the validator. */
  lemma MinimalPdfAccepted()
    ensures IsValidPDF(Latin1Bytes(MinimalPdfText))
  {
    var h, o, r := MinimalPdfHeader, MinimalPdfFirstObject, MinimalPdfRest;
    assert |h| == 5 && |o| == 46 && |r| == 412;
    var b := Latin1Bytes(MinimalPdfText);
    var d := AsciiDecode(b);
    Latin1AsciiConcat(h + o + "endobj" + r, "%%EOF");
    Latin1AsciiConcat(h + o + "endobj", r);
    Latin1AsciiConcat(h + o, "endobj");
    Latin1AsciiConcat(h, o);
    Latin1AsciiIdentity(h);
    Latin1AsciiIdentity("endobj");
    Latin1AsciiIdentity("%%EOF");
    var ro, rr := AsciiDecode(Latin1Bytes(o)), AsciiDecode(Latin1Bytes(r));
    assert d == h + ro + "endobj" + rr + "%%EOF";
    assert |d| == 474;
    AsciiDecodeSlice(b, 0, HeaderWindow);
    assert d[..HeaderWindow][..5] == h;
    AsciiDecodeSlice(b, |b| - TailWindow, |b|);
    assert TailText(b) == d[|d| - TailWindow..];
    assert d[|d| - TailWindow..][95..100] == "%%EOF";
    assert OccursAt(TailText(b), "%%EOF", 95);
    AsciiDecodeSlice(b, 0, |b|);
    assert d[51..57] == "endobj";
    assert OccursAt(StructureText(b), "endobj", 51);
  }
}
