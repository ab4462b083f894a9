/** `compressPDFToTarget` (pdf-utils.js): up to four stages that shrink a PDF
    until it fits a size target. The pdf-lib recompression `compressPDF` is a
    parameter: it is total, because it returns its input whenever pdf-lib
    fails, so the per-stage error branches of the source never run. */
module PdfPipeline {
  import opened ByteText
  import opened PdfSize
  import opened PdfValidator
  import opened ByteOptimizer

  /** The options object passed to `compressPDF`, with its defaults filled in. */
  datatype CompressOptions = CompressOptions(
    removeAnnotations: bool,
    removeMetadata: bool,
    optimizeStructure: bool,
    compressImages: bool,
    imageQuality: nat,
    maxImageWidth: nat,
    maxImageHeight: nat)

  /** Stage 1: quality 70, default image bounds 1200 x 1600. */
  const Stage1Options: CompressOptions := CompressOptions(true, true, true, true, 70, 1200, 1600)
  /** Stage 2: quality 50, images bounded by 1000 x 1400. */
  const Stage2Options: CompressOptions := CompressOptions(true, true, true, true, 50, 1000, 1400)
  /** Stage 4: quality 30, images bounded by 800 x 1000. */
  const Stage4Options: CompressOptions := CompressOptions(true, true, true, true, 30, 800, 1000)

  /** `compressPDF(buffer, options)`. */
  type Compressor = (seq<Byte>, CompressOptions) -> seq<Byte>

  /** Where the returned buffer comes from. */
  datatype Stage = AlreadySmall | FirstPass | SecondPass | BufferOptimization | LastResort

  /** Stage 1 recompresses the original. */
  function FirstPassOutput(compress: Compressor, pdf: seq<Byte>): seq<Byte>
  {
    compress(pdf, Stage1Options)
  }

  /** Stage 2 recompresses stage 1's output. */
  function SecondPassOutput(compress: Compressor, pdf: seq<Byte>): seq<Byte>
  {
    compress(FirstPassOutput(compress, pdf), Stage2Options)
  }

  /** Stage 3 keeps the optimiser's output only when it is strictly smaller
      than its input and passes the validator. */
  predicate OptimizerAccepted(current: seq<Byte>)
  {
    GetBufferSizeMB(Optimized(current)) < GetBufferSizeMB(current) && IsValidPDF(Optimized(current))
  }

  /** The buffer after stage 3. */
  function ThirdStageOutput(compress: Compressor, pdf: seq<Byte>): seq<Byte>
  {
    var s2 := SecondPassOutput(compress, pdf);
    if OptimizerAccepted(s2) then Optimized(s2) else s2
  }

  /** Stage 4 recompresses the original, not the best buffer so far. */
  function LastResortOutput(compress: Compressor, pdf: seq<Byte>): seq<Byte>
  {
    compress(pdf, Stage4Options)
  }

  /** The stage whose buffer is returned. */
  function FinalStage(compress: Compressor, pdf: seq<Byte>, target: real): (st: Stage)
    ensures st == AlreadySmall <==> GetBufferSizeMB(pdf) <= target
    ensures st == FirstPass <==>
      GetBufferSizeMB(pdf) > target && GetBufferSizeMB(FirstPassOutput(compress, pdf)) <= target
    ensures st == LastResort <==>
      && GetBufferSizeMB(pdf) > target
      && GetBufferSizeMB(FirstPassOutput(compress, pdf)) > target
      && GetBufferSizeMB(SecondPassOutput(compress, pdf)) > target
      && GetBufferSizeMB(ThirdStageOutput(compress, pdf)) > target
  {
    if GetBufferSizeMB(pdf) <= target then AlreadySmall
    else if GetBufferSizeMB(FirstPassOutput(compress, pdf)) <= target then FirstPass
    else if GetBufferSizeMB(SecondPassOutput(compress, pdf)) <= target then SecondPass
    else if GetBufferSizeMB(ThirdStageOutput(compress, pdf)) <= target then BufferOptimization
    else LastResort
  }

  /** The buffer a stage hands back. */
  function StageOutput(compress: Compressor, pdf: seq<Byte>, st: Stage): seq<Byte>
  {
    match st
    case AlreadySmall => pdf
    case FirstPass => FirstPassOutput(compress, pdf)
    case SecondPass => SecondPassOutput(compress, pdf)
    case BufferOptimization => ThirdStageOutput(compress, pdf)
    case LastResort => LastResortOutput(compress, pdf)
  }

  /** `compressPDFToTarget(pdfBuffer, targetSizeMB = 25)`. */
  method CompressPDFToTarget(compress: Compressor, pdfBuffer: seq<Byte>, targetSizeMB: real := 25.0)
    returns (result: seq<Byte>)
    ensures result == StageOutput(compress, pdfBuffer, FinalStage(compress, pdfBuffer, targetSizeMB))
    ensures GetBufferSizeMB(pdfBuffer) <= targetSizeMB ==> result == pdfBuffer
    ensures GetBufferSizeMB(result) <= targetSizeMB || result == compress(pdfBuffer, Stage4Options)
  {
    var compressedBuffer := pdfBuffer;
    var currentSizeMB := GetBufferSizeMB(compressedBuffer);
    if currentSizeMB <= targetSizeMB {
      return compressedBuffer;
    }

    // Stage 1
    compressedBuffer := compress(pdfBuffer, Stage1Options);
    currentSizeMB := GetBufferSizeMB(compressedBuffer);
    if currentSizeMB <= targetSizeMB {
      return compressedBuffer;
    }

    // Stage 2
    if currentSizeMB > targetSizeMB {
      compressedBuffer := compress(compressedBuffer, Stage2Options);
      currentSizeMB := GetBufferSizeMB(compressedBuffer);
      if currentSizeMB <= targetSizeMB {
        return compressedBuffer;
      }
    }

    // Stage 3
    if currentSizeMB > targetSizeMB {
      var optimizedBuffer := AdvancedBufferOptimization(compressedBuffer);
      var optimizedSizeMB := GetBufferSizeMB(optimizedBuffer);
      if optimizedSizeMB < currentSizeMB && IsValidPDF(optimizedBuffer) {
        compressedBuffer := optimizedBuffer;
        currentSizeMB := optimizedSizeMB;
      }
    }

    // Stage 4
    if currentSizeMB > targetSizeMB {
      compressedBuffer := compress(pdfBuffer, Stage4Options);
      currentSizeMB := GetBufferSizeMB(compressedBuffer);
    }
    return compressedBuffer;
  }

  /** The result is the input or one of the four stage outputs; every stage
      but the last meets the target; the optimiser's buffer is returned only
      when it is a valid PDF strictly shorter than stage 2's output; and the
      last resort is returned whatever its size. */
  lemma StagedOutcome(compress: Compressor, pdf: seq<Byte>, target: real)
    ensures var st := FinalStage(compress, pdf, target);
      var out := StageOutput(compress, pdf, st);
      && (out == pdf || out == FirstPassOutput(compress, pdf) || out == SecondPassOutput(compress, pdf) ||
          out == Optimized(SecondPassOutput(compress, pdf)) || out == LastResortOutput(compress, pdf))
      && (st != LastResort ==> GetBufferSizeMB(out) <= target)
      && (st == BufferOptimization && out != SecondPassOutput(compress, pdf) ==>
            IsValidPDF(out) && |out| < |SecondPassOutput(compress, pdf)|)
      && (st == LastResort ==> out == compress(pdf, Stage4Options))
  {
    var s2 := SecondPassOutput(compress, pdf);
    if OptimizerAccepted(s2) {
      SizeOrderIsLengthOrder(Optimized(s2), s2);
    }
  }

  /** A buffer produced by stage 3 reads as starting with `%`. */
  lemma OptimizerOutputStartsLikePdf(compress: Compressor, pdf: seq<Byte>, target: real)
    requires FinalStage(compress, pdf, target) == BufferOptimization
    requires OptimizerAccepted(SecondPassOutput(compress, pdf))
    ensures var out := StageOutput(compress, pdf, BufferOptimization);
      out[0] == Percent || out[0] == Percent + 128
  {
    FirstByteMustReadAsPercent(Optimized(SecondPassOutput(compress, pdf)));
  }

  /** The comment-stripping rewrite deletes a leading `%` line, so it passes
      the validator only when its first byte is 0xA5, which the validator's
      'ascii' decoding reads as `%`. */
  lemma StrippedPassesOnlyWithMaskedPercent(b: seq<Byte>)
    requires IsValidPDF(StripCommentLines(b, true))
    ensures StripCommentLines(b, true)[0] == 165
  {
    StripNeverStartsWithPercent(b);
    FirstByteMustReadAsPercent(StripCommentLines(b, true));
  }

  /** The last resort is not compared with anything: with a recompression
      that only grows buffers at quality 30, the result is longer than the
      input. */
  lemma LastResortCanGrow()
    ensures var grow: Compressor := (b: seq<Byte>, o: CompressOptions) => if o == Stage4Options then b + [0] else b;
      var pdf: seq<Byte> := [65, 65];
      |StageOutput(grow, pdf, FinalStage(grow, pdf, 0.0))| > |pdf|
  {
    var grow: Compressor := (b: seq<Byte>, o: CompressOptions) => if o == Stage4Options then b + [0] else b;
    var pdf: seq<Byte> := [65, 65];
    assert Stage1Options != Stage4Options && Stage2Options != Stage4Options;
    assert SecondPassOutput(grow, pdf) == pdf;
    assert !IsValidPDF(Optimized(pdf));
    assert FinalStage(grow, pdf, 0.0) == LastResort;
  }
}
