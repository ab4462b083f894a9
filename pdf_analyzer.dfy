/** `analyzePDF` (pdf-utils.js): a heuristic profile of a PDF built from
    substring tests over its first 10000 bytes, decoded as 'ascii', and a
    compression strategy chosen from its size. */
module PdfAnalyzer {
  import opened Wrappers
  import opened ByteText
  import opened JsText
  import opened PdfSize

  /** Only the first 10000 bytes are scanned. */
  const ScanWindow: nat := 10000

  datatype Strategy = Basic | Moderate | Aggressive | UltraAggressive

  /** How aggressive a strategy is, for comparing them. */
  function Rank(s: Strategy): nat
  {
    match s
    case Basic => 0
    case Moderate => 1
    case Aggressive => 2
    case UltraAggressive => 3
  }

  /** The analysis record; `version` is "unknown" when no version was found. */
  datatype Analysis = Analysis(
    size: real,
    pages: nat,
    hasImages: bool,
    hasAnnotations: bool,
    hasMetadata: bool,
    version: string,
    compressionStrategy: Strategy)

  /** The strategy bands: above 50 MB, above 25 MB, above 10 MB, the rest.
      Each bound belongs to the band below it. */
  function StrategyFor(sizeMB: real): (s: Strategy)
    ensures s == UltraAggressive <==> sizeMB > 50.0
    ensures s == Aggressive <==> 25.0 < sizeMB <= 50.0
    ensures s == Moderate <==> 10.0 < sizeMB <= 25.0
    ensures s == Basic <==> sizeMB <= 10.0
  {
    if sizeMB > 50.0 then UltraAggressive
    else if sizeMB > 25.0 then Aggressive
    else if sizeMB > 10.0 then Moderate
    else Basic
  }

  /** A larger size never gets a less aggressive strategy. */
  lemma StrategyMonotone(a: real, b: real)
    requires a <= b
    ensures Rank(StrategyFor(a)) <= Rank(StrategyFor(b))
  {
  }

  /** The scanned text: `toString('ascii', 0, min(length, 10000))`. */
  function ScanText(b: seq<Byte>): string
  {
    AsciiDecode(b[..Min(|b|, ScanWindow)])
  }

  predicate IsDigit(c: char) { '0' <= c <= '9' }

  /** Length of the run of decimal digits starting at `i` (`\d+` is greedy). */
  function DigitRun(t: string, i: nat): (n: nat)
    requires i <= |t|
    ensures i + n <= |t|
    ensures forall k :: i <= k < i + n ==> IsDigit(t[k])
    ensures i + n < |t| ==> !IsDigit(t[i + n])
  {
    var n := RunLength(t[i..], IsDigit);
    assert forall k :: i <= k < |t| ==> t[i..][k - i] == t[k];
    n
  }

  /** A version number: digits, a dot, digits. */
  predicate IsVersionNumber(v: string)
  {
    exists k | 0 < k < |v| - 1 ::
      v[k] == '.' && (forall j :: 0 <= j < |v| && j != k ==> IsDigit(v[j]))
  }

  /** The group captured by `/%PDF-(\d+\.\d+)/` for a match starting at `i`.
      A digit run cannot give back a digit to the dot, so the greedy runs
      are the only candidates. */
  function VersionAt(t: string, i: nat): (v: Option<string>)
    requires i <= |t|
    ensures v.Some? ==> IsVersionNumber(v.value)
  {
    if !OccursAt(t, "%PDF-", i) then None
    else
      var major := DigitRun(t, i + 5);
      var dot := i + 5 + major;
      if major == 0 || dot >= |t| || t[dot] != '.' then None
      else
        var minor := DigitRun(t, dot + 1);
        if minor == 0 then None
        else
          DigitsDotDigits(t, i + 5, major, minor);
          Some(t[i + 5..dot + 1 + minor])
  }

  /** Digits, a dot and digits make a version number. */
  lemma DigitsDotDigits(t: string, a: nat, major: nat, minor: nat)
    requires a + major + 1 + minor <= |t| && major > 0 && minor > 0
    requires forall k :: a <= k < a + major ==> IsDigit(t[k])
    requires t[a + major] == '.'
    requires forall k :: a + major + 1 <= k < a + major + 1 + minor ==> IsDigit(t[k])
    ensures IsVersionNumber(t[a..a + major + 1 + minor])
  {
    var v := t[a..a + major + 1 + minor];
    assert v[major] == '.';
    forall j | 0 <= j < |v| && j != major
      ensures IsDigit(v[j])
    {
      assert v[j] == t[a + j];
    }
  }

  /** `%PDF-(\d+\.\d+)` matches at `i` with the group ending at `j`. */
  predicate VersionMatch(t: string, i: nat, j: nat)
  {
    OccursAt(t, "%PDF-", i) && i + 5 <= j <= |t| && IsVersionNumber(t[i + 5..j])
  }

  /** In a version number starting at `a` the dot follows the leading digit
      run, and only digits follow the dot. */
  lemma VersionNumberSplit(t: string, a: nat, j: nat)
    requires a <= j <= |t| && IsVersionNumber(t[a..j])
    ensures var dot := a + DigitRun(t, a);
      a < dot < j - 1 && t[dot] == '.' && forall k :: dot < k < j ==> IsDigit(t[k])
  {
    var v := t[a..j];
    var k :| 0 < k < |v| - 1 && v[k] == '.' && (forall m :: 0 <= m < |v| && m != k ==> IsDigit(v[m]));
    assert forall m :: 0 <= m < |v| ==> v[m] == t[a + m];
  }

  /** `VersionAt` is the regular expression's match at `i`: there is one
      exactly when some group end fits, and the group taken is the longest. */
  lemma VersionAtIsGreedyMatch(t: string, i: nat)
    requires i <= |t|
    ensures VersionAt(t, i).Some? <==> exists j :: VersionMatch(t, i, j)
    ensures VersionAt(t, i).Some? ==>
      var j := i + 5 + |VersionAt(t, i).value|;
      && VersionMatch(t, i, j) && VersionAt(t, i).value == t[i + 5..j]
      && forall j' :: j < j' <= |t| ==> !VersionMatch(t, i, j')
  {
    var v := VersionAt(t, i);
    if v.Some? {
      var j := i + 5 + |v.value|;
      assert VersionMatch(t, i, j);
      forall j' | j < j' <= |t| ensures !VersionMatch(t, i, j') {
        if VersionMatch(t, i, j') {
          VersionNumberSplit(t, i + 5, j');
        }
      }
    } else {
      forall j | VersionMatch(t, i, j) ensures false {
        VersionNumberSplit(t, i + 5, j);
      }
    }
  }

  /** `k` is the leftmost position at or after `from` where the version
      pattern matches. */
  predicate LeftmostVersion(t: string, from: nat, k: nat)
  {
    from <= k <= |t| && VersionAt(t, k).Some? && forall j :: from <= j < k ==> VersionAt(t, j).None?
  }

  /** `content.match(/%PDF-(\d+\.\d+)/)`: the leftmost match at or after `from`. */
  function FindVersion(t: string, from: nat): (v: Option<string>)
    requires from <= |t|
    ensures v.None? <==> forall k :: from <= k <= |t| ==> VersionAt(t, k).None?
    ensures v.Some? ==> exists k :: LeftmostVersion(t, from, k) && v == VersionAt(t, k)
    decreases |t| - from
  {
    if VersionAt(t, from).Some? then VersionAt(t, from)
    else if from == |t| then None
    else FindVersion(t, from + 1)
  }

  /** Length of the white-space run starting at `i` (`\s*` is greedy). */
  function SpaceRun(t: string, i: nat): (n: nat)
    requires i <= |t|
    ensures i + n <= |t|
    ensures forall k :: i <= k < i + n ==> IsJsSpace(t[k])
    ensures i + n < |t| ==> !IsJsSpace(t[i + n])
  {
    var n := RunLength(t[i..], IsJsSpace);
    assert forall k :: i <= k < |t| ==> t[i..][k - i] == t[k];
    n
  }

  /** `/\/Type\s*\/Page[^s]/` matches at `i` with `w` white-space
      characters between the two names. */
  predicate PageMatchAt(t: string, i: nat, w: nat)
  {
    && OccursAt(t, "/Type", i)
    && i + 5 + w <= |t| && (forall k :: i + 5 <= k < i + 5 + w ==> IsJsSpace(t[k]))
    && OccursAt(t, "/Page", i + 5 + w)
    && i + w + 10 < |t| && t[i + w + 10] != 's'
  }

  /** Length of a match of `/\/Type\s*\/Page[^s]/` starting at `i`, or 0
      when there is none. `[^s]` takes any one character but `s`. */
  function PageMatchLength(t: string, i: nat): (n: nat)
    requires i <= |t|
    ensures n == 0 || (n >= 11 && i + n <= |t| && PageMatchAt(t, i, n - 11))
  {
    if !OccursAt(t, "/Type", i) then 0
    else
      var p := i + 5 + SpaceRun(t, i + 5);
      if !OccursAt(t, "/Page", p) || p + 5 >= |t| || t[p + 5] == 's' then 0
      else p + 6 - i
  }

  /** Every match at `i` is found, with its length: the white space before
      `/Page` cannot be cut short, because `/` is not white space. */
  lemma PageMatchFound(t: string, i: nat, w: nat)
    requires i <= |t| && PageMatchAt(t, i, w)
    ensures PageMatchLength(t, i) == 11 + w
  {
    var run := SpaceRun(t, i + 5);
    assert t[i + 5 + w] == t[i + 5 + w..i + 10 + w][0] == '/';
  }

  /** Number of matches of `/\/Type\s*\/Page[^s]/g` at or after `from`: a
      global match resumes after the end of the previous one. There is none
      exactly when no position matches; each takes at least eleven
      characters. */
  function CountPages(t: string, from: nat): (n: nat)
    requires from <= |t|
    ensures n == 0 <==> forall p :: from <= p < |t| ==> PageMatchLength(t, p) == 0
    ensures n * 11 <= |t| - from
    decreases |t| - from
  {
    if from == |t| then 0
    else
      var m := PageMatchLength(t, from);
      if m > 0 then 1 + CountPages(t, from + m)
      else CountPages(t, from + 1)
  }

  /** `analyzePDF(pdfBuffer)`. The catch branch of the source, which returns
      the same record with every field at its default, is not reachable. */
  function AnalyzePDF(b: seq<Byte>): (a: Analysis)
    ensures a.size * BytesPerMB as real == |b| as real
    ensures a.compressionStrategy == UltraAggressive <==> |b| > 50 * BytesPerMB
    ensures a.compressionStrategy == Aggressive <==> 25 * BytesPerMB < |b| <= 50 * BytesPerMB
    ensures a.compressionStrategy == Moderate <==> 10 * BytesPerMB < |b| <= 25 * BytesPerMB
    ensures a.compressionStrategy == Basic <==> |b| <= 10 * BytesPerMB
    ensures a.pages == 0 <==> forall p :: 0 <= p < |ScanText(b)| ==> PageMatchLength(ScanText(b), p) == 0
    ensures a.pages * 11 <= Min(|b|, ScanWindow)
  {
    var content := ScanText(b);
    var size := GetBufferSizeMB(b);
    var version := FindVersion(content, 0);
    Analysis(
      size := size,
      pages := CountPages(content, 0),
      hasImages := Contains(content, "/Image") || Contains(content, "/XObject"),
      hasAnnotations := Contains(content, "/Annot"),
      hasMetadata := Contains(content, "/Info") || Contains(content, "/Metadata"),
      version := if version.Some? then version.value else "unknown",
      compressionStrategy := StrategyFor(size))
  }

  /** A longer buffer never gets a less aggressive strategy. */
  lemma AnalysisStrategyMonotone(a: seq<Byte>, b: seq<Byte>)
    requires |a| <= |b|
    ensures Rank(AnalyzePDF(a).compressionStrategy) <= Rank(AnalyzePDF(b).compressionStrategy)
  {
    StrategyMonotone(GetBufferSizeMB(a), GetBufferSizeMB(b));
  }

  /** Everything but size and strategy is read from the first 10000 bytes:
      bytes appended to a buffer of at least that length change none of it. */
  lemma AnalysisSeesOnlyScanWindow(b: seq<Byte>, extra: seq<Byte>)
    requires |b| >= ScanWindow
    ensures var x, y := AnalyzePDF(b), AnalyzePDF(b + extra);
      x.pages == y.pages && x.hasImages == y.hasImages && x.hasAnnotations == y.hasAnnotations &&
      x.hasMetadata == y.hasMetadata && x.version == y.version
  {
    assert (b + extra)[..ScanWindow] == b[..ScanWindow];
  }

  /** The version is "unknown" exactly when no `%PDF-<digits>.<digits>`
      occurs in the scanned text; otherwise it is the number of the leftmost
      occurrence. */
  lemma VersionUnknownOrNumber(b: seq<Byte>)
    ensures var v := AnalyzePDF(b).version;
      v == "unknown" || IsVersionNumber(v)
    ensures (forall k :: 0 <= k <= |ScanText(b)| ==> VersionAt(ScanText(b), k).None?) ==>
      AnalyzePDF(b).version == "unknown"
    ensures var t, v := ScanText(b), AnalyzePDF(b).version;
      v != "unknown" ==> exists k :: LeftmostVersion(t, 0, k) && VersionAt(t, k) == Some(v)
  {
    var t := ScanText(b);
    var v := FindVersion(t, 0);
    UnknownIsNotAVersion();
    if v.Some? {
      var k :| LeftmostVersion(t, 0, k) && v == VersionAt(t, k);
    }
  }

  /** "unknown" is not itself a version number, so the two cases never mix. */
  lemma UnknownIsNotAVersion()
    ensures !IsVersionNumber("unknown")
  {
    assert !IsDigit("unknown"[0]);
  }
}
