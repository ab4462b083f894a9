/** The JavaScript string primitives the message handler relies on:
    the `\s` character class and `String.prototype.trim`. */
module JsText {

  /** ECMAScript WhiteSpace and LineTerminator code points: what `\s`
      matches and what `trim` removes. */
  predicate IsJsSpace(c: char)
  {
    var n := c as int;
    || (9 <= n <= 13)            // tab, line feed, vertical tab, form feed, carriage return
    || n == 0x20 || n == 0xA0    // space, no-break space
    || n == 0x1680 || (0x2000 <= n <= 0x200A) || n == 0x202F || n == 0x205F || n == 0x3000
    || n == 0x2028 || n == 0x2029  // line and paragraph separators
    || n == 0xFEFF               // byte order mark
  }

  /** The text without its leading white space. */
  function TrimStart(s: string): (r: string)
    ensures |r| <= |s| && r == s[|s| - |r|..]
    ensures r == [] || !IsJsSpace(r[0])
    ensures forall i :: 0 <= i < |s| - |r| ==> IsJsSpace(s[i])
  {
    if s == [] then []
    else if IsJsSpace(s[0]) then TrimStart(s[1..])
    else s
  }

  /** The text without its trailing white space. */
  function TrimEnd(s: string): (r: string)
    ensures |r| <= |s| && r == s[..|r|]
    ensures r == [] || !IsJsSpace(r[|r| - 1])
    ensures forall i :: |r| <= i < |s| ==> IsJsSpace(s[i])
  {
    if s == [] then []
    else if IsJsSpace(s[|s| - 1]) then TrimEnd(s[..|s| - 1])
    else s
  }

  /** `s.trim()`. */
  function Trim(s: string): string
  {
    TrimEnd(TrimStart(s))
  }

  /** A text trims to the empty string exactly when it is all white space. */
  lemma TrimEmptyIffBlank(s: string)
    ensures Trim(s) == [] <==> forall i :: 0 <= i < |s| ==> IsJsSpace(s[i])
  {
    var t := TrimStart(s);
    if t != [] {
      assert !IsJsSpace(s[|s| - |t|]);
    }
  }

  /** A trimmed non-empty text starts with the first non-white character. */
  lemma TrimStartsAtFirstNonSpace(s: string, k: nat)
    requires k < |s| && !IsJsSpace(s[k])
    requires forall i :: 0 <= i < k ==> IsJsSpace(s[i])
    ensures Trim(s) != [] && Trim(s)[0] == s[k]
  {
    var t := TrimStart(s);
    assert t[0] == s[|s| - |t|];
  }
}
