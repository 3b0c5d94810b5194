/** The two pieces of JavaScript string semantics the watchlist logic relies on:
    truthiness of an optional string, and `String.prototype.trim`. */
module JsText {
  import opened Wrappers

  /** A possibly-undefined string is truthy when it is defined and non-empty. */
  predicate Truthy(v: Option<string>) {
    v.Some? && v.value != ""
  }

  /** The characters `trim` strips: ECMAScript WhiteSpace (tab, vertical tab,
      form feed, space, no-break space, byte-order mark and the Unicode space
      separators) and LineTerminator (line feed, carriage return, line and
      paragraph separators). */
  predicate IsWhitespace(c: char) {
    var n := c as int;
    || n == 0x09 || n == 0x0B || n == 0x0C || n == 0x20 || n == 0xA0 || n == 0xFEFF
    || n == 0x1680 || (0x2000 <= n <= 0x200A) || n == 0x202F || n == 0x205F || n == 0x3000
    || n == 0x0A || n == 0x0D || n == 0x2028 || n == 0x2029
  }

  predicate AllWhitespace(s: string) {
    forall k :: 0 <= k < |s| ==> IsWhitespace(s[k])
  }

  /** Index of the first non-whitespace character (|s| if there is none). */
  function LeadingEnd(s: string): (i: nat)
    ensures i <= |s|
    ensures forall k :: 0 <= k < i ==> IsWhitespace(s[k])
    ensures i < |s| ==> !IsWhitespace(s[i])
  {
    if s == [] || !IsWhitespace(s[0]) then 0
    else
      var rest := LeadingEnd(s[1..]);
      1 + rest
  }

  /** One past the last non-whitespace character (0 if there is none). */
  function TrailingStart(s: string): (j: nat)
    ensures j <= |s|
    ensures AllWhitespace(s[j..])
    ensures j > 0 ==> !IsWhitespace(s[j - 1])
  {
    if s == [] || !IsWhitespace(s[|s| - 1]) then |s|
    else
      var rest := TrailingStart(s[..|s| - 1]);
      assert s[rest..] == s[..|s| - 1][rest..] + [s[|s| - 1]];
      rest
  }

  /** `String.prototype.trim`: the input with leading and trailing whitespace
      removed. */
  function Trim(s: string): (r: string)
    ensures |r| <= |s|
    ensures r == [] <==> AllWhitespace(s)
    ensures r != [] ==> !IsWhitespace(r[0]) && !IsWhitespace(r[|r| - 1])
    ensures exists i :: 0 <= i <= |s| - |r| && r == s[i..i + |r|]
                        && AllWhitespace(s[..i]) && AllWhitespace(s[i + |r|..])
  {
    var i := LeadingEnd(s);
    var j := TrailingStart(s);
    if i < j then
      assert AllWhitespace(s[..i]);
      s[i..j]
    else
      // A non-whitespace character at i would lie inside the all-whitespace
      // suffix s[j..], so the leading run covers the whole string.
      assert i == |s|;
      assert s[..i] == s;
      assert s[0..0] == [];
      []
  }

  /** Trimming an already trimmed string changes nothing. */
  lemma TrimIsIdempotent(s: string)
    ensures Trim(Trim(s)) == Trim(s)
  {
  }
}
