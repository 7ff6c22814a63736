/** `String.prototype.trim`, which `savePrompt` applies to the text and the image URL
    before it checks them for emptiness. */
module Text {

  /** The characters ECMAScript's `trim` removes: WhiteSpace (tab, vertical tab, form feed,
      zero-width no-break space and every space separator of Unicode category Zs) and
      LineTerminator (line feed, carriage return, line and paragraph separators). */
  predicate IsJsWhitespace(c: char) {
    var n := c as int;
    || n == 0x09 || n == 0x0A || n == 0x0B || n == 0x0C || n == 0x0D
    || n == 0x20 || n == 0xA0 || n == 0x1680
    || (0x2000 <= n <= 0x200A)
    || n == 0x2028 || n == 0x2029 || n == 0x202F || n == 0x205F
    || n == 0x3000 || n == 0xFEFF
  }

  /** The number of white-space characters at the start of `s`. */
  function LeadingSpace(s: string): (n: nat)
    ensures n <= |s|
    ensures forall i :: 0 <= i < n ==> IsJsWhitespace(s[i])
    ensures n < |s| ==> !IsJsWhitespace(s[n])
  {
    if s != [] && IsJsWhitespace(s[0]) then 1 + LeadingSpace(s[1..]) else 0
  }

  /** The number of white-space characters at the end of `s`. */
  function TrailingSpace(s: string): (n: nat)
    ensures n <= |s|
    ensures forall i :: |s| - n <= i < |s| ==> IsJsWhitespace(s[i])
    ensures n < |s| ==> !IsJsWhitespace(s[|s| - n - 1])
  {
    if s != [] && IsJsWhitespace(s[|s| - 1]) then 1 + TrailingSpace(s[..|s| - 1]) else 0
  }

  /** `s.trim()`: the part of `s` between its leading and its trailing white space. */
  function Trim(s: string): string {
    var a := LeadingSpace(s);
    if a == |s| then [] else s[a..|s| - TrailingSpace(s)]
  }

  /** The trimmed text is the middle of `s` between two runs of white space, and it neither
      starts nor ends with white space. */
  lemma TrimSpec(s: string)
    ensures var a := LeadingSpace(s);
      && a + |Trim(s)| <= |s|
      && Trim(s) == s[a..a + |Trim(s)|]
      && (forall i :: 0 <= i < a ==> IsJsWhitespace(s[i]))
      && (forall i :: a + |Trim(s)| <= i < |s| ==> IsJsWhitespace(s[i]))
      && (Trim(s) != [] ==> !IsJsWhitespace(Trim(s)[0]) && !IsJsWhitespace(Trim(s)[|Trim(s)| - 1]))
  {
    TrimInfix(s);
    TrimTail(s);
    TrimEdges(s);
  }

  /** Where the trimmed text sits in `s`. */
  lemma TrimInfix(s: string)
    ensures LeadingSpace(s) + |Trim(s)| <= |s|
    ensures Trim(s) == s[LeadingSpace(s)..LeadingSpace(s) + |Trim(s)|]
  {
  }

  /** Everything after the trimmed text is white space. */
  lemma TrimTail(s: string)
    ensures LeadingSpace(s) + |Trim(s)| <= |s|
    ensures forall i :: LeadingSpace(s) + |Trim(s)| <= i < |s| ==> IsJsWhitespace(s[i])
  {
  }

  /** The trimmed text neither starts nor ends with white space. */
  lemma TrimEdges(s: string)
    ensures Trim(s) != [] ==> !IsJsWhitespace(Trim(s)[0]) && !IsJsWhitespace(Trim(s)[|Trim(s)| - 1])
  {
    var a := LeadingSpace(s);
    if a < |s| {
      var r := Trim(s);
      assert r[0] == s[a];
      assert r[|r| - 1] == s[|s| - TrailingSpace(s) - 1];
    }
  }

  /** The trimmed text is empty exactly when `s` is white space throughout; this is the
      check that rejects an empty prompt or image URL. */
  lemma TrimEmptyIff(s: string)
    ensures Trim(s) == [] <==> forall i :: 0 <= i < |s| ==> IsJsWhitespace(s[i])
  {
    TrimSpec(s);
  }
}
