/** `String.prototype.trim` of ECMAScript: removes white space and line
    terminators from both ends of a string. */
module JsString {

  /** The code points `trim` removes: the WhiteSpace production (tab, vertical
      tab, form feed, no-break space, byte order mark and every code point of
      category Zs) and the LineTerminator production (LF, CR, LS, PS). */
  predicate IsWhiteSpace(c: char) {
    || c == '\U{9}' || c == '\U{B}' || c == '\U{C}' || c == '\U{FEFF}'
    || c == ' ' || c == '\U{A0}' || c == '\U{1680}'
    || ('\U{2000}' <= c <= '\U{200A}')
    || c == '\U{202F}' || c == '\U{205F}' || c == '\U{3000}'
    || c == '\U{A}' || c == '\U{D}' || c == '\U{2028}' || c == '\U{2029}'
  }

  function TrimStart(s: string): string {
    if |s| > 0 && IsWhiteSpace(s[0]) then TrimStart(s[1..]) else s
  }

  function TrimEnd(s: string): string {
    if |s| > 0 && IsWhiteSpace(s[|s| - 1]) then TrimEnd(s[..|s| - 1]) else s
  }

  function Trim(s: string): string {
    TrimEnd(TrimStart(s))
  }

  /** `TrimStart` drops leading white space: the result is a suffix of `s`,
      everything dropped is white space, and the result does not start with
      white space. */
  lemma {:induction false} TrimStartSpec(s: string)
    decreases |s|
    ensures var r := TrimStart(s);
      && |r| <= |s| && r == s[|s| - |r|..]
      && (forall k :: 0 <= k < |s| - |r| ==> IsWhiteSpace(s[k]))
      && (r == [] || !IsWhiteSpace(r[0]))
  {
    if |s| > 0 && IsWhiteSpace(s[0]) {
      TrimStartSpec(s[1..]);
    }
  }

  /** `TrimEnd` drops trailing white space: the result is a prefix of `s`,
      everything dropped is white space, and the result does not end with
      white space. */
  lemma {:induction false} TrimEndSpec(s: string)
    decreases |s|
    ensures var r := TrimEnd(s);
      && |r| <= |s| && r == s[..|r|]
      && (forall k :: |r| <= k < |s| ==> IsWhiteSpace(s[k]))
      && (r == [] || !IsWhiteSpace(r[|r| - 1]))
  {
    if |s| > 0 && IsWhiteSpace(s[|s| - 1]) {
      TrimEndSpec(s[..|s| - 1]);
    }
  }

  /** A string trims to the empty string exactly when all of it is white space. */
  lemma TrimEmpty(s: string)
    ensures Trim(s) == "" <==> forall k :: 0 <= k < |s| ==> IsWhiteSpace(s[k])
  {
    var t := TrimStart(s);
    TrimStartSpec(s);
    TrimEndSpec(t);
    if t != [] {
      assert t[0] == s[|s| - |t|];
    }
  }

  /** A string that starts with `'#'` keeps its leading `'#'` when trimmed. */
  lemma TrimKeepsLeadingHash(s: string)
    requires |s| > 0 && s[0] == '#'
    ensures |Trim(s)| > 0 && Trim(s)[0] == '#'
  {
    assert TrimStart(s) == s;
    TrimEndSpec(s);
  }
}
