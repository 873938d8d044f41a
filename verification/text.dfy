/**
 * The two string built-ins the assembler relies on: `str.strip()` with no
 * argument and `str.lower()`.
 */
module Text {

  /**
   * The characters `str.isspace()` accepts: the ASCII controls TAB, LF, VT,
   * FF, CR, the separators FS, GS, RS, US, SPACE, and the Unicode white space
   * NEL, NBSP, OGHAM SPACE MARK, EN QUAD .. HAIR SPACE, LINE and PARAGRAPH
   * SEPARATOR, NARROW NBSP, MEDIUM MATHEMATICAL SPACE and IDEOGRAPHIC SPACE.
   */
  predicate IsSpace(c: char) {
    || '\t' <= c <= '\r'
    || '\U{1c}' <= c <= ' '
    || c == '\U{85}' || c == '\U{a0}' || c == '\U{1680}'
    || '\U{2000}' <= c <= '\U{200a}'
    || c == '\U{2028}' || c == '\U{2029}' || c == '\U{202f}' || c == '\U{205f}'
    || c == '\U{3000}'
  }

  /** Removes the leading white space. */
  function TrimStart(s: string): string {
    if s != [] && IsSpace(s[0]) then TrimStart(s[1..]) else s
  }

  /** Removes the trailing white space. */
  function TrimEnd(s: string): string {
    if s != [] && IsSpace(s[|s| - 1]) then TrimEnd(s[..|s| - 1]) else s
  }

  /** `s.strip()`. */
  function Strip(s: string): string {
    TrimEnd(TrimStart(s))
  }

  /** What `TrimStart` leaves is a suffix that starts with a non-space, everything before it being white space. */
  lemma {:induction false} TrimStartShape(s: string)
    ensures var r := TrimStart(s);
      && |r| <= |s| && r == s[|s| - |r|..]
      && (forall k :: 0 <= k < |s| - |r| ==> IsSpace(s[k]))
      && (r != [] ==> !IsSpace(r[0]))
  {
    if s != [] && IsSpace(s[0]) {
      TrimStartShape(s[1..]);
      LeadingSpaceExtends(s, TrimStart(s[1..]));
    }
  }

  /** A suffix of `s[1..]` preceded there by white space only is preceded by white space only in `s` too, when `s[0]` is white space. */
  lemma LeadingSpaceExtends(s: string, r: string)
    requires s != [] && IsSpace(s[0])
    requires |r| <= |s| - 1 && r == s[1..][|s| - 1 - |r|..]
    requires forall k :: 0 <= k < |s| - 1 - |r| ==> IsSpace(s[1..][k])
    ensures r == s[|s| - |r|..]
    ensures forall k :: 0 <= k < |s| - |r| ==> IsSpace(s[k])
  {
    forall k | 0 < k < |s| - |r|
      ensures IsSpace(s[k])
    {
      assert s[k] == s[1..][k - 1];
    }
  }

  /** What `TrimEnd` leaves is a prefix that ends with a non-space, everything after it being white space. */
  lemma {:induction false} TrimEndShape(s: string)
    ensures var r := TrimEnd(s);
      && |r| <= |s| && r == s[..|r|]
      && (forall k :: |r| <= k < |s| ==> IsSpace(s[k]))
      && (r != [] ==> !IsSpace(r[|r| - 1]))
  {
    if s != [] && IsSpace(s[|s| - 1]) {
      TrimEndShape(s[..|s| - 1]);
    }
  }

  /**
   * `s.strip()` is the infix of `s` left once the white space at both ends
   * is removed: it neither starts nor ends with white space, and everything
   * around it in `s` is white space.
   */
  lemma StripShape(s: string)
    ensures var r, lead := Strip(s), |s| - |TrimStart(s)|;
      && 0 <= lead <= lead + |r| <= |s|
      && r == s[lead..lead + |r|]
      && (forall k :: 0 <= k < lead ==> IsSpace(s[k]))
      && (forall k :: lead + |r| <= k < |s| ==> IsSpace(s[k]))
      && (r != [] ==> !IsSpace(r[0]) && !IsSpace(r[|r| - 1]))
  {
    TrimStartShape(s);
    TrimEndShape(TrimStart(s));
  }

  /** Stripping twice is stripping once. */
  lemma StripIdempotent(s: string)
    ensures Strip(Strip(s)) == Strip(s)
  {
    var r := Strip(s);
    StripShape(s);
    if r != [] {
      assert TrimStart(r) == r;
      assert TrimEnd(r) == r;
    }
  }

  /** Text that neither starts nor ends with white space is left as it is. */
  lemma StripKeepsTrimmed(s: string)
    requires s != [] ==> !IsSpace(s[0]) && !IsSpace(s[|s| - 1])
    ensures Strip(s) == s
  {
    assert TrimStart(s) == s;
  }

  /** An ASCII capital letter becomes its small letter; every other character is kept. */
  function LowerChar(c: char): char {
    if 'A' <= c <= 'Z' then (c as int - 'A' as int + 'a' as int) as char else c
  }

  /** `s.lower()` on ASCII letters; every other character is kept. */
  function Lower(s: string): string {
    if s == [] then [] else [LowerChar(s[0])] + Lower(s[1..])
  }

  /** `Lower` works character by character: the same length, each character lowered on its own, and no capital letter left. */
  lemma {:induction false} LowerShape(s: string)
    ensures |Lower(s)| == |s|
    ensures forall k :: 0 <= k < |s| ==> Lower(s)[k] == LowerChar(s[k]) && !('A' <= Lower(s)[k] <= 'Z')
  {
    if s != [] {
      LowerShape(s[1..]);
      assert forall k :: 1 <= k < |s| ==> Lower(s)[k] == Lower(s[1..])[k - 1];
    }
  }

  /** Lowering twice is lowering once. */
  lemma LowerIdempotent(s: string)
    ensures Lower(Lower(s)) == Lower(s)
  {
    LowerShape(s);
    LowerShape(Lower(s));
  }
}
