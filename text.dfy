/**
 * Character classes and whitespace stripping as Python's `re` and `str` use them.
 *
 * Python decides `\w` and `str.isspace()` from the Unicode tables. The model does not
 * copy those tables: it takes the two classes as a parameter and relies only on the
 * facts that `CharClass.Valid` lists, so every property proved here holds for the real
 * tables as well.
 */
module Text {

  /** The two character classes the sanitiser and the registry loader consult. */
  datatype CharClass = CharClass(isWord: char -> bool, isSpace: char -> bool)
  {
    /** What the model assumes about Python's `\w` and whitespace classes. */
    predicate Valid() {
      && (forall c :: isWord(c) ==> !isSpace(c))
      && isWord('_')
      && isSpace(' ') && isSpace('\t') && isSpace('\n') && isSpace('\r')
    }
  }

  /** Drops the whitespace at the end of `s` (the right half of `str.strip()`). */
  function TrimEnd(cc: CharClass, s: string): (r: string)
    ensures |r| <= |s| && r == s[..|r|]
    ensures forall i :: |r| <= i < |s| ==> cc.isSpace(s[i])
    ensures r == [] || !cc.isSpace(r[|r| - 1])
    decreases |s|
  {
    if s != [] && cc.isSpace(s[|s| - 1]) then TrimEnd(cc, s[..|s| - 1]) else s
  }

  /** Drops the whitespace at the start of `s` (the left half of `str.strip()`). */
  function TrimStart(cc: CharClass, s: string): (r: string)
    ensures |r| <= |s| && r == s[|s| - |r|..]
    ensures forall i :: 0 <= i < |s| - |r| ==> cc.isSpace(s[i])
    ensures r == [] || !cc.isSpace(r[0])
    decreases |s|
  {
    if s != [] && cc.isSpace(s[0]) then TrimStart(cc, s[1..]) else s
  }

  /** Python's `s.strip()`: leading and trailing whitespace removed. */
  function Strip(cc: CharClass, s: string): (r: string)
    ensures |r| <= |s|
    ensures r == [] || (!cc.isSpace(r[0]) && !cc.isSpace(r[|r| - 1]))
  {
    TrimStart(cc, TrimEnd(cc, s))
  }

  /**
   * Strip keeps one contiguous slice `s[b..e]` of its input and removes only
   * whitespace on either side of it.
   */
  lemma StripSlice(cc: CharClass, s: string)
    ensures var e := |TrimEnd(cc, s)|;
            var b := e - |Strip(cc, s)|;
            && 0 <= b <= e <= |s|
            && Strip(cc, s) == s[b..e]
            && (forall i :: 0 <= i < b ==> cc.isSpace(s[i]))
            && (forall i :: e <= i < |s| ==> cc.isSpace(s[i]))
  {
    var t := TrimEnd(cc, s);
    var e := |t|;
    var b := e - |Strip(cc, s)|;
    assert t == s[..e];
    assert Strip(cc, s) == t[b..];
    assert t[b..] == s[b..e];
    forall i | 0 <= i < b ensures cc.isSpace(s[i]) {
      assert s[i] == t[i];
    }
  }

  /** Strip never introduces a character its input does not contain. */
  lemma StripOnlyRemoves(cc: CharClass, s: string, c: char)
    requires c !in s
    ensures c !in Strip(cc, s)
  {
    StripSlice(cc, s);
  }

  /** A string is left alone by Strip exactly when it has no surrounding whitespace. */
  lemma StripFixedIff(cc: CharClass, s: string)
    ensures Strip(cc, s) == s <==> (s == [] || (!cc.isSpace(s[0]) && !cc.isSpace(s[|s| - 1])))
  {
    if s != [] && !cc.isSpace(s[0]) && !cc.isSpace(s[|s| - 1]) {
      assert TrimEnd(cc, s) == s;
      assert TrimStart(cc, s) == s;
    }
  }

  /** Stripping twice is stripping once. */
  lemma StripIdempotent(cc: CharClass, s: string)
    ensures Strip(cc, Strip(cc, s)) == Strip(cc, s)
  {
    StripFixedIff(cc, Strip(cc, s));
  }

  /** A whitespace character appended at the end makes no difference to Strip. */
  lemma StripIgnoresTrailingSpace(cc: CharClass, s: string, c: char)
    requires cc.isSpace(c)
    ensures Strip(cc, s + [c]) == Strip(cc, s)
  {
    assert (s + [c])[..|s|] == s;
  }

  /**
   * A payload that one line of the registry file can hold and that comes back
   * unchanged from the stripping loader: no newline and no surrounding whitespace.
   */
  predicate Canonical(cc: CharClass, p: string) {
    '\n' !in p && (p == [] || (!cc.isSpace(p[0]) && !cc.isSpace(p[|p| - 1])))
  }

  /** The canonical payloads are exactly those without a newline that Strip leaves alone. */
  lemma CanonicalIff(cc: CharClass, p: string)
    ensures Canonical(cc, p) <==> '\n' !in p && Strip(cc, p) == p
  {
    StripFixedIff(cc, p);
  }
}
