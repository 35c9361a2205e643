/**
 * `sanitize_filename`: the three-step transform that turns an attendee's name into
 * the stem of the image file name.
 */
module Sanitizer {
  import opened Text

  /** True of the characters the pattern `[^\w\s]` does not match, so `re.sub` keeps them. */
  predicate Kept(cc: CharClass, c: char) {
    cc.isWord(c) || cc.isSpace(c)
  }

  /**
   * `re.sub(r'[^\w\s]', '', s)`: every character that is neither a word character
   * nor whitespace is deleted. The kept characters keep their counts.
   */
  function KeepWordAndSpace(cc: CharClass, s: string): (r: string)
    ensures |r| <= |s|
    ensures forall i :: 0 <= i < |r| ==> Kept(cc, r[i])
    decreases |s|
  {
    if s == [] then []
    else if Kept(cc, s[0]) then [s[0]] + KeepWordAndSpace(cc, s[1..])
    else KeepWordAndSpace(cc, s[1..])
  }

  /** `s.replace(" ", "_")`: each space on its own becomes an underscore; nothing else changes. */
  function ReplaceSpaces(s: string): (r: string)
    ensures |r| == |s|
    ensures forall i :: 0 <= i < |s| ==> r[i] == if s[i] == ' ' then '_' else s[i]
  {
    if s == [] then []
    else [if s[0] == ' ' then '_' else s[0]] + ReplaceSpaces(s[1..])
  }

  /** `sanitize_filename(name)` (main.py:24-25). */
  function Sanitize(cc: CharClass, name: string): string {
    ReplaceSpaces(Strip(cc, KeepWordAndSpace(cc, name)))
  }

  /**
   * The filter only deletes: every character it keeps occurs as often as in the
   * input, and the characters it deletes are exactly those neither word nor space.
   */
  lemma {:induction false} KeepCounts(cc: CharClass, s: string)
    ensures multiset(KeepWordAndSpace(cc, s)) <= multiset(s)
    ensures forall c :: Kept(cc, c) ==> multiset(KeepWordAndSpace(cc, s))[c] == multiset(s)[c]
    decreases |s|
  {
    if s != [] {
      assert s == [s[0]] + s[1..];
      KeepCounts(cc, s[1..]);
    }
  }

  /** The filter distributes over concatenation. */
  lemma {:induction false} KeepAppend(cc: CharClass, a: string, b: string)
    ensures KeepWordAndSpace(cc, a + b) == KeepWordAndSpace(cc, a) + KeepWordAndSpace(cc, b)
    decreases |a|
  {
    if a == [] {
      assert a + b == b;
    } else {
      var ab := a + b;
      assert ab[0] == a[0] && ab[1..] == a[1..] + b;
      KeepAppend(cc, a[1..], b);
      var head := if Kept(cc, a[0]) then [a[0]] else [];
      assert KeepWordAndSpace(cc, ab) == head + KeepWordAndSpace(cc, a[1..] + b);
      assert KeepWordAndSpace(cc, a) == head + KeepWordAndSpace(cc, a[1..]);
    }
  }

  /** A string made only of word and whitespace characters passes the filter unchanged. */
  lemma {:induction false} KeepAllKept(cc: CharClass, s: string)
    requires forall i :: 0 <= i < |s| ==> Kept(cc, s[i])
    ensures KeepWordAndSpace(cc, s) == s
    decreases |s|
  {
    if s != [] {
      KeepAllKept(cc, s[1..]);
    }
  }

  /** Replacing spaces changes nothing in a string that has none. */
  lemma ReplaceSpacesNoSpace(s: string)
    requires ' ' !in s
    ensures ReplaceSpaces(s) == s
  {
  }

  /**
   * Every character of the sanitised name is a word character or whitespace other
   * than `' '`: each space became `'_'`, and tabs and other whitespace remain.
   */
  lemma SanitizeAlphabet(cc: CharClass, name: string)
    requires cc.Valid()
    ensures var r := Sanitize(cc, name);
            forall i :: 0 <= i < |r| ==> cc.isWord(r[i]) || (cc.isSpace(r[i]) && r[i] != ' ')
  {
    var k := KeepWordAndSpace(cc, name);
    StripSlice(cc, k);
  }

  /** The sanitised name neither starts nor ends with whitespace. */
  lemma SanitizeTrimmed(cc: CharClass, name: string)
    requires cc.Valid()
    ensures var r := Sanitize(cc, name);
            r == [] || (!cc.isSpace(r[0]) && !cc.isSpace(r[|r| - 1]))
  {
  }

  /** Sanitising an already sanitised name gives it back unchanged. */
  lemma SanitizeIdempotent(cc: CharClass, name: string)
    requires cc.Valid()
    ensures Sanitize(cc, Sanitize(cc, name)) == Sanitize(cc, name)
  {
    var r := Sanitize(cc, name);
    SanitizeAlphabet(cc, name);
    SanitizeTrimmed(cc, name);
    KeepAllKept(cc, r);
    StripFixedIff(cc, r);
    ReplaceSpacesNoSpace(r);
  }

  /** Trailing spaces in a name are lost, so `name` and `name + " "` share a file name. */
  lemma SanitizeIgnoresTrailingSpace(cc: CharClass, name: string)
    requires cc.Valid()
    ensures Sanitize(cc, name + " ") == Sanitize(cc, name)
  {
    KeepAppend(cc, name, " ");
    assert KeepWordAndSpace(cc, " ") == " ";
    StripIgnoresTrailingSpace(cc, KeepWordAndSpace(cc, name), ' ');
  }
}
