/**
 * The registry file `registro_escaneados.txt` as text, and what `cargar_registro`
 * reads back from it: the stripped lines of the file, as a set.
 */
module ScanLog {
  import opened Text

  /** Concatenation of the lines, the inverse of `Lines`. */
  function Join(lines: seq<string>): string {
    if lines == [] then [] else lines[0] + Join(lines[1..])
  }

  /** The file ends in a newline, or is empty: appending starts a fresh line. */
  predicate WellTerminated(content: string) {
    content == [] || content[|content| - 1] == '\n'
  }

  /** The length of the first line of `s`, its newline included when it has one. */
  function LineLength(s: string): (n: nat)
    requires s != []
    ensures 0 < n <= |s|
    ensures forall i :: 0 <= i < n - 1 ==> s[i] != '\n'
    ensures n < |s| ==> s[n - 1] == '\n'
    decreases |s|
  {
    if s[0] == '\n' || |s| == 1 then 1 else 1 + LineLength(s[1..])
  }

  /**
   * The lines Python yields when iterating over a text file: each keeps its newline,
   * and a last line without one is yielded as it is. An empty file has no lines.
   */
  function Lines(s: string): seq<string>
    decreases |s|
  {
    if s == [] then []
    else
      var n := LineLength(s);
      [s[..n]] + Lines(s[n..])
  }

  /** Splitting into lines loses nothing: the lines joined back give the file. */
  lemma {:induction false} LinesJoin(s: string)
    ensures Join(Lines(s)) == s
    decreases |s|
  {
    if s != [] {
      var n := LineLength(s);
      assert s == s[..n] + s[n..];
      LinesJoin(s[n..]);
    }
  }

  /**
   * Each line is non-empty and holds a newline at most as its last character; every
   * line but the last ends with one.
   */
  lemma {:induction false} LineShape(s: string, k: nat)
    requires k < |Lines(s)|
    ensures var line := Lines(s)[k];
            && line != []
            && '\n' !in line[..|line| - 1]
            && (k < |Lines(s)| - 1 ==> line[|line| - 1] == '\n')
    decreases |s|
  {
    var n := LineLength(s);
    if k == 0 {
      assert Lines(s)[0] == s[..n];
      if 0 < |Lines(s)| - 1 {
        assert s[n..] != [];
      }
    } else {
      LineShape(s[n..], k - 1);
    }
  }

  /** `set(line.strip() for line in f)`: the entries `cargar_registro` reads from existing content. */
  function Entries(cc: CharClass, content: string): set<string> {
    StripAll(cc, Lines(content))
  }

  /** The stripped lines, as a set. */
  function StripAll(cc: CharClass, lines: seq<string>): set<string> {
    set k | 0 <= k < |lines| :: Strip(cc, lines[k])
  }

  /** Once the file holds a newline, its first line ends at the first newline whatever follows. */
  lemma {:induction false} LineLengthAppend(a: string, b: string)
    requires a != [] && a[|a| - 1] == '\n'
    ensures LineLength(a + b) == LineLength(a)
    decreases |a|
  {
    if a[0] != '\n' {
      assert (a + b)[1..] == a[1..] + b;
      LineLengthAppend(a[1..], b);
    }
  }

  /** Appending to a newline-terminated file adds lines after the old ones and changes none of them. */
  lemma {:induction false} LinesAppend(a: string, b: string)
    requires WellTerminated(a)
    ensures Lines(a + b) == Lines(a) + Lines(b)
    decreases |a|
  {
    if a == [] {
      assert a + b == b;
    } else {
      var n := LineLength(a);
      LineLengthAppend(a, b);
      assert (a + b)[..n] == a[..n];
      assert (a + b)[n..] == a[n..] + b;
      LinesAppend(a[n..], b);
    }
  }

  /** Text with a newline at most at its end is a single line. */
  lemma LinesOfOneLine(s: string)
    requires s != [] && '\n' !in s[..|s| - 1]
    ensures Lines(s) == [s]
  {
    var n := LineLength(s);
    assert s[..n] == s && s[n..] == [];
    assert Lines(s) == [s[..n]] + Lines(s[n..]);
  }

  /** A payload without a newline, written with its newline, is exactly one line. */
  lemma LinesOfEntry(p: string)
    requires '\n' !in p
    ensures Lines(p + "\n") == [p + "\n"]
  {
    assert (p + "\n")[..|p|] == p;
    LinesOfOneLine(p + "\n");
  }

  /** Stripping the lines of two files put together gives the entries of both. */
  lemma StripAllAppend(cc: CharClass, x: seq<string>, y: seq<string>)
    ensures StripAll(cc, x + y) == StripAll(cc, x) + StripAll(cc, y)
  {
    var xy := x + y;
    forall e | e in StripAll(cc, xy) ensures e in StripAll(cc, x) + StripAll(cc, y) {
      var k :| 0 <= k < |xy| && Strip(cc, xy[k]) == e;
      if k < |x| {
        assert xy[k] == x[k];
      } else {
        assert xy[k] == y[k - |x|];
      }
    }
    forall e | e in StripAll(cc, x) ensures e in StripAll(cc, xy) {
      var k :| 0 <= k < |x| && Strip(cc, x[k]) == e;
      assert xy[k] == x[k];
    }
    forall e | e in StripAll(cc, y) ensures e in StripAll(cc, xy) {
      var k :| 0 <= k < |y| && Strip(cc, y[k]) == e;
      assert xy[|x| + k] == y[k];
    }
  }

  /** Appending to a newline-terminated file keeps every entry and adds those of the appended text. */
  lemma EntriesAppend(cc: CharClass, a: string, b: string)
    requires WellTerminated(a)
    ensures Entries(cc, a + b) == Entries(cc, a) + Entries(cc, b)
  {
    LinesAppend(a, b);
    StripAllAppend(cc, Lines(a), Lines(b));
  }

  /** A stripped line is canonical: stripping removes its newline and surrounding whitespace. */
  lemma StrippedLineCanonical(cc: CharClass, line: string)
    requires cc.Valid()
    requires line != [] && '\n' !in line[..|line| - 1]
    ensures Canonical(cc, Strip(cc, line))
  {
    var body := line[..|line| - 1];
    if line[|line| - 1] == '\n' {
      assert line == body + ['\n'];
      StripIgnoresTrailingSpace(cc, body, '\n');
      StripOnlyRemoves(cc, body, '\n');
    } else {
      assert line == body + [line[|line| - 1]];
      StripOnlyRemoves(cc, line, '\n');
    }
    StripIdempotent(cc, line);
    CanonicalIff(cc, Strip(cc, line));
  }

  /** Each entry comes from some line of the file. */
  lemma EntryAt(cc: CharClass, content: string, x: string) returns (k: nat)
    requires x in Entries(cc, content)
    ensures k < |Lines(content)| && Strip(cc, Lines(content)[k]) == x
  {
    var lines := Lines(content);
    k :| 0 <= k < |lines| && Strip(cc, lines[k]) == x;
  }

  /**
   * Every entry read back is canonical: the loader strips each line, so no entry
   * has surrounding whitespace, and it splits at newlines, so no entry holds one.
   */
  lemma EntriesAreCanonical(cc: CharClass, content: string, x: string)
    requires cc.Valid()
    requires x in Entries(cc, content)
    ensures Canonical(cc, x)
  {
    var k := EntryAt(cc, content, x);
    LineShape(content, k);
    StrippedLineCanonical(cc, Lines(content)[k]);
  }

  /**
   * A payload with surrounding whitespace or an embedded newline is never an entry,
   * whatever the file holds.
   */
  lemma NonCanonicalNeverEntry(cc: CharClass, content: string, p: string)
    requires cc.Valid()
    requires !Canonical(cc, p)
    ensures p !in Entries(cc, content)
  {
    if p in Entries(cc, content) {
      EntriesAreCanonical(cc, content, p);
    }
  }

  /** A file of a single line holds the one entry that line strips to. */
  lemma EntriesOfSingleLine(cc: CharClass, s: string)
    requires Lines(s) == [s]
    ensures Entries(cc, s) == {Strip(cc, s)}
  {
    assert [s][0] == s;
  }

  /** The text `p + "\n"` of one record, for `p` without a newline, reads back as the one entry `Strip(p)`. */
  lemma EntriesOfEntry(cc: CharClass, p: string)
    requires cc.Valid()
    requires '\n' !in p
    ensures Entries(cc, p + "\n") == {Strip(cc, p)}
  {
    var line := p + "\n";
    LinesOfEntry(p);
    EntriesOfSingleLine(cc, line);
    assert line == p + ['\n'];
    StripIgnoresTrailingSpace(cc, p, '\n');
  }

  /** Writing `p + "\n"` to a newline-terminated file adds the entry `p` when `p` is canonical. */
  lemma RecordedCanonicalIsEntry(cc: CharClass, content: string, p: string)
    requires cc.Valid()
    requires WellTerminated(content)
    requires Canonical(cc, p)
    ensures Entries(cc, content + (p + "\n")) == Entries(cc, content) + {p}
  {
    EntriesAppend(cc, content, p + "\n");
    EntriesOfEntry(cc, p);
    CanonicalIff(cc, p);
  }

  /** Recording `a\nb` in a newline-terminated file adds the entries `a` and `b`. */
  lemma SplitEntries(cc: CharClass, content: string, a: string, b: string)
    requires cc.Valid()
    requires WellTerminated(content)
    requires Canonical(cc, a) && Canonical(cc, b)
    ensures Entries(cc, content + ((a + "\n" + b) + "\n")) == Entries(cc, content) + {a, b}
  {
    var ra := a + "\n";
    var rb := b + "\n";
    var first := content + ra;
    assert (a + "\n" + b) + "\n" == ra + rb;
    assert content + (ra + rb) == first + rb;
    RecordedCanonicalIsEntry(cc, content, a);
    RecordedCanonicalIsEntry(cc, first, b);
  }

  /**
   * A payload with a newline inside is read back as its pieces: recording `a\nb`
   * adds the entries `a` and `b`, not the payload.
   */
  lemma RecordedPayloadSplits(cc: CharClass, content: string, a: string, b: string)
    requires cc.Valid()
    requires WellTerminated(content)
    requires Canonical(cc, a) && Canonical(cc, b)
    ensures var after := content + ((a + "\n" + b) + "\n");
            && Entries(cc, after) == Entries(cc, content) + {a, b}
            && a + "\n" + b !in Entries(cc, after)
  {
    var p := a + "\n" + b;
    SplitEntries(cc, content, a, b);
    assert !Canonical(cc, p) by {
      assert p[|a|] == '\n';
    }
    NonCanonicalNeverEntry(cc, content + (p + "\n"), p);
  }

  /**
   * The append-only promise needs a newline-terminated file: when the last line `u`
   * has no newline, the next record `p` is glued onto it and the entry `u` disappears.
   */
  lemma UnterminatedFileLosesEntry(cc: CharClass, u: string, p: string)
    requires cc.Valid()
    requires Canonical(cc, u) && Canonical(cc, p)
    requires u != [] && p != []
    ensures u in Entries(cc, u)
    ensures u !in Entries(cc, u + (p + "\n"))
  {
    LinesOfOneLine(u);
    EntriesOfSingleLine(cc, u);
    var up := u + p;
    assert up + "\n" == u + (p + "\n");
    assert up[0] == u[0] && up[|up| - 1] == p[|p| - 1];
    assert '\n' !in up;
    CanonicalIff(cc, u);
    CanonicalIff(cc, up);
    EntriesOfEntry(cc, up);
  }
}
