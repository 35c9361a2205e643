/**
 * The scan registry `registro_escaneados.txt` and the check at the gate
 * (`cargar_registro`, `guardar_codigo_escanado` and `procesar_qr`).
 */
module ScanRegistry {
  import opened Text
  import opened ScanLog

  /** What the gate reports for a scanned payload. */
  datatype Verdict = FirstUse | Duplicate

  /**
   * The text that validating the first `|vs|` payloads of `ps`, with verdicts `vs`,
   * appends: each first-use payload followed by a newline, in order.
   */
  function Appended(ps: seq<string>, vs: seq<Verdict>): string
    requires |vs| <= |ps|
  {
    if vs == [] then []
    else
      var i := |vs| - 1;
      Appended(ps, vs[..i]) + (if vs[i] == FirstUse then ps[i] + "\n" else [])
  }

  /**
   * The set `cargar_registro` returns after the first `|vs|` validations of a run that
   * started from a file with existence `e0` and text `c0`: the file exists once it
   * existed at the start or a first use created it, and it then holds `c0` followed
   * by the text the first uses appended.
   */
  function SnapshotAt(cc: CharClass, e0: bool, c0: string, ps: seq<string>, vs: seq<Verdict>): set<string>
    requires |vs| <= |ps|
  {
    if e0 || FirstUse in vs then Entries(cc, c0 + Appended(ps, vs)) else {}
  }

  /**
   * Each of the first `|vs|` verdicts is a duplicate exactly when its payload was among
   * the entries loaded at its turn.
   */
  predicate Decided(cc: CharClass, e0: bool, c0: string, ps: seq<string>, vs: seq<Verdict>)
    requires |vs| <= |ps|
  {
    forall i :: 0 <= i < |vs| ==> (vs[i] == Duplicate <==> ps[i] in SnapshotAt(cc, e0, c0, ps, vs[..i]))
  }

  /** A verdict decided by the entries loaded at its turn keeps the whole run decided. */
  lemma DecidedStep(cc: CharClass, e0: bool, c0: string, ps: seq<string>, vs: seq<Verdict>, v: Verdict)
    requires |vs| < |ps|
    requires Decided(cc, e0, c0, ps, vs)
    requires v == Duplicate <==> ps[|vs|] in SnapshotAt(cc, e0, c0, ps, vs)
    ensures Decided(cc, e0, c0, ps, vs + [v])
  {
    var vs' := vs + [v];
    forall i | 0 <= i < |vs'|
      ensures vs'[i] == Duplicate <==> ps[i] in SnapshotAt(cc, e0, c0, ps, vs'[..i])
    {
      if i < |vs| {
        assert vs'[..i] == vs[..i];
        assert vs'[i] == vs[i];
      } else {
        assert vs'[..i] == vs;
      }
    }
  }

  /** After one more validation, some verdict is a first use exactly when one was before or this one is. */
  lemma FirstUseStep(vs: seq<Verdict>, v: Verdict)
    ensures (FirstUse in vs + [v]) == (FirstUse in vs || v == FirstUse)
  {
    assert (vs + [v])[|vs|] == v;
  }

  /** Every non-canonical payload among the first `|vs|` was a first use. */
  predicate NonCanonicalFirst(cc: CharClass, ps: seq<string>, vs: seq<Verdict>)
    requires |vs| <= |ps|
  {
    forall k :: 0 <= k < |vs| && !Canonical(cc, ps[k]) ==> vs[k] == FirstUse
  }

  /**
   * What a run of validations from a newline-terminated file keeps, with `start` the
   * entries before the run and `now` those after the first `|vs|` validations: the
   * canonical payloads so far are entries, each repeat of one is a duplicate, and so
   * is every payload `start` already held.
   */
  predicate Promises(cc: CharClass, ps: seq<string>, vs: seq<Verdict>, start: set<string>, now: set<string>)
    requires |vs| <= |ps|
  {
    && start <= now
    && (forall k :: 0 <= k < |vs| && Canonical(cc, ps[k]) ==> ps[k] in now)
    && (forall k, j :: 0 <= k < j < |vs| && ps[k] == ps[j] && Canonical(cc, ps[k]) ==> vs[j] == Duplicate)
    && (forall k :: 0 <= k < |vs| && ps[k] in start ==> vs[k] == Duplicate)
  }

  /** One more validation keeps every non-canonical payload so far a first use. */
  lemma NonCanonicalStep(cc: CharClass, ps: seq<string>, vs: seq<Verdict>, v: Verdict)
    requires |vs| < |ps|
    requires NonCanonicalFirst(cc, ps, vs)
    requires !Canonical(cc, ps[|vs|]) ==> v == FirstUse
    ensures NonCanonicalFirst(cc, ps, vs + [v])
  {
    forall k | 0 <= k < |vs| + 1 && !Canonical(cc, ps[k]) ensures (vs + [v])[k] == FirstUse {
      if k < |vs| {
        assert (vs + [v])[k] == vs[k];
      }
    }
  }

  /**
   * One more validation keeps the promises, given what `Validate` ensures about the
   * entries before (`snap`) and after (`now`) it.
   */
  lemma ValidateStep(cc: CharClass, ps: seq<string>, vs: seq<Verdict>, v: Verdict,
                     start: set<string>, snap: set<string>, now: set<string>)
    requires |vs| < |ps|
    requires Promises(cc, ps, vs, start, snap)
    requires snap <= now
    requires v == Duplicate <==> ps[|vs|] in snap
    requires Canonical(cc, ps[|vs|]) ==> ps[|vs|] in now
    ensures Promises(cc, ps, vs + [v], start, now)
  {
    var i := |vs|;
    var vs' := vs + [v];
    forall k, j | 0 <= k < j < |vs'| && ps[k] == ps[j] && Canonical(cc, ps[k])
      ensures vs'[j] == Duplicate
    {
      if j == i {
        assert ps[i] in snap;
      } else {
        assert vs'[j] == vs[j];
      }
    }
    forall k | 0 <= k < |vs'| && ps[k] in start
      ensures vs'[k] == Duplicate
    {
      if k < i {
        assert vs'[k] == vs[k];
      }
    }
  }

  /** One more validation appends the payload's text exactly when it is a first use. */
  lemma AppendedStep(ps: seq<string>, vs: seq<Verdict>, v: Verdict)
    requires |vs| < |ps|
    ensures Appended(ps, vs + [v]) == Appended(ps, vs) + (if v == FirstUse then ps[|vs|] + "\n" else [])
  {
    assert (vs + [v])[..|vs|] == vs;
  }

  /** Text appended to a file that holds `c0 + log` extends the log. */
  lemma Regroup(c0: string, log: string, t: string)
    ensures c0 + log + t == c0 + (log + t)
  {
  }

  /**
   * The registry file: whether it exists, and its text. The character classes are
   * those of the Python runtime the loader strips lines with.
   */
  class Registry {
    const cc: CharClass
    var fileExists: bool
    var content: string

    /** A missing file has no text, and the character classes obey their facts. */
    ghost predicate Valid()
      reads this
    {
      cc.Valid() && (!fileExists ==> content == [])
    }

    /** The set `cargar_registro` returns for the current file. */
    function Snapshot(): set<string>
      reads this
    {
      if fileExists then Entries(cc, content) else {}
    }

    /** The registry as found on disk when the gate starts. */
    constructor (cc: CharClass, fileExists: bool, content: string)
      requires cc.Valid() && (!fileExists ==> content == [])
      ensures Valid()
      ensures this.cc == cc && this.fileExists == fileExists && this.content == content
    {
      this.cc := cc;
      this.fileExists := fileExists;
      this.content := content;
    }

    /**
     * `cargar_registro` (main.py:41-45): the empty set when the file is missing,
     * otherwise every line of the file stripped of surrounding whitespace.
     */
    method Load() returns (seen: set<string>)
      ensures seen == Snapshot()
      ensures fileExists ==> forall k :: 0 <= k < |Lines(content)| ==> Strip(cc, Lines(content)[k]) in seen
      ensures !fileExists ==> seen == {}
    {
      seen := {};
      if fileExists {
        var lines := Lines(content);
        var i := 0;
        while i < |lines|
          invariant 0 <= i <= |lines|
          invariant seen == StripAll(cc, lines[..i])
        {
          assert lines[..i + 1] == lines[..i] + [lines[i]];
          StripAllAppend(cc, lines[..i], [lines[i]]);
          assert StripAll(cc, [lines[i]]) == {Strip(cc, lines[i])} by {
            assert [lines[i]][0] == lines[i];
          }
          seen := seen + {Strip(cc, lines[i])};
          i := i + 1;
        }
        assert lines[..i] == lines;
      }
    }

    /**
     * `guardar_codigo_escanado` (main.py:48-50): opens the file for appending, which
     * creates it when missing, and writes the payload and a newline. Nothing already
     * in the file is touched.
     */
    method Record(p: string)
      requires Valid()
      modifies this
      ensures Valid()
      ensures fileExists && content == old(content) + (p + "\n")
      ensures WellTerminated(content)
      ensures WellTerminated(old(content)) ==> Snapshot() == old(Snapshot()) + Entries(cc, p + "\n")
      ensures WellTerminated(old(content)) && Canonical(cc, p) ==> Snapshot() == old(Snapshot()) + {p}
    {
      ghost var before := content;
      content := content + (p + "\n");
      fileExists := true;
      assert content[|content| - 1] == '\n';
      if WellTerminated(before) {
        EntriesAppend(cc, before, p + "\n");
        if Canonical(cc, p) {
          RecordedCanonicalIsEntry(cc, before, p);
        }
      }
    }

    /**
     * `procesar_qr` (main.py:155-165): a payload already in the registry is a
     * duplicate and nothing is written; any other payload is a first use and is
     * recorded. A payload that the loader can never read back (surrounding whitespace
     * or a newline inside) is a first use every time.
     */
    method Validate(p: string) returns (v: Verdict)
      requires Valid()
      modifies this
      ensures Valid()
      ensures v == Duplicate <==> p in old(Snapshot())
      ensures v == Duplicate ==> fileExists == old(fileExists) && content == old(content)
      ensures v == FirstUse ==> fileExists && content == old(content) + (p + "\n")
      ensures !Canonical(cc, p) ==> v == FirstUse
      ensures WellTerminated(old(content)) ==> WellTerminated(content) && old(Snapshot()) <= Snapshot()
      ensures WellTerminated(old(content)) && Canonical(cc, p) ==> p in Snapshot()
      ensures WellTerminated(old(content)) && Canonical(cc, p) && v == FirstUse ==>
                Snapshot() == old(Snapshot()) + {p}
    {
      var seen := Load();
      if !Canonical(cc, p) && fileExists {
        NonCanonicalNeverEntry(cc, content, p);
      }
      if p in seen {
        v := Duplicate;
      } else {
        Record(p);
        v := FirstUse;
      }
    }

    /**
     * Where a run of validations stands after the first `|vs|` payloads, from a file
     * that held `c0` and the entries `start`: the file holds `c0` and the text the
     * first uses appended, every non-canonical payload was a first use, and, when
     * `c0` was newline-terminated (`wt`), the promises of a duplicate check hold.
     */
    ghost predicate Progress(ps: seq<string>, vs: seq<Verdict>, e0: bool, c0: string, log: string,
                             wt: bool, start: set<string>)
      reads this
    {
      && |vs| <= |ps|
      && Valid()
      && fileExists == (e0 || FirstUse in vs)
      && content == c0 + log
      && log == Appended(ps, vs)
      && Decided(cc, e0, c0, ps, vs)
      && NonCanonicalFirst(cc, ps, vs)
      && (wt ==> WellTerminated(content) && Promises(cc, ps, vs, start, Snapshot()))
    }

    /** The body of the scan loop: validates the next payload and keeps `Progress`. */
    method Advance(ps: seq<string>, vs: seq<Verdict>, ghost e0: bool, ghost c0: string, ghost log: string,
                   ghost wt: bool, ghost start: set<string>)
      returns (v: Verdict, ghost log': string)
      requires |vs| < |ps|
      requires Progress(ps, vs, e0, c0, log, wt, start)
      modifies this
      ensures Progress(ps, vs + [v], e0, c0, log', wt, start)
    {
      var p := ps[|vs|];
      ghost var snap := Snapshot();
      assert snap == SnapshotAt(cc, e0, c0, ps, vs);
      v := Validate(p);
      DecidedStep(cc, e0, c0, ps, vs, v);
      FirstUseStep(vs, v);
      log' := log + (if v == FirstUse then p + "\n" else []);
      AppendedStep(ps, vs, v);
      Regroup(c0, log, p + "\n");
      NonCanonicalStep(cc, ps, vs, v);
      if wt {
        ValidateStep(cc, ps, vs, v, start, snap, Snapshot());
      }
    }

    /**
     * The scan loop's effect (main.py:63-68): each decoded payload is validated in
     * the order the camera yields it, and each verdict is a duplicate exactly when the
     * payload is among the entries loaded at its turn. When the file starts
     * newline-terminated, a canonical payload is accepted at most once and entries are
     * never lost; a non-canonical payload is accepted every time it is shown.
     */
    method ValidateAll(ps: seq<string>) returns (vs: seq<Verdict>)
      requires Valid()
      modifies this
      ensures Valid()
      ensures |vs| == |ps|
      ensures fileExists == (old(fileExists) || FirstUse in vs)
      ensures content == old(content) + Appended(ps, vs)
      ensures forall i :: 0 <= i < |ps| ==>
                (vs[i] == Duplicate <==> ps[i] in SnapshotAt(cc, old(fileExists), old(content), ps, vs[..i]))
      ensures Snapshot() == SnapshotAt(cc, old(fileExists), old(content), ps, vs)
      ensures forall i :: 0 <= i < |ps| && !Canonical(cc, ps[i]) ==> vs[i] == FirstUse
      ensures WellTerminated(old(content)) ==> old(Snapshot()) <= Snapshot()
      ensures WellTerminated(old(content)) ==>
                forall i :: 0 <= i < |ps| && Canonical(cc, ps[i]) ==> ps[i] in Snapshot()
      ensures WellTerminated(old(content)) ==>
                forall i, j :: 0 <= i < j < |ps| && ps[i] == ps[j] && Canonical(cc, ps[i]) ==> vs[j] == Duplicate
      ensures WellTerminated(old(content)) ==>
                forall i :: 0 <= i < |ps| && ps[i] in old(Snapshot()) ==> vs[i] == Duplicate
    {
      ghost var wt := WellTerminated(content);
      ghost var start := Snapshot();
      ghost var e0 := fileExists;
      ghost var c0 := content;
      ghost var log: string := [];
      vs := [];
      assert content == c0 + log;
      while |vs| < |ps|
        invariant Progress(ps, vs, e0, c0, log, wt, start)
        decreases |ps| - |vs|
      {
        var v;
        v, log := Advance(ps, vs, e0, c0, log, wt, start);
        vs := vs + [v];
      }
    }
  }

  /**
   * Scanning the same credential twice on a fresh gate: the first scan is a first
   * use, and the second is a duplicate exactly when the payload is canonical.
   */
  method ScanTwice(cc: CharClass, p: string) returns (first: Verdict, second: Verdict)
    requires cc.Valid()
    ensures first == FirstUse
    ensures second == Duplicate <==> Canonical(cc, p)
  {
    var r := new Registry(cc, false, []);
    first := r.Validate(p);
    second := r.Validate(p);
  }
}
