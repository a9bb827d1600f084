/**
 * `Main`: parse the arguments, show the help text when there is no `--path`, scan the container
 * file, and either report the exception that ended the scan or save every section.
 */
module Program {
  import opened Types
  import opened Sequences
  import opened Dictionaries
  import opened Arguments
  import opened ContainerScanner

  /** How a run of `Main` ends. */
  datatype Outcome =
    | Help                                               // the usage text, then return
    | Crashed(error: Error)                              // an exception `Main` does not catch
    | Reported(error: Error)                             // "Error opening RIF file", nothing saved
    | Saved(path: string, sections: Entries, split: bool) // `SaveAsync` next to `path`

  /**
   * Everything after `GetKeyValueArgs` returned `kv`. The container file at a path is given by
   * `files` as its lines, or `None` when opening or reading it throws.
   */
  function AfterArgs(kv: Entries, files: string -> Option<seq<string>>, lib: Library): Outcome
  {
    if |kv| == 0 || !ContainsKey(kv, "--path") then Help
    else
      var path := Lookup(kv, "--path").value;
      var split := ContainsKey(kv, "--split");
      match files(path)
      case None => Reported(FileUnreadable(path))
      case Some(lines) =>
        match Sections(lines, DecoderOf(lib))
        case Failure(e) => Reported(e)
        case Success(result) => Saved(path, result, split)
  }

  /** `Main`, with the file system as `files` and the foreign decoders as `lib`. */
  method Run(args: seq<string>, files: string -> Option<seq<string>>, lib: Library) returns (o: Outcome)
    ensures |args| == 0 ==> o == Help
    ensures |args| > 0 && !DistinctKeys(FlagEntries(args, |args|))
      ==> o.Crashed? && exists j :: FirstRepeat(args, j) && o.error == DuplicateKey(args[j])
    ensures |args| > 0 && DistinctKeys(FlagEntries(args, |args|))
      ==> o == AfterArgs(FlagEntries(args, |args|), files, lib)
  {
    if |args| == 0 {
      return Help;
    }
    var parsed := GetKeyValueArgs(args);
    if parsed.Failure? {
      return Crashed(parsed.error);
    }
    var keyValueArgs := parsed.value;
    if |keyValueArgs| == 0 || !ContainsKey(keyValueArgs, "--path") {
      return Help;
    }
    var path := Lookup(keyValueArgs, "--path").value;
    var split := ContainsKey(keyValueArgs, "--split");
    var file := files(path);
    if file.None? {
      return Reported(FileUnreadable(path));
    }
    var result := ScanContainer(file.value, lib);
    if result.Failure? {
      return Reported(result.error);
    }
    return Saved(path, result.value, split);
  }

  /** Without a `--path` flag the run only shows the help text. */
  lemma HelpWithoutPath(args: seq<string>, files: string -> Option<seq<string>>, lib: Library)
    requires "--path" !in args
    ensures AfterArgs(FlagEntries(args, |args|), files, lib) == Help
  {
    FlagEntriesKeys(args, |args|, "--path");
  }

  /** The file read is the one named by the argument after `--path`. */
  lemma ReadsPathValue(args: seq<string>, i: int, files: string -> Option<seq<string>>, lib: Library)
    requires 0 <= i < |args| && args[i] == "--path" && DistinctKeys(FlagEntries(args, |args|))
    requires files(ValueAfter(args, i)) == None
    ensures AfterArgs(FlagEntries(args, |args|), files, lib) == Reported(FileUnreadable(ValueAfter(args, i)))
  {
    assert IsFlag(args[i]);
    FlagValue(args, |args|, i);
  }

  /**
   * Whatever ends the scan with an exception, nothing is saved: in particular two sections with
   * the same name make the run report the failure.
   */
  lemma DuplicateSavesNothing(kv: Entries, files: string -> Option<seq<string>>, lib: Library, i: int, j: int)
    requires ContainsKey(kv, "--path") && files(Lookup(kv, "--path").value).Some?
    requires var bodies := EndBodies(files(Lookup(kv, "--path").value).value);
      0 <= i < j < |bodies|
      && DecoderOf(lib)(bodies[i]).Success? && DecoderOf(lib)(bodies[j]).Success?
      && DecoderOf(lib)(bodies[i]).value.0 == DecoderOf(lib)(bodies[j]).value.0
    ensures AfterArgs(kv, files, lib).Reported?
  {
    var lines := files(Lookup(kv, "--path").value).value;
    ScannerMeaning(lines, DecoderOf(lib));
    CollectDuplicate(EndBodies(lines), DecoderOf(lib), i, j);
  }

  /** On success, what is saved is one section per end marker, decoded from its body, in order. */
  lemma SavedSections(kv: Entries, files: string -> Option<seq<string>>, lib: Library)
    requires AfterArgs(kv, files, lib).Saved?
    ensures var lines := files(Lookup(kv, "--path").value).value;
      var bodies := EndBodies(lines);
      var d := AfterArgs(kv, files, lib).sections;
      |d| == |bodies| == Count(lines, EndMarker) && DistinctKeys(d)
      && forall k :: 0 <= k < |d| ==> Success(d[k]) == DecoderOf(lib)(bodies[k])
  {
    var lines := files(Lookup(kv, "--path").value).value;
    ScannerMeaning(lines, DecoderOf(lib));
    CollectSuccess(EndBodies(lines), DecoderOf(lib));
    EndBodiesCount(lines);
  }

  /** `sectionName.Replace(".", "")`: the name without its dots. */
  function WithoutDots(s: string): string
    decreases |s|
  {
    if |s| == 0 then ""
    else WithoutDots(s[..|s| - 1]) + (if s[|s| - 1] == '.' then "" else [s[|s| - 1]])
  }

  /** No dot is left, one character goes per dot, and every other character is still there. */
  lemma {:induction false} WithoutDotsKeeps(s: string)
    ensures '.' !in WithoutDots(s) && |WithoutDots(s)| == |s| - Count(s, '.')
    ensures forall c :: c != '.' ==> (c in WithoutDots(s) <==> c in s)
    decreases |s|
  {
    if |s| > 0 {
      var front, last := s[..|s| - 1], s[|s| - 1];
      assert s == front + [last];
      WithoutDotsKeeps(front);
    }
  }

  /**
   * Removing dots distributes over concatenation; with WithoutDotsChar this determines the
   * function: the other characters are kept, in their order and with their repetitions.
   */
  lemma {:induction false} WithoutDotsAppend(a: string, b: string)
    ensures WithoutDots(a + b) == WithoutDots(a) + WithoutDots(b)
    decreases |b|
  {
    if |b| == 0 {
      assert a + b == a;
    } else {
      var front, last := b[..|b| - 1], b[|b| - 1];
      assert b == front + [last] && a + b == (a + front) + [last];
      WithoutDotsAppend(a, front);
      WithoutDotsSnoc(a + front, last);
      WithoutDotsSnoc(front, last);
    }
  }

  lemma WithoutDotsSnoc(s: string, c: char)
    ensures WithoutDots(s + [c]) == WithoutDots(s) + (if c == '.' then "" else [c])
  {
    assert (s + [c])[..|s|] == s;
  }

  /** A dot is removed, and any other character is kept. */
  lemma WithoutDotsChar(c: char)
    ensures WithoutDots([c]) == if c == '.' then "" else [c]
  {
    assert [c][..0] == "";
  }

  /** A name without dots is left unchanged. */
  lemma {:induction false} WithoutDotsNoDot(s: string)
    requires '.' !in s
    ensures WithoutDots(s) == s
    decreases |s|
  {
    if |s| > 0 {
      var front := s[..|s| - 1];
      assert s == front + [s[|s| - 1]];
      WithoutDotsNoDot(front);
    }
  }

  /** The file a section is written to when `--split` is given. */
  function SectionFileName(name: string): (f: string)
    ensures |f| == |name| - Count(name, '.') + 4
    ensures f[..|f| - 4] == WithoutDots(name) && '.' !in f[..|f| - 4] && f[|f| - 4..] == ".txt"
  {
    WithoutDotsKeeps(name);
    WithoutDots(name) + ".txt"
  }
}
