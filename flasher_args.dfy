/** `process_flasher_args`: reading a flasher-args document into the map from
    flash offset to image path that drives flashing. This module holds the
    value-level definition (which entries are looked at, how each is
    resolved, what the load yields) and its properties; the class in
    `FlashTool` runs the same steps in place. */
module FlasherArgs {
  import opened Base
  import opened Json
  import opened PyDict
  import opened Paths

  /** `DEFAULT_FLASH_PARAMS["write_flash_args"]` */
  const DefaultWriteFlashArgs: Json :=
    Arr([Str("--flash_mode"), Str("dio"), Str("--flash_size"), Str("10MB"), Str("--flash_freq"), Str("80m")])

  /** The named sections read after `flash_files`, in this order. */
  const SectionNames: seq<string> := ["bootloader", "app", "partition-table", "ota_data", "nvs"]

  const HexPrefix: string := "0x"

  /** An offset/path pair that passed the offset filter; `context` is how the
      warning names it (the offset, or `section (offset)`). */
  datatype Candidate = Candidate(offset: string, path: Json, context: string)

  /** What `show_path_warning` reports: the path as written, where it came
      from, and the locations it lists as searched. */
  datatype Warning = Warning(path: string, context: string, searched: seq<string>)

  // ---------------------------------------------------------------------
  // Which entries are looked at

  /** One `flash_files` item: kept only when its offset starts with `0x`. */
  function FileCandidate(item: (string, Json)): seq<Candidate> {
    if StartsWith(item.0, HexPrefix) then [Candidate(item.0, item.1, item.0)] else []
  }

  function FileCandidates(items: seq<(string, Json)>): seq<Candidate> {
    if items == [] then []
    else FileCandidates(items[..|items| - 1]) + FileCandidate(items[|items| - 1])
  }

  /** One named section: kept only when it is an object whose `offset` is a
      string starting with `0x` and whose `file` is truthy. */
  function SectionCandidate(fields: seq<(string, Json)>, name: string): seq<Candidate> {
    match Lookup(fields, name)
    case Some(Obj(sd)) =>
      var offset := GetField(sd, "offset");
      var rel := GetField(sd, "file");
      if Truthy(offset) && Truthy(rel) && offset.Str? && StartsWith(offset.s, HexPrefix)
      then [Candidate(offset.s, rel, name + " (" + offset.s + ")")]
      else []
    case _ => []
  }

  function SectionCandidates(fields: seq<(string, Json)>, names: seq<string>): seq<Candidate> {
    if names == [] then []
    else SectionCandidates(fields, names[..|names| - 1]) + SectionCandidate(fields, names[|names| - 1])
  }

  /** The `flash_files` object's items, or nothing when it is absent or not
      an object. */
  function FlashFilesItems(fields: seq<(string, Json)>): seq<(string, Json)> {
    match Lookup(fields, "flash_files")
    case Some(Obj(items)) => items
    case _ => []
  }

  /** Every entry considered, in processing order: `flash_files` first, then
      the sections. */
  function Candidates(fields: seq<(string, Json)>): seq<Candidate> {
    FileCandidates(FlashFilesItems(fields)) + SectionCandidates(fields, SectionNames)
  }

  // ---------------------------------------------------------------------
  // How each entry is processed

  /** `if abs_path:` after `resolve_file_path`: a resolved, non-empty path. */
  function Resolved(c: Candidate, configDir: string, env: PathEnv): Option<string> {
    var r := ResolveFilePath(c.path, configDir, env);
    if r.Some? && r.value != "" then r else None
  }

  function MakeWarning(c: Candidate, configDir: string, env: PathEnv): Warning
    requires c.path.Str?
  {
    Warning(c.path.s, c.context, SearchPaths(c.path.s, configDir, env)[1..])
  }

  /** The state of the two loops: the files gathered and the warnings shown
      so far, or the exception raised by warning about a path that is not a
      string (`os.path.join` refuses it). */
  datatype Acc = Going(files: Dict<string>, warnings: seq<Warning>) | Aborted(warnings: seq<Warning>)

  predicate AccValid(acc: Acc) {
    acc.Going? ==> UniqueKeys(acc.files)
  }

  function Step(acc: Acc, c: Candidate, configDir: string, env: PathEnv): (r: Acc)
    requires AccValid(acc)
    ensures AccValid(r)
  {
    match acc
    case Aborted(_) => acc
    case Going(files, warnings) =>
      match Resolved(c, configDir, env)
      case Some(p) => Going(Set(files, c.offset, p), warnings)
      case None =>
        if c.path.Str? then Going(files, warnings + [MakeWarning(c, configDir, env)])
        else Aborted(warnings)
  }

  function Run(cs: seq<Candidate>, configDir: string, env: PathEnv): (r: Acc)
    ensures AccValid(r)
  {
    if cs == [] then Going([], [])
    else Step(Run(cs[..|cs| - 1], configDir, env), cs[|cs| - 1], configDir, env)
  }

  lemma RunSnoc(cs: seq<Candidate>, c: Candidate, configDir: string, env: PathEnv)
    ensures Run(cs + [c], configDir, env) == Step(Run(cs, configDir, env), c, configDir, env)
  {
    assert (cs + [c])[..|cs|] == cs;
  }

  // ---------------------------------------------------------------------
  // The load as a whole

  datatype LoadError =
    | Unreadable     // the file could not be opened or is not JSON
    | NotAnObject    // the document is not a JSON object
    | PathNotText    // an unresolved entry's path is not a string
    | NoValidFiles   // no entry resolved
    | ListingFailed  // the `--flash_mode` lookup of the file listing raised

  datatype LoadResult =
    | Loaded(files: Dict<string>, writeFlashArgs: Json, extraArgs: Json, warnings: seq<Warning>)
    | LoadFailed(error: LoadError, warnings: seq<Warning>)

  /** What `process_flasher_args` ends with, given the decoded document
      (`None` when it could not be read or decoded) and the document's
      directory. */
  function Load(doc: Option<Json>, configDir: string, env: PathEnv): LoadResult {
    if doc.None? then LoadFailed(Unreadable, [])
    else if !doc.value.Obj? then LoadFailed(NotAnObject, [])
    else
      var fields := doc.value.fields;
      match Run(Candidates(fields), configDir, env)
      case Aborted(w) => LoadFailed(PathNotText, w)
      case Going(files, w) =>
        if files == [] then LoadFailed(NoValidFiles, w)
        else
          var args := GetFieldOr(fields, "write_flash_args", DefaultWriteFlashArgs);
          var extra := GetFieldOr(fields, "extra_esptool_args", Obj([]));
          if FlashMode(args).Err? then LoadFailed(ListingFailed, w)
          else Loaded(files, args, extra, w)
  }

  // ---------------------------------------------------------------------
  // The `--flash_mode` lookup of `update_file_listbox`

  const FlashModeFlag: string := "--flash_mode"

  /** The position of the first element equal to `x`. */
  function FirstIndexOf(xs: seq<Json>, x: Json): (r: Option<nat>)
    ensures r.None? <==> forall j :: 0 <= j < |xs| ==> xs[j] != x
    ensures r.Some? ==> r.value < |xs| && xs[r.value] == x
                        && forall j :: 0 <= j < r.value ==> xs[j] != x
  {
    if xs == [] then None
    else if xs[0] == x then Some(0)
    else
      var r := FirstIndexOf(xs[1..], x);
      assert forall j :: 0 < j < |xs| ==> xs[j] == xs[1..][j - 1];
      if r.None? then None else Some(r.value + 1)
  }

  datatype LookupError = NotIterable | IndexOutOfRange | NotIndexable

  /** `v[n]`: list and string indexing; a dict has no integer keys. */
  function Subscript(v: Json, n: nat): Result<Json, LookupError> {
    match v
    case Arr(a) => if n < |a| then Ok(a[n]) else Err(IndexOutOfRange)
    case Str(s) => if n < |s| then Ok(Str([s[n]])) else Err(IndexOutOfRange)
    case Obj(_) => Err(NotIndexable)
    case _ => Err(NotIterable)
  }

  /** `next((args[i+1] for i, x in enumerate(args) if x == "--flash_mode"), "dio")` */
  function FlashMode(args: Json): Result<Json, LookupError> {
    match Iterate(args)
    case None => Err(NotIterable)
    case Some(xs) =>
      match FirstIndexOf(xs, Str(FlashModeFlag))
      case None => Ok(Str("dio"))
      case Some(i) => Subscript(args, i + 1)
  }

  // ---------------------------------------------------------------------
  // Properties of the entry filter

  lemma {:induction false} FileCandidatesAppend(a: seq<(string, Json)>, b: seq<(string, Json)>)
    ensures FileCandidates(a + b) == FileCandidates(a) + FileCandidates(b)
  {
    if b != [] {
      var b' := b[..|b| - 1];
      assert (a + b)[..|a + b| - 1] == a + b';
      assert (a + b)[|a + b| - 1] == b[|b| - 1];
      FileCandidatesAppend(a, b');
    } else {
      assert a + b == a;
    }
  }

  /** A `flash_files` entry whose offset does not start with `0x` is skipped
      silently: removing it changes nothing that is processed. */
  lemma NonHexEntrySkipped(items: seq<(string, Json)>, i: int)
    requires 0 <= i < |items| && !StartsWith(items[i].0, HexPrefix)
    ensures FileCandidates(items[..i] + items[i + 1..]) == FileCandidates(items)
  {
    assert items == items[..i] + [items[i]] + items[i + 1..] by {
      assert items[i..] == [items[i]] + items[i + 1..];
      assert items == items[..i] + items[i..];
    }
    DropSkipped(items[..i], items[i], items[i + 1..]);
  }

  lemma DropSkipped(before: seq<(string, Json)>, x: (string, Json), after: seq<(string, Json)>)
    requires FileCandidate(x) == []
    ensures FileCandidates(before + [x] + after) == FileCandidates(before + after)
  {
    FileCandidatesOne(x);
    FileCandidatesAppend(before + [x], after);
    FileCandidatesAppend(before, [x]);
    FileCandidatesAppend(before, after);
  }

  lemma FileCandidatesOne(x: (string, Json))
    ensures FileCandidates([x]) == FileCandidate(x)
  {
    assert [x][..0] == [];
  }

  /** The filter is a prefix test, not a hexadecimal check. */
  lemma PrefixOnlyOffsetFilter()
    ensures FileCandidates([("0xZZ", Str("a.bin"))]) == [Candidate("0xZZ", Str("a.bin"), "0xZZ")]
    ensures FileCandidates([("4096", Str("a.bin"))]) == []
  {
    assert StartsWith("0xZZ", HexPrefix);
    assert "4096"[0] != HexPrefix[0];
  }

  predicate AllHex(cs: seq<Candidate>) {
    forall i :: 0 <= i < |cs| ==> StartsWith(cs[i].offset, HexPrefix)
  }

  lemma {:induction false} FileCandidatesHex(items: seq<(string, Json)>)
    ensures AllHex(FileCandidates(items))
  {
    if items != [] {
      FileCandidatesHex(items[..|items| - 1]);
    }
  }

  lemma {:induction false} SectionCandidatesHex(fields: seq<(string, Json)>, names: seq<string>)
    ensures AllHex(SectionCandidates(fields, names))
  {
    if names != [] {
      SectionCandidatesHex(fields, names[..|names| - 1]);
    }
  }

  lemma CandidatesHex(fields: seq<(string, Json)>)
    ensures AllHex(Candidates(fields))
  {
    FileCandidatesHex(FlashFilesItems(fields));
    SectionCandidatesHex(fields, SectionNames);
  }

  // ---------------------------------------------------------------------
  // Properties of the processing loop

  /** Once the warning for a non-string path has raised, nothing later runs. */
  lemma {:induction false} RunAbortSticky(cs: seq<Candidate>, more: seq<Candidate>, configDir: string, env: PathEnv)
    requires Run(cs, configDir, env).Aborted?
    ensures Run(cs + more, configDir, env) == Run(cs, configDir, env)
  {
    if more == [] {
      assert cs + more == cs;
    } else {
      var m' := more[..|more| - 1];
      RunAbortSticky(cs, m', configDir, env);
      assert cs + more == (cs + m') + [more[|more| - 1]];
      RunSnoc(cs + m', more[|more| - 1], configDir, env);
    }
  }

  /** Reference definition: the path of the last entry for offset `o` that
      resolved, i.e. the one a dict keyed by offset keeps. */
  function LastResolved(cs: seq<Candidate>, o: string, configDir: string, env: PathEnv): Option<string> {
    if cs == [] then None
    else
      var c := cs[|cs| - 1];
      if c.offset == o && Resolved(c, configDir, env).Some? then Resolved(c, configDir, env)
      else LastResolved(cs[..|cs| - 1], o, configDir, env)
  }

  lemma {:induction false} LastResolvedAppend(a: seq<Candidate>, b: seq<Candidate>, o: string, configDir: string, env: PathEnv)
    ensures LastResolved(a + b, o, configDir, env)
            == if LastResolved(b, o, configDir, env).Some? then LastResolved(b, o, configDir, env)
               else LastResolved(a, o, configDir, env)
  {
    if b == [] {
      assert a + b == a;
    } else {
      var b' := b[..|b| - 1];
      assert (a + b)[..|a + b| - 1] == a + b';
      assert (a + b)[|a + b| - 1] == b[|b| - 1];
      LastResolvedAppend(a, b', o, configDir, env);
    }
  }

  /** One path per offset, and it is the last one that resolved: a later
      entry for the same offset overwrites an earlier one, and an entry that
      did not resolve leaves no trace in the result. */
  lemma {:induction false} RunLookup(cs: seq<Candidate>, o: string, configDir: string, env: PathEnv)
    requires Run(cs, configDir, env).Going?
    ensures Get(Run(cs, configDir, env).files, o) == LastResolved(cs, o, configDir, env)
  {
    if cs != [] {
      var init, c := cs[..|cs| - 1], cs[|cs| - 1];
      RunLookup(init, o, configDir, env);
      var before := Run(init, configDir, env);
      if Resolved(c, configDir, env).Some? {
        SetSpec(before.files, c.offset, Resolved(c, configDir, env).value);
      }
    }
  }

  /** The result is empty exactly when no entry resolved. */
  lemma {:induction false} RunEmptyIff(cs: seq<Candidate>, configDir: string, env: PathEnv)
    requires Run(cs, configDir, env).Going?
    ensures Run(cs, configDir, env).files == []
            <==> forall i :: 0 <= i < |cs| ==> Resolved(cs[i], configDir, env).None?
  {
    if cs != [] {
      var init := cs[..|cs| - 1];
      RunEmptyIff(init, configDir, env);
      assert forall i :: 0 <= i < |init| ==> init[i] == cs[i];
      var c := cs[|cs| - 1];
      if Resolved(c, configDir, env).Some? {
        var before := Run(init, configDir, env);
        SetSpec(before.files, c.offset, Resolved(c, configDir, env).value);
        assert HasKey(Run(cs, configDir, env).files, c.offset);
      }
    }
  }

  /** An entry whose path did not resolve and is not a string: warning
      about it raises. */
  predicate BadPath(c: Candidate, configDir: string, env: PathEnv) {
    Resolved(c, configDir, env).None? && !c.path.Str?
  }

  /** The load aborts exactly when some entry that did not resolve has a path
      that is not a string. */
  lemma {:induction false} RunAbortedIff(cs: seq<Candidate>, configDir: string, env: PathEnv)
    ensures Run(cs, configDir, env).Aborted?
            <==> exists i :: 0 <= i < |cs| && BadPath(cs[i], configDir, env)
  {
    if cs != [] {
      var init, c := cs[..|cs| - 1], cs[|cs| - 1];
      RunAbortedIff(init, configDir, env);
      assert forall i :: 0 <= i < |init| ==> init[i] == cs[i];
      if exists i :: 0 <= i < |cs| && BadPath(cs[i], configDir, env) {
        var i :| 0 <= i < |cs| && BadPath(cs[i], configDir, env);
        if i < |init| {
          assert BadPath(init[i], configDir, env);
        } else {
          assert BadPath(c, configDir, env);
        }
      }
      if Run(init, configDir, env).Aborted? {
        var i :| 0 <= i < |init| && BadPath(init[i], configDir, env);
        assert BadPath(cs[i], configDir, env);
      } else if BadPath(c, configDir, env) {
        assert BadPath(cs[|cs| - 1], configDir, env);
      }
    }
  }

  /** One step that keeps going: it started from a going state, keeps every
      earlier warning, and warns about its entry when that did not resolve. */
  lemma StepWarns(acc: Acc, c: Candidate, configDir: string, env: PathEnv)
    requires AccValid(acc) && Step(acc, c, configDir, env).Going?
    ensures acc.Going?
    ensures forall w :: w in acc.warnings ==> w in Step(acc, c, configDir, env).warnings
    ensures Resolved(c, configDir, env).None? ==>
              c.path.Str? && MakeWarning(c, configDir, env) in Step(acc, c, configDir, env).warnings
  {
  }

  /** Every entry that did not resolve is warned about. */
  lemma UnresolvedAreWarned(cs: seq<Candidate>, configDir: string, env: PathEnv)
    requires Run(cs, configDir, env).Going?
    ensures forall i :: 0 <= i < |cs| && Resolved(cs[i], configDir, env).None? ==>
              cs[i].path.Str? && MakeWarning(cs[i], configDir, env) in Run(cs, configDir, env).warnings
  {
    forall i | 0 <= i < |cs| && Resolved(cs[i], configDir, env).None?
      ensures cs[i].path.Str? && MakeWarning(cs[i], configDir, env) in Run(cs, configDir, env).warnings
    {
      UnresolvedIsWarned(cs, i, configDir, env);
    }
  }

  /** The entry at `i`, when it did not resolve, is warned about. */
  lemma {:induction false} UnresolvedIsWarned(cs: seq<Candidate>, i: nat, configDir: string, env: PathEnv)
    requires Run(cs, configDir, env).Going?
    requires i < |cs| && Resolved(cs[i], configDir, env).None?
    ensures cs[i].path.Str? && MakeWarning(cs[i], configDir, env) in Run(cs, configDir, env).warnings
  {
    var init, c := cs[..|cs| - 1], cs[|cs| - 1];
    StepWarns(Run(init, configDir, env), c, configDir, env);
    if i < |init| {
      assert cs[i] == init[i];
      UnresolvedIsWarned(init, i, configDir, env);
    }
  }

  /** Every warning is about an entry that did not resolve. */
  lemma {:induction false} WarningsAreUnresolved(cs: seq<Candidate>, configDir: string, env: PathEnv)
    requires Run(cs, configDir, env).Going?
    ensures forall w :: w in Run(cs, configDir, env).warnings ==>
              exists i :: 0 <= i < |cs| && Resolved(cs[i], configDir, env).None? && cs[i].path.Str?
                          && w == MakeWarning(cs[i], configDir, env)
  {
    if cs != [] {
      var init, c := cs[..|cs| - 1], cs[|cs| - 1];
      var before := Run(init, configDir, env);
      assert Run(cs, configDir, env) == Step(before, c, configDir, env);
      assert before.Going?;
      WarningsAreUnresolved(init, configDir, env);
      forall w | w in Run(cs, configDir, env).warnings
        ensures exists i :: 0 <= i < |cs| && Resolved(cs[i], configDir, env).None? && cs[i].path.Str?
                            && w == MakeWarning(cs[i], configDir, env)
      {
        if w in before.warnings {
          var i :| 0 <= i < |init| && Resolved(init[i], configDir, env).None? && init[i].path.Str?
                   && w == MakeWarning(init[i], configDir, env);
          assert cs[i] == init[i];
        } else {
          assert Resolved(c, configDir, env).None? && c.path.Str?;
          assert Run(cs, configDir, env).warnings == before.warnings + [MakeWarning(c, configDir, env)];
          assert w == MakeWarning(cs[|cs| - 1], configDir, env);
        }
      }
    }
  }

  lemma {:induction false} RunHexKeys(cs: seq<Candidate>, configDir: string, env: PathEnv)
    requires AllHex(cs)
    requires Run(cs, configDir, env).Going?
    ensures forall i :: 0 <= i < |Run(cs, configDir, env).files| ==>
              StartsWith(Run(cs, configDir, env).files[i].0, HexPrefix)
  {
    if cs != [] {
      var init := cs[..|cs| - 1];
      assert AllHex(init) by {
        assert forall i :: 0 <= i < |init| ==> init[i] == cs[i];
      }
      RunHexKeys(init, configDir, env);
    }
  }

  // ---------------------------------------------------------------------
  // Properties of the load

  /** A successful load yields a non-empty map whose offsets are distinct and
      start with `0x`, whose paths are the last resolved entry per offset,
      and whose flash arguments the file listing can read. */
  lemma LoadedDescriptor(doc: Option<Json>, configDir: string, env: PathEnv)
    requires Load(doc, configDir, env).Loaded?
    ensures var r := Load(doc, configDir, env);
      && r.files != []
      && UniqueKeys(r.files)
      && (forall i :: 0 <= i < |r.files| ==> StartsWith(r.files[i].0, HexPrefix))
      && (forall o :: Get(r.files, o) == LastResolved(Candidates(doc.value.fields), o, configDir, env))
      && FlashMode(r.writeFlashArgs).Ok?
  {
    var cs := Candidates(doc.value.fields);
    CandidatesHex(doc.value.fields);
    RunHexKeys(cs, configDir, env);
    forall o ensures Get(Load(doc, configDir, env).files, o) == LastResolved(cs, o, configDir, env) {
      RunLookup(cs, o, configDir, env);
    }
  }

  /** All or nothing: for a readable object document, the load fails for
      want of files exactly when every entry is a string path that did not
      resolve. */
  lemma NoValidFilesIff(fields: seq<(string, Json)>, configDir: string, env: PathEnv)
    ensures var cs := Candidates(fields);
      Load(Some(Obj(fields)), configDir, env) == LoadFailed(NoValidFiles, Run(cs, configDir, env).warnings)
      <==> forall i :: 0 <= i < |cs| ==> Resolved(cs[i], configDir, env).None? && cs[i].path.Str?
  {
    var cs := Candidates(fields);
    RunAbortedIff(cs, configDir, env);
    if Run(cs, configDir, env).Going? {
      RunEmptyIff(cs, configDir, env);
    }
  }

  /** Sections are processed after `flash_files`: a section that resolves
      decides the path for its offset; otherwise `flash_files` does. */
  lemma SectionsWin(doc: Option<Json>, configDir: string, env: PathEnv, o: string)
    requires Load(doc, configDir, env).Loaded?
    ensures var fields := doc.value.fields;
      var fromSections := LastResolved(SectionCandidates(fields, SectionNames), o, configDir, env);
      Get(Load(doc, configDir, env).files, o)
        == if fromSections.Some? then fromSections
           else LastResolved(FileCandidates(FlashFilesItems(fields)), o, configDir, env)
  {
    var fields := doc.value.fields;
    LoadedDescriptor(doc, configDir, env);
    LastResolvedAppend(FileCandidates(FlashFilesItems(fields)), SectionCandidates(fields, SectionNames), o, configDir, env);
  }

  /** `write_flash_args` and `extra_esptool_args` are taken from the document
      when present and defaulted otherwise. */
  lemma LoadDefaults(doc: Option<Json>, configDir: string, env: PathEnv)
    requires Load(doc, configDir, env).Loaded?
    ensures var fields := doc.value.fields;
      var r := Load(doc, configDir, env);
      && (!HasField(fields, "write_flash_args") ==> r.writeFlashArgs == DefaultWriteFlashArgs)
      && (HasField(fields, "write_flash_args") ==> Lookup(fields, "write_flash_args") == Some(r.writeFlashArgs))
      && (!HasField(fields, "extra_esptool_args") ==> r.extraArgs == Obj([]))
      && (HasField(fields, "extra_esptool_args") ==> Lookup(fields, "extra_esptool_args") == Some(r.extraArgs))
  {
  }

  // ---------------------------------------------------------------------
  // Properties of the `--flash_mode` lookup

  /** On a list: the element after the first `--flash_mode`, `"dio"` when
      there is none, and an `IndexError` when the flag is the last element. */
  lemma FlashModeOfList(a: seq<Json>)
    ensures (forall j :: 0 <= j < |a| ==> a[j] != Str(FlashModeFlag)) ==> FlashMode(Arr(a)) == Ok(Str("dio"))
    ensures forall i :: 0 <= i < |a| && a[i] == Str(FlashModeFlag)
                        && (forall j :: 0 <= j < i ==> a[j] != Str(FlashModeFlag)) ==>
              FlashMode(Arr(a)) == if i + 1 < |a| then Ok(a[i + 1]) else Err(IndexOutOfRange)
  {
    forall i | 0 <= i < |a| && a[i] == Str(FlashModeFlag)
               && (forall j :: 0 <= j < i ==> a[j] != Str(FlashModeFlag))
      ensures FirstIndexOf(a, Str(FlashModeFlag)) == Some(i)
    {
      var r := FirstIndexOf(a, Str(FlashModeFlag));
      assert r.Some?;
      assert !(r.value < i);
      assert !(i < r.value);
    }
  }

  /** A string iterates as one-character strings, none of which is the flag. */
  lemma FlashModeOfText(s: string)
    ensures FlashMode(Str(s)) == Ok(Str("dio"))
  {
    var xs := Iterate(Str(s)).value;
    forall j | 0 <= j < |xs| ensures xs[j] != Str(FlashModeFlag) {
      assert |xs[j].s| == 1;
    }
  }

  lemma FlashModeOfDefaults()
    ensures FlashMode(DefaultWriteFlashArgs) == Ok(Str("dio"))
  {
    assert DefaultWriteFlashArgs.items[0] == Str(FlashModeFlag);
  }

  /** A document whose `write_flash_args` ends with its only `--flash_mode`
      makes the listing raise, so the load is rejected even though files
      resolved. */
  lemma TrailingFlashModeRejectsLoad(fields: seq<(string, Json)>, configDir: string, env: PathEnv, a: seq<Json>)
    requires Lookup(fields, "write_flash_args") == Some(Arr(a))
    requires |a| > 0 && a[|a| - 1] == Str(FlashModeFlag)
    requires forall j :: 0 <= j < |a| - 1 ==> a[j] != Str(FlashModeFlag)
    requires Run(Candidates(fields), configDir, env).Going?
    requires Run(Candidates(fields), configDir, env).files != []
    ensures Load(Some(Obj(fields)), configDir, env).LoadFailed?
    ensures Load(Some(Obj(fields)), configDir, env).error == ListingFailed
  {
    FlashModeOfList(a);
    assert FlashMode(Arr(a)) == Err(IndexOutOfRange);
  }

  lemma {:induction false} AbsentSectionsYieldNothing(fields: seq<(string, Json)>, names: seq<string>)
    requires forall k :: 0 <= k < |names| ==> !HasField(fields, names[k])
    ensures SectionCandidates(fields, names) == []
  {
    if names != [] {
      AbsentSectionsYieldNothing(fields, names[..|names| - 1]);
    }
  }

  lemma ResolvedNextToDocument(rel: string, offset: string, configDir: string, env: PathEnv)
    requires rel != []
    requires !env.fileExists(env.abspath(rel))
    requires env.fileExists(env.normpath(env.join(configDir, rel)))
    requires env.normpath(env.normpath(env.join(configDir, rel))) != ""
    ensures Resolved(Candidate(offset, Str(rel), offset), configDir, env)
              == Some(env.normpath(env.normpath(env.join(configDir, rel))))
  {
    ResolveFirstHit(rel, configDir, env);
    assert FirstHitAt(SearchPaths(rel, configDir, env), env, 1);
  }

  lemma TwoFilesCandidates()
    ensures
      var items := [("0x1000", Str("bootloader.bin")), ("0x10000", Str("app.bin"))];
      Candidates([("flash_files", Obj(items))])
        == [Candidate("0x1000", Str("bootloader.bin"), "0x1000"), Candidate("0x10000", Str("app.bin"), "0x10000")]
  {
    var items := [("0x1000", Str("bootloader.bin")), ("0x10000", Str("app.bin"))];
    var fields := [("flash_files", Obj(items))];
    assert StartsWith("0x1000", HexPrefix) && StartsWith("0x10000", HexPrefix);
    assert items[..1] == [items[0]] && items[..1][..0] == [];
    assert FileCandidates(items[..1]) == [Candidate("0x1000", Str("bootloader.bin"), "0x1000")];
    assert FileCandidates(items)
      == FileCandidates(items[..1]) + [Candidate("0x10000", Str("app.bin"), "0x10000")];
    assert FlashFilesItems(fields) == items;
    forall k | 0 <= k < |SectionNames| ensures !HasField(fields, SectionNames[k]) {
      assert SectionNames[k] != "flash_files";
    }
    AbsentSectionsYieldNothing(fields, SectionNames);
  }

  lemma TwoFilesRun(configDir: string, env: PathEnv)
    requires !env.fileExists(env.abspath("bootloader.bin"))
    requires env.fileExists(env.normpath(env.join(configDir, "bootloader.bin")))
    requires !env.fileExists(env.abspath("app.bin"))
    requires env.fileExists(env.normpath(env.join(configDir, "app.bin")))
    requires env.normpath(env.normpath(env.join(configDir, "bootloader.bin"))) != ""
    requires env.normpath(env.normpath(env.join(configDir, "app.bin"))) != ""
    ensures
      Run([Candidate("0x1000", Str("bootloader.bin"), "0x1000"), Candidate("0x10000", Str("app.bin"), "0x10000")], configDir, env)
        == Going([("0x1000", env.normpath(env.normpath(env.join(configDir, "bootloader.bin")))),
                  ("0x10000", env.normpath(env.normpath(env.join(configDir, "app.bin"))))], [])
  {
    var p1 := env.normpath(env.normpath(env.join(configDir, "bootloader.bin")));
    var p2 := env.normpath(env.normpath(env.join(configDir, "app.bin")));
    var c1 := Candidate("0x1000", Str("bootloader.bin"), "0x1000");
    var c2 := Candidate("0x10000", Str("app.bin"), "0x10000");
    ResolvedNextToDocument("bootloader.bin", "0x1000", configDir, env);
    ResolvedNextToDocument("app.bin", "0x10000", configDir, env);
    RunSnoc([], c1, configDir, env);
    RunSnoc([c1], c2, configDir, env);
    assert [c1] + [c2] == [c1, c2];
    var d1 := Set([], "0x1000", p1);
    assert d1 == [("0x1000", p1)];
    assert Run([c1], configDir, env) == Going(d1, []);
    assert !HasKey(d1, "0x10000");
  }

  /** A document with two `flash_files` entries whose files sit next to the
      document yields both, in document order, with the default arguments. */
  lemma TwoFilesNextToDocument(configDir: string, env: PathEnv)
    requires !env.fileExists(env.abspath("bootloader.bin"))
    requires env.fileExists(env.normpath(env.join(configDir, "bootloader.bin")))
    requires !env.fileExists(env.abspath("app.bin"))
    requires env.fileExists(env.normpath(env.join(configDir, "app.bin")))
    requires env.normpath(env.normpath(env.join(configDir, "bootloader.bin"))) != ""
    requires env.normpath(env.normpath(env.join(configDir, "app.bin"))) != ""
    ensures
      var doc := Obj([("flash_files", Obj([("0x1000", Str("bootloader.bin")), ("0x10000", Str("app.bin"))]))]);
      Load(Some(doc), configDir, env)
        == Loaded([("0x1000", env.normpath(env.normpath(env.join(configDir, "bootloader.bin")))),
                   ("0x10000", env.normpath(env.normpath(env.join(configDir, "app.bin"))))],
                  DefaultWriteFlashArgs, Obj([]), [])
  {
    var fields := [("flash_files", Obj([("0x1000", Str("bootloader.bin")), ("0x10000", Str("app.bin"))]))];
    TwoFilesCandidates();
    TwoFilesRun(configDir, env);
    assert GetFieldOr(fields, "write_flash_args", DefaultWriteFlashArgs) == DefaultWriteFlashArgs;
    assert GetFieldOr(fields, "extra_esptool_args", Obj([])) == Obj([]);
    FlashModeOfDefaults();
  }
}
