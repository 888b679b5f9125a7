/** The tool's window object: the flashing parameters it holds between
    button presses, and the operations that change them. Widgets, dialogs,
    threads and the serial port are not modelled; what a dialog or the file
    system answers comes in as a parameter. */
module FlashTool {
  import opened Base
  import opened Json
  import opened PyDict
  import opened Paths
  import opened FlasherArgs
  import opened Records
  import opened Command
  import opened Telemetry

  class FlashTool {
    /** offset -> image path, in insertion order */
    var flashFiles: Dict<string>
    var flashArgs: Dict<Json>
    /** (path, offset) pairs added by hand */
    var customFiles: seq<(string, string)>
    /** the last manufacturing record decoded from the serial monitor */
    var jsonData: Option<Json>
    var csvFilePath: Option<string>
    var writeFlashArgs: Json
    var extraEsptoolArgs: Json
    var lastError: Option<string>

    /** The flash map is a dictionary keyed by offsets that start with `0x`. */
    predicate Valid()
      reads this
    {
      && UniqueKeys(flashFiles)
      && forall i :: 0 <= i < |flashFiles| ==> StartsWith(flashFiles[i].0, HexPrefix)
    }

    /** The state `clear_files` leaves, apart from the CSV path it keeps. */
    predicate Cleared()
      reads this
    {
      && flashFiles == [] && flashArgs == [] && customFiles == []
      && jsonData == None
      && writeFlashArgs == DefaultWriteFlashArgs
      && extraEsptoolArgs == Obj([])
      && lastError == None
    }

    /** `__init__`: empty parameters (the write-flash arguments start as an
        empty list, not the defaults) and the CSV path the start-up dialog
        returned, where `""` is a cancelled dialog. */
    constructor (chosenCsv: string)
      ensures Valid()
      ensures flashFiles == [] && flashArgs == [] && customFiles == []
      ensures jsonData == None && lastError == None
      ensures writeFlashArgs == Arr([]) && extraEsptoolArgs == Obj([])
      ensures csvFilePath == if chosenCsv == "" then None else Some(chosenCsv)
    {
      flashFiles := [];
      flashArgs := [];
      customFiles := [];
      jsonData := None;
      writeFlashArgs := Arr([]);
      extraEsptoolArgs := Obj([]);
      lastError := None;
      csvFilePath := if chosenCsv == "" then None else Some(chosenCsv);
    }

    /** `clear_files`: forget the files, the record and any recorded error,
        and go back to the default write-flash arguments. The listing it
        refreshes stops at the empty map before its `--flash_mode` lookup, so
        its error branch is not reached. */
    method ClearFiles()
      modifies this
      ensures Valid() && Cleared()
      ensures csvFilePath == old(csvFilePath)
    {
      flashFiles := [];
      flashArgs := [];
      customFiles := [];
      jsonData := None;
      writeFlashArgs := DefaultWriteFlashArgs;
      extraEsptoolArgs := Obj([]);
      lastError := None;
    }

    /** `process_flasher_args` for the document at `jsonPath`, given what
        reading and decoding it produced (`None` when either failed). On
        success the tool holds the loaded map and arguments; on any failure
        it is left cleared. */
    method ProcessFlasherArgs(jsonPath: string, doc: Option<Json>, env: PathEnv) returns (r: LoadResult)
      modifies this
      ensures r == Load(doc, env.dirname(env.abspath(jsonPath)), env)
      ensures Valid()
      ensures csvFilePath == old(csvFilePath)
      ensures r.Loaded? ==>
        && flashFiles == r.files && writeFlashArgs == r.writeFlashArgs
        && extraEsptoolArgs == r.extraArgs
        && flashArgs == [] && customFiles == [] && jsonData == None && lastError == None
      ensures r.LoadFailed? ==> Cleared()
    {
      ClearFiles();
      var configDir := env.dirname(env.abspath(jsonPath));
      if doc.None? {
        return LoadFailed(LoadError.Unreadable, []);
      }
      if !doc.value.Obj? {
        return LoadFailed(NotAnObject, []);
      }
      var fields := doc.value.fields;
      var acc := ReadEntries(fields, configDir, env);
      if acc.Aborted? {
        return LoadFailed(PathNotText, acc.warnings);
      }
      var processed, warnings := acc.files, acc.warnings;
      if processed == [] {
        return LoadFailed(NoValidFiles, warnings);
      }
      LoadedKeys(doc, configDir, env);
      r := Install(fields, processed, warnings);
    }

    /** Storing the gathered map and the arguments, then refreshing the
        listing, whose `--flash_mode` lookup may raise and clear everything. */
    method Install(fields: seq<(string, Json)>, processed: Dict<string>, warnings: seq<Warning>)
      returns (r: LoadResult)
      requires UniqueKeys(processed)
      requires forall i :: 0 <= i < |processed| ==> StartsWith(processed[i].0, HexPrefix)
      requires Cleared()
      modifies this
      ensures var args := GetFieldOr(fields, "write_flash_args", DefaultWriteFlashArgs);
        r == if FlashMode(args).Err? then LoadFailed(ListingFailed, warnings)
             else Loaded(processed, args, GetFieldOr(fields, "extra_esptool_args", Obj([])), warnings)
      ensures Valid()
      ensures csvFilePath == old(csvFilePath)
      ensures r.Loaded? ==>
        && flashFiles == r.files && writeFlashArgs == r.writeFlashArgs
        && extraEsptoolArgs == r.extraArgs
        && flashArgs == [] && customFiles == [] && jsonData == None && lastError == None
      ensures r.LoadFailed? ==> Cleared()
    {
      flashFiles := processed;
      assert Valid();
      writeFlashArgs := GetFieldOr(fields, "write_flash_args", DefaultWriteFlashArgs);
      extraEsptoolArgs := GetFieldOr(fields, "extra_esptool_args", Obj([]));
      // the listing's `--flash_mode` lookup
      if FlashMode(writeFlashArgs).Err? {
        ClearFiles();
        return LoadFailed(ListingFailed, warnings);
      }
      r := Loaded(processed, writeFlashArgs, extraEsptoolArgs, warnings);
    }

    /** `save_json_to_csv` for the record held: the outcome for the file as
        found; the tool's own state does not change. */
    method SaveJsonToCsv(file: CsvFile, writable: bool) returns (out: SaveOutcome)
      ensures out == Save(jsonData, csvFilePath, file, writable)
    {
      if jsonData.None? || !Truthy(jsonData.value) {
        return NoData;
      }
      if csvFilePath.None? || csvFilePath.value == "" {
        return NoPath;
      }
      if !jsonData.value.Obj? || file.Unreadable? {
        return SaveFailed(None);
      }
      var fields := jsonData.value.fields;
      var existing := if file.Present? then file.rows else [];
      var rows := UpsertRows(existing, RowOf(fields));
      if !writable {
        return SaveFailed(None);
      }
      match WriteTable(FieldNames(fields), rows)
      case Complete(t) => out := Saved(t);
      case Truncated(t) => out := SaveFailed(Some(t));
    }

    /** `flash_device`: the outcome of a press of the flash button. The
        write-flash arguments are replaced by the prompted ones only when they
        were falsy and all three prompts were answered, even if the flash then
        stops. */
    method FlashDevice(port: Option<string>, baud: string, prompts: Prompts, esptool: string) returns (out: Outcome)
      requires Valid()
      modifies this`writeFlashArgs
      ensures Valid()
      ensures out == FlashPlan(port, baud, flashFiles, extraEsptoolArgs, old(writeFlashArgs), prompts, esptool)
      ensures out.Launch? ==>
        && Given(port) && extraEsptoolArgs.Obj? && Iterate(writeFlashArgs).Some?
        && LaunchLine(out.args, esptool, port.value, baud, extraEsptoolArgs.fields,
                      Iterate(writeFlashArgs).value, flashFiles)
      ensures writeFlashArgs ==
        if Given(port) && baud != "" && flashFiles != [] && extraEsptoolArgs.Obj?
           && EffectiveArgs(old(writeFlashArgs), prompts).Ok?
        then EffectiveArgs(old(writeFlashArgs), prompts).value
        else old(writeFlashArgs)
    {
      if !Given(port) || baud == "" {
        return Refused(NoPortOrBaud);
      }
      if flashFiles == [] {
        return Refused(NoFiles);
      }
      if !extraEsptoolArgs.Obj? {
        return Refused(ExtraNotObject);
      }
      var base := BaseCommand(esptool, port.value, baud, extraEsptoolArgs.fields);
      if !Truthy(writeFlashArgs) {
        if Given(prompts.mode) && Given(prompts.freq) && Given(prompts.size) {
          writeFlashArgs := Arr(Strs(["--flash_mode", prompts.mode.value, "--flash_freq", prompts.freq.value,
                                      "--flash_size", prompts.size.value]));
        } else {
          return Refused(ParamsNotEntered);
        }
      }
      var items := Iterate(writeFlashArgs);
      if items.None? {
        return Refused(ArgsNotIterable);
      }
      var cmd := BuildCommand(base, items.value, flashFiles);
      if AllText(cmd) {
        out := Launch(Texts(cmd));
        TextsAreLaunchLine(esptool, port.value, baud, extraEsptoolArgs.fields, items.value, flashFiles);
      } else {
        out := NotText(cmd);
      }
    }

    /** One line read by the serial monitor: a manufacturing frame that
        `decode` (standing for `json.loads`) accepts becomes the held record
        and is saved; any other line changes nothing. */
    method OnSerialLine(data: string, decode: string -> Option<Json>, file: CsvFile, writable: bool)
      returns (out: Option<SaveOutcome>)
      requires Valid()
      modifies this`jsonData
      ensures Valid()
      ensures ExtractFrame(data).Some? && decode(ExtractFrame(data).value).Some? ==>
        && jsonData == decode(ExtractFrame(data).value)
        && out == Some(Save(jsonData, csvFilePath, file, writable))
      ensures !(ExtractFrame(data).Some? && decode(ExtractFrame(data).value).Some?) ==>
        jsonData == old(jsonData) && out == None
    {
      out := None;
      if data != "" && Contains(data, Guard) {
        var frame := ExtractFrame(data);
        if frame.Some? {
          var v := decode(frame.value);
          if v.Some? {
            jsonData := v;
            var saved := SaveJsonToCsv(file, writable);
            out := Some(saved);
          }
        }
      }
    }
  }

  /** In a launched command line the offset words come from a valid flash
      map: each starts with `0x` and no two are alike, so esptool is never
      asked to write two images at one offset. */
  lemma LaunchedOffsets(args: seq<string>, files: Dict<string>, i: int, j: int)
    requires FilesAtEnd(args, files) && UniqueKeys(files)
    requires forall k :: 0 <= k < |files| ==> StartsWith(files[k].0, HexPrefix)
    requires 0 <= i < |files| && 0 <= j < |files| && i != j
    ensures StartsWith(args[|args| - 2 * |files| + 2 * i], HexPrefix)
    ensures args[|args| - 2 * |files| + 2 * i] != args[|args| - 2 * |files| + 2 * j]
  {
    assert args[|args| - 2 * |files| + 2 * i] == files[i].0;
    assert args[|args| - 2 * |files| + 2 * j] == files[j].0;
  }

  /** Both loops of `process_flasher_args`: the `flash_files` entries, then
      the named sections, stopping early if a warning raises. */
  method ReadEntries(fields: seq<(string, Json)>, configDir: string, env: PathEnv) returns (acc: Acc)
    ensures acc == Run(Candidates(fields), configDir, env)
  {
    var items := FlashFilesItems(fields);
    acc := GatherFlashFiles(items, configDir, env);
    if acc.Aborted? {
      RunAbortSticky(FileCandidates(items), SectionCandidates(fields, SectionNames), configDir, env);
      return;
    }
    acc := GatherSections(fields, SectionNames, FileCandidates(items), acc, configDir, env);
  }

  /** The body both loops share: resolve the entry's path and store it under
      its offset, or warn that it was not found; warning about a path that is
      not a string raises. */
  method ProcessEntry(processed: Dict<string>, warnings: seq<Warning>, c: Candidate,
                      configDir: string, env: PathEnv) returns (acc: Acc)
    requires UniqueKeys(processed)
    ensures acc == Step(Going(processed, warnings), c, configDir, env)
  {
    var abs := ResolveFilePath(c.path, configDir, env);
    if abs.Some? && abs.value != "" {
      acc := Going(Set(processed, c.offset, abs.value), warnings);
    } else if c.path.Str? {
      acc := Going(processed, warnings + [MakeWarning(c, configDir, env)]);
    } else {
      acc := Aborted(warnings);
    }
  }

  /** The `flash_files` loop of `process_flasher_args`: each entry with a
      `0x` offset is resolved and stored, or warned about; the warning for a
      path that is not a string raises and ends the loop. */
  method GatherFlashFiles(items: seq<(string, Json)>, configDir: string, env: PathEnv) returns (acc: Acc)
    ensures acc == Run(FileCandidates(items), configDir, env)
  {
    var processed: Dict<string> := [];
    var warnings: seq<Warning> := [];
    var i := 0;
    while i < |items|
      invariant 0 <= i <= |items|
      invariant Run(FileCandidates(items[..i]), configDir, env) == Going(processed, warnings)
    {
      var (offset, rel) := items[i];
      FileCandidatesSnoc(items, i);
      if StartsWith(offset, HexPrefix) {
        var c := Candidate(offset, rel, offset);
        assert FileCandidates(items[..i + 1]) == FileCandidates(items[..i]) + [c];
        RunSnoc(FileCandidates(items[..i]), c, configDir, env);
        var next := ProcessEntry(processed, warnings, c, configDir, env);
        if next.Aborted? {
          FilesAfterAbort(items, i, configDir, env);
          return next;
        }
        processed, warnings := next.files, next.warnings;
      } else {
        assert FileCandidates(items[..i + 1]) == FileCandidates(items[..i]);
      }
      i := i + 1;
    }
    assert items[..i] == items;
    acc := Going(processed, warnings);
  }

  /** One named section: when it is an object whose `offset` is a string
      starting with `0x` and whose `file` is truthy, its entry is processed;
      otherwise it is passed over. */
  method ProcessSection(fields: seq<(string, Json)>, name: string, done: seq<Candidate>,
                        processed: Dict<string>, warnings: seq<Warning>,
                        configDir: string, env: PathEnv) returns (acc: Acc)
    requires Run(done, configDir, env) == Going(processed, warnings)
    ensures acc == Run(done + SectionCandidate(fields, name), configDir, env)
  {
    var section := Lookup(fields, name);
    if section.Some? && section.value.Obj? {
      var sd := section.value.fields;
      var offset := GetField(sd, "offset");
      var rel := GetField(sd, "file");
      if Truthy(offset) && Truthy(rel) && offset.Str? && StartsWith(offset.s, HexPrefix) {
        var c := Candidate(offset.s, rel, name + " (" + offset.s + ")");
        assert SectionCandidate(fields, name) == [c];
        RunSnoc(done, c, configDir, env);
        acc := ProcessEntry(processed, warnings, c, configDir, env);
        return;
      }
    }
    assert done + SectionCandidate(fields, name) == done;
    acc := Going(processed, warnings);
  }

  /** The loop over the named sections (`SectionNames` in the tool),
      continuing from the state `start` reached on the entries `prior`. */
  method GatherSections(fields: seq<(string, Json)>, names: seq<string>, prior: seq<Candidate>, start: Acc,
                        configDir: string, env: PathEnv) returns (acc: Acc)
    requires start == Run(prior, configDir, env) && start.Going?
    ensures acc == Run(prior + SectionCandidates(fields, names), configDir, env)
  {
    var processed, warnings := start.files, start.warnings;
    var k := 0;
    SectionsStart(fields, names, prior);
    while k < |names|
      invariant 0 <= k <= |names|
      invariant Run(prior + SectionCandidates(fields, names[..k]), configDir, env) == Going(processed, warnings)
    {
      var done := prior + SectionCandidates(fields, names[..k]);
      SectionsStep(fields, names, prior, k);
      var after := ProcessSection(fields, names[k], done, processed, warnings, configDir, env);
      if after.Aborted? {
        SectionsAfterAbort(fields, names, prior, k, configDir, env);
        return after;
      }
      processed, warnings := after.files, after.warnings;
      k := k + 1;
    }
    SectionsStart(fields, names, prior);
    acc := Going(processed, warnings);
  }

  // Proof step for the section loop: its invariant holds on entry.
  lemma SectionsStart(fields: seq<(string, Json)>, names: seq<string>, prior: seq<Candidate>)
    ensures prior + SectionCandidates(fields, names[..0]) == prior
    ensures names[..|names|] == names
  {
    assert names[..0] == [];
  }

  lemma SectionsStep(fields: seq<(string, Json)>, names: seq<string>, prior: seq<Candidate>, k: nat)
    requires k < |names|
    ensures prior + SectionCandidates(fields, names[..k + 1])
         == (prior + SectionCandidates(fields, names[..k])) + SectionCandidate(fields, names[k])
  {
    SectionCandidatesSnoc(fields, names, k);
  }

  lemma SectionCandidatesSnoc(fields: seq<(string, Json)>, names: seq<string>, k: nat)
    requires k < |names|
    ensures SectionCandidates(fields, names[..k + 1])
         == SectionCandidates(fields, names[..k]) + SectionCandidate(fields, names[k])
  {
    assert names[..k + 1][..k] == names[..k];
  }

  lemma FileCandidatesSnoc(items: seq<(string, Json)>, i: nat)
    requires i < |items|
    ensures FileCandidates(items[..i + 1]) == FileCandidates(items[..i]) + FileCandidate(items[i])
  {
    assert items[..i + 1][..i] == items[..i];
  }

  lemma FilesAfterAbort(items: seq<(string, Json)>, i: nat, configDir: string, env: PathEnv)
    requires i < |items|
    requires Run(FileCandidates(items[..i + 1]), configDir, env).Aborted?
    ensures Run(FileCandidates(items), configDir, env) == Run(FileCandidates(items[..i + 1]), configDir, env)
  {
    SplitAt(items, i + 1);
    FileCandidatesAppend(items[..i + 1], items[i + 1..]);
    RunAbortSticky(FileCandidates(items[..i + 1]), FileCandidates(items[i + 1..]), configDir, env);
  }

  lemma SectionsAfterAbort(fields: seq<(string, Json)>, names: seq<string>, prior: seq<Candidate>, k: nat,
                           configDir: string, env: PathEnv)
    requires k < |names|
    requires Run(prior + SectionCandidates(fields, names[..k + 1]), configDir, env).Aborted?
    ensures Run(prior + SectionCandidates(fields, names), configDir, env)
         == Run(prior + SectionCandidates(fields, names[..k + 1]), configDir, env)
  {
    SectionCandidatesSplit(fields, names, prior, k + 1);
    RunAbortSticky(prior + SectionCandidates(fields, names[..k + 1]), SectionCandidates(fields, names[k + 1..]),
                   configDir, env);
  }

  lemma SectionCandidatesSplit(fields: seq<(string, Json)>, names: seq<string>, prior: seq<Candidate>, i: nat)
    requires i <= |names|
    ensures prior + SectionCandidates(fields, names)
         == (prior + SectionCandidates(fields, names[..i])) + SectionCandidates(fields, names[i..])
  {
    SplitAt(names, i);
    SectionCandidatesAppend(fields, names[..i], names[i..]);
  }

  // Proof step: a sequence is its prefix followed by its suffix.
  lemma SplitAt<T>(s: seq<T>, i: nat)
    requires i <= |s|
    ensures s[..i] + s[i..] == s
  {
  }

  lemma {:induction false} SectionCandidatesAppend(fields: seq<(string, Json)>, a: seq<string>, b: seq<string>)
    ensures SectionCandidates(fields, a + b) == SectionCandidates(fields, a) + SectionCandidates(fields, b)
  {
    if b != [] {
      var b' := b[..|b| - 1];
      assert (a + b)[..|a + b| - 1] == a + b';
      assert (a + b)[|a + b| - 1] == b[|b| - 1];
      SectionCandidatesAppend(fields, a, b');
    } else {
      assert a + b == a;
    }
  }

  /** The keys of a non-empty run over a document's entries. */
  lemma LoadedKeys(doc: Option<Json>, configDir: string, env: PathEnv)
    requires doc.Some? && doc.value.Obj?
    requires Run(Candidates(doc.value.fields), configDir, env).Going?
    ensures var files := Run(Candidates(doc.value.fields), configDir, env).files;
      UniqueKeys(files) && forall i :: 0 <= i < |files| ==> StartsWith(files[i].0, HexPrefix)
  {
    CandidatesHex(doc.value.fields);
    RunHexKeys(Candidates(doc.value.fields), configDir, env);
  }

  /** Arguments built from the prompts always carry the prompted flash mode
      where the file listing looks for it. */
  lemma PromptedArgsHaveMode(current: Json, m: string, f: string, z: string)
    requires !Truthy(current) && m != "" && f != "" && z != ""
    ensures EffectiveArgs(current, Prompts(Some(m), Some(f), Some(z))).Ok?
    ensures FlashMode(EffectiveArgs(current, Prompts(Some(m), Some(f), Some(z))).value) == Ok(Str(m))
  {
    var args := EffectiveArgs(current, Prompts(Some(m), Some(f), Some(z))).value;
    var items := Strs(["--flash_mode", m, "--flash_freq", f, "--flash_size", z]);
    assert args == Arr(items);
    assert items[0] == Str(FlashModeFlag);
    assert FirstIndexOf(items, Str(FlashModeFlag)) == Some(0);
  }
}
