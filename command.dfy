/** The esptool command line that `flash_device` assembles: a fixed prefix
    with the port, the baud rate and three `extra_esptool_args` settings, then
    the write-flash arguments, then one offset and one file per flash entry,
    in the dictionary's insertion order. */
module Command {
  import opened Base
  import opened Json
  import opened PyDict

  /** What the three `askstring` prompts returned; `None` is a cancelled
      prompt. */
  datatype Prompts = Prompts(mode: Option<string>, freq: Option<string>, size: Option<string>)

  /** Why `flash_device` stops before launching esptool. */
  datatype Refusal =
    | NoPortOrBaud      // error dialog: no port or baud rate selected
    | NoFiles           // error dialog: the flash map is empty
    | ExtraNotObject    // `extra_esptool_args.get` raises: not a dictionary
    | ParamsNotEntered  // error dialog: a prompt was cancelled or left empty
    | ArgsNotIterable   // `cmd.extend(write_flash_args)` raises

  datatype Outcome =
    | Refused(reason: Refusal)
      /** The command holds a non-string, so `" ".join(cmd)` fails inside the
          `try` and esptool is never started. */
    | NotText(cmd: seq<Json>)
    | Launch(args: seq<string>)

  predicate Given(v: Option<string>) {
    v.Some? && v.value != ""
  }

  /** The fixed prefix of the command, up to `write_flash`. */
  function BaseCommand(esptool: string, port: string, baud: string, extra: seq<(string, Json)>): (r: seq<Json>)
    ensures |r| == 13 && r[12] == Str("write_flash")
    ensures r[3] == Str(port) && r[5] == Str(baud)
    ensures r[7] == GetFieldOr(extra, "before", Str("default_reset"))
    ensures r[9] == GetFieldOr(extra, "after", Str("hard_reset"))
    ensures r[11] == GetFieldOr(extra, "chip", Str("esp32"))
  {
    [Str("python"), Str(esptool), Str("-p"), Str(port), Str("-b"), Str(baud),
     Str("--before"), GetFieldOr(extra, "before", Str("default_reset")),
     Str("--after"), GetFieldOr(extra, "after", Str("hard_reset")),
     Str("--chip"), GetFieldOr(extra, "chip", Str("esp32")),
     Str("write_flash")]
  }

  /** The write-flash arguments after the prompt step: kept when truthy,
      otherwise replaced by the three prompted values (mode, frequency, size,
      in that order). */
  function EffectiveArgs(current: Json, prompts: Prompts): (r: Result<Json, Refusal>)
    ensures Truthy(current) ==> r == Ok(current)
    ensures r.Err? <==> !Truthy(current) && !(Given(prompts.mode) && Given(prompts.freq) && Given(prompts.size))
    ensures !Truthy(current) && Given(prompts.mode) && Given(prompts.freq) && Given(prompts.size) ==>
      r == Ok(Arr(Strs(["--flash_mode", prompts.mode.value, "--flash_freq", prompts.freq.value,
                        "--flash_size", prompts.size.value])))
  {
    if Truthy(current) then Ok(current)
    else if Given(prompts.mode) && Given(prompts.freq) && Given(prompts.size) then
      Ok(Arr(Strs(["--flash_mode", prompts.mode.value, "--flash_freq", prompts.freq.value,
                   "--flash_size", prompts.size.value])))
    else Err(ParamsNotEntered)
  }

  /** The offsets and files of a flash map, flattened pair by pair. */
  function FileArgs(files: Dict<string>): seq<Json> {
    if files == [] then []
    else FileArgs(files[..|files| - 1]) + [Str(files[|files| - 1].0), Str(files[|files| - 1].1)]
  }

  /** `cmd` after `cmd.extend(write_flash_args)` and the loop over the flash
      map: the base, then the arguments, then each offset followed by its
      file. */
  method BuildCommand(base: seq<Json>, args: seq<Json>, files: Dict<string>) returns (cmd: seq<Json>)
    ensures |cmd| == |base| + |args| + 2 * |files|
    ensures cmd[..|base| + |args|] == base + args
    ensures forall i :: 0 <= i < |files| ==>
      cmd[|base| + |args| + 2 * i] == Str(files[i].0) && cmd[|base| + |args| + 2 * i + 1] == Str(files[i].1)
    ensures cmd == base + args + FileArgs(files)
  {
    cmd := base + args;
    var k := |base| + |args|;
    var n := 0;
    while n < |files|
      invariant 0 <= n <= |files|
      invariant |cmd| == k + 2 * n
      invariant cmd[..k] == base + args
      invariant forall i :: 0 <= i < n ==>
        cmd[k + 2 * i] == Str(files[i].0) && cmd[k + 2 * i + 1] == Str(files[i].1)
      invariant cmd == base + args + FileArgs(files[..n])
    {
      var (offset, file) := files[n];
      assert files[..n + 1][..n] == files[..n];
      cmd := cmd + [Str(offset), Str(file)];
      n := n + 1;
    }
    assert files[..n] == files;
  }

  predicate AllText(cmd: seq<Json>) {
    forall i :: 0 <= i < |cmd| ==> cmd[i].Str?
  }

  function Texts(cmd: seq<Json>): (r: seq<string>)
    requires AllText(cmd)
    ensures |r| == |cmd| && forall i :: 0 <= i < |r| ==> cmd[i] == Str(r[i])
  {
    if cmd == [] then [] else Texts(cmd[..|cmd| - 1]) + [cmd[|cmd| - 1].s]
  }

  /** What `flash_device` does, checks in the source's order. */
  function FlashPlan(port: Option<string>, baud: string, files: Dict<string>, extra: Json,
                     current: Json, prompts: Prompts, esptool: string): Outcome
  {
    if !Given(port) || baud == "" then Refused(NoPortOrBaud)
    else if files == [] then Refused(NoFiles)
    else if !extra.Obj? then Refused(ExtraNotObject)
    else
      match EffectiveArgs(current, prompts)
      case Err(e) => Refused(e)
      case Ok(args) =>
        match Iterate(args)
        case None => Refused(ArgsNotIterable)
        case Some(items) =>
          var cmd := BaseCommand(esptool, port.value, baud, extra.fields) + items + FileArgs(files);
          if AllText(cmd) then Launch(Texts(cmd)) else NotText(cmd)
  }

  /** Each flash entry contributes its offset, then its file. */
  lemma {:induction false} FileArgsPairs(files: Dict<string>)
    ensures |FileArgs(files)| == 2 * |files|
    ensures forall i :: 0 <= i < |files| ==>
      FileArgs(files)[2 * i] == Str(files[i].0) && FileArgs(files)[2 * i + 1] == Str(files[i].1)
  {
    if files != [] {
      var init := files[..|files| - 1];
      FileArgsPairs(init);
      forall i | 0 <= i < |init| ensures files[i] == init[i] { }
    }
  }

  /** The text form of a command ends with the flash map, pair by pair. */
  lemma TextsEndWithFiles(head: seq<Json>, files: Dict<string>)
    requires AllText(head + FileArgs(files))
    ensures |Texts(head + FileArgs(files))| == |head| + 2 * |files|
    ensures FilesAtEnd(Texts(head + FileArgs(files)), files)
  {
    var cmd := head + FileArgs(files);
    FileArgsPairs(files);
    forall i | 0 <= i < |files|
      ensures cmd[|head| + 2 * i] == Str(files[i].0) && cmd[|head| + 2 * i + 1] == Str(files[i].1)
    {
      assert cmd[|head| + 2 * i] == FileArgs(files)[2 * i];
      assert cmd[|head| + 2 * i + 1] == FileArgs(files)[2 * i + 1];
    }
  }

  /** The command a launch runs, with the checks it passed; a proof step
      for the launch lemmas, not a separate promise of the source. */
  lemma PlanCommand(port: Option<string>, baud: string, files: Dict<string>, extra: Json,
                    current: Json, prompts: Prompts, esptool: string)
    requires FlashPlan(port, baud, files, extra, current, prompts, esptool).Launch?
    ensures Given(port) && baud != "" && files != [] && extra.Obj?
    ensures EffectiveArgs(current, prompts).Ok? && Iterate(EffectiveArgs(current, prompts).value).Some?
    ensures var cmd := BaseCommand(esptool, port.value, baud, extra.fields)
                       + Iterate(EffectiveArgs(current, prompts).value).value + FileArgs(files);
      AllText(cmd) && FlashPlan(port, baud, files, extra, current, prompts, esptool).args == Texts(cmd)
  {
  }

  /** A launched command line: the port and baud rate in place, the three
      esptool options with the values taken from `extra` (or their
      defaults), `write_flash`, then the write-flash arguments `mid` word for
      word, and the flash map at the end, each offset followed by its file. */
  predicate LaunchLine(args: seq<string>, esptool: string, port: string, baud: string,
                       extra: seq<(string, Json)>, mid: seq<Json>, files: Dict<string>) {
    && |args| == 13 + |mid| + 2 * |files|
    && args[0] == "python" && args[1] == esptool
    && args[2] == "-p" && args[3] == port && args[4] == "-b" && args[5] == baud
    && args[6] == "--before" && Str(args[7]) == GetFieldOr(extra, "before", Str("default_reset"))
    && args[8] == "--after" && Str(args[9]) == GetFieldOr(extra, "after", Str("hard_reset"))
    && args[10] == "--chip" && Str(args[11]) == GetFieldOr(extra, "chip", Str("esp32"))
    && args[12] == "write_flash"
    && (forall i :: 0 <= i < |mid| ==> mid[i] == Str(args[13 + i]))
    && FilesAtEnd(args, files)
  }

  /** The last `2 * |files|` words are each offset followed by its path. */
  predicate FilesAtEnd(args: seq<string>, files: Dict<string>) {
    && |args| >= 2 * |files|
    && forall i :: 0 <= i < |files| ==>
         args[|args| - 2 * |files| + 2 * i] == files[i].0
         && args[|args| - 2 * |files| + 2 * i + 1] == files[i].1
  }

  lemma TextsAreLaunchLine(esptool: string, port: string, baud: string, extra: seq<(string, Json)>,
                           items: seq<Json>, files: Dict<string>)
    requires AllText(BaseCommand(esptool, port, baud, extra) + items + FileArgs(files))
    ensures LaunchLine(Texts(BaseCommand(esptool, port, baud, extra) + items + FileArgs(files)),
                       esptool, port, baud, extra, items, files)
  {
    var base := BaseCommand(esptool, port, baud, extra);
    var head := base + items;
    var cmd := head + FileArgs(files);
    TextsEndWithFiles(head, files);
    var args := Texts(cmd);
    assert |args| == 13 + |items| + 2 * |files|;
    forall i | 0 <= i < 13 ensures base[i] == Str(args[i]) {
      assert cmd[i] == base[i];
    }
    forall i | 0 <= i < |items| ensures items[i] == Str(args[13 + i]) {
      assert cmd[13 + i] == items[i];
    }
  }

  /** Launching needs a port, a baud rate, at least one file and a
      dictionary of esptool options, and runs the head with those options,
      the write-flash arguments word for word, and the flash map. */
  lemma LaunchShape(port: Option<string>, baud: string, files: Dict<string>, extra: Json,
                    current: Json, prompts: Prompts, esptool: string)
    requires FlashPlan(port, baud, files, extra, current, prompts, esptool).Launch?
    ensures Given(port) && baud != "" && files != [] && extra.Obj?
    ensures EffectiveArgs(current, prompts).Ok? && Iterate(EffectiveArgs(current, prompts).value).Some?
    ensures LaunchLine(FlashPlan(port, baud, files, extra, current, prompts, esptool).args,
                       esptool, port.value, baud, extra.fields,
                       Iterate(EffectiveArgs(current, prompts).value).value, files)
  {
    PlanCommand(port, baud, files, extra, current, prompts, esptool);
    TextsAreLaunchLine(esptool, port.value, baud, extra.fields,
                       Iterate(EffectiveArgs(current, prompts).value).value, files);
  }

  /** With no write-flash arguments the three prompted values go in as mode,
      then frequency, then size, right after `write_flash`. */
  lemma PromptedArgsOrder(port: Option<string>, baud: string, files: Dict<string>, extra: Json,
                          current: Json, m: string, f: string, z: string, esptool: string)
    requires !Truthy(current) && m != "" && f != "" && z != ""
    requires FlashPlan(port, baud, files, extra, current, Prompts(Some(m), Some(f), Some(z)), esptool).Launch?
    ensures FlashPlan(port, baud, files, extra, current, Prompts(Some(m), Some(f), Some(z)), esptool).args[13..19]
         == ["--flash_mode", m, "--flash_freq", f, "--flash_size", z]
  {
    var prompts := Prompts(Some(m), Some(f), Some(z));
    var items := Iterate(EffectiveArgs(current, prompts).value).value;
    assert items == Strs(["--flash_mode", m, "--flash_freq", f, "--flash_size", z]);
    var base := BaseCommand(esptool, port.value, baud, extra.fields);
    var cmd := base + items + FileArgs(files);
    var args := Texts(cmd);
    forall i | 13 <= i < 19 ensures args[i] == ["--flash_mode", m, "--flash_freq", f, "--flash_size", z][i - 13] {
      assert cmd[i] == items[i - 13];
    }
  }

  /** A write-flash argument that is not a string stops the flash at the
      logging step, whatever else is set. */
  lemma NonTextArgumentBlocksLaunch(port: Option<string>, baud: string, files: Dict<string>,
                                    extra: Json, items: seq<Json>, j: nat, prompts: Prompts, esptool: string)
    requires Given(port) && baud != "" && files != [] && extra.Obj?
    requires items != [] && j < |items| && !items[j].Str?
    ensures FlashPlan(port, baud, files, extra, Arr(items), prompts, esptool).NotText?
  {
    var cmd := BaseCommand(esptool, port.value, baud, extra.fields) + items + FileArgs(files);
    assert cmd[13 + j] == items[j];
  }
}
