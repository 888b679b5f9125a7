# ESP flashing tool: provisioning state, flasher-args loading, CSV upsert, command line, telemetry frames

`esp_flash_toolv2.py` is a Tk desktop tool. It loads an ESP-IDF
`flasher_args.json`, builds an `esptool` command line that writes each image at
its offset, and runs it. It then listens on the serial port for a JSON
manufacturing report and upserts that report, keyed by `hw_id`, into a CSV
table. This project models the logic at the core of the tool. The state the
tool keeps between button presses is a Dafny `class` whose methods change it.
The rules those methods follow are pure functions, with lemmas about them.

- **Base, Json, PyDict** (`base.dfy`, `json.dfy`, `pydict.dfy`) hold the values
  the tool handles:
  - decoded JSON, with Python truthiness, `dict.get` and `iter()`;
  - insertion-ordered dicts, which keep a key's position when it is
    overwritten and append a new key at the end.
- **Paths** (`paths.dfy`) is `resolve_file_path`. It tries five locations in a
  fixed order and keeps the first that exists. The `os.path` functions and the
  existence test are parameters.
- **FlasherArgs** (`flasher_args.dfy`) covers `process_flasher_args` as a value
  computation:
  - the entries taken from `flash_files` and from the `bootloader`, `app`,
    `partition-table`, `ota_data` and `nvs` sections;
  - a fold that resolves each entry and records a warning or an abort;
  - the final outcome;
  - the `--flash_mode` lookup that `update_file_listbox` performs on
    `write_flash_args`.
- **Records** (`records.dfy`) covers `save_json_to_csv`: the upsert by `hw_id`,
  the rewrite under the record's own keys, and its error outcomes.
- **Command** (`command.dfy`) covers the `cmd` list built by `flash_device`:
  - the fixed head;
  - the prompted flash parameters;
  - the `write_flash_args` extension;
  - the offset/file pairs;
  - the `" ".join` that must succeed before anything is launched.
- **Telemetry** (`telemetry.dfy`) covers the frame filter in `read_serial`: the
  `{"type":"mfg"` guard and the lazy regex `\{.*?"type":"mfg".*?\}`. The regex
  is written as a leftmost search with shortest closing brace.
- **FlashTool** (`flash_tool.dfy`) is the `ESPFlashTool` state:
  - `flash_files`, `flash_args` (the resolved map), `custom_files`,
    `json_data`, `csv_file_path`, `write_flash_args`, `extra_esptool_args` and
    `last_error`;
  - the methods `clear_files`, `process_flasher_args` (with its loops),
    `save_json_to_csv`, `flash_device` up to launching the process, and the
    handling of one serial line.

Each method is proved against the function that specifies it. The properties
are proved about those functions. Several consequences of the code as written
are stated as lemmas:
- An unresolved entry whose path is not a string (a number, `null`) makes
  `show_path_warning` raise. That aborts the whole load (`RunAbortedIff`).
- A `write_flash_args` list whose only `--flash_mode` is its last element makes
  the listbox refresh raise, so the load is rejected
  (`TrailingFlashModeRejectsLoad`).
- A stored CSV row with a column that the new record lacks stops
  `DictWriter` part-way. The rewritten file then keeps only the rows before it
  (`StrayColumnLosesRows`, `NewDeviceWithFewerFieldsEmptiesTable`).
- The lazy regex cuts a report that holds a nested object at the first `}`
  (`NestedObjectIsCut`).
- A report that does not open with `"type":"mfg"` (another first key, or another
  type), on a line with no other `{`, is ignored
  (`OtherKeyFirstIgnored`, `TypeMustComeFirst`).

## Model

| member | source | states |
|---|---|---|
| Paths.FirstExistingSpec | esp_flash_toolv2.py:409-412 | the result is None exactly when no candidate exists; otherwise it is the first candidate that exists, and none before it exists |
| Paths.ResolveFilePath | esp_flash_toolv2.py:397-398 | a path that is not a non-empty string resolves to None |
| Paths.ResolveFirstHit | esp_flash_toolv2.py:394-412 | for a non-empty string, the result is None iff none of the five locations exists; otherwise it is the normalised first location that exists |
| Paths.PreferenceOrder | esp_flash_toolv2.py:401-407 | the path as given (made absolute) wins over the path next to the document, which wins over the later locations |
| Paths.SearchPaths | esp_flash_toolv2.py:401-407 | five locations are tried; their order is `ResolveFirstHit`'s and `PreferenceOrder`'s contract |
| PyDict.Set | esp_flash_toolv2.py:425 | `d[k] = v` keeps the keys unique |
| PyDict.SetSpec | esp_flash_toolv2.py:425 | after `d[k] = v`, `k` reads `v` and other keys read as before; an existing key keeps its position; a new key is appended |
| Json.Lookup | esp_flash_toolv2.py:431-434 | a field is found exactly when the object has it, and the value belongs to that field |
| Json.Iterate | esp_flash_toolv2.py:599 | `iter()` fails exactly on None, booleans and numbers; a list yields its items, a string one item per character, an object one item per key |
| Json.FieldNames | esp_flash_toolv2.py:513 | the header is the record's keys, in order |
| FlasherArgs.Step | esp_flash_toolv2.py:423-427 | processing one entry keeps the gathered offsets unique |
| FlasherArgs.Run | esp_flash_toolv2.py:418-441 | the two loops keep the gathered offsets unique |
| FlasherArgs.Resolved | esp_flash_toolv2.py:423-424 | a path counts as found only when the search returns a non-empty path; stated through `RunLookup` and `RunEmptyIff` |
| FlasherArgs.MakeWarning | esp_flash_toolv2.py:474-482 | the warning lists the last four search locations; stated through `StepWarns` and `UnresolvedAreWarned` |
| FlasherArgs.FileCandidatesAppend | esp_flash_toolv2.py:418-421 | the `flash_files` filter treats each item independently |
| FlasherArgs.FileCandidate | esp_flash_toolv2.py:419-421 | a `flash_files` item is kept only with a `0x` offset; stated by `NonHexEntrySkipped` and `FileCandidatesHex` |
| FlasherArgs.FileCandidates | esp_flash_toolv2.py:418-421 | the items are filtered in document order; stated by `FileCandidatesAppend` and `TwoFilesCandidates` |
| FlasherArgs.SectionCandidate | esp_flash_toolv2.py:431-436 | a section is kept only as an object with a truthy `0x` string offset and a truthy file; stated by `SectionCandidatesHex` and `AbsentSectionsYieldNothing` |
| FlasherArgs.SectionCandidates | esp_flash_toolv2.py:430-436 | the five sections are taken in their fixed order; stated by `SectionsWin` |
| FlasherArgs.Candidates | esp_flash_toolv2.py:418-436 | `flash_files` entries come before section entries; stated by `CandidatesHex` and `SectionsWin` |
| FlasherArgs.NonHexEntrySkipped | esp_flash_toolv2.py:419-421 | an item whose offset does not start with `0x` contributes nothing: removing it leaves the entries unchanged |
| FlasherArgs.PrefixOnlyOffsetFilter | esp_flash_toolv2.py:420-421 | the filter is a prefix test: `0xZZ` is kept and `4096` is dropped |
| FlasherArgs.FileCandidatesHex | esp_flash_toolv2.py:419-421 | every entry taken from `flash_files` has an offset starting with `0x` |
| FlasherArgs.SectionCandidatesHex | esp_flash_toolv2.py:433-436 | every entry taken from a section has an offset starting with `0x` |
| FlasherArgs.CandidatesHex | esp_flash_toolv2.py:418-436 | every entry considered has an offset starting with `0x` |
| FlasherArgs.RunAbortSticky | esp_flash_toolv2.py:467-472 | once a warning has raised, later entries change nothing |
| FlasherArgs.LastResolvedAppend | esp_flash_toolv2.py:418-441 | the last resolved path for an offset comes from the later part when it has one, otherwise from the earlier part |
| FlasherArgs.RunLookup | esp_flash_toolv2.py:418-441 | each offset maps to the path of the last entry for that offset that resolved; an offset with no resolved entry is absent |
| FlasherArgs.RunEmptyIff | esp_flash_toolv2.py:444-445 | the gathered map is empty exactly when no entry resolved |
| FlasherArgs.RunAbortedIff | esp_flash_toolv2.py:474-481 | the loops abort exactly when some entry failed to resolve and has a path that is not a string, so `os.path.join` raises |
| FlasherArgs.StepWarns | esp_flash_toolv2.py:423-427 | a step that keeps going keeps every earlier warning, and warns about its own entry when that did not resolve |
| FlasherArgs.UnresolvedIsWarned | esp_flash_toolv2.py:426-427 | the entry at a given position, when it did not resolve, has a string path and its warning |
| FlasherArgs.UnresolvedAreWarned | esp_flash_toolv2.py:426-427 | after a completed run, every entry that did not resolve has a string path and a warning |
| FlasherArgs.WarningsAreUnresolved | esp_flash_toolv2.py:474-491 | every warning is about an entry that did not resolve |
| FlasherArgs.RunHexKeys | esp_flash_toolv2.py:419-425 | every gathered offset starts with `0x` |
| FlasherArgs.Load | esp_flash_toolv2.py:375-472 | the outcome of reading the document, checks in the source's order; stated by `LoadedDescriptor`, `NoValidFilesIff`, `SectionsWin`, `LoadDefaults` and `TrailingFlashModeRejectsLoad` |
| FlasherArgs.LoadedDescriptor | esp_flash_toolv2.py:415-462 | a successful load yields a non-empty map with distinct `0x` offsets; each offset holds its last resolved path; the `--flash_mode` lookup on the arguments succeeds |
| FlasherArgs.NoValidFilesIff | esp_flash_toolv2.py:444-445 | a completed run fails with "no valid flash files" exactly when no entry resolved |
| FlasherArgs.SectionsWin | esp_flash_toolv2.py:430-441 | a section's resolved path replaces a `flash_files` entry with the same offset |
| FlasherArgs.LoadDefaults | esp_flash_toolv2.py:451-459 | `write_flash_args` and `extra_esptool_args` come from the document when present, else from the defaults |
| FlasherArgs.FirstIndexOf | esp_flash_toolv2.py:299-302 | the position of the first `--flash_mode`, None exactly when there is none |
| FlasherArgs.FlashMode | esp_flash_toolv2.py:299-302 | the `--flash_mode` lookup on any JSON value; stated by `FlashModeOfList`, `FlashModeOfText` and `FlashModeOfDefaults` |
| FlasherArgs.FlashModeOfList | esp_flash_toolv2.py:299-302 | on a list, the result is the element after the first `--flash_mode`, or `dio` when there is none; a trailing flag is an index error |
| FlasherArgs.FlashModeOfText | esp_flash_toolv2.py:299-302 | a string never contains the flag as an element, so the result is `dio` |
| FlasherArgs.FlashModeOfDefaults | esp_flash_toolv2.py:15-18 | the default arguments give `dio` |
| FlasherArgs.TrailingFlashModeRejectsLoad | esp_flash_toolv2.py:461-472 | a list ending with its only `--flash_mode` makes an otherwise good load fail with the listing error (the state it leaves is `ProcessFlasherArgs`'s contract) |
| FlasherArgs.AbsentSectionsYieldNothing | esp_flash_toolv2.py:430-431 | missing sections contribute no entries |
| FlasherArgs.ResolvedNextToDocument | esp_flash_toolv2.py:402-403 | a file missing from the working directory but present beside the document resolves there |
| FlasherArgs.TwoFilesCandidates | esp_flash_toolv2.py:418-421 | a two-entry `flash_files` yields both entries in document order |
| FlasherArgs.TwoFilesRun | esp_flash_toolv2.py:418-427 | both entries resolve beside the document, in order, with no warnings |
| FlasherArgs.TwoFilesNextToDocument | esp_flash_toolv2.py:375-462 | such a document loads both files, in order, with the default arguments |
| Records.RowOf | esp_flash_toolv2.py:535 | the row made from a record has exactly the record's keys |
| Records.RowOfValues | esp_flash_toolv2.py:535 | each key of the row holds the value of its last pair in the decoded object |
| Records.FirstMatch | esp_flash_toolv2.py:526-531 | the first row whose `hw_id` equals the record's, None exactly when none does |
| Records.Upsert | esp_flash_toolv2.py:523-535 | merge into the first row with the record's `hw_id`, or append; stated by `UpsertShape` and `UpsertRows` |
| Records.UpsertRows | esp_flash_toolv2.py:523-535 | the loop that stops at the first match computes the upsert |
| Records.UpsertShape | esp_flash_toolv2.py:526-535 | a matching row is merged, with the record's values winning and other columns kept, and the other rows are unchanged; otherwise the record is appended |
| Records.UpsertKeepsIdsUnique | esp_flash_toolv2.py:523-535 | distinct `hw_id`s stay distinct |
| Records.UpsertIdempotent | esp_flash_toolv2.py:523-535 | storing the same record twice gives the table that storing it once gives |
| Records.NewDeviceAppends | esp_flash_toolv2.py:533-535 | an unseen `hw_id` appends the record |
| Records.NonTextIdNotMatchedOnReadBack | esp_flash_toolv2.py:518-535 | when every stored `hw_id` is text or missing, as after the read-back, a record whose `hw_id` is neither text nor `None` matches no row and is appended |
| Records.NumericIdNotMatchedOnReadBack | esp_flash_toolv2.py:518-535 | an example: a device stored as `"5"` and a record with `hw_id` 5 give two rows |
| Records.FirstStray | esp_flash_toolv2.py:538-541 | the first row with a column outside the header, None exactly when every row fits |
| Records.WriteTable | esp_flash_toolv2.py:538-541 | the header, then the rows up to the first stray one; stated by `SaveWritesAll` and `StrayColumnLosesRows` |
| Records.Save | esp_flash_toolv2.py:493-549 | the outcome of the save, checks in the source's order; stated by `SaveWritesAll`, `StrayColumnLosesRows` and `NewDeviceWithFewerFieldsEmptiesTable` |
| Records.SaveWritesAll | esp_flash_toolv2.py:493-545 | when every stored column is a record key, the file is rewritten with the upserted rows under the record's keys |
| Records.StrayColumnLosesRows | esp_flash_toolv2.py:538-547 | a stored row with a column the record lacks makes the save fail and leaves fewer rows than the upsert produced, also when that row is the one the record is merged into |
| Records.NewDeviceWithFewerFieldsEmptiesTable | esp_flash_toolv2.py:538-547 | a concrete case where the file is left with a header and no rows |
| Command.BaseCommand | esp_flash_toolv2.py:578-587 | the head has 13 words: port, baud and the `before`/`after`/`chip` options with their defaults, ending with `write_flash` |
| Command.EffectiveArgs | esp_flash_toolv2.py:590-598 | truthy arguments are kept; falsy ones are replaced by the prompted mode, frequency and size, and the flash stops exactly when a prompt was left empty |
| Command.FileArgs | esp_flash_toolv2.py:602-604 | two words per image: its offset, then its path |
| Command.BuildCommand | esp_flash_toolv2.py:599-604 | the command is the head, then the arguments, then each offset followed by its file, in map order |
| Command.FileArgsPairs | esp_flash_toolv2.py:602-604 | word `2i` is the i-th offset and word `2i+1` the i-th path |
| Command.Texts | esp_flash_toolv2.py:609 | joining needs every word to be a string, and keeps each word |
| Command.FlashPlan | esp_flash_toolv2.py:556-609 | the outcome of `flash_device`, checks in the source's order; stated by `LaunchShape`, `PromptedArgsOrder` and `NonTextArgumentBlocksLaunch` |
| Command.TextsEndWithFiles | esp_flash_toolv2.py:602-609 | the joined command ends with the offset/path pairs |
| Command.TextsAreLaunchLine | esp_flash_toolv2.py:578-609 | the launched line has exactly 13 words, plus one per write-flash argument, plus two per image: `python`, the esptool path, port and baud rate, `--before`/`--after`/`--chip` with the values from the extra arguments or their defaults, `write_flash`, every write-flash argument word for word, then each offset followed by its path |
| Command.LaunchShape | esp_flash_toolv2.py:558-609 | a launch happens only with a port, a baud rate, at least one image and object extra arguments, and launches exactly the line above: the head with the esptool options, the effective write-flash arguments word for word, and every offset/path pair |
| Command.PromptedArgsOrder | esp_flash_toolv2.py:590-599 | with falsy arguments, words 13 to 18 are `--flash_mode m --flash_freq f --flash_size s` |
| Command.NonTextArgumentBlocksLaunch | esp_flash_toolv2.py:607-609 | a non-string argument word makes the join fail, so nothing is launched |
| Telemetry.CloseFrom | esp_flash_toolv2.py:764 | the first `}` before the next newline, None exactly when there is none |
| Telemetry.MarkerFrom | esp_flash_toolv2.py:764 | a found end closes a span holding the marker, with no newline between |
| Telemetry.MarkerFromSpec | esp_flash_toolv2.py:764 | `.*?"type":"mfg".*?\}` finds an end exactly when some span exists; the span found takes the leftmost marker that can close, and no span ends earlier |
| Telemetry.MatchAt | esp_flash_toolv2.py:764 | the match starting at one position; stated by `MatchAtSpec` |
| Telemetry.MatchAtSpec | esp_flash_toolv2.py:764 | a match at a position exists exactly when the pattern can match there, and it ends at the earliest end the pattern allows |
| Telemetry.SearchFrom | esp_flash_toolv2.py:764 | the match at the leftmost start that has one, None exactly when no start has one |
| Telemetry.SearchSpec | esp_flash_toolv2.py:764 | `re.search` finds nothing exactly when the pattern matches nowhere; otherwise it returns the match with the leftmost start and, at that start, the earliest end |
| Telemetry.ExtractFrame | esp_flash_toolv2.py:763-765 | the frame of a line; stated by `FrameShape`, `FrameAt` and `GuardThenBraceYieldsFrame` |
| Telemetry.MatchShape | esp_flash_toolv2.py:764 | a match runs from `{` to `}`, holds `"type":"mfg"` and no newline |
| Telemetry.FrameShape | esp_flash_toolv2.py:763-765 | an extracted frame comes from a guarded line, occurs in it, spans `{` to `}`, holds the marker and no newline |
| Telemetry.GuardThenBraceYieldsFrame | esp_flash_toolv2.py:763-765 | a guard followed by a `}` on the same line always yields a frame |
| Telemetry.CloseFromIs | esp_flash_toolv2.py:764 | the shortest match closes at the first `}` after the marker when no newline comes before it |
| Telemetry.MatchAtGuard | esp_flash_toolv2.py:764 | a guard followed by a closing brace matches at the guard's position |
| Telemetry.LeftmostAt | esp_flash_toolv2.py:764 | a match at a position with no match before it is the one found |
| Telemetry.FrameAt | esp_flash_toolv2.py:763-765 | a guard with no `{` before it, followed by text without `}` or newline and then a `}`, yields exactly that span as the frame |
| Telemetry.FrameAfterPrefix | esp_flash_toolv2.py:763-765 | after text without `{`, the frame is the guard through the first `}` |
| Telemetry.NestedObjectIsCut | esp_flash_toolv2.py:764 | a report with a nested object is cut at the inner `}` |
| Telemetry.ReportAmidNoise | esp_flash_toolv2.py:763-765 | a report surrounded by log text is extracted exactly |
| Telemetry.OtherKeyFirstIgnored | esp_flash_toolv2.py:763 | a line whose only `{` is not followed by `"type":"mfg"` (any other first key or value) yields no frame |
| Telemetry.GuardInBraced | esp_flash_toolv2.py:763 | in a `{` followed by text with no `{`, the `{"type":"mfg"` test can only succeed at the start, with the text opening with `"type":"mfg"` |
| Telemetry.TypeMustComeFirst | esp_flash_toolv2.py:763 | `{"hw_id":"A","type":"mfg"}` yields no frame |
| FlashTool.FlashTool.constructor | esp_flash_toolv2.py:36-47 | the tool starts with no files, empty arguments, no record, and the chosen CSV path or none |
| FlashTool.FlashTool.ClearFiles | esp_flash_toolv2.py:314-341 | every file collection and the record are emptied, the arguments are reset to the defaults, the last error is removed, and the CSV path is kept |
| FlashTool.FlashTool.ProcessFlasherArgs | esp_flash_toolv2.py:375-472 | the outcome is the load of the document beside its own directory; success installs the map and arguments, failure leaves the state cleared, and the CSV path is kept |
| FlashTool.FlashTool.Install | esp_flash_toolv2.py:448-472 | the map and arguments are stored; when the listing's `--flash_mode` lookup fails the state is cleared and the load fails, otherwise the state holds the loaded map and arguments |
| FlashTool.FlashTool.SaveJsonToCsv | esp_flash_toolv2.py:493-549 | the outcome is the save of the pending record into the chosen file |
| FlashTool.FlashTool.FlashDevice | esp_flash_toolv2.py:556-609 | the flash map stays valid; the outcome is the plan for the current state, and a launch runs the head with the chosen port, baud rate and esptool options, then the stored write-flash arguments word for word, then every offset/path pair of the map; the prompted arguments are stored whenever the current ones are falsy and all three prompts were given |
| FlashTool.FlashTool.OnSerialLine | esp_flash_toolv2.py:763-768 | the flash map stays valid; a line with a decodable frame replaces the record and saves it; any other line changes nothing |
| FlashTool.ReadEntries | esp_flash_toolv2.py:415-441 | the two loops compute the fold over every entry |
| FlashTool.ProcessEntry | esp_flash_toolv2.py:423-427 | one loop body computes one fold step |
| FlashTool.GatherFlashFiles | esp_flash_toolv2.py:418-427 | the `flash_files` loop computes the fold over its entries |
| FlashTool.ProcessSection | esp_flash_toolv2.py:431-441 | one section's body computes the fold extended by that section's entry |
| FlashTool.GatherSections | esp_flash_toolv2.py:430-441 | the sections loop continues the fold over the sections' entries |
| FlashTool.LoadedKeys | esp_flash_toolv2.py:448 | a completed, non-empty run gives unique keys that all start with `0x`, which is what storing the map needs |
| FlashTool.PromptedArgsHaveMode | esp_flash_toolv2.py:595 | the prompted arguments give back the prompted flash mode in the listbox lookup |
| FlashTool.LaunchedOffsets | esp_flash_toolv2.py:602-604 | in a launched line built from a valid map, each offset word starts with `0x` and no two offset words are alike |

## Left out

- The Tk window, dialogs, message boxes, geometry, focus and listbox rendering, including the sorted listbox display. They are user interface only. A warning from `show_path_warning` is modelled as a value, not shown.
- `set_csv_file_path`'s dialogs. Their answer is the constructor's parameter.
- `add_folder`, `reset_app`, `refresh_ports` and the port combobox. They are outside the modelled core.
- The serial port, the reader thread, and the `readline`/`decode`/`strip` of each line. The model starts from one decoded line.
- `subprocess.Popen`, streaming its output, and return codes. The model stops at the command line that would be launched.
- The `sys.frozen`/`__file__` choice of the `esptool` path. It is a parameter.
- JSON parsing of the flasher-args file and of a frame. The decoded document, or a decoding function, is a parameter.
- Duplicate keys in one JSON object. Python keeps the last; the model's lookup takes the first.
- JSON numbers with a fraction or an exponent. Numbers are integers; the code uses a number only for truthiness, `hw_id` equality and `str()` in the CSV, and the last two are listed here already.
- Python's cross-type equality, for example `1 == True`. Values of different kinds compare unequal.
- CSV parsing and quoting, and `str()` of values. Rows are maps of JSON values.
- `csv.DictWriter`: only which row raises is modelled. Python's order of checks inside `writerows` is not.
- `ensure_flash_files_initialized`. `__init__` sets all three attributes and nothing deletes them, so the method never changes anything.
- The `except` branch of `clear_files`. Nothing in its body can raise on the modelled state.
- The `flash_settings` entry of `DEFAULT_FLASH_PARAMS`. The code never reads it.
- The order of images: they are taken in the map's insertion order, as the code does, not sorted by offset.
- Paths.ResolveFilePath: the contract states only the failure for non-strings and empty strings; what a non-empty path resolves to is `ResolveFirstHit`'s contract.
- PyDict.Set: the contract states only that keys stay unique; what the assignment does to each key is `SetSpec`'s contract.
- Records.RowOf: the contract states the keys only; the value each key holds is `RowOfValues`'s contract.
- Records.UpsertKeepsIdsUnique: holds for rows kept as the decoded values. The file is read back as text, so a record whose `hw_id` is not text is stored again on every save (`NonTextIdNotMatchedOnReadBack`).
- Records.UpsertIdempotent: holds for rows kept as the decoded values. After a read-back, a record with non-string values does not equal its stored copy (`NonTextIdNotMatchedOnReadBack`).
- Telemetry.MarkerFrom: the contract states that a found end closes a span; completeness and the lazy choice are `MarkerFromSpec`'s contract.
- FlasherArgs.Step: the contract states only that offsets stay unique; what each step does is stated by `RunLookup`, `UnresolvedAreWarned`, `WarningsAreUnresolved` and `RunAbortedIff`.
