# rippy, the logic of its helpers, presets and input scan

rippy wraps the HandBrake command-line encoder with a preset of its own. This
project models, as pure Dafny functions over immutable data, the parts of it
that are sequential logic:

- `tools.py`: `intduration` (`"hh:mm:ss"` to seconds, with Python 2's `int()`
  and tuple unpacking as error paths), `getbpf` (a two-entry table from frame
  width to bits per pixel and frame) and `getbitrate` (the target bitrate in
  kbps, rounded half away from zero as Python 2's `round` does).
- `rip.py`: `Preference.getvalue` (splitting a multivalued preference),
  `Option.getvalue` (a fixed value, or a handler lookup that cannot succeed),
  the `Preset` record (`addoption`, `addparameter`, `addpreference`,
  `getoptions`, `getpreference`, and `getparameters`, which always raises on a
  non-empty parameter list), and the filter and ordering of `scan` over a
  directory listing given as data.

Modules: `Wrappers` (`Option`, `Result`), `Strings` (Python's `str.split`
with and without a separator, `join`, `count`, `strip`, `lower`), `Numerals`
(decimal numerals and Python 2's `int()` on a byte string), `Tools` and
`ToolsFacts` (`tools.py`), `Presets` and `PresetFacts` (the preset classes),
`FileScan` and `ScanFacts` (`scan`).

Python exceptions become `Failure` values naming the exception:
`DurationError.FieldCount` for the unpacking of `intduration`,
`DurationError.NotAnInteger` for `int()`, and `PresetError` for `split("")`,
the handler lookup, a missing preference key and the missing `getvalue` of a
plain parameter. A generator is modelled by `Yielded`: the items it yields
and then the exception that stopped it, if any. The class `Option` of
`rip.py` is the datatype `EncoderOption`, to keep it apart from
`Wrappers.Option`.

Two consequences of the code worth stating:

- `intduration` does not accept `hh:mm:ss.mmm`: for `"00:00:01.999"` it hands
  `"01.999"` to `int()`, which raises (`ToolsFacts.IntDurationExampleFraction`).
- For 1920x1080 at 24 fps the product 0.076 * 1920 * 1080 * 24 / 1000 is
  3782.2464, so `getbitrate` returns 3782 (`ToolsFacts.BitrateExamples`).

## Model

| member | source | states |
|---|---|---|
| Tools.IntDuration | tools.py:7-10 | a field-count error never names three fields, and a field reported as not an integer is one that `int()` rejects; `ToolsFacts.IntDurationFieldCount`, `IntDurationOfDigits` and `IntDurationRoundTrip` state when each outcome occurs |
| Tools.SecondsOfFields | tools.py:10 | succeeds exactly when `int()` accepts all three fields; a failure is `NotAnInteger`, never a field-count error, and names one of the three fields that `int()` rejects |
| Tools.GetBpf | tools.py:12-18 | a value exists exactly for widths 1920 and 1280; it is 0.076 and 0.092 respectively |
| Tools.RoundHalfAway | tools.py:28 | the result is within one half of `x`, and a half goes away from zero |
| Tools.GetBitrate | tools.py:20-28 | `None` exactly when `getbpf` has no entry for the width, whatever the height and fps; otherwise bpf*width*height*fps/1000 rounded half away from zero |
| ToolsFacts.IntDurationOfDigits | tools.py:9-10 | three colon-separated non-empty digit fields h, m, s give h*3600 + m*60 + s |
| ToolsFacts.IntDurationRoundTrip | tools.py:7-10 | formatting any non-negative h, m, s as zero-padded `hh:mm:ss` and reading it back gives h*3600 + m*60 + s |
| ToolsFacts.IntDurationFieldCount | tools.py:9 | the unpacking fails exactly when the text does not hold exactly two colons, and then counts one field more than colons |
| ToolsFacts.IntDurationRejectsFieldCount | tools.py:9 | joining any number of colon-free fields other than three gives a field-count error with that number |
| ToolsFacts.IntDurationRejectsFraction | tools.py:10 | a seconds field with a `.` in it, as in `hh:mm:ss.mmm`, is rejected as not an integer |
| ToolsFacts.IntDurationRejectsEmptyField | tools.py:10 | an empty field among the three is rejected as not an integer |
| ToolsFacts.IntDurationExampleWhole | tools.py:7-10 | `"01:02:03"` gives 3723 |
| ToolsFacts.IntDurationExampleFraction | tools.py:9-10 | `"00:00:01.999"` is refused, naming the field `"01.999"` |
| ToolsFacts.IntDurationExampleFieldCount | tools.py:9 | `"01:02"` has two fields and `"00:01:02:03"` four, both refused |
| ToolsFacts.BpfDecreasesWithWidth | tools.py:14-17 | the wider width of the table gets the smaller figure, and both lie strictly between 0 and 0.1 |
| ToolsFacts.RoundHalfAwayUnique | tools.py:28 | only one integer is the half-away rounding of a given number |
| ToolsFacts.RoundHalfAwayMonotone | tools.py:28 | rounding never reverses the order of two numbers |
| ToolsFacts.BitrateNonNegative | tools.py:26-28 | a non-negative height and frame rate give a non-negative bitrate |
| ToolsFacts.BitrateMonotoneInFps | tools.py:26-28 | a higher frame rate never gives a lower bitrate |
| ToolsFacts.BitrateExamples | tools.py:20-28 | 1920x1080 at 24 fps gives 3782, 1280x720 at 25 fps gives 2120, width 1440 gives `None` |
| Numerals.ParseInt | tools.py:10 | a text `int()` accepts holds only digits, whitespace and signs, is not blank once stripped, and gives a negative number only when the stripped text starts with `-`; `ParseIntOfNumeral` and `ParseIntOnlyNumerals` pin down exactly what it accepts and returns |
| Numerals.ParseIntOfNumeral | tools.py:10 | whitespace, an optional `+` or `-`, one or more digits and whitespace parse to the digits' value, negated after `-` |
| Numerals.ParseIntOnlyNumerals | tools.py:10 | nothing else parses: every text `int()` accepts is such whitespace, sign, digits and whitespace, and its value is theirs |
| Numerals.ParseIntRejectsInner | tools.py:10 | in the stripped text, a character after the first that is not a digit, such as inner whitespace or a second sign, makes `int()` raise |
| Numerals.ParseIntSignedExample | tools.py:10 | `int(" -5 ")` is -5 |
| Numerals.ParseIntRejectExamples | tools.py:10 | `int("1 2")`, `int("1-2")` and `int("+-1")` raise |
| Numerals.ParseIntOfDigits | tools.py:10 | `int()` of a non-empty run of decimal digits is their decimal value |
| Numerals.ParseIntRejectsForeign | tools.py:10 | `int()` rejects text holding a character that is not a digit, whitespace or a sign |
| Numerals.ParseIntRejectsBlank | tools.py:10 | `int()` rejects empty or all-whitespace text |
| Strings.Strip | tools.py:10 | the stripped text is no longer than its input and neither starts nor ends with whitespace; `StripMiddle` and `StripPadded` say which part of the input it is |
| Strings.StripMiddle | tools.py:10 | the stripped text is a contiguous part of the input with only whitespace before and after it |
| Strings.StripPadded | tools.py:10 | stripping whitespace-padded text that neither starts nor ends with whitespace gives that text back |
| Strings.StripKeepsText | tools.py:10 | the whitespace stripped before `int()` reads its digits keeps every other character and adds none |
| Strings.Split | rip.py:38 | `str.split` with a separator always gives at least one piece; `JoinSplit`, `SplitPiecesAvoidSeparator`, `SplitCount` and `SplitLeftmost` say what the pieces are |
| Strings.SplitLeftmost | rip.py:38 | every cut is at the leftmost occurrence: each piece but the last, followed by the separator, first contains the separator right after the piece |
| Strings.SplitOverlapExample | rip.py:38 | `"aaa".split("aa")` is `["", "a"]` |
| Strings.Join | rip.py:36-38 | joining no pieces gives the empty string, and a join starts with its first piece; `JoinSplit`, `SplitJoinChar` and `SplitWhitespaceJoin` make it the inverse of the splits |
| Strings.CountOccurrences | rip.py:38 | the non-overlapping occurrences of `sep` take up no more room than the text, so there are at most |s| / |sep| of them; `SplitCount` relates them to the pieces of a split |
| Strings.JoinSplit | rip.py:36-38 | joining the pieces of `value.split(sep)` with `sep` gives `value` back |
| Strings.SplitPiecesAvoidSeparator | rip.py:36-38 | no piece of `value.split(sep)` contains `sep` |
| Strings.SplitCount | rip.py:36-38 | `value.split(sep)` has one piece more than `value.count(sep)` |
| Strings.SplitJoinChar | tools.py:9 | splitting on a one-character separator undoes joining pieces that do not contain it |
| Strings.SplitWhitespace | rip.py:36-38 | `split()` gives no words exactly when the text is all whitespace; `SplitWhitespaceWords`, `SplitWhitespaceKeepsText`, `SplitWhitespaceGap` and `SplitWhitespaceJoin` say what the words are |
| Strings.SplitWhitespaceWords | rip.py:36-38 | the separator-less split gives non-empty words without whitespace |
| Strings.SplitWhitespaceKeepsText | rip.py:36-38 | the words of the separator-less split, concatenated, are the text with its whitespace removed |
| Strings.SplitWhitespaceSkip | rip.py:36-38 | whitespace in front of a text does not change its separator-less split |
| Strings.SplitWhitespaceGap | rip.py:36-38 | the separator-less split cuts at every run of whitespace: text, whitespace, text splits into the words of the first text followed by those of the second, so the words are maximal |
| Strings.SplitWhitespaceJoin | rip.py:36-38 | the separator-less split undoes joining non-empty whitespace-free words with single spaces |
| Strings.Lower | rip.py:172 | lower-casing keeps the length and changes exactly the ASCII capitals, each to its small letter |
| Presets.PreferenceValue | rip.py:36-39 | a non-multivalued preference or one without value gives its value unchanged; a multivalued value gives a list; only an empty separator raises |
| Presets.OptionValue | rip.py:47-53 | the value is returned exactly when no handler is named; a named handler always raises, and a name other than `self` is reported as undefined |
| Presets.EmptyPreset | rip.py:56-59 | a new preset has no options, parameters or preferences |
| Presets.AddOption | rip.py:61-62 | the option is appended after the earlier ones, which keep their order; nothing else changes |
| Presets.AddParameter | rip.py:64-65 | the parameter is appended after the earlier ones, which keep their order; nothing else changes |
| Presets.AddPreference | rip.py:67-68 | succeeds exactly when `getvalue` does; then the key maps to that value, replacing an earlier one, and every other key and both lists are untouched |
| Presets.GetPreference | rip.py:78-79 | the stored value, and `KeyError` exactly for a key that is not stored |
| Presets.GetParameters | rip.py:70-72 | yields nothing, and raises exactly when there is a parameter, at the first one |
| PresetFacts.PreferenceSplit | rip.py:36-38 | with a non-empty separator the pieces join back to the value, hold no separator and number the separator's occurrences plus one |
| PresetFacts.PreferenceJoinedItems | rip.py:36-38 | a value joined from pieces with a one-character separator they lack is split back into exactly those pieces |
| PresetFacts.PreferenceWords | rip.py:36-38 | without a separator the value is split into non-empty whitespace-free words that hold all of its other text in order |
| PresetFacts.PreferenceJoinedWords | rip.py:36-38 | without a separator, words joined with single spaces are split back into those words |
| PresetFacts.GetAfterAdd | rip.py:67-79 | reading a key back after adding a preference gives that preference's value; any other key reads as before |
| PresetFacts.AddPreferencesSucceeds | rip.py:67-68 | adding a list of preferences in turn succeeds exactly when every `getvalue` does |
| PresetFacts.AddPreferencesLastWins | rip.py:67-79 | after adding a list of preferences, a key reads as the value of the last one with that key, or as before when none has it |
| PresetFacts.LoadedKeys | rip.py:67-79 | from an empty preset, a key is present after adding a list exactly when some preference of the list has it |
| PresetFacts.AddOptionsOrder | rip.py:61-62 | adding options in turn puts them after the earlier ones in the order given, leaving parameters and preferences alone |
| PresetFacts.AddParametersOrder | rip.py:64-65 | adding parameters in turn puts them after the earlier ones in the order given, leaving options and preferences alone |
| PresetFacts.GetParametersAfterLoad | rip.py:64-72 | after parameters are added to a preset that had none, `getparameters` yields nothing and raises at the first parameter added |
| Presets.YieldOptions | rip.py:74-76 | the generator yields at most one pair per option, finishes without an exception exactly when it yielded one for every option, and otherwise stops at an option that has a handler; `PresetFacts.YieldOptionsYields` gives the pairs themselves |
| Presets.GetOptions | rip.py:74-76 | `getoptions` yields at most one pair per option of the preset, raises exactly when it stops short, and then at an option with a handler; `PresetFacts.GetOptionsAfterAdd` relates it to `addoption` |
| PresetFacts.YieldOptionsYields | rip.py:74-76 | `getoptions` yields `(key, value)` for the leading handler-less options, in order, and raises at the first option with a handler |
| PresetFacts.YieldOptionsAppend | rip.py:74-76 | over two lists of options, `getoptions` runs over the first and, unless that raised, continues with the second |
| PresetFacts.GetOptionsAfterAdd | rip.py:61-76 | after `addoption`, `getoptions` gives the earlier pairs followed by the new option's pair or exception, unless an earlier option raised |
| FileScan.PathJoin | rip.py:173 | an absolute second part replaces the first; otherwise the result starts with the directory and ends with the name, and a `/` is put between them exactly when the directory is not empty and does not already end in `/` |
| FileScan.LastIndexOf | rip.py:172 | the position of the last `.`, after which there is none, or nothing when the name has no `.` |
| FileScan.Extension | rip.py:172 | `rsplit('.', 1)[1]` holds no `.`, ends the name, and follows a `.` in it |
| FileScan.IsMkv | rip.py:172 | an accepted name has at least four characters, the fourth from the end a `.`; `ScanFacts.IsMkvSuffix` gives the exact condition |
| FileScan.MatchingFiles | rip.py:171-173 | at most one path per file name of the directory; `ScanFacts.MatchingFilesMembers` and `MatchingFilesAppend` say which paths, in which order |
| FileScan.ScanEntry | rip.py:170-175 | one walked directory gives exactly the paths of its matching files, in order, followed by the directory itself exactly when it is a Blu-ray tree; `ScanFacts.ScanEntryRoot` and `ScanEntryMembers` are its partners |
| FileScan.ScanWalk | rip.py:170-175 | the output of a walk starts with that of its first, top, directory, and ends with the last directory walked when that one is a Blu-ray tree; `ScanFacts.ScanWalkMembers`, `ScanWalkAppend`, `ScanWalkEntry` and `ScanWalkOne` are its partners |
| FileScan.ScanArgument | rip.py:167-177 | a file argument gives its absolute path alone, whatever its name; a directory argument gives exactly the output of its walk, so one whose top is a Blu-ray tree gives at least itself |
| FileScan.Scan | rip.py:166-177 | an output led by a file argument starts with its absolute path, and with files only there is one path per argument; `ScanFacts.ScanAppend`, `ScanFileArgument` and `ScanDirectoryArgument` are its partners |
| ScanFacts.IsMkvSuffix | rip.py:172 | the filter accepts exactly names ending in `.` and three characters that lower-case to `mkv` |
| ScanFacts.IsMkvAccepts | rip.py:172 | any stem, the empty one included, followed by `.` and an extension that lower-cases to `mkv` (`mkv`, `MKV`, `Mkv`, ...) is accepted |
| ScanFacts.IsMkvRejects | rip.py:172 | `mkv` and `a.mkv.bak` are rejected |
| ScanFacts.MatchingFilesAppend | rip.py:171-173 | the paths for a directory's files follow the order of the files |
| ScanFacts.MatchingFilesMembers | rip.py:171-173 | a path is yielded for a directory's files exactly when it is the directory joined with an accepted name |
| ScanFacts.ScanEntryRoot | rip.py:170-175 | with names as a walk lists them, the directory itself is yielded exactly when it has a `BDMV` sub-directory, and then once, after its files |
| ScanFacts.ScanEntryMembers | rip.py:170-175 | a walked directory yields only its accepted files and, for a Blu-ray tree, itself |
| ScanFacts.ScanWalkMembers | rip.py:170-175 | a walk yields exactly what its directories yield |
| ScanFacts.ScanWalkAppend | rip.py:170-175 | a walk yields its directories' outputs in walk order |
| ScanFacts.ScanWalkEntry | rip.py:170-175 | each walked directory contributes its own output exactly once, between the outputs of the directories walked before and after it |
| ScanFacts.ScanWalkOne | rip.py:170-175 | the walk of a single directory yields exactly that directory's output |
| ScanFacts.ScanAppend | rip.py:166-177 | the arguments are scanned one after another, in order |
| ScanFacts.ScanFileArgument | rip.py:176-177 | an argument that is not a directory is yielded once as its absolute path, whatever its extension, between its neighbours' outputs |
| ScanFacts.ScanDirectoryArgument | rip.py:169-175 | a directory argument contributes exactly the output of its walk, between its neighbours' outputs |

## Left out

- `Worker` (rip.py:81-116): threads, blocking queues with time-outs and a shared flag; concurrency is not modelled.
- `Q` (rip.py:118-123): interactive prompts from a library that is not part of this model.
- `loadpreset` (rip.py:125-138): reading the preset XML file. The records it builds are modelled; its three loops are `PresetFacts.AddOptions` (rip.py:129-130), `PresetFacts.AddParameters` (rip.py:131-132) and `PresetFacts.AddPreferences` (rip.py:133-137), each adding a list of records in order.
- `handle`, `handle_ask`, `handle_rip` and `main` (rip.py:140-189): argument parsing and process driving; `handle` relies on parser methods that do not exist.
- `handbrake.py`: stub classes whose methods return nothing, regular expressions that are never applied, and an encoder process that is not part of this model.
- The file system in `scan`: `abspath`, `isdir` and the `os.walk` listing are inputs (`Argument.absPath`, `Argument.isDir`, `Argument.walk`).
- Tools.GetBitrate: computes with exact rationals, not binary floating point; 0.076 and 0.092 are taken as exact, so a product that lands within rounding error of a half may round differently in the Python code.
- Tools.GetBitrate: takes the width and height as integers and the frame rate as a real. `getbitrate` applies `float()` to all three, so the caller may pass numeric strings. Its product also uses the width as given, before `int()` truncates it for the table: `getbitrate(1920.5, 1080, 24)` computes with 1920.5 and bpf 0.076.
- Tools.GetBpf: takes the width as an integer; `getbpf` first converts it with `int()`, so it also accepts numeric strings and truncates floats.
- Strings.SplitWhitespace: splits on the whitespace of a byte `str` (space, tab, newline, vertical tab, form feed, carriage return). A `unicode` value also splits at U+001C–U+001F, U+0085, U+00A0, U+1680, U+180E, U+2000–U+200A, U+2028, U+2029, U+202F, U+205F and U+3000; the model keeps those characters inside words.
- Presets.PreferenceValue: values are modelled as byte strings. The preset loader reads them with ElementTree, which returns `unicode` for non-ASCII attribute text; with no separator, such a value splits on Unicode whitespace, which the model does not do.
- Numerals.ParseInt: models `int()` on ASCII text with an optional sign directly before the digits; Python 2 also tolerates whitespace between the sign and the digits.
- The `required` and `multivalued` fields of parameters and preferences are booleans; the preset loader passes the XML attribute strings, whose truthiness decides instead (any non-empty string, `"false"` included, counts as true).
- Presets.OptionValue: a handler named `self` finds the option itself, and calling an instance without `__call__` raises; the model reports that as `NotCallable` without modelling the call.
- Keys of options, parameters and preferences are strings; the loader may pass `None` for a missing attribute.
