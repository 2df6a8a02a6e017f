# automated-video-compressor: a verified model of its decision logic

The repository holds two long-running Python scripts.

- **The mover** (`move_nas_videos.py`) polls a NAS directory. It moves every
  regular `.mov` file whose name is not already taken in a local directory. When
  the move fails with EXDEV (a move across storage devices), it copies the file
  and then removes the source.
- **The watcher** (`watch_videos.py`) reacts to file-creation events in that
  local directory. It skips directories, hidden names and extensions outside
  `ALLOWED_EXTENSIONS`. It then waits until the file's size stops changing and
  runs HandBrakeCLI to write `<stem>_compressed.mp4` into `DEST_FOLDER`. It
  deletes the source only when HandBrakeCLI exits with code 0.

This project models those decision procedures in Dafny and proves what they
promise. Three modules, one file each:

- `strings.dfy`, module `Strings`: the Python string and path operations the
  scripts use. These are `str.split`, `str.strip`, `str.lower`,
  `str.startswith`/`endswith`, and posixpath's `basename`, `splitext` and `join`.
- `watcher.dfy`, module `VideoWatcher`: the `ALLOWED_EXTENSIONS` comprehension,
  `wait_until_fully_written` and `VideoCreatedHandler.on_created`.
- `mover.dfy`, module `NasMover`: `cross_device_move` and `move_new_videos`. The
  class `Mover` holds the two directories as fields. Its methods update them in
  place.

What the file system, the clock and HandBrake do is passed in as data:

- **The stability wait** gets a `trace` of `Sample(size, time)` values. Each one
  is a size returned by `os.path.getsize`, together with the `time.time()`
  reading taken right after it. The sleep of `CHECK_INTERVAL` seconds shows only
  as the gap between those readings.
- **HandBrake's run** is a `ToolResult`: an exit code, `FileNotFoundError`, or
  any other launch exception. Whether `os.remove` succeeds is a boolean.
- **A directory** is a `map` from entry name to `Entry(kind, data)`. The order in
  which `os.scandir` yields the entries is a `listing`. Each listed entry gets an
  `Attempt`: the result of `shutil.move` (moved, EXDEV, or another `OSError`),
  plus whether `shutil.copy2` and `os.remove` succeed if the fallback runs.

Each operation that loops or changes state is a method, proved against a
specification function:

- `WaitUntilFullyWritten` against `FirstExit`/`Wait`.
- `OnCreated` against `Handle`.
- `Mover.CrossDeviceMove` against `Transfer`.
- `Mover.MoveNewVideos` against `Cycle`.

The source's promises are then proved as lemmas about those functions.

Unlike the watcher, the mover has no hidden-file check (`move_nas_videos.py:55`),
so `.hidden.mov` is moved like any other `.mov` file (`HiddenMovIsCandidate`).
Its extension is fixed to `.mov` in the code. In the watcher, the size check
comes before the time check, so a file whose size repeats on a late sample is
still compressed.

## Model

| member | source | states |
|---|---|---|
| `Strings.Lower` | watch_videos.py:19 | the result has the input's length and each character is the lower-case form of the input's character at that position |
| `Strings.LowerIdempotent` | watch_videos.py:19 | lowering twice is the same as lowering once |
| `Strings.LowerHasNoUpper` | watch_videos.py:19 | a lowered string contains no upper-case letter |
| `Strings.LowerKeepsNonLetter` | watch_videos.py:19 | a character that is not a letter (such as ',') is in the lowered string exactly when it is in the input |
| `Strings.LowerOfLowerCase` | move_nas_videos.py:55 | a string without upper-case letters is its own lower-case form |
| `Strings.IsSpace` | watch_videos.py:19 | the characters `strip()` with no argument removes, i.e. Python's `str.isspace` set: U+0009-U+000D, U+001C-U+001F, space, U+0085, U+00A0, U+1680, U+2000-U+200A, U+2028, U+2029, U+202F, U+205F, U+3000; used by `LeadingSpacesAreSpace`, `TrailingSpacesAreSpace` and `StripCharacterised` |
| `Strings.LeadingSpaces` | watch_videos.py:19 | the number of characters `strip()` removes at the front: it stays within the string, and the next character, if any, is not whitespace |
| `Strings.LeadingSpacesAreSpace` | watch_videos.py:19 | every character `strip()` removes at the front is whitespace |
| `Strings.TrailingSpaces` | watch_videos.py:19 | the number of characters `strip()` removes at the back: it stays within the string, and the character before them, if any, is not whitespace |
| `Strings.TrailingSpacesAreSpace` | watch_videos.py:19 | every character `strip()` removes at the back is whitespace |
| `Strings.Strip` | watch_videos.py:19 | `str.strip()`: the input without its leading and trailing whitespace; characterised by `StripCharacterised` and `StripOfTrimmed` |
| `Strings.StripCharacterised` | watch_videos.py:19 | `strip()` keeps one contiguous run of the input's characters starting after the leading whitespace, only whitespace is cut on either side, and the result has no whitespace at either end |
| `Strings.StripOfTrimmed` | watch_videos.py:19 | a string with no whitespace at either end is unchanged by `strip()` |
| `Strings.Split` | watch_videos.py:19 | `split(",")` gives at least one part and no part contains the separator |
| `Strings.JoinSplit` | watch_videos.py:19 | joining the parts of a split with the separator gives back the input |
| `Strings.SplitJoin` | watch_videos.py:19 | splitting a join of separator-free parts gives back exactly those parts |
| `Strings.LastIndexOf` | watch_videos.py:69 | the index of the last occurrence of the character, or -1 when it does not occur |
| `Strings.Basename` | watch_videos.py:69 | `os.path.basename`: the part of the path after its last '/'; characterised by `BasenameIsLastComponent` |
| `Strings.BasenameIsLastComponent` | watch_videos.py:69 | the base name contains no '/', ends the path, and follows a '/' whenever it is not the whole path |
| `Strings.ExtIndex` | watch_videos.py:76 | the cut point of `splitext` is the last '.' of the last path component provided a non-dot character precedes it in that component; it is -1 exactly when every '.' of the last component has only dots before it |
| `Strings.SplitExt` | watch_videos.py:76 | root followed by extension is the path |
| `Strings.SplitExtParts` | watch_videos.py:76 | root followed by extension is the path; a non-empty extension is one '.' followed by neither '.' nor '/', with a non-dot before it in the last component; an empty extension means the last component has no such '.' |
| `Strings.SplitExtOfFile` | watch_videos.py:69-76 | a path `dir/stem.ext` whose stem is not all dots splits into `dir/stem` and `.ext`, and its base name is `stem.ext` |
| `Strings.PathJoin` | watch_videos.py:87 | `os.path.join` of two components: the second when it starts with '/', else the two separated by one '/' unless the first is empty or already ends in '/'; characterised by `PathJoinName` |
| `Strings.PathJoinName` | watch_videos.py:87 | joining a folder with a name that has no '/' puts the name, unchanged, as the base name, right after the folder or after the folder and one '/' |
| `VideoWatcher.ParseExtensions` | watch_videos.py:18-19 | the allowed set: the normal forms of the comma-separated parts of the raw setting; its properties are the lemmas below |
| `VideoWatcher.NormalForms` | watch_videos.py:19 | the set comprehension over a list of parts, taken one part at a time; characterised by `NormalFormOfPart` and `PartOfNormalForm` |
| `VideoWatcher.NormalFormOfPart` | watch_videos.py:19 | the normal form of every part is in the set |
| `VideoWatcher.PartOfNormalForm` | watch_videos.py:19 | every member of the set is the normal form of some part, whose index is returned |
| `VideoWatcher.NormalExtension` | watch_videos.py:19 | `ext.strip().lower()` for one part; characterised by `NormalExtensionShape` |
| `VideoWatcher.NormalExtensionShape` | watch_videos.py:19 | the stripped, lower-cased form of a comma-free part has no comma, no upper-case letter and no surrounding whitespace |
| `VideoWatcher.AllowedExtensionsAreNormal` | watch_videos.py:18-19 | every member of the allowed-extension set has no comma, no upper-case letter and no surrounding whitespace |
| `VideoWatcher.ParseJoined` | watch_videos.py:18-19 | parsing a comma-join of parts already in normal form gives exactly the set of those parts |
| `VideoWatcher.DefaultAllowedExtensions` | watch_videos.py:18-19 | the default ".mov,.mp4" yields exactly {".mov", ".mp4"} |
| `VideoWatcher.TrailingCommaAllowsNoExtension` | watch_videos.py:18-19 | with the setting ".mov," the empty extension is allowed, so a visible file whose base name has no '.' has an empty extension and passes every check before the wait |
| `VideoWatcher.PlainVideoReachesWait` | watch_videos.py:65-78 | with the default setting, a visible file `dir/stem.ext` whose lower-cased extension is ".mov" or ".mp4" passes every check before the wait |
| `VideoWatcher.Repeats` | watch_videos.py:51-52 | the first exit test: the sampled size equals `last_size`, the previous sample's size, which is -1 before the first sample, so the first sample never repeats; used by `FirstExit` and `StableOnlyOnRepeat` |
| `VideoWatcher.Overdue` | watch_videos.py:57 | the second exit test: more than `MAX_WAIT_TIME` seconds have passed since the start when the sample is taken; used by `FirstExit` |
| `VideoWatcher.FirstExit` | watch_videos.py:50-59 | the first sample, from a given one on, at which the loop leaves: either its size equals the previous one or the time is past the limit, and no earlier sample did either |
| `VideoWatcher.Wait` | watch_videos.py:45-61 | the specification of the wait: the result is whether the first exit sample repeated its predecessor, and the count of samples taken; its properties are the lemmas below |
| `VideoWatcher.WaitUntilFullyWritten` | watch_videos.py:45-61 | the loop takes samples until one repeats its predecessor's size (True) or, failing that, is taken after more than `MAX_WAIT_TIME` seconds (False); every earlier sample differed and was on time; last_size starts at -1 |
| `VideoWatcher.StableOnlyOnRepeat` | watch_videos.py:48-54 | True only when the current size equals the immediately preceding sample, so never on the first sample |
| `VideoWatcher.UnstableOnlyWhenOverdue` | watch_videos.py:50-59 | False only after a sample that differed from its predecessor and was taken past the time limit; all earlier samples were on time and differed |
| `VideoWatcher.StableWhenRepeatComesInTime` | watch_videos.py:50-59 | a size that repeats before any sample is late makes the wait return True, even if the repeating sample itself is late |
| `VideoWatcher.UnstableWhenNoRepeatInTime` | watch_videos.py:50-59 | if no size repeats up to and including the first late sample, the wait returns False |
| `VideoWatcher.ReachesWait` | watch_videos.py:65-78 | the event passes every check before the wait: not a directory, base name not starting with '.', lower-cased extension allowed |
| `VideoWatcher.IsHidden` | watch_videos.py:72 | `file_name.startswith('.')`: the base name starts with '.'; see `DirectoriesAndHiddenFilesIgnored` |
| `VideoWatcher.Handle` | watch_videos.py:64-115 | the specification of the handler: the three guards in order, the wait, then the command, the tool's result and the conditional delete; its properties are the lemmas below |
| `VideoWatcher.OnCreated` | watch_videos.py:64-115 | the handler's result is `Handle`: the guard checks in order, the wait, the command, and the conditional delete |
| `VideoWatcher.DirectoriesAndHiddenFilesIgnored` | watch_videos.py:65-74 | directory events and base names starting with '.' are ignored with zero size samples and zero transcoder runs |
| `VideoWatcher.CompressionAttemptedIffAllowedAndStable` | watch_videos.py:76-98 | the transcoder runs exactly when the event is a visible file, its lower-cased extension is allowed and the wait returned True; "at most once" holds by construction, as the handler has a single `subprocess.run` call outside any loop |
| `VideoWatcher.StableFileTranscodedOnce` | watch_videos.py:76-98 | an allowed visible file whose size repeats before the deadline is handed to HandBrake exactly once (whether HandBrake then succeeds is `SourceRemovedOnlyOnSuccess`) |
| `VideoWatcher.UnstableFileNeverCompressed` | watch_videos.py:81-84 | an allowed visible file that never repeats its size up to a late sample is abandoned without compression |
| `VideoWatcher.CompressedName` | watch_videos.py:86-87 | the output's base name: the stem of the input's base name followed by "_compressed.mp4"; see `OutputPathInDestFolder` |
| `VideoWatcher.OutputPath` | watch_videos.py:86-87 | the output path: the destination folder joined with `CompressedName`; see `OutputPathInDestFolder` |
| `VideoWatcher.TranscodeCommand` | watch_videos.py:90-95 | the HandBrake argument list; see `CommandIsFixed` |
| `VideoWatcher.OutputPathInDestFolder` | watch_videos.py:86-87 | the output's base name is the input's stem plus "_compressed.mp4", placed directly inside `DEST_FOLDER` |
| `VideoWatcher.CommandIsFixed` | watch_videos.py:90-95 | the command is exactly [HANDBRAKE_CLI, "-i", input, "-o", output, "--preset", PRESET] |
| `VideoWatcher.SourceRemovedOnlyOnSuccess` | watch_videos.py:97-115 | the source is removed exactly when the exit code is 0 and `os.remove` succeeds; a non-zero code, `FileNotFoundError` or another launch error leaves it |
| `NasMover.IsCandidate` | move_nas_videos.py:55 | a regular file whose lower-cased name ends in ".mov"; see `HiddenMovIsCandidate`, `UpperCaseMovIsCandidate`, `Mp4IsNotCandidate` |
| `NasMover.Transfer` | move_nas_videos.py:30-44 | the specification of `cross_device_move`: it returns normally exactly when the move or the EXDEV copy and remove succeed; the NAS loses the entry exactly then; the local directory gains it exactly when the move or the copy succeeded; `MoveFailed` is raised exactly for a non-EXDEV error |
| `NasMover.Step` | move_nas_videos.py:54-65 | the loop body for one entry: a candidate not yet taken locally is transferred, anything else is left; see `StepFrame` |
| `NasMover.Cycle` | move_nas_videos.py:49-65 | the specification of a poll cycle: the loop body for each listed entry in turn, errors caught; see `CycleAt`, `CycleOutside` and the lemmas after them |
| `NasMover.Mover.CrossDeviceMove` | move_nas_videos.py:30-44 | a successful move or a successful EXDEV copy-and-remove puts the entry into the local directory and takes it out of the NAS; another error is raised again with nothing changed; a failed copy changes nothing; a failed remove leaves the copy and the source |
| `NasMover.Mover.MoveNewVideos` | move_nas_videos.py:49-65 | the directories after the loop are `Cycle` of those before: the loop body once per listed entry, in listing order, errors caught |
| `NasMover.FallbackEqualsMove` | move_nas_videos.py:35-42 | the end state after EXDEV with copy and remove succeeding equals that of a plain successful move |
| `NasMover.OtherErrorReraised` | move_nas_videos.py:43-44 | any move error other than EXDEV is raised again, with no copy and no removal |
| `NasMover.StepFrame` | move_nas_videos.py:54-65 | handling one entry changes no other entry in either directory |
| `NasMover.CycleOutside` | move_nas_videos.py:54-65 | a name not listed in the NAS comes out of a cycle unchanged |
| `NasMover.CycleAt` | move_nas_videos.py:62-65 | each listed entry ends the cycle as the loop body alone leaves it, whatever happened to the other entries, so one entry's error does not stop the rest |
| `NasMover.CycleMovesNewCandidate` | move_nas_videos.py:54-63 | a regular `.mov` file absent from the local directory whose move succeeds ends in the local directory under the same name, with its content, and is gone from the NAS |
| `NasMover.CycleKeepsFailedCandidate` | move_nas_videos.py:62-65 | a candidate whose move raises stays in the NAS unchanged; it is in the local directory only when the EXDEV copy was made |
| `NasMover.CycleLeavesTheRest` | move_nas_videos.py:54-60 | non-candidates and names already present in the local directory, including that local entry, are untouched in both directories |
| `NasMover.HiddenMovIsCandidate` | move_nas_videos.py:55 | a regular file named ".hidden.mov" is a candidate: there is no hidden-file check |
| `NasMover.UpperCaseMovIsCandidate` | move_nas_videos.py:55 | the suffix test is on the lower-cased name, so "CLIP.MOV" is a candidate |
| `NasMover.Mp4IsNotCandidate` | move_nas_videos.py:55 | the mover's suffix is fixed to ".mov", so "clip.mp4" is not a candidate |

## Left out

- Logging is output only and is not modelled. This covers both scripts' handlers, formatters, the rotating log file, and HandBrake's stderr being logged.
- The watchdog `Observer`, its scheduling, `KeyboardInterrupt` handling and both infinite `main` loops are left out. They are event delivery and process lifetime, not decision logic.
- Reading environment variables and converting them with `int()` is left out. The results are the fields of `VideoWatcher.Config` and the NAS/local directory pair.
- `os.path.getsize`, `time.time()`, `time.sleep`, `subprocess.run`, `os.scandir`, `shutil.move`, `shutil.copy2` and `os.remove` are left out as calls. Their results are inputs, as described above.
- `VideoWatcher.WaitUntilFullyWritten`: the model does not assume that the clock advances, so it requires the given trace to contain the sample at which the loop leaves. With a clock that advances, `watch_videos.py:57` ends the loop at the first non-repeating sample taken more than `MAX_WAIT_TIME` seconds after the start.
- `VideoWatcher.WaitUntilFullyWritten`: sample times are exact reals. The float subtraction `time.time() - start_time` and its rounding at the `MAX_WAIT_TIME` boundary are not modelled.
- `VideoWatcher.WaitUntilFullyWritten`: an exception from `os.path.getsize`, such as a file removed while waiting, is not modelled. Sizes are non-negative numbers.
- `NasMover.Mover.CrossDeviceMove`: a failed `shutil.move` or `shutil.copy2` is taken to leave the directories unchanged. Partial copies are not modelled, and neither is `shutil.move`'s own internal copy-and-delete fallback.
- `NasMover.Mover.MoveNewVideos`: directories are maps from name to entry. This means:
  - joining `NAS_DIR`/`LOCAL_DIR` with the entry name is taken as using the same key in the other map;
  - the two directories are assumed to be distinct;
  - `is_file()` following symlinks is folded into the entry's kind;
  - `os.path.exists` being false for a broken symlink is not modelled.
- `NasMover.Mover.MoveNewVideos`: an error from `os.scandir` itself (NAS not mounted) escapes the cycle in the source. It is not modelled.
- `NasMover.Mover.MoveNewVideos`: `entry.is_file()` runs outside the `try`. An `OSError` from it, such as a `PermissionError` while following a symlink, ends the cycle, and since `main` has no `try` it ends the process. The model's `Kind` cannot express this, so the "one entry's error does not stop the rest" of `CycleAt` holds only for errors raised inside `cross_device_move`.
- `Strings.Lower`: lowers only the ASCII letters A-Z. Python's `str.lower` also lowers non-ASCII letters.
- `Strings.SplitExt`, `Strings.Basename`, `Strings.PathJoin`: these follow posixpath for string paths only. Byte paths and Windows separators are not modelled.
