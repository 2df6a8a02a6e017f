/** The decision logic of the watcher (watch_videos.py): which creation events are
    handled, the file-stability wait, the HandBrake command it builds and when the
    source file is deleted.  The file system, the clock and the transcoder are
    inputs: a trace of size samples with the clock reading taken after each, the
    transcoder's result, and whether `os.remove` succeeds. */
module VideoWatcher {
  import opened Strings

  /** The values the script reads from its environment at start-up. */
  datatype Config = Config(
    destFolder: string,     // DEST_FOLDER
    handbrakeCli: string,   // HANDBRAKE_CLI
    preset: string,         // HANDBRAKE_PRESET
    extensions: string,     // ALLOWED_EXTENSIONS, unparsed
    maxWaitTime: int)       // MAX_WAIT_TIME, seconds

  const DefaultExtensions: string := ".mov,.mp4"

  /** The ALLOWED_EXTENSIONS set comprehension: each comma-separated part,
      stripped and lower-cased. */
  function ParseExtensions(raw: string): set<string>
  {
    NormalForms(Split(raw, ','))
  }

  /** `{ext.strip().lower() for ext in parts}`, one part at a time. */
  function NormalForms(parts: seq<string>): set<string>
  {
    if |parts| == 0 then {} else {NormalExtension(parts[0])} + NormalForms(parts[1..])
  }

  /** The normal form of every part is in the set. */
  lemma {:induction false} NormalFormOfPart(parts: seq<string>, i: nat)
    requires i < |parts|
    ensures NormalExtension(parts[i]) in NormalForms(parts)
  {
    var rest := parts[1..];
    assert NormalForms(parts) == {NormalExtension(parts[0])} + NormalForms(rest);
    if i > 0 {
      NormalFormOfPart(rest, i - 1);
      assert rest[i - 1] == parts[i];
    }
  }

  /** Every member of the set is the normal form of some part. */
  lemma {:induction false} PartOfNormalForm(parts: seq<string>, e: string) returns (i: nat)
    requires e in NormalForms(parts)
    ensures i < |parts| && e == NormalExtension(parts[i])
  {
    var rest := parts[1..];
    assert NormalForms(parts) == {NormalExtension(parts[0])} + NormalForms(rest);
    if e in NormalForms(rest) {
      var j := PartOfNormalForm(rest, e);
      i := j + 1;
      assert rest[j] == parts[i];
    } else {
      i := 0;
    }
  }

  /** `ext.strip().lower()`. */
  function NormalExtension(part: string): string
  {
    Lower(Strip(part))
  }

  /** The normal form of a comma-free part holds no comma, no upper-case letter and
      no surrounding whitespace. */
  lemma NormalExtensionShape(part: string)
    requires ',' !in part
    ensures var e := NormalExtension(part);
      ',' !in e && (forall i :: 0 <= i < |e| ==> !IsUpper(e[i])) &&
      (e == [] || (!IsSpace(e[0]) && !IsSpace(e[|e| - 1])))
  {
    var t := Strip(part);
    StripCharacterised(part);
    forall j | 0 <= j < |t| ensures t[j] != ',' {
      assert t[j] == part[LeadingSpaces(part) + j];
    }
    LowerKeepsNonLetter(t, ',');
    LowerHasNoUpper(t);
  }

  /** A part already in normal form is left as it is. */
  lemma NormalOfNormal(s: string)
    requires s == [] || (!IsSpace(s[0]) && !IsSpace(s[|s| - 1]))
    requires forall i :: 0 <= i < |s| ==> !IsUpper(s[i])
    ensures NormalExtension(s) == s
  {
    StripOfTrimmed(s);
    LowerOfLowerCase(s);
  }

  /** Every allowed extension holds no comma, no upper-case letter and no surrounding
      whitespace. */
  lemma AllowedExtensionsAreNormal(raw: string, e: string)
    requires e in ParseExtensions(raw)
    ensures ',' !in e
    ensures forall i :: 0 <= i < |e| ==> !IsUpper(e[i])
    ensures e == [] || (!IsSpace(e[0]) && !IsSpace(e[|e| - 1]))
  {
    var parts := Split(raw, ',');
    var i := PartOfNormalForm(parts, e);
    NormalExtensionShape(parts[i]);
  }

  /** Parsing a comma-join of parts that are already in normal form gives exactly
      the set of those parts. */
  lemma ParseJoined(tokens: seq<string>)
    requires |tokens| >= 1
    requires forall i :: 0 <= i < |tokens| ==> ',' !in tokens[i] && NormalExtension(tokens[i]) == tokens[i]
    ensures forall e :: e in ParseExtensions(Join(tokens, ',')) <==> e in tokens
  {
    SplitJoin(tokens, ',');
    var parsed := ParseExtensions(Join(tokens, ','));
    assert parsed == NormalForms(tokens);
    forall e | e in parsed ensures e in tokens {
      var i := PartOfNormalForm(tokens, e);
    }
    forall t | t in tokens ensures t in parsed {
      var i :| 0 <= i < |tokens| && tokens[i] == t;
      NormalFormOfPart(tokens, i);
    }
  }

  lemma MovIsNormal()
    ensures ',' !in ".mov" && NormalExtension(".mov") == ".mov"
  {
    NormalOfNormal(".mov");
  }

  lemma Mp4IsNormal()
    ensures ',' !in ".mp4" && NormalExtension(".mp4") == ".mp4"
  {
    NormalOfNormal(".mp4");
  }

  /** A string that splits into two parts parses to their two normal forms. */
  lemma ParseOfTwo(raw: string, x: string, y: string)
    requires Split(raw, ',') == [x, y]
    ensures ParseExtensions(raw) == {NormalExtension(x), NormalExtension(y)}
  {
    var parts := [x, y];
    assert parts[1..] == [y];
    assert [y][1..] == [];
    assert NormalForms([y]) == {NormalExtension(y)};
    assert NormalForms(parts) == {NormalExtension(x)} + NormalForms([y]);
  }

  /** Two comma-separated parts in normal form give exactly those two extensions. */
  lemma ParsePair(x: string, y: string)
    requires ',' !in x && NormalExtension(x) == x
    requires ',' !in y && NormalExtension(y) == y
    ensures ParseExtensions(x + "," + y) == {x, y}
  {
    var parts := [x, y];
    assert parts[1..] == [y];
    assert Join(parts, ',') == x + "," + y;
    assert forall i :: 0 <= i < |parts| ==> ',' !in parts[i];
    SplitJoin(parts, ',');
    ParseOfTwo(x + "," + y, x, y);
  }

  /** With the default setting the allowed set is exactly {".mov", ".mp4"}. */
  lemma DefaultAllowedExtensions(raw: string)
    requires raw == DefaultExtensions
    ensures ParseExtensions(raw) == {".mov", ".mp4"}
  {
    assert raw == ".mov" + "," + ".mp4";
    MovMp4Pair(raw);
  }

  lemma MovMp4Pair(raw: string)
    requires raw == ".mov" + "," + ".mp4"
    ensures ParseExtensions(raw) == {".mov", ".mp4"}
  {
    MovIsNormal();
    Mp4IsNormal();
    ParsePair(".mov", ".mp4");
  }

  /** A trailing comma adds the empty extension, so a visible file whose name has
      no '.' passes the extension filter and reaches the wait. */
  lemma TrailingCommaAllowsNoExtension(cfg: Config, ev: CreatedEvent)
    requires cfg.extensions == ".mov,"
    requires !ev.isDirectory && !IsHidden(Basename(ev.srcPath))
    requires '.' !in Basename(ev.srcPath)
    ensures "" in ParseExtensions(cfg.extensions)
    ensures SplitExt(ev.srcPath).1 == ""
    ensures ReachesWait(cfg, ev)
  {
    var parts := [".mov", ""];
    assert parts[1..] == [""];
    assert Join(parts, ',') == cfg.extensions;
    SplitJoin(parts, ',');
    NormalFormOfPart(parts, 1);
    assert NormalExtension("") == "";
  }

  // ---------------------------------------------------------------------------
  // The file-stability wait
  // ---------------------------------------------------------------------------

  /** One pass of the wait loop: the size read by `os.path.getsize`, and the value
      `time.time()` would return right after it. */
  datatype Sample = Sample(size: nat, time: real)

  /** `last_size` when sample `i` is compared: -1 before the first sample. */
  function PreviousSize(trace: seq<Sample>, i: nat): int
    requires i <= |trace|
  {
    if i == 0 then -1 else trace[i - 1].size
  }

  /** Sample `i` has the same size as the one before it. */
  predicate Repeats(trace: seq<Sample>, i: nat)
    requires i < |trace|
  {
    trace[i].size == PreviousSize(trace, i)
  }

  /** More than `maxWait` seconds have elapsed once sample `i` has been taken. */
  predicate Overdue(trace: seq<Sample>, start: real, maxWait: int, i: nat)
    requires i < |trace|
  {
    trace[i].time - start > maxWait as real
  }

  /** The loop leaves at sample `i`, through either of its two exits. */
  predicate ExitsAt(trace: seq<Sample>, start: real, maxWait: int, i: nat)
    requires i < |trace|
  {
    Repeats(trace, i) || Overdue(trace, start, maxWait, i)
  }

  /** The trace is long enough for the loop to leave at or after sample `from`. */
  predicate ExitsFrom(trace: seq<Sample>, start: real, maxWait: int, from: nat)
  {
    exists k :: from <= k < |trace| && ExitsAt(trace, start, maxWait, k)
  }

  /** The first sample, from sample `from` on, at which the loop leaves. */
  function FirstExit(trace: seq<Sample>, start: real, maxWait: int, from: nat): (k: nat)
    requires ExitsFrom(trace, start, maxWait, from)
    ensures from <= k < |trace|
    ensures ExitsAt(trace, start, maxWait, k)
    ensures forall j :: from <= j < k ==> !ExitsAt(trace, start, maxWait, j)
    decreases |trace| - from
  {
    if ExitsAt(trace, start, maxWait, from) then from
    else
      assert ExitsFrom(trace, start, maxWait, from + 1) by {
        var k :| from <= k < |trace| && ExitsAt(trace, start, maxWait, k);
        assert k != from;
      }
      FirstExit(trace, start, maxWait, from + 1)
  }

  /** What `wait_until_fully_written` returns, and how many sizes it sampled. */
  datatype WaitResult = WaitResult(stable: bool, samples: nat)

  function Wait(trace: seq<Sample>, start: real, maxWait: int): WaitResult
    requires ExitsFrom(trace, start, maxWait, 0)
  {
    var k := FirstExit(trace, start, maxWait, 0);
    WaitResult(Repeats(trace, k), k + 1)
  }

  /** `wait_until_fully_written`: sample the size until it repeats (True) or, after
      a sample that did not repeat, the elapsed time exceeds `maxWait` (False). */
  method WaitUntilFullyWritten(trace: seq<Sample>, start: real, maxWait: int)
    returns (stable: bool, samples: nat)
    requires ExitsFrom(trace, start, maxWait, 0)
    ensures 0 < samples <= |trace|
    ensures forall j :: 0 <= j < samples - 1 ==>
      !Repeats(trace, j) && !Overdue(trace, start, maxWait, j)
    ensures stable <==> Repeats(trace, samples - 1)
    ensures !stable ==> Overdue(trace, start, maxWait, samples - 1)
    ensures WaitResult(stable, samples) == Wait(trace, start, maxWait)
  {
    var lastSize: int := -1;
    var i := 0;
    while true
      invariant ExitsFrom(trace, start, maxWait, i)
      invariant i < |trace|
      invariant lastSize == PreviousSize(trace, i)
      invariant forall j :: 0 <= j < i ==>
        !Repeats(trace, j) && !Overdue(trace, start, maxWait, j)
      decreases |trace| - i
    {
      var currentSize := trace[i].size;
      if currentSize == lastSize {
        assert ExitsAt(trace, start, maxWait, i);
        return true, i + 1;
      }
      lastSize := currentSize;
      if trace[i].time - start > maxWait as real {
        assert ExitsAt(trace, start, maxWait, i);
        return false, i + 1;
      }
      assert ExitsFrom(trace, start, maxWait, i + 1) by {
        var k :| i <= k < |trace| && ExitsAt(trace, start, maxWait, k);
        assert k != i;
      }
      i := i + 1;
    }
  }

  /** True is returned only for a sample equal to the one before it, so never for
      the first sample. */
  lemma StableOnlyOnRepeat(trace: seq<Sample>, start: real, maxWait: int)
    requires ExitsFrom(trace, start, maxWait, 0)
    ensures Wait(trace, start, maxWait).stable ==>
      var n := Wait(trace, start, maxWait).samples;
      2 <= n <= |trace| && trace[n - 1].size == trace[n - 2].size
  {
  }

  /** False is returned only after a sample that differed from the one before it
      and was taken with more than `maxWait` seconds elapsed; every earlier sample
      was on time and differed from its predecessor. */
  lemma UnstableOnlyWhenOverdue(trace: seq<Sample>, start: real, maxWait: int)
    requires ExitsFrom(trace, start, maxWait, 0)
    ensures !Wait(trace, start, maxWait).stable ==>
      var n := Wait(trace, start, maxWait).samples;
      0 < n <= |trace| && !Repeats(trace, n - 1) && Overdue(trace, start, maxWait, n - 1)
    ensures forall j :: 0 <= j < Wait(trace, start, maxWait).samples - 1 ==>
      !Repeats(trace, j) && !Overdue(trace, start, maxWait, j)
  {
    var k := FirstExit(trace, start, maxWait, 0);
    forall j | 0 <= j < k ensures !Repeats(trace, j) && !Overdue(trace, start, maxWait, j) {
      assert !ExitsAt(trace, start, maxWait, j);
    }
  }

  /** A size that repeats before the deadline passes makes the wait succeed, even
      when the repeating sample itself is already late: equality is checked first. */
  lemma StableWhenRepeatComesInTime(trace: seq<Sample>, start: real, maxWait: int, k: nat)
    requires k < |trace| && Repeats(trace, k)
    requires forall j :: 0 <= j < k ==> !Overdue(trace, start, maxWait, j)
    ensures ExitsFrom(trace, start, maxWait, 0)
    ensures Wait(trace, start, maxWait).stable
    ensures Wait(trace, start, maxWait).samples <= k + 1
  {
    assert ExitsAt(trace, start, maxWait, k);
    var f := FirstExit(trace, start, maxWait, 0);
    assert f <= k;
    if f < k {
      assert !Overdue(trace, start, maxWait, f);
    }
  }

  /** A file whose size never repeats up to the first late sample is abandoned. */
  lemma UnstableWhenNoRepeatInTime(trace: seq<Sample>, start: real, maxWait: int, k: nat)
    requires k < |trace| && Overdue(trace, start, maxWait, k)
    requires forall j :: 0 <= j <= k ==> !Repeats(trace, j)
    ensures ExitsFrom(trace, start, maxWait, 0)
    ensures !Wait(trace, start, maxWait).stable
    ensures Wait(trace, start, maxWait).samples <= k + 1
  {
    assert ExitsAt(trace, start, maxWait, k);
    var f := FirstExit(trace, start, maxWait, 0);
    assert f <= k;
  }

  // ---------------------------------------------------------------------------
  // Handling one creation event
  // ---------------------------------------------------------------------------

  datatype CreatedEvent = CreatedEvent(isDirectory: bool, srcPath: string)

  /** What `subprocess.run` gave: an exit code, `FileNotFoundError` (no such
      program), or any other exception while launching. */
  datatype ToolResult = Exited(code: int) | ToolNotFound | LaunchFailed

  datatype IgnoreReason = Directory | Hidden | NotAllowedExtension

  /** What `on_created` did with one event. `Transcoded` means HandBrake was
      invoked, whatever its `result`: a non-zero exit, a missing executable or a
      failed launch compress nothing. */
  datatype Handling =
    | Ignored(reason: IgnoreReason)
    | NeverStabilized(samples: nat)
    | Transcoded(samples: nat, command: seq<string>, result: ToolResult, sourceRemoved: bool)

  /** How many times the size was sampled. */
  function SamplesTaken(h: Handling): nat
  {
    match h
    case Ignored(_) => 0
    case NeverStabilized(n) => n
    case Transcoded(n, _, _, _) => n
  }

  /** How many times the transcoder was invoked. */
  function Invocations(h: Handling): nat
  {
    if h.Transcoded? then 1 else 0
  }

  predicate IsHidden(fileName: string)
  {
    StartsWith(fileName, ".")
  }

  /** The file passes every check before the wait. */
  predicate ReachesWait(cfg: Config, ev: CreatedEvent)
  {
    !ev.isDirectory && !IsHidden(Basename(ev.srcPath)) &&
    Lower(SplitExt(ev.srcPath).1) in ParseExtensions(cfg.extensions)
  }

  /** With the default setting, a visible file `dir/stem.ext` whose lower-cased
      extension is ".mov" or ".mp4" passes every check and reaches the wait. */
  lemma PlainVideoReachesWait(cfg: Config, dir: string, stem: string, ext: string)
    requires cfg.extensions == DefaultExtensions
    requires '/' !in stem && |stem| > 0 && stem[0] != '.'
    requires Lower(ext) == ".mov" || Lower(ext) == ".mp4"
    ensures ReachesWait(cfg, CreatedEvent(false, dir + "/" + stem + ext))
  {
    var l := Lower(ext);
    forall i | 0 <= i < |ext| ensures (ext[i] == '.' <==> i == 0) && ext[i] != '/' {
      assert l[i] == LowerChar(ext[i]);
    }
    assert !AllDots(stem) by {
      assert stem[0] != '.';
    }
    SplitExtOfFile(dir, stem, ext);
    assert (stem + ext)[0] == stem[0];
    DefaultAllowedExtensions(cfg.extensions);
  }

  const CompressedSuffix: string := "_compressed.mp4"

  /** The name of the compressed file: the stem of the base name plus
      "_compressed.mp4". */
  function CompressedName(fileName: string): string
  {
    SplitExt(fileName).0 + CompressedSuffix
  }

  /** The compressed file, inside the destination folder. */
  function OutputPath(destFolder: string, fileName: string): string
  {
    PathJoin(destFolder, CompressedName(fileName))
  }

  /** The HandBrake argument list. */
  function TranscodeCommand(cfg: Config, input: string, output: string): seq<string>
  {
    [cfg.handbrakeCli, "-i", input, "-o", output, "--preset", cfg.preset]
  }

  /** The specification of `on_created`. */
  function Handle(cfg: Config, ev: CreatedEvent, trace: seq<Sample>, start: real,
                  tool: ToolResult, removeSucceeds: bool): Handling
    requires ReachesWait(cfg, ev) ==> ExitsFrom(trace, start, cfg.maxWaitTime, 0)
  {
    if ev.isDirectory then Ignored(Directory)
    else if IsHidden(Basename(ev.srcPath)) then Ignored(Hidden)
    else if Lower(SplitExt(ev.srcPath).1) !in ParseExtensions(cfg.extensions) then Ignored(NotAllowedExtension)
    else
      var w := Wait(trace, start, cfg.maxWaitTime);
      if !w.stable then NeverStabilized(w.samples)
      else
        var out := OutputPath(cfg.destFolder, Basename(ev.srcPath));
        Transcoded(w.samples, TranscodeCommand(cfg, ev.srcPath, out), tool,
                   tool == Exited(0) && removeSucceeds)
  }

  /** `VideoCreatedHandler.on_created`, step by step as the handler runs: the
      executable counterpart of `Handle`, which its ensures equates it with. */
  method OnCreated(cfg: Config, ev: CreatedEvent, trace: seq<Sample>, start: real,
                   tool: ToolResult, removeSucceeds: bool) returns (h: Handling)
    requires ReachesWait(cfg, ev) ==> ExitsFrom(trace, start, cfg.maxWaitTime, 0)
    ensures h == Handle(cfg, ev, trace, start, tool, removeSucceeds)
  {
    if ev.isDirectory {
      return Ignored(Directory);
    }
    var newFilePath := ev.srcPath;
    var fileName := Basename(newFilePath);
    if StartsWith(fileName, ".") {
      return Ignored(Hidden);
    }
    var ext := SplitExt(newFilePath).1;
    if Lower(ext) in ParseExtensions(cfg.extensions) {
      assert ReachesWait(cfg, ev);
      var stable, samples := WaitUntilFullyWritten(trace, start, cfg.maxWaitTime);
      if !stable {
        return NeverStabilized(samples);
      }
      var baseName := SplitExt(fileName).0;
      var outFile := PathJoin(cfg.destFolder, baseName + CompressedSuffix);
      assert outFile == OutputPath(cfg.destFolder, fileName);
      var cmd := [cfg.handbrakeCli, "-i", newFilePath, "-o", outFile, "--preset", cfg.preset];
      assert cmd == TranscodeCommand(cfg, newFilePath, outFile);
      assert Handle(cfg, ev, trace, start, tool, removeSucceeds) ==
        Transcoded(samples, cmd, tool, tool == Exited(0) && removeSucceeds);
      var removed := false;
      match tool {
        case Exited(code) =>
          if code == 0 {
            removed := removeSucceeds;
          }
        case ToolNotFound =>
        case LaunchFailed =>
      }
      h := Transcoded(samples, cmd, tool, removed);
    } else {
      h := Ignored(NotAllowedExtension);
    }
  }

  /** Directory events and hidden files never reach the wait or the transcoder. */
  lemma DirectoriesAndHiddenFilesIgnored(cfg: Config, ev: CreatedEvent, trace: seq<Sample>,
                                         start: real, tool: ToolResult, removeSucceeds: bool)
    requires ev.isDirectory || IsHidden(Basename(ev.srcPath))
    ensures var h := Handle(cfg, ev, trace, start, tool, removeSucceeds);
      h.Ignored? && SamplesTaken(h) == 0 && Invocations(h) == 0
  {
  }

  /** The transcoder runs, once, exactly when the event is for a visible file with an
      allowed extension and the wait returned True; otherwise it does not run. */
  lemma CompressionAttemptedIffAllowedAndStable(cfg: Config, ev: CreatedEvent, trace: seq<Sample>,
                                                start: real, tool: ToolResult, removeSucceeds: bool)
    requires ReachesWait(cfg, ev) ==> ExitsFrom(trace, start, cfg.maxWaitTime, 0)
    ensures var h := Handle(cfg, ev, trace, start, tool, removeSucceeds);
      Invocations(h) <= 1 &&
      (Invocations(h) == 1 <==> ReachesWait(cfg, ev) && Wait(trace, start, cfg.maxWaitTime).stable)
  {
  }

  /** A visible file with an allowed extension whose size repeats before the deadline
      is handed to HandBrake exactly once. */
  lemma StableFileTranscodedOnce(cfg: Config, ev: CreatedEvent, trace: seq<Sample>, start: real,
                                 tool: ToolResult, removeSucceeds: bool, k: nat)
    requires ReachesWait(cfg, ev)
    requires k < |trace| && Repeats(trace, k)
    requires forall j :: 0 <= j < k ==> !Overdue(trace, start, cfg.maxWaitTime, j)
    ensures ExitsFrom(trace, start, cfg.maxWaitTime, 0)
    ensures Invocations(Handle(cfg, ev, trace, start, tool, removeSucceeds)) == 1
  {
    StableWhenRepeatComesInTime(trace, start, cfg.maxWaitTime, k);
  }

  /** A file that never repeats its size before a late sample is not compressed. */
  lemma UnstableFileNeverCompressed(cfg: Config, ev: CreatedEvent, trace: seq<Sample>, start: real,
                                    tool: ToolResult, removeSucceeds: bool, k: nat)
    requires ReachesWait(cfg, ev)
    requires k < |trace| && Overdue(trace, start, cfg.maxWaitTime, k)
    requires forall j :: 0 <= j <= k ==> !Repeats(trace, j)
    ensures ExitsFrom(trace, start, cfg.maxWaitTime, 0)
    ensures Handle(cfg, ev, trace, start, tool, removeSucceeds).NeverStabilized?
  {
    UnstableWhenNoRepeatInTime(trace, start, cfg.maxWaitTime, k);
  }

  /** The output is the base-name stem plus "_compressed.mp4", as the last component
      of a path inside the destination folder. */
  lemma OutputPathInDestFolder(destFolder: string, path: string)
    ensures var leaf := CompressedName(Basename(path));
      var out := OutputPath(destFolder, Basename(path));
      Basename(out) == leaf && (out == destFolder + leaf || out == destFolder + "/" + leaf)
  {
    BasenameIsLastComponent(path);
    CompressedNameIsPlain(Basename(path));
    PathJoinName(destFolder, CompressedName(Basename(path)));
  }

  lemma CompressedNameIsPlain(name: string)
    requires '/' !in name
    ensures '/' !in CompressedName(name)
  {
    var stem := SplitExt(name).0;
    assert |stem| <= |name| && stem == name[..|stem|];
    forall j | 0 <= j < |stem| ensures stem[j] != '/' {
      assert stem[j] == name[j];
    }
    assert '/' !in CompressedSuffix;
    var leaf := CompressedName(name);
    forall j | 0 <= j < |leaf| ensures leaf[j] != '/' {
      if j < |stem| {
        assert leaf[j] == stem[j];
      } else {
        assert leaf[j] == CompressedSuffix[j - |stem|];
      }
    }
  }

  /** The transcoder is given exactly HandBrake, the input, the derived output and the
      preset. */
  lemma CommandIsFixed(cfg: Config, ev: CreatedEvent, trace: seq<Sample>, start: real,
                       tool: ToolResult, removeSucceeds: bool)
    requires ReachesWait(cfg, ev) ==> ExitsFrom(trace, start, cfg.maxWaitTime, 0)
    requires Handle(cfg, ev, trace, start, tool, removeSucceeds).Transcoded?
    ensures Handle(cfg, ev, trace, start, tool, removeSucceeds).command ==
      [cfg.handbrakeCli, "-i", ev.srcPath, "-o", OutputPath(cfg.destFolder, Basename(ev.srcPath)),
       "--preset", cfg.preset]
  {
  }

  /** The source file is removed exactly when the transcoder exited with code 0 and
      `os.remove` succeeded: a non-zero code or a launch failure leaves it. */
  lemma SourceRemovedOnlyOnSuccess(cfg: Config, ev: CreatedEvent, trace: seq<Sample>, start: real,
                                   tool: ToolResult, removeSucceeds: bool)
    requires ReachesWait(cfg, ev) ==> ExitsFrom(trace, start, cfg.maxWaitTime, 0)
    requires Handle(cfg, ev, trace, start, tool, removeSucceeds).Transcoded?
    ensures Handle(cfg, ev, trace, start, tool, removeSucceeds).sourceRemoved <==>
      tool == Exited(0) && removeSucceeds
  {
  }
}
