/** The process bookkeeping of the web front end (Executor.py): which state
    the camera is in, how exposure file names are normalised, the exposure
    loop and its counters, the "already running" guards, the choice of the
    newest configuration file and the filtering of the child's log output.
    Starting, signalling and waiting for child processes, files, clocks and
    the loop's thread are outside the model: a child is a value recording its
    arguments and, once it has exited, its return code; time stamps, file
    contents, modification times and exit codes come in as parameters. */
module Executor {
  import opened Wrappers
  import opened PyStr

  // ---------------------------------------------------------------------
  // Exposure file names

  /** `_\d\d\d\d\d\d-\d\d\d\d`: the time stamp `Expose` puts in a file name. */
  predicate IsStamp(t: string)
  {
    |t| == 12 && t[0] == '_' && AllDigits(t[1..7]) && t[7] == '-' && AllDigits(t[8..12])
  }

  /** The pattern `.*(_\d{6}-\d{4})\.fits`, matched from the start of `s`,
      can place its group at `i`: a stamp followed by ".fits", with no
      newline before it for `.*` to swallow. */
  predicate MatchesAt(s: string, i: nat)
  {
    i + 17 <= |s| && '\n' !in s[..i] && IsStamp(s[i..i + 12]) && s[i + 12..i + 17] == ".fits"
  }

  /** The greatest position below `bound` where the pattern matches. */
  function LastMatch(s: string, bound: nat): (r: Option<nat>)
    ensures r.Some? ==> r.value < bound && MatchesAt(s, r.value)
    ensures r.Some? ==> forall j :: r.value < j < bound ==> !MatchesAt(s, j)
    ensures r.None? ==> forall j :: 0 <= j < bound ==> !MatchesAt(s, j)
  {
    if bound == 0 then None
    else if MatchesAt(s, bound - 1) then Some(bound - 1)
    else LastMatch(s, bound - 1)
  }

  /** `re.match(r'.*(_\d\d\d\d\d\d-\d\d\d\d)\.fits', s)`: the greedy `.*`
      backtracks from the longest prefix, so the group is the rightmost
      place where the rest of the pattern matches. */
  function StampMatch(s: string): Option<nat>
  {
    LastMatch(s, |s| + 1)
  }

  /** A name that does not end in ".fits" gets it appended. */
  function WithFitsSuffix(fitsfile: string): (f: string)
    ensures EndsWith(f, ".fits")
    ensures EndsWith(fitsfile, ".fits") ==> f == fitsfile
    ensures !EndsWith(fitsfile, ".fits") ==> f == fitsfile + ".fits"
  {
    if EndsWith(fitsfile, ".fits") then fitsfile else fitsfile + ".fits"
  }

  /** The file-name rule of `Expose` (before the data directory is
      prepended): without a stamp the current one is inserted before
      ".fits"; a different stamp is replaced by cutting the last 17
      characters; the current stamp is kept. */
  function Normalize(fitsfile: string, tstamp: string): string
  {
    var f := WithFitsSuffix(fitsfile);
    var m := StampMatch(f);
    if m.None? then f[..|f| - 5] + tstamp + ".fits"
    else if f[m.value..m.value + 12] != tstamp then f[..|f| - 17] + tstamp + ".fits"
    else f
  }

  /** The normalised name always ends in ".fits". */
  lemma NormalizeEndsWithFits(fitsfile: string, tstamp: string)
    ensures EndsWith(Normalize(fitsfile, tstamp), ".fits")
  {
    var r := Normalize(fitsfile, tstamp);
    assert r[|r| - 5..] == ".fits";
  }

  /** Without a stamp, or with one other than the current stamp, the name
      ends up ending in the current stamp and ".fits"; with the current stamp
      it is left as it is. */
  lemma NormalizeStamps(fitsfile: string, tstamp: string)
    ensures var f := WithFitsSuffix(fitsfile);
      var m := StampMatch(f);
      (m.None? || f[m.value..m.value + 12] != tstamp) ==> EndsWith(Normalize(fitsfile, tstamp), tstamp + ".fits")
    ensures var f := WithFitsSuffix(fitsfile);
      var m := StampMatch(f);
      (m.Some? && f[m.value..m.value + 12] == tstamp) ==> Normalize(fitsfile, tstamp) == f
  {
    var r := Normalize(fitsfile, tstamp);
    var f := WithFitsSuffix(fitsfile);
    var m := StampMatch(f);
    if m.None? || f[m.value..m.value + 12] != tstamp {
      var tail := tstamp + ".fits";
      assert r[|r| - |tail|..] == tail;
    }
  }

  /** A name that ends in a stamp and ".fits", and has no newline before it,
      matches there and nowhere to the right. */
  lemma StampAtEnd(p: string, tstamp: string)
    requires IsStamp(tstamp) && '\n' !in p
    ensures StampMatch(p + tstamp + ".fits") == Some(|p|)
  {
    var s := p + tstamp + ".fits";
    assert s[..|p|] == p;
    assert s[|p|..|p| + 12] == tstamp;
    assert s[|p| + 12..|p| + 17] == ".fits";
    assert MatchesAt(s, |p|);
  }

  /** For a fixed stamp of the right shape, normalising twice gives the
      same name as normalising once, as long as the name holds no newline. */
  lemma NormalizeIdempotent(fitsfile: string, tstamp: string)
    requires IsStamp(tstamp) && '\n' !in fitsfile
    ensures Normalize(Normalize(fitsfile, tstamp), tstamp) == Normalize(fitsfile, tstamp)
  {
    var f := WithFitsSuffix(fitsfile);
    assert '\n' !in f by {
      assert f == fitsfile || f == fitsfile + ".fits";
    }
    var m := StampMatch(f);
    var r := Normalize(fitsfile, tstamp);
    if m.Some? && f[m.value..m.value + 12] == tstamp {
      assert r == f;
    } else {
      var p := if m.None? then f[..|f| - 5] else f[..|f| - 17];
      assert r == p + tstamp + ".fits";
      assert '\n' !in p by {
        assert forall c :: c in p ==> c in f;
      }
      StampAtEnd(p, tstamp);
      var t := tstamp + ".fits";
      assert r[|r| - 5..] == ".fits";
      assert WithFitsSuffix(r) == r;
      assert r[|p|..|p| + 12] == tstamp;
    }
  }

  /** With a newline in the name the pattern cannot reach a stamp after it,
      so the name gets a new stamp each time: normalising twice adds the
      stamp twice. This is why `NormalizeIdempotent` excludes newlines. */
  lemma NormalizeWithNewlineGrows(p: string, t: string)
    requires |p| >= 2 && p[0] != '_' && p[1] == '\n'
    ensures Normalize(p + ".fits", t) == p + t + ".fits"
    ensures Normalize(Normalize(p + ".fits", t), t) == p + t + t + ".fits"
    ensures t != [] ==> Normalize(Normalize(p + ".fits", t), t) != Normalize(p + ".fits", t)
  {
    NewlineNameGetsStamp(p, t);
    var q := p + t;
    assert q[0] == p[0] && q[1] == p[1];
    NewlineNameGetsStamp(q, t);
    assert q + ".fits" == p + t + ".fits";
    assert q + t + ".fits" == p + t + t + ".fits";
  }

  lemma NewlineNameGetsStamp(p: string, t: string)
    requires |p| >= 2 && p[0] != '_' && p[1] == '\n'
    ensures Normalize(p + ".fits", t) == p + t + ".fits"
  {
    var f := p + ".fits";
    assert WithFitsSuffix(f) == f by {
      assert f[|f| - 5..] == ".fits";
    }
    assert f[0] == p[0] && f[1] == p[1];
    NewlineBlocksMatch(f);
    assert f[..|f| - 5] == p;
  }

  /** A newline in second place, after anything but '_', leaves the
      pattern no place to match. */
  lemma NewlineBlocksMatch(s: string)
    requires |s| >= 2 && s[0] != '_' && s[1] == '\n'
    ensures StampMatch(s) == None
  {
    forall j | 0 <= j < |s| + 1
      ensures !MatchesAt(s, j)
    {
      if j >= 2 && j + 17 <= |s| {
        assert s[..j][1] == '\n';
      }
    }
  }

  // ---------------------------------------------------------------------
  // The child's log

  /** A line as `readlines()` cuts it: every carriage return inside it is
      the first half of a "\r\n" ending. */
  predicate InnerCRLF(l: string)
  {
    forall p :: 0 <= p < |l| - 1 && l[p] == '\r' ==> l[p + 1] == '\n'
  }

  predicate IsLineEnd(c: char)
  {
    c == '\n' || c == '\r'
  }

  /** The length of the first line of `s` with universal newlines and
      `newline=''`: up to and including the first "\n", "\r\n" or lone
      "\r", or the whole text when it has none. */
  function FirstLineLength(s: string): (n: nat)
    requires s != []
    ensures 0 < n <= |s|
    ensures InnerCRLF(s[..n])
    ensures forall p :: 0 <= p < n - 1 ==> s[p] != '\n'
    ensures n < |s| ==> IsLineEnd(s[n - 1]) && (s[n - 1] == '\r' ==> s[n] != '\n')
  {
    if s[0] == '\n' then 1
    else if s[0] == '\r' then (if |s| > 1 && s[1] == '\n' then 2 else 1)
    else if |s| == 1 then 1
    else
      var n := 1 + FirstLineLength(s[1..]);
      assert s[..n] == [s[0]] + s[1..][..n - 1];
      n
  }

  function Concat(lines: seq<string>): string
  {
    if lines == [] then "" else Concat(lines[..|lines| - 1]) + lines[|lines| - 1]
  }

  /** `readlines()` on a file opened with `newline=''`. */
  function ReadLines(s: string): (lines: seq<string>)
    ensures forall k :: 0 <= k < |lines| ==> lines[k] != [] && InnerCRLF(lines[k])
    ensures forall k :: 0 <= k < |lines| - 1 ==> IsLineEnd(lines[k][|lines[k]| - 1])
    decreases |s|
  {
    if s == [] then []
    else
      var n := FirstLineLength(s);
      [s[..n]] + ReadLines(s[n..])
  }

  lemma {:induction false} ConcatPrepend(l: string, lines: seq<string>)
    ensures Concat([l] + lines) == l + Concat(lines)
    decreases |lines|
  {
    if lines != [] {
      var init := lines[..|lines| - 1];
      assert ([l] + lines)[..|lines|] == [l] + init;
      ConcatPrepend(l, init);
    }
  }

  /** The lines put back together give the text. */
  lemma {:induction false} ReadLinesConcat(s: string)
    ensures Concat(ReadLines(s)) == s
    decreases |s|
  {
    if s != [] {
      var n := FirstLineLength(s);
      var head, tail := s[..n], s[n..];
      assert ReadLines(s) == [head] + ReadLines(tail);
      ReadLinesConcat(tail);
      ConcatPrepend(head, ReadLines(tail));
      assert s == head + tail;
    }
  }

  /** `lines[-1] = lines[-1][:-1]` when the last line ends in "\r". */
  function StripLastCR(lines: seq<string>): (r: seq<string>)
    ensures |r| == |lines|
  {
    if lines != [] && EndsWith(lines[|lines| - 1], "\r") then
      lines[..|lines| - 1] + [lines[|lines| - 1][..|lines[|lines| - 1]| - 1]]
    else lines
  }

  /** The concatenation of the lines that do not end in "\r". */
  function Kept(lines: seq<string>): string
  {
    if lines == [] then ""
    else
      var l := lines[|lines| - 1];
      Kept(lines[..|lines| - 1]) + (if EndsWith(l, "\r") then "" else l)
  }

  /** The fixed header `getstatus` puts before the log: the time stamp of
      the log file and a row of 80 '#'. */
  function LogHeader(ts: string): string
  {
    "Last output: " + ts + "\n" + seq(80, _ => '#') + "\n"
  }

  /** The `cmdoutput` of `getstatus`: empty when the log file is missing;
      otherwise the header followed by every line of the log except the
      ones ending in a carriage return (the progress lines a terminal would
      overwrite), the last line's own trailing carriage return removed
      first so that the latest progress line is shown. */
  method CommandOutput(log: Option<string>, ts: string) returns (out: string)
    ensures log.None? ==> out == ""
    ensures log.Some? ==> out == LogHeader(ts) + Kept(StripLastCR(ReadLines(log.value)))
  {
    if log.None? {
      return "";
    }
    var lines := ReadLines(log.value);
    if lines != [] {
      EndsWithCR(lines[|lines| - 1]);
    }
    if lines != [] && lines[|lines| - 1][|lines[|lines| - 1]| - 1] == '\r' {
      var last := lines[|lines| - 1];
      lines := lines[..|lines| - 1] + [last[..|last| - 1]];
    }
    assert lines == StripLastCR(ReadLines(log.value));
    out := AppendKept(LogHeader(ts), lines);
  }

  /** The `for` loop of `getstatus`: appends to `out0` each line that does
      not end in "\r". */
  method AppendKept(out0: string, lines: seq<string>) returns (out: string)
    ensures out == out0 + Kept(lines)
  {
    out := out0;
    for i := 0 to |lines|
      invariant out == out0 + Kept(lines[..i])
    {
      KeptSnoc(lines, i);
      if !EndsWith(lines[i], "\r") {
        out := out + lines[i];
      }
    }
    assert lines[..|lines|] == lines;
  }

  /** A non-empty line ends in "\r" exactly when its last character is one. */
  lemma EndsWithCR(l: string)
    requires l != []
    ensures EndsWith(l, "\r") <==> l[|l| - 1] == '\r'
  {
    assert l[|l| - 1..] == [l[|l| - 1]];
  }

  lemma KeptSnoc(lines: seq<string>, i: nat)
    requires i < |lines|
    ensures Kept(lines[..i + 1]) == Kept(lines[..i]) + (if EndsWith(lines[i], "\r") then "" else lines[i])
  {
    assert lines[..i + 1][..i] == lines[..i];
  }

  /** Concatenation, on the right, of a text whose every carriage return
      starts a "\r\n". */
  predicate CROnlyInCRLF(s: string)
  {
    forall p :: 0 <= p < |s| && s[p] == '\r' ==> p + 1 < |s| && s[p + 1] == '\n'
  }

  lemma CROnlyInCRLFAppend(a: string, b: string)
    requires CROnlyInCRLF(a) && CROnlyInCRLF(b)
    ensures CROnlyInCRLF(a + b)
  {
    var s := a + b;
    forall p | 0 <= p < |s| && s[p] == '\r'
      ensures p + 1 < |s| && s[p + 1] == '\n'
    {
      if p < |a| {
        assert a[p] == '\r';
      } else {
        assert b[p - |a|] == '\r';
      }
    }
  }

  lemma {:induction false} KeptCROnlyInCRLF(lines: seq<string>)
    requires forall k :: 0 <= k < |lines| ==> InnerCRLF(lines[k])
    ensures CROnlyInCRLF(Kept(lines))
  {
    if lines != [] {
      var l := lines[|lines| - 1];
      KeptCROnlyInCRLF(lines[..|lines| - 1]);
      var part := if EndsWith(l, "\r") then "" else l;
      assert CROnlyInCRLF(part) by {
        if part != "" {
          assert l[|l| - 1] != '\r' by {
            assert l[|l| - 1..] == [l[|l| - 1]];
          }
        }
      }
      CROnlyInCRLFAppend(Kept(lines[..|lines| - 1]), part);
    }
  }

  /** Nothing the log shows can overwrite itself on a terminal: every
      carriage return left in the output is part of a "\r\n". */
  lemma FilteredLogHasNoBareCR(log: string, ts: string)
    ensures CROnlyInCRLF(Kept(StripLastCR(ReadLines(log))))
  {
    var lines := ReadLines(log);
    var stripped := StripLastCR(lines);
    forall k | 0 <= k < |stripped|
      ensures InnerCRLF(stripped[k])
    {
      if k == |lines| - 1 && EndsWith(lines[k], "\r") {
        var l := lines[k];
        assert stripped[k] == l[..|l| - 1];
        assert l[|l| - 1] == '\r' by {
          assert l[|l| - 1..] == [l[|l| - 1]];
        }
      } else {
        assert stripped[k] == lines[k];
      }
    }
    KeptCROnlyInCRLF(stripped);
  }

  lemma {:induction false} KeptAll(lines: seq<string>)
    requires forall k :: 0 <= k < |lines| ==> !EndsWith(lines[k], "\r")
    ensures Kept(lines) == Concat(lines)
  {
    if lines != [] {
      KeptAll(lines[..|lines| - 1]);
    }
  }

  /** A log without carriage returns is shown whole. */
  lemma LogWithoutCRShownWhole(log: string)
    requires '\r' !in log
    ensures Kept(StripLastCR(ReadLines(log))) == log
  {
    var lines := ReadLines(log);
    ReadLinesConcat(log);
    forall k | 0 <= k < |lines|
      ensures !EndsWith(lines[k], "\r")
    {
      ConcatHolds(lines, k);
      var l := lines[k];
      assert l[|l| - 1..] == [l[|l| - 1]];
    }
    assert StripLastCR(lines) == lines;
    KeptAll(lines);
  }

  /** Every character of a line is a character of the concatenation. */
  lemma {:induction false} ConcatHolds(lines: seq<string>, k: nat)
    requires k < |lines|
    ensures forall c :: c in lines[k] ==> c in Concat(lines)
  {
    if k < |lines| - 1 {
      ConcatHolds(lines[..|lines| - 1], k);
    }
  }

  // ---------------------------------------------------------------------
  // The newest configuration file

  /** The first index whose key is largest: what `sorted(..., reverse=True)`
      puts first, the sort being stable. */
  function NewestIndex(keys: seq<real>): (i: nat)
    requires |keys| > 0
    ensures i < |keys|
    ensures forall j :: 0 <= j < |keys| ==> keys[j] <= keys[i]
    ensures forall j :: 0 <= j < i ==> keys[j] < keys[i]
  {
    if |keys| == 1 then 0
    else
      var i := NewestIndex(keys[..|keys| - 1]);
      if keys[|keys| - 1] > keys[i] then |keys| - 1 else i
  }

  /** The sort key of `readconfig`: the modification time of a file that
      exists, 0 otherwise. */
  function ConfigKey(mtime: string -> Option<real>, f: string): real
  {
    if mtime(f).Some? then mtime(f).value else 0.0
  }

  // ---------------------------------------------------------------------
  // The exposure loop

  /** What the environment decides about one exposure of a loop: the time
      stamp its file gets and the code its child exits with. */
  datatype Round = Round(tstamp: string, exitCode: int)

  /** The number of exposures the loop takes from exposure `k` on, when it
      may take `budget` in all and exposure `j` goes as `rounds[j]`: it
      stops at the budget or right after the first failing exposure. */
  function TakenFrom(budget: nat, rounds: seq<Round>, k: nat): (n: nat)
    requires budget <= |rounds|
    ensures k <= n && (n == k || n <= budget)
    ensures forall j :: k <= j < n - 1 ==> rounds[j].exitCode == 0
    ensures n < budget ==> n > k && rounds[n - 1].exitCode != 0
    decreases if budget > k then budget - k else 0
  {
    if k >= budget then k
    else if rounds[k].exitCode != 0 then k + 1
    else TakenFrom(budget, rounds, k + 1)
  }

  lemma TakenFromStep(budget: nat, rounds: seq<Round>, k: nat)
    requires budget <= |rounds| && k < budget && rounds[k].exitCode == 0
    ensures TakenFrom(budget, rounds, k + 1) == TakenFrom(budget, rounds, k)
  {
  }

  lemma TakenFromStop(budget: nat, rounds: seq<Round>, k: nat)
    requires budget <= |rounds| && k < budget && rounds[k].exitCode != 0
    ensures TakenFrom(budget, rounds, k) == k + 1
  {
  }

  lemma TakenFromDone(budget: nat, rounds: seq<Round>, k: nat)
    requires budget <= |rounds| && k >= budget
    ensures TakenFrom(budget, rounds, k) == k
  {
  }

  /** The state `getstate` reports. */
  datatype State = Idle | Running | Error

  function StateName(s: State): string
  {
    match s
    case Idle => "idle"
    case Running => "running"
    case Error => "error"
  }

  /** The RuntimeErrors of the "already running" guards. */
  datatype Refusal = ProcessRunning | LoopRunning

  function RefusalMessage(r: Refusal): string
  {
    match r
    case ProcessRunning => "A process is already running"
    case LoopRunning => "An exposure loop is already running"
  }

  /** How `abort` stops a running child. */
  datatype Signal = Kill | Terminate

  /** A child process: its arguments and, once it has exited, its return
      code (what `poll()` gives). */
  datatype Process = Process(args: seq<string>, returncode: Option<int>)

  /** The fields the exposure loop changes: the exposure counter, the last
      file, the child and the arguments of every child started. */
  datatype LoopState = LoopState(currentExposure: Option<int>, lastfile: Option<string>,
                                 process: Option<Process>, launched: seq<seq<string>>)

  /** One completed round: the counter is one higher, the round's file is
      the last one, and its child was started with `args` and exited with
      `code`. */
  function AfterRound(s: LoopState, file: string, args: seq<string>, code: int): (r: LoopState)
    requires s.currentExposure.Some?
    ensures r.currentExposure == Some(s.currentExposure.value + 1)
    ensures r.process.Some? && r.process.value.returncode == Some(code)
    ensures |r.launched| == |s.launched| + 1 && r.launched[..|s.launched|] == s.launched
  {
    LoopState(Some(s.currentExposure.value + 1), Some(file), Some(Process(args, Some(code))), s.launched + [args])
  }

  class Executor {
    const ccddpath: string
    const datapath: string
    const lastimgpath: string
    const outputConfig: string
    const outputMetadata: string
    /** The settings last applied by the camera programs, and their
        default configuration: the first two candidates of `readconfig`. */
    const lastSettingsFile: string
    const defaultConfigFile: string
    var process: Option<Process>
    var currentExposure: Option<int>
    var maxExposures: Option<int>
    var lastfile: Option<string>
    /** Whether the thread running the exposure loop is alive. */
    var loopAlive: bool
    /** The arguments of every child started, oldest first. */
    ghost var launched: seq<seq<string>>

    /** The counters are set together: an exposure count without a limit
        would make the loop's comparison fail. */
    predicate Valid()
      reads this
    {
      currentExposure.Some? ==> maxExposures.Some?
    }

    /** The settings read from the configuration, with their defaults. The
        absolute form of the configuration path and the checks on the
        directories are left out. */
    constructor(ccddpath: string, datapath: string := "data", lastimgpath: string := "static/lastimg.png",
                configFile: string := "config/Config_GUI.ini", metadataFile: string := "config/Metadata_GUI.json")
      ensures Valid()
      ensures this.ccddpath == ccddpath && this.datapath == datapath && this.lastimgpath == lastimgpath
      ensures outputConfig == Join(ccddpath, configFile) && outputMetadata == Join(ccddpath, metadataFile)
      ensures lastSettingsFile == Join(Join(ccddpath, "do_not_touch"), "LastSettings.ini")
      ensures defaultConfigFile == Join(Join(ccddpath, "config"), "Config.ini")
      ensures process.None? && currentExposure.None? && maxExposures.None? && lastfile.None? && !loopAlive
      ensures launched == []
    {
      this.ccddpath := ccddpath;
      this.datapath := datapath;
      this.lastimgpath := lastimgpath;
      outputConfig := Join(ccddpath, configFile);
      outputMetadata := Join(ccddpath, metadataFile);
      lastSettingsFile := Join(Join(ccddpath, "do_not_touch"), "LastSettings.ini");
      defaultConfigFile := Join(Join(ccddpath, "config"), "Config.ini");
      process := None;
      currentExposure := None;
      maxExposures := None;
      lastfile := None;
      loopAlive := false;
      launched := [];
    }

    /** A child has been started and has not exited. */
    predicate ProcessIsRunning()
      reads this
    {
      process.Some? && process.value.returncode.None?
    }

    /** `getstate()`: running while an exposure loop is counting or a child
        is running; otherwise error when the last child exited non-zero;
        otherwise idle. */
    function GetState(): (s: State)
      reads this
      ensures s == Running <==> currentExposure.Some? || ProcessIsRunning()
      ensures s == Error <==> currentExposure.None? && process.Some? && process.value.returncode.Some? && process.value.returncode.value != 0
    {
      var state :=
        if process.Some? then
          if process.value.returncode.None? then Running
          else if process.value.returncode.value != 0 then Error
          else Idle
        else Idle;
      if currentExposure.Some? then Running else state
    }

    /** `_run(args)`: refuses while a child is running, otherwise starts a
        new one. */
    method Run(args: seq<string>) returns (refused: Option<Refusal>)
      modifies this`process, this`launched
      ensures old(ProcessIsRunning()) ==> refused == Some(ProcessRunning) && process == old(process) && launched == old(launched)
      ensures !old(ProcessIsRunning()) ==> refused.None? && process == Some(Process(args, None)) && launched == old(launched) + [args]
    {
      if ProcessIsRunning() {
        return Some(ProcessRunning);
      }
      process := Some(Process(args, None));
      launched := launched + [args];
      return None;
    }

    /** Where `Expose` writes the image taken with stamp `tstamp`. */
    function ExposeFile(fitsfile: string, tstamp: string): string
    {
      Join(datapath, Normalize(fitsfile, tstamp))
    }

    /** The arguments `Expose` starts the exposure script with, for the
        image file `file`. */
    function ExposeArgs(file: string, seconds: int): seq<string>
    {
      ["./CCDDExposeDB.py", IntToStr(seconds), file, outputMetadata]
        + (if lastimgpath != "" then [lastimgpath] else [])
    }

    /** The exposure script gets the exposure time, the image file and the
        metadata file, and the preview path when there is one. */
    lemma ExposeArgsShape(file: string, seconds: int)
      ensures var a := ExposeArgs(file, seconds);
        && a[0] == "./CCDDExposeDB.py" && a[1] == IntToStr(seconds) && a[2] == file && a[3] == outputMetadata
        && (|a| == 5 <==> lastimgpath != "") && (|a| == 5 ==> a[4] == lastimgpath)
    {
    }

    /** `Expose(fitsfile, seconds)` with `tstamp` for the current time: the
        file name is recorded before the child is started, so it is
        recorded even when a running child makes the start fail. */
    method Expose(fitsfile: string, seconds: int, tstamp: string) returns (refused: Option<Refusal>)
      modifies this`lastfile, this`process, this`launched
      ensures lastfile == Some(ExposeFile(fitsfile, tstamp))
      ensures old(ProcessIsRunning()) ==> refused == Some(ProcessRunning) && process == old(process) && launched == old(launched)
      ensures !old(ProcessIsRunning()) ==>
        refused.None? && process == Some(Process(ExposeArgs(lastfile.value, seconds), None))
        && launched == old(launched) + [ExposeArgs(lastfile.value, seconds)]
    {
      lastfile := Some(ExposeFile(fitsfile, tstamp));
      var args := ["./CCDDExposeDB.py", IntToStr(seconds), lastfile.value, outputMetadata];
      if lastimgpath != "" {
        args := args + [lastimgpath];
      }
      assert args == ExposeArgs(lastfile.value, seconds);
      refused := Run(args);
    }

    /** The file exposure `k` of a loop writes: the name `Expose` makes
        from `fitsfile` and that exposure's stamp. It has no counterpart in
        Executor.py; it stands for `ExposeFile(fitsfile, rounds[k].tstamp)`
        (`RoundFileIsExposeFile`) in a recursive form the loop proofs use. */
    function RoundFile(fitsfile: string, rounds: seq<Round>, k: nat): string
      requires k < |rounds|
      decreases k
    {
      if k == 0 then ExposeFile(fitsfile, rounds[0].tstamp) else RoundFile(fitsfile, rounds[1..], k - 1)
    }

    lemma {:induction false} RoundFileIsExposeFile(fitsfile: string, rounds: seq<Round>, k: nat)
      requires k < |rounds|
      ensures RoundFile(fitsfile, rounds, k) == ExposeFile(fitsfile, rounds[k].tstamp)
      decreases k
    {
      if k > 0 {
        RoundFileIsExposeFile(fitsfile, rounds[1..], k - 1);
      }
    }

    /** The arguments of the first `k` exposures of a loop. */
    ghost function ExposureHistory(fitsfile: string, seconds: int, rounds: seq<Round>, k: nat): seq<seq<string>>
      requires k <= |rounds|
    {
      if k == 0 then [] else ExposureHistory(fitsfile, seconds, rounds, k - 1) + [ExposeArgs(RoundFile(fitsfile, rounds, k - 1), seconds)]
    }

    /** The loop's part of the object's state. */
    ghost function LoopView(): LoopState
      reads this
    {
      LoopState(currentExposure, lastfile, process, launched)
    }

    /** The state after the first `n` rounds of a loop started in `s0`,
        each of which started its child. */
    ghost function Rounds(s0: LoopState, fitsfile: string, seconds: int, rounds: seq<Round>, n: nat): (s: LoopState)
      requires n <= |rounds| && s0.currentExposure.Some?
      ensures s.currentExposure == Some(s0.currentExposure.value + n)
    {
      if n == 0 then s0
      else
        var file := RoundFile(fitsfile, rounds, n - 1);
        AfterRound(Rounds(s0, fitsfile, seconds, rounds, n - 1), file, ExposeArgs(file, seconds), rounds[n - 1].exitCode)
    }

    /** After `n > 0` rounds the last file and the child are those of round
        `n - 1`, and the children started are those of the `n` rounds, in
        order. */
    lemma RoundsLast(s0: LoopState, fitsfile: string, seconds: int, rounds: seq<Round>, n: nat)
      requires 0 < n <= |rounds| && s0.currentExposure.Some?
      ensures var s := Rounds(s0, fitsfile, seconds, rounds, n);
        && s.lastfile == Some(RoundFile(fitsfile, rounds, n - 1))
        && s.process == Some(Process(ExposeArgs(RoundFile(fitsfile, rounds, n - 1), seconds), Some(rounds[n - 1].exitCode)))
        && s.launched == s0.launched + ExposureHistory(fitsfile, seconds, rounds, n)
    {
      RoundsLaunched(s0, fitsfile, seconds, rounds, n);
    }

    lemma {:induction false} RoundsLaunched(s0: LoopState, fitsfile: string, seconds: int, rounds: seq<Round>, n: nat)
      requires n <= |rounds| && s0.currentExposure.Some?
      ensures Rounds(s0, fitsfile, seconds, rounds, n).launched == s0.launched + ExposureHistory(fitsfile, seconds, rounds, n)
    {
      if n > 0 {
        RoundsLaunched(s0, fitsfile, seconds, rounds, n - 1);
        var h := ExposureHistory(fitsfile, seconds, rounds, n - 1);
        var x := ExposeArgs(RoundFile(fitsfile, rounds, n - 1), seconds);
        assert (s0.launched + h) + [x] == s0.launched + (h + [x]);
      }
    }

    /** Exposure `k` of a loop: count it, start it and wait for its child,
        which exits with the round's code. A refused start only counts the
        exposure and names its file. */
    method ExposeRound(fitsfile: string, seconds: int, rounds: seq<Round>, k: nat) returns (refused: Option<Refusal>)
      requires currentExposure.Some? && k < |rounds|
      modifies this`currentExposure, this`lastfile, this`process, this`launched
      ensures refused.Some? <==> old(ProcessIsRunning())
      ensures refused.Some? ==>
        && refused == Some(ProcessRunning)
        && LoopView() == old(LoopView()).(currentExposure := Some(old(currentExposure).value + 1),
                                          lastfile := Some(RoundFile(fitsfile, rounds, k)))
      ensures refused.None? ==>
        var file := RoundFile(fitsfile, rounds, k);
        LoopView() == AfterRound(old(LoopView()), file, ExposeArgs(file, seconds), rounds[k].exitCode)
    {
      refused := CountAndExpose(fitsfile, seconds, rounds, k);
    }

    /** The steps of one round, field by field. */
    method CountAndExpose(fitsfile: string, seconds: int, rounds: seq<Round>, k: nat) returns (refused: Option<Refusal>)
      requires currentExposure.Some? && k < |rounds|
      modifies this`currentExposure, this`lastfile, this`process, this`launched
      ensures currentExposure == Some(old(currentExposure).value + 1)
      ensures lastfile == Some(RoundFile(fitsfile, rounds, k))
      ensures refused.Some? <==> old(ProcessIsRunning())
      ensures refused.Some? ==> refused == Some(ProcessRunning) && process == old(process) && launched == old(launched)
      ensures refused.None? ==>
        && process == Some(Process(ExposeArgs(RoundFile(fitsfile, rounds, k), seconds), Some(rounds[k].exitCode)))
        && launched == old(launched) + [ExposeArgs(RoundFile(fitsfile, rounds, k), seconds)]
    {
      currentExposure := Some(currentExposure.value + 1);
      refused := Expose(fitsfile, seconds, rounds[k].tstamp);
      RoundFileIsExposeFile(fitsfile, rounds, k);
      if refused.None? {
        // the wait for the child
        process := Some(process.value.(returncode := Some(rounds[k].exitCode)));
      }
    }

    /** The guard of the exposure loop. */
    predicate LoopContinues()
      reads this
    {
      currentExposure.Some? && maxExposures.Some? && currentExposure.value < maxExposures.value
    }

    /** `_do_expose_loop(fitsfile, seconds)`, run to its end. Exposure `k`
        of the loop goes as `rounds[k]`, one entry for each exposure the
        loop may take. The loop ends at the limit or after the first
        exposure that failed, and then clears both counters. A refused
        start ends the loop's thread with the counters as they were. */
    method DoExposeLoop(fitsfile: string, seconds: int, rounds: seq<Round>) returns (refused: Option<Refusal>)
      requires Valid()
      requires LoopContinues() ==> |rounds| >= maxExposures.value - currentExposure.value
      modifies this`currentExposure, this`maxExposures, this`lastfile, this`process, this`launched, this`loopAlive
      ensures Valid() && !loopAlive
      ensures refused.Some? ==>
        && old(LoopContinues()) && old(ProcessIsRunning()) && refused == Some(ProcessRunning)
        && currentExposure == Some(old(currentExposure).value + 1) && maxExposures == old(maxExposures)
        && process == old(process) && launched == old(launched)
        && lastfile == Some(RoundFile(fitsfile, rounds, 0))
      ensures refused.None? ==> currentExposure.None? && maxExposures.None?
      ensures refused.None? && !old(LoopContinues()) ==>
        process == old(process) && lastfile == old(lastfile) && launched == old(launched)
      ensures refused.None? && old(LoopContinues()) ==>
        var n := TakenFrom(old(maxExposures).value - old(currentExposure).value, rounds, 0);
        && 0 < n <= |rounds|
        && launched == old(launched) + ExposureHistory(fitsfile, seconds, rounds, n)
        && lastfile == Some(RoundFile(fitsfile, rounds, n - 1))
        && process == Some(Process(ExposeArgs(lastfile.value, seconds), Some(rounds[n - 1].exitCode)))
    {
      ghost var v0 := LoopView();
      var n;
      refused, n := ExposeRounds(fitsfile, seconds, rounds);
      if refused.None? && old(LoopContinues()) {
        RoundsLast(v0, fitsfile, seconds, rounds, n);
      }
      if refused.None? {
        currentExposure := None;
        maxExposures := None;
      }
      loopAlive := false;
    }

    /** The `while` loop of `_do_expose_loop`: each round counts the
        exposure, starts it and waits for its child. `n` is the number of
        exposures started. */
    method ExposeRounds(fitsfile: string, seconds: int, rounds: seq<Round>) returns (refused: Option<Refusal>, n: nat)
      requires Valid()
      requires LoopContinues() ==> |rounds| >= maxExposures.value - currentExposure.value
      modifies this`currentExposure, this`lastfile, this`process, this`launched
      ensures Valid()
      ensures refused.Some? ==>
        && old(LoopContinues()) && old(ProcessIsRunning()) && refused == Some(ProcessRunning)
        && LoopView() == old(LoopView()).(currentExposure := Some(old(currentExposure).value + 1),
                                          lastfile := Some(RoundFile(fitsfile, rounds, 0)))
      ensures refused.None? && !old(LoopContinues()) ==> n == 0 && LoopView() == old(LoopView())
      ensures refused.None? && old(LoopContinues()) ==>
        && n == TakenFrom(old(maxExposures).value - old(currentExposure).value, rounds, 0)
        && 0 < n <= |rounds|
        && LoopView() == Rounds(old(LoopView()), fitsfile, seconds, rounds, n)
    {
      refused := None;
      ghost var v0 := LoopView();
      ghost var continues := LoopContinues();
      ghost var budget: nat := if continues then maxExposures.value - currentExposure.value else 0;
      n := 0;
      while currentExposure.Some? && currentExposure.value < maxExposures.value
        invariant Valid() && refused.None? && n <= budget <= |rounds|
        invariant n == 0 ==> LoopView() == v0
        invariant n > 0 ==> continues && LoopView() == Rounds(v0, fitsfile, seconds, rounds, n)
        invariant n > 0 ==> !ProcessIsRunning()
        invariant TakenFrom(budget, rounds, n) == TakenFrom(budget, rounds, 0)
        decreases budget - n
      {
        assert n < budget;
        refused := ExposeRound(fitsfile, seconds, rounds, n);
        if refused.Some? {
          // only the first start can meet a running child
          assert n == 0;
          return;
        }
        if process.value.returncode.value != 0 {
          TakenFromStop(budget, rounds, n);
          n := n + 1;
          return;
        }
        TakenFromStep(budget, rounds, n);
        n := n + 1;
      }
      TakenFromDone(budget, rounds, n);
    }

    /** `ExposeLoop(nexposures, fitsfile, seconds)`: refuses while a child
        or a loop is running; otherwise sets the counters to 0 of
        `nexposures` and starts the loop's thread, whose run is
        `DoExposeLoop`. */
    method ExposeLoop(nexposures: int) returns (refused: Option<Refusal>)
      modifies this`currentExposure, this`maxExposures, this`loopAlive
      ensures old(ProcessIsRunning()) ==> refused == Some(ProcessRunning)
      ensures !old(ProcessIsRunning()) && old(loopAlive) ==> refused == Some(LoopRunning)
      ensures refused.Some? ==>
        currentExposure == old(currentExposure) && maxExposures == old(maxExposures) && loopAlive == old(loopAlive)
      ensures refused.None? <==> !old(ProcessIsRunning()) && !old(loopAlive)
      ensures refused.None? ==> currentExposure == Some(0) && maxExposures == Some(nexposures) && loopAlive && Valid()
    {
      if ProcessIsRunning() {
        return Some(ProcessRunning);
      }
      if loopAlive {
        return Some(LoopRunning);
      }
      currentExposure := Some(0);
      maxExposures := Some(nexposures);
      loopAlive := true;
      return None;
    }

    /** `endexposureloop()`: the limit becomes the current count, so the
        loop's guard fails at its next test. */
    method EndExposureLoop()
      requires Valid()
      modifies this`maxExposures
      ensures maxExposures == currentExposure && Valid() && !LoopContinues()
    {
      maxExposures := currentExposure;
    }

    /** `abort(kill)`: always clears the exposure count; when a child is
        still running it is killed or terminated (the signal is returned;
        the note written to the log is left out). */
    method Abort(kill: bool) returns (signal: Option<Signal>)
      modifies this`currentExposure
      ensures currentExposure.None? && !LoopContinues()
      ensures signal.Some? <==> ProcessIsRunning()
      ensures signal.Some? ==> signal.value == (if kill then Kill else Terminate)
    {
      currentExposure := None;
      if GetState() == Running {
        signal := Some(if kill then Kill else Terminate);
      } else {
        signal := None;
      }
    }

    /** The candidate files of `readconfig`, in their order. */
    function ConfigFiles(): seq<string>
    {
      [lastSettingsFile, defaultConfigFile, outputConfig]
    }

    /** The sort keys of the candidate files, in their order. */
    function ConfigKeys(mtime: string -> Option<real>): (keys: seq<real>)
      ensures |keys| == |ConfigFiles()|
      ensures forall j :: 0 <= j < |keys| ==> keys[j] == ConfigKey(mtime, ConfigFiles()[j])
    {
      var files := ConfigFiles();
      [ConfigKey(mtime, files[0]), ConfigKey(mtime, files[1]), ConfigKey(mtime, files[2])]
    }

    /** The file `readconfig` reads: the first of the sorted list. */
    function NewestConfig(mtime: string -> Option<real>): string
    {
      ConfigFiles()[NewestIndex(ConfigKeys(mtime))]
    }

    /** The file read is a candidate with the latest modification time (a
        missing file counting as 0), and every candidate before it in the
        list is strictly older: the sort is stable, so ties go to the
        earlier file. */
    lemma NewestConfigIsNewest(mtime: string -> Option<real>)
      ensures exists i ::
        && 0 <= i < |ConfigFiles()| && NewestConfig(mtime) == ConfigFiles()[i]
        && (forall j :: 0 <= j < |ConfigFiles()| ==> ConfigKey(mtime, ConfigFiles()[j]) <= ConfigKey(mtime, ConfigFiles()[i]))
        && (forall j :: 0 <= j < i ==> ConfigKey(mtime, ConfigFiles()[j]) < ConfigKey(mtime, ConfigFiles()[i]))
    {
      var i := NewestIndex(ConfigKeys(mtime));
      assert NewestConfig(mtime) == ConfigFiles()[i];
    }

    /** `readconfig()`: the contents of the newest configuration file, or
        `None` when it cannot be found. */
    function ReadConfig(mtime: string -> Option<real>, contents: string -> Option<string>): Option<string>
    {
      contents(NewestConfig(mtime))
    }
  }
}
