// build-info.py: the build counter kept in <path>/buildinfo.num, incremented on every run and
// written into the C header <path>/buildinfo.h. The date and time text the script formats from
// the clock is the parameter stamp.

module BuildInfo {
  import opened Common
  import opened PyText
  import opened PyFiles

  const OUT_FILE_NAME: string := "buildinfo.h"
  const BUILD_FILE_NAME: string := "buildinfo.num"
  const BANNER: string := "/* This file is auto-generated! Do not edit! */\n"

  function UsageLine(argv0: string): string
  {
    "Usage " + argv0 + " <path>"
  }

  function MissingWarning(path: string): string
  {
    "Warning! The file " + path + " does not exist. The current build number will be set to 0!\n"
  }

  function NumberLine(n: int): string
  {
    "static const char * buildNum = \"Build number: " + IntStr(n) + "\\n\";\n"
  }

  function DateLine(stamp: string): string
  {
    "static const char * buildDateTime = \"Build time and date: " + stamp + "\\n\";\n"
  }

  /** the text of buildinfo.h for build number n (build-info.py:44-51) */
  function CounterHeader(n: int, stamp: string): string
  {
    BANNER + NumberLine(n) + DateLine(stamp)
  }

  /** The build number the script starts from: -1 without a counter file, else its contents parsed. */
  function StartNumber(files: map<string, string>, num: string): Option<int>
  {
    if num !in files then Some(-1) else PyInt(files[num])
  }

  /** The files once buildinfo.h is written and before the counter file is rewritten (build-info.py:41-52). */
  function HeaderWritten(files: map<string, string>, dir: string, stamp: string, start: int): map<string, string>
  {
    var num := Join(dir, BUILD_FILE_NAME);
    var f := if num in files then files else files[num := IntStr(-1)];
    f[Join(dir, OUT_FILE_NAME) := CounterHeader(start + 1, stamp)]
  }

  /** A run of build-info.py with command line argv over the files, as the script ends it. */
  function CounterScript(files: map<string, string>, argv: seq<string>, stamp: string): Run
    requires |argv| >= 1
  {
    if |argv| < 2 then Run(Exited(1), files, [UsageLine(argv[0])])
    else
      var num := Join(argv[1], BUILD_FILE_NAME);
      var warned := if num in files then [] else [MissingWarning(num)];
      match StartNumber(files, num)
      case None => Run(Raised, files, warned)
      case Some(n) => Run(Finished, HeaderWritten(files, argv[1], stamp, n)[num := IntStr(n + 1)], warned)
  }

  /**
   * The counter read (build-info.py:27-38): -1 when the file is missing, which is then created
   * holding "-1"; otherwise the file's contents parsed, None when int() raises.
   */
  method ReadCounter(disk: Disk, numPath: string) returns (start: Option<int>)
    modifies disk
    ensures start == StartNumber(old(disk.files), numPath)
    ensures disk.files == if numPath in old(disk.files) then old(disk.files)
                          else old(disk.files)[numPath := IntStr(-1)]
  {
    if !disk.IsFile(numPath) {
      disk.Create(numPath);
      disk.Write(numPath, IntStr(-1));
      assert "" + IntStr(-1) == IntStr(-1);
      return Some(-1);
    }
    var text := disk.Read(numPath);
    start := PyInt(text);
  }

  /** buildinfo.h emptied and written for build number n (build-info.py:41-52) */
  method WriteHeader(disk: Disk, outPath: string, n: int, stamp: string)
    modifies disk
    ensures disk.files == old(disk.files)[outPath := CounterHeader(n, stamp)]
  {
    disk.Create(outPath);
    disk.Write(outPath, BANNER);
    disk.Write(outPath, NumberLine(n));
    disk.Write(outPath, DateLine(stamp));
    assert "" + BANNER == BANNER;
  }

  /** the counter file emptied and written with n (build-info.py:54-56) */
  method WriteCounter(disk: Disk, numPath: string, n: int)
    modifies disk
    ensures disk.files == old(disk.files)[numPath := IntStr(n)]
  {
    disk.Create(numPath);
    disk.Write(numPath, IntStr(n));
    assert "" + IntStr(n) == IntStr(n);
  }

  /**
   * build-info.py (build-info.py:17-56), run with command line argv on the disk: the outcome,
   * the files and the printed lines are those of CounterScript; midFiles are the files between
   * the writing of the header and the rewriting of the counter.
   */
  method BuildInfoScript(disk: Disk, argv: seq<string>, stamp: string)
    returns (outcome: Outcome, stdout: seq<string>, ghost midFiles: map<string, string>)
    requires |argv| >= 1
    modifies disk
    ensures Run(outcome, disk.files, stdout) == CounterScript(old(disk.files), argv, stamp)
    ensures outcome == Finished ==>
              midFiles == HeaderWritten(old(disk.files), argv[1], stamp,
                                        StartNumber(old(disk.files), Join(argv[1], BUILD_FILE_NAME)).value)
  {
    midFiles := disk.files;
    if |argv| < 2 {
      return Exited(1), [UsageLine(argv[0])], midFiles;
    }
    var outPath := Join(argv[1], OUT_FILE_NAME);
    var numPath := Join(argv[1], BUILD_FILE_NAME);
    stdout := [];
    if !disk.IsFile(numPath) {
      stdout := stdout + [MissingWarning(numPath)];
    }
    var start := ReadCounter(disk, numPath);
    if start.None? {
      return Raised, stdout, midFiles;
    }
    var current := start.value + 1;
    WriteHeader(disk, outPath, current, stamp);
    midFiles := disk.files;
    WriteCounter(disk, numPath, current);
    outcome := Finished;
  }

  /** Without a path argument the script prints its usage and exits with status 1, touching no file. */
  lemma UsageTouchesNothing(files: map<string, string>, argv: seq<string>, stamp: string)
    requires |argv| == 1
    ensures CounterScript(files, argv, stamp) == Run(Exited(1), files, ["Usage " + argv[0] + " <path>"])
  {
  }

  /**
   * A first run, without a counter file, warns, yields build 0 in the header, and leaves a
   * counter file that reads back as 0.
   */
  lemma FirstRunYieldsZero(files: map<string, string>, argv: seq<string>, stamp: string)
    requires |argv| >= 2 && Join(argv[1], BUILD_FILE_NAME) !in files
    ensures var r := CounterScript(files, argv, stamp);
            r.outcome == Finished && r.stdout == [MissingWarning(Join(argv[1], BUILD_FILE_NAME))] &&
            r.files[Join(argv[1], OUT_FILE_NAME)] == CounterHeader(0, stamp) &&
            PyInt(r.files[Join(argv[1], BUILD_FILE_NAME)]) == Some(0)
  {
    JoinDiffers(argv[1], OUT_FILE_NAME, BUILD_FILE_NAME);
    PyIntOfStr(0);
  }

  /**
   * With a counter that parses as n, the header and the counter file both carry n + 1, the counter
   * reading back as n + 1, and no other file changes.
   */
  lemma NextBuildNumber(files: map<string, string>, argv: seq<string>, stamp: string, n: int)
    requires |argv| >= 2 && Join(argv[1], BUILD_FILE_NAME) in files
    requires PyInt(files[Join(argv[1], BUILD_FILE_NAME)]) == Some(n)
    ensures var r := CounterScript(files, argv, stamp);
            var num, out := Join(argv[1], BUILD_FILE_NAME), Join(argv[1], OUT_FILE_NAME);
            r.outcome == Finished && r.stdout == [] &&
            r.files[out] == CounterHeader(n + 1, stamp) && PyInt(r.files[num]) == Some(n + 1) &&
            r.files.Keys == files.Keys + {out} &&
            forall p :: p in files && p != num && p != out ==> r.files[p] == files[p]
  {
    var num, out := Join(argv[1], BUILD_FILE_NAME), Join(argv[1], OUT_FILE_NAME);
    JoinDiffers(argv[1], OUT_FILE_NAME, BUILD_FILE_NAME);
    var mid := files[out := CounterHeader(n + 1, stamp)];
    assert HeaderWritten(files, argv[1], stamp, n) == mid;
    var after := mid[num := IntStr(n + 1)];
    assert CounterScript(files, argv, stamp) == Run(Finished, after, []);
    assert after[out] == CounterHeader(n + 1, stamp);
    PyIntOfStr(n + 1);
  }

  /** A counter that is not an integer raises before any file is written. */
  lemma MalformedCounterRaises(files: map<string, string>, argv: seq<string>, stamp: string)
    requires |argv| >= 2 && Join(argv[1], BUILD_FILE_NAME) in files
    requires PyInt(files[Join(argv[1], BUILD_FILE_NAME)]) == None
    ensures CounterScript(files, argv, stamp) == Run(Raised, files, [])
  {
  }

  /**
   * The header is written before the counter: a run stopped between the two leaves a header
   * announcing n + 1 beside a counter that still reads n.
   */
  lemma HeaderAheadOfCounter(files: map<string, string>, dir: string, stamp: string, n: int)
    requires StartNumber(files, Join(dir, BUILD_FILE_NAME)) == Some(n)
    ensures var mid := HeaderWritten(files, dir, stamp, n);
            mid[Join(dir, OUT_FILE_NAME)] == CounterHeader(n + 1, stamp) &&
            PyInt(mid[Join(dir, BUILD_FILE_NAME)]) == Some(n)
  {
    JoinDiffers(dir, OUT_FILE_NAME, BUILD_FILE_NAME);
    if Join(dir, BUILD_FILE_NAME) !in files {
      PyIntOfStr(-1);
    }
  }

  /** Two runs in a row, whatever the starting state that lets the first finish, advance the counter by two. */
  lemma TwoRunsAddTwo(files: map<string, string>, argv: seq<string>, s1: string, s2: string, n: int)
    requires |argv| >= 2 && StartNumber(files, Join(argv[1], BUILD_FILE_NAME)) == Some(n)
    ensures var r1 := CounterScript(files, argv, s1);
            var r2 := CounterScript(r1.files, argv, s2);
            r2.outcome == Finished && r2.files[Join(argv[1], OUT_FILE_NAME)] == CounterHeader(n + 2, s2) &&
            PyInt(r2.files[Join(argv[1], BUILD_FILE_NAME)]) == Some(n + 2)
  {
    var num := Join(argv[1], BUILD_FILE_NAME);
    JoinDiffers(argv[1], OUT_FILE_NAME, BUILD_FILE_NAME);
    PyIntOfStr(n + 1);
    var r1 := CounterScript(files, argv, s1);
    assert r1.files == HeaderWritten(files, argv[1], s1, n)[num := IntStr(n + 1)];
    assert num in r1.files && PyInt(r1.files[num]) == Some(n + 1);
    NextBuildNumber(r1.files, argv, s2, n + 1);
  }
}
