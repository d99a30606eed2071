// build-info-new.py: the build number kept in the first line of <path>/buildinfo.h itself, as
// the JSON object {"BUILD" : n} inside a C comment, incremented on every run and the header
// rewritten. The date and time text the script formats from the clock is the parameter stamp;
// str() of a float build number plus 1 is the parameter floatNext.

module BuildInfoNew {
  import opened Common
  import opened PyText
  import opened PyFiles
  import opened PyJson

  const BUILDINFO_FILE_N: string := "buildinfo.h"
  const BANNER: string := "/* This file is auto-generated! Do not edit! */\n"

  /** the text a missing buildinfo.h is seeded with (build-info-new.py:26) */
  const NEW_BUILD_STRING: string := "/* {\"BUILD\" : -1} */\n" + "/* This file is auto-generated! Do not edit! */\n"

  function UsageLine(argv0: string): string
  {
    "Usage " + argv0 + " <path>"
  }

  const MISSING_WARNING: string :=
    "Warning! The file buildinfo.h does not exist. The file will be created and current build number will be set to 0!\n"

  /** the first line, JSON text inside a C comment, without its line break (build-info-new.py:51-53) */
  function JsonLine(num: string): string
  {
    "/* " + BuildObject(num) + " */"
  }

  function NumberLine(num: string): string
  {
    "static const char * buildNum_s = \"Build number: " + num + "\\n\";\n"
  }

  function IntLine(num: string): string
  {
    "static int buildNum_i = " + num + ";\n"
  }

  function DateLine(stamp: string): string
  {
    "static const char * buildDateTime = \"Build time and date: " + stamp + "\\n\";\n"
  }

  /** the first two lines of buildinfo.h: the build number as JSON, then the banner (build-info-new.py:53-55) */
  function HeadLines(num: string): string
  {
    JsonLine(num) + "\n" + BANNER
  }

  /** the C declarations of buildinfo.h (build-info-new.py:56-63) */
  function BuildLines(num: string, stamp: string): string
  {
    NumberLine(num) + IntLine(num) + DateLine(stamp)
  }

  /** the text of buildinfo.h for the build number whose str() is num (build-info-new.py:53-63) */
  function NewHeader(num: string, stamp: string): string
  {
    HeadLines(num) + BuildLines(num, stamp)
  }

  /**
   * parsed_json['BUILD'] of a header text (build-info-new.py:35-44): its first line, with every
   * "/*" and then every "*/" removed, loaded as JSON and subscripted with BUILD. None when
   * splitlines()[0] raises IndexError, json.loads raises ValueError, the document is not an
   * object (TypeError) or has no BUILD member (KeyError).
   */
  function BuildField(text: string): Option<JsonValue>
  {
    match FirstLine(text)
    case None => None
    case Some(line) =>
      match Loads(Replace(Replace(line, "/*"), "*/"))
      case Some(JObject(members)) => Lookup(members, Units(BUILD))
      case _ => None
  }

  /**
   * str(current_build_num + 1) (build-info-new.py:50-51): an int or a long gives the next int,
   * a bool counts as 0 or 1, a float gives floatNext of its text; null, a string, an array or an
   * object raise TypeError (None).
   */
  function NextNumber(v: JsonValue, floatNext: string -> string): Option<string>
  {
    match v
    case JInt(i) => Some(IntStr(i + 1))
    case JBool(b) => Some(IntStr(if b then 2 else 1))
    case JFloat(t) => Some(floatNext(t))
    case _ => None
  }

  /**
   * A run of build-info-new.py with command line argv over the files. buildinfo.h is opened
   * with "w+", and so emptied, before the increment that may raise (build-info-new.py:49-50).
   */
  function NewScript(files: map<string, string>, argv: seq<string>, stamp: string, floatNext: string -> string): Run
    requires |argv| >= 1
  {
    if |argv| < 2 then Run(Exited(1), files, [UsageLine(argv[0])])
    else
      var p := Join(argv[1], BUILDINFO_FILE_N);
      if p !in files then Run(Finished, files[p := NewHeader(IntStr(0), stamp)], [MISSING_WARNING])
      else match BuildField(files[p])
        case None => Run(Raised, files, [])
        case Some(v) =>
          match NextNumber(v, floatNext)
          case None => Run(Raised, files[p := ""], [])
          case Some(num) => Run(Finished, files[p := NewHeader(num, stamp)], [])
  }

  /** The BUILD value read from buildinfo.h, or -1 after seeding a missing file (build-info-new.py:25-46). */
  method ReadHeader(disk: Disk, p: string) returns (current: Option<JsonValue>)
    modifies disk
    ensures current == (if p in old(disk.files) then BuildField(old(disk.files)[p]) else Some(JInt(-1)))
    ensures disk.files == if p in old(disk.files) then old(disk.files)
                          else old(disk.files)[p := NEW_BUILD_STRING]
  {
    if !disk.IsFile(p) {
      disk.Create(p);
      disk.Write(p, NEW_BUILD_STRING);
      assert "" + NEW_BUILD_STRING == NEW_BUILD_STRING;
      return Some(JInt(-1));
    }
    var readData := disk.Read(p);
    var first := FirstLine(readData);
    if first.None? {
      return None;
    }
    var s := first.value;
    s := Replace(s, "/*");
    s := Replace(s, "*/");
    var parsed := Loads(s);
    if !(parsed.Some? && parsed.value.JObject?) {
      return None;
    }
    current := Lookup(parsed.value.members, Units(BUILD));
  }

  /** the JSON comment line and the banner appended to the open file (build-info-new.py:51-55) */
  method WriteHeadLines(disk: Disk, p: string, num: string)
    requires p in disk.files
    modifies disk
    ensures disk.files == old(disk.files)[p := old(disk.files)[p] + HeadLines(num)]
  {
    var json := "{\"BUILD\" : " + num + "}";
    var buildString := "/* " + json + " */\n";
    CommentLine(json);
    AppendTwo(disk.files[p], buildString, BANNER);
    disk.Write(p, buildString);
    disk.Write(p, BANNER);
  }

  /** The comment line as the script builds it is the JSON line and its line break. */
  lemma CommentLine(json: string)
    ensures "/* " + json + " */\n" == "/* " + json + " */" + "\n"
  {
  }

  /** the three C declarations appended to the open file (build-info-new.py:56-63) */
  method WriteBuildLines(disk: Disk, p: string, num: string, stamp: string)
    requires p in disk.files
    modifies disk
    ensures disk.files == old(disk.files)[p := old(disk.files)[p] + BuildLines(num, stamp)]
  {
    AppendThree(disk.files[p], NumberLine(num), IntLine(num), DateLine(stamp));
    disk.Write(p, NumberLine(num));
    disk.Write(p, IntLine(num));
    disk.Write(p, DateLine(stamp));
  }

  /** the header lines written into the emptied buildinfo.h (build-info-new.py:51-64) */
  method WriteHeader(disk: Disk, p: string, num: string, stamp: string)
    requires p in disk.files && disk.files[p] == ""
    modifies disk
    ensures disk.files == old(disk.files)[p := NewHeader(num, stamp)]
  {
    WriteHeadLines(disk, p, num);
    EmptyThen(HeadLines(num));
    WriteBuildLines(disk, p, num, stamp);
  }

  /** build-info-new.py (build-info-new.py:17-64): the outcome, files and printed lines of NewScript */
  method BuildInfoNewScript(disk: Disk, argv: seq<string>, stamp: string, floatNext: string -> string)
    returns (outcome: Outcome, stdout: seq<string>)
    requires |argv| >= 1
    modifies disk
    ensures Run(outcome, disk.files, stdout) == NewScript(old(disk.files), argv, stamp, floatNext)
  {
    if |argv| < 2 {
      return Exited(1), [UsageLine(argv[0])];
    }
    var p := Join(argv[1], BUILDINFO_FILE_N);
    ghost var files0 := disk.files;
    stdout := [];
    if !disk.IsFile(p) {
      stdout := stdout + [MISSING_WARNING];
    }
    var current := ReadHeader(disk, p);
    NewScriptSteps(files0, argv, stamp, floatNext, current);
    if current.None? {
      return Raised, stdout;
    }
    var next := Rewrite(disk, p, current.value, stamp, floatNext);
    outcome := if next.None? then Raised else Finished;
  }

  /**
   * buildinfo.h opened with "w+", then the increment, then the header written
   * (build-info-new.py:49-64): None with the file left empty when the increment raises.
   */
  method Rewrite(disk: Disk, p: string, current: JsonValue, stamp: string, floatNext: string -> string)
    returns (next: Option<string>)
    modifies disk
    ensures next == NextNumber(current, floatNext)
    ensures disk.files == old(disk.files)[p := if next.None? then "" else NewHeader(next.value, stamp)]
  {
    disk.Create(p);
    next := NextNumber(current, floatNext);
    if next.Some? {
      WriteHeader(disk, p, next.value, stamp);
      assert disk.files == old(disk.files)[p := NewHeader(next.value, stamp)];
    }
  }

  /** NewScript once the header is read: what each outcome of the read and the increment leads to. */
  lemma NewScriptSteps(files: map<string, string>, argv: seq<string>, stamp: string, floatNext: string -> string,
                       current: Option<JsonValue>)
    requires |argv| >= 2
    requires var p := Join(argv[1], BUILDINFO_FILE_N);
             current == (if p in files then BuildField(files[p]) else Some(JInt(-1)))
    ensures var p := Join(argv[1], BUILDINFO_FILE_N);
            var run := NewScript(files, argv, stamp, floatNext);
            var warned := if p in files then [] else [MISSING_WARNING];
            && (current.None? ==> run == Run(Raised, files, []))
            && (current.Some? && NextNumber(current.value, floatNext).None? ==> run == Run(Raised, files[p := ""], []))
            && (current.Some? && NextNumber(current.value, floatNext).Some? ==>
                  run == Run(Finished, files[p := NewHeader(NextNumber(current.value, floatNext).value, stamp)], warned))
  {
    var p := Join(argv[1], BUILDINFO_FILE_N);
    if p !in files {
      assert NextNumber(JInt(-1), floatNext) == Some(IntStr(0));
    }
  }

  /** a character that is neither a comment marker's nor a line break */
  predicate PlainChar(c: char)
  {
    c != '/' && c != '*' && !IsLineBreak(c)
  }

  predicate Plain(s: string)
  {
    forall i :: 0 <= i < |s| ==> PlainChar(s[i])
  }

  lemma PlainConcat(a: string, b: string)
    requires Plain(a) && Plain(b)
    ensures Plain(a + b)
  {
    assert forall i :: |a| <= i < |a + b| ==> (a + b)[i] == b[i - |a|];
  }

  /** str() of an int holds no slash, no star and no line break. */
  lemma IntStrPlain(n: int)
    ensures Plain(IntStr(n))
  {
    var d := IntStr(n);
    if n < 0 {
      assert forall i :: 1 <= i < |d| ==> d[i] == NatStr(-n)[i - 1];
    }
  }

  /** The JSON text of a plain numeral holds no slash, no star and no line break. */
  lemma JsonTextPlain(num: string)
    requires Plain(num)
    ensures Plain(BuildObject(num))
  {
    PlainConcat("{\"BUILD\" : ", num);
    PlainConcat("{\"BUILD\" : " + num, "}");
  }

  /** The first line of a header opening with the JSON line of a plain numeral is that line. */
  lemma JsonLineFirst(num: string, rest: string)
    requires Plain(num)
    ensures FirstLine(JsonLine(num) + "\n" + rest) == Some(JsonLine(num))
  {
    var t := BuildObject(num);
    JsonTextPlain(num);
    assert JsonLine(num) == "/* " + t + " */";
    assert forall i :: 0 <= i < |JsonLine(num)| ==> !IsLineBreak(JsonLine(num)[i]) by {
      forall i | 0 <= i < |JsonLine(num)|
        ensures !IsLineBreak(JsonLine(num)[i])
      {
        if 3 <= i < 3 + |t| {
          assert JsonLine(num)[i] == t[i - 3];
        }
      }
    }
    FirstLineOf(JsonLine(num), rest);
  }

  /** The comment markers removed from the first line leave the JSON text with a space either side. */
  lemma MarkersRemoved(num: string)
    requires Plain(num)
    ensures Replace(Replace(JsonLine(num), "/*"), "*/") == " " + BuildObject(num) + " "
  {
    var t := BuildObject(num);
    JsonTextPlain(num);
    var b := " " + t + " ";
    PlainConcat(" ", t);
    PlainConcat(" " + t, " ");
    var a := b + "*";
    assert forall i :: 0 <= i < |a| ==> a[i] != '/' by {
      forall i | 0 <= i < |a|
        ensures a[i] != '/'
      {
        if i < |b| {
          assert a[i] == b[i];
        }
      }
    }
    CommentSplit(t);
    ReplaceFront(a + "/", "/*");
    ReplaceKeeps(a, "/", "/*");
    assert Replace("/", "/*") == "/";
    assert a + "/" == b + "*/";
    ReplaceKeeps(b, "*/", "*/");
    ReplaceFront("", "*/");
    assert "*/" + "" == "*/";
  }

  /** The comment around t is the opening marker, then t padded and the closing marker. */
  lemma CommentSplit(t: string)
    ensures "/* " + t + " */" == "/*" + (" " + t + " " + "*" + "/")
  {
  }

  /** A header whose first line is the JSON line of n has the BUILD value n. */
  lemma JsonLineReads(n: int, rest: string)
    ensures BuildField(JsonLine(IntStr(n)) + "\n" + rest) == Some(JInt(n))
  {
    IntStrPlain(n);
    JsonLineFirst(IntStr(n), rest);
    MarkersRemoved(IntStr(n));
    LoadsBuildObject(n);
    LookupLastWins([], Units(BUILD), JInt(n));
    assert [] + [Member(Units(BUILD), JInt(n))] == [Member(Units(BUILD), JInt(n))];
  }

  /** Round trip: the header written for build n reads back as the int n. */
  lemma HeaderRoundTrip(n: int, stamp: string)
    ensures BuildField(NewHeader(IntStr(n), stamp)) == Some(JInt(n))
  {
    AppendTwo(JsonLine(IntStr(n)) + "\n", BANNER, BuildLines(IntStr(n), stamp));
    JsonLineReads(n, BANNER + BuildLines(IntStr(n), stamp));
  }

  /** The seed text of a missing file reads as -1, the number the script then starts from. */
  lemma SeedReadsMinusOne()
    ensures BuildField(NEW_BUILD_STRING) == Some(JInt(-1))
  {
    assert DigitChar(1) == '1';
    assert IntStr(-1) == "-1";
    assert JsonLine(IntStr(-1)) == "/* {\"BUILD\" : -1} */";
    assert NEW_BUILD_STRING == JsonLine(IntStr(-1)) + "\n" + BANNER;
    JsonLineReads(-1, BANNER);
  }

  /**
   * With a header whose BUILD value is the int n, the file is rewritten, whole, for n + 1, which
   * reads back as n + 1; no other file changes.
   */
  lemma NewNextBuildNumber(files: map<string, string>, argv: seq<string>, stamp: string, floatNext: string -> string, n: int)
    requires |argv| >= 2 && Join(argv[1], BUILDINFO_FILE_N) in files
    requires BuildField(files[Join(argv[1], BUILDINFO_FILE_N)]) == Some(JInt(n))
    ensures var r := NewScript(files, argv, stamp, floatNext);
            var p := Join(argv[1], BUILDINFO_FILE_N);
            r.outcome == Finished && r.files == files[p := NewHeader(IntStr(n + 1), stamp)] &&
            BuildField(r.files[p]) == Some(JInt(n + 1))
  {
    HeaderRoundTrip(n + 1, stamp);
  }

  /** A first run creates the header for build 0, which reads back as 0, and warns. */
  lemma NewFirstRunYieldsZero(files: map<string, string>, argv: seq<string>, stamp: string, floatNext: string -> string)
    requires |argv| >= 2 && Join(argv[1], BUILDINFO_FILE_N) !in files
    ensures var r := NewScript(files, argv, stamp, floatNext);
            var p := Join(argv[1], BUILDINFO_FILE_N);
            r.outcome == Finished && r.stdout == [MISSING_WARNING] &&
            r.files == files[p := NewHeader(IntStr(0), stamp)] && BuildField(r.files[p]) == Some(JInt(0))
  {
    HeaderRoundTrip(0, stamp);
  }

  /**
   * Runs from the same directory count 0, 1, 2, ...: a run after a run that finished with the
   * int n finishes with n + 1.
   */
  lemma RunsCountUp(files: map<string, string>, argv: seq<string>, stamp: string, stamp2: string, floatNext: string -> string, n: int)
    requires |argv| >= 2
    requires NewScript(files, argv, stamp, floatNext).files[Join(argv[1], BUILDINFO_FILE_N)] == NewHeader(IntStr(n), stamp)
    ensures var f1 := NewScript(files, argv, stamp, floatNext).files;
            var r2 := NewScript(f1, argv, stamp2, floatNext);
            r2.outcome == Finished && r2.files == f1[Join(argv[1], BUILDINFO_FILE_N) := NewHeader(IntStr(n + 1), stamp2)]
  {
    var f1 := NewScript(files, argv, stamp, floatNext).files;
    HeaderRoundTrip(n, stamp);
    NewNextBuildNumber(f1, argv, stamp2, floatNext, n);
  }

  /** A header json.loads cannot read, or without a BUILD member, raises before the file is rewritten. */
  lemma MalformedHeaderRaises(files: map<string, string>, argv: seq<string>, stamp: string, floatNext: string -> string)
    requires |argv| >= 2 && Join(argv[1], BUILDINFO_FILE_N) in files
    requires BuildField(files[Join(argv[1], BUILDINFO_FILE_N)]) == None
    ensures NewScript(files, argv, stamp, floatNext) == Run(Raised, files, [])
  {
  }

  /**
   * A BUILD value that is null, a string, an array or an object raises only after "w+" has
   * emptied buildinfo.h; every later run then raises at splitlines()[0] with the file still empty.
   */
  lemma NonNumberEmptiesHeader(files: map<string, string>, argv: seq<string>, stamp: string, floatNext: string -> string)
    requires |argv| >= 2 && Join(argv[1], BUILDINFO_FILE_N) in files
    requires var v := BuildField(files[Join(argv[1], BUILDINFO_FILE_N)]);
             v.Some? && (v.value.JNull? || v.value.JStr? || v.value.JArray? || v.value.JObject?)
    ensures var p := Join(argv[1], BUILDINFO_FILE_N);
            var r := NewScript(files, argv, stamp, floatNext);
            r == Run(Raised, files[p := ""], []) &&
            NewScript(r.files, argv, stamp, floatNext) == Run(Raised, r.files, [])
  {
    var p := Join(argv[1], BUILDINFO_FILE_N);
    assert FirstLine(files[p := ""][p]) == None;
  }

  /** A bool BUILD value is a number to Python: true goes on as 2, false as 1. */
  lemma BoolBuildFinishes(files: map<string, string>, argv: seq<string>, stamp: string, floatNext: string -> string, b: bool)
    requires |argv| >= 2 && Join(argv[1], BUILDINFO_FILE_N) in files
    requires BuildField(files[Join(argv[1], BUILDINFO_FILE_N)]) == Some(JBool(b))
    ensures var p := Join(argv[1], BUILDINFO_FILE_N);
            var n := if b then 2 else 1;
            var r := NewScript(files, argv, stamp, floatNext);
            r.outcome == Finished && r.files == files[p := NewHeader(IntStr(n), stamp)] &&
            BuildField(r.files[p]) == Some(JInt(n))
  {
    HeaderRoundTrip(if b then 2 else 1, stamp);
  }

  /**
   * The file is rewritten, never appended to: two old headers with the same BUILD value give the
   * same new header.
   */
  lemma RewriteForgetsOldText(files: map<string, string>, t1: string, t2: string, argv: seq<string>, stamp: string, floatNext: string -> string)
    requires |argv| >= 2 && BuildField(t1).Some? && BuildField(t1) == BuildField(t2)
    ensures var p := Join(argv[1], BUILDINFO_FILE_N);
            NewScript(files[p := t1], argv, stamp, floatNext).files[p] == NewScript(files[p := t2], argv, stamp, floatNext).files[p]
  {
  }
}
