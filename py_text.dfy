// The pieces of Python 2 that the two build-number scripts rely on: str() and int(s, 10) of an
// integer, str.strip, str.replace, the first element of str.splitlines(), and a directory of
// text files addressed by path.

module PyText {
  import opened Common

  predicate IsDigit(c: char)
  {
    '0' <= c <= '9'
  }

  predicate AllDigits(s: string)
  {
    forall i :: 0 <= i < |s| ==> IsDigit(s[i])
  }

  function DigitChar(d: nat): (c: char)
    requires d < 10
    ensures IsDigit(c)
  {
    ('0' as int + d) as char
  }

  function DigitVal(c: char): nat
    requires IsDigit(c)
  {
    c as int - '0' as int
  }

  /** str(n) for n >= 0: the shortest decimal numeral */
  function NatStr(n: nat): (s: string)
    ensures |s| > 0 && AllDigits(s)
    ensures n > 0 ==> s[0] != '0'
    decreases n
  {
    if n < 10 then [DigitChar(n)] else NatStr(n / 10) + [DigitChar(n % 10)]
  }

  /** str(n) of a Python integer */
  function IntStr(n: int): (s: string)
    ensures |s| > 0
  {
    if n < 0 then "-" + NatStr(-n) else NatStr(n)
  }

  /** the value of a run of decimal digits, most significant first */
  function DigitsValue(s: string): nat
    requires AllDigits(s)
  {
    if s == [] then 0 else DigitsValue(s[..|s| - 1]) * 10 + DigitVal(s[|s| - 1])
  }

  /** The numeral str() writes reads back as the number. */
  lemma {:induction false} NatStrValue(n: nat)
    ensures DigitsValue(NatStr(n)) == n
    decreases n
  {
    var s := NatStr(n);
    if n < 10 {
      assert s[..|s| - 1] == [];
    } else {
      assert s[..|s| - 1] == NatStr(n / 10);
      NatStrValue(n / 10);
    }
  }

  /** Appending to the empty text written into a new file gives the text. */
  lemma EmptyThen(s: string)
    ensures "" + s == s
  {
  }

  /** Two appends in a row append their concatenation. */
  lemma AppendTwo(t: string, a: string, b: string)
    ensures t + a + b == t + (a + b)
  {
  }

  /** Three appends in a row append their concatenation. */
  lemma AppendThree(t: string, a: string, b: string, c: string)
    ensures t + a + b + c == t + (a + b + c)
  {
  }

  /** the characters str.strip() and int() skip: ASCII whitespace */
  predicate IsPyWs(c: char)
  {
    c == ' ' || c == '\t' || c == '\n' || c == '\r' || c == '\U{B}' || c == '\U{C}'
  }

  /** the whitespace of RFC 8259 */
  predicate IsJsonWs(c: char)
  {
    c == ' ' || c == '\t' || c == '\n' || c == '\r'
  }

  /** s without its leading characters of class ws */
  function LStrip(s: string, ws: char -> bool): (r: string)
    ensures |r| <= |s| && (|r| > 0 ==> !ws(r[0]))
  {
    if |s| > 0 && ws(s[0]) then LStrip(s[1..], ws) else s
  }

  /** s without its trailing characters of class ws */
  function RStrip(s: string, ws: char -> bool): (r: string)
    ensures |r| <= |s| && (|r| > 0 ==> !ws(r[|r| - 1]))
  {
    if |s| > 0 && ws(s[|s| - 1]) then RStrip(s[..|s| - 1], ws) else s
  }

  function Strip(s: string, ws: char -> bool): string
  {
    RStrip(LStrip(s, ws), ws)
  }

  /** A string with no class-ws character at either end is its own strip. */
  lemma StripBare(s: string, ws: char -> bool)
    requires |s| > 0 && !ws(s[0]) && !ws(s[|s| - 1])
    ensures Strip(s, ws) == s
  {
  }

  /**
   * int(s, 10) of Python 2: surrounding whitespace skipped, an optional sign, more whitespace
   * (PyOS_strtol skips it again after the sign), then one or more decimal digits; anything else
   * raises ValueError (None).
   */
  function PyInt(s: string): (r: Option<int>)
  {
    var t := Strip(s, IsPyWs);
    if |t| > 0 && (t[0] == '+' || t[0] == '-') then
      var u := LStrip(t[1..], IsPyWs);
      if |u| > 0 && AllDigits(u) then
        Some(if t[0] == '-' then 0 - DigitsValue(u) as int else DigitsValue(u) as int)
      else None
    else if |t| > 0 && AllDigits(t) then Some(DigitsValue(t))
    else None
  }

  /** Round trip: int(str(n), 10) == n. */
  lemma PyIntOfStr(n: int)
    ensures PyInt(IntStr(n)) == Some(n)
  {
    if n < 0 {
      NatStrValue(-n);
      PyIntOfNegDigits(NatStr(-n));
    } else {
      NatStrValue(n);
      PyIntOfDigits(NatStr(n));
    }
  }

  /** int() of a run of digits is their value. */
  lemma PyIntOfDigits(d: string)
    requires |d| > 0 && AllDigits(d)
    ensures PyInt(d) == Some(DigitsValue(d))
  {
    assert IsDigit(d[0]) && IsDigit(d[|d| - 1]);
    StripBare(d, IsPyWs);
  }

  /** int() of '-' and a run of digits is minus their value. */
  lemma PyIntOfNegDigits(d: string)
    requires |d| > 0 && AllDigits(d)
    ensures PyInt("-" + d) == Some(0 - DigitsValue(d))
  {
    MinusNumeral(d);
    PyIntOfMinus("-" + d);
  }

  /** '-' and a run of digits: no blank at either end or after the sign. */
  lemma MinusNumeral(d: string)
    requires |d| > 0 && AllDigits(d)
    ensures var s := "-" + d;
            |s| > 1 && s[0] == '-' && s[1..] == d && Strip(s, IsPyWs) == s && !IsPyWs(s[1])
  {
    var s := "-" + d;
    assert s[0] == '-' && s[1..] == d && s[|s| - 1] == d[|d| - 1];
    assert IsDigit(d[0]) && IsDigit(d[|d| - 1]);
    StripBare(s, IsPyWs);
  }

  /** int() of a stripped text of '-' and digits, with no blank after the sign. */
  lemma PyIntOfMinus(t: string)
    requires |t| > 1 && t[0] == '-' && Strip(t, IsPyWs) == t && AllDigits(t[1..]) && !IsPyWs(t[1])
    ensures PyInt(t) == Some(0 - DigitsValue(t[1..]))
  {
    assert LStrip(t[1..], IsPyWs) == t[1..];
  }

  /** Whitespace between the sign and the digits is skipped too. */
  lemma SignThenBlank()
    ensures PyInt("- 5") == Some(-5)
  {
    assert Strip("- 5", IsPyWs) == "- 5";
    assert LStrip(" 5", IsPyWs) == "5";
  }

  /** str.replace(pat, ""): every occurrence of pat removed, scanning left to right */
  function Replace(s: string, pat: string): (r: string)
    requires |pat| > 0
    decreases |s|
  {
    if |s| < |pat| then s
    else if s[..|pat|] == pat then Replace(s[|pat|..], pat)
    else [s[0]] + Replace(s[1..], pat)
  }

  /** A prefix holding no first character of pat is kept as it is. */
  lemma {:induction false} ReplaceKeeps(a: string, b: string, pat: string)
    requires |pat| > 0 && forall i :: 0 <= i < |a| ==> a[i] != pat[0]
    ensures Replace(a + b, pat) == a + Replace(b, pat)
    decreases |a|
  {
    if |a| > 0 {
      var s := a + b;
      if |s| < |pat| {
        assert Replace(b, pat) == b;
      } else {
        assert s[..|pat|] != pat by {
          assert s[..|pat|][0] == a[0];
        }
        assert s[1..] == a[1..] + b;
        ReplaceKeeps(a[1..], b, pat);
        assert a == [a[0]] + a[1..];
      }
    } else {
      assert a + b == b;
    }
  }

  /** An occurrence of pat at the front is dropped. */
  lemma ReplaceFront(b: string, pat: string)
    requires |pat| > 0
    ensures Replace(pat + b, pat) == Replace(b, pat)
  {
    assert (pat + b)[..|pat|] == pat;
    assert (pat + b)[|pat|..] == b;
  }

  predicate IsLineBreak(c: char)
  {
    c == '\n' || c == '\r'
  }

  /**
   * str.splitlines()[0] of Python 2: the text before the first line break; None (IndexError)
   * for the empty string, which has no lines.
   */
  function FirstLine(s: string): (r: Option<string>)
    ensures r.Some? <==> s != ""
  {
    if s == "" then None else Some(s[..FirstWhere(s, IsLineBreak)])
  }

  /** The first line of a text that starts with a line free of breaks, ended by "\n". */
  lemma FirstLineOf(a: string, b: string)
    requires forall i :: 0 <= i < |a| ==> !IsLineBreak(a[i])
    ensures FirstLine(a + "\n" + b) == Some(a)
  {
    var s := a + "\n" + b;
    FirstWhereIs(s, IsLineBreak, |a|);
    assert s[..|a|] == a;
  }
}

module PyFiles {
  /** How a script run ends: normally, through sys.exit with a status, or with an exception. */
  datatype Outcome = Finished | Exited(status: int) | Raised

  /** The outcome of a script run, the files it leaves and the lines it prints. */
  datatype Run = Run(outcome: Outcome, files: map<string, string>, stdout: seq<string>)

  /** os.path.join(dir, name) for a relative name on POSIX */
  function Join(dir: string, name: string): string
  {
    if dir == "" || dir[|dir| - 1] == '/' then dir + name else dir + "/" + name
  }

  /** Two different names in the same directory are two different paths. */
  lemma JoinDiffers(dir: string, a: string, b: string)
    requires a != b
    ensures Join(dir, a) != Join(dir, b)
  {
    var p := if dir == "" || dir[|dir| - 1] == '/' then dir else dir + "/";
    assert Join(dir, a) == p + a && Join(dir, b) == p + b;
    assert (p + a)[|p|..] == a && (p + b)[|p|..] == b;
  }

  /** The regular files of the build directory, by path. */
  class Disk {
    var files: map<string, string>

    constructor(files0: map<string, string>)
      ensures files == files0
    {
      files := files0;
    }

    /** Path.is_file() */
    predicate IsFile(p: string)
      reads this
    {
      p in files
    }

    /** open(p, "w+"): the file created, or emptied when it exists */
    method Create(p: string)
      modifies this
      ensures files == old(files)[p := ""]
    {
      files := files[p := ""];
    }

    /** f.write(s) on a file opened for writing: s appended */
    method Write(p: string, s: string)
      requires p in files
      modifies this
      ensures files == old(files)[p := old(files)[p] + s]
    {
      files := files[p := files[p] + s];
    }

    /** f.read() of the whole file */
    method Read(p: string) returns (s: string)
      requires p in files
      ensures s == files[p]
    {
      s := files[p];
    }
  }
}
