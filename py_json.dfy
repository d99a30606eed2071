// json.loads of Python 2.7 (its C scanner, strict mode) on the text the build script hands it:
// JSON whitespace around the document, then one value: an object, an array, a string, a number,
// true, false, null, or Python's NaN, Infinity and -Infinity; anything left over raises
// ValueError (None here). An object keeps its members in order; dict() of them lets a later
// duplicate key win.

module PyJson {
  import opened Common
  import opened PyText

  /** A decoded JSON value. Floats keep the text float() is given; strings their code units. */
  datatype JsonValue =
    | JNull
    | JBool(b: bool)
    | JInt(i: int)
    | JFloat(text: string)
    | JStr(units: seq<int>)
    | JArray(items: seq<JsonValue>)
    | JObject(members: seq<Member>)

  datatype Member = Member(key: seq<int>, value: JsonValue)

  // What each scanner returns: nothing when json.loads raises, otherwise what it read and the
  // index just past it.
  datatype UnitScan = NoUnit | UnitScan(unit: int, end: nat)
  datatype TextScan = NoText | TextScan(units: seq<int>, end: nat)
  datatype ValueScan = NoValue | ValueScan(value: JsonValue, end: nat)
  datatype MemberScan = NoMember | MemberScan(member: Member, end: nat)
  datatype MembersScan = NoMembers | MembersScan(members: seq<Member>, end: nat)
  datatype ItemsScan = NoItems | ItemsScan(items: seq<JsonValue>, end: nat)

  /** a text as the code units a string scanner compares */
  function Units(t: string): (u: seq<int>)
    ensures |u| == |t| && forall k :: 0 <= k < |t| ==> u[k] == t[k] as int
  {
    seq(|t|, k requires 0 <= k < |t| => t[k] as int)
  }

  /** the index of the first character from i on that is not JSON whitespace */
  function SkipWs(s: string, i: nat): (j: nat)
    requires i <= |s|
    ensures i <= j <= |s| && (j < |s| ==> !IsJsonWs(s[j]))
    decreases |s| - i
  {
    if i < |s| && IsJsonWs(s[i]) then SkipWs(s, i + 1) else i
  }

  /** the literal lit stands at index i */
  predicate At(s: string, i: nat, lit: string)
  {
    i + |lit| <= |s| && s[i..i + |lit|] == lit
  }

  /** the index just past the run of decimal digits from i on */
  function DigitsEnd(s: string, i: nat): (j: nat)
    requires i <= |s|
    ensures i <= j <= |s| && (j < |s| ==> !IsDigit(s[j]))
    decreases |s| - i
  {
    if i < |s| && IsDigit(s[i]) then DigitsEnd(s, i + 1) else i
  }

  /** Everything a digit run covers is a digit. */
  lemma {:induction false} DigitsRun(s: string, i: nat)
    requires i <= |s|
    ensures AllDigits(s[i..DigitsEnd(s, i)])
    decreases |s| - i
  {
    if i < |s| && IsDigit(s[i]) {
      DigitsRun(s, i + 1);
      assert s[i..DigitsEnd(s, i)] == [s[i]] + s[i + 1..DigitsEnd(s, i + 1)];
    }
  }

  predicate IsHexChar(c: char)
  {
    IsDigit(c) || 'a' <= c <= 'f' || 'A' <= c <= 'F'
  }

  function HexVal(c: char): (v: nat)
    requires IsHexChar(c)
    ensures v < 16
  {
    if IsDigit(c) then c as int - '0' as int
    else if 'a' <= c <= 'f' then c as int - 'a' as int + 10
    else c as int - 'A' as int + 10
  }

  /** the character after a backslash that stands for one code unit, and that unit */
  predicate IsSimpleEscape(c: char)
  {
    c == '"' || c == '\\' || c == '/' || c == 'b' || c == 'f' || c == 'n' || c == 'r' || c == 't'
  }

  function EscapedUnit(c: char): int
    requires IsSimpleEscape(c)
  {
    match c
    case 'b' => 8
    case 'f' => 12
    case 'n' => 10
    case 'r' => 13
    case 't' => 9
    case _ => c as int
  }

  /**
   * The code unit of the character or escape at i inside a string, and the index past it. A
   * control character, an unknown escape or a \u without four hex digits raises.
   */
  function UnitAt(s: string, i: nat): (r: UnitScan)
    requires i < |s|
    ensures r.UnitScan? ==> i < r.end <= |s|
  {
    if s[i] == '\\' then
      if i + 1 >= |s| then NoUnit
      else if s[i + 1] == 'u' then
        if i + 6 <= |s| && IsHexChar(s[i + 2]) && IsHexChar(s[i + 3]) && IsHexChar(s[i + 4]) && IsHexChar(s[i + 5]) then
          UnitScan(((HexVal(s[i + 2]) * 16 + HexVal(s[i + 3])) * 16 + HexVal(s[i + 4])) * 16 + HexVal(s[i + 5]), i + 6)
        else NoUnit
      else if IsSimpleEscape(s[i + 1]) then UnitScan(EscapedUnit(s[i + 1]), i + 2)
      else NoUnit
    else if s[i] as int < 0x20 then NoUnit
    else UnitScan(s[i] as int, i + 1)
  }

  /**
   * scanstring from index i, just past the opening quote: the decoded code units and the index
   * past the closing quote. A string the text ends in raises.
   */
  function StringBody(s: string, i: nat): (r: TextScan)
    requires i <= |s|
    ensures r.TextScan? ==> i < r.end <= |s|
    decreases |s| - i
  {
    if i >= |s| then NoText
    else if s[i] == '"' then TextScan([], i + 1)
    else
      match UnitAt(s, i)
      case NoUnit => NoText
      case UnitScan(u, j) =>
        match StringBody(s, j)
        case NoText => NoText
        case TextScan(rest, end) => TextScan([u] + rest, end)
  }

  /** the end of the integer part that starts with the digit at k: 0 alone, or a digit run */
  function IntEnd(s: string, k: nat): (j: nat)
    requires k < |s| && IsDigit(s[k])
    ensures k < j <= |s| && AllDigits(s[k..j])
  {
    DigitsRun(s, k + 1);
    assert s[k..DigitsEnd(s, k + 1)] == [s[k]] + s[k + 1..DigitsEnd(s, k + 1)];
    if s[k] == '0' then k + 1 else DigitsEnd(s, k + 1)
  }

  /** the end of a fraction at j: taken only when a digit follows the point */
  function FracEnd(s: string, j: nat): (f: nat)
    requires j <= |s|
    ensures j <= f <= |s| && (f == j <== j >= |s| || s[j] != '.')
  {
    if j + 1 < |s| && s[j] == '.' && IsDigit(s[j + 1]) then DigitsEnd(s, j + 2) else j
  }

  /** the end of an exponent at j: taken only when a digit follows the e and its sign */
  function ExpEnd(s: string, j: nat): (x: nat)
    requires j <= |s|
    ensures j <= x <= |s| && (x == j <== j >= |s| || (s[j] != 'e' && s[j] != 'E'))
  {
    if j < |s| && (s[j] == 'e' || s[j] == 'E') then
      var p := if j + 1 < |s| && (s[j + 1] == '+' || s[j + 1] == '-') then j + 2 else j + 1;
      if p < |s| && IsDigit(s[p]) then DigitsEnd(s, p) else j
    else j
  }

  /**
   * _match_number: an optional minus, then 0 or a digit run without a leading 0, then a
   * fraction and an exponent. Without fraction and exponent it is an int, otherwise a float.
   */
  function ParseNumber(s: string, i: nat): (r: ValueScan)
    requires i <= |s|
    ensures r.ValueScan? ==> i < r.end <= |s|
  {
    var neg := i < |s| && s[i] == '-';
    var k := if neg then i + 1 else i;
    if k >= |s| || !IsDigit(s[k]) then NoValue
    else
      var intEnd := IntEnd(s, k);
      var expEnd := ExpEnd(s, FracEnd(s, intEnd));
      if expEnd == intEnd then
        var mag := DigitsValue(s[k..intEnd]) as int;
        ValueScan(JInt(if neg then 0 - mag else mag), intEnd)
      else ValueScan(JFloat(s[i..expEnd]), expEnd)
  }

  /** scan_once at index i for a value that is not an object or an array */
  function ParseScalar(s: string, i: nat): (r: ValueScan)
    requires i < |s|
    ensures r.ValueScan? ==> i < r.end <= |s|
  {
    if s[i] == '"' then
      match StringBody(s, i + 1)
      case NoText => NoValue
      case TextScan(units, end) => ValueScan(JStr(units), end)
    else if s[i] == 'n' then if At(s, i, "null") then ValueScan(JNull, i + 4) else NoValue
    else if s[i] == 't' then if At(s, i, "true") then ValueScan(JBool(true), i + 4) else NoValue
    else if s[i] == 'f' then if At(s, i, "false") then ValueScan(JBool(false), i + 5) else NoValue
    else if s[i] == 'N' then if At(s, i, "NaN") then ValueScan(JFloat("NaN"), i + 3) else NoValue
    else if s[i] == 'I' then if At(s, i, "Infinity") then ValueScan(JFloat("Infinity"), i + 8) else NoValue
    else if At(s, i, "-Infinity") then ValueScan(JFloat("-Infinity"), i + 9)
    else ParseNumber(s, i)
  }

  /** scan_once at index i: the value that starts there and the index past it */
  function ParseValue(s: string, i: nat): (r: ValueScan)
    requires i <= |s|
    ensures r.ValueScan? ==> i < r.end <= |s|
    decreases |s| - i, 2
  {
    if i >= |s| then NoValue
    else if s[i] == '{' then ParseObject(s, i)
    else if s[i] == '[' then ParseArray(s, i)
    else ParseScalar(s, i)
  }

  /** an object from its opening brace at i: no members, or the members and a closing brace */
  function ParseObject(s: string, i: nat): (r: ValueScan)
    requires i < |s|
    ensures r.ValueScan? ==> i < r.end <= |s|
    decreases |s| - i, 1
  {
    var j := SkipWs(s, i + 1);
    if j < |s| && s[j] == '}' then ValueScan(JObject([]), j + 1)
    else if j < |s| && s[j] == '"' then
      match ParseMembers(s, j + 1)
      case NoMembers => NoValue
      case MembersScan(members, end) => ValueScan(JObject(members), end)
    else NoValue
  }

  /** an array from its opening bracket at i: no items, or the items and a closing bracket */
  function ParseArray(s: string, i: nat): (r: ValueScan)
    requires i < |s|
    ensures r.ValueScan? ==> i < r.end <= |s|
    decreases |s| - i, 1
  {
    var j := SkipWs(s, i + 1);
    if j < |s| && s[j] == ']' then ValueScan(JArray([]), j + 1)
    else
      match ParseItems(s, j)
      case NoItems => NoValue
      case ItemsScan(items, end) => ValueScan(JArray(items), end)
  }

  /** One member from index i, just past the opening quote of its key: key, colon, value. */
  function ParseMember(s: string, i: nat): (r: MemberScan)
    requires i <= |s|
    ensures r.MemberScan? ==> i < r.end <= |s|
    decreases |s| - i, 0
  {
    match StringBody(s, i)
    case NoText => NoMember
    case TextScan(key, k) =>
      var c := SkipWs(s, k);
      if c >= |s| || s[c] != ':' then NoMember
      else
        match ParseValue(s, SkipWs(s, c + 1))
        case NoValue => NoMember
        case ValueScan(v, end) => MemberScan(Member(key, v), end)
  }

  /**
   * The members of an object from index i, just past the opening quote of a key, up to and past
   * the closing brace: a member, then a closing brace or a comma and the next key.
   */
  function ParseMembers(s: string, i: nat): (r: MembersScan)
    requires i <= |s|
    ensures r.MembersScan? ==> i < r.end <= |s|
    decreases |s| - i, 1
  {
    match ParseMember(s, i)
    case NoMember => NoMembers
    case MemberScan(m, e) =>
      var d := SkipWs(s, e);
      if d < |s| && s[d] == '}' then MembersScan([m], d + 1)
      else if d < |s| && s[d] == ',' then
        var q := SkipWs(s, d + 1);
        if q < |s| && s[q] == '"' then
          match ParseMembers(s, q + 1)
          case NoMembers => NoMembers
          case MembersScan(rest, end) => MembersScan([m] + rest, end)
        else NoMembers
      else NoMembers
  }

  /** The items of a non-empty array from index i up to and past the closing bracket. */
  function ParseItems(s: string, i: nat): (r: ItemsScan)
    requires i <= |s|
    ensures r.ItemsScan? ==> i < r.end <= |s|
    decreases |s| - i, 3
  {
    match ParseValue(s, i)
    case NoValue => NoItems
    case ValueScan(v, e) =>
      var d := SkipWs(s, e);
      if d < |s| && s[d] == ']' then ItemsScan([v], d + 1)
      else if d < |s| && s[d] == ',' then
        match ParseItems(s, SkipWs(s, d + 1))
        case NoItems => NoItems
        case ItemsScan(rest, end) => ItemsScan([v] + rest, end)
      else NoItems
  }

  /** json.loads(s): one value with whitespace around it, None for ValueError */
  function Loads(s: string): (r: Option<JsonValue>)
    ensures r.Some? ==> SkipWs(s, 0) < |s|
  {
    match ParseValue(s, SkipWs(s, 0))
    case NoValue => None
    case ValueScan(v, end) => if SkipWs(s, end) == |s| then Some(v) else None
  }

  /** dict(members)[key]: the value of the last member with that key, None for KeyError */
  function Lookup(members: seq<Member>, key: seq<int>): (r: Option<JsonValue>)
    ensures r.Some? <==> exists k :: 0 <= k < |members| && members[k].key == key
  {
    if |members| == 0 then None
    else if members[|members| - 1].key == key then Some(members[|members| - 1].value)
    else
      var r := Lookup(members[..|members| - 1], key);
      assert forall k :: 0 <= k < |members| - 1 ==> members[..|members| - 1][k] == members[k];
      r
  }

  /** A later member with the key wins over every earlier one. */
  lemma LookupLastWins(members: seq<Member>, key: seq<int>, v: JsonValue)
    ensures Lookup(members + [Member(key, v)], key) == Some(v)
  {
  }

  /** A member with another key does not change what a lookup finds. */
  lemma LookupSkipsOthers(members: seq<Member>, m: Member, key: seq<int>)
    requires m.key != key
    ensures Lookup(members + [m], key) == Lookup(members, key)
  {
    assert (members + [m])[..|members|] == members;
  }

  // ------------------------------------------------------------------ integers

  /** str() of an int starts with a minus or a digit. */
  lemma IntStrHead(n: int)
    ensures IntStr(n)[0] == '-' || IsDigit(IntStr(n)[0])
  {
    if n >= 0 {
      assert IntStr(n)[0] == NatStr(n)[0];
    }
  }

  /** A numeral str() wrote for m >= 0, followed by a non-digit, is one integer part. */
  lemma NatAt(s: string, k: nat, m: nat)
    requires k + |NatStr(m)| < |s| && s[k..k + |NatStr(m)|] == NatStr(m) && !IsDigit(s[k + |NatStr(m)|])
    ensures IsDigit(s[k]) && IntEnd(s, k) == k + |NatStr(m)|
  {
    var e := k + |NatStr(m)|;
    assert s[k] == NatStr(m)[0];
    if s[k] != '0' {
      forall j | k + 1 <= j < e
        ensures IsDigit(s[j])
      {
        assert s[j] == NatStr(m)[j - k];
      }
      DigitsEndAt(s, k + 1, e);
    }
  }

  /** A sign, an integer part and nothing that continues the number: an int. */
  lemma IntNumber(s: string, i: nat, k: nat, e: nat, m: nat)
    requires i <= k < |s| && k == (if s[i] == '-' then i + 1 else i) && IsDigit(s[k])
    requires IntEnd(s, k) == e && e < |s| && s[e] != '.' && s[e] != 'e' && s[e] != 'E'
    requires DigitsValue(s[k..e]) == m
    ensures ParseNumber(s, i) == ValueScan(JInt(if s[i] == '-' then 0 - m else m), e)
  {
    assert ExpEnd(s, FracEnd(s, e)) == e;
  }

  /**
   * A numeral str() wrote for n, followed by a character that cannot continue a number, parses
   * as the int n and ends where the numeral does.
   */
  lemma ParseIntStr(s: string, i: nat, n: int)
    requires i + |IntStr(n)| < |s| && s[i..i + |IntStr(n)|] == IntStr(n)
    requires var c := s[i + |IntStr(n)|]; !IsDigit(c) && c != '.' && c != 'e' && c != 'E'
    ensures ParseNumber(s, i) == ValueScan(JInt(n), i + |IntStr(n)|)
  {
    var e := i + |IntStr(n)|;
    var m: nat := if n < 0 then -n else n;
    var k := if n < 0 then i + 1 else i;
    if n < 0 {
      assert s[i] == IntStr(n)[0] == '-';
      assert s[k..e] == NatStr(m) by {
        assert s[k..e] == s[i..e][1..];
      }
    } else {
      assert s[i] == NatStr(m)[0];
    }
    NatAt(s, k, m);
    NatStrValue(m);
    IntNumber(s, i, k, e, m);
  }

  /** The numeral of an int, where a value is expected, is that int. */
  lemma ValueIntStr(s: string, i: nat, n: int)
    requires i + |IntStr(n)| < |s| && s[i..i + |IntStr(n)|] == IntStr(n)
    requires var c := s[i + |IntStr(n)|]; !IsDigit(c) && c != '.' && c != 'e' && c != 'E'
    ensures ParseValue(s, i) == ValueScan(JInt(n), i + |IntStr(n)|)
  {
    ScalarIntStr(s, i, n);
    assert s[i] == IntStr(n)[0];
    IntStrHead(n);
  }

  /** The numeral of an int is a scalar: that int. */
  lemma ScalarIntStr(s: string, i: nat, n: int)
    requires i + |IntStr(n)| < |s| && s[i..i + |IntStr(n)|] == IntStr(n)
    requires var c := s[i + |IntStr(n)|]; !IsDigit(c) && c != '.' && c != 'e' && c != 'E'
    ensures ParseScalar(s, i) == ValueScan(JInt(n), i + |IntStr(n)|)
  {
    var d := IntStr(n);
    ParseIntStr(s, i, n);
    assert s[i] == d[0];
    if n < 0 {
      assert s[i + 1] == d[1] == NatStr(-n)[0];
      assert !At(s, i, "-Infinity") by {
        assert s[i + 1] != "-Infinity"[1];
      }
    } else {
      assert d[0] == NatStr(n)[0];
    }
  }

  /** The digit run from i ends at e when every character before e is a digit and s[e] is not. */
  lemma {:induction false} DigitsEndAt(s: string, i: nat, e: nat)
    requires i <= e < |s| && !IsDigit(s[e]) && forall k :: i <= k < e ==> IsDigit(s[k])
    ensures DigitsEnd(s, i) == e
    decreases e - i
  {
    if i < e {
      DigitsEndAt(s, i + 1, e);
    }
  }

  /** The skip stops at e when every character before it is whitespace and s[e] is not. */
  lemma {:induction false} SkipWsAt(s: string, i: nat, e: nat)
    requires i <= e <= |s| && (e < |s| ==> !IsJsonWs(s[e])) && forall k :: i <= k < e ==> IsJsonWs(s[k])
    ensures SkipWs(s, i) == e
    decreases e - i
  {
    if i < e {
      SkipWsAt(s, i + 1, e);
    }
  }

  /** A run of plain characters closed by a quote scans as those characters. */
  lemma {:induction false} PlainKey(s: string, i: nat, e: nat)
    requires i <= e < |s| && s[e] == '"'
    requires forall k :: i <= k < e ==> s[k] != '"' && s[k] != '\\' && s[k] as int >= 0x20
    ensures StringBody(s, i) == TextScan(Units(s[i..e]), e + 1)
    decreases e - i
  {
    if i < e {
      PlainKey(s, i + 1, e);
      assert UnitAt(s, i) == UnitScan(s[i] as int, i + 1);
      assert Units(s[i..e]) == [s[i] as int] + Units(s[i + 1..e]);
    }
  }

  const BUILD: string := "BUILD"

  /** The text the build script writes for a build number text t: one member, BUILD. */
  function BuildObject(t: string): string
  {
    "{\"BUILD\" : " + t + "}"
  }

  /** A key, a colon and a value make a member. */
  lemma MemberStep(s: string, i: nat, key: seq<int>, k: nat, c: nat, v: JsonValue, end: nat)
    requires i <= |s| && StringBody(s, i) == TextScan(key, k)
    requires SkipWs(s, k) == c && c < |s| && s[c] == ':'
    requires ParseValue(s, SkipWs(s, c + 1)) == ValueScan(v, end)
    ensures ParseMember(s, i) == MemberScan(Member(key, v), end)
  {
  }

  /** A member followed by a closing brace is the last member. */
  lemma MembersLast(s: string, i: nat, m: Member, e: nat, d: nat)
    requires i <= |s| && ParseMember(s, i) == MemberScan(m, e)
    requires SkipWs(s, e) == d && d < |s| && s[d] == '}'
    ensures ParseMembers(s, i) == MembersScan([m], d + 1)
  {
  }

  /** An opening brace, a key's quote and the members make an object. */
  lemma ObjectStep(s: string, i: nat, j: nat, members: seq<Member>, end: nat)
    requires i < |s| && s[i] == '{'
    requires SkipWs(s, i + 1) == j && j < |s| && s[j] == '"'
    requires ParseMembers(s, j + 1) == MembersScan(members, end)
    ensures ParseValue(s, i) == ValueScan(JObject(members), end)
  {
    assert ParseObject(s, i) == ValueScan(JObject(members), end);
  }

  /** A value with nothing but whitespace around it is what json.loads returns. */
  lemma LoadsStep(s: string, v: JsonValue, end: nat)
    requires ParseValue(s, SkipWs(s, 0)) == ValueScan(v, end) && SkipWs(s, end) == |s|
    ensures Loads(s) == Some(v)
  {
  }

  /** A key, a colon, a value and a closing brace: an object's only member. */
  lemma OneMember(s: string, i: nat, key: seq<int>, k: nat, c: nat, v: JsonValue, e: nat)
    requires i <= |s| && StringBody(s, i) == TextScan(key, k)
    requires SkipWs(s, k) == c && c < |s| && s[c] == ':'
    requires ParseValue(s, SkipWs(s, c + 1)) == ValueScan(v, e)
    requires SkipWs(s, e) == e && e < |s| && s[e] == '}'
    ensures ParseMembers(s, i) == MembersScan([Member(key, v)], e + 1)
  {
    MemberStep(s, i, key, k, c, v, e);
    MembersLast(s, i, Member(key, v), e, e);
  }

  /** The key BUILD and its colon, as the script writes them, ahead of a value at 12. */
  lemma BuildKey(s: string)
    requires 13 <= |s| && s[3..12] == "BUILD\" : " && (IsDigit(s[12]) || s[12] == '-')
    ensures StringBody(s, 3) == TextScan(Units(BUILD), 9)
    ensures SkipWs(s, 9) == 10 && s[10] == ':' && SkipWs(s, 11) == 12
  {
    assert s[3..8] == BUILD && s[8] == '"' && s[9] == ' ' && s[10] == ':' && s[11] == ' ' by {
      assert s[3..12][..5] == BUILD;
    }
    PlainKey(s, 3, 8);
    SkipWsAt(s, 9, 10);
    SkipWsAt(s, 11, 12);
  }

  /** One member, BUILD, holding a numeral, closed by a brace: the object's members. */
  lemma MembersOfBuild(s: string, n: int)
    requires 13 + |IntStr(n)| <= |s| && s[3..12] == "BUILD\" : " && s[12..12 + |IntStr(n)|] == IntStr(n)
    requires s[12 + |IntStr(n)|] == '}'
    ensures ParseMembers(s, 3) == MembersScan([Member(Units(BUILD), JInt(n))], 13 + |IntStr(n)|)
  {
    var e := 12 + |IntStr(n)|;
    assert s[12] == IntStr(n)[0];
    IntStrHead(n);
    BuildKey(s);
    ValueIntStr(s, 12, n);
    SkipWsAt(s, e, e);
    OneMember(s, 3, Units(BUILD), 9, 10, JInt(n), e);
  }

  /** The members of an object that stands between two blanks, loaded. */
  lemma LoadsObject(s: string, members: seq<Member>, end: nat)
    requires 3 < |s| && s[0] == ' ' && s[1] == '{' && s[2] == '"'
    requires ParseMembers(s, 3) == MembersScan(members, end) && end + 1 == |s| && s[end] == ' '
    ensures Loads(s) == Some(JObject(members))
  {
    SkipWsAt(s, 0, 1);
    SkipWsAt(s, 2, 2);
    ObjectStep(s, 1, 2, members, end);
    SkipWsAt(s, end, |s|);
    LoadsStep(s, JObject(members), end);
  }

  /**
   * Round trip: the object the script writes for a build number n, with a blank either side,
   * loads as the object whose one member BUILD holds the int n.
   */
  lemma LoadsBuildObject(n: int)
    ensures Loads(" " + BuildObject(IntStr(n)) + " ") == Some(JObject([Member(Units(BUILD), JInt(n))]))
  {
    var d := IntStr(n);
    var s := " " + BuildObject(d) + " ";
    var e := 12 + |d|;
    assert s == " {\"" + "BUILD\" : " + d + "} ";
    assert s[3..12] == "BUILD\" : " && s[12..e] == d;
    assert s[0] == ' ' && s[1] == '{' && s[2] == '"' && s[e] == '}' && s[e + 1] == ' ';
    MembersOfBuild(s, n);
    LoadsObject(s, [Member(Units(BUILD), JInt(n))], e + 1);
  }
}
