// The minimal JSON codec of Core/Src/json/json.c: a serializer for a chain of name/value
// pairs whose values are strings or the literals true, false and null, and a parser for one
// such pair. Whitespace is the ECMA-404 set; string escapes are those of section 7 of
// RFC 8259. Input text is a NUL-terminated byte buffer; the model reads it through At, which
// gives NUL past the end of the C string.

module Json {
  import opened Common
  import opened AsciiHelpers

  // json_err.h
  const JSON_ERR_OBSTART: u32 := 1
  const JSON_ERR_BADTRAIL: u32 := 9
  const JSON_ERR_BADSTRING: u32 := 15
  const JSON_ERR_BADENUM: u32 := 18
  const JSON_ERR_MISC: u32 := 21
  const JSON_ERR_NULLPTR: u32 := 23
  const JSON_ERR_NOROOM: u32 := 24

  // json_def.h
  const MIN_ROOM: nat := 10
  const MAXJSONSTRING: nat := 64

  const QUOTE: byte := 0x22
  const BACKSLASH: byte := 0x5C
  const LBRACE: byte := 0x7B
  const RBRACE: byte := 0x7D
  const COLON: byte := 0x3A
  const COMMA: byte := 0x2C

  /** JSONHEAD, JSONDELIM_P, JSONDELIM_O and JSONTAIL */
  const HEAD: seq<byte> := [LBRACE, QUOTE]
  const DELIM_P: seq<byte> := [QUOTE, COLON]
  const DELIM_O: seq<byte> := [COMMA, 0x20, QUOTE]
  const TAIL: seq<byte> := [RBRACE]

  /** enum jValType */
  datatype JValType = JValPad | JValSz | JValNum | JValObj | JValArr | JValEnum
  /** enum jenum_t */
  datatype JEnum = JPad | JTrue | JFalse | JNull

  /**
   * json_obj_t: the value type, the name and the string value as the contents of their C
   * strings (None for a NULL pointer), and the literal value.
   */
  datatype JsonObj = JsonObj(valType: JValType, name: Option<seq<byte>>, sz: Option<seq<byte>>, en: JEnum)

  predicate NulFree(s: seq<byte>)
  {
    forall k :: 0 <= k < |s| ==> s[k] != 0
  }

  /** The name and string value of o are C strings. */
  predicate ObjStrings(o: JsonObj)
  {
    (o.name.Some? ==> NulFree(o.name.value)) && (o.sz.Some? ==> NulFree(o.sz.value))
  }

  /** IS_ECMA_WHITESPACE: space, tab, line feed, carriage return. */
  predicate IsWs(b: byte)
  {
    b == 0x20 || b == 0x09 || b == 0x0A || b == 0x0D
  }

  // ---------------------------------------------------------------------------------------
  // Scanning specifications

  /** Where skip_spaces leaves the cursor: the first index from i on that holds no whitespace. */
  function SkipWs(s: seq<byte>, i: nat): (j: nat)
    requires i <= |s|
    ensures i <= j <= |s| && !IsWs(At(s, j))
    decreases |s| - i
  {
    if i < |s| && IsWs(s[i]) then SkipWs(s, i + 1) else i
  }

  /** skip_spaces passes over whitespace only. */
  lemma {:induction false} SkipWsSkipsWs(s: seq<byte>, i: nat)
    requires i <= |s|
    ensures forall k :: i <= k < SkipWs(s, i) ==> IsWs(s[k])
    decreases |s| - i
  {
    if i < |s| && IsWs(s[i]) {
      SkipWsSkipsWs(s, i + 1);
    }
  }

  /** The text of a literal: the pattern_true, pattern_false and pattern_null strings. */
  function EnumText(e: JEnum): (t: seq<byte>)
    requires e != JPad
    ensures 4 <= |t| <= 5 && NulFree(t)
  {
    match e
    case JTrue => [0x74, 0x72, 0x75, 0x65]
    case JFalse => [0x66, 0x61, 0x6C, 0x73, 0x65]
    case JNull => [0x6E, 0x75, 0x6C, 0x6C]
  }

  predicate StartsWith(s: seq<byte>, i: nat, t: seq<byte>)
  {
    i + |t| <= |s| && s[i..i + |t|] == t
  }

  /** Text that starts with t at i holds t's k-th byte at i + k. */
  lemma StartsWithAt(s: seq<byte>, i: nat, t: seq<byte>, k: nat)
    requires k < |t|
    ensures StartsWith(s, i, t) ==> i + k < |s| && s[i + k] == t[k]
  {
    if StartsWith(s, i, t) {
      assert s[i..i + |t|][k] == s[i + k];
    }
  }

  /** The literal decode_enum tries at i, chosen by its first character. */
  function EnumByFirst(b: byte): JEnum
  {
    if b == 0x66 then JFalse else if b == 0x74 then JTrue else if b == 0x6E then JNull else JPad
  }

  /**
   * decode_enum: the literal the text starts with at i and the index past it, or JPad when it
   * starts with none.
   */
  function DecodeEnumSpec(s: seq<byte>, i: nat): (r: (JEnum, nat))
    requires i <= |s|
  {
    var e := EnumByFirst(At(s, i));
    if e != JPad && StartsWith(s, i, EnumText(e)) then (e, i + |EnumText(e)|) else (JPad, i)
  }

  /** decode_enum recognises exactly the three literals and moves past the one it finds. */
  lemma DecodeEnumExact(s: seq<byte>, i: nat, e: JEnum)
    requires i <= |s| && e != JPad
    ensures DecodeEnumSpec(s, i) == (e, i + |EnumText(e)|) <==> StartsWith(s, i, EnumText(e))
    ensures DecodeEnumSpec(s, i).0 == JPad <==>
      !StartsWith(s, i, EnumText(JTrue)) && !StartsWith(s, i, EnumText(JFalse)) && !StartsWith(s, i, EnumText(JNull))
  {
    if StartsWith(s, i, EnumText(e)) {
      assert s[i] == EnumText(e)[0];
    }
    forall e' | e' != JPad && StartsWith(s, i, EnumText(e'))
      ensures EnumByFirst(At(s, i)) == e'
    {
      assert s[i] == EnumText(e')[0];
    }
  }

  /** The characters that may follow a backslash on their own: " \ / b f n r t */
  predicate SingleEscape(b: byte)
  {
    b == 0x22 || b == 0x5C || b == 0x2F || b == 0x62 || b == 0x66 || b == 0x6E || b == 0x72 || b == 0x74
  }

  predicate AllHex(s: seq<byte>, i: nat, n: nat)
  {
    i + n <= |s| && forall k :: i <= k < i + n ==> IsHexChar(s[k])
  }

  /**
   * check_esc as written, for the backslash at i of a string of len characters: a single
   * escape gives 1; for 'u' the four characters tested as hex start at the 'u' itself.
   */
  function EscLenAsWritten(s: seq<byte>, i: nat, len: nat): nat
    requires i + 1 < |s| && len <= |s|
  {
    var k := i + 1;
    if SingleEscape(s[k]) then 1
    else if s[k] == 0x75 && k + 4 < len && AllHex(s, k, 4) then 4
    else 0
  }

  /** As written, no \u escape is ever accepted: the 'u' is not a hex digit. */
  lemma UnicodeEscapeRejectedAsWritten(s: seq<byte>, i: nat)
    requires i + 1 < |s| && s[i + 1] == 0x75
    ensures EscLenAsWritten(s, i, |s|) == 0
  {
  }

  /** check_esc with the four hex digits tested after the 'u', as section 7 of RFC 8259 has them. */
  function EscLen(s: seq<byte>, i: nat, len: nat): (r: nat)
    requires i + 1 < |s| && len <= |s|
    ensures r == 0 || r == 1 || (r == 4 && i + 5 < len)
  {
    var k := i + 1;
    if SingleEscape(s[k]) then 1
    else if s[k] == 0x75 && k + 4 < len && AllHex(s, k + 1, 4) then 4
    else 0
  }

  /** The escapes accepted are exactly those of section 7 of RFC 8259. */
  lemma EscapeSet(s: seq<byte>, i: nat)
    requires i + 1 < |s|
    ensures EscLen(s, i, |s|) == 1 <==> SingleEscape(s[i + 1])
    ensures EscLen(s, i, |s|) == 4 <==> s[i + 1] == 0x75 && AllHex(s, i + 2, 4)
    ensures EscLen(s, i, |s|) == 0 <==> !SingleEscape(s[i + 1]) && !(s[i + 1] == 0x75 && AllHex(s, i + 2, 4))
  {
  }

  /**
   * The loop of get_jstrlen from index i of the C string s: the index of the first quotation
   * mark not inside an escape, or 0 when a control character, a trailing backslash, a bad
   * escape or the end of s comes first.
   */
  function ScanFrom(s: seq<byte>, i: nat): (r: nat)
    ensures r != 0 ==> i <= r < |s| && s[r] == QUOTE
    decreases |s| - i
  {
    if i >= |s| then 0
    else if s[i] < 0x20 then 0
    else if s[i] == BACKSLASH then
      if i == |s| - 1 then 0
      else
        var e := EscLen(s, i, |s|);
        if e == 0 then 0 else ScanFrom(s, i + e + 1)
    else if s[i] == QUOTE then i
    else ScanFrom(s, i + 1)
  }

  /**
   * get_jstrlen on the C string s that follows an opening quotation mark: the length of the
   * string before the closing one, 0 when s is empty or exactly MAXJSONSTRING long.
   */
  function JStrLen(s: seq<byte>): (r: nat)
    ensures r != 0 ==> 0 < r < |s| && s[r] == QUOTE
  {
    if |s| == 0 || |s| == MAXJSONSTRING then 0 else ScanFrom(s, 0)
  }

  /** A character that needs no escape: not a control character, a quotation mark or a backslash. */
  predicate Plain(b: byte)
  {
    b >= 0x20 && b != QUOTE && b != BACKSLASH
  }

  /** A run of plain characters ended by a quotation mark is read up to that mark. */
  lemma {:induction false} ScanPlain(s: seq<byte>, i: nat, k: nat)
    requires i <= k < |s| && s[k] == QUOTE
    requires forall j :: i <= j < k ==> Plain(s[j])
    ensures ScanFrom(s, i) == k
    decreases k - i
  {
    if i < k {
      ScanPlain(s, i + 1, k);
    }
  }

  // ---------------------------------------------------------------------------------------
  // Parsing specification

  datatype JValue = VStr(s: seq<byte>) | VEnum(e: JEnum)
  datatype JParse = JFail(code: u32) | JPair(name: seq<byte>, value: JValue)

  /** After the value: whitespace, then '}' or ','. */
  function ParseTail(s: seq<byte>, j: nat, name: seq<byte>, v: JValue): JParse
    requires j <= |s|
  {
    var i := SkipWs(s, j);
    if At(s, i) == RBRACE || At(s, i) == COMMA then JPair(name, v) else JFail(JSON_ERR_BADTRAIL)
  }

  /** The value at i (after the colon and its whitespace): a string or a literal. */
  function ParseValue(s: seq<byte>, i: nat, name: seq<byte>): JParse
    requires i <= |s|
  {
    if At(s, i) != QUOTE then
      var (e, j) := DecodeEnumSpec(s, i);
      if e == JPad then JFail(JSON_ERR_BADENUM) else ParseTail(s, j, name, VEnum(e))
    else
      var k := JStrLen(s[i + 1..]);
      if k == 0 then JFail(JSON_ERR_BADSTRING)
      else ParseTail(s, i + 2 + k, name, VStr(s[i + 1..i + 1 + k]))
  }

  /** The outcome of the part of deserialize_json up to the value: an error, or the cursor and the name. */
  datatype Head = HeadFail(code: u32) | HeadOk(cursor: nat, name: seq<byte>)

  /** ws '{' ws '"': the cursor at the first character of the name, or None. */
  function OpenName(s: seq<byte>): (r: Option<nat>)
    ensures r.Some? ==> 0 < r.value <= |s|
  {
    var i0 := SkipWs(s, 0);
    if At(s, i0) != LBRACE then None
    else
      var i1 := SkipWs(s, i0 + 1);
      if At(s, i1) != QUOTE then None else Some(i1 + 1)
  }

  /** name '"' ws ':' ws from the cursor p at the name's first character. */
  function NameColon(s: seq<byte>, p: nat): (h: Head)
    requires p <= |s|
    ensures h.HeadOk? ==> h.cursor <= |s|
  {
    var k := JStrLen(s[p..]);
    if k == 0 then HeadFail(JSON_ERR_BADSTRING)
    else
      var i2 := SkipWs(s, p + k + 1);
      if At(s, i2) != COLON then HeadFail(JSON_ERR_BADSTRING)
      else HeadOk(SkipWs(s, i2 + 1), s[p..p + k])
  }

  /** ws '{' ws '"' name '"' ws ':' ws, as deserialize_json reads it from the C string s. */
  function ParseHead(s: seq<byte>): (h: Head)
    ensures h.HeadOk? ==> h.cursor <= |s|
  {
    match OpenName(s)
    case None => HeadFail(JSON_ERR_OBSTART)
    case Some(p) => NameColon(s, p)
  }

  /**
   * deserialize_json on the C string s with payload_size given: ws '{' ws '"' name '"' ws ':'
   * ws value ws, then '}' or ','; the first step that fails gives its error code.
   */
  function ParseJson(s: seq<byte>, payloadSize: nat): JParse
  {
    if |s| != payloadSize then JFail(JSON_ERR_MISC)
    else
      match ParseHead(s)
      case HeadFail(c) => JFail(c)
      case HeadOk(i, name) => ParseValue(s, i, name)
  }

  // ---------------------------------------------------------------------------------------
  // Serializing specification

  /** A pair pair_out can write: a name, and a string value or one of the three literals. */
  predicate WellFormed(o: JsonObj)
  {
    o.name.Some? && ((o.valType == JValSz && o.sz.Some?) || (o.valType == JValEnum && o.en != JPad))
  }

  predicate AllWellFormed(chain: seq<JsonObj>)
  {
    forall k :: 0 <= k < |chain| ==> WellFormed(chain[k])
  }

  /** The value as written: the string in quotation marks, or the literal. */
  function ValueText(o: JsonObj): seq<byte>
    requires WellFormed(o)
  {
    if o.valType == JValSz then [QUOTE] + o.sz.value + [QUOTE] else EnumText(o.en)
  }

  /** One pair: name, '":', value, then '}' after the last pair or ', "' before the next. */
  function PairText(o: JsonObj, last: bool): seq<byte>
    requires WellFormed(o)
  {
    o.name.value + DELIM_P + ValueText(o) + (if last then TAIL else DELIM_O)
  }

  function Pairs(chain: seq<JsonObj>): seq<byte>
    requires chain != [] && AllWellFormed(chain)
    decreases |chain|
  {
    if |chain| == 1 then PairText(chain[0], true) else PairText(chain[0], false) + Pairs(chain[1..])
  }

  /** The text serialize_json writes for a chain: '{"', the pairs, and a NUL. */
  function Render(chain: seq<JsonObj>): seq<byte>
    requires chain != [] && AllWellFormed(chain)
  {
    HEAD + Pairs(chain) + [0]
  }

  /** The outcome of a step of the serializer: an error code, or the room left in the buffer. */
  datatype Step = Fail(code: u32) | Room(remain: nat)

  /** The closing text after a pair, written when remain holds its size plus two. */
  function TailStep(r: nat, last: bool): Step
  {
    var t := if last then TAIL else DELIM_O;
    if r < |t| + 2 then Fail(JSON_ERR_NOROOM) else Room(r - |t|)
  }

  /**
   * The value part of pair_out with r bytes of room. A string value is checked against the
   * room left after its opening quotation mark; as written (fixed false) the closing one is
   * not counted, and remain, a size_t, wraps below zero after it. fixed counts it.
   */
  function ValueStep(r: nat, o: JsonObj, fixed: bool): Step
    requires r >= 1 && (o.valType == JValSz || o.valType == JValEnum)
  {
    if o.valType == JValSz then
      if o.sz.None? then Fail(JSON_ERR_NULLPTR)
      else
        var a := |o.sz.value|;
        var r3 := r - 1;
        if r3 < a + (if fixed then 1 else 0) then Fail(JSON_ERR_NOROOM)
        else if fixed then Room(r3 - a - 1)
        else Room((r3 - a - 1) % 0x1_0000_0000)
    else if r < |EnumText(JFalse)| + 1 then Fail(JSON_ERR_NOROOM)
    else if o.en == JPad then Fail(JSON_ERR_BADENUM)
    else Room(r - |EnumText(o.en)|)
  }

  /**
   * pair_out with remain bytes of room (Core/Src/json/json.c:105-259): the checks in the
   * order the code makes them, and the room left after the pair.
   */
  function PairStep(remain: nat, o: JsonObj, last: bool, fixed: bool): (st: Step)
    ensures st.Fail? ==> PairError(st.code)
  {
    if o.name.None? then Fail(JSON_ERR_NULLPTR)
    else if o.valType != JValSz && o.valType != JValEnum then Fail(JSON_ERR_MISC)
    else
      var n := |o.name.value|;
      if remain < n then Fail(JSON_ERR_NOROOM)
      else if remain - n < |DELIM_P| + 1 then Fail(JSON_ERR_NOROOM)
      else
        var v := ValueStep(remain - n - |DELIM_P|, o, fixed);
        if v.Fail? then v else TailStep(v.remain, last)
  }

  /** The codes pair_out fails with. */
  predicate PairError(c: u32)
  {
    c == JSON_ERR_NULLPTR || c == JSON_ERR_MISC || c == JSON_ERR_NOROOM || c == JSON_ERR_BADENUM
  }

  /**
   * pair_out succeeds only on a well-formed pair and, with the closing quotation mark counted,
   * uses exactly the room of the pair's text and leaves two bytes; each error code names its
   * cause.
   */
  lemma PairStepOutcome(remain: nat, o: JsonObj, last: bool, fixed: bool)
    ensures var st := PairStep(remain, o, last, fixed);
      && (st.Room? ==> WellFormed(o))
      && (fixed && st.Room? ==> st.remain + |PairText(o, last)| == remain && st.remain >= 2)
      && (st.Fail? && st.code == JSON_ERR_MISC ==> o.valType != JValSz && o.valType != JValEnum)
      && (st.Fail? && st.code == JSON_ERR_BADENUM ==> o.valType == JValEnum && o.en == JPad)
      && (st.Fail? && st.code == JSON_ERR_NULLPTR ==> o.name.None? || (o.valType == JValSz && o.sz.None?))
  {
  }

  /** A chain whose code is 0 was written whole, with two bytes of room to spare. */
  lemma ChainSucceeded(remain: nat, chain: seq<JsonObj>)
    requires chain != [] && SerializeCode(Chain(remain, chain, true)) == 0
    ensures var st := Chain(remain, chain, true);
      st.Room? && AllWellFormed(chain) && st.remain + |Pairs(chain)| == remain && st.remain >= 2
  {
    ChainFits(remain, chain);
  }

  /** The do-while loop of serialize_json over the chain. */
  function Chain(remain: nat, chain: seq<JsonObj>, fixed: bool): (st: Step)
    requires chain != []
    ensures st.Fail? ==> PairError(st.code)
    decreases |chain|
  {
    var st := PairStep(remain, chain[0], |chain| == 1, fixed);
    if st.Fail? || |chain| == 1 then st else Chain(st.remain, chain[1..], fixed)
  }

  /**
   * serialize_json (Core/Src/json/json.c:269-331): JSON_ERR_NULLPTR for an empty chain,
   * JSON_ERR_NOROOM for a NULL or too small buffer, else the outcome of the pairs, with the
   * buffer's last byte and the head's size kept out of the room.
   */
  function SerializeResult(bufsize: nat, bufNull: bool, chain: seq<JsonObj>, fixed: bool): Step
  {
    if chain == [] then Fail(JSON_ERR_NULLPTR)
    else if bufNull || bufsize < MIN_ROOM then Fail(JSON_ERR_NOROOM)
    else Chain(bufsize - 1 - (|HEAD| + 1), chain, fixed)
  }

  /** The result code serialize_json returns. */
  function SerializeCode(st: Step): u32
  {
    if st.Fail? then st.code else 0
  }

  /** What the serializer accepts uses exactly the room its text takes, and leaves two bytes. */
  lemma {:induction false} ChainFits(remain: nat, chain: seq<JsonObj>)
    requires chain != []
    ensures Chain(remain, chain, true).Room? ==>
      AllWellFormed(chain) && Chain(remain, chain, true).remain + |Pairs(chain)| == remain
      && Chain(remain, chain, true).remain >= 2
    decreases |chain|
  {
    var st := PairStep(remain, chain[0], |chain| == 1, true);
    PairStepOutcome(remain, chain[0], |chain| == 1, true);
    if st.Room? && |chain| > 1 {
      ChainFits(st.remain, chain[1..]);
      if Chain(remain, chain, true).Room? {
        forall k | 0 <= k < |chain|
          ensures WellFormed(chain[k])
        {
          if k > 0 {
            assert chain[k] == chain[1..][k - 1];
          }
        }
      }
    }
  }

  /** Every chain of well-formed pairs is written when the room holds its text and two more bytes. */
  lemma {:induction false} ChainSucceeds(remain: nat, chain: seq<JsonObj>)
    requires chain != [] && AllWellFormed(chain) && remain >= |Pairs(chain)| + 2
    ensures Chain(remain, chain, true) == Room(remain - |Pairs(chain)|)
    decreases |chain|
  {
    var o := chain[0];
    var last := |chain| == 1;
    var rest := if last then 0 else |Pairs(chain[1..])|;
    assert remain >= |PairText(o, last)| + rest + 2;
    assert PairStep(remain, o, last, true).Room?;
    PairStepOutcome(remain, o, last, true);
    if !last {
      assert AllWellFormed(chain[1..]) by {
        forall k | 0 <= k < |chain| - 1
          ensures WellFormed(chain[1..][k])
        {
          assert chain[1..][k] == chain[k + 1];
        }
      }
      ChainSucceeds(remain - |PairText(o, false)|, chain[1..]);
    }
  }

  /**
   * With the closing quotation mark counted, serialize_json succeeds exactly when every pair is
   * well formed and the buffer holds the text, its NUL and three more bytes; then the text fits.
   */
  lemma SerializeFits(bufsize: nat, chain: seq<JsonObj>)
    ensures SerializeResult(bufsize, false, chain, true).Room? <==>
      chain != [] && AllWellFormed(chain) && |Render(chain)| + 3 <= bufsize
  {
    if chain != [] && AllWellFormed(chain) {
      PairsAtLeast(chain);
    }
    if chain != [] && bufsize >= MIN_ROOM {
      ChainFits(bufsize - 1 - (|HEAD| + 1), chain);
      if AllWellFormed(chain) && |Render(chain)| + 3 <= bufsize {
        ChainSucceeds(bufsize - 1 - (|HEAD| + 1), chain);
      }
    }
  }

  /** Every text is at least a name-less pair with an empty string: five bytes. */
  lemma {:induction false} PairsAtLeast(chain: seq<JsonObj>)
    requires chain != [] && AllWellFormed(chain)
    ensures |Pairs(chain)| >= 5
    decreases |chain|
  {
    if |chain| > 1 {
      assert AllWellFormed(chain[1..]) by {
        forall k | 0 <= k < |chain| - 1
          ensures WellFormed(chain[1..][k])
        {
          assert chain[1..][k] == chain[k + 1];
        }
      }
      PairsAtLeast(chain[1..]);
    }
  }

  /**
   * As written, a string pair with a buffer of exactly name + value + 7 bytes is accepted and
   * its text with the NUL takes bufsize + 1 bytes: '{"ab":"c"}' and its NUL in ten bytes.
   */
  lemma SerializeOverflowAsWritten()
    ensures var o := JsonObj(JValSz, Some([0x61, 0x62]), Some([0x63]), JPad);
      && SerializeResult(10, false, [o], false).Room?
      && |Render([o])| == 11
  {
    var o := JsonObj(JValSz, Some([0x61, 0x62]), Some([0x63]), JPad);
    assert ValueStep(2, o, false) == Room(0x1_0000_0000 - 1);
  }

  // ---------------------------------------------------------------------------------------
  // The serializer

  /**
   * The byte loops of pair_out and serialize_json: copies t into buf at d, after the text w
   * already written from start, inside the room that ends at e.
   */
  method Emit(buf: array<byte>, start: nat, d: nat, e: nat, t: seq<byte>, ghost w: seq<byte>) returns (d': nat)
    requires start <= d && d + |t| <= e <= buf.Length && buf[start..d] == w
    modifies buf
    ensures d' == d + |t| && buf[start..d'] == w + t
    ensures buf[..start] == old(buf[..start]) && buf[e..] == old(buf[e..])
  {
    CopyIn(buf, d, t);
    d' := d + |t|;
    assert buf[..] == old(buf[..d]) + t + old(buf[d'..]);
    assert buf[start..d'] == buf[..][start..d'];
    assert old(buf[..d]) == old(buf[..start]) + w;
  }

  /**
   * The value part of pair_out (Core/Src/json/json.c:164-237) with r bytes of room, the
   * closing quotation mark of a string counted: writes the value at d, after the text w.
   */
  method ValueOut(buf: array<byte>, start: nat, d: nat, e: nat, r: nat, o: JsonObj, ghost w: seq<byte>)
    returns (result: u32, d': nat, r': nat)
    requires start <= d && d + r <= e <= buf.Length && buf[start..d] == w
    requires o.name.Some? && r >= 1 && (o.valType == JValSz || o.valType == JValEnum)
    modifies buf
    ensures d <= d' && d' + r' == d + r
    ensures var st := ValueStep(r, o, true);
      && result == SerializeCode(st)
      && (st.Room? ==> r' == st.remain && buf[start..d'] == w + ValueText(o))
    ensures buf[..start] == old(buf[..start]) && buf[e..] == old(buf[e..])
  {
    d', r' := d, r;
    if o.valType == JValSz {
      if o.sz.None? {
        return JSON_ERR_NULLPTR, d', r';
      }
      d' := Emit(buf, start, d', e, [QUOTE], w);
      r' := r' - 1;
      var v := o.sz.value;
      if r' < |v| + 1 {
        return JSON_ERR_NOROOM, d', r';
      }
      d' := Emit(buf, start, d', e, v, w + [QUOTE]);
      d' := Emit(buf, start, d', e, [QUOTE], w + [QUOTE] + v);
      r' := r' - |v| - 1;
      assert w + [QUOTE] + v + [QUOTE] == w + ValueText(o);
    } else {
      if r' < |EnumText(JFalse)| + 1 {
        return JSON_ERR_NOROOM, d', r';
      }
      if o.en == JPad {
        return JSON_ERR_BADENUM, d', r';
      }
      var lit := EnumText(o.en);
      d' := Emit(buf, start, d', e, lit, w);
      r' := r' - |lit|;
    }
    result := 0;
  }

  /**
   * pair_out (Core/Src/json/json.c:105-259) with the closing quotation mark of a string value
   * counted: writes the pair at d, inside the remain bytes after it.
   */
  method PairOut(buf: array<byte>, d: nat, remain: nat, o: JsonObj, last: bool) returns (result: u32, d': nat, remain': nat)
    requires d + remain <= buf.Length
    modifies buf
    ensures d <= d' && d' + remain' == d + remain
    ensures var st := PairStep(remain, o, last, true);
      && result == SerializeCode(st)
      && (st.Room? ==> remain' == st.remain && buf[d..d'] == PairText(o, last))
    ensures buf[..d] == old(buf[..d]) && buf[d + remain..] == old(buf[d + remain..])
  {
    d', remain' := d, remain;
    if o.name.None? {
      return JSON_ERR_NULLPTR, d', remain';
    }
    if o.valType != JValSz && o.valType != JValEnum {
      return JSON_ERR_MISC, d', remain';
    }
    var e := d + remain;
    var name := o.name.value;
    if remain' < |name| {
      return JSON_ERR_NOROOM, d', remain';
    }
    d' := Emit(buf, d, d', e, name, []);
    remain' := remain' - |name|;
    if remain' < |DELIM_P| + 1 {
      return JSON_ERR_NOROOM, d', remain';
    }
    d' := Emit(buf, d, d', e, DELIM_P, name);
    remain' := remain' - |DELIM_P|;
    var r;
    r, d', remain' := ValueOut(buf, d, d', e, remain', o, name + DELIM_P);
    if r != 0 {
      return r, d', remain';
    }
    var t := if last then TAIL else DELIM_O;
    if remain' < |t| + 2 {
      return JSON_ERR_NOROOM, d', remain';
    }
    d' := Emit(buf, d, d', e, t, name + DELIM_P + ValueText(o));
    remain' := remain' - |t|;
    result := 0;
  }

  /**
   * Where the do-while loop of serialize_json stands after k pairs, with remain bytes of room
   * and the text w written: the rest of the chain has the outcome of the whole, and on
   * success w and the rest's text make up the whole text.
   */
  ghost predicate Progress(whole: Step, remain: nat, chain: seq<JsonObj>, k: nat, w: seq<byte>)
    requires k <= |chain|
  {
    && (k < |chain| ==> whole == Chain(remain, chain[k..], true))
    && (k == |chain| ==> whole.Room? && remain == whole.remain)
    && (whole.Room? && chain != [] && AllWellFormed(chain) ==>
         if k < |chain| then AllWellFormed(chain[k..]) && w + Pairs(chain[k..]) == Pairs(chain)
         else w == Pairs(chain))
  }

  /** One pass of the loop: a failing pair is the outcome of the whole; a pair written moves on. */
  lemma ChainAdvance(whole: Step, remain: nat, chain: seq<JsonObj>, k: nat, w: seq<byte>)
    requires k < |chain| && Progress(whole, remain, chain, k, w)
    ensures var st := PairStep(remain, chain[k], k + 1 == |chain|, true);
      && (st.Fail? ==> whole == st)
      && (st.Room? ==>
            WellFormed(chain[k]) && Progress(whole, st.remain, chain, k + 1, w + PairText(chain[k], k + 1 == |chain|)))
  {
    var last := k + 1 == |chain|;
    var st := PairStep(remain, chain[k], last, true);
    PairStepOutcome(remain, chain[k], last, true);
    assert chain[k..][0] == chain[k];
    if st.Room? {
      if !last {
        assert chain[k..][1..] == chain[k + 1..];
      }
      if whole.Room? && chain != [] && AllWellFormed(chain) {
        assert Pairs(chain[k..]) == PairText(chain[k], last) + (if last then [] else Pairs(chain[k + 1..])) by {
          if !last {
            assert chain[k..][1..] == chain[k + 1..];
          }
        }
        if !last {
          var rest := chain[k + 1..];
          assert AllWellFormed(rest) by {
            forall j | 0 <= j < |rest|
              ensures WellFormed(rest[j])
            {
              assert rest[j] == chain[k + 1 + j];
            }
          }
        }
      }
    }
  }

  /**
   * The do-while loop of serialize_json (Core/Src/json/json.c:310-318): pair_out for each pair
   * of the chain in turn, from d with remain bytes of room, until one fails.
   */
  method ChainOut(buf: array<byte>, d: nat, remain: nat, chain: seq<JsonObj>) returns (result: u32, d': nat, remain': nat)
    requires chain != [] && d + remain <= buf.Length
    modifies buf
    ensures d <= d' && d' + remain' == d + remain
    ensures result == SerializeCode(Chain(remain, chain, true))
    ensures Chain(remain, chain, true).Room? ==>
      AllWellFormed(chain) && remain' == Chain(remain, chain, true).remain && buf[d..d'] == Pairs(chain)
    ensures buf[..d] == old(buf[..d]) && buf[d + remain..] == old(buf[d + remain..])
  {
    ghost var whole := Chain(remain, chain, true);
    ChainFits(remain, chain);
    d', remain' := d, remain;
    ghost var w := [];
    assert chain[0..] == chain;
    var k := 0;
    while k < |chain|
      invariant 0 <= k <= |chain| && d <= d' && d' + remain' == d + remain
      invariant buf[d..d'] == w
      invariant buf[..d] == old(buf[..d]) && buf[d + remain..] == old(buf[d + remain..])
      invariant Progress(whole, remain', chain, k, w)
      decreases |chain| - k
    {
      var r, d1, r1 := PairInChain(buf, d, d', remain', chain, k, whole, w);
      if r != 0 {
        return r, d1, r1;
      }
      w := w + PairText(chain[k], k + 1 == |chain|);
      d', remain' := d1, r1;
      k := k + 1;
    }
    result := 0;
  }

  /** One pass of the do-while loop of serialize_json: pair_out on the k-th pair at d'. */
  method PairInChain(buf: array<byte>, d: nat, d': nat, remain: nat, chain: seq<JsonObj>, k: nat,
                     ghost whole: Step, ghost w: seq<byte>)
    returns (result: u32, d1: nat, r1: nat)
    requires k < |chain| && d <= d' && d' + remain <= buf.Length && buf[d..d'] == w
    requires Progress(whole, remain, chain, k, w)
    modifies buf
    ensures d' <= d1 && d1 + r1 == d' + remain
    ensures result != 0 ==> result == SerializeCode(whole)
    ensures result == 0 ==>
      WellFormed(chain[k])
      && buf[d..d1] == w + PairText(chain[k], k + 1 == |chain|)
      && Progress(whole, r1, chain, k + 1, w + PairText(chain[k], k + 1 == |chain|))
    ensures buf[..d] == old(buf[..d]) && buf[d' + remain..] == old(buf[d' + remain..])
  {
    var last := k + 1 == |chain|;
    ChainAdvance(whole, remain, chain, k, w);
    ghost var before := buf[..];
    result, d1, r1 := PairOut(buf, d', remain, chain[k], last);
    Appended(buf[..], before, d, d', if result == 0 then d1 else d', w);
  }

  /** Bytes written at d' after a kept prefix: the text from d is the old text, then the new. */
  lemma Appended(now: seq<byte>, before: seq<byte>, d: nat, d': nat, d1: nat, w: seq<byte>)
    requires d <= d' <= d1 <= |now| == |before|
    requires now[..d'] == before[..d'] && before[d..d'] == w
    ensures now[..d] == before[..d] && now[d..d1] == w + now[d'..d1]
  {
    assert now[..d] == now[..d'][..d];
    assert now[d..d'] == now[..d'][d..];
    assert now[d..d1] == now[d..d'] + now[d'..d1];
  }

  /**
   * serialize_json (Core/Src/json/json.c:269-331) for a chain given in order, with pair_out
   * counting the closing quotation mark: the result code of SerializeResult, the text Render
   * at the start of the buffer on success, and the buffer's last two bytes never written.
   */
  method SerializeJson(pbuf: array?<byte>, bufsize: nat, chain: seq<JsonObj>) returns (result: u32)
    requires pbuf != null ==> bufsize <= pbuf.Length
    modifies pbuf
    ensures result == SerializeCode(SerializeResult(bufsize, pbuf == null, chain, true))
    ensures result == 0 ==>
      pbuf != null && chain != [] && AllWellFormed(chain) && |Render(chain)| + 3 <= bufsize
      && pbuf[..|Render(chain)|] == Render(chain)
    ensures pbuf != null && bufsize >= 2 ==> pbuf[bufsize - 2..] == old(pbuf[bufsize - 2..])
  {
    if chain == [] {
      return JSON_ERR_NULLPTR;
    }
    if pbuf == null || bufsize < MIN_ROOM {
      return JSON_ERR_NOROOM;
    }
    ghost var tail := pbuf[bufsize - 2..];
    ghost var r0 := bufsize - 1 - (|HEAD| + 1);
    assert SerializeResult(bufsize, false, chain, true) == Chain(r0, chain, true);
    var remain: nat := bufsize - 1;
    var d: nat := Emit(pbuf, 0, 0, bufsize - 2, HEAD, []);
    remain := remain - (|HEAD| + 1);
    assert remain == r0 && pbuf[bufsize - 2..] == tail;
    ghost var headed := pbuf[..];
    result, d, remain := ChainOut(pbuf, d, remain, chain);
    if result != 0 {
      return;
    }
    ChainSucceeded(r0, chain);
    assert d + remain == bufsize - 2 && remain >= 2;
    assert pbuf[bufsize - 2..] == tail;
    ghost var text := pbuf[..d];
    Appended(pbuf[..], headed, 0, |HEAD|, d, HEAD);
    assert text == HEAD + Pairs(chain);
    ghost var b0 := pbuf[..];
    pbuf[d] := 0;
    remain := remain - 1;
    NulAfterText(pbuf[..], b0, d, bufsize - 2, text);
  }

  /** The NUL stored at d ends the text before it and leaves everything from e on alone. */
  lemma NulAfterText(now: seq<byte>, before: seq<byte>, d: nat, e: nat, text: seq<byte>)
    requires d < e <= |before| && now == before[d := 0] && before[..d] == text
    ensures now[..d + 1] == text + [0] && now[e..] == before[e..]
  {
    assert now[..d + 1] == before[..d] + [0];
  }

  // ---------------------------------------------------------------------------------------
  // The parser
  //
  // The input of deserialize_json is read-only: the parser's methods take its C string s, and
  // *walk_ptr at cursor i reads At(s, i), the NUL at i == |s|.

  /** skip_spaces (Core/Src/json/json.c:47-52): the cursor i moved past whitespace. */
  method SkipSpaces(s: seq<byte>, i: nat) returns (j: nat)
    requires i <= |s|
    ensures j == SkipWs(s, i)
  {
    j := i;
    while IsWs(At(s, j))
      invariant i <= j <= |s| && SkipWs(s, i) == SkipWs(s, j)
      decreases |s| - j
    {
      j := j + 1;
    }
  }

  /**
   * decode_enum (Core/Src/json/json.c:59-95): the literal at i, and the cursor past it; on a
   * mismatch jpad, with the cursor where the comparison stopped.
   */
  method DecodeEnum(s: seq<byte>, i: nat) returns (e: JEnum, j: nat)
    requires i <= |s| && NulFree(s)
    ensures e == DecodeEnumSpec(s, i).0
    ensures e != JPad ==> j == DecodeEnumSpec(s, i).1
  {
    e := EnumByFirst(At(s, i));
    j := i;
    if e == JPad {
      return;
    }
    var pattern := EnumText(e);
    var k := 0;
    while k < |pattern|
      invariant 0 <= k <= |pattern| && j == i + k && j <= |s|
      invariant s[i..j] == pattern[..k]
    {
      var c := At(s, j);
      if c == 0 || c != pattern[k] {
        StartsWithAt(s, i, pattern, k);
        return JPad, j;
      }
      assert s[i..j + 1] == s[i..j] + [s[j]];
      j := j + 1;
      k := k + 1;
    }
  }

  /**
   * check_esc (Core/Src/json/json.c:340-371) for the backslash at i of the string t of len
   * bytes, with the hex digits of a \u escape tested after the 'u'.
   */
  method CheckEsc(t: seq<byte>, i: nat, len: nat) returns (r: nat)
    requires i + 1 < len == |t|
    ensures r == EscLen(t, i, len)
  {
    var k := i + 1;
    var sym := t[k];
    if SingleEscape(sym) {
      return 1;
    }
    r := 0;
    if sym == 0x75 && k + 4 < len {
      var digits := t[k + 1..k + 5];
      var ok := IsHex(digits, 4);
      assert forall j :: k + 1 <= j < k + 5 ==> t[j] == digits[j - k - 1];
      if ok {
        r := 4;
      }
    }
  }

  /**
   * get_jstrlen (Core/Src/json/json.c:378-427) on the C string s[p..]: the length of the JSON
   * string before its closing quotation mark, or 0.
   */
  method GetJStrLen(s: seq<byte>, p: nat) returns (r: nat)
    requires p <= |s| && NulFree(s)
    ensures r == JStrLen(s[p..])
  {
    var t := s[p..];
    var len1 := StrLen(t);
    StrLenOfNulFree(t);
    r := 0;
    if len1 == 0 || len1 == MAXJSONSTRING {
      return;
    }
    var i := 0;
    while i < len1
      invariant i <= len1 && ScanFrom(t, i) == ScanFrom(t, 0)
      decreases len1 - i
    {
      var c := t[i];
      if c < 0x20 {
        break;
      }
      if c == BACKSLASH {
        if i == len1 - 1 {
          return;
        }
        var e := CheckEsc(t, i, len1);
        if e == 0 {
          return;
        }
        i := i + e;
      } else if c == QUOTE {
        return i;
      }
      i := i + 1;
    }
  }

  /**
   * json_obj_t as deserialize_json fills it: the value type, the literal, and the buffers
   * that pjname and jvalsz point to.
   */
  class JsonDst {
    var valType: JValType
    var en: JEnum
    const name: array<byte>
    const sz: array<byte>

    constructor (nameBuf: array<byte>, szBuf: array<byte>)
      ensures name == nameBuf && sz == szBuf && valType == JValPad && en == JPad
    {
      name, sz := nameBuf, szBuf;
      valType, en := JValPad, JPad;
    }
  }

  /** The memcpy of a JSON string into a destination buffer, and the NUL after it. */
  method CopyString(dst: array<byte>, str: seq<byte>)
    requires |str| < dst.Length && NulFree(str)
    modifies dst
    ensures CStr(dst[..]) == str
  {
    CopyIn(dst, 0, str);
    dst[|str|] := 0;
    assert dst[..] == dst[..|str|] + dst[|str|..];
    StrLenOfTerminated(dst[..|str|], dst[|str|..]);
  }

  /**
   * The value part of deserialize_json (Core/Src/json/json.c:591-647) from the cursor i: a
   * literal or a string into dst, then the check for '}' or ','.
   */
  method DeserializeValue(s: seq<byte>, i: nat, dst: JsonDst, ghost name: seq<byte>) returns (result: u32)
    requires i <= |s| && NulFree(s) && |s| < dst.sz.Length
    modifies dst, dst.sz
    ensures var pr := ParseValue(s, i, name);
      && (result == 0 <==> pr.JPair?)
      && (pr.JFail? ==> result == pr.code)
      && (pr.JPair? && pr.value.VStr? ==> dst.valType == JValSz && CStr(dst.sz[..]) == pr.value.s)
      && (pr.JPair? && pr.value.VEnum? ==> dst.valType == JValEnum && dst.en == pr.value.e)
  {
    var j := i;
    if At(s, j) != QUOTE {
      var e;
      e, j := DecodeEnum(s, j);
      if e == JPad {
        return JSON_ERR_BADENUM;
      }
      dst.valType := JValEnum;
      dst.en := e;
    } else {
      j := j + 1;
      var m := GetJStrLen(s, j);
      if m == 0 {
        return JSON_ERR_BADSTRING;
      }
      dst.valType := JValSz;
      CopyString(dst.sz, s[j..j + m]);
      j := j + m;
      assert At(s, j) == QUOTE;
      j := j + 1;
    }
    j := SkipSpaces(s, j);
    if At(s, j) != RBRACE && At(s, j) != COMMA {
      return JSON_ERR_BADTRAIL;
    }
    result := 0;
  }

  /**
   * deserialize_json up to the value (Core/Src/json/json.c:536-589): the outcome of ParseHead,
   * with the name copied into name.
   */
  method DeserializeHead(s: seq<byte>, name: array<byte>) returns (result: u32, i: nat)
    requires NulFree(s) && |s| < name.Length
    modifies name
    ensures var h := ParseHead(s);
      && (result == 0 <==> h.HeadOk?)
      && (h.HeadFail? ==> result == h.code)
      && (h.HeadOk? ==> i == h.cursor && CStr(name[..]) == h.name)
  {
    var ok;
    ok, i := SeekName(s);
    if !ok {
      return JSON_ERR_OBSTART, i;
    }
    result, i := NameToValue(s, i, name);
  }

  /** The start of deserialize_json (Core/Src/json/json.c:536-551): ws '{' ws '"'. */
  method SeekName(s: seq<byte>) returns (ok: bool, i: nat)
    ensures ok <==> OpenName(s).Some?
    ensures ok ==> i == OpenName(s).value
  {
    i := SkipSpaces(s, 0);
    if At(s, i) != LBRACE {
      return false, i;
    }
    i := SkipSpaces(s, i + 1);
    if At(s, i) != QUOTE {
      return false, i;
    }
    return true, i + 1;
  }

  /**
   * The name and the colon in deserialize_json (Core/Src/json/json.c:553-589) from the cursor
   * i: the outcome of NameColon, with the name copied into name.
   */
  method NameToValue(s: seq<byte>, i: nat, name: array<byte>) returns (result: u32, j: nat)
    requires i <= |s| && NulFree(s) && |s| < name.Length
    modifies name
    ensures var h := NameColon(s, i);
      && (result == 0 <==> h.HeadOk?)
      && (h.HeadFail? ==> result == h.code)
      && (h.HeadOk? ==> j == h.cursor && CStr(name[..]) == h.name)
  {
    j := i;
    var n := GetJStrLen(s, j);
    if n == 0 {
      return JSON_ERR_BADSTRING, j;
    }
    CopyString(name, s[j..j + n]);
    j := j + n;
    assert At(s, j) == QUOTE;
    j := SkipSpaces(s, j + 1);
    if At(s, j) != COLON {
      return JSON_ERR_BADSTRING, j;
    }
    j := SkipSpaces(s, j + 1);
    result := 0;
  }

  /**
   * The pair of deserialize_json (Core/Src/json/json.c:536-647) in the C string s: the result
   * code of ParseJson once the payload size has matched, the name, the value type and the
   * string or literal in dst.
   */
  method DeserializePair(s: seq<byte>, dst: JsonDst) returns (result: u32)
    requires NulFree(s) && dst.name != dst.sz && |s| < dst.name.Length && |s| < dst.sz.Length
    modifies dst, dst.name, dst.sz
    ensures var pr := ParseJson(s, |s|);
      && (result == 0 <==> pr.JPair?)
      && (pr.JFail? ==> result == pr.code)
      && (pr.JPair? ==> CStr(dst.name[..]) == pr.name)
      && (pr.JPair? && pr.value.VStr? ==> dst.valType == JValSz && CStr(dst.sz[..]) == pr.value.s)
      && (pr.JPair? && pr.value.VEnum? ==> dst.valType == JValEnum && dst.en == pr.value.e)
  {
    var i;
    result, i := DeserializeHead(s, dst.name);
    if result != 0 {
      return;
    }
    result := DeserializeValue(s, i, dst, ParseHead(s).name);
  }

  /**
   * deserialize_json (Core/Src/json/json.c:526-647) on the NUL-terminated input pbuf: the
   * result code of ParseJson, and on success the name, the value type and the string or
   * literal in dst. The destination buffers must hold the longest string the input can carry.
   */
  method DeserializeJson(pbuf: seq<byte>, payloadSize: nat, dst: JsonDst) returns (result: u32)
    requires Terminated(pbuf)
    requires dst.name != dst.sz
    requires StrLen(pbuf) < dst.name.Length && StrLen(pbuf) < dst.sz.Length
    modifies dst, dst.name, dst.sz
    ensures var pr := ParseJson(CStr(pbuf), payloadSize);
      && (result == 0 <==> pr.JPair?)
      && (pr.JFail? ==> result == pr.code)
      && (pr.JPair? ==> CStr(dst.name[..]) == pr.name)
      && (pr.JPair? && pr.value.VStr? ==> dst.valType == JValSz && CStr(dst.sz[..]) == pr.value.s)
      && (pr.JPair? && pr.value.VEnum? ==> dst.valType == JValEnum && dst.en == pr.value.e)
  {
    var slen := StrLen(pbuf);
    if slen != payloadSize {
      return JSON_ERR_MISC;
    }
    result := DeserializePair(pbuf[..slen], dst);
  }

  // ---------------------------------------------------------------------------------------
  // Round trips

  predicate AllPlain(s: seq<byte>)
  {
    forall k :: 0 <= k < |s| ==> Plain(s[k])
  }

  /** The text of a single pair carries no NUL, so the C string read back is the whole of it. */
  lemma SinglePairCStr(o: JsonObj)
    requires WellFormed(o) && AllPlain(o.name.value) && (o.valType == JValSz ==> AllPlain(o.sz.value))
    ensures AllWellFormed([o]) && CStr(Render([o])) == HEAD + Pairs([o])
  {
    var text := HEAD + Pairs([o]);
    assert AllWellFormed([o]);
    assert forall k :: 0 <= k < |text| ==> text[k] != 0 by {
      if o.valType == JValEnum {
        assert NulFree(EnumText(o.en));
      }
    }
    StrLenOfTerminated(text, [0]);
  }

  /** Text that opens with '{"' has its name from index 2. */
  lemma OpenNameAt(r: seq<byte>)
    ensures OpenName(HEAD + r) == Some(2)
  {
    var s := HEAD + r;
    assert s[0] == LBRACE && s[1] == QUOTE;
    assert SkipWs(s, 0) == 0 && SkipWs(s, 1) == 1;
  }

  /** A plain name in quotation marks and a colon, with no whitespace, are read as they are. */
  lemma NameColonAt(pre: seq<byte>, n: seq<byte>, rest: seq<byte>)
    requires |n| > 0 && AllPlain(n) && |rest| > 0 && !IsWs(rest[0])
    requires |n| + 2 + |rest| != MAXJSONSTRING
    ensures NameColon(pre + n + [QUOTE, COLON] + rest, |pre|) == HeadOk(|pre| + |n| + 2, n)
  {
    var s := pre + n + [QUOTE, COLON] + rest;
    var p := |pre|;
    var t := s[p..];
    assert t == n + [QUOTE, COLON] + rest;
    assert forall j :: 0 <= j < |n| ==> t[j] == n[j];
    ScanPlain(t, 0, |n|);
    assert s[p..p + |n|] == n;
    assert s[p + |n| + 1] == COLON && s[p + |n| + 2] == rest[0];
    assert SkipWs(s, p + |n| + 1) == p + |n| + 1;
    assert SkipWs(s, p + |n| + 2) == p + |n| + 2;
  }

  /** A plain string value in quotation marks, then '}', is read as it is. */
  lemma StringValueAt(pre: seq<byte>, v: seq<byte>, name: seq<byte>)
    requires |v| > 0 && AllPlain(v) && |v| + 2 != MAXJSONSTRING
    ensures ParseValue(pre + [QUOTE] + v + [QUOTE, RBRACE], |pre|, name) == JPair(name, VStr(v))
  {
    var s := pre + [QUOTE] + v + [QUOTE, RBRACE];
    var i := |pre|;
    var t := s[i + 1..];
    assert t == v + [QUOTE, RBRACE];
    assert forall j :: 0 <= j < |v| ==> t[j] == v[j];
    ScanPlain(t, 0, |v|);
    assert s[i] == QUOTE && s[i + 1..i + 1 + |v|] == v && s[i + 2 + |v|] == RBRACE;
    assert SkipWs(s, i + 2 + |v|) == i + 2 + |v|;
  }

  /** A literal, then '}', is read as it is. */
  lemma LiteralValueAt(pre: seq<byte>, e: JEnum, name: seq<byte>)
    requires e != JPad
    ensures ParseValue(pre + EnumText(e) + [RBRACE], |pre|, name) == JPair(name, VEnum(e))
  {
    var s := pre + EnumText(e) + [RBRACE];
    var i := |pre|;
    var l := |EnumText(e)|;
    assert s[i..i + l] == EnumText(e) && s[i + l] == RBRACE;
    assert s[i] == EnumText(e)[0];
    assert DecodeEnumSpec(s, i) == (e, i + l);
    assert SkipWs(s, i + l) == i + l;
  }

  /** deserialize_json reads '{"' name '":"' value '"}' as the pair of name and the string value. */
  lemma ParsesStringPair(s: seq<byte>, n: seq<byte>, v: seq<byte>)
    requires |n| > 0 && |v| > 0 && AllPlain(n) && AllPlain(v)
    requires |n| + |v| + 5 != MAXJSONSTRING && |v| + 2 != MAXJSONSTRING
    requires s == HEAD + n + [QUOTE, COLON] + ([QUOTE] + v + [QUOTE, RBRACE])
    ensures ParseJson(s, |s|) == JPair(n, VStr(v))
  {
    var value := [QUOTE] + v + [QUOTE, RBRACE];
    assert ParseHead(s) == HeadOk(4 + |n|, n) by {
      OpenNameAt(n + [QUOTE, COLON] + value);
      assert HEAD + (n + [QUOTE, COLON] + value) == s;
      NameColonAt(HEAD, n, value);
    }
    assert s == HEAD + n + [QUOTE, COLON] + [QUOTE] + v + [QUOTE, RBRACE];
    StringValueAt(HEAD + n + [QUOTE, COLON], v, n);
  }

  /** deserialize_json reads '{"' name '":' literal '}' as the pair of name and the literal. */
  lemma ParsesLiteralPair(s: seq<byte>, n: seq<byte>, e: JEnum)
    requires |n| > 0 && AllPlain(n) && e != JPad
    requires |n| + |EnumText(e)| + 3 != MAXJSONSTRING
    requires s == HEAD + n + [QUOTE, COLON] + (EnumText(e) + [RBRACE])
    ensures ParseJson(s, |s|) == JPair(n, VEnum(e))
  {
    var value := EnumText(e) + [RBRACE];
    assert ParseHead(s) == HeadOk(4 + |n|, n) by {
      OpenNameAt(n + [QUOTE, COLON] + value);
      assert HEAD + (n + [QUOTE, COLON] + value) == s;
      assert value[0] == EnumText(e)[0];
      NameColonAt(HEAD, n, value);
    }
    assert s == HEAD + n + [QUOTE, COLON] + EnumText(e) + [RBRACE];
    LiteralValueAt(HEAD + n + [QUOTE, COLON], e, n);
  }

  /**
   * serialize_json then deserialize_json on one string pair gives back its name and value,
   * when neither holds a quotation mark, a backslash or a control character and neither C
   * string that get_jstrlen measures is exactly MAXJSONSTRING long.
   */
  lemma RoundTripString(n: seq<byte>, v: seq<byte>)
    requires |n| > 0 && |v| > 0 && AllPlain(n) && AllPlain(v)
    requires |n| + |v| + 5 != MAXJSONSTRING && |v| + 2 != MAXJSONSTRING
    ensures var o := JsonObj(JValSz, Some(n), Some(v), JPad);
      && WellFormed(o) && AllWellFormed([o])
      && ParseJson(CStr(Render([o])), |Render([o])| - 1) == JPair(n, VStr(v))
  {
    var o := JsonObj(JValSz, Some(n), Some(v), JPad);
    SinglePairCStr(o);
    var text := HEAD + Pairs([o]);
    assert text == HEAD + n + [QUOTE, COLON] + ([QUOTE] + v + [QUOTE, RBRACE]);
    ParsesStringPair(text, n, v);
  }

  /**
   * serialize_json then deserialize_json on one literal pair gives back its name and literal,
   * when the name holds no quotation mark, backslash or control character and the C string
   * that get_jstrlen measures is not exactly MAXJSONSTRING long.
   */
  lemma RoundTripEnum(n: seq<byte>, e: JEnum)
    requires |n| > 0 && AllPlain(n) && e != JPad
    requires |n| + |EnumText(e)| + 3 != MAXJSONSTRING
    ensures var o := JsonObj(JValEnum, Some(n), None, e);
      && WellFormed(o) && AllWellFormed([o])
      && ParseJson(CStr(Render([o])), |Render([o])| - 1) == JPair(n, VEnum(e))
  {
    var o := JsonObj(JValEnum, Some(n), None, e);
    SinglePairCStr(o);
    var text := HEAD + Pairs([o]);
    assert text == HEAD + n + [QUOTE, COLON] + (EnumText(e) + [RBRACE]);
    ParsesLiteralPair(text, n, e);
  }
}
