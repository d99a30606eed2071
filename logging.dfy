// The central logging filter (logging.c). A message level is a bit; current_mask holds the
// levels switched on, and a message is written only when its level shares a bit with the mask.
// Bit 31 of a level is never looked at.

module LogLevels {
  /** the MSG_LEVEL values of logging.h */
  const MSG_LEVEL_FATAL: bv32 := 1
  const MSG_LEVEL_SERIOUS: bv32 := 2
  const MSG_LEVEL_PROC_ERR: bv32 := 4
  const MSG_LEVEL_INFO: bv32 := 8
  const MSG_LEVEL_EXT_INF: bv32 := 16
  const MSG_LEVEL_TASK_INIT: bv32 := 32
  const MSG_LEVEL_ALL: bv32 := 0x7FFF_FFFF

  /** the low 31 bits every mask operation keeps of a level */
  const LOW_31: bv32 := 0x7FFF_FFFF

  /** reqLevel: the level with bit 31 dropped */
  function Requested(lvl: bv32): bv32
  {
    lvl & LOW_31
  }

  /** whether a level passes a mask */
  predicate Passes(mask: bv32, lvl: bv32)
  {
    mask & Requested(lvl) != 0
  }

  /** the mask after log_set_mask_on(lvl) */
  function MaskOn(mask: bv32, lvl: bv32): bv32
  {
    mask | Requested(lvl)
  }

  /** the mask after log_set_mask_off(lvl) */
  function MaskOff(mask: bv32, lvl: bv32): bv32
  {
    mask & !Requested(lvl)
  }

  /** No level passes the mask the firmware starts with (logging.c:12). */
  lemma NothingPassesInitially(lvl: bv32)
    ensures !Passes(0, lvl)
  {
  }

  /** After log_set_mask_on(lvl), lvl passes exactly when its low 31 bits are not all 0. */
  lemma OnEnables(mask: bv32, lvl: bv32)
    ensures Passes(MaskOn(mask, lvl), lvl) <==> Requested(lvl) != 0
  {
    assert MaskOn(mask, lvl) & Requested(lvl) == Requested(lvl);
  }
  /** Switching a level on keeps every level that passed passing. */
  lemma OnKeepsPassing(mask: bv32, lvl: bv32, other: bv32)
    requires Passes(mask, other)
    ensures Passes(MaskOn(mask, lvl), other)
  {
  }

  /** Switching a level on or off leaves the bits outside the level unchanged. */
  lemma SwitchKeepsOtherBits(mask: bv32, lvl: bv32)
    ensures MaskOn(mask, lvl) & !Requested(lvl) == mask & !Requested(lvl)
    ensures MaskOff(mask, lvl) & !Requested(lvl) == mask & !Requested(lvl)
  {
  }

  /** After log_set_mask_off(lvl), lvl no longer passes. */
  lemma OffDisables(mask: bv32, lvl: bv32)
    ensures !Passes(MaskOff(mask, lvl), lvl)
  {
  }

  /** Switching a level off leaves a level that shares no bit with it as it was. */
  lemma OffKeepsDisjoint(mask: bv32, lvl: bv32, other: bv32)
    requires Requested(lvl) & Requested(other) == 0
    ensures Passes(MaskOff(mask, lvl), other) <==> Passes(mask, other)
  {
    assert MaskOff(mask, lvl) == mask & !Requested(lvl);
    assert (mask & !Requested(lvl)) & Requested(other) == mask & Requested(other);
  }
  /** Bit 31 is ignored by the filter: lvl and lvl | 0x80000000 pass alike. */
  lemma TopBitNotFiltered(mask: bv32, lvl: bv32)
    ensures Passes(mask, lvl) <==> Passes(mask, lvl | 0x8000_0000)
  {
    assert Requested(lvl) == Requested(lvl | 0x8000_0000);
  }

  /** Bit 31 is ignored when switching on: lvl and lvl | 0x80000000 set the same bits. */
  lemma TopBitNotSwitchedOn(mask: bv32, lvl: bv32)
    ensures MaskOn(mask, lvl) == MaskOn(mask, lvl | 0x8000_0000)
  {
    assert Requested(lvl) == Requested(lvl | 0x8000_0000);
  }

  /** Bit 31 is ignored when switching off: lvl and lvl | 0x80000000 clear the same bits. */
  lemma TopBitNotSwitchedOff(mask: bv32, lvl: bv32)
    ensures MaskOff(mask, lvl) == MaskOff(mask, lvl | 0x8000_0000)
  {
    assert Requested(lvl) == Requested(lvl | 0x8000_0000);
  }

  /** The mask never gains bit 31. */
  lemma MaskStaysLow(mask: bv32, lvl: bv32)
    requires mask & 0x8000_0000 == 0
    ensures MaskOn(mask, lvl) & 0x8000_0000 == 0 && MaskOff(mask, lvl) & 0x8000_0000 == 0
  {
  }

  /** MSG_LEVEL_ALL switched on lets every level through. */
  lemma AllOn(mask: bv32, lvl: bv32)
    requires Requested(lvl) != 0
    ensures Passes(MaskOn(mask, MSG_LEVEL_ALL), lvl)
  {
  }

  /** MSG_LEVEL_ALL switched off stops every level. */
  lemma AllOff(mask: bv32, lvl: bv32)
    ensures !Passes(MaskOff(mask, MSG_LEVEL_ALL), lvl)
  {
  }

  /** Switching a level on twice has the same effect as once. */
  lemma OnIdempotent(mask: bv32, lvl: bv32)
    ensures MaskOn(MaskOn(mask, lvl), lvl) == MaskOn(mask, lvl)
  {
  }

  /** Switching a level off twice has the same effect as once. */
  lemma OffIdempotent(mask: bv32, lvl: bv32)
    ensures MaskOff(MaskOff(mask, lvl), lvl) == MaskOff(mask, lvl)
  {
  }

  /** Switching a level that was off on and then off again gives the mask back. */
  lemma OnThenOff(mask: bv32, lvl: bv32)
    requires mask & Requested(lvl) == 0
    ensures MaskOff(MaskOn(mask, lvl), lvl) == mask
  {
  }
}

// The console output of one message: colour changes, strings and characters, in order.
module LogOutput {
  import opened LogLevels

  /** the terminal colours sel_color picks */
  datatype Colour = BoldRed | BoldYellow | BoldMagenta | BoldGreen

  /** what log_xputs hands to the console, in order */
  datatype Out = TextColour(c: Colour) | Puts(s: string) | Putc(ch: char) | ResetToDefaults

  /** sel_color (logging.c:69-91): a colour for the four named severe-to-info levels only */
  function SelColour(lvl: bv32): (r: seq<Out>)
    ensures |r| <= 1
    ensures |r| == 1 <==> lvl == MSG_LEVEL_FATAL || lvl == MSG_LEVEL_SERIOUS
                          || lvl == MSG_LEVEL_PROC_ERR || lvl == MSG_LEVEL_INFO
    ensures |r| == 1 ==> r[0].TextColour?
  {
    if lvl == MSG_LEVEL_FATAL then [TextColour(BoldRed)]
    else if lvl == MSG_LEVEL_SERIOUS then [TextColour(BoldYellow)]
    else if lvl == MSG_LEVEL_PROC_ERR then [TextColour(BoldMagenta)]
    else if lvl == MSG_LEVEL_INFO then [TextColour(BoldGreen)]
    else []
  }

  /** log_current_task_name (logging.c:61-67): the task's name and " : ", once the scheduler runs */
  function TaskName(schedulerStarted: bool, name: string): seq<Out>
  {
    if schedulerStarted then [Puts(name), Puts(" : ")] else []
  }

  /** the characters one piece of console output writes; colour changes write none */
  function Chars(o: Out): string
  {
    match o
    case Puts(s) => s
    case Putc(c) => [c]
    case _ => []
  }

  /** the characters a stream of console output writes */
  function Text(out: seq<Out>): string
  {
    if |out| == 0 then [] else Chars(out[0]) + Text(out[1..])
  }

  /** Text of a concatenation is the concatenation of the texts. */
  lemma {:induction false} TextAppend(a: seq<Out>, b: seq<Out>)
    ensures Text(a + b) == Text(a) + Text(b)
  {
    if |a| > 0 {
      assert (a + b)[0] == a[0];
      assert (a + b)[1..] == a[1..] + b;
      TextAppend(a[1..], b);
      calc {
        Text(a + b);
        Chars(a[0]) + Text(a[1..] + b);
        Chars(a[0]) + (Text(a[1..]) + Text(b));
        (Chars(a[0]) + Text(a[1..])) + Text(b);
      }
    } else {
      assert a + b == b;
    }
  }

  /** A single piece of output writes its own characters. */
  lemma TextSingle(o: Out)
    ensures Text([o]) == Chars(o)
  {
    assert [o][1..] == [];
  }

  /**
   * the console output of a message that passes the filter: the level's colour, the task
   * prefix, the text and a new line, and the colours reset
   */
  function Message(lvl: bv32, str: string, schedulerStarted: bool, name: string): seq<Out>
  {
    SelColour(lvl) + TaskName(schedulerStarted, name) + [Puts(str), Putc('\n'), ResetToDefaults]
  }

  /**
   * A message writes "<task> : " (once the scheduler runs), the text and a new line; colour
   * changes write nothing.
   */
  lemma MessageText(lvl: bv32, str: string, schedulerStarted: bool, name: string)
    ensures Text(Message(lvl, str, schedulerStarted, name))
            == (if schedulerStarted then name + " : " else "") + str + "\n"
  {
    var colour, task := SelColour(lvl), TaskName(schedulerStarted, name);
    var tail := [Puts(str), Putc('\n'), ResetToDefaults];
    var prefix := if schedulerStarted then name + " : " else "";
    ColourText(lvl);
    TaskText(schedulerStarted, name);
    TailText(str);
    TextAppend(colour, task);
    assert Text(colour + task) == prefix by {
      assert [] + prefix == prefix;
    }
    TextAppend(colour + task, tail);
    ConcatAssoc(prefix, str, "\n");
  }

  lemma ConcatAssoc<T>(a: seq<T>, b: seq<T>, c: seq<T>)
    ensures a + (b + c) == a + b + c
  {
  }

  /** A message starts with the level's colour, if any, and ends by resetting the colours. */
  lemma MessageShape(lvl: bv32, str: string, schedulerStarted: bool, name: string)
    ensures var m := Message(lvl, str, schedulerStarted, name);
            m[0..|SelColour(lvl)|] == SelColour(lvl) && m[|m| - 1] == ResetToDefaults
  {
  }

  lemma ColourText(lvl: bv32)
    ensures Text(SelColour(lvl)) == []
  {
    if |SelColour(lvl)| == 1 {
      TextSingle(SelColour(lvl)[0]);
    }
  }

  lemma TaskText(schedulerStarted: bool, name: string)
    ensures Text(TaskName(schedulerStarted, name)) == (if schedulerStarted then name + " : " else "")
  {
    if schedulerStarted {
      TextAppend([Puts(name)], [Puts(" : ")]);
      TextSingle(Puts(name));
      TextSingle(Puts(" : "));
    }
  }

  lemma TailText(str: string)
    ensures Text([Puts(str), Putc('\n'), ResetToDefaults]) == str + "\n"
  {
    TextAppend([Puts(str)], [Putc('\n'), ResetToDefaults]);
    TextAppend([Putc('\n')], [ResetToDefaults]);
    TextSingle(Puts(str));
    TextSingle(Putc('\n'));
    TextSingle(ResetToDefaults);
  }
}

// The module variable current_mask and the functions that read and write it.
module Logging {
  import opened LogLevels
  import opened LogOutput

  /** the module variable current_mask */
  class Log {
    var currentMask: bv32

    /** current_mask starts at 0 (logging.c:12) */
    constructor()
      ensures currentMask == 0
    {
      currentMask := 0;
    }

    /** filterIsPassed (logging.c:20-24): whether a level passes the current mask */
    function FilterIsPassed(lvl: bv32): (passed: bool)
      reads this
      ensures passed <==> Passes(currentMask, lvl)
      ensures Requested(lvl) == 0 ==> !passed
      ensures Requested(lvl) != 0 && currentMask & Requested(lvl) == Requested(lvl) ==> passed
    {
      Passes(currentMask, lvl)
    }

    /** log_set_mask_on (logging.c:30-34) */
    method SetMaskOn(lvl: bv32)
      modifies this
      ensures currentMask == MaskOn(old(currentMask), lvl)
    {
      currentMask := currentMask | (lvl & 0x7FFF_FFFF);
    }

    /** log_set_mask_off (logging.c:40-44) */
    method SetMaskOff(lvl: bv32)
      modifies this
      ensures currentMask == MaskOff(old(currentMask), lvl)
    {
      currentMask := currentMask & !(lvl & 0x7FFF_FFFF);
    }

    /**
     * log_xputs (logging.c:98-108), given whether the scheduler runs and the name of the
     * calling task: the whole message when the level passes the filter, and nothing otherwise.
     */
    method LogXputs(lvl: bv32, str: string, schedulerStarted: bool, name: string)
      returns (out: seq<Out>)
      ensures !Passes(currentMask, lvl) ==> out == []
      ensures Passes(currentMask, lvl) ==> out == Message(lvl, str, schedulerStarted, name)
    {
      if !FilterIsPassed(lvl) {
        return [];
      }
      out := SelColour(lvl) + TaskName(schedulerStarted, name) + [Puts(str), Putc('\n'), ResetToDefaults];
    }
  }
}
