// The software side of the independent watchdog (watchdog.c). Every task that wants watching
// registers a bit position in magic_mask; magic_bits holds the positions still owed in the
// current round. Each task clears its own bit with i_am_alive, and the hardware watchdog is
// reloaded only when the last owed bit is cleared, which starts the next round.

module Watchdog {
  import opened Common

  /** the single-bit word 0x01U << pos */
  function Bit(pos: bv32): bv32
    requires pos <= 31
  {
    1 << pos
  }

  /** whether a word owes the report of position pos: magic_bits & (0x01U << pos) */
  predicate Owes(bits: bv32, pos: bv32)
    requires pos <= 31
  {
    bits & Bit(pos) != 0
  }

  /** the word with position pos cleared: magic_bits & ~(0x01U << pos) */
  function Cleared(bits: bv32, pos: bv32): bv32
    requires pos <= 31
  {
    bits & !Bit(pos)
  }

  /** the word with position pos set: magic_mask | (0x01U << pos) */
  function Added(mask: bv32, pos: bv32): bv32
    requires pos <= 31
  {
    mask | Bit(pos)
  }

  /** the bit positions a task may use: 1 to 31 */
  predicate ValidMagic(magic: bv32)
  {
    1 <= magic <= 31
  }

  /**
   * The watchdog's statics, with the effects on the hardware: the number of IWDG reloads so far
   * and the last value written to the RTC backup register WDT_REG.
   */
  datatype State = State(bits: bv32, mask: bv32, refreshes: nat, backup: bv32)

  /** Owed bits are registered ones, and bit 0 is never registered. */
  predicate Consistent(st: State)
  {
    st.bits & !st.mask == 0 && st.mask & 1 == 0
  }

  /** the state after register_magic(pos): the position added to the mask, and a new round */
  function Register(st: State, pos: bv32): State
  {
    if !ValidMagic(pos) then st
    else st.(mask := Added(st.mask, pos), bits := Added(st.mask, pos))
  }

  /**
   * the state after i_am_alive(magic): an owed bit is cleared and the rest saved in the backup
   * register; clearing the last one reloads the watchdog and starts a new round. A bad or
   * not-owed position changes nothing.
   */
  function Alive(st: State, magic: bv32): State
  {
    if !ValidMagic(magic) || !Owes(st.bits, magic) then st
    else
      var b := Cleared(st.bits, magic);
      if b == 0 then st.(bits := st.mask, backup := b, refreshes := st.refreshes + 1)
      else st.(bits := b, backup := b)
  }

  /** the state after start_iwdt: a new round owing every registered bit */
  function Start(st: State): State
  {
    st.(bits := st.mask)
  }

  /** the reports of a sequence of i_am_alive calls, in order */
  function Run(st: State, ms: seq<bv32>): State
    decreases |ms|
  {
    if |ms| == 0 then st else Run(Alive(st, ms[0]), ms[1..])
  }

  /** Registering keeps the owed bits inside the mask and bit 0 out of it. */
  lemma RegisterConsistent(st: State, m: bv32)
    requires Consistent(st)
    ensures Consistent(Register(st, m))
  {
    if ValidMagic(m) {
      AddedInside(st.mask, m);
    }
  }

  /** Starting the watchdog keeps the owed bits inside the mask and bit 0 out of it. */
  lemma StartConsistent(st: State)
    requires Consistent(st)
    ensures Consistent(Start(st))
  {
    ClearedInside(st.bits, st.mask, 0);
  }

  /** Reporting keeps the owed bits inside the mask and bit 0 out of it. */
  lemma AliveConsistent(st: State, m: bv32)
    requires Consistent(st)
    ensures Consistent(Alive(st, m))
  {
    var r := Alive(st, m);
    assert r.mask == st.mask;
    if ValidMagic(m) && Owes(st.bits, m) {
      ClearedInside(st.bits, st.mask, m);
      if Cleared(st.bits, m) == 0 {
        assert r.bits == st.mask;
      } else {
        assert r.bits == Cleared(st.bits, m);
      }
    } else {
      assert r == st;
    }
  }

  lemma AddedInside(mask: bv32, m: bv32)
    requires 1 <= m <= 31 && mask & 1 == 0
    ensures Added(mask, m) & 1 == 0 && Added(mask, m) & !Added(mask, m) == 0
  {
  }

  lemma ClearedInside(bits: bv32, mask: bv32, m: bv32)
    requires m <= 31 && bits & !mask == 0
    ensures Cleared(bits, m) & !mask == 0 && mask & !mask == 0
  {
  }

  /** Registering a position makes it owed, keeps the other registrations, and owes every one. */
  lemma RegisterOwes(st: State, pos: bv32)
    requires ValidMagic(pos)
    ensures var r := Register(st, pos);
            Owes(r.mask, pos) && r.bits == r.mask && r.mask & st.mask == st.mask
            && r.refreshes == st.refreshes
  {
    AddedKeeps(st.mask, pos);
  }

  lemma AddedKeeps(mask: bv32, pos: bv32)
    requires pos <= 31
    ensures Owes(Added(mask, pos), pos) && Added(mask, pos) & mask == mask
  {
  }

  /** A report clears the reporter's bit only: every other owed bit stays owed. */
  lemma AliveClearsOwnBit(st: State, m: bv32, p: bv32)
    requires ValidMagic(m) && 1 <= p <= 31 && p != m
    requires Owes(st.bits, p)
    ensures Owes(Alive(st, m).bits, p) && Alive(st, m).refreshes == st.refreshes
  {
    BitsDiffer(st.bits, m, p);
    if Owes(st.bits, m) {
      assert Cleared(st.bits, m) != 0;
      assert Alive(st, m).bits == Cleared(st.bits, m);
    }
  }

  /** Clearing one position leaves every other position as it was. */
  lemma BitsDiffer(x: bv32, m: bv32, p: bv32)
    requires m <= 31 && p <= 31 && p != m
    ensures Owes(Cleared(x, m), p) == Owes(x, p)
  {
    assert Bit(p) & !Bit(m) == Bit(p);
  }

  /** A cleared position is no longer owed. */
  lemma ClearedNotOwed(x: bv32, m: bv32)
    requires m <= 31
    ensures !Owes(Cleared(x, m), m)
  {
  }

  /** The last owed report reloads the watchdog and owes every registered bit again. */
  lemma LastReportRefreshes(st: State, p: bv32)
    requires ValidMagic(p) && st.bits == Bit(p)
    ensures Alive(st, p).refreshes == st.refreshes + 1 && Alive(st, p).bits == st.mask
  {
    OnlyBit(p);
  }

  lemma OnlyBit(p: bv32)
    requires p <= 31
    ensures Owes(Bit(p), p) && Cleared(Bit(p), p) == 0
  {
  }

  /**
   * A report reloads the watchdog only when it clears the last owed bit; it then reloads it once
   * and owes every registered bit again.
   */
  lemma RefreshOnlyOnLast(st: State, m: bv32)
    requires Alive(st, m).refreshes != st.refreshes
    ensures ValidMagic(m) && Owes(st.bits, m) && Cleared(st.bits, m) == 0
    ensures Alive(st, m).refreshes == st.refreshes + 1 && Alive(st, m).bits == st.mask
    ensures Alive(st, m).backup == 0
  {
  }

  /** A report that is not the last one leaves the watchdog alone and its own bit cleared. */
  lemma ReportClears(st: State, p: bv32)
    requires ValidMagic(p) && Owes(st.bits, p) && Cleared(st.bits, p) != 0
    ensures Alive(st, p).refreshes == st.refreshes && !Owes(Alive(st, p).bits, p)
    ensures Alive(st, p).backup == Alive(st, p).bits
  {
    ClearedNotOwed(st.bits, p);
  }

  /**
   * No reload while a task owes its report: a task whose bit is owed and that does not report
   * keeps its bit owed and the watchdog unreloaded, whatever the other tasks do.
   */
  lemma {:induction false} NoRefreshWhileOwed(st: State, ms: seq<bv32>, p: bv32)
    requires 1 <= p <= 31 && Owes(st.bits, p)
    requires forall i :: 0 <= i < |ms| ==> ms[i] != p
    ensures Run(st, ms).refreshes == st.refreshes && Owes(Run(st, ms).bits, p)
    decreases |ms|
  {
    if |ms| > 0 {
      var m := ms[0];
      if ValidMagic(m) {
        AliveClearsOwnBit(st, m, p);
      }
      NoRefreshWhileOwed(Alive(st, m), ms[1..], p);
    }
  }

  /**
   * Once every owed task has reported, the watchdog has been reloaded, whatever else was
   * reported in between.
   */
  lemma {:induction false} AllReportedRefreshes(st: State, ms: seq<bv32>)
    requires Consistent(st) && st.bits != 0
    requires forall q: bv32 :: 1 <= q <= 31 && Owes(st.bits, q) ==> q in ms
    ensures Run(st, ms).refreshes > st.refreshes
    decreases |ms|
  {
    if |ms| == 0 {
      forall q: bv32 | q <= 31
        ensures !Owes(st.bits, q)
      {
        if q == 0 {
          assert Bit(q) == 1;
        }
      }
      ZeroWhenNoBit(st.bits);
      assert false;
    } else {
      var next := Alive(st, ms[0]);
      AliveConsistent(st, ms[0]);
      if next.refreshes == st.refreshes {
        OwedAfter(st, ms[0]);
        StillCovered(st, ms);
        AllReportedRefreshes(next, ms[1..]);
      } else {
        RunKeepsRefreshes(next, ms[1..]);
      }
    }
  }

  /** After the first report of a run, the positions still owed are reported later in it. */
  lemma StillCovered(st: State, ms: seq<bv32>)
    requires |ms| > 0 && st.bits != 0 && Alive(st, ms[0]).refreshes == st.refreshes
    requires forall q: bv32 :: 1 <= q <= 31 && Owes(st.bits, q) ==> q in ms
    ensures forall q: bv32 :: 1 <= q <= 31 && Owes(Alive(st, ms[0]).bits, q) ==> q in ms[1..]
  {
    var m := ms[0];
    forall q: bv32 | 1 <= q <= 31 && Owes(Alive(st, m).bits, q)
      ensures q in ms[1..]
    {
      OwedAfter(st, m);
      if ValidMagic(m) && Owes(st.bits, m) {
        OwedBefore(st.bits, m, q);
      }
      assert q in ms;
    }
  }

  /** A report that does not reload leaves the owed word as it was, or with the reporter cleared. */
  lemma OwedAfter(st: State, m: bv32)
    requires st.bits != 0 && Alive(st, m).refreshes == st.refreshes
    ensures Alive(st, m).bits != 0
    ensures ValidMagic(m) && Owes(st.bits, m) ==> Alive(st, m).bits == Cleared(st.bits, m)
    ensures !(ValidMagic(m) && Owes(st.bits, m)) ==> Alive(st, m).bits == st.bits
  {
  }

  /** A position owed after clearing m was owed before, and is not m. */
  lemma OwedBefore(x: bv32, m: bv32, q: bv32)
    requires m <= 31 && q <= 31
    requires Owes(Cleared(x, m), q)
    ensures Owes(x, q) && q != m
  {
    ClearedNotOwed(x, m);
    if q != m {
      BitsDiffer(x, m, q);
    }
  }

  /** Reloads are only ever added. */
  lemma {:induction false} RunKeepsRefreshes(st: State, ms: seq<bv32>)
    ensures Run(st, ms).refreshes >= st.refreshes
    decreases |ms|
  {
    if |ms| > 0 {
      RunKeepsRefreshes(Alive(st, ms[0]), ms[1..]);
    }
  }

  /** A word that owes no position from 0 to 31 is 0; it is checked byte by byte. */
  lemma ZeroWhenNoBit(x: bv32)
    requires forall q: bv32 :: q <= 31 ==> !Owes(x, q)
    ensures x == 0
  {
    assert x & 0xFF == 0 by {
      assert !Owes(x, 0) && !Owes(x, 1) && !Owes(x, 2) && !Owes(x, 3) && !Owes(x, 4) && !Owes(x, 5) && !Owes(x, 6) && !Owes(x, 7);
    }
    assert x & 0xFF00 == 0 by {
      assert !Owes(x, 8) && !Owes(x, 9) && !Owes(x, 10) && !Owes(x, 11) && !Owes(x, 12) && !Owes(x, 13) && !Owes(x, 14) && !Owes(x, 15);
    }
    assert x & 0xFF0000 == 0 by {
      assert !Owes(x, 16) && !Owes(x, 17) && !Owes(x, 18) && !Owes(x, 19) && !Owes(x, 20) && !Owes(x, 21) && !Owes(x, 22) && !Owes(x, 23);
    }
    assert x & 0xFF000000 == 0 by {
      assert !Owes(x, 24) && !Owes(x, 25) && !Owes(x, 26) && !Owes(x, 27) && !Owes(x, 28) && !Owes(x, 29) && !Owes(x, 30) && !Owes(x, 31);
    }
  }

  /** the statics magic_bits and magic_mask, with the watchdog hardware they drive */
  class Watch {
    var magicBits: bv32
    var magicMask: bv32
    /** HAL_IWDG_Refresh calls so far */
    var refreshes: nat
    /** the RTC backup register WDT_REG */
    var backup: bv32

    function Fields(): State
      reads this
    {
      State(magicBits, magicMask, refreshes, backup)
    }

    /** both words zero, as the C start-up code leaves them */
    constructor(backup: bv32)
      ensures Fields() == State(0, 0, 0, backup) && Consistent(Fields())
    {
      magicBits, magicMask, refreshes := 0, 0, 0;
      this.backup := backup;
    }

    /** i_am_alive (watchdog.c:26-47) */
    method IAmAlive(magic: bv32)
      modifies this
      ensures Fields() == Alive(old(Fields()), magic)
    {
      if magic == 0 || magic > 31 {
        return;
      }
      if !Owes(magicBits, magic) {
        return;
      }
      magicBits := Cleared(magicBits, magic);
      backup := magicBits;
      if magicBits == 0 {
        refreshes := refreshes + 1;
        magicBits := magicMask;
      }
    }

    /** register_magic (watchdog.c:54-61) */
    method RegisterMagic(magicPos: bv32)
      modifies this
      ensures Fields() == Register(old(Fields()), magicPos)
    {
      if magicPos == 0 || magicPos > 31 {
        return;
      }
      magicMask := Added(magicMask, magicPos);
      magicBits := magicMask;
    }

    /** start_iwdt (watchdog.c:68-73): the hardware set-up aside, a new round owing every bit */
    method StartIwdt(timeout: u32)
      modifies this
      ensures Fields() == Start(old(Fields()))
    {
      magicBits := magicMask;
    }
  }
}
