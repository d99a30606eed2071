// The Manchester line driver of the OpenTherm link (manchester.c): context initialisation,
// pulse classification and bit decoding on the receive side, and the order in which
// MANCHESTER_Transmit puts the bits of a frame on the line. The timer and the GPIO pin are
// reduced to TxLine: the half-bit levels driven so far and the timer notifications still to
// come before a wait times out.

module Manchester {
  import opened Common
  import opened ManchesterBits

  const MAX_NUM_START_BITS: nat := 16
  const MAX_NUM_STOP_BITS: nat := 16

  /** MANCHESTER_BitOrder_t */
  datatype BitOrder = LSBFirst | MSBFirst

  /** a timer handle, with whether IS_TIM_INSTANCE accepts its register block */
  datatype Timer = Timer(isTimInstance: bool)

  /** the fields of MANCHESTER_Context_t that the driver reads and writes */
  datatype Settings = Settings(
    htim: Option<Timer>,
    numStartBits: u32,
    numStopBits: u32,
    bitRate: u32,
    bitOrder: BitOrder,
    startStopBit: bv8,
    halfBitTime: u32,
    halfBitMinTime: u32,
    halfBitMaxTime: u32,
    filterTime: u32,
    pulseTimeout: u32)

  /** MANCHESTER_Context_t, filled in place by MANCHESTER_InitContext */
  class Context {
    var htim: Option<Timer>
    var numStartBits: u32
    var numStopBits: u32
    var bitRate: u32
    var bitOrder: BitOrder
    var startStopBit: bv8
    var halfBitTime: u32
    var halfBitMinTime: u32
    var halfBitMaxTime: u32
    var filterTime: u32
    var pulseTimeout: u32

    function Fields(): Settings
      reads this
    {
      Settings(htim, numStartBits, numStopBits, bitRate, bitOrder, startStopBit,
               halfBitTime, halfBitMinTime, halfBitMaxTime, filterTime, pulseTimeout)
    }

    /** a context in zeroed static storage */
    constructor()
      ensures Fields() == Settings(None, 0, 0, 0, LSBFirst, 0, 0, 0, 0, 0, 0)
    {
      htim, numStartBits, numStopBits, bitRate, bitOrder, startStopBit := None, 0, 0, 0, LSBFirst, 0;
      halfBitTime, halfBitMinTime, halfBitMaxTime, filterTime, pulseTimeout := 0, 0, 0, 0, 0;
    }
  }

  // ---------------------------------------------------------------- context initialisation

  /** unsigned 32-bit division; a zero divisor gives 0, as UDIV does with divide-by-zero trapping off */
  function Div32(a: u32, b: u32): (q: u32)
  {
    if b == 0 then 0 else a / b
  }

  /** the timer's clock: twice PCLK1 (a 32-bit product) divided by the 16-bit prescaler plus one */
  function TimerClock(pclk1: u32, psc: u32): (f: u32)
  {
    ((pclk1 * 2) % 0x1_0000_0000) / (psc % 0x1_0000 + 1)
  }

  /** halfBitMinTime: the nominal half-bit time less 1/12 of it (HALF_BYTE_TOLERANCE is 12) */
  function MinTime(h: u32): (m: u32)
  {
    h - h / 12
  }

  /** halfBitMaxTime: the nominal half-bit time plus 1/12 of it, the sum kept to 32 bits */
  function MaxTime(h: u32): (m: u32)
  {
    (h + h / 12) % 0x1_0000_0000
  }

  /**
   * The tolerance window brackets the nominal time and is symmetric about it, unless the
   * upper end passes 2^32 and wraps.
   */
  lemma TolerancesBracket(h: u32)
    requires h + h / 12 < 0x1_0000_0000
    ensures MinTime(h) <= h <= MaxTime(h)
    ensures h - MinTime(h) == MaxTime(h) - h == h / 12
  {
  }

  /** the checks MANCHESTER_InitContext makes, in its order */
  predicate TimerOk(htim: Option<Timer>)
  {
    htim.Some? && htim.value.isTimInstance
  }

  predicate StartBitsOk(numStartBits: u32)
  {
    0 < numStartBits <= MAX_NUM_START_BITS
  }

  /** the timing fields computed from the bit rate and the timer clock */
  function Timing(s: Settings, bitRate: u32, timerClk: u32): (t: Settings)
    ensures t.halfBitMinTime <= t.halfBitTime
    ensures t.halfBitTime + t.halfBitTime / 12 < 0x1_0000_0000 ==> t.halfBitTime <= t.halfBitMaxTime
  {
    var twice := (bitRate * 2) % 0x1_0000_0000;
    var h := Div32(timerClk, twice);
    s.(halfBitTime := h, halfBitMinTime := MinTime(h), halfBitMaxTime := MaxTime(h),
       pulseTimeout := Div32(1000, twice) + 2, filterTime := 7)
  }

  /**
   * MANCHESTER_InitContext (manchester.c:197-244). ERROR for a NULL context or timer or one
   * that is not a timer instance, leaving the context alone; then the timer, bit order and bit
   * rate are stored; ERROR for 0 or more than 16 start bits; the start bit count is stored;
   * ERROR for more than 16 stop bits; otherwise the stop bit count, the start/stop bit value
   * and the timing fields are stored and the result is SUCCESS. pclk1 and psc stand for
   * HAL_RCC_GetPCLK1Freq() and the timer's PSC register.
   */
  method InitContext(context: Context?, htim: Option<Timer>, numStartBits: u32, numStopBits: u32,
                     bitRate: u32, bitOrder: BitOrder, startStopBit: bv8, pclk1: u32, psc: u32)
    returns (r: Status)
    modifies context
    ensures r == SUCCESS <==>
              context != null && TimerOk(htim) && StartBitsOk(numStartBits) && numStopBits <= MAX_NUM_STOP_BITS
    ensures context != null && !TimerOk(htim) ==> context.Fields() == old(context.Fields())
    ensures context != null && TimerOk(htim) ==>
              var f0 := old(context.Fields()).(htim := htim, bitOrder := bitOrder, bitRate := bitRate);
              var f1 := f0.(numStartBits := numStartBits);
              var f2 := f1.(numStopBits := numStopBits, startStopBit := startStopBit);
              context.Fields() ==
                if !StartBitsOk(numStartBits) then f0
                else if numStopBits > MAX_NUM_STOP_BITS then f1
                else Timing(f2, bitRate, TimerClock(pclk1, psc))
  {
    if context == null || htim.None? || !htim.value.isTimInstance {
      return ERROR;
    }
    context.htim := htim;
    context.bitOrder := bitOrder;
    context.bitRate := bitRate;
    if numStartBits > MAX_NUM_START_BITS as u32 || numStartBits == 0 {
      return ERROR;
    }
    context.numStartBits := numStartBits;
    if numStopBits > MAX_NUM_STOP_BITS as u32 {
      return ERROR;
    }
    context.numStopBits := numStopBits;
    context.startStopBit := startStopBit;
    var timerClkFreq := TimerClock(pclk1, psc);
    var twice := (bitRate * 2) % 0x1_0000_0000;
    context.halfBitTime := Div32(timerClkFreq, twice);
    var tol := context.halfBitTime / 12;
    context.halfBitMinTime := context.halfBitTime - tol;
    context.halfBitMaxTime := (context.halfBitTime + tol) % 0x1_0000_0000;
    context.pulseTimeout := Div32(1000, twice) + 2;
    context.filterTime := 7;
    r := SUCCESS;
  }

  /**
   * The OpenTherm setting: 1000 bit/s on a timer clocked at 2 * 36 MHz / 9 = 8 MHz gives a
   * half-bit of 4000 ticks, accepted from 3667 to 4333, and a 2 ms pulse timeout.
   */
  lemma OpenThermTiming(s: Settings)
    ensures var t := Timing(s, 1000, TimerClock(36_000_000, 8));
            t.halfBitTime == 4000 && t.halfBitMinTime == 3667 && t.halfBitMaxTime == 4333
            && t.pulseTimeout == 2 && t.filterTime == 7
  {
    assert (36_000_000 * 2) % 0x1_0000_0000 == 72_000_000;
    assert TimerClock(36_000_000, 8) == 72_000_000 / 9 == 8_000_000;
    assert Div32(8_000_000, 2000) == 4000;
    assert MinTime(4000) == 4000 - 333;
    assert MaxTime(4000) == 4000 + 333;
    assert Div32(1000, 2000) == 0;
  }

  // ---------------------------------------------------------------- receiving

  /**
   * decidePulseWidth (manchester.c:681-691): 1 for a width inside the half-bit window, else 2
   * for one inside the doubled window (the doubled bounds are 32-bit products), else UINT8_MAX.
   */
  function DecidePulseWidth(measured: u32, minTime: u32, maxTime: u32): (r: byte)
    ensures r == 1 || r == 2 || r == UINT8_MAX
  {
    if minTime <= measured <= maxTime then 1
    else if (2 * minTime) % 0x1_0000_0000 <= measured <= (2 * maxTime) % 0x1_0000_0000 then 2
    else UINT8_MAX
  }

  /**
   * With the window InitContext computes for a half-bit time h (and no 32-bit wrap), a pulse
   * of h is a half-bit and one of 2h a whole bit, and every width taken for a half-bit is
   * shorter than every width taken for a whole bit.
   */
  lemma PulseClasses(h: u32, m1: u32, m2: u32)
    requires 0 < h && 2 * (h + h / 12) < 0x1_0000_0000
    ensures DecidePulseWidth(h, MinTime(h), MaxTime(h)) == 1
    ensures DecidePulseWidth(2 * h, MinTime(h), MaxTime(h)) == 2
    ensures (DecidePulseWidth(m1, MinTime(h), MaxTime(h)) == 1 && DecidePulseWidth(m2, MinTime(h), MaxTime(h)) == 2)
              ==> m1 < m2
  {
    var q := h / 12;
    assert 12 * q <= h;
    assert MinTime(h) == h - q && MaxTime(h) == h + q;
    WindowClasses(h, h - q, h + q, m1, m2);
  }

  /** PulseClasses over a window lo..hi with 3 * (hi - h) < h, which keeps the doubled window clear of it */
  lemma WindowClasses(h: u32, lo: u32, hi: u32, m1: u32, m2: u32)
    requires 0 < h && lo == h - (hi - h) && h <= hi && 3 * (hi - h) < h && 2 * hi < 0x1_0000_0000
    ensures DecidePulseWidth(h, lo, hi) == 1
    ensures DecidePulseWidth(2 * h, lo, hi) == 2
    ensures (DecidePulseWidth(m1, lo, hi) == 1 && DecidePulseWidth(m2, lo, hi) == 2) ==> m1 < m2
  {
    assert (2 * lo) % 0x1_0000_0000 == 2 * lo;
    assert (2 * hi) % 0x1_0000_0000 == 2 * hi;
  }

  /** decodeBit (manchester.c:633-638): UINT8_MAX when the halves agree, the first half otherwise */
  function DecodeBit(one: byte, two: byte): (r: byte)
    ensures r == UINT8_MAX <==> one == two || one == UINT8_MAX
    ensures r != UINT8_MAX ==> r == one
  {
    if one == two then UINT8_MAX else one
  }

  // ---------------------------------------------------------------- the transmit line

  /**
   * The transmit side of the line: the half-bit levels driven so far (true for a set pin) and
   * the number of timer notifications (each with the value 1) that arrive before a wait of
   * transmitBit times out.
   */
  class TxLine {
    var halves: seq<bool>
    var ticks: nat

    constructor(ticks: nat)
      ensures this.halves == [] && this.ticks == ticks
    {
      this.halves, this.ticks := [], ticks;
    }
  }

  /** the line levels of a run of bits: each bit's own level, then the opposite */
  function Encode(bits: seq<bool>): (h: seq<bool>)
    ensures |h| == 2 * |bits|
  {
    if |bits| == 0 then [] else [bits[0], !bits[0]] + Encode(bits[1..])
  }

  lemma {:induction false} EncodeAppend(a: seq<bool>, b: seq<bool>)
    ensures Encode(a + b) == Encode(a) + Encode(b)
  {
    if |a| > 0 {
      assert (a + b)[0] == a[0] && (a + b)[1..] == a[1..] + b;
      EncodeAppend(a[1..], b);
    } else {
      assert a + b == b;
    }
  }

  /** The levels of bit i of a run are its own level and the opposite one. */
  lemma {:induction false} EncodeAt(bits: seq<bool>, i: nat)
    requires i < |bits|
    ensures Encode(bits)[2 * i] == bits[i] && Encode(bits)[2 * i + 1] == !bits[i]
  {
    if i > 0 {
      EncodeAt(bits[1..], i - 1);
    }
  }

  /**
   * The line after trying to send bits from levels h0 with t0 notifications to come: the
   * levels of as many half-bits as there were notifications for, and SUCCESS exactly when
   * there were enough for all of them.
   */
  predicate Transmitted(h0: seq<bool>, t0: nat, bits: seq<bool>, h1: seq<bool>, t1: nat, ret: Status)
  {
    var n := if t0 < 2 * |bits| then t0 else 2 * |bits|;
    h1 == h0 + Encode(bits)[..n] && t1 == t0 - n && (ret == SUCCESS <==> 2 * |bits| <= t0)
  }

  lemma TransmittedNothing(h0: seq<bool>, t0: nat)
    ensures Transmitted(h0, t0, [], h0, t0, SUCCESS)
  {
  }

  /** Sending a and then b is sending a + b. */
  lemma TransmittedThen(h0: seq<bool>, t0: nat, a: seq<bool>, h1: seq<bool>, t1: nat,
                        b: seq<bool>, h2: seq<bool>, t2: nat, ret: Status)
    requires Transmitted(h0, t0, a, h1, t1, SUCCESS) && Transmitted(h1, t1, b, h2, t2, ret)
    ensures Transmitted(h0, t0, a + b, h2, t2, ret)
  {
    EncodeAppend(a, b);
    var n := if t1 < 2 * |b| then t1 else 2 * |b|;
    assert Encode(a + b)[..2 * |a| + n] == Encode(a) + Encode(b)[..n];
  }

  /** Once a send has failed, whatever was to follow is not sent. */
  lemma TransmittedStop(h0: seq<bool>, t0: nat, a: seq<bool>, h1: seq<bool>, t1: nat, b: seq<bool>)
    requires Transmitted(h0, t0, a, h1, t1, ERROR)
    ensures Transmitted(h0, t0, a + b, h1, t1, ERROR)
  {
    EncodeAppend(a, b);
    assert Encode(a + b)[..t0] == Encode(a)[..t0];
  }

  /**
   * transmitBit (manchester.c:942-980): wait for a notification, drive the pin to val's level,
   * wait again, toggle the pin. A wait that times out ends the bit with ERROR, after the first
   * half has been driven if it was the second wait.
   */
  method TransmitBit(line: TxLine, val: bv8) returns (ret: Status)
    modifies line
    ensures Transmitted(old(line.halves), old(line.ticks), [val != 0], line.halves, line.ticks, ret)
  {
    if line.ticks == 0 {
      return ERROR;
    }
    line.ticks := line.ticks - 1;
    line.halves := line.halves + [val != 0];
    if line.ticks == 0 {
      return ERROR;
    }
    line.ticks := line.ticks - 1;
    line.halves := line.halves + [!(val != 0)];
    ret := SUCCESS;
  }

  /** The receiver's decodeBit of the two halves of any transmitted bit yields that bit. */
  lemma DecodeTransmitted(bits: seq<bool>, i: nat)
    requires i < |bits|
    ensures var e := Encode(bits);
            DecodeBit(Level(e[2 * i]), Level(e[2 * i + 1])) == Level(bits[i])
  {
    EncodeAt(bits, i);
  }

  /** the pin level as HAL_GPIO_ReadPin reports it */
  function Level(b: bool): byte
  {
    if b then 1 else 0
  }

  function Repeat(b: bool, n: nat): (s: seq<bool>)
    ensures |s| == n
  {
    seq(n, _ => b)
  }

  lemma RepeatAt(x: bool, n: nat, k: nat)
    requires k < n
    ensures Repeat(x, n)[k] == x
  {
  }

  /**
   * transmitStartStopBits (manchester.c:925-933): num copies of val, stopping at the first
   * bit that fails.
   */
  method TransmitStartStopBits(line: TxLine, val: bv8, num: u32) returns (ret: Status)
    modifies line
    ensures Transmitted(old(line.halves), old(line.ticks), Repeat(val != 0, num), line.halves, line.ticks, ret)
  {
    ghost var h0, t0 := line.halves, line.ticks;
    ret := SUCCESS;
    var n := num;
    ghost var sent: nat := 0;
    TransmittedNothing(h0, t0);
    while n > 0 && ret == SUCCESS
      invariant sent + n as int == num as int
      invariant Transmitted(h0, t0, Repeat(val != 0, sent), line.halves, line.ticks, ret)
    {
      ghost var h1, t1 := line.halves, line.ticks;
      ret := TransmitBit(line, val);
      TransmittedThen(h0, t0, Repeat(val != 0, sent), h1, t1, [val != 0], line.halves, line.ticks, ret);
      assert Repeat(val != 0, sent) + [val != 0] == Repeat(val != 0, sent + 1);
      sent := sent + 1;
      n := n - 1;
    }
    if ret != SUCCESS {
      TransmittedStop(h0, t0, Repeat(val != 0, sent), line.halves, line.ticks, Repeat(val != 0, n));
      assert Repeat(val != 0, sent) + Repeat(val != 0, n) == Repeat(val != 0, num);
    }
  }

  // ---------------------------------------------------------------- the frame

  /** a full byte's bits in the order they are sent */
  function OrderedBits(b: bv8, order: BitOrder): (s: seq<bool>)
    ensures |s| == 8
  {
    if order == LSBFirst then ByteBits(b) else Reverse(ByteBits(b))
  }

  /** the full bytes' bits in the order they are sent */
  function FullBytesBits(data: seq<bv8>, order: BitOrder): (s: seq<bool>)
    ensures |s| == 8 * |data|
  {
    if |data| == 0 then [] else FullBytesBits(data[..|data| - 1], order) + OrderedBits(data[|data| - 1], order)
  }

  /** The full bytes sent LSB first are the bit string itself. */
  lemma {:induction false} LsbFirstIsBits(data: seq<bv8>)
    ensures FullBytesBits(data, LSBFirst) == Bits(data)
  {
    if |data| > 0 {
      LsbFirstIsBits(data[..|data| - 1]);
      BitsOfLast(data);
    }
  }

  /**
   * The bits of a last byte holding r < 8 bits, in the order the bit order calls for: bits 0
   * to r - 1 LSB first, bits r - 1 down to 0 MSB first.
   */
  function LastBits(b: bv8, r: nat, order: BitOrder): (s: seq<bool>)
    requires r < 8
    ensures |s| == r
  {
    if order == LSBFirst then ByteBits(b)[..r] else Reverse(ByteBits(b)[..r])
  }

  /**
   * The bits MANCHESTER_Transmit sends for such a last byte: its loop sets the mask afresh on
   * every round, so the same bit goes out r times (bit 0 LSB first, bit r - 1 MSB first).
   */
  function LastBitsAsWritten(b: bv8, r: nat, order: BitOrder): (s: seq<bool>)
    requires r < 8
    ensures |s| == r
  {
    if r == 0 then [] else if order == LSBFirst then Repeat(ByteBits(b)[0], r) else Repeat(ByteBits(b)[r - 1], r)
  }

  /** the bits of the last, partial byte of a frame of numBits bits (none when numBits % 8 == 0) */
  function TailBits(data: seq<bv8>, numBits: u32, order: BitOrder): (s: seq<bool>)
    requires TotalBytes(numBits) <= |data|
    ensures |s| == numBits % 8
  {
    if numBits % 8 == 0 then [] else LastBits(data[numBits / 8], numBits % 8, order)
  }

  /** the data bits of a frame of numBits bits: the full bytes, then the partial last byte */
  function DataBits(data: seq<bv8>, numBits: u32, order: BitOrder): (s: seq<bool>)
    requires TotalBytes(numBits) <= |data|
    ensures |s| == numBits
  {
    FullBytesBits(data[..numBits / 8], order) + TailBits(data, numBits, order)
  }

  /** a whole frame: start bits, data bits, stop bits */
  function Frame(s: Settings, data: seq<bv8>, numBits: u32): (f: seq<bool>)
    requires TotalBytes(numBits) <= |data|
    ensures |f| == s.numStartBits + numBits + s.numStopBits
  {
    Repeat(s.startStopBit != 0, s.numStartBits) + DataBits(data, numBits, s.bitOrder)
    + Repeat(s.startStopBit != 0, s.numStopBits)
  }

  /** MANCHESTER_Data_t */
  class Data {
    var dataPtr: array?<bv8>
    var numBits: u32
  }

  // ---------------------------------------------------------------- masks

  /** The mask Up(j) picks bit j of a byte. */
  lemma UpBit(b: bv8, j: nat)
    requires j < 8
    ensures (b & Up(j) != 0) == ByteBits(b)[j]
  {
    if j == 0 {} else if j == 1 {} else if j == 2 {} else if j == 3 {}
    else if j == 4 {} else if j == 5 {} else if j == 6 {} else {}
  }

  /** Shifting the one-bit mask moves it one place, and out of the byte past either end. */
  lemma UpShift(j: nat)
    requires j < 8
    ensures Up(j) << 1 == Up(j + 1)
    ensures j < 7 ==> Up(j + 1) >> 1 == Up(j)
    ensures Up(0) >> 1 == 0
    ensures Up(j) != 0 && Up(8) == 0
  {
    if j == 0 {} else if j == 1 {} else if j == 2 {} else if j == 3 {}
    else if j == 4 {} else if j == 5 {} else if j == 6 {} else {}
  }

  /** the mask of a full byte's do-while loop after k rounds: 0x01 << k LSB first, 0x80 >> k MSB first */
  function ByteMask(order: BitOrder, k: nat): bv8
  {
    if order == LSBFirst then Up(k) else if k < 8 then Up(7 - k) else 0
  }

  /** the loop state of a full byte's do-while: k rounds done, and the mask they leave */
  predicate ByteMaskAt(order: BitOrder, k: nat, mask: bv8)
  {
    k <= 8 && mask == ByteMask(order, k)
  }

  lemma ByteMaskBit(b: bv8, order: BitOrder, k: nat)
    requires k < 8
    ensures (b & ByteMask(order, k) != 0) == OrderedBits(b, order)[k]
  {
    if order == LSBFirst {
      UpBit(b, k);
    } else {
      ReverseAt(ByteBits(b), k);
      UpBit(b, 7 - k);
    }
  }

  lemma ReverseAt<T>(s: seq<T>, k: nat)
    requires k < |s|
    ensures Reverse(s)[k] == s[|s| - 1 - k]
  {
  }

  lemma ByteMaskShift(order: BitOrder, k: nat)
    requires k < 8
    ensures ByteMask(order, k) != 0
    ensures (if order == LSBFirst then ByteMask(order, k) << 1 else ByteMask(order, k) >> 1) == ByteMask(order, k + 1)
  {
    if order == LSBFirst {
      UpShift(k);
    } else if k < 7 {
      UpShift(6 - k);
    } else {
      UpShift(0);
    }
  }

  /** A round of the do-while: the mask is non-zero exactly for the eight bits, picks bit k in
      sending order, and its shift is the next round's mask. */
  lemma ByteMaskNext(b: bv8, order: BitOrder, k: nat, mask: bv8)
    requires ByteMaskAt(order, k, mask)
    ensures mask != 0 <==> k < 8
    ensures k < 8 ==> ((b & mask != 0) == OrderedBits(b, order)[k]
                       && ByteMaskAt(order, k + 1, if order == LSBFirst then mask << 1 else mask >> 1))
  {
    if k < 8 {
      ByteMaskBit(b, order, k);
      ByteMaskShift(order, k);
    } else {
      UpShift(0);
    }
  }

  /**
   * Bit k of a run goes out after bits[..k]: either it went well and bits[..k + 1] is out, or it
   * failed and the whole run ended there.
   */
  lemma SentOne(h0: seq<bool>, t0: nat, bits: seq<bool>, k: nat, h1: seq<bool>, t1: nat,
                h2: seq<bool>, t2: nat, ret: Status)
    requires k < |bits|
    requires Transmitted(h0, t0, bits[..k], h1, t1, SUCCESS) && Transmitted(h1, t1, [bits[k]], h2, t2, ret)
    ensures ret == SUCCESS ==> Transmitted(h0, t0, bits[..k + 1], h2, t2, SUCCESS)
    ensures ret != SUCCESS ==> Transmitted(h0, t0, bits, h2, t2, ret)
  {
    TransmittedThen(h0, t0, bits[..k], h1, t1, [bits[k]], h2, t2, ret);
    assert bits[..k] + [bits[k]] == bits[..k + 1];
    if ret != SUCCESS {
      TransmittedStop(h0, t0, bits[..k + 1], h2, t2, bits[k + 1..]);
      assert bits[..k + 1] + bits[k + 1..] == bits;
    }
  }

  /**
   * One full byte of MANCHESTER_Transmit's data loop (manchester.c:855-873): the do-while sends
   * data & mask for each mask from 0x01 up (LSB first) or from 0x80 down (MSB first) until the
   * mask has left the byte, and stops at the first bit that fails.
   */
  method TransmitByte(line: TxLine, b: bv8, order: BitOrder) returns (ret: Status)
    modifies line
    ensures Transmitted(old(line.halves), old(line.ticks), OrderedBits(b, order), line.halves, line.ticks, ret)
  {
    ghost var h0, t0 := line.halves, line.ticks;
    ghost var bits := OrderedBits(b, order);
    var mask: bv8 := if order == LSBFirst then 0x01 else 0x80;
    ghost var k: nat := 0;
    TransmittedNothing(h0, t0);
    assert bits[..0] == [];
    while mask != 0
      invariant ByteMaskAt(order, k, mask)
      invariant Transmitted(h0, t0, bits[..k], line.halves, line.ticks, SUCCESS)
      decreases 8 - k
    {
      ByteMaskNext(b, order, k, mask);
      ghost var h1, t1 := line.halves, line.ticks;
      ret := TransmitBit(line, b & mask);
      SentOne(h0, t0, bits, k, h1, t1, line.halves, line.ticks, ret);
      if ret != SUCCESS {
        return;
      }
      mask := if order == LSBFirst then mask << 1 else mask >> 1;
      k := k + 1;
    }
    ByteMaskNext(b, order, k, mask);
    assert bits[..k] == bits;
    ret := SUCCESS;
  }

  /**
   * The full bytes of MANCHESTER_Transmit's data loop (manchester.c:852-874): bytes 0 to
   * fullBytes - 1 in turn, stopping at the first bit that fails.
   */
  method TransmitFullBytes(line: TxLine, data: array<bv8>, fullBytes: nat, order: BitOrder) returns (ret: Status)
    requires fullBytes <= data.Length
    modifies line
    ensures Transmitted(old(line.halves), old(line.ticks), FullBytesBits(data[..fullBytes], order),
                        line.halves, line.ticks, ret)
  {
    ghost var h0, t0 := line.halves, line.ticks;
    ghost var d := data[..fullBytes];
    ret := SUCCESS;
    var i := 0;
    TransmittedNothing(h0, t0);
    assert d[..0] == [];
    while i < fullBytes
      invariant i <= fullBytes
      invariant ret == SUCCESS
      invariant Transmitted(h0, t0, FullBytesBits(d[..i], order), line.halves, line.ticks, SUCCESS)
    {
      ghost var h1, t1 := line.halves, line.ticks;
      ret := TransmitByte(line, data[i], order);
      SentByte(h0, t0, d, i, order, h1, t1, line.halves, line.ticks, ret);
      if ret != SUCCESS {
        return;
      }
      i := i + 1;
    }
    assert d[..i] == d;
  }

  /**
   * Byte i of the full bytes goes out after bytes 0 to i - 1: either it went well and bytes 0
   * to i are out, or it failed and the full bytes ended there.
   */
  lemma SentByte(h0: seq<bool>, t0: nat, d: seq<bv8>, i: nat, order: BitOrder, h1: seq<bool>, t1: nat,
                 h2: seq<bool>, t2: nat, ret: Status)
    requires i < |d|
    requires Transmitted(h0, t0, FullBytesBits(d[..i], order), h1, t1, SUCCESS)
    requires Transmitted(h1, t1, OrderedBits(d[i], order), h2, t2, ret)
    ensures ret == SUCCESS ==> Transmitted(h0, t0, FullBytesBits(d[..i + 1], order), h2, t2, SUCCESS)
    ensures ret != SUCCESS ==> Transmitted(h0, t0, FullBytesBits(d, order), h2, t2, ret)
  {
    assert d[..i + 1][..i] == d[..i] && d[..i + 1][i] == d[i];
    assert FullBytesBits(d[..i + 1], order) == FullBytesBits(d[..i], order) + OrderedBits(d[i], order);
    TransmittedThen(h0, t0, FullBytesBits(d[..i], order), h1, t1, OrderedBits(d[i], order), h2, t2, ret);
    if ret != SUCCESS {
      FullBytesPrefix(d, order, i + 1);
      TransmittedStop(h0, t0, FullBytesBits(d[..i + 1], order), h2, t2, FullBytesBits(d, order)[8 * (i + 1)..]);
    }
  }

  /** The bits of a prefix of the full bytes are a prefix of their bits. */
  lemma {:induction false} FullBytesPrefix(data: seq<bv8>, order: BitOrder, n: nat)
    requires n <= |data|
    ensures FullBytesBits(data, order) == FullBytesBits(data[..n], order) + FullBytesBits(data, order)[8 * n..]
  {
    FullBytesTake(data, order, n);
    var f := FullBytesBits(data, order);
    assert f == f[..8 * n] + f[8 * n..];
  }

  lemma {:induction false} FullBytesTake(data: seq<bv8>, order: BitOrder, n: nat)
    requires n <= |data|
    ensures FullBytesBits(data, order)[..8 * n] == FullBytesBits(data[..n], order)
  {
    if n < |data| {
      var m := |data| - 1;
      assert data[..m][..n] == data[..n];
      FullBytesTake(data[..m], order, n);
      assert FullBytesBits(data, order)[..8 * n] == FullBytesBits(data[..m], order)[..8 * n];
    } else {
      assert data[..n] == data;
    }
  }

  /**
   * The mask a round of the last-byte loop as written sets: 0x01, or 0x80 >> skipBits, the
   * mask of bit r - 1; whatever the round, it picks bit 0 or bit r - 1.
   */
  lemma AsWrittenMask(b: bv8, order: BitOrder, r: nat, k: nat)
    requires k < r < 8
    ensures (b & (if order == LSBFirst then 0x01 else Up(7 - (8 - r))) != 0) == LastBitsAsWritten(b, r, order)[k]
  {
    var j := if order == LSBFirst then 0 else r - 1;
    RepeatAt(ByteBits(b)[j], r, k);
    UpBit(b, j);
  }

  /**
   * The last-byte loop of MANCHESTER_Transmit as written (manchester.c:875-892): each round
   * sets the mask to 0x01 (LSB first) or 0x80 >> skipBits (MSB first) before sending, so the
   * shift at the end of the round is lost and the same bit is sent r times.
   */
  method TransmitLastBitsAsWritten(line: TxLine, b: bv8, r: nat, order: BitOrder) returns (ret: Status)
    requires r < 8
    modifies line
    ensures Transmitted(old(line.halves), old(line.ticks), LastBitsAsWritten(b, r, order), line.halves, line.ticks, ret)
  {
    ghost var h0, t0 := line.halves, line.ticks;
    ghost var bits := LastBitsAsWritten(b, r, order);
    var skipBits := 8 - r;
    var bitsInTheLastByte := r;
    ghost var k: nat := 0;
    ret := SUCCESS;
    TransmittedNothing(h0, t0);
    assert bits[..0] == [];
    while bitsInTheLastByte > 0
      invariant k + bitsInTheLastByte == r
      invariant ret == SUCCESS
      invariant Transmitted(h0, t0, bits[..k], line.halves, line.ticks, SUCCESS)
    {
      // 0x80 >> skipBits is the mask of bit 7 - skipBits
      var mask: bv8 := if order == LSBFirst then 0x01 else Up(7 - skipBits);
      AsWrittenMask(b, order, r, k);
      ghost var h1, t1 := line.halves, line.ticks;
      ret := TransmitBit(line, b & mask);
      SentOne(h0, t0, bits, k, h1, t1, line.halves, line.ticks, ret);
      if ret != SUCCESS {
        return;
      }
      mask := if order == LSBFirst then mask << 1 else mask >> 1;
      bitsInTheLastByte := bitsInTheLastByte - 1;
      k := k + 1;
    }
    assert bits[..k] == bits;
  }

  lemma ReverseTakeAt<T>(s: seq<T>, r: nat, k: nat)
    requires k < r <= |s|
    ensures Reverse(s[..r])[k] == s[r - 1 - k]
  {
  }

  /** the mask of the corrected last-byte loop after k rounds: bit k LSB first, bit r - 1 - k MSB first */
  function LastMask(order: BitOrder, r: nat, k: nat): bv8
  {
    if order == LSBFirst then Up(k) else if k < r then Up(r - 1 - k) else 0
  }

  /** the loop state of the corrected last-byte loop */
  predicate LastMaskAt(order: BitOrder, r: nat, k: nat, mask: bv8)
  {
    k <= r && mask == LastMask(order, r, k)
  }

  lemma LastMaskBit(b: bv8, order: BitOrder, r: nat, k: nat)
    requires k < r < 8
    ensures (b & LastMask(order, r, k) != 0) == LastBits(b, r, order)[k]
  {
    if order == LSBFirst {
      UpBit(b, k);
    } else {
      ReverseTakeAt(ByteBits(b), r, k);
      UpBit(b, r - 1 - k);
    }
  }

  lemma LastMaskShift(order: BitOrder, r: nat, k: nat)
    requires k < r < 8
    ensures (if order == LSBFirst then LastMask(order, r, k) << 1 else LastMask(order, r, k) >> 1)
            == LastMask(order, r, k + 1)
  {
    if order == LSBFirst {
      UpShift(k);
    } else if k < r - 1 {
      UpShift(r - 2 - k);
    } else {
      UpShift(0);
    }
  }

  /** A round of the corrected loop picks bit k in sending order, and its shift is the next round's mask. */
  lemma LastMaskNext(b: bv8, order: BitOrder, r: nat, k: nat, mask: bv8)
    requires r < 8 && k < r && LastMaskAt(order, r, k, mask)
    ensures (b & mask != 0) == LastBits(b, r, order)[k]
    ensures LastMaskAt(order, r, k + 1, if order == LSBFirst then mask << 1 else mask >> 1)
  {
    LastMaskBit(b, order, r, k);
    LastMaskShift(order, r, k);
  }

  /**
   * The last-byte loop as the receiver's (manchester.c:463-480) and the full-byte loop imply:
   * the mask is set once, to 0x01 or 0x80 >> skipBits, and shifted after every bit, so bits 0
   * to r - 1 go out LSB first and bits r - 1 down to 0 MSB first.
   */
  method TransmitLastBits(line: TxLine, b: bv8, r: nat, order: BitOrder) returns (ret: Status)
    requires r < 8
    modifies line
    ensures Transmitted(old(line.halves), old(line.ticks), LastBits(b, r, order), line.halves, line.ticks, ret)
  {
    ghost var h0, t0 := line.halves, line.ticks;
    ghost var bits := LastBits(b, r, order);
    var skipBits := 8 - r;
    var bitsInTheLastByte := r;
    var mask: bv8 := if order == LSBFirst then 0x01 else if r == 0 then 0 else Up(7 - skipBits);
    ghost var k: nat := 0;
    ret := SUCCESS;
    TransmittedNothing(h0, t0);
    assert bits[..0] == [];
    while bitsInTheLastByte > 0
      invariant k + bitsInTheLastByte == r
      invariant ret == SUCCESS
      invariant LastMaskAt(order, r, k, mask)
      invariant Transmitted(h0, t0, bits[..k], line.halves, line.ticks, SUCCESS)
    {
      LastMaskNext(b, order, r, k, mask);
      ghost var h1, t1 := line.halves, line.ticks;
      ret := TransmitBit(line, b & mask);
      SentOne(h0, t0, bits, k, h1, t1, line.halves, line.ticks, ret);
      if ret != SUCCESS {
        return;
      }
      mask := if order == LSBFirst then mask << 1 else mask >> 1;
      bitsInTheLastByte := bitsInTheLastByte - 1;
      k := k + 1;
    }
    assert bits[..k] == bits;
  }

  /**
   * Sending the last three bits of 0x06 (bits 0, 1, 1 from bit 0 up): the loop as written sends
   * bit 0 three times LSB first and bit 2 three times MSB first; the corrected loop sends the
   * three bits in order.
   */
  lemma LastByteRepeats()
    ensures LastBitsAsWritten(0x06, 3, LSBFirst) == [false, false, false]
    ensures LastBits(0x06, 3, LSBFirst) == [false, true, true]
    ensures LastBitsAsWritten(0x06, 3, MSBFirst) == [true, true, true]
    ensures LastBits(0x06, 3, MSBFirst) == [true, true, false]
  {
  }

  // ---------------------------------------------------------------- MANCHESTER_Transmit

  /**
   * MANCHESTER_Transmit (manchester.c:814-916) with the corrected last-byte loop: ERROR with
   * nothing sent for a NULL data or context, a NULL data pointer or timer; otherwise the frame
   * goes out as SendFrame sends it.
   */
  method Transmit(data: Data?, context: Context?, line: TxLine) returns (ret: Status)
    requires data != null && data.dataPtr != null ==> TotalBytes(data.numBits) <= data.dataPtr.Length
    modifies line
    ensures data == null || context == null || data.dataPtr == null || context.htim.None? ==>
              ret == ERROR && line.halves == old(line.halves) && line.ticks == old(line.ticks)
    ensures data != null && context != null && data.dataPtr != null && context.htim.Some? ==>
              Transmitted(old(line.halves), old(line.ticks), Frame(context.Fields(), data.dataPtr[..], data.numBits),
                          line.halves, line.ticks, ret)
  {
    if data == null || context == null {
      return ERROR;
    }
    if data.dataPtr == null || context.htim.None? {
      return ERROR;
    }
    ret := SendFrame(line, context.Fields(), data.dataPtr, data.numBits);
  }

  /**
   * The sending part of MANCHESTER_Transmit (manchester.c:840-898): the start bits, the full
   * bytes, the bits of the partial last byte and the stop bits, ending at the first bit that
   * fails.
   */
  method SendFrame(line: TxLine, s: Settings, dataPtr: array<bv8>, numBits: u32) returns (ret: Status)
    requires TotalBytes(numBits) <= dataPtr.Length
    modifies line
    ensures Transmitted(old(line.halves), old(line.ticks), Frame(s, dataPtr[..], numBits), line.halves, line.ticks, ret)
  {
    ghost var h0, t0 := line.halves, line.ticks;
    ghost var start := Repeat(s.startStopBit != 0, s.numStartBits);
    ghost var stop := Repeat(s.startStopBit != 0, s.numStopBits);
    ghost var full := FullBytesBits(dataPtr[..numBits / 8], s.bitOrder);
    ghost var tail := TailBits(dataPtr[..], numBits, s.bitOrder);
    assert dataPtr[..numBits / 8] == dataPtr[..][..numBits / 8];
    FrameParts(s, dataPtr[..], numBits);
    ret := TransmitStartStopBits(line, s.startStopBit, s.numStartBits);
    if ret != SUCCESS {
      TransmittedStop(h0, t0, start, line.halves, line.ticks, full + (tail + stop));
      return;
    }
    var fullBytes := numBits / 8;
    var bitsInTheLastByte := numBits % 8;
    ghost var h1, t1 := line.halves, line.ticks;
    ret := TransmitFullBytes(line, dataPtr, fullBytes, s.bitOrder);
    SentThen(h0, t0, start, h1, t1, full, line.halves, line.ticks, ret, tail + stop);
    if ret != SUCCESS {
      return;
    }
    ghost var h2, t2 := line.halves, line.ticks;
    if bitsInTheLastByte > 0 {
      ret := TransmitLastBits(line, dataPtr[fullBytes], bitsInTheLastByte, s.bitOrder);
    } else {
      TransmittedNothing(h2, t2);
    }
    SentThen(h0, t0, start + full, h2, t2, tail, line.halves, line.ticks, ret, stop);
    if ret != SUCCESS {
      return;
    }
    ghost var h3, t3 := line.halves, line.ticks;
    ret := TransmitStartStopBits(line, s.startStopBit, s.numStopBits);
    TransmittedThen(h0, t0, start + full + tail, h3, t3, stop, line.halves, line.ticks, ret);
  }

  /** A frame is its start bits, full bytes, partial last byte and stop bits, in that order. */
  lemma FrameParts(s: Settings, data: seq<bv8>, numBits: u32)
    requires TotalBytes(numBits) <= |data|
    ensures var start := Repeat(s.startStopBit != 0, s.numStartBits);
            var full := FullBytesBits(data[..numBits / 8], s.bitOrder);
            var tail := TailBits(data, numBits, s.bitOrder);
            var stop := Repeat(s.startStopBit != 0, s.numStopBits);
            Frame(s, data, numBits) == start + (full + (tail + stop)) == start + full + (tail + stop)
            && Frame(s, data, numBits) == start + full + tail + stop
  {
    Regroup(Repeat(s.startStopBit != 0, s.numStartBits), FullBytesBits(data[..numBits / 8], s.bitOrder),
            TailBits(data, numBits, s.bitOrder), Repeat(s.startStopBit != 0, s.numStopBits));
  }

  lemma Regroup<T>(a: seq<T>, b: seq<T>, c: seq<T>, d: seq<T>)
    ensures a + (b + (c + d)) == a + b + (c + d) == a + b + c + d
  {
  }

  /**
   * After a part a has gone out, part b is sent: either the rest went well and a + b is out, or
   * b failed and the frame a + b + rest ended there.
   */
  lemma SentThen(h0: seq<bool>, t0: nat, a: seq<bool>, h1: seq<bool>, t1: nat,
                 b: seq<bool>, h2: seq<bool>, t2: nat, ret: Status, rest: seq<bool>)
    requires Transmitted(h0, t0, a, h1, t1, SUCCESS) && Transmitted(h1, t1, b, h2, t2, ret)
    ensures Transmitted(h0, t0, a + b, h2, t2, ret)
    ensures ret != SUCCESS ==> Transmitted(h0, t0, a + (b + rest), h2, t2, ret)
  {
    TransmittedThen(h0, t0, a, h1, t1, b, h2, t2, ret);
    if ret != SUCCESS {
      TransmittedStop(h0, t0, a + b, h2, t2, rest);
      assert a + b + rest == a + (b + rest);
    }
  }

  /**
   * What the line carries for a frame sent with enough notifications: each frame bit as its
   * level and the opposite one, so decodeBit of each pair gives the frame back.
   */
  lemma FrameOnLine(s: Settings, data: seq<bv8>, numBits: u32, h0: seq<bool>, t0: nat, h1: seq<bool>, t1: nat, i: nat)
    requires TotalBytes(numBits) <= |data|
    requires Transmitted(h0, t0, Frame(s, data, numBits), h1, t1, SUCCESS)
    requires i < s.numStartBits + numBits + s.numStopBits
    ensures |h1| == |h0| + 2 * (s.numStartBits + numBits + s.numStopBits)
    ensures DecodeBit(Level(h1[|h0| + 2 * i]), Level(h1[|h0| + 2 * i + 1])) == Level(Frame(s, data, numBits)[i])
  {
    var f := Frame(s, data, numBits);
    DecodeTransmitted(f, i);
    assert h1[|h0| + 2 * i] == Encode(f)[2 * i] && h1[|h0| + 2 * i + 1] == Encode(f)[2 * i + 1];
  }

  /** Sent LSB first, a frame's data bits are the bit string of its bytes, up to numBits. */
  lemma {:induction false} LsbFirstData(data: seq<bv8>, numBits: u32)
    requires TotalBytes(numBits) <= |data|
    ensures DataBits(data, numBits, LSBFirst) == Bits(data)[..numBits]
  {
    var full := numBits / 8;
    var head := Bits(data[..full]);
    var rest := Bits(data[full..]);
    LsbFirstIsBits(data[..full]);
    assert Bits(data) == head + rest by {
      BitsAppend(data[..full], data[full..]);
      assert data[..full] + data[full..] == data;
    }
    TakeAcross(head, rest, numBits % 8);
    if numBits % 8 > 0 {
      var s := data[full..];
      assert rest == ByteBits(s[0]) + Bits(s[1..]);
      TakeWithin(ByteBits(s[0]), Bits(s[1..]), numBits % 8);
    }
  }

  lemma TakeAcross<T>(a: seq<T>, b: seq<T>, k: nat)
    requires k <= |b|
    ensures (a + b)[..|a| + k] == a + b[..k]
  {
  }

  lemma TakeWithin<T>(a: seq<T>, b: seq<T>, k: nat)
    requires k <= |a|
    ensures (a + b)[..k] == a[..k]
  {
  }
}
