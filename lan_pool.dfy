// The socket pool and the Ethernet buffer pool of the network stack (lan.c): bind_socket,
// change_soc_mode, close_socket, lan_getmem, lan_freemem, udp_packet_callback and read_sock.
// A socket owns at most one Ethernet frame buffer; a received UDP frame is swapped into the
// socket that accepts it (zero copy) and read_sock copies its payload out and frees it.

module LanPool {
  import opened Common

  const NUM_ETH_BUFFERS: nat := 6
  const NUM_SOCKETS: nat := 10
  /** the first automatically chosen local port */
  const START_EUPH_PORT: nat := 50000
  /** the offset of the UDP payload in an Ethernet frame: 14 + 20 + 8 header bytes */
  const UDP_PAYLOAD_START: nat := 42
  const IP_PROTOCOL_UDP: byte := 17

  const SOC_MODE_READ: bv8 := 0x01
  const SOC_MODE_WRITE: bv8 := 0x02
  const SOC_NEW_DATA: bv8 := 0x80

  const SOC_ERR_WRONG_SOC_MODE: u16 := 1
  const SOC_ERR_NOT_ENOUGH_MEM_BUF: u16 := 2

  /** enum EthBufState */
  datatype EthBufState = EthBufBusy | EthBufFree

  /** enum SocketState */
  datatype SocketState = SockBusy | SockFree

  /** DataLost_t */
  datatype DataLost = NotLost | Lost

  /** a uint8_t * to a frame: NULL, eth_buf[j], or memory outside the pool */
  datatype BufPtr = NullBuf | EthBuf(j: nat) | OtherBuf(addr: nat)

  /** a socket_p: NULL, &sockets[i], or memory outside the pool */
  datatype SockPtr = NullSock | PoolSock(i: nat) | OtherSock(addr: nat)

  /** socket_t, without the notification fields that the polling build leaves unused */
  datatype Socket = Socket(buf: BufPtr, locIp: u32, remIp: u32, remPort: u16, locPort: u16,
                           lastError: u16, len: u16, state: SocketState, proto: byte, mode: bv8,
                           dataLost: DataLost)

  /** a socket as lan_init leaves it and as close_socket returns it: zeroed and SOCK_FREE */
  const FREE_SOCKET := Socket(NullBuf, 0, 0, 0, 0, 0, 0, SockFree, 0, 0, NotLost)

  /** the fields of a received UDP frame that udp_packet_callback compares, in host order */
  datatype UdpHeader = UdpHeader(fromIp: u32, toIp: u32, fromPort: u16, toPort: u16)

  predicate IsFreeBuffer(b: EthBufState)
  {
    b == EthBufFree
  }

  predicate IsFreeSocket(s: Socket)
  {
    s.state == SockFree
  }

  /** the number of free buffers, which the NET_BUF_STAT loop counts */
  function FreeCount(s: seq<EthBufState>): (n: nat)
    ensures n <= |s|
  {
    if |s| == 0 then 0 else FreeCount(s[..|s| - 1]) + (if s[|s| - 1] == EthBufFree then 1 else 0)
  }

  /** No free buffer is found exactly when none is counted. */
  lemma {:induction false} FreeCountNone(s: seq<EthBufState>)
    ensures FreeCount(s) == 0 <==> FirstWhere(s, IsFreeBuffer) == |s|
  {
    if |s| > 0 {
      var t := s[..|s| - 1];
      FreeCountNone(t);
      if FirstWhere(t, IsFreeBuffer) < |t| {
        var k := FirstWhere(t, IsFreeBuffer);
        assert s[k] == t[k];
        FirstWhereIs(s, IsFreeBuffer, k);
        FreeCountPositive(t, k);
      } else if s[|s| - 1] != EthBufFree {
        assert forall j :: 0 <= j < |s| - 1 ==> s[j] == t[j];
        FirstWhereIs(s, IsFreeBuffer, |s|);
      } else {
        assert forall j :: 0 <= j < |s| - 1 ==> s[j] == t[j];
        FirstWhereIs(s, IsFreeBuffer, |s| - 1);
      }
    }
  }

  lemma {:induction false} FreeCountPositive(s: seq<EthBufState>, k: nat)
    requires k < |s| && s[k] == EthBufFree
    ensures FreeCount(s) > 0
  {
    if k < |s| - 1 {
      FreeCountPositive(s[..|s| - 1], k);
    }
  }

  /** Changing one buffer's state changes the count by what that buffer contributed. */
  lemma {:induction false} FreeCountSet(s: seq<EthBufState>, k: nat, v: EthBufState)
    requires k < |s|
    ensures FreeCount(s[k := v]) + (if s[k] == EthBufFree then 1 else 0)
            == FreeCount(s) + (if v == EthBufFree then 1 else 0)
  {
    var t := s[k := v];
    if k < |s| - 1 {
      assert t[..|t| - 1] == s[..|s| - 1][k := v];
      FreeCountSet(s[..|s| - 1], k, v);
    } else {
      assert t[..|t| - 1] == s[..|s| - 1];
    }
  }

  /** lan_freemem's test: buf is a pool buffer that is in use */
  predicate Frees(st: seq<EthBufState>, b: BufPtr)
  {
    b.EthBuf? && b.j < |st| && st[b.j] == EthBufBusy
  }

  /** the buffer states after lan_freemem(b) */
  function Released(st: seq<EthBufState>, b: BufPtr): seq<EthBufState>
  {
    if Frees(st, b) then st[b.j := EthBufFree] else st
  }

  /** the local port bind_socket gives socket i: locPort, or one picked from the socket's index */
  function LocalPort(locPort: u16, i: nat): (p: u16)
    requires i < NUM_SOCKETS
    ensures p != 0
    ensures locPort != 0 ==> p == locPort
  {
    if locPort != 0 then locPort else START_EUPH_PORT + i
  }

  /** socket i as bind_socket sets it up, for UDP, with no buffer yet */
  function Bound(remIp: u32, remPort: u16, locPort: u16, mode: bv8, ipAddr: u32, i: nat): Socket
    requires i < NUM_SOCKETS
  {
    Socket(NullBuf, ipAddr, remIp, remPort, LocalPort(locPort, i), 0, 0, SockBusy, IP_PROTOCOL_UDP,
           mode, NotLost)
  }

  /** the five tests udp_packet_callback makes of a socket before it looks at the ports */
  predicate Matches(s: Socket, h: UdpHeader)
  {
    s.remIp == h.fromIp && s.locIp == h.toIp && s.mode & SOC_MODE_READ != 0
    && s.proto == IP_PROTOCOL_UDP && s.locPort == h.toPort
  }

  /** A matching socket takes the frame when its remote port is the sender's or not yet known. */
  function AcceptsFrom(h: UdpHeader): Socket -> bool
  {
    s => Matches(s, h) && (s.remPort == 0 || s.remPort == h.fromPort)
  }

  /** the socket after it accepted a frame of len payload bytes */
  function Delivered(s: Socket, frame: BufPtr, h: UdpHeader, len: u16): Socket
  {
    s.(remPort := h.fromPort, len := len,
       dataLost := if s.mode & SOC_NEW_DATA != 0 then Lost else s.dataLost,
       mode := WithNewData(s.mode), buf := frame)
  }

  /** the mode with the SOC_NEW_DATA flag set */
  function WithNewData(m: bv8): bv8
  {
    m | SOC_NEW_DATA
  }

  /** the mode with the SOC_NEW_DATA flag cleared */
  function WithoutNewData(m: bv8): bv8
  {
    m & !SOC_NEW_DATA
  }

  /** (uintptr_t)buflen on the 32-bit target */
  function AsUnsigned(b: int32): (u: nat)
    ensures u < 0x1_0000_0000 && (b >= 0 ==> u == b)
  {
    if b < 0 then b + 0x1_0000_0000 else b
  }

  /** the number of bytes read_sock copies: the payload, cut to the caller's buffer */
  function Payload(len: u16, buflen: int32): (n: u16)
    ensures n <= len
    ensures buflen >= 0 ==> n <= buflen
    ensures n == len || n == buflen
  {
    if len as nat > AsUnsigned(buflen) then buflen else len
  }

  /** where the data of a frame starts: after the headers for UDP, at 0 for a raw frame */
  function StartPos(proto: byte): nat
  {
    if proto == IP_PROTOCOL_UDP then UDP_PAYLOAD_START else 0
  }

  /** the socket after read_sock took its data, freed is whether lan_freemem released the buffer */
  function ReadDone(s: Socket, buflen: int32, freed: bool): Socket
  {
    s.(lastError := if s.len as nat > AsUnsigned(buflen) then SOC_ERR_NOT_ENOUGH_MEM_BUF else s.lastError,
       mode := WithoutNewData(s.mode),
       buf := if freed then NullBuf else s.buf)
  }

  /**
   * A socket that accepts a frame has data waiting afterwards; it keeps its read mode, learns
   * the sender's port, and records a loss exactly when earlier data was still unread.
   */
  lemma DeliveryFlags(s: Socket, frame: BufPtr, h: UdpHeader, len: u16)
    requires AcceptsFrom(h)(s)
    ensures var d := Delivered(s, frame, h, len);
            d.mode & SOC_NEW_DATA == SOC_NEW_DATA && d.mode & SOC_MODE_READ == SOC_MODE_READ
            && d.remPort == h.fromPort && d.buf == frame && AcceptsFrom(h)(d)
            && (d.dataLost == Lost <==> s.mode & SOC_NEW_DATA != 0 || s.dataLost == Lost)
  {
    var d := Delivered(s, frame, h, len);
    assert d.mode & SOC_MODE_READ == (s.mode & SOC_MODE_READ) | (SOC_NEW_DATA & SOC_MODE_READ);
  }

  /**
   * Reading what a socket accepted restores its mode as it was before the frame came, reports
   * the shortage of a small buffer, and gives the frame back to the pool.
   */
  lemma ReadAfterDelivery(s: Socket, frame: BufPtr, h: UdpHeader, len: u16, buflen: int32)
    requires AcceptsFrom(h)(s) && s.mode & SOC_NEW_DATA == 0
    ensures var r := ReadDone(Delivered(s, frame, h, len), buflen, true);
            r.mode == s.mode && r.buf == NullBuf && r.len == len && r.dataLost == s.dataLost
            && (r.lastError == SOC_ERR_NOT_ENOUGH_MEM_BUF <==> Payload(len, buflen) < len || s.lastError == SOC_ERR_NOT_ENOUGH_MEM_BUF)
  {
    var m := s.mode;
    assert (m | SOC_NEW_DATA) & !SOC_NEW_DATA == m & !SOC_NEW_DATA;
    assert m & !SOC_NEW_DATA == m;
  }

  /**
   * A socket bound for reading with remote port 0 accepts a frame from any port of its remote
   * host, sent to this host's address and the socket's local port.
   */
  lemma BoundAcceptsAnyPort(remIp: u32, locPort: u16, mode: bv8, ipAddr: u32, i: nat, fromPort: u16)
    requires i < NUM_SOCKETS && mode & SOC_MODE_READ != 0
    ensures AcceptsFrom(UdpHeader(remIp, ipAddr, fromPort, LocalPort(locPort, i)))(Bound(remIp, 0, locPort, mode, ipAddr, i))
  {
  }

  /** the module state of lan.c: the socket pool, the buffer pool, and the buffer statistics */
  class Lan {
    const sockets: array<Socket>
    const ethBufState: array<EthBufState>
    /** the free buffers counted at the last lan_getmem or lan_freemem */
    var freenb: nat
    /** the fewest free buffers ever counted */
    var minfreenb: nat
    /** ip_addr, which Init_NIC sets */
    var ipAddr: u32

    ghost predicate Shaped()
      reads this
    {
      sockets.Length == NUM_SOCKETS && ethBufState.Length == NUM_ETH_BUFFERS
    }

    /** freenb is the number of free buffers and minfreenb is at most that */
    ghost predicate Valid()
      reads this, ethBufState
    {
      Shaped() && freenb == FreeCount(ethBufState[..]) && minfreenb <= freenb
    }

    /** lan_init (lan.c:1656-1685), with the statics' initial values: every buffer and socket free */
    constructor(ipAddr: u32)
      ensures Valid() && fresh(sockets) && fresh(ethBufState) && this.ipAddr == ipAddr
      ensures ethBufState[..] == seq(NUM_ETH_BUFFERS, _ => EthBufFree)
      ensures sockets[..] == seq(NUM_SOCKETS, _ => FREE_SOCKET)
      ensures freenb == NUM_ETH_BUFFERS && minfreenb == NUM_ETH_BUFFERS
    {
      ethBufState := new EthBufState[NUM_ETH_BUFFERS](_ => EthBufFree);
      sockets := new Socket[NUM_SOCKETS](_ => FREE_SOCKET);
      freenb, minfreenb := NUM_ETH_BUFFERS, NUM_ETH_BUFFERS;
      this.ipAddr := ipAddr;
      new;
      AllFreeCount(ethBufState[..]);
    }

    /** the NET_BUF_STAT block of lan_getmem and lan_freemem: free buffers counted again */
    method Recount()
      requires Shaped()
      modifies this`freenb, this`minfreenb
      ensures freenb == FreeCount(ethBufState[..])
      ensures minfreenb == if freenb < old(minfreenb) then freenb else old(minfreenb)
    {
      var tmp := 0;
      var i := 0;
      while i < NUM_ETH_BUFFERS
        invariant i <= NUM_ETH_BUFFERS
        invariant tmp == FreeCount(ethBufState[..i])
      {
        assert ethBufState[..i + 1][..i] == ethBufState[..i];
        tmp := if ethBufState[i] == EthBufFree then tmp + 1 else tmp;
        i := i + 1;
      }
      assert ethBufState[..i] == ethBufState[..];
      freenb := tmp;
      minfreenb := if tmp < minfreenb then tmp else minfreenb;
    }

    /**
     * lan_getmem (lan.c:262-285): the lowest free buffer is marked busy and returned; NULL
     * when there is none, which is exactly when freenb is 0.
     */
    method GetMem() returns (r: BufPtr)
      requires Valid()
      modifies ethBufState, this`freenb, this`minfreenb
      ensures Valid() && minfreenb <= old(minfreenb)
      ensures var i := FirstWhere(old(ethBufState[..]), IsFreeBuffer);
              if i < NUM_ETH_BUFFERS
              then r == EthBuf(i) && ethBufState[..] == old(ethBufState[..])[i := EthBufBusy]
                   && freenb == old(freenb) - 1
              else r == NullBuf && ethBufState[..] == old(ethBufState[..])
      ensures r == NullBuf <==> old(freenb) == 0
    {
      ghost var st := ethBufState[..];
      FreeCountNone(st);
      r := NullBuf;
      var i := 0;
      while i < NUM_ETH_BUFFERS
        invariant i <= NUM_ETH_BUFFERS && ethBufState[..] == st
        invariant forall k :: 0 <= k < i ==> !IsFreeBuffer(st[k])
      {
        if ethBufState[i] == EthBufFree {
          FirstWhereIs(st, IsFreeBuffer, i);
          FreeCountSet(st, i, EthBufBusy);
          r := EthBuf(i);
          ethBufState[i] := EthBufBusy;
          break;
        }
        i := i + 1;
      }
      if r == NullBuf {
        FirstWhereIs(st, IsFreeBuffer, i);
      }
      Recount();
    }

    /**
     * lan_freemem (lan.c:293-320): a busy pool buffer is marked free and NULL returned; any
     * other pointer (NULL, a free buffer, memory outside the pool) is returned unchanged.
     */
    method FreeMem(buf: BufPtr) returns (r: BufPtr)
      requires Valid()
      modifies ethBufState, this`freenb, this`minfreenb
      ensures Valid() && minfreenb <= old(minfreenb)
      ensures ethBufState[..] == Released(old(ethBufState[..]), buf)
      ensures r == if Frees(old(ethBufState[..]), buf) then NullBuf else buf
      ensures freenb == old(freenb) + (if r == NullBuf && buf != NullBuf then 1 else 0)
    {
      ghost var st := ethBufState[..];
      r := buf;
      if buf != NullBuf {
        var i := 0;
        while i < NUM_ETH_BUFFERS
          invariant i <= NUM_ETH_BUFFERS && ethBufState[..] == st
          invariant forall k :: 0 <= k < i ==> !(buf == EthBuf(k) && st[k] == EthBufBusy)
        {
          if buf == EthBuf(i) && ethBufState[i] == EthBufBusy {
            FreeCountSet(st, i, EthBufFree);
            ethBufState[i] := EthBufFree;
            r := NullBuf;
            break;
          }
          i := i + 1;
        }
      }
      Recount();
    }

    /**
     * bind_socket (lan.c:156-191): the lowest free socket becomes a busy UDP socket with the
     * given remote end and mode, this host's address, a non-zero local port and no buffer;
     * NULL when every socket is busy.
     */
    method BindSocket(remIp: u32, remPort: u16, locPort: u16, mode: bv8) returns (r: SockPtr)
      requires Shaped()
      modifies sockets
      ensures var i := FirstWhere(old(sockets[..]), IsFreeSocket);
              if i < NUM_SOCKETS
              then r == PoolSock(i) && sockets[..] == old(sockets[..])[i := Bound(remIp, remPort, locPort, mode, ipAddr, i)]
              else r == NullSock && sockets[..] == old(sockets[..])
    {
      ghost var ss := sockets[..];
      r := NullSock;
      var i := 0;
      while i < NUM_SOCKETS
        invariant i <= NUM_SOCKETS && sockets[..] == ss
        invariant forall k :: 0 <= k < i ==> !IsFreeSocket(ss[k])
      {
        if sockets[i].state == SockFree {
          FirstWhereIs(ss, IsFreeSocket, i);
          sockets[i] := Bound(remIp, remPort, locPort, mode, ipAddr, i);
          r := PoolSock(i);
          return;
        }
        i := i + 1;
      }
      FirstWhereIs(ss, IsFreeSocket, i);
    }

    /**
     * change_soc_mode (lan.c:200-221): only a busy pool socket, and only to SOC_MODE_READ or
     * SOC_MODE_WRITE; the whole mode byte is replaced, so a pending SOC_NEW_DATA flag goes too.
     */
    method ChangeSocMode(soc: SockPtr, mode: bv8) returns (r: SockPtr)
      requires Shaped()
      modifies sockets
      ensures if soc.PoolSock? && soc.i < NUM_SOCKETS && old(sockets[soc.i]).state == SockBusy
                 && (mode == SOC_MODE_READ || mode == SOC_MODE_WRITE)
              then r == soc && sockets[..] == old(sockets[..])[soc.i := old(sockets[soc.i]).(mode := mode)]
              else r == NullSock && sockets[..] == old(sockets[..])
    {
      if soc == NullSock || (soc.PoolSock? && soc.i < NUM_SOCKETS && sockets[soc.i].state == SockFree) {
        return NullSock;
      }
      r := NullSock;
      if mode == SOC_MODE_READ || mode == SOC_MODE_WRITE {
        var i := 0;
        while i < NUM_SOCKETS
          invariant i <= NUM_SOCKETS && sockets[..] == old(sockets[..])
          invariant forall k :: 0 <= k < i ==> soc != PoolSock(k)
        {
          if soc == PoolSock(i) {
            sockets[i] := sockets[i].(mode := mode);
            r := soc;
            break;
          }
          i := i + 1;
        }
      }
    }

    /**
     * close_socket (lan.c:230-254): a busy pool socket gives its buffer back, is zeroed and
     * marked free, and NULL is returned; any other pointer, NULL included, is returned as is.
     */
    method CloseSocket(soc: SockPtr) returns (r: SockPtr)
      requires Valid()
      modifies sockets, ethBufState, this`freenb, this`minfreenb
      ensures Valid() && minfreenb <= old(minfreenb)
      ensures if soc.PoolSock? && soc.i < NUM_SOCKETS && old(sockets[soc.i]).state == SockBusy
              then r == NullSock && sockets[..] == old(sockets[..])[soc.i := FREE_SOCKET]
                   && ethBufState[..] == Released(old(ethBufState[..]), old(sockets[soc.i]).buf)
              else r == soc && sockets[..] == old(sockets[..]) && ethBufState[..] == old(ethBufState[..])
    {
      if soc == NullSock {
        return NullSock;
      }
      r := soc;
      var i := 0;
      while i < NUM_SOCKETS
        invariant i <= NUM_SOCKETS && sockets[..] == old(sockets[..])
        invariant forall k :: 0 <= k < i ==> !(soc == PoolSock(k) && sockets[k].state == SockBusy)
      {
        if soc == PoolSock(i) && sockets[i].state == SockBusy {
          var _ := FreeMem(sockets[i].buf);
          sockets[i] := FREE_SOCKET;
          r := NullSock;
          return;
        }
        i := i + 1;
      }
    }

    /**
     * udp_packet_callback (lan.c:1952-2008): the first socket that accepts the frame learns a
     * remote port of 0, records the length, flags new data (and a loss if data was unread),
     * and swaps buffers: it keeps the frame and its old buffer is returned. With no such
     * socket, or a NULL frame, the frame itself is returned and nothing changes.
     */
    method UdpPacketCallback(frame: BufPtr, h: UdpHeader, len: u16) returns (r: BufPtr)
      requires Shaped()
      modifies sockets
      ensures var i := FirstWhere(old(sockets[..]), AcceptsFrom(h));
              if frame == NullBuf || i == NUM_SOCKETS
              then r == frame && sockets[..] == old(sockets[..])
              else r == old(sockets[i].buf)
                   && sockets[..] == old(sockets[..])[i := Delivered(old(sockets[i]), frame, h, len)]
    {
      if frame == NullBuf {
        return frame;
      }
      ghost var ss := sockets[..];
      r := frame;
      var i := 0;
      while i < NUM_SOCKETS
        invariant i <= NUM_SOCKETS && sockets[..] == ss
        invariant forall k :: 0 <= k < i ==> !AcceptsFrom(h)(ss[k])
      {
        var s := sockets[i];
        if s.remIp == h.fromIp && s.locIp == h.toIp && s.mode & SOC_MODE_READ != 0
           && s.proto == IP_PROTOCOL_UDP && s.locPort == h.toPort
        {
          s := s.(remPort := if s.remPort == 0 then h.fromPort else s.remPort);
          if s.remPort == h.fromPort {
            FirstWhereIs(ss, AcceptsFrom(h), i);
            r := Deliver(i, frame, h, len);
            return;
          }
          sockets[i] := s;
        }
        i := i + 1;
      }
      FirstWhereIs(ss, AcceptsFrom(h), i);
    }

    /** the body of udp_packet_callback's loop for the socket i that accepts the frame */
    method Deliver(i: nat, frame: BufPtr, h: UdpHeader, len: u16) returns (r: BufPtr)
      requires Shaped() && i < NUM_SOCKETS && AcceptsFrom(h)(sockets[i])
      modifies sockets
      ensures r == old(sockets[i].buf)
      ensures sockets[..] == old(sockets[..])[i := Delivered(old(sockets[i]), frame, h, len)]
    {
      var s := sockets[i];
      s := s.(remPort := h.fromPort, len := len);
      if s.mode & SOC_NEW_DATA != 0 {
        s := s.(dataLost := Lost);
      }
      s := s.(mode := WithNewData(s.mode));
      r := s.buf;
      sockets[i] := s.(buf := frame);
    }

    /**
     * read_sock (lan.c:1764-1858), polling build, byte copy: NULL reads 0; a socket not open
     * for reading gets SOC_ERR_WRONG_SOC_MODE and reads 0; a socket without new data reads 0
     * once the attempts run out. Otherwise the payload, cut to buflen (with
     * SOC_ERR_NOT_ENOUGH_MEM_BUF), is copied from the frame to dst, the flag is cleared and the
     * frame buffer is freed. frame holds the bytes the socket's buffer points to.
     */
    method ReadSock(soc: SockPtr, dst: array<byte>, buflen: int32, attempts: byte, frame: seq<byte>)
      returns (result: u16)
      requires Valid() && !soc.OtherSock? && (soc.PoolSock? ==> soc.i < NUM_SOCKETS)
      requires soc.PoolSock? ==> var s := sockets[soc.i];
                 StartPos(s.proto) + Payload(s.len, buflen) <= |frame| && Payload(s.len, buflen) <= dst.Length
      modifies sockets, dst, ethBufState, this`freenb, this`minfreenb
      ensures Valid() && minfreenb <= old(minfreenb)
      ensures soc == NullSock ==> result == 0 && sockets[..] == old(sockets[..]) && ethBufState[..] == old(ethBufState[..])
      ensures soc.PoolSock? ==> var s := old(sockets[soc.i]);
              if s.mode & SOC_MODE_READ == 0 then
                result == 0 && sockets[..] == old(sockets[..])[soc.i := s.(lastError := SOC_ERR_WRONG_SOC_MODE)]
                && ethBufState[..] == old(ethBufState[..])
              else if s.mode & SOC_NEW_DATA == 0 then
                result == 0 && sockets[..] == old(sockets[..]) && ethBufState[..] == old(ethBufState[..])
              else
                var n := Payload(s.len, buflen);
                var start := StartPos(s.proto);
                result == n && dst[..n] == frame[start..start + n] && dst[n..] == old(dst[n..])
                && ethBufState[..] == Released(old(ethBufState[..]), s.buf)
                && sockets[..] == old(sockets[..])[soc.i := ReadDone(s, buflen, Frees(old(ethBufState[..]), s.buf))]
      ensures result == 0 ==> dst[..] == old(dst[..])
    {
      if soc == NullSock {
        return 0;
      }
      var i := soc.i;
      if sockets[i].mode & SOC_MODE_READ != SOC_MODE_READ {
        sockets[i] := sockets[i].(lastError := SOC_ERR_WRONG_SOC_MODE);
        return 0;
      }
      // osDelay(5) between polls: no callback runs in this model, so the flag stays as it is
      var s := sockets[i];
      var maxattempts := attempts;
      while s.mode & SOC_NEW_DATA != SOC_NEW_DATA
        decreases maxattempts
      {
        if maxattempts == 0 {
          return 0;
        }
        maxattempts := maxattempts - 1;
      }
      result := TakeData(i, dst, buflen, frame);
    }

    /** the part of read_sock after new data is seen: copy the payload out, free the frame */
    method TakeData(i: nat, dst: array<byte>, buflen: int32, frame: seq<byte>) returns (result: u16)
      requires Valid() && i < NUM_SOCKETS
      requires var s := sockets[i];
               StartPos(s.proto) + Payload(s.len, buflen) <= |frame| && Payload(s.len, buflen) <= dst.Length
      modifies sockets, dst, ethBufState, this`freenb, this`minfreenb
      ensures Valid() && minfreenb <= old(minfreenb)
      ensures var s := old(sockets[i]);
              var n := Payload(s.len, buflen);
              var start := StartPos(s.proto);
              result == n && dst[..n] == frame[start..start + n] && dst[n..] == old(dst[n..])
              && ethBufState[..] == Released(old(ethBufState[..]), s.buf)
              && sockets[..] == old(sockets[..])[i := ReadDone(s, buflen, Frees(old(ethBufState[..]), s.buf))]
    {
      var s := sockets[i];
      var payload: nat := s.len;
      var start := StartPos(s.proto);
      if payload > AsUnsigned(buflen) {
        s := s.(lastError := SOC_ERR_NOT_ENOUGH_MEM_BUF);
        payload := buflen;
      }
      result := payload;
      CopyIn(dst, 0, frame[start..start + payload]);
      s := s.(mode := WithoutNewData(s.mode));
      var b := FreeMem(s.buf);
      sockets[i] := s.(buf := b);
    }
  }

  lemma {:induction false} AllFreeCount(s: seq<EthBufState>)
    requires forall k :: 0 <= k < |s| ==> s[k] == EthBufFree
    ensures FreeCount(s) == |s|
  {
    if |s| > 0 {
      AllFreeCount(s[..|s| - 1]);
    }
  }
  /**
   * The word-aligned copy of read_sock as written (lan.c:1823-1835), on its counter: payload
   * is divided by 4 into a word count, and each word copied takes 4 off it, in the 32-bit
   * arithmetic of uintptr_t. The number of words copied when the counter reaches 0, or None
   * if it has not within fuel words.
   */
  function FastWordsAsWritten(count: u32, fuel: nat): Option<nat>
    decreases fuel
  {
    if count == 0 then Some(0)
    else if fuel == 0 then None
    else
      var next := if count >= 4 then count - 4 else count + 0x1_0000_0000 - 4;
      match FastWordsAsWritten(next, fuel - 1)
      case Some(k) => Some(k + 1)
      case None => None
  }

  /** A 16-byte payload: the fast path copies one word, 4 of the 16 bytes. */
  lemma FastCopyShort()
    ensures FastWordsAsWritten(16 / 4, 1) == Some(1)
    ensures forall fuel: nat :: fuel >= 1 ==> FastWordsAsWritten(16 / 4, fuel) == Some(1)
  {
    assert FastWordsAsWritten(0, 0) == Some(0);
  }

  /** A word count that is a multiple of 4 stops after a quarter of the words due. */
  lemma {:induction false} FastCopyQuarter(count: u32, fuel: nat)
    requires count % 4 == 0 && fuel >= count / 4
    ensures FastWordsAsWritten(count, fuel) == Some(count / 4)
  {
    if count != 0 {
      FastCopyQuarter(count - 4, fuel - 1);
    }
  }

  /**
   * Any other word count never reaches 0: it wraps below 0 and keeps its remainder modulo 4,
   * so an 8-byte payload (2 words) has the loop copy words past both buffers without end.
   */
  lemma {:induction false} FastCopyNeverEnds(count: u32, fuel: nat)
    requires count % 4 != 0
    ensures FastWordsAsWritten(count, fuel) == None
    decreases fuel
  {
    if fuel > 0 {
      var next := if count >= 4 then count - 4 else count + 0x1_0000_0000 - 4;
      assert next % 4 == count % 4;
      FastCopyNeverEnds(next, fuel - 1);
    }
  }
}
