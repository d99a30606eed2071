// The ARP cache of the network stack (lan.c): three entries mapping an IP address to a MAC
// address with an age in seconds. arp_filter learns addresses from ARP responses and answers
// ARP requests for this host; arp_age_entries counts the ages down once a second and clears
// the entries that have run out.

module LanArp {
  import opened Common

  const ARP_CACHE_SIZE: nat := 3
  const INT32_MAX: int := 0x7FFF_FFFF

  /** sizeof(arp_message_t) */
  const ARP_MESSAGE_SIZE: nat := 28

  // The 16-bit message fields as the little-endian CPU reads them from the network-order frame,
  // which is how lan.h compares them: htons of the protocol values.

  /** htons(0x0001) */
  const ARP_HW_TYPE_ETH: u16 := 0x0100
  /** htons(0x0800) */
  const ARP_PROTO_TYPE_IP: u16 := 0x0008
  /** htons(1) */
  const ARP_TYPE_REQUEST: u16 := 0x0100
  /** htons(2) */
  const ARP_TYPE_RESPONSE: u16 := 0x0200

  type Mac = s: seq<byte> | |s| == 6 witness [0, 0, 0, 0, 0, 0]

  /** arp_cache_entry_t */
  datatype ArpEntry = ArpEntry(ip: u32, age: int32, mac: Mac)

  /** an entry as memset(0) leaves it: no address, which arp_filter takes as a free slot */
  const EMPTY_ENTRY := ArpEntry(0, 0, [0, 0, 0, 0, 0, 0])

  /** arp_message_t */
  datatype ArpMessage = ArpMessage(hwType: u16, protoType: u16, hwAddrLen: byte, protoAddrLen: byte,
                                   op: u16, macFrom: Mac, ipFrom: u32, macTo: Mac, ipTo: u32)

  function HasIp(ip: u32): ArpEntry -> bool
  {
    (e: ArpEntry) => e.ip == ip
  }

  /** arp_get_cache_index's answer: the first entry holding ip, or -1 */
  function IndexOf(s: seq<ArpEntry>, ip: u32): (r: int)
    ensures -1 <= r < |s|
    ensures r >= 0 ==> s[r].ip == ip && forall j :: 0 <= j < r ==> s[j].ip != ip
    ensures r == -1 ==> forall j :: 0 <= j < |s| ==> s[j].ip != ip
  {
    var k := FirstWhere(s, HasIp(ip));
    if k == |s| then -1 else k
  }

  /** the MAC address arp_search_cache finds for ip */
  function Lookup(s: seq<ArpEntry>, ip: u32): Option<Mac>
  {
    var k := IndexOf(s, ip);
    if k == -1 then None else Some(s[k].mac)
  }

  /** arp_get_oldest_index's answer: the first entry of smallest age */
  function Oldest(s: seq<ArpEntry>): (r: nat)
    requires |s| > 0
    ensures r < |s|
    ensures forall j :: 0 <= j < |s| ==> s[r].age <= s[j].age
    ensures forall j :: 0 <= j < r ==> s[j].age > s[r].age
  {
    if |s| == 1 then 0
    else
      var k := Oldest(s[..|s| - 1]);
      if s[|s| - 1].age < s[k].age then |s| - 1 else k
  }

  /** one second of arp_age_entries on one entry: a positive age counts down, age 0 is cleared */
  function Aged(e: ArpEntry): ArpEntry
  {
    if e.age > 0 then e.(age := e.age - 1) else EMPTY_ENTRY
  }

  /** n seconds of aging */
  function AgedFor(e: ArpEntry, n: nat): ArpEntry
    decreases n
  {
    if n == 0 then e else AgedFor(Aged(e), n - 1)
  }

  /**
   * An entry set with age t keeps its address and MAC through t seconds of aging, and is
   * cleared in the second after.
   */
  lemma {:induction false} AgingLifetime(e: ArpEntry, n: nat)
    requires n <= e.age
    ensures AgedFor(e, n) == e.(age := e.age - n)
    ensures AgedFor(e, n + 1) == if n == e.age then EMPTY_ENTRY else e.(age := e.age - n - 1)
    decreases n
  {
    if n > 0 {
      AgingLifetime(Aged(e), n - 1);
    }
  }

  /** (uint8_t)i for an int i */
  function AsUint8(i: int): byte
  {
    i % 0x100
  }

  /**
   * The slot arp_filter as written picks for a response from ip (lan.c:1562-1573): the entry
   * holding ip, else the first free one, cast to uint8_t; the cast turns a missing free slot
   * into 255, so the test for -1 that would take the oldest entry never holds.
   */
  function ResponseSlotAsWritten(s: seq<ArpEntry>, ip: u32): int
    requires |s| > 0
  {
    var idx := IndexOf(s, ip);
    if idx != -1 then idx
    else
      var idx2 := AsUint8(IndexOf(s, 0));
      if idx2 == -1 then Oldest(s) else idx2
  }

  /** With no entry for ip and no free entry, the slot written as written is 255, past the cache. */
  lemma SlotAsWrittenOutOfBounds(s: seq<ArpEntry>, ip: u32)
    requires |s| == ARP_CACHE_SIZE
    requires forall j :: 0 <= j < |s| ==> s[j].ip != ip && s[j].ip != 0
    ensures ResponseSlotAsWritten(s, ip) == 255 && ResponseSlotAsWritten(s, ip) >= ARP_CACHE_SIZE
  {
  }

  /** A full cache of hosts 1, 2 and 3 and a response from host 4 write arp_cache[255]. */
  lemma FullCacheResponse()
    ensures var s := [ArpEntry(1, 5, EMPTY_ENTRY.mac), ArpEntry(2, 5, EMPTY_ENTRY.mac), ArpEntry(3, 5, EMPTY_ENTRY.mac)];
            ResponseSlotAsWritten(s, 4) == 255
  {
    var s := [ArpEntry(1, 5, EMPTY_ENTRY.mac), ArpEntry(2, 5, EMPTY_ENTRY.mac), ArpEntry(3, 5, EMPTY_ENTRY.mac)];
    SlotAsWrittenOutOfBounds(s, 4);
  }

  /**
   * The slot for a response from ip: the entry holding ip, else the first free one, else the
   * oldest; always inside the cache.
   */
  function ResponseSlot(s: seq<ArpEntry>, ip: u32): (r: nat)
    requires |s| > 0
    ensures r < |s|
    ensures IndexOf(s, ip) != -1 ==> r == IndexOf(s, ip)
    ensures IndexOf(s, ip) == -1 && IndexOf(s, 0) != -1 ==> r == IndexOf(s, 0)
    ensures IndexOf(s, ip) == -1 && IndexOf(s, 0) == -1 ==> r == Oldest(s)
  {
    var idx := IndexOf(s, ip);
    if idx != -1 then idx
    else
      var idx2 := IndexOf(s, 0);
      if idx2 != -1 then idx2 else Oldest(s)
  }

  /** Where the code as written finds a slot for the host or a free one, it picks the same slot. */
  lemma SlotAsWrittenAgrees(s: seq<ArpEntry>, ip: u32)
    requires |s| > 0 && |s| <= 0x100
    requires IndexOf(s, ip) != -1 || IndexOf(s, 0) != -1
    ensures ResponseSlotAsWritten(s, ip) == ResponseSlot(s, ip)
  {
  }

  /** the cache after a response from ip with mac: the slot set, with the age at timeout */
  function Learned(s: seq<ArpEntry>, ip: u32, mac: Mac, timeout: int32): seq<ArpEntry>
    requires |s| > 0
  {
    s[ResponseSlot(s, ip) := ArpEntry(ip, timeout, mac)]
  }

  /** After a response from ip, a search for ip finds the MAC it carried, and nothing else moved. */
  lemma LookupLearned(s: seq<ArpEntry>, ip: u32, mac: Mac, timeout: int32)
    requires |s| > 0
    ensures Lookup(Learned(s, ip, mac, timeout), ip) == Some(mac)
    ensures IndexOf(Learned(s, ip, mac, timeout), ip) == ResponseSlot(s, ip)
    ensures forall j :: 0 <= j < |s| && j != ResponseSlot(s, ip) ==> Learned(s, ip, mac, timeout)[j] == s[j]
  {
    var t := Learned(s, ip, mac, timeout);
    var r := ResponseSlot(s, ip);
    if IndexOf(s, ip) == -1 {
      assert forall j :: 0 <= j < r ==> t[j].ip != ip;
    }
    FirstWhereIs(t, HasIp(ip), r);
  }

  /** the message arp_filter accepts: long enough, Ethernet and IPv4, and sent to this host */
  predicate ForUs(msg: ArpMessage, len: u16, ipAddr: u32)
  {
    len as nat >= ARP_MESSAGE_SIZE && msg.hwType == ARP_HW_TYPE_ETH
    && msg.protoType == ARP_PROTO_TYPE_IP && msg.ipTo == ipAddr
  }

  /** the request rewritten in place into this host's response (lan.c:1554-1558) */
  function Reply(msg: ArpMessage, mac: Mac, ipAddr: u32): ArpMessage
  {
    msg.(op := ARP_TYPE_RESPONSE, macTo := msg.macFrom, macFrom := mac, ipTo := msg.ipFrom,
         ipFrom := ipAddr)
  }

  /** the frame arp_filter hands to eth_reply: the response to a request for this host */
  function ReplyTo(msg: ArpMessage, len: u16, ipAddr: u32, mac: Mac): Option<ArpMessage>
  {
    if ForUs(msg, len, ipAddr) && msg.op == ARP_TYPE_REQUEST then Some(Reply(msg, mac, ipAddr)) else None
  }

  /** the cache after arp_filter: only a response for this host changes it */
  function Filtered(s: seq<ArpEntry>, msg: ArpMessage, len: u16, ipAddr: u32, timeout: int32): seq<ArpEntry>
    requires |s| > 0
  {
    if ForUs(msg, len, ipAddr) && msg.op == ARP_TYPE_RESPONSE then Learned(s, msg.ipFrom, msg.macFrom, timeout)
    else s
  }

  /** the request request_arp sends for node (lan.c:1467-1494), broadcast with an empty target MAC */
  function Request(mac: Mac, ipAddr: u32, node: u32): ArpMessage
  {
    ArpMessage(ARP_HW_TYPE_ETH, ARP_PROTO_TYPE_IP, 6, 4, ARP_TYPE_REQUEST, mac, ipAddr,
               [0, 0, 0, 0, 0, 0], node)
  }

  /**
   * The exchange: the node asked by request_arp answers through its own arp_filter, and the
   * answer, passed through the asking host's arp_filter, leaves the node's MAC in its cache.
   */
  lemma RequestAnswered(s: seq<ArpEntry>, mac: Mac, ipAddr: u32, node: u32, nodeMac: Mac, timeout: int32)
    requires |s| > 0
    ensures var answer := ReplyTo(Request(mac, ipAddr, node), ARP_MESSAGE_SIZE as u16, node, nodeMac);
            answer.Some? && answer.value.macTo == mac
            && Lookup(Filtered(s, answer.value, ARP_MESSAGE_SIZE as u16, ipAddr, timeout), node) == Some(nodeMac)
  {
    LookupLearned(s, node, nodeMac, timeout);
  }

  /** arp_cache[] */
  class ArpCache {
    const cache: array<ArpEntry>

    ghost predicate Valid()
      reads this
    {
      cache.Length == ARP_CACHE_SIZE
    }

    /** the zero-initialised static cache */
    constructor()
      ensures Valid() && fresh(cache) && cache[..] == seq(ARP_CACHE_SIZE, _ => EMPTY_ENTRY)
    {
      cache := new ArpEntry[ARP_CACHE_SIZE](_ => EMPTY_ENTRY);
    }

    /** arp_clear_cache (lan.c:1400-1405) */
    method ClearCache()
      requires Valid()
      modifies cache
      ensures cache[..] == seq(ARP_CACHE_SIZE, _ => EMPTY_ENTRY)
    {
      var i := 0;
      while i < ARP_CACHE_SIZE
        invariant i <= ARP_CACHE_SIZE
        invariant forall k :: 0 <= k < i ==> cache[k] == EMPTY_ENTRY
      {
        cache[i] := EMPTY_ENTRY;
        i := i + 1;
      }
    }

    /** arp_age_entries (lan.c:1412-1424): one second of aging for every entry */
    method AgeEntries()
      requires Valid()
      modifies cache
      ensures forall k :: 0 <= k < ARP_CACHE_SIZE ==> cache[k] == Aged(old(cache[k]))
    {
      var i := 0;
      while i < ARP_CACHE_SIZE
        invariant i <= ARP_CACHE_SIZE
        invariant forall k :: 0 <= k < i ==> cache[k] == Aged(old(cache[k]))
        invariant forall k :: i <= k < ARP_CACHE_SIZE ==> cache[k] == old(cache[k])
      {
        if cache[i].age > 0 {
          cache[i] := cache[i].(age := cache[i].age - 1);
        } else {
          cache[i] := EMPTY_ENTRY;
        }
        i := i + 1;
      }
    }

    /** arp_get_cache_index (lan.c:1447-1459) */
    method GetCacheIndex(ip: u32) returns (rv: int)
      requires Valid()
      ensures rv == IndexOf(cache[..], ip)
    {
      rv := -1;
      var i := 0;
      while i < ARP_CACHE_SIZE
        invariant i <= ARP_CACHE_SIZE
        invariant forall k :: 0 <= k < i ==> cache[k].ip != ip
      {
        if cache[i].ip == ip {
          FirstWhereIs(cache[..], HasIp(ip), i);
          return i;
        }
        i := i + 1;
      }
      FirstWhereIs(cache[..], HasIp(ip), i);
    }

    /** arp_search_cache (lan.c:1431-1440): the MAC of the entry for ip, as a value */
    method SearchCache(ip: u32) returns (mac: Option<Mac>)
      requires Valid()
      ensures mac == Lookup(cache[..], ip)
    {
      var i := GetCacheIndex(ip);
      mac := if i != -1 then Some(cache[i].mac) else None;
    }

    /** arp_get_oldest_index (lan.c:1525-1537) */
    method GetOldestIndex() returns (retVal: nat)
      requires Valid()
      ensures retVal == Oldest(cache[..])
    {
      retVal := 0;
      var oldest: int := INT32_MAX;
      var i := 0;
      while i < ARP_CACHE_SIZE
        invariant i <= ARP_CACHE_SIZE
        invariant i == 0 ==> retVal == 0 && oldest == INT32_MAX
        invariant i > 0 ==> retVal == Oldest(cache[..i]) && oldest == cache[retVal].age
      {
        assert cache[..i + 1][..i] == cache[..i];
        if cache[i].age < oldest {
          oldest := cache[i].age;
          retVal := i;
        }
        i := i + 1;
      }
      assert cache[..i] == cache[..];
    }

    /**
     * arp_filter (lan.c:1545-1584) with the slot choice corrected: a request for this host is
     * answered (the rewritten frame is returned for eth_reply), a response for this host is
     * learned, and anything else is ignored.
     */
    method ArpFilter(msg: ArpMessage, len: u16, ipAddr: u32, mac: Mac, timeout: int32)
      returns (reply: Option<ArpMessage>)
      requires Valid()
      modifies cache
      ensures reply == ReplyTo(msg, len, ipAddr, mac)
      ensures cache[..] == Filtered(old(cache[..]), msg, len, ipAddr, timeout)
    {
      reply := None;
      if len as nat >= ARP_MESSAGE_SIZE {
        if msg.hwType == ARP_HW_TYPE_ETH && msg.protoType == ARP_PROTO_TYPE_IP && msg.ipTo == ipAddr {
          if msg.op == ARP_TYPE_REQUEST {
            reply := Some(Reply(msg, mac, ipAddr));
          } else if msg.op == ARP_TYPE_RESPONSE {
            var idx := GetCacheIndex(msg.ipFrom);
            if idx == -1 {
              idx := GetCacheIndex(0);
              if idx == -1 {
                idx := GetOldestIndex();
              }
            }
            cache[idx] := ArpEntry(msg.ipFrom, timeout, msg.macFrom);
          }
        }
      }
    }
  }
}
