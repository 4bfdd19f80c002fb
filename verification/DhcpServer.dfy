/** The DHCP server itself (lib/networking/dhserver.c): one message buffer that persists
    between packets, and a table of entries updated in place. */
module DhcpServer {
  import opened Basics
  import opened RingIndex
  import opened DhcpOptions
  import opened DhcpLease

  // Layout of DHCP_TYPE.
  const SECS := 8
  const YIADDR := 16
  const CHADDR := 28
  const MAGIC := 236
  const OPTIONS := 240
  const LENGTH := 516   // one byte of padding behind the options

  const DISCOVER := 1
  const OFFER := 2
  const REQUEST := 3
  const ACK := 5

  const COOKIE: seq<byte> := [0x63, 0x82, 0x53, 0x63]

  function MacAt(d: seq<byte>, at: nat): Mac
    requires at + 6 <= |d|
  {
    d[at..at + 6]
  }

  function IpAt(d: seq<byte>, at: nat): Ip4
    requires at + 4 <= |d|
  {
    d[at..at + 4]
  }

  /** What the server makes of the bytes in its buffer.  The message type of an option with
      no value is the byte behind it. */
  function Interpret(d: seq<byte>, sendOk: bool): Msg
    requires |d| == LENGTH
  {
    var area := d[OPTIONS..OPTIONS + AREA];
    var mac := MacAt(d, CHADDR);
    match Find(area, 0, MESSAGETYPE)
    case None => Ignored
    case Some(i) =>
      if d[OPTIONS + i + 2] == DISCOVER then Discover(mac)
      else if d[OPTIONS + i + 2] == REQUEST then
        match Find(area, 0, IPADDRESS)
        case None => Ignored
        case Some(j) =>
          if area[j + 1] != 4 then Ignored else Request(mac, IpAt(area, j + 2), sendOk)
      else Ignored
  }

  /** The server reads what a client writes: with the message type, and for a REQUEST the address
      asked for, among distinct options, wherever they stand. */
  lemma ReadsDiscover(d: seq<byte>, opts: seq<Opt>, k: nat, sendOk: bool)
    requires |d| == LENGTH && Written(d[OPTIONS..OPTIONS + AREA], opts) && DistinctCodes(opts)
    requires k < |opts| && opts[k] == Opt(MESSAGETYPE, [DISCOVER])
    ensures Interpret(d, sendOk) == Discover(d[28..34])
  {
    ReadsType(d, opts, k);
  }

  lemma ReadsType(d: seq<byte>, opts: seq<Opt>, k: nat)
    requires |d| == LENGTH && Written(d[OPTIONS..OPTIONS + AREA], opts) && DistinctCodes(opts)
    requires k < |opts| && opts[k].code == MESSAGETYPE && |opts[k].value| == 1
    ensures var area := d[OPTIONS..OPTIONS + AREA];
            && Find(area, 0, MESSAGETYPE) == Some(Offset(opts, k)) && Offset(opts, k) + 3 <= AREA
            && d[OPTIONS + Offset(opts, k) + 2] == opts[k].value[0]
  {
    var area, at := d[OPTIONS..OPTIONS + AREA], Offset(opts, k);
    FindUndoesFill(area, opts, k);
    assert area[at + 2 + 0] == opts[k].value[0] && area[at + 2] == d[OPTIONS + at + 2];
  }

  lemma ReadsRequest(d: seq<byte>, opts: seq<Opt>, k: nat, j: nat, ip: Ip4, sendOk: bool)
    requires |d| == LENGTH && Written(d[OPTIONS..OPTIONS + AREA], opts) && DistinctCodes(opts)
    requires k < |opts| && opts[k] == Opt(MESSAGETYPE, [REQUEST])
    requires j < |opts| && opts[j] == Opt(IPADDRESS, ip)
    ensures Interpret(d, sendOk) == Request(d[28..34], ip, sendOk)
  {
    var area := d[OPTIONS..OPTIONS + AREA];
    var from := Offset(opts, j);
    ReadsType(d, opts, k);
    FindUndoesFill(area, opts, j);
    forall i | 0 <= i < 4 ensures IpAt(area, from + 2)[i] == ip[i] {
      assert area[from + 2 + i] == opts[j].value[i];
    }
  }

  /** A message of another type, or without one, is ignored, and so is a REQUEST that names no
      address of four bytes. */
  lemma ReadsNothingElse(d: seq<byte>, opts: seq<Opt>, sendOk: bool)
    requires |d| == LENGTH && Written(d[OPTIONS..OPTIONS + AREA], opts) && DistinctCodes(opts)
    requires forall k :: 0 <= k < |opts| && opts[k].code == MESSAGETYPE ==> |opts[k].value| == 1
    requires forall k :: 0 <= k < |opts| && opts[k].code == MESSAGETYPE && opts[k].value[0] == REQUEST ==>
               forall j :: 0 <= j < |opts| && opts[j].code == IPADDRESS ==> |opts[j].value| != 4
    requires forall k :: 0 <= k < |opts| && opts[k].code == MESSAGETYPE ==> opts[k].value[0] != DISCOVER
    ensures Interpret(d, sendOk) == Ignored
  {
    var area := d[OPTIONS..OPTIONS + AREA];
    if k :| 0 <= k < |opts| && opts[k].code == MESSAGETYPE {
      ReadsType(d, opts, k);
      if j :| 0 <= j < |opts| && opts[j].code == IPADDRESS {
        FindUndoesFill(area, opts, j);
      } else {
        FindNothingElse(area, opts, IPADDRESS);
      }
    } else {
      FindNothingElse(area, opts, MESSAGETYPE);
    }
  }

  /** A packet laid over the buffer; a short one leaves the rest of the buffer as it was. */
  function Overlaid(was: seq<byte>, packet: seq<byte>): (d: seq<byte>)
    requires |was| == LENGTH
    ensures |d| == LENGTH && forall x :: 0 <= x < LENGTH ==> d[x] == if x < |packet| then packet[x] else was[x]
  {
    var n := Min(|packet|, LENGTH);
    packet[..n] + was[n..]
  }

  /** `d` is the answer to the message in `was` that gives out `addr`. */
  predicate IsReply(d: seq<byte>, was: seq<byte>, addr: Ip4, p: Params)
    requires ValidParams(p)
  {
    && |d| == |was| == LENGTH
    && d[0] == 2 && d[SECS] == d[SECS + 1] == d[SECS + 2] == d[SECS + 3] == 0
    && (forall i :: 0 <= i < 4 ==> d[YIADDR + i] == addr[i] && d[MAGIC + i] == COOKIE[i])
    && Written(d[OPTIONS..OPTIONS + AREA], OptionList(p))
    && (forall x :: 1 <= x < OPTIONS && !(SECS <= x < SECS + 4) && !(YIADDR <= x < YIADDR + 4) && !(MAGIC <= x < MAGIC + 4) ==>
          d[x] == was[x])
  }

  class Server {
    const entries: array<Entry>
    const data: array<byte>
    const domain: Option<seq<byte>>
    const dns: Ip4
    const router: Ip4

    ghost predicate Valid()
      reads this, entries
    {
      && data.Length == LENGTH && (domain.Some? ==> |domain.value| <= 239)
      && forall i :: 0 <= i < entries.Length ==> entries[i].lease < 0x1_0000_0000
    }

    constructor (entries: array<Entry>, domain: Option<seq<byte>>, dns: Ip4, router: Ip4)
      requires domain.Some? ==> |domain.value| <= 239
      requires forall i :: 0 <= i < entries.Length ==> entries[i].lease < 0x1_0000_0000
      ensures Valid() && this.entries == entries && fresh(data)
    {
      this.entries, this.domain, this.dns, this.router := entries, domain, dns, router;
      data := new byte[LENGTH](_ => 0);
    }

    /** `entry_by_mac`, and `vacant_address` when asked for the empty address. */
    method EntryByMac(mac: Mac) returns (r: Option<nat>)
      ensures r == ByMac(entries[..], 0, mac)
    {
      var i := 0;
      while i < entries.Length
        invariant 0 <= i <= entries.Length && ByMac(entries[..], 0, mac) == ByMac(entries[..], i, mac)
      {
        if entries[i].mac == mac { return Some(i); }
        i := i + 1;
      }
      r := None;
    }

    /** `entry_by_ip`. */
    method EntryByIp(ip: Ip4) returns (r: Option<nat>)
      ensures r == ByIp(entries[..], 0, ip)
    {
      var i := 0;
      while i < entries.Length
        invariant 0 <= i <= entries.Length && ByIp(entries[..], 0, ip) == ByIp(entries[..], i, ip)
      {
        if entries[i].addr == ip { return Some(i); }
        i := i + 1;
      }
      r := None;
    }

    function ReplyParams(msgType: byte, lease: nat, serverIp: Ip4, netmask: Ip4): Params {
      Params(msgType, domain, dns, lease, serverIp, router, netmask)
    }

    /** Turn the message in the buffer into the answer that gives out `addr`. */
    method Compose(addr: Ip4, p: Params)
      requires Valid() && ValidParams(p)
      modifies data
      ensures IsReply(data[..], old(data[..]), addr, p)
    {
      data[0] := 2;
      data[SECS], data[SECS + 1], data[SECS + 2], data[SECS + 3] := 0, 0, 0, 0;
      forall i | 0 <= i < 4 { data[YIADDR + i] := addr[i]; }
      forall i | 0 <= i < 4 { data[MAGIC + i] := COOKIE[i]; }
      forall i | 0 <= i < AREA { data[OPTIONS + i] := 0; }
      var _ := FillOptions(data, OPTIONS, p);
    }

    /** The DISCOVER case. */
    method OnDiscover(mac: Mac, sendOk: bool, serverIp: Ip4, netmask: Ip4) returns (reply: Option<seq<byte>>)
      requires Valid()
      modifies data
      ensures var answer := Handle(entries[..], Discover(mac)).1;
              && (reply.Some? <==> answer.Offer? && sendOk)
              && (answer.Silent? ==> data[..] == old(data[..]))
              && (answer.Offer? ==> answer.lease < 0x1_0000_0000)
              && (answer.Offer? ==> IsReply(data[..], old(data[..]), answer.addr,
                                            ReplyParams(OFFER, answer.lease, serverIp, netmask)))
      ensures reply.Some? ==> reply.value == data[..]
    {
      var e := EntryByMac(mac);
      if e == None { e := EntryByMac(VACANT); }
      if e == None { return None; }
      var entry := entries[e.value];
      Compose(entry.addr, ReplyParams(OFFER, entry.lease, serverIp, netmask));
      if !sendOk { return None; }
      reply := Some(data[..]);
    }

    /** The REQUEST case, once the requested address has been found. */
    method OnRequest(mac: Mac, ip: Ip4, sendOk: bool, serverIp: Ip4, netmask: Ip4) returns (reply: Option<seq<byte>>)
      requires Valid()
      modifies data, entries
      ensures Valid() && entries[..] == Handle(old(entries[..]), Request(mac, ip, sendOk)).0
      ensures var answer := Handle(old(entries[..]), Request(mac, ip, sendOk)).1;
              && (reply.Some? <==> answer.Ack?)
              && (answer.Ack? ==> answer.lease < 0x1_0000_0000)
              && (answer.Ack? ==> IsReply(data[..], old(data[..]), answer.addr,
                                          ReplyParams(ACK, answer.lease, serverIp, netmask)))
      ensures reply.Some? ==> reply.value == data[..]
      ensures reply == None && sendOk ==> data[..] == old(data[..])
    {
      var e := EntryByMac(mac);
      if e.Some? { entries[e.value] := entries[e.value].(mac := VACANT); }
      assert entries[..] == Freed(old(entries[..]), mac);
      e := EntryByIp(ip);
      if e == None { return None; }
      var entry := entries[e.value];
      if entry.mac != VACANT { return None; }
      Compose(ip, ReplyParams(ACK, entry.lease, serverIp, netmask));
      if !sendOk { return None; }
      entries[e.value] := entry.(mac := mac);
      reply := Some(data[..]);
    }

    /** The packet is laid over the buffer. */
    method Load(packet: seq<byte>)
      requires Valid()
      modifies data
      ensures data[..] == Overlaid(old(data[..]), packet)
    {
      var n := Min(|packet|, LENGTH);
      forall i | 0 <= i < n { data[i] := packet[i]; }
    }

    /** What `udp_recv_proc` reads from the buffer before it acts. */
    method Parse(sendOk: bool) returns (m: Msg)
      requires Valid()
      ensures m == Interpret(data[..], sendOk)
    {
      var d := data[..];
      var area := d[OPTIONS..OPTIONS + AREA];
      var ty := ReadOption(MESSAGETYPE);
      if ty == None { return Ignored; }
      var kind := d[OPTIONS + ty.value + 2];
      if kind == DISCOVER { return Discover(MacAt(d, CHADDR)); }
      if kind != REQUEST { return Ignored; }
      var at := ReadOption(IPADDRESS);
      if at == None || area[at.value + 1] != 4 { return Ignored; }
      m := Request(MacAt(d, CHADDR), IpAt(area, at.value + 2), sendOk);
    }

    method ReadOption(attr: byte) returns (r: Option<nat>)
      requires Valid()
      ensures r == Find(data[..][OPTIONS..OPTIONS + AREA], 0, attr)
    {
      assert data[..][OPTIONS..OPTIONS + AREA] == data[OPTIONS..OPTIONS + AREA];
      r := FindOption(data, OPTIONS, AREA, attr);
    }

    /** The answer to a message is in the buffer and goes out. */
    ghost predicate Answered(reply: Option<seq<byte>>, was: seq<byte>, answer: Answer, sendOk: bool, serverIp: Ip4, netmask: Ip4)
      reads this, entries, data
      requires Valid()
    {
      && (reply.Some? <==> !answer.Silent? && sendOk)
      && (reply.Some? ==> reply.value == data[..] && answer.lease < 0x1_0000_0000)
      && (reply == None && sendOk ==> data[..] == was)
      && (reply.Some? ==> IsReply(data[..], was, answer.addr,
                                  ReplyParams(if answer.Ack? then ACK else OFFER, answer.lease, serverIp, netmask)))
    }

    /** The switch of `udp_recv_proc`. */
    method Act(m: Msg, sendOk: bool, serverIp: Ip4, netmask: Ip4) returns (reply: Option<seq<byte>>)
      requires Valid() && (m.Request? ==> m.sendOk == sendOk)
      modifies data, entries
      ensures Valid() && entries[..] == Handle(old(entries[..]), m).0
      ensures Answered(reply, old(data[..]), Handle(old(entries[..]), m).1, sendOk, serverIp, netmask)
    {
      match m {
        case Ignored => reply := None;
        case Discover(mac) => reply := OnDiscover(mac, sendOk, serverIp, netmask);
        case Request(mac, ip, _) => reply := OnRequest(mac, ip, sendOk, serverIp, netmask);
      }
    }

    /** `udp_recv_proc`: the packet is laid over the buffer, the table changes as the message
        now in it says, and the answer goes out exactly when there is one and a buffer to
        send it in. */
    method Receive(packet: seq<byte>, sendOk: bool, serverIp: Ip4, netmask: Ip4) returns (reply: Option<seq<byte>>)
      requires Valid()
      modifies data, entries
      ensures Valid()
      ensures var d := Overlaid(old(data[..]), packet);
              && entries[..] == Handle(old(entries[..]), Interpret(d, sendOk)).0
              && Answered(reply, d, Handle(old(entries[..]), Interpret(d, sendOk)).1, sendOk, serverIp, netmask)
    {
      Load(packet);
      var m := Parse(sendOk);
      reply := Act(m, sendOk, serverIp, netmask);
    }
  }

  // ---------------------------------------------------------------- whole histories

  datatype Packet = Packet(bytes: seq<byte>, sendOk: bool, serverIp: Ip4, netmask: Ip4)

  /** `r` is the reply to the message `d` that gives out `addr`: its header by offset, and its
      options read code by code. */
  ghost predicate Answers(r: seq<byte>, d: seq<byte>, answer: Answer, p: Packet, s: Server)
    requires !answer.Silent?
  {
    && |r| == |d| == 516 && answer.lease < 0x1_0000_0000
    && r[0] == 2 && r[16..20] == answer.addr && r[236..240] == [0x63, 0x82, 0x53, 0x63]
    && r[1..8] == d[1..8] && r[28..236] == d[28..236]
    && TellsAll(r[240..515], if answer.Ack? then 5 else 2, Be32(answer.lease), p.serverIp, p.netmask, s.router, s.dns, s.domain)
  }

  lemma ReplyAnswers(r: seq<byte>, d: seq<byte>, answer: Answer, p: Packet, s: Server)
    requires !answer.Silent? && answer.lease < 0x1_0000_0000 && (s.domain.Some? ==> |s.domain.value| <= 239)
    requires IsReply(r, d, answer.addr, s.ReplyParams(if answer.Ack? then ACK else OFFER, answer.lease, p.serverIp, p.netmask))
    ensures Answers(r, d, answer, p, s)
  {
    ReplyTells(r[OPTIONS..OPTIONS + AREA], s.ReplyParams(if answer.Ack? then ACK else OFFER, answer.lease, p.serverIp, p.netmask));
    forall x | 28 <= x < 236 ensures r[x] == d[x] {}
    forall x | 1 <= x < 8 ensures r[x] == d[x] {}
  }

  /** Packet `i` was read as the message that stood in the buffer once it was laid over what was
      there, and answered as the lease table says: nothing, or a message that gives out the
      address offered or acknowledged. */
  ghost predicate Served(t: Table, ms: seq<Msg>, i: nat, p: Packet, buffer: seq<byte>, reply: Option<seq<byte>>, s: Server)
    requires i < |ms|
  {
    var answer := AnswerAt(t, ms, i);
    && |buffer| == LENGTH && ms[i] == Interpret(Overlaid(buffer, p.bytes), p.sendOk)
    && (reply.Some? <==> !answer.Silent? && p.sendOk)
    && (reply.Some? ==> Answers(reply.value, Overlaid(buffer, p.bytes), answer, p, s))
  }

  /** The next packet finds the reply in the buffer, or what this one left; without a packet buffer
      to send in, a reply may have been composed there. */
  ghost predicate Leaves(buffer: seq<byte>, p: Packet, reply: Option<seq<byte>>, next: seq<byte>) {
    && |buffer| == |next| == LENGTH
    && (reply.Some? ==> next == reply.value)
    && (reply == None && p.sendOk ==> next == Overlaid(buffer, p.bytes))
  }

  lemma ServedStays(t: Table, ms: seq<Msg>, m: Msg, i: nat, p: Packet, buffer: seq<byte>, reply: Option<seq<byte>>, s: Server)
    requires i < |ms| && Served(t, ms, i, p, buffer, reply, s)
    ensures Served(t, ms + [m], i, p, buffer, reply, s)
  {
    assert (ms + [m])[..i] == ms[..i];
  }

  /** Two acknowledgements of one address to different clients. */
  predicate AckedTwice(t: Table, ms: seq<Msg>, k: nat, l: nat)
    requires k < |ms| && l < |ms|
  {
    && AnswerAt(t, ms, k).Ack? && AnswerAt(t, ms, l).Ack? && AnswerAt(t, ms, k).addr == AnswerAt(t, ms, l).addr
    && AnswerAt(t, ms, k).to != VACANT && AnswerAt(t, ms, k).to != AnswerAt(t, ms, l).to
  }

  /** Any history of packets: the table follows the messages read from them; each is answered, and
      changes the table, as it should; and no address is acknowledged to a second client before
      the first one has sent a REQUEST, however short or malformed the packets. */
  method Serve(s: Server, packets: seq<Packet>)
    returns (replies: seq<Option<seq<byte>>>, ghost ms: seq<Msg>, ghost buffers: seq<seq<byte>>)
    requires s.Valid()
    modifies s.data, s.entries
    ensures s.Valid() && |ms| == |replies| == |packets| && s.entries[..] == After(old(s.entries[..]), ms)
    ensures |buffers| == |packets| + 1 && buffers[0] == old(s.data[..]) && buffers[|packets|] == s.data[..]
    ensures Trace(old(s.entries[..]), ms, packets, buffers, replies, s)
    ensures OneEntryEach(old(s.entries[..])) ==> OneEntryEach(s.entries[..])
    ensures OneEntryEach(old(s.entries[..])) ==> forall i :: 0 <= i < |ms| ==> ProperAt(old(s.entries[..]), ms, i)
    ensures OneEntryEach(old(s.entries[..])) ==>
      forall k, l :: 0 <= k < l < |ms| && AckedTwice(old(s.entries[..]), ms, k, l) ==>
        exists j :: k < j < l && ms[j].Request? && ms[j].mac == AnswerAt(old(s.entries[..]), ms, k).to
  {
    ghost var t := s.entries[..];
    replies, ms, buffers := [], [], [s.data[..]];
    for n := 0 to |packets|
      invariant s.Valid() && |ms| == |replies| == n && s.entries[..] == After(t, ms)
      invariant |buffers| == n + 1 && buffers[0] == old(s.data[..]) && buffers[n] == s.data[..]
      invariant Trace(t, ms, packets, buffers, replies, s) == true
    {
      var reply;
      ghost var m;
      reply, m := ServeOne(s, packets[n], t, ms);
      TraceNext(t, ms, m, packets, buffers, s.data[..], replies, reply, s);
      replies, ms, buffers := replies + [reply], ms + [m], buffers + [s.data[..]];
    }
    if OneEntryEach(t) { SafeHistory(t, ms); }
  }

  /** Every packet so far was served, and left the buffer as it should to the next. */
  ghost predicate Trace(t: Table, ms: seq<Msg>, packets: seq<Packet>, buffers: seq<seq<byte>>,
                        replies: seq<Option<seq<byte>>>, s: Server)
  {
    && |ms| == |replies| <= |packets| && |buffers| == |ms| + 1
    && (forall i :: 0 <= i < |ms| ==> Served(t, ms, i, packets[i], buffers[i], replies[i], s))
    && (forall i, j :: 0 <= i < |ms| && j == i + 1 ==> Leaves(buffers[i], packets[i], replies[i], buffers[j]))
  }

  lemma TraceNext(t: Table, ms: seq<Msg>, m: Msg, packets: seq<Packet>, buffers: seq<seq<byte>>, buffer: seq<byte>,
                  replies: seq<Option<seq<byte>>>, reply: Option<seq<byte>>, s: Server)
    requires Trace(t, ms, packets, buffers, replies, s) && |ms| < |packets|
    requires Served(t, ms + [m], |ms|, packets[|ms|], buffers[|ms|], reply, s)
    requires Leaves(buffers[|ms|], packets[|ms|], reply, buffer)
    ensures Trace(t, ms + [m], packets, buffers + [buffer], replies + [reply], s)
  {
    var ms', buffers', replies' := ms + [m], buffers + [buffer], replies + [reply];
    forall i | 0 <= i < |ms'| ensures Served(t, ms', i, packets[i], buffers'[i], replies'[i], s) {
      if i < |ms| { ServedStays(t, ms, m, i, packets[i], buffers[i], replies[i], s); }
    }
    forall i, j | 0 <= i < |ms'| && j == i + 1 ensures Leaves(buffers'[i], packets[i], replies'[i], buffers'[j]) {
      if i < |ms| { assert Leaves(buffers[i], packets[i], replies[i], buffers[j]); }
    }
  }

  /** Message `i` of a history was answered as it should be. */
  ghost predicate ProperAt(t: Table, ms: seq<Msg>, i: nat)
    requires i < |ms|
  {
    Proper(After(t, ms[..i]), ms[i], After(t, ms[..i + 1]), AnswerAt(t, ms, i))
  }

  lemma SafeHistory(t: Table, ms: seq<Msg>)
    requires OneEntryEach(t)
    ensures OneEntryEach(After(t, ms)) && forall i :: 0 <= i < |ms| ==> ProperAt(t, ms, i)
    ensures forall k, l :: 0 <= k < l < |ms| && AckedTwice(t, ms, k, l) ==>
              exists j :: k < j < l && ms[j].Request? && ms[j].mac == AnswerAt(t, ms, k).to
  {
    HistoryKeepsOneEach(t, ms);
    forall i | 0 <= i < |ms| ensures ProperAt(t, ms, i) {
      HistoryIsProper(t, ms, i);
    }
    forall k, l | 0 <= k < l < |ms| && AckedTwice(t, ms, k, l)
      ensures exists j :: k < j < l && ms[j].Request? && ms[j].mac == AnswerAt(t, ms, k).to
    {
      NoTakeover(t, ms, k, l);
    }
  }

  method ServeOne(s: Server, p: Packet, ghost t: Table, ghost ms: seq<Msg>) returns (reply: Option<seq<byte>>, ghost m: Msg)
    requires s.Valid() && s.entries[..] == After(t, ms)
    modifies s.data, s.entries
    ensures s.Valid() && s.entries[..] == After(t, ms + [m])
    ensures Served(t, ms + [m], |ms|, p, old(s.data[..]), reply, s)
    ensures Leaves(old(s.data[..]), p, reply, s.data[..])
  {
    ghost var buffer := s.data[..];
    ghost var d := Overlaid(buffer, p.bytes);
    m := Interpret(d, p.sendOk);
    ghost var answer := Handle(s.entries[..], m).1;
    reply := s.Receive(p.bytes, p.sendOk, p.serverIp, p.netmask);
    assert (ms + [m])[..|ms|] == ms;
    if reply.Some? { ReplyAnswers(reply.value, d, answer, p, s); }
  }
}
