/** The lease table of the DHCP server (lib/networking/dhserver.c) over whole histories of
    messages. */
module DhcpLease {
  import opened Basics
  import opened RingIndex
  import opened DhcpOptions

  type Mac = s: seq<byte> | |s| == 6 witness [0, 0, 0, 0, 0, 0]
  const VACANT: Mac := [0, 0, 0, 0, 0, 0]

  datatype Entry = Entry(mac: Mac, addr: Ip4, lease: nat)
  type Table = seq<Entry>

  // ---------------------------------------------------------------- searching

  /** The first entry from `i` on with this hardware address, or with this address. */
  function ByMac(t: Table, i: nat, mac: Mac): (r: Option<nat>)
    requires i <= |t|
    ensures r.Some? ==> i <= r.value < |t| && t[r.value].mac == mac
    ensures forall k :: i <= k < (if r.Some? then r.value else |t|) ==> t[k].mac != mac
    decreases |t| - i
  {
    if i == |t| then None else if t[i].mac == mac then Some(i) else ByMac(t, i + 1, mac)
  }

  function ByIp(t: Table, i: nat, ip: Ip4): (r: Option<nat>)
    requires i <= |t|
    ensures r.Some? ==> i <= r.value < |t| && t[r.value].addr == ip
    ensures forall k :: i <= k < (if r.Some? then r.value else |t|) ==> t[k].addr != ip
    decreases |t| - i
  {
    if i == |t| then None else if t[i].addr == ip then Some(i) else ByIp(t, i + 1, ip)
  }

  /** The address found for an address depends on the addresses alone. */
  lemma {:induction false} ByIpFrame(t: Table, t': Table, i: nat, ip: Ip4)
    requires |t| == |t'| && i <= |t| && forall k :: 0 <= k < |t| ==> t'[k].addr == t[k].addr
    ensures ByIp(t', i, ip) == ByIp(t, i, ip)
    decreases |t| - i
  {
    if i < |t| { ByIpFrame(t, t', i + 1, ip); }
  }

  // ---------------------------------------------------------------- one message

  /** What a message asks, as the server reads it.  `sendOk` says whether a packet buffer can
      be had for the answer. */
  datatype Msg = Discover(mac: Mac) | Request(mac: Mac, ip: Ip4, sendOk: bool) | Ignored

  /** Offering changes nothing; acknowledging records the client. */
  datatype Answer = Silent | Offer(addr: Ip4, lease: nat) | Ack(addr: Ip4, lease: nat, to: Mac)

  /** Step 2 of a REQUEST: the client's present entry is freed. */
  function Freed(t: Table, mac: Mac): (t': Table)
    ensures |t'| == |t| && forall k :: 0 <= k < |t| ==> t'[k].addr == t[k].addr && t'[k].lease == t[k].lease
  {
    match ByMac(t, 0, mac)
    case None => t
    case Some(i) => t[i := t[i].(mac := VACANT)]
  }

  function Handle(t: Table, m: Msg): (r: (Table, Answer))
    ensures |r.0| == |t| && forall k :: 0 <= k < |t| ==> r.0[k].addr == t[k].addr && r.0[k].lease == t[k].lease
  {
    match m
    case Ignored => (t, Silent)
    case Discover(mac) =>
      var mine := ByMac(t, 0, mac);
      var i := if mine.Some? then mine else ByMac(t, 0, VACANT);
      (t, if i.Some? then Offer(t[i.value].addr, t[i.value].lease) else Silent)
    case Request(mac, ip, sendOk) =>
      var t1 := Freed(t, mac);
      var i := ByIp(t1, 0, ip);
      if i == None || t1[i.value].mac != VACANT || !sendOk then (t1, Silent)
      else (t1[i.value := t1[i.value].(mac := mac)], Ack(ip, t1[i.value].lease, mac))
  }

  // ---------------------------------------------------------------- what every message keeps

  /** No client holds two entries. */
  predicate OneEntryEach(t: Table) {
    forall i, j :: 0 <= i < j < |t| && t[i].mac == t[j].mac ==> t[i].mac == VACANT
  }

  lemma FreedHasNone(t: Table, mac: Mac)
    requires OneEntryEach(t)
    ensures OneEntryEach(Freed(t, mac))
    ensures mac != VACANT ==> forall k :: 0 <= k < |t| ==> Freed(t, mac)[k].mac != mac
    ensures forall k :: 0 <= k < |t| && t[k].mac != mac ==> Freed(t, mac)[k] == t[k]
    ensures forall k :: 0 <= k < |t| && t[k].mac == mac ==> Freed(t, mac)[k].mac == VACANT
  {}

  lemma HandleKeepsOneEach(t: Table, m: Msg)
    requires OneEntryEach(t)
    ensures OneEntryEach(Handle(t, m).0)
  {
    if m.Request? { FreedHasNone(t, m.mac); }
  }

  /** The client that holds address `ip`: the one in the first entry with that address. */
  function Holder(t: Table, ip: Ip4): Mac {
    match ByIp(t, 0, ip)
    case None => VACANT
    case Some(i) => t[i].mac
  }

  /** An acknowledgement goes to an address nobody else holds, and makes the client hold it;
      and only a client's own REQUEST takes an address from it. */
  lemma HandleAndHolder(t: Table, m: Msg, ip: Ip4)
    requires OneEntryEach(t)
    ensures var (t', answer) := Handle(t, m);
            && (answer.Ack? ==> Holder(t, answer.addr) == VACANT || Holder(t, answer.addr) == answer.to)
            && (answer.Ack? && answer.addr == ip ==> Holder(t', ip) == answer.to)
            && (Holder(t, ip) != VACANT && !(m.Request? && m.mac == Holder(t, ip)) ==> Holder(t', ip) == Holder(t, ip))
  {
    var (t', answer) := Handle(t, m);
    ByIpFrame(t, t', 0, ip);
    if m.Request? {
      FreedHasNone(t, m.mac);
      ByIpFrame(t, Freed(t, m.mac), 0, m.ip);
      ByIpFrame(t, t', 0, m.ip);
    }
  }

  // ---------------------------------------------------------------- what each message is answered

  /** Entry `i` is the first with this address, or the first of this client. */
  predicate FirstWith(t: Table, i: nat, ip: Ip4) {
    i < |t| && t[i].addr == ip && forall k :: 0 <= k < i ==> t[k].addr != ip
  }

  predicate FirstOf(t: Table, i: nat, mac: Mac) {
    i < |t| && t[i].mac == mac && forall k :: 0 <= k < i ==> t[k].mac != mac
  }

  ghost predicate OffersFrom(t: Table, mac: Mac, answer: Answer) {
    exists i: nat :: FirstOf(t, i, mac) && answer == Offer(t[i].addr, t[i].lease)
  }

  /** What a DISCOVER should get: a client with an entry is offered its own, any other the first
      vacant one, and only without one there is no answer. */
  ghost predicate ProperOffer(t: Table, mac: Mac, answer: Answer) {
    if exists i: nat :: FirstOf(t, i, mac) then OffersFrom(t, mac, answer)
    else if exists i: nat :: FirstOf(t, i, VACANT) then OffersFrom(t, VACANT, answer)
    else answer == Silent
  }

  /** What a REQUEST should get: an acknowledgement, of the address asked for with the lease of its
      entry, if and only if a buffer is there and the first entry with that address is vacant or
      the client's own. */
  ghost predicate ProperAck(t: Table, mac: Mac, ip: Ip4, sendOk: bool, answer: Answer) {
    if sendOk && exists i: nat :: FirstWith(t, i, ip) && (t[i].mac == VACANT || t[i].mac == mac)
    then exists i: nat :: FirstWith(t, i, ip) && answer == Ack(ip, t[i].lease, mac)
    else answer == Silent
  }

  /** And what becomes of the table: the client leaves its entry, and enters the one acknowledged. */
  ghost predicate Moved(t: Table, t': Table, mac: Mac, ip: Ip4, acked: bool) {
    && |t'| == |t|
    && forall k :: 0 <= k < |t| ==>
         t'[k] == t[k].(mac := if acked && FirstWith(t, k, ip) then mac else if t[k].mac == mac then VACANT else t[k].mac)
  }

  ghost predicate Proper(t: Table, m: Msg, t': Table, answer: Answer) {
    match m
    case Ignored => t' == t && answer == Silent
    case Discover(mac) => t' == t && ProperOffer(t, mac, answer)
    case Request(mac, ip, sendOk) => ProperAck(t, mac, ip, sendOk, answer) && Moved(t, t', mac, ip, answer.Ack?)
  }

  lemma ByIpIsFirst(t: Table, ip: Ip4)
    ensures match ByIp(t, 0, ip)
            case None => forall i: nat :: !FirstWith(t, i, ip)
            case Some(i) => FirstWith(t, i, ip) && forall j: nat :: FirstWith(t, j, ip) ==> j == i
  {}

  lemma ByMacIsFirst(t: Table, mac: Mac)
    ensures match ByMac(t, 0, mac)
            case None => forall i: nat :: !FirstOf(t, i, mac)
            case Some(i) => FirstOf(t, i, mac) && forall j: nat :: FirstOf(t, j, mac) ==> j == i
  {}

  lemma OfferIsProper(t: Table, mac: Mac)
    ensures ProperOffer(t, mac, Handle(t, Discover(mac)).1)
  {
    ByMacIsFirst(t, mac);
    ByMacIsFirst(t, VACANT);
  }

  lemma AckIsProper(t: Table, mac: Mac, ip: Ip4, sendOk: bool)
    requires OneEntryEach(t)
    ensures var (t', answer) := Handle(t, Request(mac, ip, sendOk));
            ProperAck(t, mac, ip, sendOk, answer) && Moved(t, t', mac, ip, answer.Ack?)
  {
    FreedHasNone(t, mac);
    ByIpFrame(t, Freed(t, mac), 0, ip);
    ByIpIsFirst(t, ip);
  }

  /** Every message is answered, and changes the table, as it should; a client that is acknowledged
      holds the address. */
  lemma HandleIsProper(t: Table, m: Msg)
    requires OneEntryEach(t)
    ensures var (t', answer) := Handle(t, m);
            Proper(t, m, t', answer) && (answer.Ack? ==> Holder(t', answer.addr) == answer.to)
  {
    match m
    case Ignored =>
    case Discover(mac) => OfferIsProper(t, mac);
    case Request(mac, ip, sendOk) =>
      AckIsProper(t, mac, ip, sendOk);
      HandleAndHolder(t, m, ip);
  }

  // ---------------------------------------------------------------- every history

  function After(t: Table, ms: seq<Msg>): (t': Table)
    ensures |t'| == |t|
  {
    if ms == [] then t else Handle(After(t, ms[..|ms| - 1]), ms[|ms| - 1]).0
  }

  /** What message `k` of the history is answered. */
  function AnswerAt(t: Table, ms: seq<Msg>, k: nat): Answer
    requires k < |ms|
  {
    Handle(After(t, ms[..k]), ms[k]).1
  }

  lemma AfterNext(t: Table, ms: seq<Msg>, k: nat)
    requires k < |ms|
    ensures After(t, ms[..k + 1]) == Handle(After(t, ms[..k]), ms[k]).0
  {
    assert ms[..k + 1][..k] == ms[..k];
  }

  lemma {:induction false} HistoryKeepsOneEach(t: Table, ms: seq<Msg>)
    requires OneEntryEach(t)
    ensures OneEntryEach(After(t, ms))
    decreases |ms|
  {
    if ms != [] {
      HistoryKeepsOneEach(t, ms[..|ms| - 1]);
      HandleKeepsOneEach(After(t, ms[..|ms| - 1]), ms[|ms| - 1]);
    }
  }

  lemma HistoryIsProper(t: Table, ms: seq<Msg>, k: nat)
    requires OneEntryEach(t) && k < |ms|
    ensures Proper(After(t, ms[..k]), ms[k], After(t, ms[..k + 1]), AnswerAt(t, ms, k))
  {
    HistoryKeepsOneEach(t, ms[..k]);
    AfterNext(t, ms, k);
    HandleIsProper(After(t, ms[..k]), ms[k]);
  }

  /** A client acknowledged at `k` still holds the address at `l` if it sent no REQUEST in
      between. */
  lemma StillHolds(t: Table, ms: seq<Msg>, k: nat, l: nat)
    requires OneEntryEach(t) && k < l <= |ms| && AnswerAt(t, ms, k).Ack? && AnswerAt(t, ms, k).to != VACANT
    requires forall j :: k < j < l ==> !(ms[j].Request? && ms[j].mac == AnswerAt(t, ms, k).to)
    ensures Holder(After(t, ms[..l]), AnswerAt(t, ms, k).addr) == AnswerAt(t, ms, k).to
  {
    var answer := AnswerAt(t, ms, k);
    HistoryKeepsOneEach(t, ms[..k]);
    AfterNext(t, ms, k);
    HandleAndHolder(After(t, ms[..k]), ms[k], answer.addr);
    HolderStays(t, ms, k + 1, l, answer.addr, answer.to);
  }

  /** Only its own REQUEST takes an address from a client. */
  lemma {:induction false} HolderStays(t: Table, ms: seq<Msg>, k: nat, l: nat, ip: Ip4, who: Mac)
    requires OneEntryEach(t) && k <= l <= |ms| && who != VACANT && Holder(After(t, ms[..k]), ip) == who
    requires forall j :: k <= j < l ==> !(ms[j].Request? && ms[j].mac == who)
    ensures Holder(After(t, ms[..l]), ip) == who
    decreases l
  {
    if k < l {
      HolderStays(t, ms, k, l - 1, ip, who);
      HistoryKeepsOneEach(t, ms[..l - 1]);
      AfterNext(t, ms, l - 1);
      HandleAndHolder(After(t, ms[..l - 1]), ms[l - 1], ip);
    }
  }

  /** No address is acknowledged to a second client before the first one has itself sent a
      REQUEST.  The addresses of the table need not even be distinct. */
  lemma NoTakeover(t: Table, ms: seq<Msg>, k: nat, l: nat)
    requires OneEntryEach(t) && k < l < |ms|
    requires AnswerAt(t, ms, k).Ack? && AnswerAt(t, ms, l).Ack?
    requires AnswerAt(t, ms, k).addr == AnswerAt(t, ms, l).addr
    requires AnswerAt(t, ms, k).to != VACANT && AnswerAt(t, ms, k).to != AnswerAt(t, ms, l).to
    ensures exists j :: k < j < l && ms[j].Request? && ms[j].mac == AnswerAt(t, ms, k).to
  {
    if forall j :: k < j < l ==> !(ms[j].Request? && ms[j].mac == AnswerAt(t, ms, k).to) {
      StillHolds(t, ms, k, l);
      HistoryKeepsOneEach(t, ms[..l]);
      HandleAndHolder(After(t, ms[..l]), ms[l], AnswerAt(t, ms, l).addr);
      assert false;
    }
  }
}
