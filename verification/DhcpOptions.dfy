/** The options area of a DHCP message (lib/networking/dhserver.c): the writer
    `fill_options` and the reader `find_dhcp_option`. */
module DhcpOptions {
  import opened Basics
  import opened RingIndex

  const SUBNETMASK := 1
  const ROUTER := 3
  const DNSSERVER := 6
  const DNSDOMAIN := 15
  const IPADDRESS := 50
  const LEASETIME := 51
  const MESSAGETYPE := 53
  const SERVERID := 54
  const END := 255

  const AREA := 275

  // ---------------------------------------------------------------- reading

  /** `find_dhcp_option`: the first option `attr` from `i` on, unless an option that runs
      past the end comes first. */
  function Find(s: seq<byte>, i: nat, attr: byte): (r: Option<nat>)
    ensures r.Some? ==> i <= r.value && r.value + 1 < |s| && s[r.value] == attr && r.value + 2 + s[r.value + 1] <= |s|
    decreases |s| - i
  {
    if i + 1 >= |s| then None
    else
      var next := i + s[i + 1] + 2;
      if next > |s| then None
      else if s[i] == attr then Some(i)
      else Find(s, next, attr)
  }

  /** The loop itself, on the area `a[base..base + size]`; whatever the bytes, it ends and
      an option it returns lies wholly inside. */
  method FindOption(a: array<byte>, base: nat, size: nat, attr: byte) returns (r: Option<nat>)
    requires base + size <= a.Length
    ensures r == Find(a[base..base + size], 0, attr)
  {
    ghost var s := a[base..base + size];
    var i := 0;
    while i + 1 < size
      invariant 0 <= i && Find(s, 0, attr) == Find(s, i, attr)
      decreases size - i
    {
      assert s[i] == a[base + i] && s[i + 1] == a[base + i + 1];
      var next := i + a[base + i + 1] + 2;
      if next > size { return None; }
      if a[base + i] == attr { return Some(i); }
      i := next;
    }
    r := None;
  }

  // ---------------------------------------------------------------- options as values

  datatype Opt = Opt(code: byte, value: seq<byte>)

  /** Option `o` stands at `at`: code, length, value. */
  predicate OptAt(s: seq<byte>, at: nat, o: Opt) {
    && at + 2 + |o.value| <= |s| && s[at] == o.code && s[at + 1] == |o.value|
    && forall j :: 0 <= j < |o.value| ==> s[at + 2 + j] == o.value[j]
  }

  /** The options stand one after the other from `at` on. */
  predicate Holds(s: seq<byte>, at: nat, opts: seq<Opt>)
    decreases |opts|
  {
    opts == [] || (OptAt(s, at, opts[0]) && Holds(s, at + 2 + |opts[0].value|, opts[1..]))
  }

  function Size(opts: seq<Opt>): nat {
    if opts == [] then 0 else 2 + |opts[0].value| + Size(opts[1..])
  }

  /** Where option `k` stands. */
  function Offset(opts: seq<Opt>, k: nat): nat
    requires k <= |opts|
  {
    if k == 0 then 0 else 2 + |opts[0].value| + Offset(opts[1..], k - 1)
  }

  /** The reader returns option `k` when asked for its code, unless the code came earlier. */
  lemma {:induction false} FindsOption(s: seq<byte>, at: nat, opts: seq<Opt>, k: nat)
    requires Holds(s, at, opts) && k < |opts|
    requires forall i :: 0 <= i < k ==> opts[i].code != opts[k].code
    ensures Find(s, at, opts[k].code) == Some(at + Offset(opts, k))
    ensures OptAt(s, at + Offset(opts, k), opts[k])
    decreases |opts|
  {
    if k > 0 {
      assert opts[0].code != opts[k].code;
      assert opts[1..][k - 1] == opts[k];
      assert forall i :: 0 <= i < k - 1 ==> opts[1..][i] == opts[i + 1];
      FindsOption(s, at + 2 + |opts[0].value|, opts[1..], k - 1);
    }
  }

  /** A code that is not there takes the reader past all of them. */
  lemma {:induction false} FindPasses(s: seq<byte>, at: nat, opts: seq<Opt>, attr: byte)
    requires Holds(s, at, opts) && forall i :: 0 <= i < |opts| ==> opts[i].code != attr
    ensures Find(s, at, attr) == Find(s, at + Size(opts), attr)
    decreases |opts|
  {
    if opts != [] {
      assert opts[0].code != attr;
      FindPasses(s, at + 2 + |opts[0].value|, opts[1..], attr);
    }
  }

  /** Only the bytes the options stand in matter. */
  lemma {:induction false} HoldsFrame(s: seq<byte>, s': seq<byte>, at: nat, opts: seq<Opt>)
    requires Holds(s, at, opts) && |s| == |s'| && forall x :: at <= x < at + Size(opts) && x < |s| ==> s'[x] == s[x]
    ensures Holds(s', at, opts)
    decreases |opts|
  {
    if opts != [] { HoldsFrame(s, s', at + 2 + |opts[0].value|, opts[1..]); }
  }

  lemma {:induction false} HoldsSnoc(s: seq<byte>, at: nat, opts: seq<Opt>, o: Opt)
    requires Holds(s, at, opts) && OptAt(s, at + Size(opts), o)
    ensures Holds(s, at, opts + [o]) && Size(opts + [o]) == Size(opts) + 2 + |o.value|
    decreases |opts|
  {
    var all := opts + [o];
    if opts == [] {
      assert all[0] == o && all[1..] == [];
    } else {
      assert all[0] == opts[0] && all[1..] == opts[1..] + [o];
      HoldsSnoc(s, at + 2 + |opts[0].value|, opts[1..], o);
    }
  }

  /** Padding is read as empty options with code 0. */
  lemma {:induction false} FindInZeros(s: seq<byte>, i: nat, attr: byte)
    requires i <= |s| && forall k :: i <= k < |s| ==> s[k] == 0
    ensures Find(s, i, attr) == if attr == 0 && i + 2 <= |s| then Some(i) else None
    decreases |s| - i
  {
    if i + 2 <= |s| { FindInZeros(s, i + 2, attr); }
  }

  // ---------------------------------------------------------------- what the server writes

  type Ip4 = s: seq<byte> | |s| == 4 witness [0, 0, 0, 0]

  const NO_ADDRESS: Ip4 := [0, 0, 0, 0]

  /** A 32-bit number in network order, as the shifts of `fill_options` produce it. */
  function Be32(x: nat): Ip4
    requires x < 0x1_0000_0000
  {
    [x / 0x100_0000, x / 0x1_0000 % 0x100, x / 0x100 % 0x100, x % 0x100]
  }

  /** No bit of it is lost. */
  lemma Be32Complete(x: nat)
    requires x < 0x1_0000_0000
    ensures var b0: int, b1: int, b2: int, b3: int := Be32(x)[0], Be32(x)[1], Be32(x)[2], Be32(x)[3];
            x == ((b0 * 0x100 + b1) * 0x100 + b2) * 0x100 + b3
  {
    var y := x / 0x100;
    var z := y / 0x100;
    assert x == y * 0x100 + x % 0x100 && y == z * 0x100 + y % 0x100 && z == (z / 0x100) * 0x100 + z % 0x100;
    assert z == x / 0x1_0000 && z / 0x100 == x / 0x100_0000;
  }

  datatype Params = Params(msgType: byte, domain: Option<seq<byte>>, dns: Ip4, lease: nat,
                           serverId: Ip4, router: Ip4, subnet: Ip4)

  predicate ValidParams(p: Params) {
    p.lease < 0x1_0000_0000 && (p.domain.Some? ==> |p.domain.value| <= 239)
  }

  /** The options in the order they are written: four always, then router, domain and DNS
      server when configured. */
  function Fixed(p: Params): seq<Opt>
    requires ValidParams(p)
  {
    [Opt(MESSAGETYPE, [p.msgType]), Opt(SERVERID, p.serverId), Opt(LEASETIME, Be32(p.lease)), Opt(SUBNETMASK, p.subnet)]
  }

  function When(cond: bool, o: Opt): seq<Opt> { if cond then [o] else [] }

  function Domain(p: Params): seq<byte> { if p.domain.Some? then p.domain.value else [] }

  function OptionList(p: Params): seq<Opt>
    requires ValidParams(p)
  {
    ((Fixed(p)
      + When(p.router != NO_ADDRESS, Opt(ROUTER, p.router)))
      + When(p.domain.Some?, Opt(DNSDOMAIN, Domain(p))))
      + When(p.dns != NO_ADDRESS, Opt(DNSSERVER, p.dns))
  }

  predicate DistinctCodes(opts: seq<Opt>) {
    forall i, j :: 0 <= i < j < |opts| ==> opts[i].code != opts[j].code
  }

  /** A zeroed area after the options and the end mark have been written to it. */
  predicate Written(s: seq<byte>, opts: seq<Opt>) {
    && Size(opts) < |s| && Holds(s, 0, opts) && s[Size(opts)] == END
    && forall x :: Size(opts) < x < |s| ==> s[x] == 0
  }

  /** The reader undoes the writer: it returns exactly the value of each option written, ... */
  lemma FindUndoesFill(s: seq<byte>, opts: seq<Opt>, k: nat)
    requires Written(s, opts) && DistinctCodes(opts) && k < |opts|
    ensures Find(s, 0, opts[k].code) == Some(Offset(opts, k)) && OptAt(s, Offset(opts, k), opts[k])
  {
    FindsOption(s, 0, opts, k);
  }

  /** ... and nothing for any other code, save that the end mark and the padding behind it
      read as empty options with codes 255 and 0 where there is room for them. */
  lemma FindNothingElse(s: seq<byte>, opts: seq<Opt>, attr: byte)
    requires Written(s, opts) && forall k :: 0 <= k < |opts| ==> opts[k].code != attr
    ensures Find(s, 0, attr) == if attr == END && Size(opts) + 2 <= |s| then Some(Size(opts))
                                else if attr == 0 && Size(opts) + 4 <= |s| then Some(Size(opts) + 2)
                                else None
  {
    FindPasses(s, 0, opts, attr);
    if Size(opts) + 2 <= |s| { FindInZeros(s, Size(opts) + 2, attr); }
  }

  /** The server's options meet the conditions ... */
  lemma ServerCodes(p: Params)
    requires ValidParams(p)
    ensures var opts := OptionList(p);
            DistinctCodes(opts) && forall i :: 0 <= i < |opts| ==> opts[i].code != 0 && opts[i].code != END
  {}

  /** The reader finds this value under this code. */
  predicate Tells(s: seq<byte>, code: byte, value: seq<byte>) {
    match Find(s, 0, code)
    case None => false
    case Some(at) => OptAt(s, at, Opt(code, value))
  }

  /** It finds the value when there is one to tell, and nothing otherwise. */
  predicate TellsIf(s: seq<byte>, cond: bool, code: byte, value: seq<byte>) {
    if cond then Tells(s, code, value) else Find(s, 0, code) == None
  }

  /** What a client reads in the server's options, code by code as RFC 2132 numbers them. */
  ghost predicate TellsAll(s: seq<byte>, msgType: byte, lease: Ip4, server: Ip4, netmask: Ip4, router: Ip4, dns: Ip4,
                           domain: Option<seq<byte>>)
  {
    && Tells(s, 53, [msgType]) && Tells(s, 51, lease) && Tells(s, 54, server) && Tells(s, 1, netmask)
    && TellsIf(s, router != NO_ADDRESS, 3, router) && TellsIf(s, dns != NO_ADDRESS, 6, dns)
    && TellsIf(s, domain.Some?, 15, if domain.Some? then domain.value else [])
  }

  lemma ToldAt(s: seq<byte>, opts: seq<Opt>, k: nat)
    requires Written(s, opts) && DistinctCodes(opts) && k < |opts|
    ensures Tells(s, opts[k].code, opts[k].value)
  {
    FindUndoesFill(s, opts, k);
  }

  lemma ToldIf(s: seq<byte>, opts: seq<Opt>, cond: bool, o: Opt)
    requires Written(s, opts) && DistinctCodes(opts) && o.code != 0 && o.code != END
    requires if cond then o in opts else forall k :: 0 <= k < |opts| ==> opts[k].code != o.code
    ensures TellsIf(s, cond, o.code, o.value)
  {
    if cond {
      var k :| 0 <= k < |opts| && opts[k] == o;
      ToldAt(s, opts, k);
    } else {
      FindNothingElse(s, opts, o.code);
    }
  }

  /** So a reply tells each of its parameters under its own code. */
  lemma ReplyTells(s: seq<byte>, p: Params)
    requires ValidParams(p) && Written(s, OptionList(p))
    ensures TellsAll(s, p.msgType, Be32(p.lease), p.serverId, p.subnet, p.router, p.dns, p.domain)
  {
    var opts := OptionList(p);
    ServerCodes(p);
    assert opts[0] == Opt(MESSAGETYPE, [p.msgType]) && opts[1] == Opt(SERVERID, p.serverId);
    assert opts[2] == Opt(LEASETIME, Be32(p.lease)) && opts[3] == Opt(SUBNETMASK, p.subnet);
    ToldAt(s, opts, 0);
    ToldAt(s, opts, 1);
    ToldAt(s, opts, 2);
    ToldAt(s, opts, 3);
    ToldIf(s, opts, p.router != NO_ADDRESS, Opt(ROUTER, p.router));
    ToldIf(s, opts, p.dns != NO_ADDRESS, Opt(DNSSERVER, p.dns));
    ToldIf(s, opts, p.domain.Some?, Opt(DNSDOMAIN, Domain(p)));
  }

  /** ... and fit its area. */
  lemma ServerSizes(p: Params)
    requires ValidParams(p)
    ensures Size(Fixed(p)) == 21
    ensures Size(OptionList(p)) == 21 + (if p.router != NO_ADDRESS then 6 else 0)
                                      + (if p.domain.Some? then 2 + |Domain(p)| else 0)
                                      + (if p.dns != NO_ADDRESS then 6 else 0)
    ensures Size(OptionList(p)) < AREA
  {
    var b, c := When(p.router != NO_ADDRESS, Opt(ROUTER, p.router)), When(p.domain.Some?, Opt(DNSDOMAIN, Domain(p)));
    var d := When(p.dns != NO_ADDRESS, Opt(DNSSERVER, p.dns));
    SizeSum(Fixed(p), b);
    SizeSum(Fixed(p) + b, c);
    SizeSum(Fixed(p) + b + c, d);
    SizeFew(Fixed(p));
    SizeFew(b);
    SizeFew(c);
    SizeFew(d);
  }

  lemma {:induction false} SizeSum(a: seq<Opt>, b: seq<Opt>)
    ensures Size(a + b) == Size(a) + Size(b)
  {
    if a == [] {
      assert a + b == b;
    } else {
      SizeSum(a[1..], b);
      assert (a + b)[1..] == a[1..] + b;
    }
  }

  lemma SizeFew(a: seq<Opt>)
    ensures |a| == 1 ==> Size(a) == 2 + |a[0].value|
    ensures |a| == 4 ==> Size(a) == 8 + |a[0].value| + |a[1].value| + |a[2].value| + |a[3].value|
  {
    if |a| == 4 {
      assert Size(a[1..]) == 2 + |a[1].value| + Size(a[1..][1..]);
      assert a[1..][1..] == a[2..] && a[2..][1..] == a[3..] && a[3..][1..] == [];
    }
  }

  // ---------------------------------------------------------------- writing

  /** Code, length and value, stored from `at` on. */
  method StoreOption(a: array<byte>, at: nat, o: Opt)
    requires |o.value| < 256 && at + 2 + |o.value| <= a.Length
    modifies a
    ensures OptAt(a[..], at, o)
    ensures forall x :: 0 <= x < a.Length && !(at <= x < at + 2 + |o.value|) ==> a[x] == old(a[x])
  {
    a[at] := o.code;
    a[at + 1] := |o.value|;
    forall j | 0 <= j < |o.value| { a[at + 2 + j] := o.value[j]; }
  }

  lemma OptInArea(all: seq<byte>, base: nat, area: seq<byte>, at: nat, o: Opt)
    requires base + |area| <= |all| && area == all[base..base + |area|]
    requires OptAt(all, base + at, o) && at + 2 + |o.value| <= |area|
    ensures OptAt(area, at, o)
  {
    forall j | 0 <= j < |o.value| ensures area[at + 2 + j] == o.value[j] {
      assert area[at + 2 + j] == all[base + at + 2 + j];
    }
  }

  lemma HoldsNext(before: seq<byte>, after: seq<byte>, opts: seq<Opt>, o: Opt)
    requires Holds(before, 0, opts) && |before| == |after| && OptAt(after, Size(opts), o)
    requires forall x :: 0 <= x < Size(opts) && x < |before| ==> after[x] == before[x]
    ensures Holds(after, 0, opts + [o]) && Size(opts + [o]) == Size(opts) + 2 + |o.value|
  {
    HoldsFrame(before, after, 0, opts);
    HoldsSnoc(after, 0, opts, o);
  }

  /** One option at the cursor. */
  method PutOption(a: array<byte>, base: nat, size: nat, ptr: nat, o: Opt, ghost opts: seq<Opt>) returns (next: nat)
    requires base + size <= a.Length && |o.value| < 256 && ptr + 2 + |o.value| <= size
    requires ptr == Size(opts) && Holds(a[base..base + size], 0, opts)
    modifies a
    ensures next == ptr + 2 + |o.value| == Size(opts + [o]) && Holds(a[base..base + size], 0, opts + [o])
    ensures forall x :: 0 <= x < a.Length && !(base + ptr <= x < base + next) ==> a[x] == old(a[x])
  {
    ghost var before := a[base..base + size];
    StoreOption(a, base + ptr, o);
    ghost var after := a[base..base + size];
    OptInArea(a[..], base, after, ptr, o);
    HoldsNext(before, after, opts, o);
    next := ptr + 2 + |o.value|;
  }

  /** An option that is written only when configured. */
  method PutWhen(a: array<byte>, base: nat, size: nat, ptr: nat, cond: bool, o: Opt, ghost opts: seq<Opt>) returns (next: nat)
    requires base + size <= a.Length && |o.value| < 256 && (cond ==> ptr + 2 + |o.value| <= size)
    requires ptr == Size(opts) && Holds(a[base..base + size], 0, opts)
    modifies a
    ensures next == ptr + (if cond then 2 + |o.value| else 0) == Size(opts + When(cond, o))
    ensures Holds(a[base..base + size], 0, opts + When(cond, o))
    ensures forall x :: 0 <= x < a.Length && !(base + ptr <= x < base + next) ==> a[x] == old(a[x])
  {
    if cond {
      next := PutOption(a, base, size, ptr, o, opts);
    } else {
      assert opts + [] == opts;
      next := ptr;
    }
  }

  method FillFixed(a: array<byte>, base: nat, p: Params) returns (ptr: nat)
    requires base + AREA <= a.Length && ValidParams(p)
    modifies a
    ensures ptr == 21 == Size(Fixed(p)) && Holds(a[base..base + AREA], 0, Fixed(p))
    ensures forall x :: 0 <= x < a.Length && !(base <= x < base + ptr) ==> a[x] == old(a[x])
  {
    ghost var opts: seq<Opt> := [];
    ptr := PutOption(a, base, AREA, 0, Opt(MESSAGETYPE, [p.msgType]), opts);
    opts := opts + [Opt(MESSAGETYPE, [p.msgType])];
    ptr := PutOption(a, base, AREA, ptr, Opt(SERVERID, p.serverId), opts);
    opts := opts + [Opt(SERVERID, p.serverId)];
    ptr := PutOption(a, base, AREA, ptr, Opt(LEASETIME, Be32(p.lease)), opts);
    opts := opts + [Opt(LEASETIME, Be32(p.lease))];
    ptr := PutOption(a, base, AREA, ptr, Opt(SUBNETMASK, p.subnet), opts);
    opts := opts + [Opt(SUBNETMASK, p.subnet)];
    assert opts == Fixed(p);
  }

  /** `fill_options` on a zeroed area. */
  method FillOptions(a: array<byte>, base: nat, p: Params) returns (n: nat)
    requires base + AREA <= a.Length && ValidParams(p)
    requires forall x :: base <= x < base + AREA ==> a[x] == 0
    modifies a
    ensures Written(a[base..base + AREA], OptionList(p)) && n == Size(OptionList(p)) + 1
    ensures forall x :: 0 <= x < a.Length && !(base <= x < base + n) ==> a[x] == old(a[x])
  {
    ServerSizes(p);
    var ptr := FillList(a, base, p);
    ghost var before := a[base..base + AREA];
    a[base + ptr] := END;
    HoldsFrame(before, a[base..base + AREA], 0, OptionList(p));
    n := ptr + 1;
  }

  method FillList(a: array<byte>, base: nat, p: Params) returns (ptr: nat)
    requires base + AREA <= a.Length && ValidParams(p)
    modifies a
    ensures ptr == Size(OptionList(p)) && Holds(a[base..base + AREA], 0, OptionList(p))
    ensures forall x :: 0 <= x < a.Length && !(base <= x < base + ptr) ==> a[x] == old(a[x])
  {
    ServerSizes(p);
    ghost var opts := Fixed(p);
    ptr := FillFixed(a, base, p);
    ptr := PutWhen(a, base, AREA, ptr, p.router != NO_ADDRESS, Opt(ROUTER, p.router), opts);
    opts := opts + When(p.router != NO_ADDRESS, Opt(ROUTER, p.router));
    ptr := PutWhen(a, base, AREA, ptr, p.domain.Some?, Opt(DNSDOMAIN, Domain(p)), opts);
    opts := opts + When(p.domain.Some?, Opt(DNSDOMAIN, Domain(p)));
    ptr := PutWhen(a, base, AREA, ptr, p.dns != NO_ADDRESS, Opt(DNSSERVER, p.dns), opts);
  }
}
