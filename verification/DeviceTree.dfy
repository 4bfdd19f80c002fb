/** Unplugging a device and everything behind it (src/host/usbh.c, `remove_device_tree`).

    Device `i` has address `i + 1`; the last entries of the table, from `deviceMax` on, are hubs.
    A work list of hubs removed but not yet followed drives the removal. */
module DeviceTree {
  datatype Device = Device(connected: bool, rhport: nat, hubAddr: nat, hubPort: nat)

  const Cleared := Device(false, 0, 0, 0)

  /** What is unplugged: hub address 0 stands for the root hub, port 0 for every port. */
  datatype Query = Query(rhport: nat, hubAddr: nat, hubPort: nat)

  predicate Match(d: Device, q: Query) {
    && d.rhport == q.rhport && d.connected
    && (q.hubAddr == 0 || d.hubAddr == q.hubAddr)
    && (q.hubPort == 0 || d.hubPort == q.hubPort)
  }

  /** Everything behind hub `h`. */
  function Behind(q: Query, h: nat): Query {
    Query(q.rhport, h + 1, 0)
  }

  /** `s` has every device the unplugged port names and, with a hub, every device behind it. */
  ghost predicate Downstream(s: set<nat>, devs: seq<Device>, deviceMax: nat, q: Query) {
    && (forall i :: 0 <= i < |devs| && Match(devs[i], q) ==> i in s)
    && (forall h, j :: deviceMax <= h < |devs| && h in s && 0 <= j < |devs| && Match(devs[j], Behind(q, h)) ==> j in s)
  }

  predicate Distinct(s: seq<nat>) {
    forall i, j :: 0 <= i < j < |s| ==> s[i] != s[j]
  }

  function Elements(s: seq<nat>): set<nat> {
    set x | x in s
  }

  /** One pass over the table: close what matches, in order, and mark the hubs among it. */
  method Scan(devs: array<Device>, deviceMax: nat, marks: array<bool>, q: Query) returns (closed: seq<nat>)
    requires devs.Length == deviceMax + marks.Length
    modifies devs, marks
    ensures forall i :: 0 <= i < devs.Length ==> devs[i] == if Match(old(devs[i]), q) then Cleared else old(devs[i])
    ensures forall i :: i in closed <==> 0 <= i < devs.Length && Match(old(devs[i]), q)
    ensures forall h :: 0 <= h < marks.Length ==> marks[h] == (old(marks[h]) || Match(old(devs[deviceMax + h]), q))
    ensures Distinct(closed)
  {
    closed := [];
    for n := 0 to devs.Length
      invariant forall i :: 0 <= i < n ==> devs[i] == if Match(old(devs[i]), q) then Cleared else old(devs[i])
      invariant forall i :: n <= i < devs.Length ==> devs[i] == old(devs[i])
      invariant forall i :: i in closed <==> 0 <= i < n && Match(old(devs[i]), q)
      invariant forall h :: 0 <= h < marks.Length ==>
        marks[h] == (old(marks[h]) || (deviceMax + h < n && Match(old(devs[deviceMax + h]), q)))
      invariant Distinct(closed)
    {
      if Match(devs[n], q) {
        if n >= deviceMax { marks[n - deviceMax] := true; }
        closed := closed + [n];
        devs[n] := Cleared;
      }
    }
  }

  /** The first marked hub, which is unmarked. */
  method NextHub(marks: array<bool>) returns (h: int)
    modifies marks
    ensures h == -1 ==> marks[..] == old(marks[..]) && forall k :: 0 <= k < marks.Length ==> !marks[k]
    ensures h != -1 ==> 0 <= h < marks.Length && old(marks[h]) && marks[..] == old(marks[..])[h := false]
  {
    h := 0;
    while h < marks.Length
      invariant 0 <= h <= marks.Length && marks[..] == old(marks[..])
      invariant forall k :: 0 <= k < h ==> !marks[k]
    {
      if marks[h] {
        marks[h] := false;
        return;
      }
      h := h + 1;
    }
    h := -1;
  }

  // ---------------------------------------------------------------- the work list

  /** Closed devices are cleared, all others as they were. */
  ghost predicate Only(devs: seq<Device>, before: seq<Device>, closed: seq<nat>) {
    && |devs| == |before| && Distinct(closed)
    && (forall i :: i in closed ==> i < |before|)
    && (forall i :: 0 <= i < |devs| ==> devs[i] == if i in closed then Cleared else before[i])
  }

  /** Nothing is closed that any downstream set could spare. */
  ghost predicate Needed(closed: seq<nat>, before: seq<Device>, deviceMax: nat, q: Query) {
    forall s :: Downstream(s, before, deviceMax, q) ==> Elements(closed) <= s
  }

  /** Closed hubs are marked, unless they are being followed or have been. */
  ghost predicate Followed(closed: seq<nat>, before: seq<Device>, deviceMax: nat, marks: seq<bool>, q: Query, now: int) {
    && |before| == deviceMax + |marks|
    && (forall k :: 0 <= k < |marks| && marks[k] ==> deviceMax + k in closed)
    && (forall h, j :: (deviceMax <= h < |before| && h in closed && !marks[h - deviceMax] && h != now
                        && 0 <= j < |before| && Match(before[j], Behind(q, h))) ==> j in closed)
  }

  lemma Done(closed: seq<nat>, before: seq<Device>, deviceMax: nat, marks: seq<bool>, q: Query)
    requires Followed(closed, before, deviceMax, marks, q, -1) && forall k :: 0 <= k < |marks| ==> !marks[k]
    requires forall i :: 0 <= i < |before| && Match(before[i], q) ==> i in closed
    ensures Downstream(Elements(closed), before, deviceMax, q)
  {}

  /** The hubs still to be followed, or not closed: each round takes one away. */
  ghost function Open(closed: seq<nat>, deviceMax: nat, marks: seq<bool>): set<nat> {
    set k | 0 <= k < |marks| && (deviceMax + k !in closed || marks[k])
  }

  lemma DistinctAppend(a: seq<nat>, b: seq<nat>)
    requires Distinct(a) && Distinct(b) && forall x :: x in b ==> x !in a
    ensures Distinct(a + b)
  {
    var c := a + b;
    forall i, j | 0 <= i < j < |c| ensures c[i] != c[j] {
      if j >= |a| { assert c[j] == b[j - |a|] && c[j] in b; }
      if i >= |a| { assert c[i] == b[i - |a|]; }
    }
  }

  /** Marks come only from hubs closed in this round, and hub `h` is taken off. */
  lemma OpenShrinks(closed: seq<nat>, more: seq<nat>, deviceMax: nat, marks: seq<bool>, after: seq<bool>, h: int)
    requires |marks| == |after| && -1 <= h < |marks|
    requires forall k :: 0 <= k < |marks| && after[k] ==> marks[k] || deviceMax + k !in closed
    requires h != -1 ==> !after[h] && deviceMax + h in closed + more && (marks[h] || deviceMax + h !in closed)
    ensures Open(closed + more, deviceMax, after) <= Open(closed, deviceMax, marks)
    ensures h != -1 ==> Open(closed + more, deviceMax, after) < Open(closed, deviceMax, marks)
  {
    if h != -1 { assert h in Open(closed, deviceMax, marks) && h !in Open(closed + more, deviceMax, after); }
  }

  /** The state between rounds, when hub `h` is to be followed next, or none. */
  ghost predicate Working(devs: seq<Device>, before: seq<Device>, closed: seq<nat>, deviceMax: nat,
                          marks: seq<bool>, q: Query, h: int)
  {
    && -1 <= h < |marks| && Only(devs, before, closed) && Needed(closed, before, deviceMax, q)
    && (forall i :: 0 <= i < |before| && Match(before[i], q) ==> i in closed)
    && Followed(closed, before, deviceMax, marks, q, if h == -1 then -1 else deviceMax + h)
    && (if h == -1 then forall k :: 0 <= k < |marks| ==> !marks[k] else deviceMax + h in closed && !marks[h])
  }

  /** One round: close what is behind hub `h`, and pick the next hub. */
  method Follow(devs: array<Device>, deviceMax: nat, marks: array<bool>, q: Query, h: nat,
                closed: seq<nat>, ghost before: seq<Device>)
    returns (all: seq<nat>, next: int)
    requires Working(devs[..], before, closed, deviceMax, marks[..], q, h)
    modifies devs, marks
    ensures Working(devs[..], before, all, deviceMax, marks[..], q, next)
    ensures Open(all, deviceMax, marks[..]) <= old(Open(closed, deviceMax, marks[..]))
    ensures next != -1 ==> Open(all, deviceMax, marks[..]) < old(Open(closed, deviceMax, marks[..]))
  {
    ghost var was := marks[..];
    var more := Scan(devs, deviceMax, marks, Behind(q, deviceMax + h));
    DistinctAppend(closed, more);
    all := closed + more;
    next := NextHub(marks);
    OpenShrinks(closed, more, deviceMax, was, marks[..], next);
  }

  // ---------------------------------------------------------------- what is unplugged

  /** A way up the tree: each device hangs on the hub after it, all are connected to the same
      root port, and the last one hangs on the hub address and port unplugged (0: any). */
  predicate Chain(c: seq<nat>, devs: seq<Device>, deviceMax: nat, q: Query)
    decreases |c|
  {
    && c != [] && c[0] < |devs|
    && var d := devs[c[0]];
    && d.connected && d.rhport == q.rhport
    && if |c| == 1 then (q.hubAddr == 0 || d.hubAddr == q.hubAddr) && (q.hubPort == 0 || d.hubPort == q.hubPort)
       else c[1] >= deviceMax && d.hubAddr == c[1] + 1 && Chain(c[1..], devs, deviceMax, q)
  }

  ghost predicate Unplugged(x: nat, devs: seq<Device>, deviceMax: nat, q: Query) {
    exists c: seq<nat> :: Chain(c, devs, deviceMax, q) && c[0] == x
  }

  /** What hangs on an unplugged hub is unplugged, so the unplugged devices are downstream ... */
  lemma UnpluggedIsDownstream(s: set<nat>, devs: seq<Device>, deviceMax: nat, q: Query)
    requires forall x: nat :: x in s <==> x < |devs| && Unplugged(x, devs, deviceMax, q)
    ensures Downstream(s, devs, deviceMax, q)
  {
    forall i | 0 <= i < |devs| && Match(devs[i], q) ensures i in s {
      assert Chain([i], devs, deviceMax, q) && [i][0] == i;
    }
    forall h, j | deviceMax <= h < |devs| && h in s && 0 <= j < |devs| && Match(devs[j], Behind(q, h)) ensures j in s {
      var c :| Chain(c, devs, deviceMax, q) && c[0] == h;
      assert ([j] + c)[1..] == c;
      assert Chain([j] + c, devs, deviceMax, q) && ([j] + c)[0] == j;
    }
  }

  /** ... and every downstream set has them all. */
  lemma {:induction false} ChainInDownstream(c: seq<nat>, s: set<nat>, devs: seq<Device>, deviceMax: nat, q: Query)
    requires Chain(c, devs, deviceMax, q) && Downstream(s, devs, deviceMax, q)
    ensures c[0] in s
    decreases |c|
  {
    if |c| > 1 {
      ChainInDownstream(c[1..], s, devs, deviceMax, q);
      assert Match(devs[c[0]], Behind(q, c[1]));
    }
  }

  /** The least downstream set is exactly the unplugged devices. */
  lemma LeastIsUnplugged(closed: seq<nat>, devs: seq<Device>, deviceMax: nat, q: Query)
    requires Downstream(Elements(closed), devs, deviceMax, q) && Needed(closed, devs, deviceMax, q)
    requires forall i :: i in closed ==> i < |devs|
    ensures forall x: nat :: x < |devs| ==> (x in closed <==> Unplugged(x, devs, deviceMax, q))
  {
    ghost var s := set x | 0 <= x < |devs| && Unplugged(x, devs, deviceMax, q);
    UnpluggedIsDownstream(s, devs, deviceMax, q);
    assert Elements(closed) <= s;
    forall x: nat | x < |devs| ensures x in closed <==> Unplugged(x, devs, deviceMax, q) {
      if x in closed { assert x in Elements(closed); }
      if Unplugged(x, devs, deviceMax, q) {
        var c :| Chain(c, devs, deviceMax, q) && c[0] == x;
        ChainInDownstream(c, Elements(closed), devs, deviceMax, q);
      }
    }
  }

  /** `remove_device_tree`: exactly the unplugged devices, which are the least downstream set, are
      closed, each once. */
  method RemoveTree(devs: array<Device>, deviceMax: nat, hubs: nat, q: Query) returns (closed: seq<nat>)
    requires devs.Length == deviceMax + hubs
    modifies devs
    ensures Only(devs[..], old(devs[..]), closed)
    ensures Downstream(Elements(closed), old(devs[..]), deviceMax, q)
    ensures forall s :: Downstream(s, old(devs[..]), deviceMax, q) ==> Elements(closed) <= s
    ensures forall x: nat :: x < devs.Length ==> (x in closed <==> Unplugged(x, old(devs[..]), deviceMax, q))
  {
    ghost var before := devs[..];
    var marks := new bool[hubs](_ => false);
    closed := Scan(devs, deviceMax, marks, q);
    var h := NextHub(marks);
    while h != -1
      invariant fresh(marks) && Working(devs[..], before, closed, deviceMax, marks[..], q, h)
      decreases Open(closed, deviceMax, marks[..]), h != -1
    {
      closed, h := Follow(devs, deviceMax, marks, q, h, closed, before);
    }
    Done(closed, before, deviceMax, marks[..], q);
    LeastIsUnplugged(closed, before, deviceMax, q);
  }
}
