/** kernel/arp.h:66-142: the address resolution cache, as the partial function from IP
    addresses to hardware addresses it stands for. */
module ArpCache {
  datatype State = Empty | Pending | Resolved
  datatype Entry = Entry(ip: nat, mac: seq<nat>, state: State, age: nat)

  /** What the cache knows about one address. */
  datatype Status = Unknown | Asked | At(mac: seq<nat>)

  const SLOTS: nat := 8
  const TIMEOUT: nat := 2000

  /** Slot k is in use for ip. */
  predicate For(c: seq<Entry>, k: int, ip: nat) {
    0 <= k < |c| && !c[k].state.Empty? && c[k].ip == ip
  }

  /** No two slots in use share an address. */
  ghost predicate OneSlotEach(c: seq<Entry>) {
    forall i, j, ip :: For(c, i, ip) && For(c, j, ip) ==> i == j
  }

  /** The slot in use for ip, or -1. */
  function Held(c: seq<Entry>, ip: nat): (k: int)
    ensures -1 <= k < |c|
    ensures k >= 0 ==> For(c, k, ip) && forall i :: 0 <= i < k ==> !For(c, i, ip)
    ensures k < 0 ==> forall i :: 0 <= i < |c| ==> !For(c, i, ip)
  {
    HeldFrom(c, ip, 0)
  }

  function HeldFrom(c: seq<Entry>, ip: nat, i: nat): (k: int)
    requires i <= |c| && forall j :: 0 <= j < i ==> !For(c, j, ip)
    ensures -1 <= k < |c|
    ensures k >= 0 ==> For(c, k, ip) && forall j :: 0 <= j < k ==> !For(c, j, ip)
    ensures k < 0 ==> forall j :: 0 <= j < |c| ==> !For(c, j, ip)
    decreases |c| - i
  {
    if i == |c| then -1 else if For(c, i, ip) then i else HeldFrom(c, ip, i + 1)
  }

  /** The first slot not in use, or -1. */
  function Vacant(c: seq<Entry>): (k: int)
    ensures -1 <= k < |c|
    ensures k >= 0 ==> c[k].state.Empty? && forall i :: 0 <= i < k ==> !c[i].state.Empty?
    ensures k < 0 ==> forall i :: 0 <= i < |c| ==> !c[i].state.Empty?
  {
    VacantFrom(c, 0)
  }

  function VacantFrom(c: seq<Entry>, i: nat): (k: int)
    requires i <= |c| && forall j :: 0 <= j < i ==> !c[j].state.Empty?
    ensures -1 <= k < |c|
    ensures k >= 0 ==> c[k].state.Empty? && forall j :: 0 <= j < k ==> !c[j].state.Empty?
    ensures k < 0 ==> forall j :: 0 <= j < |c| ==> !c[j].state.Empty?
    decreases |c| - i
  {
    if i == |c| then -1 else if c[i].state.Empty? then i else VacantFrom(c, i + 1)
  }

  function StatusOf(c: seq<Entry>, ip: nat): Status {
    var k := Held(c, ip);
    if k < 0 then Unknown else if c[k].state.Pending? then Asked else At(c[k].mac)
  }

  /** With one slot for each address, the first is the only one. */
  lemma OnlySlot(c: seq<Entry>, k: int, ip: nat)
    requires OneSlotEach(c) && For(c, k, ip)
    ensures Held(c, ip) == k
  {
    assert For(c, Held(c, ip), ip);
  }

  /** The slot a new entry for ip goes to. */
  function SlotFor(c: seq<Entry>, ip: nat): (k: nat)
    requires |c| > 0
    ensures k < |c|
    ensures For(c, k, ip) || forall i :: 0 <= i < |c| ==> !For(c, i, ip)
  {
    if Held(c, ip) >= 0 then Held(c, ip) else if Vacant(c) >= 0 then Vacant(c) else 0
  }

  /** A request for ip throws out whatever slot 0 holds: no slot for ip and none free. */
  predicate Evicts(c: seq<Entry>, ip: nat) {
    Held(c, ip) < 0 && Vacant(c) < 0
  }

  /** Writing an entry over the slot of its own address, or over a slot when the address has
      none, keeps one slot for each address and changes what is known of just two addresses:
      the entry's own, and the one the slot held. */
  lemma Written(c: seq<Entry>, k: nat, e: Entry, ip: nat)
    requires OneSlotEach(c) && k < |c| && !e.state.Empty?
    requires For(c, k, e.ip) || forall i :: 0 <= i < |c| ==> !For(c, i, e.ip)
    ensures OneSlotEach(c[k := e])
    ensures StatusOf(c[k := e], ip)
         == if ip == e.ip then (if e.state.Pending? then Asked else At(e.mac))
            else if For(c, k, ip) then Unknown
            else StatusOf(c, ip)
  {
    hide Held;
    var d := c[k := e];
    WrittenOnce(c, k, e);
    if ip == e.ip {
      OnlySlot(d, k, ip);
    } else if For(c, k, ip) {
      assert forall i :: 0 <= i < |d| && i != k ==> For(d, i, ip) ==> For(c, i, ip);
    } else if Held(c, ip) >= 0 {
      OnlySlot(d, Held(c, ip), ip);
    } else {
      assert forall i :: 0 <= i < |d| && i != k ==> For(d, i, ip) ==> For(c, i, ip);
    }
  }

  lemma WrittenOnce(c: seq<Entry>, k: nat, e: Entry)
    requires OneSlotEach(c) && k < |c| && !e.state.Empty?
    requires For(c, k, e.ip) || forall i :: 0 <= i < |c| ==> !For(c, i, e.ip)
    ensures OneSlotEach(c[k := e])
  {
    var d := c[k := e];
    forall i, j, ip | For(d, i, ip) && For(d, j, ip) ensures i == j {
      assert i != k ==> For(c, i, ip);
      assert j != k ==> For(c, j, ip);
    }
  }

  /** arp_send_request's cache update. */
  function Requested(c: seq<Entry>, ip: nat, ticks: nat): (r: seq<Entry>)
    requires |c| > 0
    ensures |r| == |c|
  {
    var k := SlotFor(c, ip);
    c[k := c[k].(ip := ip, state := Pending, age := ticks % 0x10000)]
  }

  /** What a request changes: its own address is asked for, the one thrown out is forgotten,
      and nothing else. */
  lemma RequestedIs(c: seq<Entry>, asked: nat, ticks: nat, ip: nat)
    requires OneSlotEach(c) && |c| > 0
    ensures OneSlotEach(Requested(c, asked, ticks))
    ensures StatusOf(Requested(c, asked, ticks), ip)
         == if ip == asked then Asked
            else if Evicts(c, asked) && For(c, 0, ip) then Unknown
            else StatusOf(c, ip)
  {
    hide StatusOf, OneSlotEach;
    var k := SlotFor(c, asked);
    Written(c, k, c[k].(ip := asked, state := Pending, age := ticks % 0x10000), ip);
  }

  /** The entry an answer, or a neighbour's own question, leaves. */
  function Learned(c: seq<Entry>, k: nat, ip: nat, mac: seq<nat>): (r: seq<Entry>)
    requires k < |c|
    ensures |r| == |c|
  {
    c[k := Entry(ip, mac, Resolved, 0)]
  }

  /** arp_find_pending_slot. */
  function PendingSlot(c: seq<Entry>, ip: nat): (k: int)
    ensures -1 <= k < |c|
    ensures k >= 0 ==> For(c, k, ip) && c[k].state.Pending? && forall i :: 0 <= i < k ==> !(For(c, i, ip) && c[i].state.Pending?)
    ensures k < 0 ==> forall i :: 0 <= i < |c| ==> !(For(c, i, ip) && c[i].state.Pending?)
  {
    PendingFrom(c, ip, 0)
  }

  function PendingFrom(c: seq<Entry>, ip: nat, i: nat): (k: int)
    requires i <= |c| && forall j :: 0 <= j < i ==> !(For(c, j, ip) && c[j].state.Pending?)
    ensures -1 <= k < |c|
    ensures k >= 0 ==> For(c, k, ip) && c[k].state.Pending? && forall j :: 0 <= j < k ==> !(For(c, j, ip) && c[j].state.Pending?)
    ensures k < 0 ==> forall j :: 0 <= j < |c| ==> !(For(c, j, ip) && c[j].state.Pending?)
    decreases |c| - i
  {
    if i == |c| then -1 else if For(c, i, ip) && c[i].state.Pending? then i else PendingFrom(c, ip, i + 1)
  }

  /** There is a pending slot exactly when the address has been asked for. */
  lemma PendingExactlyWhenAsked(c: seq<Entry>, ip: nat)
    requires OneSlotEach(c)
    ensures PendingSlot(c, ip) >= 0 <==> StatusOf(c, ip) == Asked
    ensures PendingSlot(c, ip) >= 0 ==> PendingSlot(c, ip) == Held(c, ip)
  {
    hide PendingSlot, Held;
    var k := PendingSlot(c, ip);
    if k >= 0 { OnlySlot(c, k, ip); }
  }

  /** arp_is_pending: asked for, and not too long ago by the 16-bit clock. */
  predicate StillPending(c: seq<Entry>, ip: nat, ticks: nat) {
    var k := PendingSlot(c, ip);
    k >= 0 && (ticks % 0x10000 - c[k].age) % 0x10000 < TIMEOUT
  }

  /** A request made at tick t counts at tick t + d exactly while d, cut to 16 bits, is below
      the timeout: after 65536 ticks without an answer it counts again for 2000 more. */
  lemma PendingExactlyWhen(c: seq<Entry>, ip: nat, t: nat, d: nat)
    requires OneSlotEach(c) && |c| > 0
    ensures StillPending(Requested(c, ip, t), ip, t + d) <==> d % 0x10000 < TIMEOUT
  {
    hide OneSlotEach, Held, StatusOf, PendingSlot;
    var k, r := SlotFor(c, ip), Requested(c, ip, t);
    RequestedIs(c, ip, t, ip);
    OnlySlot(r, k, ip);
    PendingExactlyWhenAsked(r, ip);
    Elapsed(t, d);
  }

  lemma Elapsed(t: nat, d: nat)
    ensures ((t + d) % 0x10000 - t % 0x10000) % 0x10000 == d % 0x10000
  {
  }

  /** A request made at tick 0, another for a different address in between: at tick 2000 the
      first no longer counts, at tick 65536 it counts again. */
  lemma CountsAgain(c: seq<Entry>)
    requires c == seq(SLOTS, _ => Entry(0, [], Empty, 0))
    ensures var d := Requested(Requested(c, 1, 0), 2, 1000);
      !StillPending(d, 1, 2000) && StillPending(d, 1, 65536)
  {
    hide PendingSlot, StatusOf, Held, Vacant;
    var first := Requested(c, 1, 0);
    assert OneSlotEach(c);
    RequestedIs(c, 1, 0, 1);
    assert SlotFor(c, 1) == 0 by { assert c[0].state.Empty?; }
    OnlySlot(first, 0, 1);
    assert SlotFor(first, 2) == 1 by { assert first[1].state.Empty?; }
    var d := Requested(first, 2, 1000);
    RequestedIs(first, 2, 1000, 1);
    OnlySlot(d, 0, 1);
    PendingExactlyWhenAsked(d, 1);
  }
}
