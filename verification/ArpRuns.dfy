/** Whole runs of the address resolution machine (kernel/arp.h, kernel/ip.h): where every
    mapping comes from, what ends it, and where every datagram goes. */
module ArpRuns {
  import opened Options
  import opened BitOps
  import opened ArpCache
  import opened ArpIp

  /** Every slot free, nothing parked, nothing sent. */
  function Start(): (r: Net)
    ensures |r.cache| == SLOTS
  {
    Net(seq(SLOTS, _ => Entry(0, Zeros(), Empty, 0)), None, [])
  }

  predicate AllSound(es: seq<Event>) { forall k :: 0 <= k < |es| ==> Sound(es[k]) }

  /** The machine after the first k events. */
  function Upto(cfg: Config, es: seq<Event>, k: nat): (r: Net)
    requires Good(cfg) && AllSound(es) && k <= |es|
    ensures |r.cache| == SLOTS
  {
    if k == 0 then Start() else Step(cfg, Upto(cfg, es, k - 1), es[k - 1])
  }

  function Known(cfg: Config, es: seq<Event>, k: nat, ip: nat): Status
    requires Good(cfg) && AllSound(es) && k <= |es|
  {
    StatusOf(Upto(cfg, es, k).cache, ip)
  }

  /** No run ever gives an address two slots. */
  lemma {:induction false} OneSlotAlways(cfg: Config, es: seq<Event>, k: nat)
    requires Good(cfg) && AllSound(es) && k <= |es|
    ensures OneSlotEach(Upto(cfg, es, k).cache)
  {
    if k > 0 {
      hide Step, OneSlotEach;
      OneSlotAlways(cfg, es, k - 1);
      StepIs(cfg, Upto(cfg, es, k - 1), es[k - 1], 0);
    }
  }

  lemma KnownNext(cfg: Config, es: seq<Event>, k: nat, ip: nat)
    requires Good(cfg) && AllSound(es) && k < |es|
    ensures Known(cfg, es, k + 1, ip) == After(cfg, Upto(cfg, es, k), es[k], ip)
  {
    hide Step, OneSlotEach, After, StatusOf;
    OneSlotAlways(cfg, es, k);
    StepIs(cfg, Upto(cfg, es, k), es[k], ip);
  }

  // ---------- mappings ----------

  /** The only two things that take a mapping away: our own request for the address, and
      another request of ours that needs slot 0. */
  predicate Disturbs(cfg: Config, s: Net, e: Event, ip: nat) {
    AskedFor(cfg, s, e) == Some(ip) || ThrownOut(cfg, s, e, ip)
  }

  /** A step keeps a mapping exactly when it does not disturb it. */
  lemma KeptExactlyWhen(cfg: Config, s: Net, e: Event, ip: nat, mac: seq<nat>)
    requires Good(cfg) && |s.cache| == SLOTS && Sound(e) && OneSlotEach(s.cache) && StatusOf(s.cache, ip) == At(mac)
    ensures StatusOf(Step(cfg, s, e).cache, ip) == At(mac) <==> !Disturbs(cfg, s, e, ip)
  {
    hide Step, StatusOf, OneSlotEach, AskedFor, ThrownOut, RepliesFrom, AskedBy;
    StepIs(cfg, s, e, ip);
  }

  /** A mapping that is gone or different at event j was disturbed between i and j. */
  lemma {:induction false} ChangeNeedsRequest(cfg: Config, es: seq<Event>, i: nat, j: nat, ip: nat, mac: seq<nat>) returns (k: nat)
    requires Good(cfg) && AllSound(es) && i <= j <= |es|
    requires Known(cfg, es, i, ip) == At(mac) && Known(cfg, es, j, ip) != At(mac)
    ensures i <= k < j && Disturbs(cfg, Upto(cfg, es, k), es[k], ip)
    decreases j
  {
    hide Step, StatusOf, OneSlotEach, Disturbs;
    if Known(cfg, es, j - 1, ip) != At(mac) {
      k := ChangeNeedsRequest(cfg, es, i, j - 1, ip, mac);
    } else {
      k := j - 1;
      OneSlotAlways(cfg, es, k);
      KeptExactlyWhen(cfg, Upto(cfg, es, k), es[k], ip, mac);
    }
  }

  lemma NothingKnown(ip: nat)
    ensures StatusOf(Start().cache, ip) == Unknown
  {
  }

  /** An address that is asked for was asked for by one of our own requests, and has been
      waiting since. */
  lemma {:induction false} AskedBecause(cfg: Config, es: seq<Event>, j: nat, ip: nat) returns (k: nat)
    requires Good(cfg) && AllSound(es) && j <= |es| && Known(cfg, es, j, ip) == Asked
    ensures k < j && AskedFor(cfg, Upto(cfg, es, k), es[k]) == Some(ip)
    ensures forall i :: k < i <= j ==> Known(cfg, es, i, ip) == Asked
    decreases j
  {
    hide Step, StatusOf, OneSlotEach, AskedFor, ThrownOut, RepliesFrom, AskedBy;
    NothingKnown(ip);
    KnownNext(cfg, es, j - 1, ip);
    if AskedFor(cfg, Upto(cfg, es, j - 1), es[j - 1]) == Some(ip) {
      k := j - 1;
    } else {
      k := AskedBecause(cfg, es, j - 1, ip);
    }
  }

  /** The frame that taught us mac for ip: a reply to us while we were waiting, or the
      neighbour's own question about us while it was unknown. */
  predicate Teaches(cfg: Config, s: Net, e: Event, ip: nat, mac: seq<nat>) {
    && e.Receive? && |e.frame| >= 42 && SenderMac(e.frame) == mac
    && ((RepliesFrom(cfg, e, ip) && StatusOf(s.cache, ip).Asked?)
        || (AskedBy(cfg, e, ip) && StatusOf(s.cache, ip).Unknown? && Vacant(s.cache) >= 0))
  }

  /** Every mapping was taught by such a frame, and has stood since. */
  lemma {:induction false} KnownBecause(cfg: Config, es: seq<Event>, j: nat, ip: nat, mac: seq<nat>) returns (k: nat)
    requires Good(cfg) && AllSound(es) && j <= |es| && Known(cfg, es, j, ip) == At(mac)
    ensures k < j && Teaches(cfg, Upto(cfg, es, k), es[k], ip, mac)
    ensures forall i :: k < i <= j ==> Known(cfg, es, i, ip) == At(mac)
    decreases j
  {
    hide Step, StatusOf, OneSlotEach, AskedFor, ThrownOut, Credible, SenderMac, SenderIp;
    NothingKnown(ip);
    KnownNext(cfg, es, j - 1, ip);
    if Known(cfg, es, j - 1, ip) == At(mac) {
      k := KnownBecause(cfg, es, j - 1, ip, mac);
    } else {
      k := j - 1;
    }
  }

  // ---------- datagrams ----------

  /** The datagram goes to everyone, or to the hardware address on record for its next hop. */
  predicate RightAddress(cfg: Config, s: Net, mac: seq<nat>, p: Packet) {
    var hop := NextHop(cfg, p.dst);
    if hop == BROADCAST then mac == Ones() else StatusOf(s.cache, hop) == At(mac)
  }

  /** The event puts its own packet in the queue. */
  predicate Parks(cfg: Config, s: Net, e: Event) {
    e.Send? && Answered(cfg, s, e.packet, e.accepts) == Queued
  }

  /** The event sends the queued packet. */
  predicate Flushes(cfg: Config, s: Net, e: Event) {
    && s.parked.Some?
    && RepliesFrom(cfg, e, NextHop(cfg, s.parked.value.dst))
    && StatusOf(s.cache, NextHop(cfg, s.parked.value.dst)).Asked?
  }

  /** The event sends its own packet at once. */
  predicate Transmits(cfg: Config, s: Net, e: Event) {
    e.Send? && !Refused(cfg, e.packet) && Route(cfg, s.cache, e.packet.dst).Some?
  }

  /** What a step hands to the card. */
  ghost predicate Puts(s: Net, t: Net, mac: seq<nat>, p: Packet) {
    t.sent == s.sent + [Datagram(mac, p)]
  }

  ghost predicate PutsNone(s: Net, t: Net) {
    t.sent == s.sent || (exists b :: t.sent == s.sent + [Frame(b)])
  }

  /** The queue after a step, and the datagram sent: a reply for the queued packet's next hop
      sends it, to that reply's sender; a send goes out at once or is queued; nothing else
      touches either. */
  ghost predicate Accounted(cfg: Config, s: Net, e: Event, t: Net) {
    && (Flushes(cfg, s, e) ==> t.parked.None? && Puts(s, t, SenderMac(e.frame), s.parked.value))
    && (Transmits(cfg, s, e) ==> t.parked == s.parked && Puts(s, t, Route(cfg, s.cache, e.packet.dst).value, e.packet))
    && (Parks(cfg, s, e) ==> t.parked == Some(e.packet) && PutsNone(s, t))
    && (!Flushes(cfg, s, e) && !Transmits(cfg, s, e) && !Parks(cfg, s, e) ==> t.parked == s.parked && PutsNone(s, t))
  }

  lemma HandleAccounted(cfg: Config, s: Net, f: seq<nat>)
    requires Good(cfg) && |s.cache| == SLOTS && Bytes(f) && OneSlotEach(s.cache)
    ensures Accounted(cfg, s, Receive(f), Handle(cfg, s, f))
  {
    hide StatusOf, OneSlotEach, PendingSlot, Met, Credible, Get16, SenderIp, SenderMac, NextHop, TargetIp, TargetMac, Opcode, Answer;
    if |f| >= 42 { PendingExactlyWhenAsked(s.cache, SenderIp(f)); }
  }

  lemma AskAccounted(cfg: Config, s: Net, from: nat, target: nat, ticks: nat)
    requires Good(cfg) && |s.cache| == SLOTS && from <= BROADCAST && target <= BROADCAST
    ensures PutsNone(s, Ask(cfg, s, from, target, ticks)) && Ask(cfg, s, from, target, ticks).parked == s.parked
  {
    hide Question, Requested;
  }

  lemma DispatchAccounted(cfg: Config, s: Net, p: Packet, ticks: nat, accepts: bool)
    requires Good(cfg) && |s.cache| == SLOTS && p.dst <= BROADCAST
    ensures Accounted(cfg, s, Send(p, ticks, accepts), Dispatch(cfg, s, p, ticks))
  {
    hide StatusOf, Ask, NextHop, StillPending, Route;
    HopFits(cfg, p.dst);
    AskAccounted(cfg, s, cfg.ip, NextHop(cfg, p.dst), ticks);
  }

  lemma StepAccounted(cfg: Config, s: Net, e: Event)
    requires Good(cfg) && |s.cache| == SLOTS && Sound(e) && OneSlotEach(s.cache)
    ensures Accounted(cfg, s, e, Step(cfg, s, e))
  {
    hide Accounted, Handle, Ask, Dispatch, OneSlotEach;
    match e
    case Request(from, target, ticks) => RequestAccounted(cfg, s, from, target, ticks);
    case Receive(f) => HandleAccounted(cfg, s, f);
    case Send(p, ticks, accepts) => DispatchAccounted(cfg, s, p, ticks, accepts);
  }

  lemma RequestAccounted(cfg: Config, s: Net, from: nat, target: nat, ticks: nat)
    requires Good(cfg) && |s.cache| == SLOTS && from <= BROADCAST && target <= BROADCAST
    ensures Accounted(cfg, s, Request(from, target, ticks), Ask(cfg, s, from, target, ticks))
  {
    hide Ask, PutsNone;
    AskAccounted(cfg, s, from, target, ticks);
  }

  /** A datagram that leaves in a step goes to everyone, or to the hardware address then on
      record for its next hop; a queued one only to the neighbour that just answered. */
  lemma RightlyAddressed(cfg: Config, s: Net, e: Event, mac: seq<nat>, p: Packet)
    requires Good(cfg) && |s.cache| == SLOTS && Sound(e) && OneSlotEach(s.cache) && Puts(s, Step(cfg, s, e), mac, p)
    ensures RightAddress(cfg, Step(cfg, s, e), mac, p)
    ensures s.parked.Some? && Step(cfg, s, e).parked.None? ==> p == s.parked.value
    ensures e.Receive? ==> s.parked == Some(p) && RepliesFrom(cfg, e, NextHop(cfg, p.dst)) && mac == SenderMac(e.frame)
  {
    hide Step, StatusOf, OneSlotEach, AskedFor, ThrownOut, RepliesFrom, AskedBy, NextHop, Refused, Route, Answered, SenderMac;
    var t := Step(cfg, s, e);
    StepAccounted(cfg, s, e);
    PutOnce(s, t, mac, p);
    FlushShape(cfg, s, e);
    StepIs(cfg, s, e, NextHop(cfg, p.dst));
    if Flushes(cfg, s, e) {
      PutSame(s, t, mac, p, SenderMac(e.frame), s.parked.value);
      FlushAddress(cfg, s, e, t);
    } else if Transmits(cfg, s, e) {
      PutSame(s, t, mac, p, Route(cfg, s.cache, e.packet.dst).value, e.packet);
      TransmitAddress(cfg, s, e, t);
    }
  }

  lemma PutOnce(s: Net, t: Net, mac: seq<nat>, p: Packet)
    requires Puts(s, t, mac, p)
    ensures !PutsNone(s, t)
  {
    assert t.sent[|s.sent|] == Datagram(mac, p);
    forall b ensures t.sent != s.sent + [Frame(b)] {
      assert (s.sent + [Frame(b)])[|s.sent|] == Frame(b);
    }
  }

  lemma PutSame(s: Net, t: Net, mac: seq<nat>, p: Packet, mac': seq<nat>, p': Packet)
    requires Puts(s, t, mac, p) && Puts(s, t, mac', p')
    ensures mac == mac' && p == p'
  {
    assert t.sent[|s.sent|] == Datagram(mac, p);
  }

  lemma FlushAddress(cfg: Config, s: Net, e: Event, t: Net)
    requires Flushes(cfg, s, e) && |e.frame| >= 42
    requires var hop := NextHop(cfg, s.parked.value.dst); StatusOf(t.cache, hop) == After(cfg, s, e, hop)
    ensures RightAddress(cfg, t, SenderMac(e.frame), s.parked.value)
  {
    hide StatusOf, NextHop, SenderMac, TargetIp, TargetMac, Opcode, Get16;
  }

  lemma TransmitAddress(cfg: Config, s: Net, e: Event, t: Net)
    requires Transmits(cfg, s, e)
    requires var hop := NextHop(cfg, e.packet.dst); StatusOf(t.cache, hop) == After(cfg, s, e, hop)
    ensures RightAddress(cfg, t, Route(cfg, s.cache, e.packet.dst).value, e.packet)
  {
    hide StatusOf, NextHop;
  }

  // ---------- each packet at most once ----------

  /** The event that queued the packet now in the queue. */
  function ParkedBy(cfg: Config, es: seq<Event>, k: nat): (i: nat)
    requires Good(cfg) && AllSound(es) && k <= |es|
  {
    if k == 0 then 0
    else if Parks(cfg, Upto(cfg, es, k - 1), es[k - 1]) then k - 1
    else ParkedBy(cfg, es, k - 1)
  }

  /** The events whose packets the datagrams sent so far carry, in the order sent. */
  function Origins(cfg: Config, es: seq<Event>, k: nat): (r: seq<nat>)
    requires Good(cfg) && AllSound(es) && k <= |es|
  {
    if k == 0 then []
    else
      var s, e := Upto(cfg, es, k - 1), es[k - 1];
      Origins(cfg, es, k - 1) +
        (if Flushes(cfg, s, e) then [ParkedBy(cfg, es, k - 1)] else if Transmits(cfg, s, e) then [k - 1] else [])
  }

  /** The packets of the datagrams sent so far. */
  function Carried(sent: seq<Sent>): (r: seq<Packet>) {
    if sent == [] then []
    else
      var x := sent[|sent| - 1];
      Carried(sent[..|sent| - 1]) + (if x.Datagram? then [x.packet] else [])
  }

  lemma CarriedPut(s: seq<Sent>, x: Sent)
    ensures Carried(s + [x]) == Carried(s) + (if x.Datagram? then [x.packet] else [])
  {
    assert (s + [x])[..|s|] == s;
  }

  /** Datagrams and their origins match; no event has two; a queued packet has sent none. */
  ghost predicate Matched(cfg: Config, es: seq<Event>, k: nat)
    requires Good(cfg) && AllSound(es) && k <= |es|
  {
    var s, o := Upto(cfg, es, k), Origins(cfg, es, k);
    && |o| == |Carried(s.sent)|
    && (forall n :: 0 <= n < |o| ==> o[n] < k && es[o[n]].Send? && Carried(s.sent)[n] == es[o[n]].packet)
    && (forall m, n :: 0 <= m < n < |o| ==> o[m] != o[n])
    && (s.parked.Some? ==>
         var i := ParkedBy(cfg, es, k);
         i < k && es[i].Send? && es[i].packet == s.parked.value && i !in o)
  }

  /** One more step of Matched, from its parts before and after. */
  ghost predicate Follows(cfg: Config, es: seq<Event>, k: nat)
    requires Good(cfg) && AllSound(es) && k < |es|
  {
    var s, t, e := Upto(cfg, es, k), Upto(cfg, es, k + 1), es[k];
    var now := if Flushes(cfg, s, e) then [ParkedBy(cfg, es, k)] else if Transmits(cfg, s, e) then [k] else [];
    && Origins(cfg, es, k + 1) == Origins(cfg, es, k) + now
    && Carried(t.sent) == Carried(s.sent) +
         (if Flushes(cfg, s, e) then [s.parked.value] else if Transmits(cfg, s, e) then [e.packet] else [])
    && (Flushes(cfg, s, e) ==> s.parked.Some? && t.parked.None?)
    && (Transmits(cfg, s, e) ==> e.Send? && t.parked == s.parked && ParkedBy(cfg, es, k + 1) == ParkedBy(cfg, es, k))
    && (!Flushes(cfg, s, e) && !Transmits(cfg, s, e) ==>
          if Parks(cfg, s, e) then e.Send? && t.parked == Some(e.packet) && ParkedBy(cfg, es, k + 1) == k
          else t.parked == s.parked && ParkedBy(cfg, es, k + 1) == ParkedBy(cfg, es, k))
  }

  lemma FollowsAlways(cfg: Config, es: seq<Event>, k: nat)
    requires Good(cfg) && AllSound(es) && k < |es|
    ensures Follows(cfg, es, k)
  {
    hide Step, Upto, Flushes, Transmits, Parks, OneSlotEach, Carried, PutsNone, Route, SenderMac;
    var s, e := Upto(cfg, es, k), es[k];
    var t := Upto(cfg, es, k + 1);
    UptoNext(cfg, es, k);
    OneSlotAlways(cfg, es, k);
    StepAccounted(cfg, s, e);
    FlushShape(cfg, s, e);
    if Flushes(cfg, s, e) {
      CarriedPut(s.sent, Datagram(SenderMac(e.frame), s.parked.value));
    } else if Transmits(cfg, s, e) {
      CarriedPut(s.sent, Datagram(Route(cfg, s.cache, e.packet.dst).value, e.packet));
    } else {
      CarriedNone(s, t);
    }
  }

  lemma MatchedNext(cfg: Config, es: seq<Event>, k: nat)
    requires Good(cfg) && AllSound(es) && k < |es| && Matched(cfg, es, k)
    ensures Matched(cfg, es, k + 1)
  {
    hide Step, Upto, Flushes, Transmits, Parks, Carried, Origins, ParkedBy;
    FollowsAlways(cfg, es, k);
  }

  lemma CarriedNone(s: Net, t: Net)
    requires PutsNone(s, t)
    ensures Carried(t.sent) == Carried(s.sent)
  {
    if b :| t.sent == s.sent + [Frame(b)] { CarriedPut(s.sent, Frame(b)); }
  }

  lemma UptoNext(cfg: Config, es: seq<Event>, k: nat)
    requires Good(cfg) && AllSound(es) && k < |es|
    ensures Upto(cfg, es, k + 1) == Step(cfg, Upto(cfg, es, k), es[k])
  {
  }

  lemma FlushShape(cfg: Config, s: Net, e: Event)
    ensures Parks(cfg, s, e) ==> e.Send?
    ensures Flushes(cfg, s, e) ==> e.Receive? && |e.frame| >= 42 && s.parked.Some? && !Parks(cfg, s, e)
    ensures Transmits(cfg, s, e) ==> e.Send? && Route(cfg, s.cache, e.packet.dst).Some? && !Parks(cfg, s, e)
  {
    hide Route, StatusOf;
  }

  /** Over every run each datagram sent carries the packet of one send event, and no send
      event's packet leaves twice, whether at once or from the queue. */
  lemma {:induction false} SentAtMostOnce(cfg: Config, es: seq<Event>, k: nat)
    requires Good(cfg) && AllSound(es) && k <= |es|
    ensures Matched(cfg, es, k)
  {
    if k > 0 {
      SentAtMostOnce(cfg, es, k - 1);
      MatchedNext(cfg, es, k - 1);
    }
  }
}
