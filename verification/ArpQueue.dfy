/** The one-packet queue of kernel/ip.h over whole runs: exactly when a parked packet goes out.
    The comment at kernel/ip.h:171-174 promises that it will unless a newer one takes its
    place; it also has to be asked for still when an answer comes, and its next hop has to be
    an address that answers are believed from. */
module ArpQueue {
  import opened Options
  import opened BitOps
  import opened ArpCache
  import opened ArpIp
  import opened ArpRuns

  // ---------- one step ----------

  /** The parked packet waits for its next hop to answer. */
  predicate Waiting(cfg: Config, s: Net) {
    s.parked.Some? ==> StatusOf(s.cache, NextHop(cfg, s.parked.value.dst)).Asked?
  }

  /** The queued packet goes on waiting for an answer, except in one case: a request of ours
      throws its next hop out of slot 0 and queues nothing in its place. */
  lemma StopsWaitingExactlyWhen(cfg: Config, s: Net, e: Event)
    requires Good(cfg) && |s.cache| == SLOTS && Sound(e) && OneSlotEach(s.cache) && Waiting(cfg, s)
    ensures !Waiting(cfg, Step(cfg, s, e)) <==>
      s.parked.Some? && ThrownOut(cfg, s, e, NextHop(cfg, s.parked.value.dst)) && !Parks(cfg, s, e)
  {
    hide Step, StatusOf, OneSlotEach, NextHop, Refused, Route, Puts, PutsNone, Answered, SenderMac, SenderIp;
    hide RepliesToUs, AsksForUs, AskedFor, ThrownOut;
    StepAccounted(cfg, s, e);
    FlushShape(cfg, s, e);
    NotThrown(cfg, s, e);
    if s.parked.Some? { StepIs(cfg, s, e, NextHop(cfg, s.parked.value.dst)); }
    if Parks(cfg, s, e) {
      StepIs(cfg, s, e, NextHop(cfg, e.packet.dst));
      ParkedIsAsked(cfg, s, e);
    }
  }

  lemma NotThrown(cfg: Config, s: Net, e: Event)
    ensures e.Receive? || Transmits(cfg, s, e) ==> AskedFor(cfg, s, e).None? && forall ip: nat :: !ThrownOut(cfg, s, e, ip)
    ensures forall ip: nat :: ThrownOut(cfg, s, e, ip) ==> AskedFor(cfg, s, e) != Some(ip)
  {
    hide Route, StatusOf, NextHop, StillPending;
  }

  lemma ParkedIsAsked(cfg: Config, s: Net, e: Event)
    requires Parks(cfg, s, e) && OneSlotEach(s.cache)
    ensures var hop := NextHop(cfg, e.packet.dst);
      AskedFor(cfg, s, e) == Some(hop) || (StatusOf(s.cache, hop) == Asked && !ThrownOut(cfg, s, e, hop))
  {
    hide Route, NextHop, StatusOf;
    PendingExactlyWhenAsked(s.cache, NextHop(cfg, e.packet.dst));
  }

  // ---------- events of a run ----------

  predicate ParksAt(cfg: Config, es: seq<Event>, k: nat)
    requires Good(cfg) && AllSound(es) && k < |es|
  {
    Parks(cfg, Upto(cfg, es, k), es[k])
  }

  /** Event k makes us ask for ip. */
  predicate AsksAt(cfg: Config, es: seq<Event>, k: nat, ip: nat)
    requires Good(cfg) && AllSound(es) && k < |es|
  {
    AskedFor(cfg, Upto(cfg, es, k), es[k]) == Some(ip)
  }

  /** Event k throws ip out of slot 0. */
  predicate ThrowsAt(cfg: Config, es: seq<Event>, k: nat, ip: nat)
    requires Good(cfg) && AllSound(es) && k < |es|
  {
    ThrownOut(cfg, Upto(cfg, es, k), es[k], ip)
  }

  /** The next hop of the packet of event i. */
  function HopOf(cfg: Config, es: seq<Event>, i: nat): nat
    requires i < |es| && es[i].Send?
  {
    NextHop(cfg, es[i].packet.dst)
  }

  /** Between events i and j ip was asked for again whenever it had been thrown out. */
  ghost predicate KeptOpen(cfg: Config, es: seq<Event>, i: nat, j: nat, ip: nat)
    requires Good(cfg) && AllSound(es) && j <= |es|
  {
    forall m :: i < m < j && ThrowsAt(cfg, es, m, ip) ==> exists n :: m < n < j && AsksAt(cfg, es, n, ip)
  }

  /** No newer packet was parked between events i and j. */
  ghost predicate Unreplaced(cfg: Config, es: seq<Event>, i: nat, j: nat)
    requires Good(cfg) && AllSound(es) && j <= |es|
  {
    forall k :: i < k < j ==> !ParksAt(cfg, es, k)
  }

  /** No answer from ip that came between events i and j came while it was being asked for. */
  ghost predicate Unheard(cfg: Config, es: seq<Event>, i: nat, j: nat, ip: nat)
    requires Good(cfg) && AllSound(es) && j <= |es|
  {
    forall k :: i < k < j && RepliesFrom(cfg, es[k], ip) ==> !KeptOpen(cfg, es, i, k, ip)
  }

  /** The packet of event i is in the queue before event j. */
  predicate InQueue(cfg: Config, es: seq<Event>, i: nat, j: nat)
    requires Good(cfg) && AllSound(es) && j <= |es|
  {
    Upto(cfg, es, j).parked.Some? && ParkedBy(cfg, es, j) == i
  }

  /** Event j sends the packet of event i from the queue. */
  predicate LeavesAt(cfg: Config, es: seq<Event>, i: nat, j: nat)
    requires Good(cfg) && AllSound(es) && j < |es|
  {
    InQueue(cfg, es, i, j) && Flushes(cfg, Upto(cfg, es, j), es[j])
  }

  // ---------- the queue ----------

  lemma QueuedPacket(cfg: Config, es: seq<Event>, i: nat, j: nat)
    requires Good(cfg) && AllSound(es) && j <= |es| && InQueue(cfg, es, i, j)
    ensures i < j && es[i].Send? && Upto(cfg, es, j).parked == Some(es[i].packet)
  {
    hide Upto, ParkedBy, Origins, Carried;
    SentAtMostOnce(cfg, es, j);
  }

  /** The packet of event i stays in the queue but for a newer one and for its own leaving. */
  lemma QueueNext(cfg: Config, es: seq<Event>, i: nat, j: nat)
    requires Good(cfg) && AllSound(es) && i < j < |es|
    ensures InQueue(cfg, es, i, j + 1) <==> InQueue(cfg, es, i, j) && !ParksAt(cfg, es, j) && !LeavesAt(cfg, es, i, j)
  {
    hide Upto, ParkedBy, Step, Flushes, Transmits, Parks, OneSlotEach, Puts, PutsNone;
    var s, e := Upto(cfg, es, j), es[j];
    UptoNext(cfg, es, j);
    OneSlotAlways(cfg, es, j);
    StepAccounted(cfg, s, e);
    FlushShape(cfg, s, e);
    ParkedByNext(cfg, es, j);
  }

  lemma ParkedByNext(cfg: Config, es: seq<Event>, j: nat)
    requires Good(cfg) && AllSound(es) && j < |es|
    ensures ParkedBy(cfg, es, j + 1) == if ParksAt(cfg, es, j) then j else ParkedBy(cfg, es, j)
  {
    hide Upto, Parks;
  }

  lemma QueueStarts(cfg: Config, es: seq<Event>, i: nat)
    requires Good(cfg) && AllSound(es) && i < |es| && ParksAt(cfg, es, i)
    ensures es[i].Send? && InQueue(cfg, es, i, i + 1) && Known(cfg, es, i + 1, HopOf(cfg, es, i)) == Asked
  {
    hide Upto, ParkedBy, Step, OneSlotEach, Puts, PutsNone, Answered, StatusOf, NextHop, RepliesFrom, AskedBy, AskedFor, ThrownOut;
    var s, e := Upto(cfg, es, i), es[i];
    UptoNext(cfg, es, i);
    OneSlotAlways(cfg, es, i);
    ParkedByNext(cfg, es, i);
    StepAccounted(cfg, s, e);
    ParkedIsAsked(cfg, s, e);
    NotThrown(cfg, s, e);
    SendHears(cfg, e, NextHop(cfg, e.packet.dst));
    KnownNext(cfg, es, i, NextHop(cfg, e.packet.dst));
  }

  lemma SendHears(cfg: Config, e: Event, ip: nat)
    ensures e.Send? ==> !RepliesFrom(cfg, e, ip) && !AskedBy(cfg, e, ip)
  {
  }

  /** One more event: as long as no answer is believed, being asked for is being kept open. */
  lemma OpenNext(cfg: Config, es: seq<Event>, i: nat, j: nat, ip: nat)
    requires Good(cfg) && AllSound(es) && i < j < |es|
    requires Known(cfg, es, j, ip) == Asked <==> KeptOpen(cfg, es, i, j, ip)
    requires RepliesFrom(cfg, es[j], ip) ==> !KeptOpen(cfg, es, i, j, ip)
    ensures Known(cfg, es, j + 1, ip) == Asked <==> KeptOpen(cfg, es, i, j + 1, ip)
  {
    hide Upto, StatusOf, RepliesFrom, AskedBy, KeptOpen, Known, AskedFor, ThrownOut;
    KnownNext(cfg, es, j, ip);
    KnownIs(cfg, es, j, ip);
    NotThrown(cfg, Upto(cfg, es, j), es[j]);
    KeptOpenNext(cfg, es, i, j, ip);
  }

  lemma KnownIs(cfg: Config, es: seq<Event>, j: nat, ip: nat)
    requires Good(cfg) && AllSound(es) && j <= |es|
    ensures Known(cfg, es, j, ip) == StatusOf(Upto(cfg, es, j).cache, ip)
  {
  }

  lemma KeptOpenNext(cfg: Config, es: seq<Event>, i: nat, j: nat, ip: nat)
    requires Good(cfg) && AllSound(es) && i < j < |es|
    ensures KeptOpen(cfg, es, i, j + 1, ip) <==>
      AsksAt(cfg, es, j, ip) || (KeptOpen(cfg, es, i, j, ip) && !ThrowsAt(cfg, es, j, ip))
  {
    hide AsksAt, ThrowsAt;
    var now, then_ := KeptOpen(cfg, es, i, j, ip), KeptOpen(cfg, es, i, j + 1, ip);
    if AsksAt(cfg, es, j, ip) {
      ThrowsOrAsks(cfg, es, j, ip);
    } else if now && !ThrowsAt(cfg, es, j, ip) {
      forall m | i < m < j + 1 && ThrowsAt(cfg, es, m, ip) ensures exists n :: m < n < j + 1 && AsksAt(cfg, es, n, ip) {
        var n :| m < n < j && AsksAt(cfg, es, n, ip);
      }
    } else if then_ {
      forall m | i < m < j && ThrowsAt(cfg, es, m, ip) ensures exists n :: m < n < j && AsksAt(cfg, es, n, ip) {
        var n :| m < n < j + 1 && AsksAt(cfg, es, n, ip);
      }
    }
  }

  lemma ThrowsOrAsks(cfg: Config, es: seq<Event>, j: nat, ip: nat)
    requires Good(cfg) && AllSound(es) && j < |es| && AsksAt(cfg, es, j, ip)
    ensures !ThrowsAt(cfg, es, j, ip)
  {
    NotThrown(cfg, Upto(cfg, es, j), es[j]);
  }

  /** A packet in the queue leaves with an answer from its next hop while that is asked for. */
  lemma LeavesIs(cfg: Config, es: seq<Event>, i: nat, j: nat)
    requires Good(cfg) && AllSound(es) && j < |es| && InQueue(cfg, es, i, j)
    ensures i < j && es[i].Send?
    ensures var hop := HopOf(cfg, es, i);
      LeavesAt(cfg, es, i, j) <==> RepliesFrom(cfg, es[j], hop) && Known(cfg, es, j, hop) == Asked
  {
    hide Upto, ParkedBy, StatusOf, RepliesFrom, NextHop;
    QueuedPacket(cfg, es, i, j);
  }

  /** As long as nothing newer is parked: the packet is in the queue while no answer was
      believed, and then its next hop is asked for exactly when it was kept open. */
  lemma {:induction false} QueuedExactlyWhen(cfg: Config, es: seq<Event>, i: nat, j: nat)
    requires Good(cfg) && AllSound(es) && i < j <= |es| && ParksAt(cfg, es, i) && Unreplaced(cfg, es, i, j)
    ensures es[i].Send?
    ensures var hop := HopOf(cfg, es, i);
      (InQueue(cfg, es, i, j) <==> Unheard(cfg, es, i, j, hop))
      && (InQueue(cfg, es, i, j) ==> (Known(cfg, es, j, hop) == Asked <==> KeptOpen(cfg, es, i, j, hop)))
    decreases j
  {
    hide Upto, ParkedBy, InQueue, LeavesAt, ParksAt, Known, KeptOpen, RepliesFrom, NextHop, Unheard;
    QueueStarts(cfg, es, i);
    var hop := HopOf(cfg, es, i);
    if j == i + 1 {
      NothingYet(cfg, es, i, hop);
    } else {
      QueuedExactlyWhen(cfg, es, i, j - 1);
      QueueNext(cfg, es, i, j - 1);
      UnheardNext(cfg, es, i, j - 1, hop);
      if InQueue(cfg, es, i, j - 1) {
        LeavesIs(cfg, es, i, j - 1);
        if InQueue(cfg, es, i, j) { OpenNext(cfg, es, i, j - 1, hop); }
      }
    }
  }

  lemma NothingYet(cfg: Config, es: seq<Event>, i: nat, ip: nat)
    requires Good(cfg) && AllSound(es) && i < |es|
    ensures Unheard(cfg, es, i, i + 1, ip) && KeptOpen(cfg, es, i, i + 1, ip)
  {
  }

  lemma UnheardNext(cfg: Config, es: seq<Event>, i: nat, j: nat, ip: nat)
    requires Good(cfg) && AllSound(es) && i < j < |es|
    ensures Unheard(cfg, es, i, j + 1, ip) <==>
      Unheard(cfg, es, i, j, ip) && !(RepliesFrom(cfg, es[j], ip) && KeptOpen(cfg, es, i, j, ip))
  {
    hide RepliesFrom, KeptOpen;
  }

  /** The packet of event i leaves at event j exactly when that is an answer from its next
      hop, nothing newer was parked, the hop was asked for again whenever it had been thrown
      out of the cache, and no earlier answer met the same. */
  lemma LeavesAtExactlyWhen(cfg: Config, es: seq<Event>, i: nat, j: nat)
    requires Good(cfg) && AllSound(es) && i < j < |es| && ParksAt(cfg, es, i)
    ensures es[i].Send?
    ensures var hop := HopOf(cfg, es, i);
      LeavesAt(cfg, es, i, j) <==>
        RepliesFrom(cfg, es[j], hop) && Unreplaced(cfg, es, i, j)
        && KeptOpen(cfg, es, i, j, hop) && Unheard(cfg, es, i, j, hop)
  {
    hide Upto, ParkedBy, InQueue, ParksAt, Known, KeptOpen, RepliesFrom, NextHop, Unheard, Unreplaced, Flushes;
    QueueStarts(cfg, es, i);
    if InQueue(cfg, es, i, j) { StillNewest(cfg, es, i, j); }
    if Unreplaced(cfg, es, i, j) {
      QueuedExactlyWhen(cfg, es, i, j);
      if InQueue(cfg, es, i, j) { LeavesIs(cfg, es, i, j); }
    }
  }

  lemma {:induction false} StillNewest(cfg: Config, es: seq<Event>, i: nat, j: nat)
    requires Good(cfg) && AllSound(es) && i < j <= |es| && InQueue(cfg, es, i, j)
    ensures Unreplaced(cfg, es, i, j)
    decreases j
  {
    hide Upto, ParkedBy, InQueue, LeavesAt, ParksAt;
    if j > i + 1 {
      QueueNext(cfg, es, i, j - 1);
      StillNewest(cfg, es, i, j - 1);
    }
  }

  /** Event j is an answer from the packet's next hop that finds the packet and is believed. */
  ghost predicate Delivers(cfg: Config, es: seq<Event>, i: nat, j: nat)
    requires Good(cfg) && AllSound(es) && i < j < |es| && es[i].Send?
  {
    var hop := HopOf(cfg, es, i);
    RepliesFrom(cfg, es[j], hop) && Unreplaced(cfg, es, i, j) && KeptOpen(cfg, es, i, j, hop)
  }

  /** In a run a parked packet goes out exactly when at some event its next hop answers,
      nothing newer having been parked, and the hop having been asked for again whenever a
      request for another address had thrown it out of slot 0. */
  lemma LeavesExactlyWhen(cfg: Config, es: seq<Event>, i: nat)
    requires Good(cfg) && AllSound(es) && i < |es| && ParksAt(cfg, es, i)
    ensures es[i].Send?
    ensures (exists j :: i < j < |es| && LeavesAt(cfg, es, i, j)) <==> (exists j :: i < j < |es| && Delivers(cfg, es, i, j))
  {
    hide ParksAt, LeavesAt, InQueue, KeptOpen, Unheard, Unreplaced, RepliesFrom, NextHop, Known, Upto;
    QueueStarts(cfg, es, i);
    if j :| i < j < |es| && LeavesAt(cfg, es, i, j) {
      LeavesAtExactlyWhen(cfg, es, i, j);
      assert Delivers(cfg, es, i, j);
    }
    if j :| i < j < |es| && Delivers(cfg, es, i, j) {
      var k := FirstDelivery(cfg, es, i, j);
    }
  }

  lemma {:induction false} FirstDelivery(cfg: Config, es: seq<Event>, i: nat, j: nat) returns (k: nat)
    requires Good(cfg) && AllSound(es) && i < j < |es| && ParksAt(cfg, es, i) && es[i].Send? && Delivers(cfg, es, i, j)
    ensures i < k <= j && LeavesAt(cfg, es, i, k)
    decreases j
  {
    hide ParksAt, LeavesAt, InQueue, KeptOpen, RepliesFrom, NextHop, Upto;
    var hop := HopOf(cfg, es, i);
    if Unheard(cfg, es, i, j, hop) {
      k := j;
      LeavesAtExactlyWhen(cfg, es, i, j);
    } else {
      var n :| i < n < j && RepliesFrom(cfg, es[n], hop) && KeptOpen(cfg, es, i, n, hop);
      k := FirstDelivery(cfg, es, i, n);
    }
  }

  // ---------- next hops that never answer ----------

  /** An address an answer can be believed from: not 0, not broadcast, not our own. */
  predicate CanAnswer(cfg: Config, ip: nat) {
    ip != 0 && ip < BROADCAST && !(cfg.ready && ip == cfg.ip)
  }

  lemma AnswersCome(cfg: Config, f: seq<nat>)
    requires Good(cfg) && Bytes(f) && RepliesToUs(cfg, f)
    ensures CanAnswer(cfg, SenderIp(f))
  {
    hide Get16, Get32, Opcode, SenderMac, TargetIp, TargetMac;
    assert SenderIp(f) <= BROADCAST by { SenderFits(f); }
  }

  lemma SenderFits(f: seq<nat>)
    requires Bytes(f) && |f| >= 42
    ensures SenderIp(f) <= BROADCAST
  {
    hide Bytes;
  }

  /** An answer from ip, as a host with hardware address 0 would send it. */
  function AnswerFrom(cfg: Config, ip: nat): seq<nat>
    requires Good(cfg) && ip <= BROADCAST
  {
    ArpFrame(cfg.mac, Zeros(), 2, ip, cfg.mac, cfg.ip)
  }

  lemma AnswerFromIs(cfg: Config, ip: nat)
    requires Good(cfg) && CanAnswer(cfg, ip)
    ensures Bytes(AnswerFrom(cfg, ip)) && RepliesFrom(cfg, Receive(AnswerFrom(cfg, ip)), ip)
  {
    hide ArpFrame, Get16, SenderIp, SenderMac, TargetIp, TargetMac, Opcode, Bytes;
    MacBytes(cfg);
    FramesAreBytes(cfg.mac, Zeros(), 2, ip, cfg.mac, cfg.ip);
    ReadBack(cfg.mac, Zeros(), 2, ip, cfg.mac, cfg.ip);
  }

  lemma MacBytes(cfg: Config)
    requires Good(cfg)
    ensures IsMac(cfg.mac) && IsMac(Zeros())
  {
  }

  /** There is a frame that answers for ip exactly when ip can answer. */
  lemma CanAnswerExactlyWhen(cfg: Config, ip: nat)
    requires Good(cfg)
    ensures (exists f :: Bytes(f) && RepliesFrom(cfg, Receive(f), ip)) <==> CanAnswer(cfg, ip)
  {
    hide RepliesToUs, SenderIp, Bytes, AnswerFrom;
    if f :| Bytes(f) && RepliesFrom(cfg, Receive(f), ip) {
      AnswersCome(cfg, f);
    }
    if CanAnswer(cfg, ip) {
      AnswerFromIs(cfg, ip);
    }
  }

  /** A packet parked for a next hop that cannot answer never goes out, in no run. */
  lemma DeadHopNeverLeaves(cfg: Config, es: seq<Event>, i: nat, j: nat)
    requires Good(cfg) && AllSound(es) && i < j < |es| && ParksAt(cfg, es, i)
    ensures es[i].Send? && (!CanAnswer(cfg, HopOf(cfg, es, i)) ==> !LeavesAt(cfg, es, i, j))
  {
    hide ParksAt, LeavesAt, KeptOpen, Unheard, Unreplaced, NextHop, CanAnswer, RepliesToUs, SenderIp;
    LeavesAtExactlyWhen(cfg, es, i, j);
    if RepliesFrom(cfg, es[j], HopOf(cfg, es, i)) {
      assert Sound(es[j]);
      AnswersCome(cfg, es[j].frame);
    }
  }

  /** Whatever came before, a queued packet can still go out exactly when its next hop can
      answer: it takes one more request for the hop, and its answer. */
  lemma CanStillLeaveExactlyWhen(cfg: Config, es: seq<Event>, i: nat)
    requires Good(cfg) && AllSound(es) && i < |es| && ParksAt(cfg, es, i) && InQueue(cfg, es, i, |es|)
    ensures es[i].Send?
    ensures (exists more :: AllSound(es + more) && SomeLeave(cfg, es + more, i, |es|)) <==> CanAnswer(cfg, HopOf(cfg, es, i))
  {
    hide ParksAt, InQueue, Upto, ParkedBy, NextHop, CanAnswer, SomeLeave, AnswerFrom;
    QueuedPacket(cfg, es, i, |es|);
    var hop := HopOf(cfg, es, i);
    if CanAnswer(cfg, hop) {
      AskAndHear(cfg, es, i);
      assert AllSound(es + Revive(cfg, hop)) && SomeLeave(cfg, es + Revive(cfg, hop), i, |es|);
    }
    if more :| AllSound(es + more) && SomeLeave(cfg, es + more, i, |es|) {
      LeavingHopAnswers(cfg, es, more, i);
    }
  }

  /** The packet of event i leaves at event n or later. */
  ghost predicate SomeLeave(cfg: Config, es: seq<Event>, i: nat, n: nat)
    requires Good(cfg) && AllSound(es)
  {
    exists j :: n <= j < |es| && LeavesAt(cfg, es, i, j)
  }

  function Revive(cfg: Config, hop: nat): (r: seq<Event>)
    requires Good(cfg) && CanAnswer(cfg, hop)
    ensures |r| == 2
  {
    [Request(cfg.ip, hop, 0), Receive(AnswerFrom(cfg, hop))]
  }

  lemma LeavingHopAnswers(cfg: Config, es: seq<Event>, more: seq<Event>, i: nat)
    requires Good(cfg) && AllSound(es) && AllSound(es + more) && i < |es| && ParksAt(cfg, es, i) && es[i].Send?
    requires SomeLeave(cfg, es + more, i, |es|)
    ensures CanAnswer(cfg, HopOf(cfg, es, i))
  {
    hide ParksAt, LeavesAt, NextHop, CanAnswer, Upto;
    var all := es + more;
    SamePast(cfg, es, more, i);
    ParksSame(cfg, es, more, i);
    var j :| |es| <= j < |all| && LeavesAt(cfg, all, i, j);
    DeadHopNeverLeaves(cfg, all, i, j);
  }

  /** What follows does not change what came before. */
  lemma {:induction false} SamePast(cfg: Config, es: seq<Event>, more: seq<Event>, k: nat)
    requires Good(cfg) && AllSound(es) && AllSound(es + more) && k <= |es|
    ensures Upto(cfg, es + more, k) == Upto(cfg, es, k) && ParkedBy(cfg, es + more, k) == ParkedBy(cfg, es, k)
  {
    hide Step, Parks;
    if k > 0 {
      SamePast(cfg, es, more, k - 1);
      assert (es + more)[k - 1] == es[k - 1];
    }
  }

  lemma ParksSame(cfg: Config, es: seq<Event>, more: seq<Event>, i: nat)
    requires Good(cfg) && AllSound(es) && AllSound(es + more) && i < |es|
    requires Upto(cfg, es + more, i) == Upto(cfg, es, i)
    ensures ParksAt(cfg, es + more, i) == ParksAt(cfg, es, i) && (es + more)[i] == es[i]
  {
    hide Upto, Parks;
  }

  lemma AskAndHear(cfg: Config, es: seq<Event>, i: nat)
    requires Good(cfg) && AllSound(es) && i < |es| && ParksAt(cfg, es, i) && InQueue(cfg, es, i, |es|) && es[i].Send?
    requires CanAnswer(cfg, HopOf(cfg, es, i))
    ensures var all := es + Revive(cfg, HopOf(cfg, es, i));
      AllSound(all) && SomeLeave(cfg, all, i, |es|)
  {
    hide ParksAt, InQueue, Upto, ParkedBy, NextHop, LeavesAt, Known, AnswerFrom, RepliesFrom, Bytes;
    var hop, n := HopOf(cfg, es, i), |es|;
    var more := Revive(cfg, hop);
    var all := es + more;
    AnswerFromIs(cfg, hop);
    ReviveSound(cfg, es, hop);
    assert all[n] == more[0] && all[n + 1] == more[1] && all[i] == es[i];
    SamePast(cfg, es, more, n);
    SameQueue(cfg, es, more, i);
    ParkerHasCard(cfg, es, i);
    RequestWaits(cfg, all, i, n, hop);
    LeavesIs(cfg, all, i, n + 1);
    assert LeavesAt(cfg, all, i, n + 1);
  }

  lemma ReviveSound(cfg: Config, es: seq<Event>, hop: nat)
    requires Good(cfg) && AllSound(es) && CanAnswer(cfg, hop) && Bytes(AnswerFrom(cfg, hop))
    ensures AllSound(es + Revive(cfg, hop))
  {
    hide AnswerFrom, Bytes;
  }

  lemma SameQueue(cfg: Config, es: seq<Event>, more: seq<Event>, i: nat)
    requires Good(cfg) && AllSound(es) && AllSound(es + more)
    requires Upto(cfg, es + more, |es|) == Upto(cfg, es, |es|) && ParkedBy(cfg, es + more, |es|) == ParkedBy(cfg, es, |es|)
    ensures InQueue(cfg, es + more, i, |es|) == InQueue(cfg, es, i, |es|)
  {
    hide Upto, ParkedBy;
  }

  lemma ParkerHasCard(cfg: Config, es: seq<Event>, i: nat)
    requires Good(cfg) && AllSound(es) && i < |es| && ParksAt(cfg, es, i)
    ensures cfg.present
  {
    hide Upto, Route;
  }

  /** A request of our own leaves the queue alone and its address asked for. */
  lemma RequestWaits(cfg: Config, es: seq<Event>, i: nat, n: nat, hop: nat)
    requires Good(cfg) && AllSound(es) && i < n < |es| && InQueue(cfg, es, i, n) && cfg.present
    requires es[n].Request? && es[n].target == hop
    ensures InQueue(cfg, es, i, n + 1) && Known(cfg, es, n + 1, hop) == Asked
  {
    hide Upto, ParkedBy, InQueue, StatusOf, OneSlotEach;
    QueueNext(cfg, es, i, n);
    KnownNext(cfg, es, n, hop);
  }

  // ---------- packets that never go out ----------

  /** A first send whose next hop is unknown parks its packet; if that hop is 0 or our own
      address, it never goes out, whatever comes after. */
  lemma NeverGoesOut(cfg: Config, es: seq<Event>, j: nat)
    requires Good(cfg) && AllSound(es) && cfg.present && cfg.ready && 0 < j < |es|
    requires es[0].Send? && |es[0].packet.payload| <= 512 && HopOf(cfg, es, 0) != BROADCAST
    ensures ParksAt(cfg, es, 0)
    ensures HopOf(cfg, es, 0) == 0 || HopOf(cfg, es, 0) == cfg.ip ==> !LeavesAt(cfg, es, 0, j)
  {
    hide NextHop, StatusOf, LeavesAt;
    NothingKnown(HopOf(cfg, es, 0));
    DeadHopNeverLeaves(cfg, es, 0, j);
  }

  /** With no gateway, as a lease without a router option leaves it (kernel/dhcp.h:287), the next
      hop of every other network is 0; and our own address is its own next hop. */
  lemma DeadHops(cfg: Config, dst: nat)
    requires dst != BROADCAST
    ensures cfg.gateway == 0 && NextHop(cfg, dst) != dst ==> NextHop(cfg, dst) == 0
    ensures cfg.netmask != 0 && dst == cfg.ip ==> NextHop(cfg, dst) == cfg.ip
  {
    hide BitAnd;
  }

  /** One packet for address 5, and nothing to send it through. */
  lemma NoGatewayExample(more: seq<Event>, j: nat)
    requires AllSound(more) && 0 < j <= |more|
    ensures var cfg, es := Config(true, Zeros(), true, 100, 0, 0), [Send(Packet(5, 0, []), 0, true)] + more;
      Good(cfg) && AllSound(es) && ParksAt(cfg, es, 0) && !LeavesAt(cfg, es, 0, j)
  {
    hide LeavesAt, ParksAt;
    var cfg, es := Config(true, Zeros(), true, 100, 0, 0), [Send(Packet(5, 0, []), 0, true)] + more;
    assert forall k :: 0 < k < |es| ==> es[k] == more[k - 1];
    NeverGoesOut(cfg, es, j);
  }

  /** Slots 0 to k - 1 wait for addresses 1 to k, the others are free. */
  ghost predicate Filled(c: seq<Entry>, k: nat) {
    |c| == SLOTS && forall i :: 0 <= i < SLOTS ==>
      if i < k then c[i].state.Pending? && c[i].ip == i + 1 else c[i].state.Empty?
  }

  lemma FilledNext(c: seq<Entry>, k: nat, ticks: nat)
    requires Filled(c, k) && k <= SLOTS
    ensures k < SLOTS ==> Filled(Requested(c, k + 1, ticks), k + 1)
    ensures k == SLOTS ==> Evicts(c, k + 1)
    ensures k > 0 ==> For(c, 0, 1)
  {
    assert Held(c, k + 1) < 0;
    if k < SLOTS { assert c[k].state.Empty?; }
    assert Vacant(c) == if k < SLOTS then k else -1;
  }

  /** A card with no netmask sends everything through gateway 1. */
  function Lonely(): Config {
    Config(true, Zeros(), true, 100, 0, 1)
  }

  /** One send, then requests for addresses 2 to 9. */
  function Crowd(): (r: seq<Event>)
    ensures |r| == 9 && AllSound(r) && Good(Lonely())
  {
    [Send(Packet(5, 0, []), 0, true)] + seq(8, i requires 0 <= i < 8 => Request(100, i + 2, 0))
  }

  lemma {:induction false} CrowdFills(k: nat)
    requires 1 <= k <= 8
    ensures var s := Upto(Lonely(), Crowd(), k);
      Filled(s.cache, k) && s.parked == Some(Packet(5, 0, []))
  {
    hide Requested, Filled, StatusOf, Question, StillPending;
    var cfg := Lonely();
    if k == 1 {
      UptoNext(cfg, Crowd(), 0);
      StartIsFree();
      FilledNext(Start().cache, 0, 0);
    } else {
      CrowdFills(k - 1);
      UptoNext(cfg, Crowd(), k - 1);
      FilledNext(Upto(cfg, Crowd(), k - 1).cache, k - 1, 0);
    }
  }

  lemma StartIsFree()
    ensures Filled(Start().cache, 0) && StatusOf(Start().cache, 1) == Unknown && !StillPending(Start().cache, 1, 0)
  {
  }

  /** So a queued packet does not always go out with its neighbour's answer: eight more
      requests throw its next hop out of slot 0, and an answer that comes then is not believed. */
  lemma CanBeStranded()
    ensures Upto(Lonely(), Crowd(), 8).parked == Upto(Lonely(), Crowd(), 9).parked == Some(Packet(5, 0, []))
    ensures Waiting(Lonely(), Upto(Lonely(), Crowd(), 8)) && !Waiting(Lonely(), Upto(Lonely(), Crowd(), 9))
    ensures ThrownOut(Lonely(), Upto(Lonely(), Crowd(), 8), Crowd()[8], 1)
  {
    hide Requested, Filled, StatusOf, Question, Upto, Evicts, For, OneSlotEach, Step, Waiting;
    var cfg, es := Lonely(), Crowd();
    var s := Upto(cfg, es, 8);
    CrowdFills(8);
    FilledNext(s.cache, 8, 0);
    OneSlotAlways(cfg, es, 8);
    UptoNext(cfg, es, 8);
    FilledWaits(s);
    StopsWaitingExactlyWhen(cfg, s, es[8]);
    StepAccounted(cfg, s, es[8]);
  }

  lemma FilledWaits(s: Net)
    requires Filled(s.cache, 8) && OneSlotEach(s.cache) && s.parked == Some(Packet(5, 0, []))
    ensures Waiting(Lonely(), s)
  {
    hide Held;
    OnlySlot(s.cache, 0, 1);
  }

  /** An answer that comes next finds the packet parked and leaves it there. */
  lemma LateAnswerUnheard(f: seq<nat>)
    requires Bytes(f) && RepliesFrom(Lonely(), Receive(f), 1)
    ensures var es := Crowd() + [Receive(f)];
      AllSound(es) && InQueue(Lonely(), es, 0, 9) && !LeavesAt(Lonely(), es, 0, 9)
  {
    hide Upto, ParkedBy, Crowd, ThrownOut, RepliesFrom, LeavesAt, InQueue, Bytes, Known;
    var cfg, es := Lonely(), Crowd() + [Receive(f)];
    CanBeStranded();
    CrowdStart();
    SamePast(cfg, Crowd(), [Receive(f)], 0);
    SamePast(cfg, Crowd(), [Receive(f)], 8);
    SamePast(cfg, Crowd(), [Receive(f)], 9);
    ParksSame(cfg, Crowd(), [Receive(f)], 0);
    SameQueue(cfg, Crowd(), [Receive(f)], 0);
    assert es[8] == Crowd()[8] && es[0] == Crowd()[0];
    assert ThrowsAt(cfg, es, 8, 1);
    assert !KeptOpen(cfg, es, 0, 9, 1);
    LeavesAtExactlyWhen(cfg, es, 0, 9);
  }

  lemma NothingDone(cfg: Config, es: seq<Event>)
    requires Good(cfg) && AllSound(es)
    ensures Upto(cfg, es, 0) == Start()
  {
  }

  lemma CrowdStart()
    ensures ParksAt(Lonely(), Crowd(), 0) && InQueue(Lonely(), Crowd(), 0, 9)
    ensures Crowd()[0].Send? && HopOf(Lonely(), Crowd(), 0) == 1
  {
    hide StatusOf, Upto, Requested, Question;
    StartIsFree();
    CanBeStranded();
    NothingDone(Lonely(), Crowd());
    CrowdParked(9);
  }

  lemma {:induction false} CrowdParked(k: nat)
    requires 1 <= k <= 9
    ensures ParkedBy(Lonely(), Crowd(), k) == 0
  {
    hide Upto, StatusOf;
    ParkedByNext(Lonely(), Crowd(), k - 1);
    if k > 1 { CrowdParked(k - 1); }
  }
}
