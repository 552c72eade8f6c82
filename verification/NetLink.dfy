/** The address cache and the one-packet queue as the code keeps them: a fixed array of slots
    and one parking place, updated in place (kernel/arp.h:66-256, kernel/ip.h:131-229). */
module NetLink {
  import opened Options
  import opened BitOps
  import opened ArpCache
  import opened ArpIp

  // ---------- one host asks, the other answers ----------

  /** A host that may take part in address resolution. */
  predicate Speaks(cfg: Config) {
    Good(cfg) && cfg.present && cfg.ready && cfg.mac[0] % 2 == 0 && cfg.ip != 0 && cfg.ip != BROADCAST
  }

  /** The answer b gives to a's question. */
  lemma QuestionAnswered(a: Config, b: Config, t: Net)
    requires Speaks(a) && Speaks(b) && a.ip != b.ip && |t.cache| == SLOTS && OneSlotEach(t.cache)
    requires Bytes(Question(a, a.ip, b.ip))
    ensures var q := Question(a, a.ip, b.ip);
      Handle(b, t, q).sent == t.sent + [Frame(Answer(b, b.ip, a.mac, a.ip))]
      && Handle(b, t, q).parked == t.parked
      && StatusOf(Handle(b, t, q).cache, a.ip)
         == if StatusOf(t.cache, a.ip).Unknown? && Vacant(t.cache) >= 0 then At(a.mac) else StatusOf(t.cache, a.ip)
  {
    hide ArpFrame, Get16, SenderIp, SenderMac, TargetIp, TargetMac, Opcode, OneSlotEach, StatusOf, Met, Vacant;
    var q := Question(a, a.ip, b.ip);
    ReadBack(Ones(), a.mac, 1, a.ip, Zeros(), b.ip);
    HandleIs(b, t, q, a.ip);
  }

  lemma AnswerBelieved(a: Config, b: Config, s: Net)
    requires Speaks(a) && Speaks(b) && a.ip != b.ip && |s.cache| == SLOTS && OneSlotEach(s.cache)
    requires StatusOf(s.cache, b.ip) == Asked && Bytes(Answer(b, b.ip, a.mac, a.ip))
    ensures var r := Answer(b, b.ip, a.mac, a.ip);
      StatusOf(Handle(a, s, r).cache, b.ip) == At(b.mac)
      && (s.parked.Some? && NextHop(a, s.parked.value.dst) == b.ip ==>
            Handle(a, s, r).parked == None && Handle(a, s, r).sent == s.sent + [Datagram(b.mac, s.parked.value)])
  {
    hide ArpFrame, Get16, SenderIp, SenderMac, TargetIp, TargetMac, Opcode, OneSlotEach, StatusOf, NextHop, PendingSlot;
    var r := Answer(b, b.ip, a.mac, a.ip);
    ReadBack(a.mac, b.mac, 2, b.ip, a.mac, a.ip);
    PendingExactlyWhenAsked(s.cache, b.ip);
    HandleIs(a, s, r, b.ip);
  }

  /** Host a asks for host b, b receives the question and a receives b's answer: a now holds
      b's hardware address, and a packet it had parked for b is on the wire to it. */
  lemma Resolution(a: Config, b: Config, s: Net, t: Net, ticks: nat)
    requires Speaks(a) && Speaks(b) && a.ip != b.ip
    requires |s.cache| == |t.cache| == SLOTS && OneSlotEach(s.cache) && OneSlotEach(t.cache)
    ensures var q, r := Question(a, a.ip, b.ip), Answer(b, b.ip, a.mac, a.ip);
      Bytes(q) && Bytes(r) && (
        var s1 := Ask(a, s, a.ip, b.ip, ticks);
        var t1 := Handle(b, t, q);
        var s2 := Handle(a, s1, r);
        s1.sent == s.sent + [Frame(q)] && t1.sent == t.sent + [Frame(r)]
        && StatusOf(s2.cache, b.ip) == At(b.mac)
        && (s.parked.Some? && NextHop(a, s.parked.value.dst) == b.ip ==>
              s2.parked == None && s2.sent == s.sent + [Frame(q), Datagram(b.mac, s.parked.value)]))
  {
    hide ArpFrame, OneSlotEach, StatusOf, NextHop, Requested, Handle, Bytes, For, Evicts;
    MacsAreMacs(a, b);
    FramesAreBytes(Ones(), a.mac, 1, a.ip, Zeros(), b.ip);
    FramesAreBytes(a.mac, b.mac, 2, b.ip, a.mac, a.ip);
    var s1 := Ask(a, s, a.ip, b.ip, ticks);
    AskIs(a, s, a.ip, b.ip, ticks, b.ip);
    QuestionAnswered(a, b, t);
    AnswerBelieved(a, b, s1);
    if s.parked.Some? {
      TwoMore(s.sent, Frame(Question(a, a.ip, b.ip)), Datagram(b.mac, s.parked.value));
    }
  }

  lemma MacsAreMacs(a: Config, b: Config)
    requires Good(a) && Good(b)
    ensures IsMac(a.mac) && IsMac(b.mac) && IsMac(Ones()) && IsMac(Zeros())
  {
  }

  lemma TwoMore(s: seq<Sent>, x: Sent, y: Sent)
    ensures s + [x] + [y] == s + [x, y]
  {
  }

  // ---------- the code ----------

  /** Copies s into f after the part already written. */
  method PutBytes(f: array<nat>, at: nat, s: seq<nat>)
    requires at + |s| <= f.Length
    modifies f
    ensures f[..at + |s|] == old(f[..at]) + s
  {
    ghost var was := f[..at];
    for i := 0 to |s|
      invariant f[..at] == was && f[at..at + i] == s[..i]
    {
      f[at + i] := s[i];
    }
    assert f[..at + |s|] == f[..at] + f[at..at + |s|];
  }

  /** Writing an ARP frame field by field. */
  method BuildArp(to: seq<nat>, from: seq<nat>, op: nat, sip: nat, tmac: seq<nat>, tip: nat) returns (f: array<nat>)
    requires |to| == |from| == |tmac| == 6 && op < 256 && sip <= BROADCAST && tip <= BROADCAST
    ensures fresh(f) && f[..] == ArpFrame(to, from, op, sip, tmac, tip)
  {
    hide Put32;
    f := new nat[42](_ => 0);
    PutBytes(f, 0, to);
    PutBytes(f, 6, from);
    PutBytes(f, 12, [8, 6, 0, 1, 8, 0, 6, 4, 0, op]);
    PutBytes(f, 22, from);
    PutBytes(f, 28, Put32(sip));
    PutBytes(f, 32, tmac);
    PutBytes(f, 38, Put32(tip));
    assert f[..] == f[..42];
  }

  class Link {
    const cfg: Config
    const cache: array<Entry>
    var parked: Option<Packet>
    var sent: seq<Sent>

    ghost predicate Valid()
      reads this, cache
    {
      Good(cfg) && cache.Length == SLOTS && OneSlotEach(cache[..])
    }

    ghost function View(): Net
      reads this, cache
    {
      Net(cache[..], parked, sent)
    }

    constructor (cfg: Config)
      requires Good(cfg)
      ensures Valid() && fresh(cache) && this.cfg == cfg && parked == None && sent == []
      ensures forall ip :: StatusOf(cache[..], ip) == Unknown
    {
      this.cfg := cfg;
      cache := new Entry[SLOTS](_ => Entry(0, Zeros(), Empty, 0));
      parked, sent := None, [];
    }

    /** The hardware address on record, if the address is resolved. */
    method Lookup(ip: nat) returns (hit: bool, mac: seq<nat>)
      requires Valid()
      ensures hit <==> StatusOf(cache[..], ip).At?
      ensures hit ==> StatusOf(cache[..], ip) == At(mac)
    {
      hide Held;
      for i := 0 to cache.Length
        invariant forall k :: 0 <= k < i ==> !(For(cache[..], k, ip) && cache[k].state.Resolved?)
      {
        if cache[i].state == Resolved && cache[i].ip == ip {
          OnlySlot(cache[..], i, ip);
          return true, cache[i].mac;
        }
      }
      return false, [];
    }

    method FindPendingSlot(ip: nat) returns (k: int)
      ensures k == PendingSlot(cache[..], ip)
    {
      hide PendingSlot;
      for i := 0 to cache.Length
        invariant forall j :: 0 <= j < i ==> !(For(cache[..], j, ip) && cache[j].state.Pending?)
      {
        if cache[i].ip == ip && cache[i].state == Pending {
          assert For(cache[..], i, ip);
          return i;
        }
      }
      return -1;
    }

    method IsPending(ip: nat, ticks: nat) returns (b: bool)
      ensures b == StillPending(cache[..], ip, ticks)
    {
      hide PendingSlot;
      var i := FindPendingSlot(ip);
      if i < 0 { return false; }
      return (ticks % 0x10000 - cache[i].age) % 0x10000 < TIMEOUT;
    }

    method FindOrAllocSlot(ip: nat) returns (k: nat)
      requires cache.Length > 0
      ensures k == SlotFor(cache[..], ip)
    {
      hide Held, Vacant;
      for i := 0 to cache.Length
        invariant forall j :: 0 <= j < i ==> !For(cache[..], j, ip)
      {
        if cache[i].state != Empty && cache[i].ip == ip {
          assert For(cache[..], i, ip);
          return i;
        }
      }
      for i := 0 to cache.Length
        invariant forall j :: 0 <= j < i ==> !cache[..][j].state.Empty?
      {
        if cache[i].state == Empty { return i; }
      }
      return 0;
    }

    method SendRequest(from: nat, target: nat, ticks: nat)
      requires Valid() && from <= BROADCAST && target <= BROADCAST
      modifies this, cache
      ensures Valid() && View() == Ask(cfg, old(View()), from, target, ticks)
    {
      hide OneSlotEach, SlotFor, ArpFrame;
      RequestedIs(cache[..], target, ticks, target);
      if !cfg.present { return; }
      ghost var c := cache[..];
      var f := BuildArp(Ones(), cfg.mac, 1, from, Zeros(), target);
      assert cache[..] == c;
      var slot := FindOrAllocSlot(target);
      cache[slot] := cache[slot].(ip := target, state := Pending, age := ticks % 0x10000);
      assert cache[..] == Requested(c, target, ticks);
      sent := sent + [Frame(f[..])];
    }

    method SendReply(from: nat, mac: seq<nat>, ip: nat)
      requires Good(cfg) && |mac| == 6 && from <= BROADCAST && ip <= BROADCAST
      modifies this`sent
      ensures sent == old(sent) + if cfg.present then [Frame(Answer(cfg, from, mac, ip))] else []
    {
      hide ArpFrame;
      if !cfg.present { return; }
      var f := BuildArp(mac, cfg.mac, 2, from, mac, ip);
      sent := sent + [Frame(f[..])];
    }

    method FlushPending(ip: nat, mac: seq<nat>)
      modifies this
      ensures View() == Flush(cfg, old(View()), ip, mac)
    {
      hide NextHop;
      if parked.None? { return; }
      var p := parked.value;
      if NextHop(cfg, p.dst) != ip { return; }
      parked := None;
      sent := sent + [Datagram(mac, p)];
    }

    /** One received frame; the result says whether it was ARP. */
    method HandleFrame(f: seq<nat>) returns (handled: bool)
      requires Valid() && Bytes(f)
      modifies this, cache
      ensures handled <==> IsArp(f)
      ensures Valid() && View() == Handle(cfg, old(View()), f)
    {
      hide OneSlotEach, Get16, Get32, PendingSlot, Met, NextHop, Bytes, Good, Answer;
      HandleIs(cfg, View(), f, 0);
      if |f| < 42 || Get16(f, 12) != 0x0806 { return false; }
      if Get16(f, 14) != 1 || Get16(f, 16) != 0x0800 || f[18] != 6 || f[19] != 4 { return true; }
      var opcode := Get16(f, 20);
      if opcode != 1 && opcode != 2 { return true; }
      var mac := f[22..28];
      var sender, target := Get32(f, 28), Get32(f, 38);
      if sender == 0 || sender == BROADCAST { return true; }
      if mac[0] % 2 == 1 { return true; }
      if f[6..12] != mac { return true; }
      if cfg.ready && sender == cfg.ip { return true; }
      if opcode == 2 {
        if target != cfg.ip || f[32..38] != cfg.mac { return true; }
        Believe(sender, mac);
      } else if cfg.ready && target == cfg.ip {
        Meet(sender, mac);
        SendReply(cfg.ip, mac, sender);
      }
      return true;
    }

    /** The part of HandleFrame that takes a believed reply. */
    method Believe(sender: nat, mac: seq<nat>)
      requires cache.Length == SLOTS
      modifies this, cache
      ensures var s := old(View());
        var k := PendingSlot(s.cache, sender);
        View() == if k >= 0 then Flush(cfg, s.(cache := Learned(s.cache, k, sender, mac)), sender, mac) else s
    {
      hide PendingSlot, NextHop;
      ghost var c := cache[..];
      var slot := FindPendingSlot(sender);
      if slot < 0 { return; }
      cache[slot] := Entry(sender, mac, Resolved, 0);
      assert cache[..] == Learned(c, slot, sender, mac);
      FlushPending(sender, mac);
    }

    /** The part of HandleFrame that remembers a neighbour asking for us. */
    method Meet(sender: nat, mac: seq<nat>)
      modifies cache
      ensures cache[..] == Met(old(cache[..]), sender, mac)
    {
      hide Held, Vacant;
      ghost var c := cache[..];
      var existing, empty := -1, -1;
      for i := 0 to cache.Length
        invariant cache[..] == c
        invariant existing >= 0 <==> exists j :: 0 <= j < i && For(c, j, sender)
        invariant -1 <= empty < i
        invariant empty >= 0 ==> c[empty].state.Empty? && forall j :: 0 <= j < empty ==> !c[j].state.Empty?
        invariant empty < 0 ==> forall j :: 0 <= j < i ==> !c[j].state.Empty?
      {
        if cache[i].state == Empty {
          if empty < 0 { empty := i; }
        } else if cache[i].ip == sender {
          assert For(c, i, sender);
          existing := i;
        }
      }
      if existing < 0 && empty >= 0 {
        cache[empty] := Entry(sender, mac, Resolved, 0);
        assert cache[..] == Learned(c, empty, sender, mac);
      }
    }

    /** ip_send. */
    method Send(p: Packet, ticks: nat, accepts: bool) returns (r: Verdict)
      requires Valid() && p.dst <= BROADCAST
      modifies this, cache
      ensures Valid() && View() == Dispatch(cfg, old(View()), p, ticks)
      ensures r == Answered(cfg, old(View()), p, accepts)
    {
      hide OneSlotEach, NextHop, StatusOf, StillPending, Ask, IsMac;
      HopFits(cfg, p.dst);
      if !cfg.present { return Failed; }
      if !cfg.ready && p.dst != BROADCAST { return Failed; }
      if |p.payload| > PAYLOAD_MAX { return Failed; }
      var hop := NextHop(cfg, p.dst);
      if hop == BROADCAST {
        sent := sent + [Datagram(Ones(), p)];
        return if accepts then Transmitted else Failed;
      }
      var hit, mac := Lookup(hop);
      if hit {
        sent := sent + [Datagram(mac, p)];
        return if accepts then Transmitted else Failed;
      }
      var pending := IsPending(hop, ticks);
      if !pending { SendRequest(cfg.ip, hop, ticks); }
      if |p.payload| <= PARKED_MAX {
        parked := Some(p);
        return Queued;
      }
      return Failed;
    }
  }
}
