/** kernel/arp.h:102-256 and kernel/ip.h:131-229: address resolution and the one-packet queue
    behind it, as a machine stepping over our own requests, received frames and sends.  The
    interface's address configuration is fixed over a run; the IP header built around a
    datagram is not part of this model. */
module ArpIp {
  import opened Options
  import opened BitOps
  import opened ModArith
  import opened ArpCache

  const BROADCAST: nat := 0xFFFF_FFFF
  const PARKED_MAX: nat := 512
  const PAYLOAD_MAX: nat := 1480

  /** The network card and the address configuration. */
  datatype Config = Config(present: bool, mac: seq<nat>, ready: bool, ip: nat, netmask: nat, gateway: nat)

  datatype Packet = Packet(dst: nat, proto: nat, payload: seq<nat>)

  /** What was handed to the card: an ARP frame, or a datagram for a hardware address. */
  datatype Sent = Frame(bytes: seq<nat>) | Datagram(mac: seq<nat>, packet: Packet)

  datatype Net = Net(cache: seq<Entry>, parked: Option<Packet>, sent: seq<Sent>)

  datatype Verdict = Failed | Transmitted | Queued

  /** `accepts` is the card's answer, should the step hand it a datagram. */
  datatype Event =
    | Request(from: nat, target: nat, ticks: nat)
    | Receive(frame: seq<nat>)
    | Send(packet: Packet, ticks: nat, accepts: bool)

  predicate Bytes(s: seq<nat>) { forall i :: 0 <= i < |s| ==> s[i] < 256 }

  predicate IsMac(s: seq<nat>) { |s| == 6 && Bytes(s) }

  predicate Good(cfg: Config) {
    IsMac(cfg.mac) && cfg.ip <= BROADCAST && cfg.netmask <= BROADCAST && cfg.gateway <= BROADCAST
  }

  // ---------- frames ----------

  function Put32(v: nat): (r: seq<nat>)
    requires v < 0x1_0000_0000
    ensures |r| == 4 && Bytes(r)
  {
    [v / 0x100_0000, v / 0x1_0000 % 256, v / 256 % 256, v % 256]
  }

  function Get16(f: seq<nat>, i: nat): nat
    requires i + 2 <= |f|
  {
    f[i] * 256 + f[i + 1]
  }

  function Get32(f: seq<nat>, i: nat): (r: nat)
    requires i + 4 <= |f|
    ensures Bytes(f) ==> r <= BROADCAST
  {
    f[i] * 0x100_0000 + f[i + 1] * 0x1_0000 + f[i + 2] * 256 + f[i + 3]
  }

  lemma Digits(v: nat)
    ensures v == v / 0x100_0000 * 0x100_0000 + v / 0x1_0000 % 256 * 0x1_0000 + v / 256 % 256 * 256 + v % 256
  {
    var a, b := v / 256, v / 0x1_0000;
    assert b == a / 256 && v / 0x100_0000 == b / 256;
    assert v == 256 * a + v % 256;
    assert a == 256 * b + a % 256;
    assert b == 256 * (b / 256) + b % 256;
  }

  lemma Get32At(f: seq<nat>, i: nat, p: seq<nat>)
    requires i + 4 <= |f| && |p| == 4 && f[i..i + 4] == p
    ensures Get32(f, i) == Get32(p, 0)
  {
    assert f[i] == f[i..i + 4][0] && f[i + 1] == f[i..i + 4][1] && f[i + 2] == f[i..i + 4][2] && f[i + 3] == f[i..i + 4][3];
  }

  lemma Get32Put(f: seq<nat>, i: nat, v: nat)
    requires i + 4 <= |f| && v < 0x1_0000_0000 && f[i..i + 4] == Put32(v)
    ensures Get32(f, i) == v
  {
    Get32At(f, i, Put32(v));
    Digits(v);
  }

  function Ones(): (r: seq<nat>)
    ensures |r| == 6 && Bytes(r)
  {
    [255, 255, 255, 255, 255, 255]
  }

  function Zeros(): (r: seq<nat>)
    ensures |r| == 6 && Bytes(r)
  {
    [0, 0, 0, 0, 0, 0]
  }

  /** An ARP frame for Ethernet and IPv4 (RFC 826). */
  function ArpFrame(to: seq<nat>, from: seq<nat>, op: nat, sip: nat, tmac: seq<nat>, tip: nat): (r: seq<nat>)
    requires |to| == |from| == |tmac| == 6 && op < 256 && sip <= BROADCAST && tip <= BROADCAST
    ensures |r| == 42
  {
    to + from + [8, 6, 0, 1, 8, 0, 6, 4, 0, op] + from + Put32(sip) + tmac + Put32(tip)
  }

  function Question(cfg: Config, sip: nat, tip: nat): seq<nat>
    requires Good(cfg) && sip <= BROADCAST && tip <= BROADCAST
  {
    ArpFrame(Ones(), cfg.mac, 1, sip, Zeros(), tip)
  }

  function Answer(cfg: Config, sip: nat, mac: seq<nat>, ip: nat): seq<nat>
    requires Good(cfg) && |mac| == 6 && sip <= BROADCAST && ip <= BROADCAST
  {
    ArpFrame(mac, cfg.mac, 2, sip, mac, ip)
  }

  predicate IsArp(f: seq<nat>) { |f| >= 42 && Get16(f, 12) == 0x0806 }

  function Opcode(f: seq<nat>): nat requires |f| >= 42 { Get16(f, 20) }

  function SenderMac(f: seq<nat>): (r: seq<nat>)
    requires |f| >= 42
    ensures |r| == 6
  {
    f[22..28]
  }

  function SenderIp(f: seq<nat>): nat requires |f| >= 42 { Get32(f, 28) }

  function TargetMac(f: seq<nat>): seq<nat> requires |f| >= 42 { f[32..38] }

  function TargetIp(f: seq<nat>): nat requires |f| >= 42 { Get32(f, 38) }

  /** The checks every ARP frame must pass before it can change anything. */
  predicate Credible(cfg: Config, f: seq<nat>)
    requires |f| >= 42
  {
    && Get16(f, 14) == 1 && Get16(f, 16) == 0x0800 && f[18] == 6 && f[19] == 4
    && (Opcode(f) == 1 || Opcode(f) == 2)
    && SenderIp(f) != 0 && SenderIp(f) != BROADCAST
    && SenderMac(f)[0] % 2 == 0
    && f[6..12] == SenderMac(f)
    && !(cfg.ready && SenderIp(f) == cfg.ip)
  }

  /** A credible reply addressed to our IP and hardware address. */
  predicate RepliesToUs(cfg: Config, f: seq<nat>) {
    IsArp(f) && Credible(cfg, f) && Opcode(f) == 2 && TargetIp(f) == cfg.ip && TargetMac(f) == cfg.mac
  }

  /** A credible question about our IP. */
  predicate AsksForUs(cfg: Config, f: seq<nat>) {
    IsArp(f) && Credible(cfg, f) && Opcode(f) == 1 && cfg.ready && TargetIp(f) == cfg.ip
  }

  lemma ReadBack(to: seq<nat>, from: seq<nat>, op: nat, sip: nat, tmac: seq<nat>, tip: nat)
    requires |to| == |from| == |tmac| == 6 && op < 256 && sip <= BROADCAST && tip <= BROADCAST
    ensures var f := ArpFrame(to, from, op, sip, tmac, tip);
      IsArp(f) && Get16(f, 14) == 1 && Get16(f, 16) == 0x0800 && f[18] == 6 && f[19] == 4
      && Opcode(f) == op && f[6..12] == from && SenderMac(f) == from && SenderIp(f) == sip
      && TargetMac(f) == tmac && TargetIp(f) == tip
  {
    hide Put32, Get32;
    var f := ArpFrame(to, from, op, sip, tmac, tip);
    assert f[28..32] == Put32(sip);
    assert f[38..42] == Put32(tip);
    Get32Put(f, 28, sip);
    Get32Put(f, 38, tip);
    assert f[6..12] == from;
    assert f[22..28] == from;
    assert f[32..38] == tmac;
  }

  /** The layout of RFC 826 on Ethernet, byte by byte; addresses have their high byte first. */
  lemma FrameLayout(to: seq<nat>, from: seq<nat>, op: nat, sip: nat, tmac: seq<nat>, tip: nat)
    requires |to| == |from| == |tmac| == 6 && op < 256 && sip <= BROADCAST && tip <= BROADCAST
    ensures var f := ArpFrame(to, from, op, sip, tmac, tip);
      && f[0..6] == to && f[6..12] == from && f[12] == 0x08 && f[13] == 0x06
      && f[14] == 0 && f[15] == 1 && f[16] == 0x08 && f[17] == 0 && f[18] == 6 && f[19] == 4
      && f[20] == 0 && f[21] == op
      && f[22..28] == from && ((f[28] * 256 + f[29]) * 256 + f[30]) * 256 + f[31] == sip
      && f[32..38] == tmac && ((f[38] * 256 + f[39]) * 256 + f[40]) * 256 + f[41] == tip
  {
    ReadBack(to, from, op, sip, tmac, tip);
    hide Put32;
    var f := ArpFrame(to, from, op, sip, tmac, tip);
    assert f[0..6] == to;
  }

  /** A credible reply to us is, but for where it was sent to, the very frame that answers us. */
  lemma RepliesExactlyWhen(cfg: Config, f: seq<nat>)
    requires Good(cfg) && Bytes(f) && |f| >= 42
    ensures RepliesToUs(cfg, f) <==>
      && f[..42] == ArpFrame(f[..6], SenderMac(f), 2, SenderIp(f), cfg.mac, cfg.ip)
      && SenderMac(f)[0] % 2 == 0 && SenderIp(f) != 0 && SenderIp(f) != BROADCAST
      && !(cfg.ready && SenderIp(f) == cfg.ip)
  {
    if RepliesToUs(cfg, f) { FrameOfFields(f); }
    ReadBack(f[..6], SenderMac(f), 2, SenderIp(f), cfg.mac, cfg.ip);
    SameFields(f, f[..42]);
    hide ArpFrame;
  }

  /** A credible question for us likewise, whatever target hardware address it names. */
  lemma AsksExactlyWhen(cfg: Config, f: seq<nat>)
    requires Good(cfg) && Bytes(f) && |f| >= 42
    ensures AsksForUs(cfg, f) <==>
      && f[..42] == ArpFrame(f[..6], SenderMac(f), 1, SenderIp(f), TargetMac(f), cfg.ip)
      && SenderMac(f)[0] % 2 == 0 && SenderIp(f) != 0 && SenderIp(f) != BROADCAST
      && cfg.ready && SenderIp(f) != cfg.ip
  {
    if AsksForUs(cfg, f) { FrameOfFields(f); }
    ReadBack(f[..6], SenderMac(f), 1, SenderIp(f), TargetMac(f), cfg.ip);
    SameFields(f, f[..42]);
    hide ArpFrame;
  }

  lemma SameFields(f: seq<nat>, g: seq<nat>)
    requires |f| >= 42 && g == f[..42]
    ensures IsArp(f) == IsArp(g) && Get16(f, 14) == Get16(g, 14) && Get16(f, 16) == Get16(g, 16)
    ensures f[18] == g[18] && f[19] == g[19] && Opcode(f) == Opcode(g) && f[6..12] == g[6..12]
    ensures SenderMac(f) == SenderMac(g) && SenderIp(f) == SenderIp(g)
    ensures TargetMac(f) == TargetMac(g) && TargetIp(f) == TargetIp(g)
  {
  }

  lemma Get16Bytes(f: seq<nat>, i: nat, v: nat)
    requires i + 2 <= |f| && Bytes(f) && Get16(f, i) == v
    ensures f[i] == v / 256 && f[i + 1] == v % 256
  {
  }

  lemma Put32Get(f: seq<nat>, i: nat)
    requires i + 4 <= |f| && Bytes(f)
    ensures Put32(Get32(f, i)) == f[i..i + 4]
  {
    DigitsOf(f[i], f[i + 1], f[i + 2], f[i + 3]);
    assert f[i..i + 4] == [f[i], f[i + 1], f[i + 2], f[i + 3]];
  }

  lemma DigitsOf(a: nat, b: nat, c: nat, d: nat)
    requires a < 256 && b < 256 && c < 256 && d < 256
    ensures var v := a * 0x100_0000 + b * 0x1_0000 + c * 256 + d;
      v < 0x1_0000_0000 && Put32(v) == [a, b, c, d]
  {
    var v := a * 0x100_0000 + b * 0x1_0000 + c * 256 + d;
    assert v / 256 == a * 0x1_0000 + b * 256 + c && v % 256 == d;
    assert v / 0x1_0000 == a * 256 + b;
    assert v / 0x100_0000 == a;
  }

  /** A frame whose fixed fields are right is the frame of its other fields. */
  lemma FrameOfFields(f: seq<nat>)
    requires Bytes(f) && |f| >= 42
    requires IsArp(f) && Get16(f, 14) == 1 && Get16(f, 16) == 0x0800 && f[18] == 6 && f[19] == 4
    requires Opcode(f) < 256 && f[6..12] == SenderMac(f)
    ensures f[..42] == ArpFrame(f[..6], SenderMac(f), Opcode(f), SenderIp(f), TargetMac(f), TargetIp(f))
  {
    Get16Bytes(f, 12, 0x0806);
    Get16Bytes(f, 14, 1);
    Get16Bytes(f, 16, 0x0800);
    Get16Bytes(f, 20, Opcode(f));
    Put32Get(f, 28);
    Put32Get(f, 38);
    hide Put32, Get32, Get16;
    assert f[..42] == f[..6] + f[6..12] + f[12..22] + f[22..28] + f[28..32] + f[32..38] + f[38..42];
    assert f[12..22] == [8, 6, 0, 1, 8, 0, 6, 4, 0, Opcode(f)];
  }

  lemma FramesAreBytes(to: seq<nat>, from: seq<nat>, op: nat, sip: nat, tmac: seq<nat>, tip: nat)
    requires IsMac(to) && IsMac(from) && IsMac(tmac) && op < 256 && sip <= BROADCAST && tip <= BROADCAST
    ensures Bytes(ArpFrame(to, from, op, sip, tmac, tip))
  {
    hide Put32;
  }

  // ---------- the machine ----------

  /** ip_next_hop: the neighbour a datagram goes through. */
  function NextHop(cfg: Config, dst: nat): nat {
    if dst == BROADCAST then BROADCAST
    else if cfg.netmask != 0 && BitAnd(dst, cfg.netmask) == BitAnd(cfg.ip, cfg.netmask) then dst
    else cfg.gateway
  }

  /** Routing with h host bits: an address of the own subnet is reached directly, any other one
      through the gateway. */
  lemma HopBySubnet(cfg: Config, h: nat, dst: nat)
    requires h < 32 && Good(cfg) && dst < BROADCAST && cfg.netmask == 0x1_0000_0000 - Pow(2, h)
    ensures NextHop(cfg, dst) == if Above(dst, h) == Above(cfg.ip, h) then dst else cfg.gateway
  {
    hide Pow, BitAnd, Above;
    SameSubnet(dst, cfg.ip, h);
  }

  lemma SameSubnet(x: nat, y: nat, h: nat)
    requires h < 32 && x <= BROADCAST && y <= BROADCAST
    ensures 0 < Pow(2, h) < 0x1_0000_0000
    ensures var mask := 0x1_0000_0000 - Pow(2, h);
      BitAnd(x, mask) == BitAnd(y, mask) <==> Above(x, h) == Above(y, h)
  {
    hide Pow, BitAnd, Mul, Above;
    AddressCount();
    PowBelow(h, 32);
    AndPrefix(x, 32, h);
    AndPrefix(y, 32, h);
    if Above(x, h) != Above(y, h) { MulDistinct(Above(x, h), Above(y, h), Pow(2, h)); }
  }

  lemma AddressCount()
    ensures Pow(2, 32) == 0x1_0000_0000
  {
    hide Pow;
    NibbleCount();
    PowAdd(2, 4, 4);
    PowAdd(2, 8, 8);
    PowAdd(2, 16, 16);
  }

  lemma NibbleCount()
    ensures Pow(2, 4) == 16
  {
  }

  lemma {:induction false} PowBelow(h: nat, n: nat)
    requires h < n
    ensures 0 < Pow(2, h) < Pow(2, n)
  {
    if h > 0 { PowBelow(h - 1, n - 1); } else { PowPos(2, n - 1); }
  }

  lemma MulDistinct(a: nat, b: nat, p: nat)
    requires p > 0 && a != b
    ensures Mul(a, p) != Mul(b, p)
  {
    assert (a - b) * p != 0;
  }

  /** arp_send_request. */
  function Ask(cfg: Config, s: Net, from: nat, target: nat, ticks: nat): (r: Net)
    requires Good(cfg) && |s.cache| == SLOTS && from <= BROADCAST && target <= BROADCAST
    ensures |r.cache| == SLOTS
  {
    if cfg.present then
      s.(cache := Requested(s.cache, target, ticks), sent := s.sent + [Frame(Question(cfg, from, target))])
    else s
  }

  /** ip_flush_pending. */
  function Flush(cfg: Config, s: Net, ip: nat, mac: seq<nat>): (r: Net)
    ensures r.cache == s.cache
  {
    if s.parked.Some? && NextHop(cfg, s.parked.value.dst) == ip then
      s.(parked := None, sent := s.sent + [Datagram(mac, s.parked.value)])
    else s
  }

  /** arp_handle_frame. */
  function Handle(cfg: Config, s: Net, f: seq<nat>): (r: Net)
    requires Good(cfg) && |s.cache| == SLOTS && Bytes(f)
    ensures |r.cache| == SLOTS
  {
    if RepliesToUs(cfg, f) && PendingSlot(s.cache, SenderIp(f)) >= 0 then
      var c := Learned(s.cache, PendingSlot(s.cache, SenderIp(f)), SenderIp(f), SenderMac(f));
      Flush(cfg, s.(cache := c), SenderIp(f), SenderMac(f))
    else if AsksForUs(cfg, f) then
      s.(cache := Met(s.cache, SenderIp(f), SenderMac(f)),
         sent := s.sent + (if cfg.present then [Frame(Answer(cfg, cfg.ip, SenderMac(f), SenderIp(f)))] else []))
    else s
  }

  /** Remembering a neighbour that asked for us: only an unknown one, only in a free slot. */
  function Met(c: seq<Entry>, ip: nat, mac: seq<nat>): (r: seq<Entry>)
    ensures |r| == |c|
  {
    if Held(c, ip) < 0 && Vacant(c) >= 0 then Learned(c, Vacant(c), ip, mac) else c
  }

  /** ip_send refuses outright. */
  predicate Refused(cfg: Config, p: Packet) {
    !cfg.present || (!cfg.ready && p.dst != BROADCAST) || |p.payload| > PAYLOAD_MAX
  }

  /** The hardware address ip_send finds, if any. */
  function Route(cfg: Config, c: seq<Entry>, dst: nat): Option<seq<nat>> {
    var hop := NextHop(cfg, dst);
    if hop == BROADCAST then Some(Ones())
    else match StatusOf(c, hop) case At(mac) => Some(mac) case _ => None
  }

  /** ip_send. */
  function Dispatch(cfg: Config, s: Net, p: Packet, ticks: nat): (r: Net)
    requires Good(cfg) && |s.cache| == SLOTS && p.dst <= BROADCAST
    ensures |r.cache| == SLOTS
  {
    if Refused(cfg, p) then s
    else if Route(cfg, s.cache, p.dst).Some? then
      s.(sent := s.sent + [Datagram(Route(cfg, s.cache, p.dst).value, p)])
    else
      var hop := NextHop(cfg, p.dst);
      var t := if StillPending(s.cache, hop, ticks) then s else Ask(cfg, s, cfg.ip, hop, ticks);
      if |p.payload| <= PARKED_MAX then t.(parked := Some(p)) else t
  }

  function Answered(cfg: Config, s: Net, p: Packet, accepts: bool): Verdict {
    if Refused(cfg, p) then Failed
    else if Route(cfg, s.cache, p.dst).Some? then (if accepts then Transmitted else Failed)
    else if |p.payload| <= PARKED_MAX then Queued
    else Failed
  }

  predicate Sound(e: Event) {
    match e
    case Request(from, target, _) => from <= BROADCAST && target <= BROADCAST
    case Receive(f) => Bytes(f)
    case Send(p, _, _) => p.dst <= BROADCAST
  }

  function Step(cfg: Config, s: Net, e: Event): (r: Net)
    requires Good(cfg) && |s.cache| == SLOTS && Sound(e)
    ensures |r.cache| == SLOTS
  {
    match e
    case Request(from, target, ticks) => Ask(cfg, s, from, target, ticks)
    case Receive(f) => Handle(cfg, s, f)
    case Send(p, ticks, _) => Dispatch(cfg, s, p, ticks)
  }

  // ---------- what a step does to each address ----------

  /** The address an event makes us ask for. */
  function AskedFor(cfg: Config, s: Net, e: Event): Option<nat> {
    match e
    case Request(_, target, _) => if cfg.present then Some(target) else None
    case Receive(_) => None
    case Send(p, ticks, _) =>
      if !Refused(cfg, p) && Route(cfg, s.cache, p.dst).None? && !StillPending(s.cache, NextHop(cfg, p.dst), ticks)
      then Some(NextHop(cfg, p.dst)) else None
  }

  predicate RepliesFrom(cfg: Config, e: Event, ip: nat) {
    e.Receive? && RepliesToUs(cfg, e.frame) && SenderIp(e.frame) == ip
  }

  predicate AskedBy(cfg: Config, e: Event, ip: nat) {
    e.Receive? && AsksForUs(cfg, e.frame) && SenderIp(e.frame) == ip
  }

  /** Our request for another address throws ip out of slot 0. */
  predicate ThrownOut(cfg: Config, s: Net, e: Event, ip: nat) {
    var a := AskedFor(cfg, s, e);
    a.Some? && a.value != ip && Evicts(s.cache, a.value) && For(s.cache, 0, ip)
  }

  /** What is known of ip after an event, from what was known before. */
  function After(cfg: Config, s: Net, e: Event, ip: nat): Status {
    var was := StatusOf(s.cache, ip);
    if AskedFor(cfg, s, e) == Some(ip) then Asked
    else if ThrownOut(cfg, s, e, ip) then Unknown
    else if RepliesFrom(cfg, e, ip) && was.Asked? then At(SenderMac(e.frame))
    else if AskedBy(cfg, e, ip) && was.Unknown? && Vacant(s.cache) >= 0 then At(SenderMac(e.frame))
    else was
  }

  lemma HandleIs(cfg: Config, s: Net, f: seq<nat>, ip: nat)
    requires Good(cfg) && |s.cache| == SLOTS && Bytes(f) && OneSlotEach(s.cache)
    ensures OneSlotEach(Handle(cfg, s, f).cache)
    ensures StatusOf(Handle(cfg, s, f).cache, ip) == After(cfg, s, Receive(f), ip)
  {
    hide OneSlotEach, PendingSlot, Held, Vacant, StatusOf, Credible, Get16, SenderIp, TargetIp, Opcode, SenderMac, TargetMac;
    if |f| >= 42 {
      var from, mac := SenderIp(f), SenderMac(f);
      PendingExactlyWhenAsked(s.cache, from);
      if RepliesToUs(cfg, f) && PendingSlot(s.cache, from) >= 0 {
        Written(s.cache, PendingSlot(s.cache, from), Entry(from, mac, Resolved, 0), ip);
      } else if AsksForUs(cfg, f) {
        UnknownIs(s.cache, from);
        if Held(s.cache, from) < 0 && Vacant(s.cache) >= 0 {
          Written(s.cache, Vacant(s.cache), Entry(from, mac, Resolved, 0), ip);
        }
      }
    }
  }

  lemma UnknownIs(c: seq<Entry>, ip: nat)
    ensures StatusOf(c, ip).Unknown? <==> Held(c, ip) < 0
  {
  }

  lemma AskIs(cfg: Config, s: Net, from: nat, target: nat, ticks: nat, ip: nat)
    requires Good(cfg) && |s.cache| == SLOTS && from <= BROADCAST && target <= BROADCAST && OneSlotEach(s.cache)
    ensures OneSlotEach(Ask(cfg, s, from, target, ticks).cache)
    ensures StatusOf(Ask(cfg, s, from, target, ticks).cache, ip)
         == if !cfg.present then StatusOf(s.cache, ip)
            else if ip == target then Asked
            else if Evicts(s.cache, target) && For(s.cache, 0, ip) then Unknown
            else StatusOf(s.cache, ip)
  {
    hide OneSlotEach, StatusOf, Requested, Evicts, For;
    RequestedIs(s.cache, target, ticks, ip);
  }

  /** One step keeps one slot for each address and moves each address exactly as After says. */
  lemma StepIs(cfg: Config, s: Net, e: Event, ip: nat)
    requires Good(cfg) && |s.cache| == SLOTS && Sound(e) && OneSlotEach(s.cache)
    ensures OneSlotEach(Step(cfg, s, e).cache)
    ensures StatusOf(Step(cfg, s, e).cache, ip) == After(cfg, s, e, ip)
  {
    hide OneSlotEach, StatusOf, Evicts, For, Vacant, StillPending, Route, NextHop, Handle, Ask;
    match e
    case Request(from, target, ticks) => AskIs(cfg, s, from, target, ticks, ip);
    case Receive(f) => HandleIs(cfg, s, f, ip);
    case Send(p, ticks, _) =>
      HopFits(cfg, p.dst);
      AskIs(cfg, s, cfg.ip, NextHop(cfg, p.dst), ticks, ip);
  }

  lemma HopFits(cfg: Config, dst: nat)
    requires Good(cfg) && dst <= BROADCAST
    ensures NextHop(cfg, dst) <= BROADCAST
  {
  }
}
