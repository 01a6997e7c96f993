/** One RPCI exchange over the VMware backdoor (`rpciSendOneRaw`) against every host that follows the message protocol,
    whatever it answers, wherever it fails, and whatever it leaves in the bits nobody defined. */
module Rpci {
  import opened Bytes

  const BDOOR_MAGIC := 0x564D5868
  const BDOOR_PORT := 0x5658
  const BDOOR_CMD_MSG := 30
  const RPCI_PROTO := 0x49435052
  const MSG_FLAG_COOKIE := 0x8000_0000
  const OPEN := 0
  const SEND_SIZE := 1
  const SEND_PAYLOAD := 2
  const RECV_SIZE := 3
  const RECV_PAYLOAD := 4
  const RECV_STATUS := 5
  const CLOSE := 6

  /** The six registers of a call, in the order of the Go array. */
  datatype Regs = Regs(ax: nat, bx: nat, cx: nat, dx: nat, si: nat, di: nat)

  function Status(r: Regs): nat { r.cx / 0x1_0000 }

  predicate Success(r: Regs) { Status(r) % 2 == 1 }

  predicate DoRecv(r: Regs) { Status(r) / 2 % 2 == 1 }

  // ----- the host

  /** A host: whether it opens a channel, which later call fails, what it answers to a request, the channel number and
      cookie it hands out, and arbitrary contents for everything undefined. */
  datatype Config = Config(
    opens: bool,
    failsAt: nat -> bool,
    answer: seq<byte> -> Option<seq<byte>>,
    channel: nat,
    cookieHi: nat,
    cookieLo: nat,
    noise: nat -> seq<byte>)

  /** Registers are 32 bits wide and the channel number is the upper half of one. */
  ghost predicate WellFormed(c: Config) {
    && c.channel < TWO_16 && c.cookieHi < TWO_32 && c.cookieLo < TWO_32
    && (forall q :: c.answer(q).Some? ==> |c.answer(q).value| < TWO_32)
    && (forall i :: |c.noise(i)| == 4)
  }

  datatype Phase = Idle | Opened | Sending | Answering(reply: seq<byte>) | Answered

  /** calls counts every call so far, log their message types. */
  datatype Host = Host(phase: Phase, expected: nat, received: seq<byte>, sent: nat, calls: nat, log: seq<nat>)

  function Reply(success: bool, doRecv: bool, size: nat, h: Host, c: Config): Regs {
    var undefined: nat := if |c.noise(h.calls)| == 4 then c.noise(h.calls)[0] else 0;
    var s: nat := (if success then 1 else 0) + (if doRecv then 2 else 0) + 4 * undefined;
    Regs(0, size, 30 + 0x1_0000 * s, 0x5658 + 0x1_0000 * c.channel, c.cookieHi, c.cookieLo)
  }

  /** The next reply bytes in one little-endian word; what lies past the reply's end is noise. */
  function NextWord(reply: seq<byte>, sent: nat, noise: seq<byte>): (w: seq<byte>)
    requires |noise| == 4 && sent < |reply|
    ensures |w| == 4
  {
    var chunk := reply[sent..Min(sent + 4, |reply|)];
    chunk + noise[|chunk|..]
  }

  /** Only the low 32 bits of a register travel. */
  function LowBytes(x: nat): seq<byte> { PutLe32(x) }

  /** What the host makes of a call, in its own numbers: message types 0 open, 1 size to come, 2 payload, 3 size of the
      reply, 4 reply payload, 5 end of the reply, 6 close; "RPCI" with the cookie flag opens, and 4 and 5 acknowledge
      with a 1. */
  function HostStep(c: Config, h: Host, call: Regs): (Host, Regs)
    requires |c.noise(h.calls)| == 4
  {
    var kind := call.cx / 0x1_0000;
    var known := call.dx / 0x1_0000 == c.channel && call.si == c.cookieHi && call.di == c.cookieLo;
    if call.ax != 0x564D_5868 || call.cx % 0x1_0000 != 30 || call.dx % 0x1_0000 != 0x5658
    then (h.(calls := h.calls + 1, log := h.log + [kind]), Reply(false, false, 0, h, c))
    else HostMessage(c, h, kind, known, call.bx)
  }

  /** A message on the message command: its type, whether channel and cookie are the host's, and its argument. */
  function HostMessage(c: Config, h: Host, kind: nat, known: bool, x: nat): (Host, Regs)
    requires |c.noise(h.calls)| == 4
  {
    var next := h.(calls := h.calls + 1, log := h.log + [kind]);
    var refused := Reply(false, false, 0, h, c);
    if kind == 0 then
      if c.opens && h.phase == Idle && x == 0xC943_5052
      then (next.(phase := Opened), Reply(true, false, 0, h, c)) else (next, refused)
    else if !known then (next, refused)
    else if kind == 6 then (next.(phase := Idle), Reply(!c.failsAt(h.calls), false, 0, h, c))
    else if c.failsAt(h.calls) then (next, refused)
    else if kind == 1 && h.phase == Opened then
      (next.(phase := Sending, expected := U32(x), received := []), Reply(true, false, 0, h, c))
    else if kind == 2 && h.phase == Sending && |h.received| < h.expected then
      (next.(received := h.received + LowBytes(x)[..Min(4, h.expected - |h.received|)]), Reply(true, false, 0, h, c))
    else if kind == 3 && h.phase == Sending && |h.received| == h.expected then
      (match c.answer(h.received)
       case None => (next.(phase := Answered), Reply(true, false, 0, h, c))
       case Some(reply) => (next.(phase := Answering(reply), sent := 0), Reply(true, true, |reply|, h, c)))
    else if kind == 4 && x == 1 && h.phase.Answering? && h.sent < |h.phase.reply| then
      (next.(sent := Min(h.sent + 4, |h.phase.reply|)), Reply(true, false, Le32(NextWord(h.phase.reply, h.sent, c.noise(h.calls)), 0), h, c))
    else if kind == 5 && x == 1 && h.phase.Answering? && h.sent == |h.phase.reply| then
      (next.(phase := Answered), Reply(true, false, 0, h, c))
    else (next, refused)
  }

  /** The host behind the I/O port. */
  class Machine {
    const config: Config
    var host: Host

    constructor (config: Config)
      requires WellFormed(config)
      ensures this.config == config && host == Host(Idle, 0, [], 0, 0, [])
    {
      this.config := config;
      host := Host(Idle, 0, [], 0, 0, []);
    }

    /** The IN instruction. */
    method BackdoorCall(call: Regs) returns (r: Regs)
      requires WellFormed(config)
      modifies this
      ensures (host, r) == HostStep(config, old(host), call)
    {
      var (h, regs) := HostStep(config, host, call);
      host := h;
      return regs;
    }
  }

  // ----- the guest

  /** The registers `backdoorOp` loads. */
  function OpRegs(msgType: nat, channel: nat, cookieHi: nat, cookieLo: nat, size: nat): Regs {
    Regs(BDOOR_MAGIC, size, BDOOR_CMD_MSG + 0x1_0000 * msgType, 0x1_0000 * channel + BDOOR_PORT, cookieHi, cookieLo)
  }

  /** What the guest's registers say to the host, and the host's to the guest. */
  lemma CallArrives(c: Config, h: Host, msgType: nat, channel: nat, cookieHi: nat, cookieLo: nat, size: nat)
    requires WellFormed(c)
    ensures HostStep(c, h, OpRegs(msgType, channel, cookieHi, cookieLo, size))
         == HostMessage(c, h, msgType, channel == c.channel && cookieHi == c.cookieHi && cookieLo == c.cookieLo, size)
  {
    hide HostMessage, Reply;
    DivModUnique(30 + 0x1_0000 * msgType, 0x1_0000, msgType, 30);
    DivModUnique(0x1_0000 * channel + 0x5658, 0x1_0000, channel, 0x5658);
  }

  lemma ReplyReads(success: bool, doRecv: bool, size: nat, h: Host, c: Config)
    requires WellFormed(c)
    ensures var r := Reply(success, doRecv, size, h, c);
            && (Success(r) <==> success) && (DoRecv(r) <==> doRecv) && r.bx == size
            && r.dx / 0x1_0000 == c.channel && r.si == c.cookieHi && r.di == c.cookieLo
  {
    var undefined: nat := c.noise(h.calls)[0];
    var s := (if success then 1 else 0) + (if doRecv then 2 else 0) + 4 * undefined;
    DivModUnique(30 + 0x1_0000 * s, 0x1_0000, s, 30);
    DivModUnique(0x5658 + 0x1_0000 * c.channel, 0x1_0000, c.channel, 0x5658);
    DivModUnique(s, 2, (if doRecv then 1 else 0) + 2 * undefined, if success then 1 else 0);
  }

  lemma AllRepliesRead(h: Host, c: Config)
    requires WellFormed(c)
    ensures forall success, doRecv, size {:trigger Reply(success, doRecv, size, h, c)} ::
              var r := Reply(success, doRecv, size, h, c);
              && (Success(r) <==> success) && (DoRecv(r) <==> doRecv) && r.bx == size
              && r.dx / 0x1_0000 == c.channel && r.si == c.cookieHi && r.di == c.cookieLo
  {
    forall success, doRecv, size
      ensures var r := Reply(success, doRecv, size, h, c);
              && (Success(r) <==> success) && (DoRecv(r) <==> doRecv) && r.bx == size
              && r.dx / 0x1_0000 == c.channel && r.si == c.cookieHi && r.di == c.cookieLo
    {
      ReplyReads(success, doRecv, size, h, c);
    }
  }

  method BackdoorOp(m: Machine, msgType: nat, channel: nat, cookieHi: nat, cookieLo: nat, size: nat) returns (r: Regs)
    requires WellFormed(m.config)
    modifies m
    ensures (m.host, r) == HostStep(m.config, old(m.host), OpRegs(msgType, channel, cookieHi, cookieLo, size))
  {
    r := m.BackdoorCall(OpRegs(msgType, channel, cookieHi, cookieLo, size));
  }

  function Words(n: nat): nat { (n + 3) / 4 }

  /** No call from first on, count of them, fails. */
  predicate NoneFails(c: Config, first: nat, count: nat) {
    forall i :: first <= i < first + count ==> !c.failsAt(i)
  }

  function ReplyBytes(a: Option<seq<byte>>): seq<byte> {
    if a.Some? then a.value else []
  }

  /** The calls between open and close of an exchange that goes through. */
  function ExchangeCalls(c: Config, request: seq<byte>): nat {
    2 + Words(|request|) + if c.answer(request).Some? then Words(|c.answer(request).value|) + 1 else 0
  }

  predicate NoOpenOrClose(log: seq<nat>) {
    forall i :: 0 <= i < |log| ==> log[i] != 0 && log[i] != 6
  }

  /** What a call on the open channel leaves alone. */
  ghost predicate OnChannel(before: Host, after: Host) {
    && before.log <= after.log && NoOpenOrClose(after.log[|before.log|..])
    && after.phase != Idle
  }

  method SendPayload(m: Machine, request: seq<byte>, channel: nat, cookieHi: nat, cookieLo: nat) returns (ok: bool)
    requires WellFormed(m.config) && channel == m.config.channel && cookieHi == m.config.cookieHi && cookieLo == m.config.cookieLo
    requires m.host.phase == Sending && m.host.received == [] && m.host.expected == U32(|request|)
    modifies m
    ensures OnChannel(old(m.host), m.host)
    ensures ok <==> |request| < TWO_32 && NoneFails(m.config, old(m.host.calls), Words(|request|))
    ensures ok ==> m.host.phase == Sending && m.host.received == request && m.host.expected == |request|
    ensures ok ==> m.host.calls == old(m.host.calls) + Words(|request|)
  {
    var buf := request;
    ghost var i := 0;
    hide HostStep, Le32, U32, OpRegs, Success, DoRecv, OnChannel, Delivered;
    ghost var begin := m.host;
    Stays(begin);
    NothingDelivered(m.config, begin, request);
    assert request[0..] == request;
    while |buf| > 0
      invariant i <= |request| && buf == request[i..]
      invariant Delivered(m.config, m.host, request, i, begin.calls) && OnChannel(begin, m.host)
      decreases |buf|
    {
      var n := Min(4, |buf|);
      var word := buf[..n] + Zeros(4 - n);
      assert buf[..n] == request[i..Min(i + 4, |request|)];
      ghost var before := m.host;
      NextDelivered(m.config, before, request, i, begin.calls, word);
      var r := BackdoorOp(m, SEND_PAYLOAD, channel, cookieHi, cookieLo, Le32(word, 0));
      OneCall(before, m.host, SEND_PAYLOAD);
      Through(begin, before, m.host);
      if !Success(r) {
        return false;
      }
      assert buf[n..] == request[i + n..];
      buf := buf[n..];
      i := i + n;
    }
    AllDelivered(m.config, m.host, request, begin.calls);
    return true;
  }

  /** The host has taken the first i bytes of the request, as far as it expects them, without a failing call. */
  ghost predicate Delivered(c: Config, h: Host, request: seq<byte>, i: nat, first: nat) {
    && i <= |request| && (i % 4 == 0 || i == |request|)
    && h.phase == Sending && h.expected == U32(|request|) && h.received == request[..Min(i, Min(h.expected, |request|))]
    && (i == 0 || i < h.expected + 4)
    && h.calls == first + Words(i) && NoneFails(c, first, Words(i))
  }

  lemma NothingDelivered(c: Config, h: Host, request: seq<byte>)
    requires h.phase == Sending && h.expected == U32(|request|) && h.received == []
    ensures Delivered(c, h, request, 0, h.calls)
  {
    hide U32;
  }

  /** One more word, or a call that fails as it must. */
  lemma NextDelivered(c: Config, h: Host, request: seq<byte>, i: nat, first: nat, word: seq<byte>)
    requires WellFormed(c) && Delivered(c, h, request, i, first) && i < |request|
    requires word == request[i..Min(i + 4, |request|)] + Zeros(4 - (Min(i + 4, |request|) - i))
    ensures var (after, r) := HostStep(c, h, OpRegs(SEND_PAYLOAD, c.channel, c.cookieHi, c.cookieLo, Le32(word, 0)));
            && after.log == h.log + [SEND_PAYLOAD] && after.phase == Sending
            && (Success(r) ==> Delivered(c, after, request, Min(i + 4, |request|), first))
            && (!Success(r) ==> !(|request| < TWO_32 && NoneFails(c, first, Words(|request|))))
  {
    hide HostStep, OpRegs, Success, Le32, U32, Words;
    U32Below(|request|);
    SmallU32(|request|);
    WordsMonotone(i + 1, |request|);
    OneWord(c, h, request, i, word);
  }

  lemma AllDelivered(c: Config, h: Host, request: seq<byte>, first: nat)
    requires Delivered(c, h, request, |request|, first)
    ensures |request| < TWO_32 && h.phase == Sending && h.expected == |request| && h.received == request
    ensures h.calls == first + Words(|request|) && NoneFails(c, first, Words(|request|))
  {
    TruncatedLength(|request|);
    hide U32;
    assert request[..|request|] == request;
  }

  lemma TruncatedLength(n: nat)
    ensures n == 0 || n < U32(n) + 4 ==> n < TWO_32 && U32(n) == n
  {
  }

  lemma U32Below(n: nat)
    ensures U32(n) <= n
  {
  }

  lemma WordsMonotone(i: nat, j: nat)
    requires i <= j
    ensures Words(i) <= Words(j)
  {
  }

  /** A payload call delivers exactly the next bytes of the request, however many are left, to a host that still
      expects some. */
  lemma OneWord(c: Config, h: Host, request: seq<byte>, i: nat, word: seq<byte>)
    requires WellFormed(c) && h.phase == Sending && h.expected <= |request|
    requires i % 4 == 0 && i < |request| && h.received == request[..Min(i, h.expected)]
    requires word == request[i..Min(i + 4, |request|)] + Zeros(4 - (Min(i + 4, |request|) - i))
    ensures var next := Min(i + 4, |request|);
            var (after, r) := HostStep(c, h, OpRegs(SEND_PAYLOAD, c.channel, c.cookieHi, c.cookieLo, Le32(word, 0)));
            && (Success(r) <==> !c.failsAt(h.calls) && i < h.expected)
            && (Success(r) ==> after == h.(received := request[..Min(next, h.expected)], calls := h.calls + 1, log := h.log + [SEND_PAYLOAD]))
            && Words(next) == Words(i) + 1 == Words(i + 1)
            && after.log == h.log + [SEND_PAYLOAD] && after.phase == Sending && after.calls == h.calls + 1
  {
    hide PutLe32, Le32, HostStep, U32;
    PayloadStep(c, h, Le32(word, 0));
    LeBytes(word);
    var k := Min(4, h.expected - i);
    if i < h.expected {
      assert word[..k] == request[i..i + k];
      assert request[..i] + request[i..i + k] == request[..i + k];
    }
  }

  lemma PayloadStep(c: Config, h: Host, x: nat)
    requires WellFormed(c) && h.phase == Sending
    ensures var (after, r) := HostStep(c, h, OpRegs(SEND_PAYLOAD, c.channel, c.cookieHi, c.cookieLo, x));
            && (Success(r) <==> !c.failsAt(h.calls) && |h.received| < h.expected)
            && (Success(r) ==> after == h.(received := h.received + LowBytes(x)[..Min(4, h.expected - |h.received|)],
                                           calls := h.calls + 1, log := h.log + [SEND_PAYLOAD]))
            && after.log == h.log + [SEND_PAYLOAD] && after.phase == Sending && after.calls == h.calls + 1
  {
    hide HostStep, OpRegs, Reply, Success, DoRecv;
    AllRepliesRead(h, c);
    CallArrives(c, h, SEND_PAYLOAD, c.channel, c.cookieHi, c.cookieLo, x);
    hide PutLe32;
  }

  lemma LeBytes(word: seq<byte>)
    requires |word| == 4
    ensures PutLe32(Le32(word, 0)) == word
  {
    var b0: nat, b1: nat, b2: nat, b3: nat := word[0], word[1], word[2], word[3];
    var high := b2 + 0x100 * b3;
    var v := Le32(word, 0);
    assert v == b0 + 0x100 * b1 + 0x1_0000 * high;
    DivModUnique(v, 0x1_0000, high, b0 + 0x100 * b1);
    DivModUnique(v, 0x100, b1 + 0x100 * high, b0);
    DivModUnique(b1 + 0x100 * high, 0x100, high, b1);
    DivModUnique(high, 0x100, b3, b2);
    DivModUnique(b3, 0x100, 0, b3);
  }

  method ReceivePayload(m: Machine, size: nat, channel: nat, cookieHi: nat, cookieLo: nat) returns (r: Option<seq<byte>>)
    requires WellFormed(m.config) && channel == m.config.channel && cookieHi == m.config.cookieHi && cookieLo == m.config.cookieLo
    requires m.host.phase.Answering? && m.host.sent == 0 && |m.host.phase.reply| == size
    modifies m
    ensures OnChannel(old(m.host), m.host) && m.host.received == old(m.host.received)
    ensures r.Some? <==> NoneFails(m.config, old(m.host.calls), Words(size))
    ensures r.Some? ==> r.value == old(m.host.phase.reply) && m.host.phase == old(m.host.phase) && m.host.sent == size
    ensures r.Some? ==> m.host.calls == old(m.host.calls) + Words(size)
  {
    hide HostStep, Le32, U32, OpRegs, Success, DoRecv;
    var remaining := size;
    var reply: seq<byte> := [];
    ghost var all := m.host.phase.reply;
    while remaining > 0
      invariant 0 <= remaining <= size == |all| && |reply| == size - remaining && reply == all[..|reply|]
      invariant m.host.phase == Answering(all) && m.host.sent == |reply| && m.host.received == old(m.host.received)
      invariant |reply| % 4 == 0 || remaining == 0
      invariant m.host.calls == old(m.host.calls) + Words(|reply|) && NoneFails(m.config, old(m.host.calls), Words(|reply|))
      invariant OnChannel(old(m.host), m.host)
    {
      OneReplyWord(m.config, m.host, all, |reply|);
      var regs := BackdoorOp(m, RECV_PAYLOAD, channel, cookieHi, cookieLo, 1);
      if !Success(regs) {
        WordsMonotone(|reply| + 1, size);
        return None;
      }
      var word := PutLe32(U32(regs.bx));
      var n := Min(4, remaining);
      reply := reply + word[..n];
      remaining := remaining - n;
    }
    return Some(reply);
  }

  /** A receive call hands over the next reply bytes; the guest keeps only as many as remain. */
  lemma OneReplyWord(c: Config, h: Host, reply: seq<byte>, i: nat)
    requires WellFormed(c) && h.phase == Answering(reply) && h.sent == i && i % 4 == 0 && i < |reply|
    ensures var next := Min(i + 4, |reply|);
            var (after, r) := HostStep(c, h, OpRegs(RECV_PAYLOAD, c.channel, c.cookieHi, c.cookieLo, 1));
            && (Success(r) <==> !c.failsAt(h.calls))
            && (Success(r) ==> after == h.(sent := next, calls := h.calls + 1, log := h.log + [RECV_PAYLOAD]))
            && (Success(r) ==> PutLe32(U32(r.bx))[..next - i] == reply[i..next] && reply[..i] + reply[i..next] == reply[..next])
            && after.log == h.log + [RECV_PAYLOAD] && after.phase == h.phase && after.calls == h.calls + 1 && after.received == h.received
            && Words(next) == Words(i) + 1 == Words(i + 1)
  {
    hide HostStep, OpRegs, Reply, Success, DoRecv;
    AllRepliesRead(h, c);
    CallArrives(c, h, RECV_PAYLOAD, c.channel, c.cookieHi, c.cookieLo, 1);
    hide PutLe32, Le32;
    var word := NextWord(reply, i, c.noise(h.calls));
    LeBytes(word);
    SmallU32(Le32(word, 0));
  }

  /** One exchange: size, payload, reply size, reply, status. */
  method Exchange(m: Machine, request: seq<byte>, channel: nat, cookieHi: nat, cookieLo: nat) returns (r: Option<seq<byte>>)
    requires WellFormed(m.config) && channel == m.config.channel && cookieHi == m.config.cookieHi && cookieLo == m.config.cookieLo
    requires m.host.phase == Opened
    modifies m
    ensures OnChannel(old(m.host), m.host)
    ensures r.Some? <==> |request| < TWO_32 && NoneFails(m.config, old(m.host.calls), ExchangeCalls(m.config, request))
    ensures r.Some? ==> r.value == ReplyBytes(m.config.answer(request)) && m.host.received == request
  {
    hide Le32, U32, HostStep, OpRegs, Success, DoRecv, Words, OnChannel;
    ghost var begin := m.host;
    SendSizeStep(m.config, m.host, |request|);
    var regs := BackdoorOp(m, SEND_SIZE, channel, cookieHi, cookieLo, |request|);
    OneCall(begin, m.host, SEND_SIZE);
    if !Success(regs) {
      return None;
    }
    ghost var sized := m.host;
    var ok := SendPayload(m, request, channel, cookieHi, cookieLo);
    Through(begin, sized, m.host);
    if !ok {
      return None;
    }
    ghost var ready := m.host;
    RecvSizeStep(m.config, m.host, request);
    regs := BackdoorOp(m, RECV_SIZE, channel, cookieHi, cookieLo, 0);
    OneCall(ready, m.host, RECV_SIZE);
    Through(begin, ready, m.host);
    if !Success(regs) {
      return None;
    }
    if !DoRecv(regs) {
      return Some([]);
    }
    ghost var asked := m.host;
    var reply := ReceivePayload(m, U32(regs.bx), channel, cookieHi, cookieLo);
    Through(begin, asked, m.host);
    if reply.None? {
      return None;
    }
    ghost var answered := m.host;
    RecvStatusStep(m.config, m.host);
    regs := BackdoorOp(m, RECV_STATUS, channel, cookieHi, cookieLo, 1);
    OneCall(answered, m.host, RECV_STATUS);
    Through(begin, answered, m.host);
    if !Success(regs) {
      return None;
    }
    return reply;
  }

  lemma Stays(h: Host)
    requires h.phase != Idle
    ensures OnChannel(h, h)
  {
  }

  lemma OneCall(before: Host, after: Host, kind: nat)
    requires after.log == before.log + [kind] && kind != 0 && kind != 6 && after.phase != Idle
    ensures OnChannel(before, after)
  {
  }

  lemma Through(a: Host, b: Host, c: Host)
    requires OnChannel(a, b) && OnChannel(b, c)
    ensures OnChannel(a, c)
  {
    assert c.log[|a.log|..] == b.log[|a.log|..] + c.log[|b.log|..];
  }

  lemma SendSizeStep(c: Config, h: Host, size: nat)
    requires WellFormed(c) && h.phase == Opened
    ensures var (after, r) := HostStep(c, h, OpRegs(SEND_SIZE, c.channel, c.cookieHi, c.cookieLo, size));
            && (Success(r) <==> !c.failsAt(h.calls))
            && (Success(r) ==> after.phase == Sending && after.expected == U32(size) && after.received == [])
            && after.phase != Idle && after.calls == h.calls + 1 && after.log == h.log + [SEND_SIZE]
  {
    hide HostStep, OpRegs, Reply, Success, DoRecv;
    AllRepliesRead(h, c);
    CallArrives(c, h, SEND_SIZE, c.channel, c.cookieHi, c.cookieLo, size);
  }

  lemma RecvSizeStep(c: Config, h: Host, request: seq<byte>)
    requires WellFormed(c) && h.phase == Sending && h.received == request && h.expected == |request|
    ensures var (after, r) := HostStep(c, h, OpRegs(RECV_SIZE, c.channel, c.cookieHi, c.cookieLo, 0));
            && (Success(r) <==> !c.failsAt(h.calls))
            && (Success(r) ==> (DoRecv(r) <==> c.answer(request).Some?))
            && (Success(r) && DoRecv(r) ==> after.phase == Answering(c.answer(request).value) && after.sent == 0 && U32(r.bx) == |c.answer(request).value|)
            && after.phase != Idle && after.received == request && after.calls == h.calls + 1 && after.log == h.log + [RECV_SIZE]
  {
    hide HostStep, OpRegs, Reply, Success, DoRecv;
    AllRepliesRead(h, c);
    CallArrives(c, h, RECV_SIZE, c.channel, c.cookieHi, c.cookieLo, 0);
    if c.answer(request).Some? {
      SmallU32(|c.answer(request).value|);
    }
  }

  lemma RecvStatusStep(c: Config, h: Host)
    requires WellFormed(c) && h.phase.Answering? && h.sent == |h.phase.reply|
    ensures var (after, r) := HostStep(c, h, OpRegs(RECV_STATUS, c.channel, c.cookieHi, c.cookieLo, 1));
            && (Success(r) <==> !c.failsAt(h.calls))
            && after.phase != Idle && after.received == h.received && after.calls == h.calls + 1 && after.log == h.log + [RECV_STATUS]
  {
    hide HostStep, OpRegs, Reply, Success, DoRecv;
    AllRepliesRead(h, c);
    CallArrives(c, h, RECV_STATUS, c.channel, c.cookieHi, c.cookieLo, 1);
  }

  /** What the host saw: one open, nothing but payload calls, one close; or an open that was refused and nothing else. */
  ghost predicate OneChannel(before: seq<nat>, after: seq<nat>, granted: bool) {
    if granted then
      exists middle :: NoOpenOrClose(middle) && after == before + [0] + middle + [6]
    else after == before + [0]
  }

  /** `rpciSendOneRaw`: on every path a channel that was opened is closed exactly once, as the last thing; the call
      succeeds exactly when no step in between fails, and then the host got exactly the request's bytes and the caller
      exactly the host's reply, whatever their lengths. */
  method RpciSendOneRaw(m: Machine, request: seq<byte>) returns (r: Option<seq<byte>>)
    requires WellFormed(m.config) && m.host.phase == Idle
    modifies m
    ensures m.host.phase == Idle && OneChannel(old(m.host.log), m.host.log, m.config.opens)
    ensures r.Some? <==> m.config.opens && |request| < TWO_32
                         && NoneFails(m.config, old(m.host.calls) + 1, ExchangeCalls(m.config, request))
    ensures r.Some? ==> m.host.received == request && r.value == ReplyBytes(m.config.answer(request))
  {
    hide HostStep;
    OpenStep(m.config, m.host);
    var regs := BackdoorOp(m, OPEN, 0, 0, 0, RPCI_PROTO + MSG_FLAG_COOKIE);
    if !Success(regs) {
      return None;
    }
    var channel, cookieHi, cookieLo := U32(regs.dx / 0x1_0000), U32(regs.si), U32(regs.di);
    ghost var afterOpen := m.host;
    r := Exchange(m, request, channel, cookieHi, cookieLo);
    ghost var last := m.host;
    CloseStep(m.config, m.host);
    var _ := BackdoorOp(m, CLOSE, channel, cookieHi, cookieLo, 0);
    ghost var middle := last.log[|afterOpen.log|..];
    assert m.host.log == old(m.host.log) + [OPEN] + middle + [CLOSE];
  }

  lemma OpenStep(c: Config, h: Host)
    requires WellFormed(c) && h.phase == Idle
    ensures var (after, r) := HostStep(c, h, OpRegs(OPEN, 0, 0, 0, RPCI_PROTO + MSG_FLAG_COOKIE));
            && (Success(r) <==> c.opens)
            && (Success(r) ==> U32(r.dx / 0x1_0000) == c.channel && U32(r.si) == c.cookieHi && U32(r.di) == c.cookieLo)
            && after.phase == (if c.opens then Opened else Idle) && after.calls == h.calls + 1 && after.log == h.log + [OPEN]
  {
    hide HostStep, OpRegs, Reply, Success, DoRecv;
    AllRepliesRead(h, c);
    CallArrives(c, h, OPEN, 0, 0, 0, RPCI_PROTO + MSG_FLAG_COOKIE);
    SmallU32(c.channel);
    SmallU32(c.cookieHi);
    SmallU32(c.cookieLo);
  }

  lemma CloseStep(c: Config, h: Host)
    requires WellFormed(c)
    ensures var (after, r) := HostStep(c, h, OpRegs(CLOSE, c.channel, c.cookieHi, c.cookieLo, 0));
            after.phase == Idle && after.received == h.received && after.log == h.log + [CLOSE]
  {
    hide HostStep, OpRegs, Reply, Success, DoRecv;
    AllRepliesRead(h, c);
    CallArrives(c, h, CLOSE, c.channel, c.cookieHi, c.cookieLo, 0);
  }

  // ----- the reply of "info-get"

  const SPACE: byte := 0x20
  const DIGIT_ONE: byte := 0x31

  /** strings.Cut at the first space. */
  function CutSpace(s: seq<byte>): Option<(seq<byte>, seq<byte>)> {
    if s == [] then None
    else if s[0] == SPACE then Some(([], s[1..]))
    else
      var (status, value) :- CutSpace(s[1..]);
      Some(([s[0]] + status, value))
  }

  function ParseInfoGetReply(reply: seq<byte>): Option<seq<byte>> {
    var (status, value) := if CutSpace(reply).Some? then CutSpace(reply).value else (reply, []);
    if status != [DIGIT_ONE] then None else Some(value)
  }

  lemma {:induction false} CutSpaceParts(s: seq<byte>)
    ensures CutSpace(s).None? <==> SPACE !in s
    ensures CutSpace(s).Some? ==> var (status, value) := CutSpace(s).value; SPACE !in status && s == status + [SPACE] + value
  {
    if s != [] && s[0] != SPACE {
      CutSpaceParts(s[1..]);
      assert s == [s[0]] + s[1..];
    }
  }

  /** A reply is accepted exactly when it is a "1" alone, or "1", a space and the value; the value comes back whole, with
      every further space in it. */
  lemma InfoGetAccepts(reply: seq<byte>)
    ensures ParseInfoGetReply(reply).Some? <==> reply == [0x31] || [0x31, 0x20] <= reply
    ensures ParseInfoGetReply(reply).Some? ==> ParseInfoGetReply(reply).value == if |reply| == 1 then [] else reply[2..]
  {
    CutSpaceParts(reply);
    if [0x31, 0x20] <= reply {
      assert reply[1..][0] == 0x20 && reply[1..][1..] == reply[2..];
    }
    if CutSpace(reply).Some? {
      var (status, value) := CutSpace(reply).value;
      assert reply[..|status| + 1] == status + [0x20];
    }
  }

  /** A value stored on the host comes back as it was stored, through the channel and the reply convention. */
  lemma StoredValueComesBack(c: Config, request: seq<byte>, value: seq<byte>)
    requires c.answer(request) == Some([0x31, 0x20] + value)
    ensures ParseInfoGetReply(ReplyBytes(c.answer(request))) == Some(value)
  {
    var reply := [0x31, 0x20] + value;
    InfoGetAccepts(reply);
    assert reply[..2] == [0x31, 0x20] && reply[2..] == value;
  }
}
