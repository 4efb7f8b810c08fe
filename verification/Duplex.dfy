/** Runs over the transport: amortised growth of one buffer, and two peers joined by two buffers. */
module Duplex {
  import opened Bytes
  import opened Transport

  // ---- runs of writes ----

  /** The octets of the writes that succeed, in order, from buffer `b`, and the buffer afterwards. */
  function WriteAll(b: Buf, writes: seq<(bytes, bool)>): (Buf, bytes) {
    if writes == [] then (b, [])
    else
      var init := WriteAll(b, writes[..|writes| - 1]);
      var (src, allocOk) := writes[|writes| - 1];
      var (after, rc) := Written(init.0, src, allocOk);
      (after, if rc == 0 then init.1 + src else init.1)
  }

  function Total(writes: seq<(bytes, bool)>): nat {
    if writes == [] then 0 else Total(writes[..|writes| - 1]) + |writes[|writes| - 1].0|
  }

  /**
   Amortised growth. After any run of writes of at most 2^63 octets in all, failed allocations included,
   the buffer holds exactly the octets of the successful ones, its capacity is zero or 4096 times a power
   of two and less than twice the contents once it has grown, and all reallocations together moved at
   most twice as many octets as it holds.
  */
  lemma {:induction false} AmortisedGrowth(writes: seq<(bytes, bool)>)
    requires Total(writes) <= HALF_RANGE
    ensures var (b, sent) := WriteAll(EMPTY, writes);
            && b.data == sent && |sent| <= Total(writes) && b.rd == 0
            && (b.cap == 0 || exists k: nat :: b.cap == FIRST_CAPACITY * Pow2(k))
            && (b.cap <= FIRST_CAPACITY || b.cap < 2 * |b.data|)
            && b.moved <= 2 * |b.data|
            && BufOk(b)
  {
    hide Grow;
    var b := WriteAll(EMPTY, writes).0;
    if writes != [] {
      var init := writes[..|writes| - 1];
      AmortisedGrowth(init);
      var (src, allocOk) := writes[|writes| - 1];
      WrittenIsOk(WriteAll(EMPTY, init).0, src, allocOk);
    }
    if b.cap > 0 { DoublingsArePowers(b.cap); }
  }

  /** Everything handed to the writes of a run. */
  function AllOctets(writes: seq<(bytes, bool)>): bytes {
    if writes == [] then [] else AllOctets(writes[..|writes| - 1]) + writes[|writes| - 1].0
  }

  /** When every allocation succeeds every write does, and the buffer holds all of them in order. */
  lemma {:induction false} AllWritesArrive(writes: seq<(bytes, bool)>)
    requires Total(writes) <= HALF_RANGE && forall w <- writes :: w.1
    ensures WriteAll(EMPTY, writes).0.data == WriteAll(EMPTY, writes).1 == AllOctets(writes)
  {
    if writes != [] {
      var init, w := writes[..|writes| - 1], writes[|writes| - 1];
      assert w in writes && forall u <- init :: u in writes;
      AllWritesArrive(init);
      AmortisedGrowth(init);
      hide BufOk, Written;
      WriteOutcome(WriteAll(EMPTY, init).0, w.0, w.1);
    }
  }

  // ---- two peers ----

  datatype Event =
    | Send(client: bool, data: bytes, allocOk: bool)
    | Recv(client: bool, sz: nat)

  /** Both buffers, and what each peer has sent and received so far. */
  datatype Link = Link(c2s: Buf, s2c: Buf, clientSent: bytes, serverSent: bytes, clientGot: bytes, serverGot: bytes)

  const FRESH_LINK: Link := Link(EMPTY, EMPTY, [], [], [], [])

  /** Received octets, none when the callback reports that it would block. */
  function Got(r: Option<bytes>): bytes {
    if r.Some? then r.value else []
  }

  /** One callback: a peer writes to its `out` buffer or reads from its `in` buffer. */
  function Step(l: Link, e: Event): Link
    requires l.c2s.rd <= |l.c2s.data| && l.s2c.rd <= |l.s2c.data|
  {
    match e
    case Send(true, data, ok) =>
      var (b, rc) := Written(l.c2s, data, ok);
      l.(c2s := b, clientSent := if rc == 0 then l.clientSent + data else l.clientSent)
    case Send(false, data, ok) =>
      var (b, rc) := Written(l.s2c, data, ok);
      l.(s2c := b, serverSent := if rc == 0 then l.serverSent + data else l.serverSent)
    case Recv(true, sz) =>
      var (b, got) := Received(l.s2c, sz);
      l.(s2c := b, clientGot := l.clientGot + Got(got))
    case Recv(false, sz) =>
      var (b, got) := Received(l.c2s, sz);
      l.(c2s := b, serverGot := l.serverGot + Got(got))
  }

  function Run(l: Link, events: seq<Event>): (r: Link)
    requires l.c2s.rd <= |l.c2s.data| && l.s2c.rd <= |l.s2c.data|
    ensures r.c2s.rd <= |r.c2s.data| && r.s2c.rd <= |r.s2c.data|
  {
    if events == [] then l
    else Step(Run(l, events[..|events| - 1]), events[|events| - 1])
  }

  /** One direction works: what was got is what was sent up to the read offset. */
  predicate InOrder(b: Buf, sent: bytes, got: bytes) {
    b.data == sent && b.rd <= |sent| && got == sent[..b.rd]
  }

  lemma ReceivedInOrder(b: Buf, sent: bytes, got: bytes, sz: nat)
    requires InOrder(b, sent, got)
    ensures InOrder(Received(b, sz).0, sent, got + Got(Received(b, sz).1))
  {
    var rd := Received(b, sz).0.rd;
    assert sent[..b.rd] + sent[b.rd..rd] == sent[..rd];
  }

  /**
   Duplex FIFO. Under every interleaving of sends and receives by the two peers, each has read a prefix of
   what the other wrote, the unread part of the buffer is exactly what remains, and the directions never mix.
  */
  lemma {:induction false} DuplexFifo(events: seq<Event>)
    ensures var l := Run(FRESH_LINK, events);
            && InOrder(l.c2s, l.clientSent, l.serverGot) && InOrder(l.s2c, l.serverSent, l.clientGot)
            && l.clientSent == l.serverGot + l.c2s.data[l.c2s.rd..]
            && l.serverSent == l.clientGot + l.s2c.data[l.s2c.rd..]
  {
    if events == [] {
      Remains(EMPTY, [], []);
    } else {
      hide Step, InOrder;
      DuplexFifo(events[..|events| - 1]);
      StepKeepsOrder(Run(FRESH_LINK, events[..|events| - 1]), events[|events| - 1]);
      var l := Run(FRESH_LINK, events);
      Remains(l.c2s, l.clientSent, l.serverGot);
      Remains(l.s2c, l.serverSent, l.clientGot);
    }
  }

  /** What is unread is what was sent and not yet got. */
  lemma Remains(b: Buf, sent: bytes, got: bytes)
    requires InOrder(b, sent, got)
    ensures b.rd <= |b.data| && sent == got + b.data[b.rd..]
  {
  }

  /** The data of the sends of one peer. */
  function DataSent(events: seq<Event>, client: bool): bytes {
    if events == [] then []
    else
      var e := events[|events| - 1];
      DataSent(events[..|events| - 1], client) + if e.Send? && e.client == client then e.data else []
  }

  /** Both buffers of a run keep their invariant. */
  lemma {:induction false} RunIsOk(events: seq<Event>)
    requires SentOctets(events) <= HALF_RANGE
    ensures var l := Run(FRESH_LINK, events);
            && BufOk(l.c2s) && BufOk(l.s2c)
            && |l.c2s.data| <= SentOctets(events) && |l.s2c.data| <= SentOctets(events)
  {
    if events != [] {
      var init, e := events[..|events| - 1], events[|events| - 1];
      RunIsOk(init);
      var l := Run(FRESH_LINK, init);
      StepGrowsBy(l, e);
      hide BufOk, Written, Received;
      match e
      case Send(client, data, allocOk) => WrittenIsOk(if client then l.c2s else l.s2c, data, allocOk);
      case Recv(client, sz) => ReceivedIsOk(if client then l.s2c else l.c2s, sz);
    }
  }

  lemma ReceivedIsOk(b: Buf, sz: nat)
    requires BufOk(b)
    ensures b.rd <= |b.data| && BufOk(Received(b, sz).0)
  {
  }

  /** When every allocation succeeds, what each peer has sent is all the data of its sends. */
  lemma {:induction false} AllSendsArrive(events: seq<Event>)
    requires SentOctets(events) <= HALF_RANGE && forall e <- events :: e.Send? ==> e.allocOk
    ensures var l := Run(FRESH_LINK, events);
            l.clientSent == DataSent(events, true) && l.serverSent == DataSent(events, false)
  {
    if events != [] {
      var init, e := events[..|events| - 1], events[|events| - 1];
      assert e in events && forall f <- init :: f in events;
      AllSendsArrive(init);
      RunIsOk(init);
      var l := Run(FRESH_LINK, init);
      hide BufOk, Written, Received, Run;
      if e.Send? { WriteOutcome(if e.client then l.c2s else l.s2c, e.data, true); }
      assert l.clientSent + [] == l.clientSent && l.serverSent + [] == l.serverSent;
    }
  }

  /** A peer that asks for enough has read everything the other wrote. */
  lemma RecvDrains(events: seq<Event>, client: bool, sz: nat)
    requires var l := Run(FRESH_LINK, events);
             sz >= if client then |l.s2c.data| - l.s2c.rd else |l.c2s.data| - l.c2s.rd
    ensures var l := Run(FRESH_LINK, events + [Recv(client, sz)]);
            if client then l.clientGot == l.serverSent else l.serverGot == l.clientSent
  {
    var l := Run(FRESH_LINK, events);
    assert (events + [Recv(client, sz)])[..|events|] == events;
    DuplexFifo(events);
    hide Received, Run;
    ReceiveOutcome(if client then l.s2c else l.c2s, sz);
  }

  /** Every callback keeps both directions in order. */
  lemma StepKeepsOrder(l: Link, e: Event)
    requires InOrder(l.c2s, l.clientSent, l.serverGot) && InOrder(l.s2c, l.serverSent, l.clientGot)
    ensures var r := Step(l, e); InOrder(r.c2s, r.clientSent, r.serverGot) && InOrder(r.s2c, r.serverSent, r.clientGot)
  {
    hide Written, Received, Got;
    match e
    case Send(client, data, allocOk) =>
      if client { SentInOrder(l.c2s, l.clientSent, l.serverGot, data, allocOk); }
      else { SentInOrder(l.s2c, l.serverSent, l.clientGot, data, allocOk); }
    case Recv(client, sz) =>
      if client { ReceivedInOrder(l.s2c, l.serverSent, l.clientGot, sz); }
      else { ReceivedInOrder(l.c2s, l.clientSent, l.serverGot, sz); }
  }

  lemma SentInOrder(b: Buf, sent: bytes, got: bytes, data: bytes, allocOk: bool)
    requires InOrder(b, sent, got)
    ensures var (b', rc) := Written(b, data, allocOk);
            InOrder(b', if rc == 0 then sent + data else sent, got)
  {
    assert (sent + data)[..b.rd] == sent[..b.rd];
  }

  // ---- the peers as objects ----

  /** A peer's view: it reads from `inp` and writes to `out`. */
  class PeerIo {
    const inp: MemBuf
    const out: MemBuf

    constructor (inp: MemBuf, out: MemBuf)
      ensures this.inp == inp && this.out == out
    {
      this.inp := inp;
      this.out := out;
    }

    method IoSend(src: bytes, allocOk: bool) returns (rc: int)
      requires out.Valid() && out.len + |src| <= HALF_RANGE
      modifies out, out.buf
      ensures out.Valid() && (out.buf == old(out.buf) || fresh(out.buf))
      ensures out.View() == Written(old(out.View()), src, allocOk).0
      ensures rc == if Written(old(out.View()), src, allocOk).1 == 0 then |src| else ERR_GENERAL
      ensures rc == if old(out.len) + |src| <= old(out.cap) || allocOk then |src| else -1
    {
      var written := out.Write(src, allocOk);
      if written != 0 { return ERR_GENERAL; }
      return |src|;
    }

    method IoRecv(dest: array<byte>, sz: nat) returns (rc: int)
      requires inp.Valid() && sz <= dest.Length && dest != inp.buf
      modifies inp`rd, dest
      ensures inp.Valid() && inp.buf == old(inp.buf)
      ensures inp.View() == Received(old(inp.View()), sz).0
      ensures var got := Received(old(inp.View()), sz).1;
              if got.None? then rc == WANT_READ && dest[..] == old(dest[..])
              else rc == |got.value| && dest[..rc] == got.value && dest[rc..] == old(dest[rc..])
      ensures old(inp.rd) == inp.len ==> rc == -2
      ensures old(inp.rd) < inp.len ==> rc == if sz < inp.len - old(inp.rd) then sz else inp.len - old(inp.rd)
    {
      rc := inp.Read(dest, sz);
    }
  }

  function SentOctets(events: seq<Event>): nat {
    if events == [] then 0
    else
      var e := events[|events| - 1];
      SentOctets(events[..|events| - 1]) + if e.Send? then |e.data| else 0
  }

  /** Both buffers are sound, and share nothing. */
  ghost predicate Wired(c2s: MemBuf, s2c: MemBuf)
    reads c2s, s2c, c2s.buf, s2c.buf
  {
    c2s != s2c && c2s.buf != s2c.buf && c2s.Valid() && s2c.Valid()
  }

  /** One callback on the objects does what `Step` says, and leaves the other buffer alone. */
  method Callback(c2s: MemBuf, s2c: MemBuf, client: PeerIo, server: PeerIo, e: Event) returns (sent: bytes, got: bytes)
    requires client.inp == s2c && client.out == c2s && server.inp == c2s && server.out == s2c
    requires Wired(c2s, s2c)
    requires e.Send? ==> (if e.client then c2s else s2c).len + |e.data| <= HALF_RANGE
    modifies c2s, s2c, c2s.buf, s2c.buf
    ensures Wired(c2s, s2c) && (c2s.buf == old(c2s.buf) || fresh(c2s.buf)) && (s2c.buf == old(s2c.buf) || fresh(s2c.buf))
    ensures Link(c2s.View(), s2c.View(), if e.client then sent else [], if e.client then [] else sent,
                 if e.client then got else [], if e.client then [] else got)
            == Step(Link(old(c2s.View()), old(s2c.View()), [], [], [], []), e)
  {
    hide IsDoubling, Grow, Written;
    sent, got := [], [];
    match e
    case Send(true, data, allocOk) => sent := SendFrom(client, data, allocOk);
    case Send(false, data, allocOk) => sent := SendFrom(server, data, allocOk);
    case Recv(true, sz) => got := ReceiveAt(client, sz);
    case Recv(false, sz) => got := ReceiveAt(server, sz);
  }

  /** `io_send`, and the octets it got rid of. */
  method SendFrom(peer: PeerIo, data: bytes, allocOk: bool) returns (sent: bytes)
    requires peer.out.Valid() && peer.out.len + |data| <= HALF_RANGE
    modifies peer.out, peer.out.buf
    ensures peer.out.Valid() && (peer.out.buf == old(peer.out.buf) || fresh(peer.out.buf))
    ensures peer.out.View() == Written(old(peer.out.View()), data, allocOk).0
    ensures sent == if Written(old(peer.out.View()), data, allocOk).1 == 0 then data else []
  {
    hide BufOk, Grow, Written;
    var rc := peer.IoSend(data, allocOk);
    sent := if rc != ERR_GENERAL then data else [];
  }

  /** `io_recv` into a fresh array of `sz` octets, and the octets received. */
  method ReceiveAt(peer: PeerIo, sz: nat) returns (got: bytes)
    requires peer.inp.Valid()
    modifies peer.inp`rd
    ensures peer.inp.Valid() && peer.inp.buf == old(peer.inp.buf)
    ensures peer.inp.View() == Received(old(peer.inp.View()), sz).0
    ensures got == Got(Received(old(peer.inp.View()), sz).1)
  {
    hide IsDoubling;
    var dest := new byte[sz](_ => 0);
    var rc := peer.IoRecv(dest, sz);
    got := if rc != WANT_READ then dest[..rc] else [];
  }

  /**
   The two-peer wiring, driven by any sequence of callbacks: the objects end in the state of the pure run,
   so `DuplexFifo` and `AmortisedGrowth` are statements about them.
  */
  method Session(events: seq<Event>)
    returns (c2s: MemBuf, s2c: MemBuf, clientSent: bytes, serverSent: bytes, clientGot: bytes, serverGot: bytes)
    requires SentOctets(events) <= HALF_RANGE
    ensures Wired(c2s, s2c) && fresh(c2s) && fresh(s2c)
    ensures Link(c2s.View(), s2c.View(), clientSent, serverSent, clientGot, serverGot) == Run(FRESH_LINK, events)
  {
    hide BufOk, Grow, Written, Received, Run, Step, SentOctets;
    SessionStarts(events);
    c2s := new MemBuf();
    s2c := new MemBuf();
    var client := new PeerIo(s2c, c2s);
    var server := new PeerIo(c2s, s2c);
    clientSent, serverSent, clientGot, serverGot := [], [], [], [];
    for i := 0 to |events|
      invariant Wired(c2s, s2c) && fresh(c2s) && fresh(s2c) && fresh(c2s.buf) && fresh(s2c.buf)
      invariant client.inp == s2c && client.out == c2s && server.inp == c2s && server.out == s2c
      invariant Link(c2s.View(), s2c.View(), clientSent, serverSent, clientGot, serverGot)
             == Run(FRESH_LINK, events[..i])
      invariant c2s.len <= SentOctets(events[..i]) && s2c.len <= SentOctets(events[..i])
    {
      SessionContinues(events, i);
      var sent, got := Callback(c2s, s2c, client, server, events[i]);
      if events[i].client {
        clientSent, clientGot := clientSent + sent, clientGot + got;
      } else {
        serverSent, serverGot := serverSent + sent, serverGot + got;
      }
    }
  }

  lemma SessionStarts(events: seq<Event>)
    ensures Run(FRESH_LINK, events[..0]) == FRESH_LINK && SentOctets(events[..0]) == 0
    ensures events[..|events|] == events
  {
  }

  /** The next callback, from the state after the first `i`: what it adds to logs and buffers. */
  lemma SessionContinues(events: seq<Event>, i: nat)
    requires i < |events|
    ensures var l, e := Run(FRESH_LINK, events[..i]), events[i];
            var r, d := Run(FRESH_LINK, events[..i + 1]), Step(Link(l.c2s, l.s2c, [], [], [], []), e);
            && r.c2s == d.c2s && r.s2c == d.s2c
            && r.clientSent == l.clientSent + d.clientSent && r.serverSent == l.serverSent + d.serverSent
            && r.clientGot == l.clientGot + d.clientGot && r.serverGot == l.serverGot + d.serverGot
            && (e.client ==> r.serverSent == l.serverSent && r.serverGot == l.serverGot)
            && (!e.client ==> r.clientSent == l.clientSent && r.clientGot == l.clientGot)
            && var n := if e.Send? then |e.data| else 0;
               && |r.c2s.data| <= |l.c2s.data| + n && |r.s2c.data| <= |l.s2c.data| + n
               && SentOctets(events[..i + 1]) == SentOctets(events[..i]) + n <= SentOctets(events)
  {
    hide Step;
    assert events[..i + 1][..i] == events[..i];
    var l := Run(FRESH_LINK, events[..i]);
    SentMonotone(events, i + 1);
    StepGrowsBy(l, events[i]);
    StepAddsToLogs(l, events[i]);
  }

  /** A callback does the same whatever was logged before, and adds to the logs of its peer only. */
  lemma StepAddsToLogs(l: Link, e: Event)
    requires l.c2s.rd <= |l.c2s.data| && l.s2c.rd <= |l.s2c.data|
    ensures var r, d := Step(l, e), Step(Link(l.c2s, l.s2c, [], [], [], []), e);
            && r.c2s == d.c2s && r.s2c == d.s2c
            && r.clientSent == l.clientSent + d.clientSent && r.serverSent == l.serverSent + d.serverSent
            && r.clientGot == l.clientGot + d.clientGot && r.serverGot == l.serverGot + d.serverGot
            && (e.client ==> r.serverSent == l.serverSent && r.serverGot == l.serverGot)
            && (!e.client ==> r.clientSent == l.clientSent && r.clientGot == l.clientGot)
  {
    hide Grow;
    assert l.clientSent + [] == l.clientSent && l.serverSent + [] == l.serverSent;
    assert l.clientGot + [] == l.clientGot && l.serverGot + [] == l.serverGot;
  }

  lemma {:induction false} SentMonotone(events: seq<Event>, i: nat)
    requires i <= |events|
    ensures SentOctets(events[..i]) <= SentOctets(events)
    decreases |events| - i
  {
    if i == |events| {
      assert events[..i] == events;
    } else {
      assert events[..i + 1][..i] == events[..i];
      SentMonotone(events, i + 1);
    }
  }

  lemma StepGrowsBy(l: Link, e: Event)
    requires l.c2s.rd <= |l.c2s.data| && l.s2c.rd <= |l.s2c.data|
    ensures var r, n := Step(l, e), if e.Send? then |e.data| else 0;
            |r.c2s.data| <= |l.c2s.data| + n && |r.s2c.data| <= |l.s2c.data| + n
  {
    hide Grow;
  }
}
