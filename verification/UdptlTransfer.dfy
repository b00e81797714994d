/** Two endpoints: one sends messages, and packets reach the other one, in any order. */
module UdptlTransfer {
  import opened LengthCoding
  import opened UdptlPackets
  import opened UdptlRing
  import opened UdptlFec
  import opened Udptl
  import opened UdptlRuns
  import opened UdptlDisorder

  /** All packets of a session. */
  method SendAll(c: Config, h: History) returns (packets: seq<Octets>)
    requires ConfigOk(c) && |h| < 0x1_0000
    ensures |packets| == |h| && forall n :: 0 <= n < |h| ==> packets[n] == Packet(ContentAt(c, h, n))
  {
    hide ConfigOk, ContentAt, Packet;
    var sender := new Endpoint(c);
    packets := [];
    for n := 0 to |h|
      invariant sender.Valid() && sender.config == c && fresh(sender) && fresh(sender.tx) && |packets| == n
      invariant sender.Sent(h[..n])
      invariant forall i :: 0 <= i < n ==> packets[i] == Packet(ContentAt(c, h, i))
    {
      var packet, ok := sender.BuildPacket(h[n], h[..n]);
      assert h[..n + 1] == h[..n] + [h[n]];
      EarlierOnly(c, h, n);
      packets := packets + [packet];
    }
  }

  /** A packet does not depend on messages sent later. */
  lemma EarlierOnly(c: Config, h: History, n: nat)
    requires ConfigOk(c) && n < |h| && n < 0x1_0000
    ensures ContentAt(c, h[..n + 1], n) == ContentAt(c, h, n)
  {
    var h' := h[..n + 1];
    match c.scheme {
      case NoCorrection =>
      case Redundancy =>
        assert ContentAt(c, h', n).secondaries == ContentAt(c, h, n).secondaries;
      case Fec =>
        WindUp(c, n);
        var e, s := EntriesAt(c, n), SpanAt(c, n);
        forall m | 0 <= m < e
          ensures GroupOf(h', n, s, e, m) == GroupOf(h, n, s, e, m)
        {
        }
        assert ParitiesAt(c, h', n) == ParitiesAt(c, h, n);
    }
  }

  /** The endpoint is where a receiver is once the packets `a` have arrived. */
  ghost predicate Reached(e: Endpoint, c: Config, h: History, a: seq<nat>)
    requires ConfigOk(c) && WereSent(a, h)
    reads e, e.tx, e.rx
  {
    e.Valid() && State(e.rx[..], e.rxSeqNo, e.log) == RunOf(c, h, a)
  }

  /** Packet `n` arrives. */
  method ReceiveOne(e: Endpoint, packet: Octets, ghost c: Config, ghost h: History, ghost a: seq<nat>, ghost n: nat)
    requires ConfigOk(c) && WereSent(a, h) && n < |h| && Reached(e, c, h, a) && packet == Packet(ContentAt(c, h, n))
    modifies e`rxSeqNo, e`log, e.rx
    ensures WereSent(a + [n], h) && Reached(e, c, h, a + [n])
  {
    hide ConfigOk, ContentAt, Packet, After, Delivered, RingFits, RunOf, Place;
    NextArrival(c, h, a, n);
    var stat := e.RxPacket(packet, ContentAt(c, h, n));
  }

  /** What there is to know about the next packet. */
  lemma NextArrival(c: Config, h: History, a: seq<nat>, n: nat)
    requires ConfigOk(c) && WereSent(a, h) && n < |h|
    ensures WereSent(a + [n], h)
    ensures var s, p := RunOf(c, h, a), ContentAt(c, h, n);
            && (p.WithParities? ==> RingFits(s.ring))
            && RunOf(c, h, a + [n])
               == State(After(s.ring, s.next, p), (p.seqNo + 1) % 0x1_0000, s.log + Delivered(s.ring, s.next, p))
  {
    hide ConfigOk, ContentAt, After, Delivered, RingFits, RunOf;
    RunFitsIfFec(c, h, a);
    OneMoreArrival(c, h, a, n);
  }

  lemma RunFitsIfFec(c: Config, h: History, a: seq<nat>)
    requires ConfigOk(c) && WereSent(a, h)
    ensures c.scheme.Fec? ==> RingFits(RunOf(c, h, a).ring)
  {
    hide RunOf, RingFits;
    if c.scheme.Fec? { RunFits(c, h, a); }
  }

  /** An endpoint that the packets `a` reach. */
  method ReceiveAll(c: Config, packets: seq<Octets>, ghost h: History, a: seq<nat>) returns (log: seq<Delivery>)
    requires ConfigOk(c) && WereSent(a, h) && |packets| == |h|
    requires forall n :: 0 <= n < |h| ==> packets[n] == Packet(ContentAt(c, h, n))
    ensures log == RunOf(c, h, a).log
  {
    hide ConfigOk, ContentAt, Packet, Reached, RunOf;
    var e := new Endpoint(c);
    FirstReached(e, c, h);
    assert a[..0] == [];
    for i := 0 to |a|
      invariant fresh(e) && fresh(e.rx) && WereSent(a[..i], h) && Reached(e, c, h, a[..i])
    {
      ReceiveOne(e, packets[a[i]], c, h, a[..i], a[i]);
      assert a[..i + 1] == a[..i] + [a[i]];
    }
    assert a[..|a|] == a;
    log := e.log;
    WhereReached(e, c, h, a);
  }

  lemma FirstReached(e: Endpoint, c: Config, h: History)
    requires ConfigOk(c) && WereSent([], h) && e.Valid()
    requires e.rx[..] == seq(16, _ => MISSING) && e.rxSeqNo == 0 && e.log == []
    ensures Reached(e, c, h, [])
  {
  }

  lemma WhereReached(e: Endpoint, c: Config, h: History, a: seq<nat>)
    requires ConfigOk(c) && WereSent(a, h) && Reached(e, c, h, a)
    ensures e.log == RunOf(c, h, a).log
  {
  }

  /** One endpoint sends `h`; of its packets, those numbered `a` reach another endpoint, in any order.  What
      that one hands on is what `RunOf` says, so that the results about runs are about it. */
  method Transfer(c: Config, h: History, a: seq<nat>) returns (log: seq<Delivery>)
    requires ConfigOk(c) && WereSent(a, h)
    ensures log == RunOf(c, h, a).log
    ensures !c.scheme.Fec? ==>
              && (NoneTwice(log) <==> AllApart(a, Repeats(c)))
              && (forall k :: Logged(log, k) <==> Brought(a, Repeats(c), k))
              && forall d :: d in log ==> 0 <= d.seqNo < |h| && d.msg == h[d.seqNo]
    ensures !c.scheme.Fec? && Arrivals(a, h) ==>
              (log == Range(h, 0, RunOf(c, h, a).next) <==> NoGap(a, Repeats(c)))
    ensures c.scheme.Fec? && Arrivals(a, h) ==>
              NoneTwice(log) && forall i :: 0 <= i < |a| ==> Logged(log, a[i])
    ensures c.scheme.Fec? && Arrivals(a, h) && ShortBursts(c, a) ==> Complete(log, h, RunOf(c, h, a).next)
  {
    assert c.scheme.Fec? ==> FecOk(c);
    hide ConfigOk, ShortBursts, Complete, RunOf, NoGap, Range, NoneTwice;
    hide Logged, ContentAt, Packet, AllApart, Brought, Arrivals;
    var packets := SendAll(c, h);
    log := ReceiveAll(c, packets, h, a);
    if !c.scheme.Fec? {
      AnyOrder(c, h, a);
      if Arrivals(a, h) { RedundancyRun(c, h, a); }
    } else if Arrivals(a, h) {
      FecDelivers(c, h, a);
      if ShortBursts(c, a) { FecComplete(c, h, a); }
    }
  }

  lemma FecDelivers(c: Config, h: History, a: seq<nat>)
    requires FecOk(c) && Arrivals(a, h)
    ensures NoneTwice(RunOf(c, h, a).log) && forall i :: 0 <= i < |a| ==> Logged(RunOf(c, h, a).log, a[i])
  {
    FecRun(c, h, a);
  }
}
