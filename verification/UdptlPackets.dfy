/** What a UDPTL packet carries (section 9.1 of ITU-T T.38): a sequence number, a message, and either the
    messages before it or the parities of groups of them. */
module UdptlPackets {
  import opened LengthCoding
  import opened Parity

  const MAX_DATAGRAM := 400

  datatype Scheme = NoCorrection | Redundancy | Fec

  /** Parameters of a session.  A larger number of entries or a larger span does not fit into the rings of
      sixteen messages. */
  datatype Config = Config(scheme: Scheme, span: nat, entries: nat)

  predicate ConfigOk(c: Config) {
    match c.scheme
    case NoCorrection => true
    case Redundancy => c.entries <= 15
    case Fec => c.span >= 1 && 1 <= c.entries <= 5 && c.span * c.entries <= 15
  }

  datatype Content =
    | WithSecondaries(seqNo: nat, msg: Octets, secondaries: seq<Octets>)
    | WithParities(seqNo: nat, msg: Octets, span: nat, parities: seq<Octets>)

  /** A message or a parity that can be sent. */
  predicate Sendable(d: Octets) {
    1 <= |d| <= MAX_DATAGRAM
  }

  predicate AllSendable(g: seq<Octets>) {
    forall i :: 0 <= i < |g| ==> Sendable(g[i])
  }

  predicate ContentOk(c: Content) {
    && c.seqNo < 0x1_0000 && Sendable(c.msg)
    && match c
       case WithSecondaries(_, _, secondaries) => |secondaries| <= 15 && AllSendable(secondaries)
       case WithParities(_, _, span, parities) =>
         span <= 15 && |parities| <= 5 && span * |parities| <= 15 && AllSendable(parities)
  }

  /** The octets of a packet behind its message. */
  function Recovery(c: Content): Octets
    requires ContentOk(c)
  {
    match c
    case WithSecondaries(_, _, secondaries) => [0x00] + (LengthOctets(|secondaries|) + OpenTypes(secondaries))
    case WithParities(_, _, span, parities) => [0x80, 1, span, |parities|] + OpenTypes(parities)
  }

  function Header(n: nat): Octets {
    [n / 256 % 256, n % 256]
  }

  function Packet(c: Content): Octets
    requires ContentOk(c)
  {
    Header(c.seqNo) + (OpenType(c.msg) + Recovery(c))
  }

  // ---------- what the sender puts into packet n ----------

  /** The messages sent so far, in order. */
  type History = h: seq<Octets> | AllSendable(h) witness []

  function Least(a: nat, b: nat): (k: nat)
    ensures k <= a && k <= b && (k == a || k == b)
  {
    if a < b then a else b
  }

  /** How many parities packet `n` carries: fewer while there are not enough messages yet. */
  function EntriesAt(c: Config, n: nat): nat
    requires c.span >= 1
  {
    if n < c.span * c.entries then n / c.span else c.entries
  }

  function SpanAt(c: Config, n: nat): nat {
    if n < c.span * c.entries && n < c.span then 0 else c.span
  }

  lemma Below(e: nat, s: nat, i: nat)
    requires i < s && e > 0
    ensures e <= e * (s - i) <= e * s
  {
    assert e * (s - i) == e * s - e * i;
    assert e * (s - i) == e * (s - i - 1) + e;
  }

  /** Of the `s` messages in parity `m` of packet `n`, the one that comes `i`-th: every `e`-th message,
      up to the one `e - m` messages ago. */
  function Member(n: nat, s: nat, e: nat, m: nat, i: nat): (k: nat)
    requires m < e && i < s && e * s <= n
    ensures n - e * s <= k < n
  {
    Below(e, s, i);
    n + m - e * (s - i)
  }

  function GroupOf(h: History, n: nat, s: nat, e: nat, m: nat): (g: seq<Octets>)
    requires m < e && e * s <= n <= |h|
    ensures |g| == s && AllSendable(g)
  {
    seq(s, i requires 0 <= i < s => h[Member(n, s, e, m, i)])
  }

  /** In the beginning parities reach back no further than the first message. */
  lemma WindUp(c: Config, n: nat)
    requires ConfigOk(c) && c.scheme.Fec?
    ensures var e, s := EntriesAt(c, n), SpanAt(c, n);
            && e <= c.entries && e * s <= n && e * s <= c.span * c.entries && (e > 0 ==> s > 0)
            && (n >= c.span * c.entries ==> e == c.entries && s == c.span)
  {
    if n < c.span * c.entries {
      DivBelow(n, c.span, c.entries);
    }
  }

  /** One parity for each span of messages sent, but no more than there are entries; the span is left out
      until there have been that many messages. */
  lemma EntriesMeans(c: Config, n: nat)
    requires ConfigOk(c) && c.scheme.Fec?
    ensures EntriesAt(c, n) == Least(c.entries, n / c.span) && SpanAt(c, n) == if n < c.span then 0 else c.span
  {
    DivAbove(n, c.span, c.entries);
    if n < c.span * c.entries { DivBelow(n, c.span, c.entries); }
  }

  lemma DivAbove(n: nat, d: nat, e: nat)
    requires 0 < d
    ensures d * e <= n ==> e <= n / d
    ensures e > 0 && n < d ==> n < d * e
  {
    Quotient(n, d);
    if d * e <= n { LargerFactor(d, n / d, e); }
    if e > 0 { Times(d, 1, e); }
  }

  lemma LargerFactor(d: nat, q: nat, e: nat)
    requires d * e < d * q + d
    ensures e <= q
  {
    if q < e {
      Times(d, q + 1, e);
      Times(d, q, e);
    }
  }

  lemma Quotient(j: nat, d: nat)
    requires d > 0
    ensures d * (j / d) <= j < d * (j / d) + d
  {
  }

  lemma Times(d: nat, a: nat, b: nat)
    requires a <= b
    ensures d * a <= d * b && d * (a + 1) == d * a + d
  {
    assert d * b == d * a + d * (b - a);
  }

  lemma DivBelow(n: nat, d: nat, e: nat)
    requires 0 < d && n < d * e
    ensures n / d < e && n / d * d <= n && (n < d ==> n / d == 0)
  {
  }

  function ParitiesAt(c: Config, h: History, n: nat): (p: seq<Octets>)
    requires ConfigOk(c) && c.scheme.Fec? && n <= |h|
    ensures |p| == EntriesAt(c, n)
  {
    WindUp(c, n);
    var e, s := EntriesAt(c, n), SpanAt(c, n);
    seq(e, m requires 0 <= m < e => ParityOf(GroupOf(h, n, s, e, m)))
  }

  /** Packet `n`. */
  function ContentAt(c: Config, h: History, n: nat): (p: Content)
    requires ConfigOk(c) && n < |h| && n < 0x1_0000
    ensures ContentOk(p) && p.seqNo == n && p.msg == h[n]
    ensures p.WithParities? <==> c.scheme.Fec?
  {
    match c.scheme
    case NoCorrection => WithSecondaries(n, h[n], [])
    case Redundancy => WithSecondaries(n, h[n], seq(Least(n, c.entries), i requires 0 <= i < n => h[n - 1 - i]))
    case Fec =>
      WindUp(c, n);
      ParitiesSendable(c, h, n);
      SpanSmall(c);
      WithParities(n, h[n], SpanAt(c, n), ParitiesAt(c, h, n))
  }

  lemma SpanSmall(c: Config)
    requires ConfigOk(c) && c.scheme.Fec?
    ensures c.span <= 15
  {
  }

  lemma ParitySendable(g: seq<Octets>)
    requires AllSendable(g) && g != []
    ensures Sendable(ParityOf(g))
  {
    ParityIs(g, 0);
    assert g[0] in g;
  }

  lemma ParitiesSendable(c: Config, h: History, n: nat)
    requires ConfigOk(c) && c.scheme.Fec? && n <= |h|
    ensures AllSendable(ParitiesAt(c, h, n))
  {
    WindUp(c, n);
    var e, s := EntriesAt(c, n), SpanAt(c, n);
    forall m | 0 <= m < e
      ensures Sendable(ParitiesAt(c, h, n)[m])
    {
      ParitySendable(GroupOf(h, n, s, e, m));
    }
  }
}
