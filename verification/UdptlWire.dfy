/** The rules of section 9.1 of ITU-T T.38 that packets keep, stated about the octets and the messages
    themselves. */
module UdptlWire {
  import opened Bits
  import opened LengthCoding
  import opened Parity
  import opened UdptlPackets

  // ---------- octets ----------

  /** Section 10.9.3 of X.691: a length below 128 is one octet; one below 16384 is two, the first two bits of
      which are 10; a longer object is cut up, and the octet says into how many times 16384, at most four. */
  lemma LengthRule(n: nat)
    ensures n < 128 ==> LengthOctets(n) == [n]
    ensures 128 <= n < 16384 ==> LengthOctets(n) == [128 + n / 256, n % 256]
    ensures n >= 16384 ==> LengthOctets(n) == [192 + if n / 16384 < 4 then n / 16384 else 4]
    ensures Announced(n) == if n < 16384 then n else 16384 * if n / 16384 < 4 then n / 16384 else 4
  {
  }

  /** A message or a parity, which is never longer than 400 octets: its length and then itself. */
  lemma ObjectRule(d: Octets)
    requires Sendable(d)
    ensures OpenType(d) == (if |d| < 128 then [|d|] else [128 + |d| / 256, |d| % 256]) + d
    ensures OpenType([]) == [1, 0]
  {
    ShortOpenType(d);
    LengthRule(|d|);
    ShortOpenType([0]);
    LengthRule(1);
    assert OpenType([]) == OpenType([0]);
  }

  /** A longer object goes out in fragments; behind a last one that is full nothing follows. */
  lemma FragmentRule(d: Octets)
    requires |d| >= 16384
    ensures var k := 16384 * if |d| / 16384 < 4 then |d| / 16384 else 4;
            && 0 < k <= |d|
            && OpenType(d) == LengthOctets(|d|) + d[..k] + if k < |d| then OpenType(d[k..]) else []
  {
    hide LengthOctets;
    LengthRule(|d|);
  }

  /** Objects follow each other. */
  lemma {:induction false} ObjectsRule(objects: seq<Octets>, d: Octets)
    ensures OpenTypes([]) == [] && OpenTypes(objects + [d]) == OpenTypes(objects) + OpenType(d)
  {
    hide OpenType;
    if objects == [] {
      assert ([] + [d])[1..] == [] && ([] + [d])[0] == d;
    } else {
      ObjectsRule(objects[1..], d);
      assert (objects + [d])[1..] == objects[1..] + [d] && (objects + [d])[0] == objects[0];
      assert OpenType(objects[0]) + (OpenTypes(objects[1..]) + OpenType(d))
          == OpenType(objects[0]) + OpenTypes(objects[1..]) + OpenType(d);
    }
  }

  /** A packet: the sequence number, high octet first; the message; a zero, the number of secondary messages
      and those messages, or else the octets 128 and 1, the span, the number of parities, and the parities. */
  lemma PacketRule(c: Content)
    requires ContentOk(c)
    ensures c.WithSecondaries? ==>
              Packet(c) == [c.seqNo / 256, c.seqNo % 256] + OpenType(c.msg)
                           + [0, |c.secondaries|] + OpenTypes(c.secondaries)
    ensures c.WithParities? ==>
              Packet(c) == [c.seqNo / 256, c.seqNo % 256] + OpenType(c.msg)
                           + [128, 1, c.span, |c.parities|] + OpenTypes(c.parities)
  {
    hide OpenType, OpenTypes, Header, LengthOctets;
    HeaderRule(c.seqNo);
    match c
    case WithSecondaries(n, msg, secondaries) =>
      LengthRule(|secondaries|);
      assert [0] + [|secondaries|] == [0, |secondaries|];
      Grouped(Header(n), OpenType(msg), [0], [|secondaries|], OpenTypes(secondaries));
    case WithParities(n, msg, span, parities) =>
      GroupedShort(Header(n), OpenType(msg), [0x80, 1, span, |parities|], OpenTypes(parities));
  }

  lemma HeaderRule(n: nat)
    requires n < 0x1_0000
    ensures Header(n) == [n / 256, n % 256]
  {
  }

  lemma Grouped(a: Octets, b: Octets, c: Octets, d: Octets, e: Octets)
    ensures a + (b + (c + (d + e))) == a + b + (c + d) + e
  {
  }

  lemma GroupedShort(a: Octets, b: Octets, c: Octets, d: Octets)
    ensures a + (b + (c + d)) == a + b + c + d
  {
  }

  // ---------- what a packet carries ----------

  /** Packet `n` carries message `n`.  Without error correction there is nothing else; with redundancy the
      last messages before it, the latest first, as many as there are entries if there have been that many;
      with forward error correction one parity for each span of messages sent so far, but no more than there
      are entries, and the span, which is zero until there have been that many messages. */
  lemma ContentRule(c: Config, h: History, n: nat)
    requires ConfigOk(c) && n < |h| && n < 0x1_0000
    ensures ContentOk(ContentAt(c, h, n)) && ContentAt(c, h, n).seqNo == n && ContentAt(c, h, n).msg == h[n]
    ensures c.scheme.NoCorrection? ==> ContentAt(c, h, n).WithSecondaries? && ContentAt(c, h, n).secondaries == []
    ensures c.scheme.Redundancy? ==>
              var p := ContentAt(c, h, n);
              && p.WithSecondaries? && |p.secondaries| == (if n < c.entries then n else c.entries)
              && forall i :: 0 <= i < |p.secondaries| ==> p.secondaries[i] == h[n - 1 - i]
    ensures c.scheme.Fec? ==>
              var p := ContentAt(c, h, n);
              && p.WithParities? && p.span == (if n < c.span then 0 else c.span)
              && |p.parities| == if n / c.span < c.entries then n / c.span else c.entries
  {
    if c.scheme.Fec? {
      EntriesMeans(c, n);
      hide EntriesAt, SpanAt;
    }
  }

  /** Parity `m` of `e` is that of every `e`-th of the messages before packet `n`, as many as the span says,
      the last of them the one `e - m` messages ago. */
  lemma ParityRule(c: Config, h: History, n: nat, m: nat, g: seq<Octets>)
    requires ConfigOk(c) && c.scheme.Fec? && n < |h| && n < 0x1_0000 && m < |ContentAt(c, h, n).parities|
    requires var e := |ContentAt(c, h, n).parities|;
             && |g| == c.span
             && forall t :: 1 <= t <= c.span ==> 0 <= n + m - e * t < |h| && g[c.span - t] == h[n + m - e * t]
    ensures ContentAt(c, h, n).parities[m] == ParityOf(g)
  {
    WindUp(c, n);
    EntriesMeans(c, n);
    var e, s := EntriesAt(c, n), SpanAt(c, n);
    DivSmall(n, c.span);
    hide EntriesAt, SpanAt, ParityOf, Member;
    var group := GroupOf(h, n, s, e, m);
    forall i | 0 <= i < s
      ensures g[i] == group[i]
    {
      MemberIs(n, s, e, m, i);
      assert g[c.span - (s - i)] == h[n + m - e * (s - i)];
    }
    assert g == group;
  }

  lemma DivSmall(n: nat, d: nat)
    requires d > 0
    ensures n < d ==> n / d == 0
  {
  }

  lemma MemberIs(n: nat, s: nat, e: nat, m: nat, i: nat)
    requires m < e && i < s && e * s <= n
    ensures Member(n, s, e, m, i) == n + m - e * (s - i)
  {
  }

  // ---------- parities ----------

  /** Of how many messages bit `i` of octet `j` is set; they are taken to be followed by zeros. */
  function Count(g: seq<Octets>, j: nat, i: nat): (n: nat)
    requires i < 8
  {
    if g == [] then 0 else
    var d := g[|g| - 1];
    Count(g[..|g| - 1], j, i) + if j < |d| && LsbBits(d[j], 8)[i] then 1 else 0
  }

  /** A parity is as long as the longest message, and has just those bits set that are set in an odd number
      of messages. */
  lemma {:induction false} OddBits(g: seq<Octets>, j: nat, i: nat)
    requires i < 8
    ensures (forall d :: d in g ==> |d| <= |ParityOf(g)|) && (g != [] ==> exists d :: d in g && |d| == |ParityOf(g)|)
    ensures j < |ParityOf(g)| ==> (LsbBits(ParityOf(g)[j], 8)[i] <==> Count(g, j, i) % 2 == 1)
  {
    hide Xor, ParityOf, LsbBits;
    ParityIs(g, j);
    XorCounts(g, j, i);
  }

  lemma {:induction false} XorCounts(g: seq<Octets>, j: nat, i: nat)
    requires i < 8
    ensures LsbBits(XorAt(g, j), 8)[i] <==> Count(g, j, i) % 2 == 1
  {
    hide Xor, LsbBits;
    NoBits(i);
    if g != [] {
      XorCounts(g[..|g| - 1], j, i);
      XorBit(XorAt(g[..|g| - 1], j), At(g[|g| - 1], j), i);
    }
  }

  lemma NoBits(i: nat)
    requires i < 8
    ensures !LsbBits(0, 8)[i]
  {
    LsbOfZero(8);
  }

  lemma XorBit(a: byte, b: byte, i: nat)
    requires i < 8
    ensures LsbBits(Xor(a, b), 8)[i] == (LsbBits(a, 8)[i] != LsbBits(b, 8)[i])
  {
    XorBitAt(a, b, 8, i);
  }

  lemma {:induction false} XorBitAt(a: nat, b: nat, n: nat, i: nat)
    requires i < n
    ensures LsbBits(XorBits(a, b, n), n)[i] == (LsbBits(a, n)[i] != LsbBits(b, n)[i])
  {
    hide XorBits, LsbBits;
    XorBitsStep(a, b, n);
    OddSum(a, b);
    LsbStep(a, n, i);
    LsbStep(b, n, i);
    LsbStep(XorBits(a, b, n), n, i);
    if i > 0 {
      XorBitAt(a / 2, b / 2, n - 1, i - 1);
    }
  }

  lemma OddSum(a: nat, b: nat)
    ensures (a + b) % 2 == 1 <==> (a % 2 == 1) != (b % 2 == 1)
  {
  }

  lemma LsbStep(v: nat, n: nat, i: nat)
    requires i < n
    ensures LsbBits(v, n)[i] == if i == 0 then v % 2 == 1 else LsbBits(v / 2, n - 1)[i - 1]
  {
  }
}
