/** Which bursts of lost packets forward error correction makes up for. */
module UdptlBursts {
  import opened LengthCoding
  import opened Parity
  import opened UdptlPackets
  import opened UdptlRing
  import opened UdptlFec

  /** Packet `n` arrives after a burst of at most as many losses as it has parities, and all older
      messages that its parities cover are held. */
  ghost predicate ShortBurst(r: Ring, c: Config, h: History, next: nat, n: nat)
    requires FecOk(c)
  {
    && RingHolds(r, c, h, next) && next <= n < |h| && n < 0x1_0000
    && n - next <= Least(c.entries, n / c.span)
    && forall k :: n - Depth(c, n) <= k < next ==> r[Place(k)].msg != []
  }

  /** The last message of a group is the only one missing. */
  lemma OnlyLast(g: seq<Octets>)
    requires g != [] && g[|g| - 1] == [] && forall i :: 0 <= i < |g| - 1 ==> g[i] != []
    ensures LackingOf(g) == One(|g| - 1)
  {
    assert LackingOf(g[..|g| - 1]) == Nothing;
  }

  /** The ring just before anything is repaired: the burst is all that is missing. */
  lemma BurstMissing(r: Ring, c: Config, h: History, next: nat, n: nat, k: int)
    requires FecOk(c) && ShortBurst(r, c, h, next, n) && n - Depth(c, n) <= k < n
    ensures var mid := BeforeRepair(r, next, ContentAt(c, h, n));
            k > n - 16 && (if next <= k then mid[Place(k)] == MISSING else mid[Place(k)].msg != [])
  {
    hide ContentAt, Marked;
    DepthMonotone(c, n, n);
    PlaceDistinct(k, n);
    MarkedAt(r, next, n, k);
  }

  /** The last member of group `m` is the message `entries - m` before packet `n`; all its others are
      older than any message that a short burst can have lost. */
  lemma LastMember(n: nat, s: nat, e: nat, m: nat, i: nat)
    requires m < e && i < s && e * s <= n
    ensures i == s - 1 ==> Member(n, s, e, m, i) == n - e + m
    ensures i < s - 1 ==> Member(n, s, e, m, i) < n - e
  {
    if i < s - 1 {
      Below(e, s - 1, i);
      assert e * (s - i) == e * (s - 1 - i) + e;
    } else {
      assert e * (s - i) == e * 1;
    }
  }

  /** After `m` of the parities have been used, the members that those parities end with are there. */
  ghost predicate RepairedUpTo(r: Ring, mid: Ring, c: Config, h: History, next: nat, n: nat, m: nat)
    requires FecOk(c) && n < |h|
  {
    && m <= EntriesAt(c, n) && r[Place(n)] == mid[Place(n)]
    && forall k :: n - Depth(c, n) <= k < n ==>
         var x, i := Place(k), k - (n - EntriesAt(c, n));
         if k < next then r[x] == mid[x] && r[x].msg != []
         else 0 <= i < EntriesAt(c, n) && if i < m then |r[x].msg| == |ParitiesAt(c, h, n)[i]| > 0 else r[x].msg == []
  }

  lemma GroupOfBurst(r: Ring, mid: Ring, c: Config, h: History, next: nat, n: nat, m: nat)
    requires FecOk(c) && n < |h| && RepairedUpTo(r, mid, c, h, next, n, m) && m < EntriesAt(c, n)
    requires n - next <= EntriesAt(c, n)
    ensures var e, s := EntriesAt(c, n), SpanAt(c, n);
            && s > 0 && e * s <= n && n - Depth(c, n) <= n - e + m < n
            && GroupPlace(Place(n) + m, s, e, s - 1) == Place(n - e + m)
            && LackingOf(RingGroup(r, Place(n) + m, s, e)) == if next <= n - e + m then One(s - 1) else Nothing
  {
    hide EntriesAt, SpanAt, ParitiesAt;
    WindUp(c, n);
    var e, s := EntriesAt(c, n), SpanAt(c, n);
    var g := RingGroup(r, Place(n) + m, s, e);
    forall i | 0 <= i < s
      ensures g[i] == [] <==> i == s - 1 && next <= n - e + m
    {
      GroupPlaces(c, n, m, i);
      LastMember(n, s, e, m, i);
      assert g[i] == r[Place(Member(n, s, e, m, i))].msg;
    }
    GroupPlaces(c, n, m, s - 1);
    LastMember(n, s, e, m, s - 1);
    if next <= n - e + m {
      OnlyLast(g);
    }
  }

  lemma OneMoreRepaired(r: Ring, mid: Ring, c: Config, h: History, next: nat, n: nat, m: nat)
    requires FecOk(c) && n < |h| && RepairedUpTo(r, mid, c, h, next, n, m) && m < EntriesAt(c, n)
    requires n - next <= EntriesAt(c, n)
    requires var s := mid[Place(n)];
             s.parities == ParitiesAt(c, h, n) && s.span == SpanAt(c, n) && s.entries == EntriesAt(c, n)
    ensures RepairedUpTo(RepairGroup(r, Place(n), m), mid, c, h, next, n, m + 1)
  {
    hide EntriesAt, SpanAt, ParitiesAt, RingGroup, GroupPlace, Rebuilt, LackingOf;
    GroupOfBurst(r, mid, c, h, next, n, m);
    ParitiesSendable(c, h, n);
    DepthMonotone(c, n, n);
    var e := EntriesAt(c, n);
    var r' := RepairGroup(r, Place(n), m);
    assert Sendable(ParitiesAt(c, h, n)[m]);
    forall k | n - 16 < k <= n && k != n - e + m
      ensures r'[Place(k)] == r[Place(k)]
    {
      if k < n - e + m { PlaceDistinct(k, n - e + m); } else { PlaceDistinct(n - e + m, k); }
    }
  }

  /** The ring that a packet after a short burst finds: its own slot is filled in, and what is missing of
      the messages that its parities cover is the burst. */
  ghost predicate BurstOpen(mid: Ring, c: Config, h: History, next: nat, n: nat)
    requires FecOk(c) && n < |h|
  {
    && n - next <= EntriesAt(c, n)
    && mid[Place(n)] == Slot(h[n], ParitiesAt(c, h, n), SpanAt(c, n), EntriesAt(c, n))
    && forall k :: n - Depth(c, n) <= k < n ==> (mid[Place(k)].msg == [] <==> next <= k)
  }

  lemma BurstOpens(r: Ring, c: Config, h: History, next: nat, n: nat)
    requires FecOk(c) && ShortBurst(r, c, h, next, n)
    ensures BurstOpen(BeforeRepair(r, next, ContentAt(c, h, n)), c, h, next, n)
  {
    EntriesMeans(c, n);
    hide EntriesAt, Marked, ParitiesAt, SpanAt;
    var mid := BeforeRepair(r, next, ContentAt(c, h, n));
    forall k | n - Depth(c, n) <= k < n
      ensures mid[Place(k)].msg == [] <==> next <= k
    {
      BurstMissing(r, c, h, next, n, k);
    }
  }

  lemma {:induction false} BurstRepaired(mid: Ring, c: Config, h: History, next: nat, n: nat, m: nat)
    requires FecOk(c) && n < |h| && BurstOpen(mid, c, h, next, n) && m <= EntriesAt(c, n)
    ensures RepairedUpTo(RepairSlot(mid, Place(n), m), mid, c, h, next, n, m)
  {
    hide RepairedUpTo, RepairGroup, ParitiesAt, EntriesAt, SpanAt;
    if m == 0 {
      NothingRepaired(mid, c, h, next, n);
    } else {
      BurstRepaired(mid, c, h, next, n, m - 1);
      OneMoreRepaired(RepairSlot(mid, Place(n), m - 1), mid, c, h, next, n, m - 1);
    }
  }

  lemma NothingRepaired(mid: Ring, c: Config, h: History, next: nat, n: nat)
    requires FecOk(c) && n < |h| && BurstOpen(mid, c, h, next, n)
    ensures RepairedUpTo(mid, mid, c, h, next, n, 0)
  {
    hide EntriesAt;
  }

  // ---------- what is delivered then ----------

  lemma {:induction false} RegainedSplit(before: Ring, after: Ring, lo: int, mid: int, hi: int)
    requires lo <= mid <= hi
    ensures Regained(before, after, lo, hi) == Regained(before, after, lo, mid) + Regained(before, after, mid, hi)
    decreases hi - mid
  {
    if mid < hi {
      RegainedSplit(before, after, lo, mid, hi - 1);
    }
  }

  lemma {:induction false} RegainedWithin(before: Ring, after: Ring, lo: int, hi: int)
    ensures forall d :: d in Regained(before, after, lo, hi) ==> lo <= d.seqNo < hi
    decreases hi - lo
  {
    if lo < hi {
      RegainedWithin(before, after, lo, hi - 1);
    }
  }

  lemma {:induction false} NothingRegained(before: Ring, after: Ring, lo: int, hi: int)
    requires forall k :: lo <= k < hi ==> before[Place(k)].msg != [] || after[Place(k)].msg == []
    ensures Regained(before, after, lo, hi) == []
    decreases hi - lo
  {
    if lo < hi {
      NothingRegained(before, after, lo, hi - 1);
    }
  }

  lemma {:induction false} AllRegained(before: Ring, after: Ring, lo: int, hi: int)
    requires lo <= hi && forall k :: lo <= k < hi ==> before[Place(k)].msg == [] && after[Place(k)].msg != []
    ensures var d := Regained(before, after, lo, hi);
            |d| == hi - lo && forall i :: 0 <= i < |d| ==> d[i] == Delivery(lo + i, after[Place(lo + i)].msg)
    decreases hi - lo
  {
    if lo < hi {
      AllRegained(before, after, lo, hi - 1);
    }
  }

  /** The parity that covers the `i`-th message of a burst that ends just before packet `n`. */
  function CoveringGroup(c: Config, h: History, next: nat, n: nat, i: nat): seq<Octets>
    requires FecOk(c) && next <= n <= |h| && n - next <= EntriesAt(c, n) && i < n - next
  {
    WindUp(c, n);
    GroupOf(h, n, SpanAt(c, n), EntriesAt(c, n), EntriesAt(c, n) - (n - next) + i)
  }

  lemma CoveringParity(c: Config, h: History, next: nat, n: nat, k: nat)
    requires FecOk(c) && next <= k < n <= |h| && n - next <= EntriesAt(c, n)
    ensures ParitiesAt(c, h, n)[k - (n - EntriesAt(c, n))] == ParityOf(CoveringGroup(c, h, next, n, k - next))
  {
    WindUp(c, n);
  }

  /** Once the packet itself has been used, everything its parities cover is there. */
  lemma BurstFirst(mid: Ring, c: Config, h: History, next: nat, n: nat, k: int)
    requires FecOk(c) && n < |h| && BurstOpen(mid, c, h, next, n) && n - Depth(c, n) <= k < n
    ensures var first := RepairSlot(mid, Place(n), |mid[Place(n)].parities|);
            && first[Place(k)].msg != []
            && (k >= next ==> |first[Place(k)].msg| == |ParityOf(CoveringGroup(c, h, next, n, k - next))|)
  {
    hide RepairSlot, EntriesAt, ParitiesAt, CoveringGroup, ParityOf, Depth, SpanAt, ConfigOk, RepairedUpTo;
    BurstRepaired(mid, c, h, next, n, EntriesAt(c, n));
    RepairedAt(RepairSlot(mid, Place(n), EntriesAt(c, n)), mid, c, h, next, n, k);
    if k >= next { CoveringParity(c, h, next, n, k); }
  }

  lemma RepairedAt(r: Ring, mid: Ring, c: Config, h: History, next: nat, n: nat, k: int)
    requires FecOk(c) && n < |h| && RepairedUpTo(r, mid, c, h, next, n, EntriesAt(c, n)) && n - Depth(c, n) <= k < n
    ensures r[Place(k)].msg != []
    ensures k >= next ==> 0 <= k - (n - EntriesAt(c, n)) < EntriesAt(c, n)
                          && |r[Place(k)].msg| == |ParitiesAt(c, h, n)[k - (n - EntriesAt(c, n))]|
  {
    hide EntriesAt, ParitiesAt, Depth;
  }

  /** ... and stays there. */
  lemma BurstStays(mid: Ring, c: Config, h: History, next: nat, n: nat, k: int)
    requires FecOk(c) && n < |h| && BurstOpen(mid, c, h, next, n) && n - Depth(c, n) <= k < n
    ensures var after := RepairAll(mid, n, Reach(Depth(c, n)));
            && after[Place(k)].msg != []
            && (k >= next ==> |after[Place(k)].msg| == |ParityOf(CoveringGroup(c, h, next, n, k - next))|)
  {
    BurstFirst(mid, c, h, next, n, k);
    DepthMonotone(c, n, n);
    hide RepairSlot, RepairAll, EntriesAt, ParitiesAt, CoveringGroup, ParityOf, Depth, SpanAt, ConfigOk;
    FirstRepair(mid, n, Reach(Depth(c, n)));
  }

  lemma ContentDepth(r: Ring, c: Config, h: History, next: nat, n: nat)
    requires FecOk(c) && n < |h| && n < 0x1_0000
    ensures var p := ContentAt(c, h, n);
            AfterFec(r, next, p) == RepairAll(BeforeRepair(r, next, p), n, Reach(Depth(c, n)))
  {
    hide RepairAll, Marked, ParitiesAt, EntriesAt, SpanAt;
    WindUp(c, n);
    assert |ParitiesAt(c, h, n)| == EntriesAt(c, n);
  }

  /** What the packet itself repairs stays. */
  lemma FirstRepair(r: Ring, x: int, n: nat)
    requires n > 0
    ensures var first := RepairSlot(r, Place(x), |r[Place(x)].parities|);
            forall y :: 0 <= y < 16 && first[y].msg != [] ==> RepairAll(r, x, n)[y] == first[y]
  {
  }

  /** A parity of slot `l` that lacks just one message of its group is used. */
  lemma {:induction false} SlotUsed(r: Ring, l: nat, m: nat, n: nat, i: nat)
    requires l < 16 && SlotFits(r[l]) && m < n <= |r[l].parities|
    requires LackingOf(RingGroup(r, l + m, r[l].span, r[l].entries)) == One(i)
    ensures RepairSlot(r, l, n)[GroupPlace(l + m, r[l].span, r[l].entries, i)].msg != []
  {
    hide LackingOf, Rebuilt, Place, GroupPlace;
    if m < n - 1 {
      SlotUsed(r, l, m, n - 1, i);
    } else {
      var mid := RepairSlot(r, l, m);
      assert mid[l] == r[l].(msg := mid[l].msg) && r[l].parities[m] != [];
      StillLacking(r, mid, l + m, r[l].span, r[l].entries, i);
    }
  }

  /** The group lacks that message still, unless it has been regained. */
  lemma StillLacking(r: Ring, mid: Ring, limit: int, s: nat, e: nat, i: nat)
    requires LackingOf(RingGroup(r, limit, s, e)) == One(i)
    requires forall x :: 0 <= x < 16 && r[x].msg != [] ==> mid[x] == r[x]
    ensures mid[GroupPlace(limit, s, e, i)].msg != [] || LackingOf(RingGroup(mid, limit, s, e)) == One(i)
  {
    hide LackingOf, Place, GroupPlace;
    var g, g' := RingGroup(r, limit, s, e), RingGroup(mid, limit, s, e);
    forall k | 0 <= k < s && k != i
      ensures g'[k] != []
    {
      assert g[k] != [] && g[k] == r[GroupPlace(limit, s, e, k)].msg;
    }
    assert g'[i] == mid[GroupPlace(limit, s, e, i)].msg;
  }

  /** Every parity at hand is used: if message `k` is the only one missing of a group of which a parity is in
      one of the slots looked at, it is there afterwards. */
  lemma {:induction false} AllUsed(r: Ring, x: int, n: nat, y: int, m: nat, i: nat)
    requires RingFits(r) && x - n < y <= x && m < |r[Place(y)].parities|
    requires var s := r[Place(y)]; LackingOf(RingGroup(r, Place(y) + m, s.span, s.entries)) == One(i)
    ensures var s := r[Place(y)]; RepairAll(r, x, n)[GroupPlace(Place(y) + m, s.span, s.entries, i)].msg != []
    decreases n
  {
    hide LackingOf, RingGroup, Place, GroupPlace, RepairSlot;
    var s := r[Place(y)];
    var mid := RepairSlot(r, Place(x), |r[Place(x)].parities|);
    if y == x {
      SlotUsed(r, Place(y), m, |s.parities|, i);
    } else {
      assert mid[Place(y)] == s.(msg := mid[Place(y)].msg);
      StillLacking(r, mid, Place(y) + m, s.span, s.entries, i);
      FitsToo(r, mid);
      if mid[GroupPlace(Place(y) + m, s.span, s.entries, i)].msg == [] {
        AllUsed(mid, x - 1, n - 1, y, m, i);
      }
    }
  }

  lemma FitsToo(r: Ring, mid: Ring)
    requires RingFits(r) && forall x :: 0 <= x < 16 ==> mid[x] == r[x].(msg := mid[x].msg)
    ensures RingFits(mid)
  {
    forall x | 0 <= x < 16
      ensures SlotFits(mid[x])
    {
      assert SlotFits(r[x]) && mid[x] == r[x].(msg := mid[x].msg);
    }
  }

  /** When packet `n` has been taken in, its parities reach back `d` messages and are used, and so are those of
      the packets before it, back to packet `n - 15 + d`: a message that is the only one missing of a group of
      which such a packet has brought a parity is there afterwards. */
  lemma EveryParity(r: Ring, next: int, p: Content, y: int, m: nat, i: nat)
    requires p.WithParities? && 0 < p.span * |p.parities| <= 15 && RingFits(BeforeRepair(r, next, p))
    requires p.seqNo - 15 + p.span * |p.parities| <= y <= p.seqNo
    requires m < |BeforeRepair(r, next, p)[Place(y)].parities|
    requires var s := BeforeRepair(r, next, p)[Place(y)];
             LackingOf(RingGroup(BeforeRepair(r, next, p), Place(y) + m, s.span, s.entries)) == One(i)
    ensures var s := BeforeRepair(r, next, p)[Place(y)];
            AfterFec(r, next, p)[GroupPlace(Place(y) + m, s.span, s.entries, i)].msg != []
  {
    hide RepairAll, LackingOf, RingGroup, Place, GroupPlace, RingFits, Marked, BeforeRepair;
    AllUsed(BeforeRepair(r, next, p), p.seqNo, 16 - p.span * |p.parities|, y, m, i);
  }

  lemma HeldThere(r: Ring, c: Config, h: History, next: nat, k: nat)
    requires FecOk(c) && RingHolds(r, c, h, next) && next - 16 <= k < next && r[Place(k)].msg != []
    ensures Extends(r[Place(k)].msg, h[k])
  {
    assert SlotHolds(r[Place(k)], c, h, k);
  }

  /** What has become of the burst once the packet has been taken in. */
  ghost predicate BurstClosed(mid: Ring, after: Ring, c: Config, h: History, next: nat, n: nat)
    requires FecOk(c) && n < |h|
  {
    && RingHolds(after, c, h, n + 1)
    && n - next <= EntriesAt(c, n) && n - 15 <= n - Depth(c, n) <= next <= n
    && forall k :: n - Depth(c, n) <= k < n ==>
         && (mid[Place(k)].msg == [] <==> next <= k) && after[Place(k)].msg != []
         && (next <= k ==> |after[Place(k)].msg| == |ParityOf(CoveringGroup(c, h, next, n, k - next))|)
  }

  /** The deliveries that make up for a burst. */
  ghost predicate MakesUpFor(burst: seq<Delivery>, c: Config, h: History, next: nat, n: nat)
    requires FecOk(c) && next <= n < |h| && n - next <= EntriesAt(c, n)
  {
    && |burst| == n - next
    && forall i :: 0 <= i < |burst| ==>
         && burst[i].seqNo == next + i && Extends(burst[i].msg, h[next + i])
         && |burst[i].msg| == |ParityOf(CoveringGroup(c, h, next, n, i))|
  }

  lemma BurstCloses(r: Ring, c: Config, h: History, next: nat, n: nat)
    requires FecOk(c) && ShortBurst(r, c, h, next, n)
    ensures var p := ContentAt(c, h, n);
            BurstClosed(BeforeRepair(r, next, p), AfterFec(r, next, p), c, h, next, n)
  {
    EntriesMeans(c, n);
    BurstOpens(r, c, h, next, n);
    PacketHolds(r, c, h, next, n);
    ContentDepth(r, c, h, next, n);
    DepthMonotone(c, n, n);
    WindUp(c, n);
    hide BeforeRepair, AfterFec, RepairAll, EntriesAt, SpanAt, ParitiesAt, ParityOf;
    hide ContentAt, Depth, CoveringGroup, RingHolds, ConfigOk;
    var mid := BeforeRepair(r, next, ContentAt(c, h, n));
    DepthCovers(c, n);
    forall k: int | n - Depth(c, n) <= k < n
      ensures RepairAll(mid, n, Reach(Depth(c, n)))[Place(k)].msg != []
      ensures k >= next ==> |RepairAll(mid, n, Reach(Depth(c, n)))[Place(k)].msg|
                            == |ParityOf(CoveringGroup(c, h, next, n, k - next))|
    {
      BurstStays(mid, c, h, next, n, k);
    }
  }

  lemma DepthCovers(c: Config, n: nat)
    requires FecOk(c)
    ensures EntriesAt(c, n) <= Depth(c, n) <= 15
  {
    WindUp(c, n);
    DepthMonotone(c, n, n);
    if EntriesAt(c, n) > 0 {
      Times(EntriesAt(c, n), 1, SpanAt(c, n));
    }
  }

  /** Where no slot was missing nothing is regained. */
  lemma RegainedAround(before: Ring, after: Ring, lo: int, mid: int, next: int, hi: int)
    requires lo <= mid <= next <= hi && forall k :: mid <= k < next ==> before[Place(k)].msg != []
    ensures Regained(before, after, lo, hi) == Regained(before, after, lo, mid) + Regained(before, after, next, hi)
  {
    hide Regained, Place;
    RegainedSplit(before, after, lo, mid, hi);
    RegainedSplit(before, after, mid, next, hi);
    NothingRegained(before, after, mid, next);
  }

  lemma RegainedBurst(mid: Ring, after: Ring, c: Config, h: History, next: nat, n: nat)
    returns (older: seq<Delivery>, burst: seq<Delivery>)
    requires FecOk(c) && n < |h| && BurstClosed(mid, after, c, h, next, n)
    ensures Regained(mid, after, n - 15, n) == older + burst
    ensures older == Regained(mid, after, n - 15, n - Depth(c, n))
    ensures forall d :: d in older ==> d.seqNo < n - Depth(c, n)
    ensures MakesUpFor(burst, c, h, next, n)
  {
    hide Regained, EntriesAt, Depth, ParityOf, CoveringGroup, RingHolds, Extends, ConfigOk, SpanAt, Place;
    var lo := n - Depth(c, n);
    older := Regained(mid, after, n - 15, lo);
    RegainedWithin(mid, after, n - 15, lo);
    RegainedAround(mid, after, n - 15, lo, next, n);
    burst := Regained(mid, after, next, n);
    AllRegained(mid, after, next, n);
    forall i | 0 <= i < |burst|
      ensures Extends(burst[i].msg, h[next + i])
    {
      HeldThere(after, c, h, n + 1, next + i);
    }
  }

  /** When the first packet after a short burst arrives, the messages of all lost packets are delivered,
      in order and under their own numbers, before the message of that packet: each with zeros added up
      to the longest message of its group.  Older messages that had been given up may come first. */
  lemma BurstRecovered(r: Ring, c: Config, h: History, next: nat, n: nat)
    returns (older: seq<Delivery>, burst: seq<Delivery>)
    requires FecOk(c) && ShortBurst(r, c, h, next, n)
    ensures var p := ContentAt(c, h, n);
            && Delivered(r, next, p) == older + burst + [Delivery(n, h[n])]
            && older == Regained(BeforeRepair(r, next, p), AfterFec(r, next, p), n - 15, n - Depth(c, n))
    ensures forall d :: d in older ==> d.seqNo < n - Depth(c, n)
    ensures (EntriesMeans(c, n); MakesUpFor(burst, c, h, next, n))
  {
    hide Regained, EntriesAt, Depth, MakesUpFor, RingHolds, BurstClosed, ContentAt, AfterFec, BeforeRepair;
    BurstCloses(r, c, h, next, n);
    var p := ContentAt(c, h, n);
    older, burst := RegainedBurst(BeforeRepair(r, next, p), AfterFec(r, next, p), c, h, next, n);
  }
}
