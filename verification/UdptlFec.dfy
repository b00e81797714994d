/** Forward error correction: what the ring holds over a whole run, and which bursts of losses are
    repaired. */
module UdptlFec {
  import opened Parity
  import opened UdptlPackets
  import opened UdptlRing

  ghost predicate FecOk(c: Config) {
    ConfigOk(c) && c.scheme.Fec? && c.span >= 1
  }

  /** How far back the parities of packet `n` reach. */
  function Depth(c: Config, n: nat): nat
    requires c.span >= 1
  {
    SpanAt(c, n) * EntriesAt(c, n)
  }

  /** The slot of message `k` is marked missing or holds exactly that message, perhaps followed by zeros,
      and has no parities or those of packet `k`. */
  ghost predicate SlotHolds(s: Slot, c: Config, h: History, k: int)
    requires FecOk(c) && k < |h|
  {
    if k < 0 then s == MISSING else
    && (s.msg == [] || Extends(s.msg, h[k]))
    && (s.parities == []
        || (s.parities == ParitiesAt(c, h, k) && s.span == SpanAt(c, k) && s.entries == EntriesAt(c, k)))
  }

  /** The ring holds what it should of the last sixteen messages before `next`. */
  ghost predicate RingHolds(r: Ring, c: Config, h: History, next: nat)
    requires FecOk(c)
  {
    next <= |h| && forall k :: next - 16 <= k < next ==> SlotHolds(r[Place(k)], c, h, k)
  }

  lemma InitiallyHolds(c: Config, h: History)
    requires FecOk(c)
    ensures RingHolds(seq(16, _ => MISSING), c, h, 0)
  {
  }

  /** A slot is replaced by a good one. */
  lemma SlotReplaced(r: Ring, c: Config, h: History, next: nat, k: int, s: Slot)
    requires FecOk(c) && RingHolds(r, c, h, next) && next - 16 <= k < next && SlotHolds(s, c, h, k)
    ensures RingHolds(r[Place(k) := s], c, h, next)
  {
    forall j | next - 16 <= j < next
      ensures SlotHolds(r[Place(k) := s][Place(j)], c, h, j)
    {
      if j < k { PlaceDistinct(j, k); }
      if k < j { PlaceDistinct(k, j); }
    }
  }

  /** The slot of the next message is taken over from the message sixteen before it. */
  lemma SlotTakenOver(r: Ring, c: Config, h: History, next: nat, s: Slot)
    requires FecOk(c) && RingHolds(r, c, h, next) && next < |h| && SlotHolds(s, c, h, next)
    ensures RingHolds(r[Place(next) := s], c, h, next + 1)
  {
    forall j | next - 15 <= j < next + 1
      ensures SlotHolds(r[Place(next) := s][Place(j)], c, h, j)
    {
      if j < next { PlaceDistinct(j, next); }
    }
  }

  lemma {:induction false} MarkedHolds(r: Ring, c: Config, h: History, next: nat, n: nat)
    requires FecOk(c) && RingHolds(r, c, h, next) && next <= n <= |h|
    ensures RingHolds(Marked(r, next, n), c, h, n)
  {
    if next < n {
      MarkedHolds(r, c, h, next, n - 1);
      SlotTakenOver(Marked(r, next, n - 1), c, h, n - 1, MISSING);
    }
  }

  lemma SavedHolds(r: Ring, c: Config, h: History, next: nat, n: nat)
    requires FecOk(c) && RingHolds(r, c, h, next) && n < |h| && n < 0x1_0000 && next <= n + 1
    ensures RingHolds(BeforeRepair(r, next, ContentAt(c, h, n)), c, h, n + 1)
  {
    var p := ContentAt(c, h, n);
    var s := Slot(p.msg, p.parities, p.span, |p.parities|);
    assert SlotHolds(s, c, h, n);
    if next == n + 1 {
      SlotReplaced(r, c, h, next, n, s);
    } else {
      MarkedHolds(r, c, h, next, n);
      SlotTakenOver(Marked(r, next, n), c, h, n, s);
    }
  }

  // ---------- repairing keeps the ring good ----------

  lemma DepthBounds(c: Config, n: nat)
    requires FecOk(c)
    ensures c.span >= 1 && Depth(c, n) <= c.span * c.entries <= 15 && Depth(c, n) <= n
    ensures n >= c.span * c.entries ==> Depth(c, n) == c.span * c.entries
    ensures n < c.span * c.entries ==> Depth(c, n) == if n < c.span then 0 else c.span * (n / c.span)
  {
    WindUp(c, n);
  }

  lemma DepthMonotone(c: Config, j: nat, k: nat)
    requires FecOk(c) && j <= k
    ensures Depth(c, j) <= Depth(c, k) <= 15 && Depth(c, k) <= k
  {
    hide ConfigOk;
    DepthBounds(c, j);
    DepthBounds(c, k);
    if k < c.span * c.entries && k >= c.span && j >= c.span {
      DivMonotone(j, k, c.span);
    }
  }

  lemma DivMonotone(j: nat, k: nat, d: nat)
    requires 0 < d && j <= k
    ensures d * (j / d) <= d * (k / d)
  {
    Quotient(j, d);
    Quotient(k, d);
    Between(d, j / d, k / d, j, k);
  }

  lemma Between(d: nat, q: nat, q': nat, j: nat, k: nat)
    requires d * q <= j <= k < d * q' + d
    ensures d * q <= d * q'
  {
    LargerFactor(d, q', q);
    Times(d, q, q');
  }

  lemma MemberPlace(n: nat, s: nat, e: nat, m: nat, i: nat)
    requires m < e && i < s && e * s <= n
    ensures GroupPlace(Place(n) + m, s, e, i) == Place(Member(n, s, e, m, i))
  {
    hide Place;
    var d := e * (s - i);
    PlaceSum(n, m - d);
    assert Place(n) + m - d == Place(n) + (m - d) && n + m - d == n + (m - d);
  }

  /** The slots of a group are those of its members, all of them before the packet with its parity. */
  lemma GroupPlaces(c: Config, n: nat, m: nat, i: nat)
    requires FecOk(c) && m < EntriesAt(c, n) && i < SpanAt(c, n)
    ensures EntriesAt(c, n) * SpanAt(c, n) <= n
    ensures var e, s := EntriesAt(c, n), SpanAt(c, n);
            && n - Depth(c, n) <= Member(n, s, e, m, i) < n
            && GroupPlace(Place(n) + m, s, e, i) == Place(Member(n, s, e, m, i))
  {
    WindUp(c, n);
    hide EntriesAt, SpanAt;
    MemberPlace(n, SpanAt(c, n), EntriesAt(c, n), m, i);
  }

  /** What the ring holds of a group. */
  lemma GroupHeld(r: Ring, c: Config, h: History, next: nat, n: nat, m: nat)
    requires FecOk(c) && RingHolds(r, c, h, next) && n < next && next - 16 <= n - Depth(c, n)
    requires m < EntriesAt(c, n)
    ensures EntriesAt(c, n) * SpanAt(c, n) <= n
    ensures var e, s := EntriesAt(c, n), SpanAt(c, n);
            var g := RingGroup(r, Place(n) + m, s, e);
            forall i :: 0 <= i < s ==> g[i] == [] || Extends(g[i], GroupOf(h, n, s, e, m)[i])
  {
    WindUp(c, n);
    var e, s := EntriesAt(c, n), SpanAt(c, n);
    var g := RingGroup(r, Place(n) + m, s, e);
    forall i | 0 <= i < s
      ensures g[i] == [] || Extends(g[i], GroupOf(h, n, s, e, m)[i])
    {
      GroupPlaces(c, n, m, i);
      assert SlotHolds(r[Place(Member(n, s, e, m, i))], c, h, Member(n, s, e, m, i));
    }
  }

  /** Using one parity: the slot of message `n` serves to repair another one, if only that one of its
      group is missing. */
  lemma GroupRepaired(r: Ring, c: Config, h: History, next: nat, n: nat, m: nat)
    requires FecOk(c) && RingHolds(r, c, h, next) && n < next && next - 16 <= n - Depth(c, n)
    requires m < |r[Place(n)].parities|
    ensures RingHolds(RepairGroup(r, Place(n), m), c, h, next)
  {
    hide ParityOf, XorAt, Extends;
    assert SlotHolds(r[Place(n)], c, h, n);
    var e, s := EntriesAt(c, n), SpanAt(c, n);
    GroupHeld(r, c, h, next, n, m);
    var g := RingGroup(r, Place(n) + m, s, e);
    match LackingOf(g) {
      case One(i) =>
        GroupPlaces(c, n, m, i);
        var k := Member(n, s, e, m, i);
        var sent := GroupOf(h, n, s, e, m);
        var p := r[Place(n)].parities[m];
        assert p == ParityOf(sent);
        Repairs(g, sent, i, Rebuilt(p, g));
        SlotReplaced(r, c, h, next, k, r[Place(k)].(msg := Rebuilt(p, g)));
      case _ =>
    }
  }

  lemma {:induction false} SlotRepaired(r: Ring, c: Config, h: History, next: nat, n: nat, m: nat)
    requires FecOk(c) && RingHolds(r, c, h, next) && n < next && next - 16 <= n - Depth(c, n)
    requires m <= |r[Place(n)].parities|
    ensures RingHolds(RepairSlot(r, Place(n), m), c, h, next)
  {
    hide RingHolds, Depth, ConfigOk, RepairGroup, Place;
    if m > 0 {
      SlotRepaired(r, c, h, next, n, m - 1);
      GroupRepaired(RepairSlot(r, Place(n), m - 1), c, h, next, n, m - 1);
    }
  }

  lemma OwnParities(r: Ring, c: Config, h: History, next: nat, x: int)
    requires FecOk(c) && RingHolds(r, c, h, next) && next - 16 <= x < next
    ensures r[Place(x)].parities != [] ==> x >= 0 && |r[Place(x)].parities| == EntriesAt(c, x)
  {
    assert SlotHolds(r[Place(x)], c, h, x);
  }

  lemma {:induction false} AllRepaired(r: Ring, c: Config, h: History, next: nat, x: int, n: nat)
    requires FecOk(c) && RingHolds(r, c, h, next) && x < next
    requires forall k :: 0 <= k && x - n < k <= x ==> next - 16 <= k - Depth(c, k)
    requires next - 16 <= x - n + 1
    ensures RingHolds(RepairAll(r, x, n), c, h, next)
    decreases n
  {
    hide RepairSlot, Depth, RingHolds, Place, ConfigOk;
    if n > 0 {
      OwnParities(r, c, h, next, x);
      if x >= 0 {
        SlotRepaired(r, c, h, next, x, |r[Place(x)].parities|);
      } else {
        NoParities(r, Place(x));
      }
      AllRepaired(RepairSlot(r, Place(x), |r[Place(x)].parities|), c, h, next, x - 1, n - 1);
    }
  }

  lemma NoParities(r: Ring, l: nat)
    requires l < 16
    ensures RepairSlot(r, l, 0) == r
  {
  }

  /** Taking in packet `n`, for the first time or again, keeps the ring good. */
  lemma PacketHolds(r: Ring, c: Config, h: History, next: nat, n: nat)
    requires FecOk(c) && RingHolds(r, c, h, next) && n < |h| && n < 0x1_0000 && next <= n + 1
    ensures RingHolds(AfterFec(r, next, ContentAt(c, h, n)), c, h, n + 1)
  {
    hide RepairAll, RingHolds;
    SavedHolds(r, c, h, next, n);
    DepthMonotone(c, n, n);
    var p := ContentAt(c, h, n);
    assert p.span * |p.parities| == Depth(c, n);
    forall k | 0 <= k && n - Reach(Depth(c, n)) < k <= n
      ensures n + 1 - 16 <= k - Depth(c, k)
    {
      DepthMonotone(c, k, n);
    }
    AllRepaired(BeforeRepair(r, next, p), c, h, n + 1, n, Reach(Depth(c, n)));
  }

  /** The ring when a packet has been taken in and the parities of `q` slots have been used. */
  function AfterSlots(r: Ring, next: int, p: Content, q: nat): Ring
    requires p.WithParities?
  {
    RepairAll(BeforeRepair(r, next, p), p.seqNo, q)
  }

  /** Every parity used is one of a packet `x` of the last sixteen; the slots looked at are those of the
      messages it covers, which are among the last sixteen, too; each of them is marked missing or holds the
      message it should; and so it is afterwards. */
  lemma EveryRepair(r: Ring, c: Config, h: History, next: nat, n: nat, q: nat, x: int, m: nat)
    requires FecOk(c) && RingHolds(r, c, h, next) && n < |h| && n < 0x1_0000 && next <= n + 1
    requires q < Reach(Depth(c, n)) && x == n - q
    requires m < |AfterSlots(r, next, ContentAt(c, h, n), q)[Place(x)].parities|
    ensures var ring := AfterSlots(r, next, ContentAt(c, h, n), q);
            && RingHolds(RepairSlot(ring, Place(x), m), c, h, n + 1)
            && RingHolds(RepairSlot(ring, Place(x), m + 1), c, h, n + 1)
            && GroupRead(RepairSlot(ring, Place(x), m), c, h, n, x, m)
  {
    hide RepairAll, RepairSlot, RingHolds, EntriesAt, SpanAt, BeforeRepair, ContentAt, Depth, Place, ConfigOk;
    SavedHolds(r, c, h, next, n);
    DepthMonotone(c, n, n);
    forall k | 0 <= k && n - Reach(Depth(c, n)) < k <= n
      ensures n + 1 - 16 <= k - Depth(c, k)
    {
      DepthMonotone(c, k, n);
    }
    AllRepaired(BeforeRepair(r, next, ContentAt(c, h, n)), c, h, n + 1, n, q);
    var ring := AfterSlots(r, next, ContentAt(c, h, n), q);
    OwnParities(ring, c, h, n + 1, x);
    SlotRepaired(ring, c, h, n + 1, x, m);
    SlotRepaired(ring, c, h, n + 1, x, m + 1);
    DepthMonotone(c, x, n);
    GroupLooks(RepairSlot(ring, Place(x), m), c, h, n, x, m);
  }

  /** What using parity `m` of packet `x` looks at, when packet `n` has just been taken in. */
  ghost predicate GroupRead(r: Ring, c: Config, h: History, n: nat, x: int, m: nat)
    requires FecOk(c)
  {
    && 0 <= x <= n && m < EntriesAt(c, x) && EntriesAt(c, x) * SpanAt(c, x) <= x
    && forall i :: 0 <= i < SpanAt(c, x) ==>
         LooksAt(r, h, n, Place(x) + m, SpanAt(c, x), EntriesAt(c, x), i,
                 Member(x, SpanAt(c, x), EntriesAt(c, x), m, i))
  }

  lemma GroupLooks(r: Ring, c: Config, h: History, n: nat, x: nat, m: nat)
    requires FecOk(c) && RingHolds(r, c, h, n + 1) && x <= n < |h| && n - 15 <= x - Depth(c, x) && m < EntriesAt(c, x)
    ensures GroupRead(r, c, h, n, x, m)
  {
    hide EntriesAt, SpanAt, RingHolds, Depth, Extends, Place, Member, GroupPlace;
    GroupHeld(r, c, h, n + 1, x, m);
    var e, s := EntriesAt(c, x), SpanAt(c, x);
    var g := RingGroup(r, Place(x) + m, s, e);
    forall i | 0 <= i < s
      ensures LooksAt(r, h, n, Place(x) + m, s, e, i, Member(x, s, e, m, i))
    {
      GroupPlaces(c, x, m, i);
      assert g[i] == r[Place(Member(x, s, e, m, i))].msg;
    }
  }

  /** The `i`-th slot looked at is that of message `k`, one of the fifteen before `n`, and holds it if it
      holds anything. */
  ghost predicate LooksAt(r: Ring, h: History, n: nat, limit: nat, s: nat, e: nat, i: nat, k: nat)
    requires i < s
  {
    && n - 15 <= k < n && k < |h| && GroupPlace(limit, s, e, i) == Place(k)
    && (r[Place(k)].msg == [] || Extends(r[Place(k)].msg, h[k]))
  }

  // ---------- what has been delivered ----------

  ghost predicate Logged(log: seq<Delivery>, k: int) {
    exists i :: 0 <= i < |log| && log[i].seqNo == k
  }

  /** No number was delivered twice. */
  ghost predicate NoneTwice(log: seq<Delivery>) {
    forall i, j :: 0 <= i < j < |log| ==> log[i].seqNo != log[j].seqNo
  }

  /** Every message was delivered under its own number, perhaps followed by zeros. */
  ghost predicate Truthful(log: seq<Delivery>, h: History, next: nat) {
    next <= |h| && forall i :: 0 <= i < |log| ==> 0 <= log[i].seqNo < next && Extends(log[i].msg, h[log[i].seqNo])
  }

  /** Of the numbers from `lo` up to `hi`, those delivered are those not missing in the ring. */
  ghost predicate Accounted(log: seq<Delivery>, r: Ring, lo: int, hi: int) {
    forall k :: lo <= k < hi ==> (r[Place(k)].msg != [] <==> Logged(log, k))
  }

  /** What holds of a receiver in every run: its ring, what it has delivered, and how they agree. */
  ghost predicate Invariant(c: Config, h: History, r: Ring, log: seq<Delivery>, next: nat)
    requires FecOk(c)
  {
    && RingHolds(r, c, h, next) && NoneTwice(log) && Truthful(log, h, next)
    && Accounted(log, r, next - 16, next) && (next > 0 ==> r[Place(next - 1)].msg != [])
  }

  lemma LoggedMore(log: seq<Delivery>, d: Delivery, k: int)
    ensures Logged(log + [d], k) <==> Logged(log, k) || d.seqNo == k
  {
    var more := log + [d];
    if Logged(log, k) {
      var i :| 0 <= i < |log| && log[i].seqNo == k;
      assert more[i].seqNo == k;
    }
    if d.seqNo == k {
      assert more[|log|].seqNo == k;
    }
  }

  /** Delivering what was regained. */
  lemma {:induction false} RegainedLogged(log: seq<Delivery>, before: Ring, after: Ring, lo: int, hi: int)
    requires NoneTwice(log) && Accounted(log, before, lo, hi) && lo <= hi
    requires forall x :: 0 <= x < 16 && before[x].msg != [] ==> after[x].msg != []
    ensures var more := log + Regained(before, after, lo, hi);
            && NoneTwice(more) && Accounted(more, after, lo, hi)
            && forall k :: !(lo <= k < hi) ==> (Logged(more, k) <==> Logged(log, k))
    decreases hi - lo
  {
    if hi == lo {
      assert log + [] == log;
    } else {
      RegainedLogged(log, before, after, lo, hi - 1);
      var most, d := log + Regained(before, after, lo, hi - 1), RegainedAt(before, after, hi - 1);
      assert log + Regained(before, after, lo, hi) == most + d;
      if d == [] {
        assert most + d == most;
      } else {
        assert d == [d[0]];
        forall k
          ensures Logged(most + d, k) <==> Logged(most, k) || k == hi - 1
        {
          LoggedMore(most, d[0], k);
        }
        assert !Logged(most, hi - 1);
      }
    }
  }

  lemma {:induction false} RegainedTruthful(before: Ring, after: Ring, lo: int, hi: int,
                                            c: Config, h: History, next: nat)
    requires FecOk(c) && RingHolds(after, c, h, next) && next - 16 <= lo <= hi <= next
    ensures Truthful(Regained(before, after, lo, hi), h, next)
    decreases hi - lo
  {
    hide ParitiesAt, Extends;
    if lo < hi {
      RegainedTruthful(before, after, lo, hi - 1, c, h, next);
      assert SlotHolds(after[Place(hi - 1)], c, h, hi - 1);
    }
  }

  /** Before anything is repaired, the ring agrees with what has been delivered. */
  lemma AccountedBefore(c: Config, h: History, r: Ring, log: seq<Delivery>, next: nat, p: Content)
    requires FecOk(c) && Invariant(c, h, r, log, next) && p.WithParities? && p.msg != []
    requires next <= p.seqNo + 1
    ensures Accounted(log, BeforeRepair(r, next, p), p.seqNo - 15, p.seqNo)
    ensures next > p.seqNo ==> Logged(log, p.seqNo)
    ensures next <= p.seqNo ==> !Logged(log, p.seqNo)
  {
    hide RingHolds, Extends, NoneTwice, Marked, ConfigOk;
    var n: int := p.seqNo;
    var mid := BeforeRepair(r, next, p);
    forall k: int | n - 15 <= k < n
      ensures mid[Place(k)].msg != [] <==> Logged(log, k)
    {
      PlaceDistinct(k, n);
      MarkedAt(r, next, n, k);
    }
  }

  /** Marking slots leaves those of the other recent messages alone. */
  lemma {:induction false} MarkedAt(r: Ring, from: int, to: int, k: int)
    requires to - 16 < k < to
    ensures Marked(r, from, to)[Place(k)] == if from <= k then MISSING else r[Place(k)]
    decreases if from < to then to - from else 0
  {
    if from < to && k < to - 1 {
      PlaceDistinct(k, to - 1);
      MarkedAt(r, from, to - 1, k);
    } else if from < to {
    }
  }

  /** Delivering the message of the packet itself, unless it was delivered before. */
  lemma PrimaryLogged(c: Config, h: History, after: Ring, log: seq<Delivery>, n: nat, isNew: bool)
    requires FecOk(c) && RingHolds(after, c, h, n + 1) && n < |h| && after[Place(n)].msg == h[n]
    requires NoneTwice(log) && Truthful(log, h, n + 1) && Accounted(log, after, n - 15, n)
    requires isNew == !Logged(log, n)
    ensures var more := log + if isNew then [Delivery(n, h[n])] else [];
            Invariant(c, h, after, more, n + 1) && Logged(more, n)
  {
    hide RingHolds;
    var d := Delivery(n, h[n]);
    forall k
      ensures Logged(log + [d], k) <==> Logged(log, k) || k == n
    {
      LoggedMore(log, d, k);
    }
    assert log + [] == log;
  }

  lemma BothTruthful(a: seq<Delivery>, b: seq<Delivery>, h: History, next: nat, next': nat)
    requires Truthful(a, h, next) && Truthful(b, h, next') && next <= next'
    ensures Truthful(a + b, h, next')
  {
  }

  /** Taking in packet `n`, for the first time or again, keeps the invariant. */
  lemma InvariantKept(c: Config, h: History, r: Ring, log: seq<Delivery>, next: nat, n: nat)
    requires FecOk(c) && Invariant(c, h, r, log, next) && n < |h| && n < 0x1_0000 && next <= n + 1
    ensures var p := ContentAt(c, h, n);
            Invariant(c, h, AfterFec(r, next, p), log + Delivered(r, next, p), n + 1)
            && Logged(log + Delivered(r, next, p), n)
  {
    hide Regained, RingHolds, ContentAt, RepairAll, Marked, Extends, NoneTwice, Logged, Accounted, Truthful, ConfigOk;
    var p := ContentAt(c, h, n);
    var mid, after := BeforeRepair(r, next, p), AfterFec(r, next, p);
    PacketHolds(r, c, h, next, n);
    AccountedBefore(c, h, r, log, next, p);
    RegainedLogged(log, mid, after, n - 15, n);
    RegainedTruthful(mid, after, n - 15, n, c, h, n + 1);
    var more := Regained(mid, after, n - 15, n);
    BothTruthful(log, more, h, next, n + 1);
    assert after[Place(n)].msg == h[n];
    PrimaryLogged(c, h, after, log + more, n, next <= n);
    assert log + Delivered(r, next, p) == log + more + if next <= n then [Delivery(n, h[n])] else [];
  }
}
