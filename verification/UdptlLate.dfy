/** Forward error correction when packets arrive late: exactly when a message is delivered twice after
    packets have arrived that should have come earlier. */
module UdptlLate {
  import opened LengthCoding
  import opened Parity
  import opened UdptlPackets
  import opened UdptlRing
  import opened UdptlFec
  import opened UdptlBursts
  import opened UdptlRuns
  import opened UdptlDisorder

  /** Nothing is missing of the group of parity `m` of slot `l`. */
  predicate GroupFull(r: Ring, l: nat, m: nat)
    requires l < 16
  {
    LackingOf(RingGroup(r, l + m, r[l].span, r[l].entries)) == Nothing
  }

  /** The parities kept in slot `l` have nothing to repair. */
  ghost predicate QuietAt(r: Ring, l: nat)
    requires l < 16
  {
    forall m :: 0 <= m < |r[l].parities| ==> GroupFull(r, l, m)
  }

  lemma {:induction false} QuietSlot(r: Ring, l: nat, m: nat)
    requires l < 16 && m <= |r[l].parities| && QuietAt(r, l)
    ensures RepairSlot(r, l, m) == r
  {
    hide LackingOf, RingGroup;
    if m > 0 {
      QuietSlot(r, l, m - 1);
      assert GroupFull(r, l, m - 1);
    }
  }

  lemma {:induction false} QuietAll(r: Ring, x: int, n: nat)
    requires forall y :: x - n < y <= x ==> QuietAt(r, Place(y))
    ensures RepairAll(r, x, n) == r
    decreases n
  {
    hide QuietAt, RepairSlot, Place;
    if n > 0 {
      QuietSlot(r, Place(x), |r[Place(x)].parities|);
      QuietAll(r, x - 1, n - 1);
    }
  }

  /** All messages up to number `n` have come, and then perhaps late packets, the last of them packet `j`.
      Nothing is missing in the ring, and up to slot `j` it holds what it should. */
  ghost predicate Stalled(r: Ring, c: Config, h: History, n: nat, j: nat)
    requires FecOk(c)
  {
    && j <= n < |h|
    && (n >= 15 ==> forall x :: 0 <= x < 16 ==> r[x].msg != [])
    && (n < 15 ==> RingHolds(r, c, h, n + 1) && AllHeld(r, n + 1))
    && forall k :: n - 15 <= k <= j ==> SlotHolds(r[Place(k)], c, h, k) && (k >= 0 ==> r[Place(k)].msg != [])
  }

  lemma CompleteStalled(r: Ring, c: Config, h: History, n: nat)
    requires FecOk(c) && RingHolds(r, c, h, n + 1) && AllHeld(r, n + 1)
    ensures Stalled(r, c, h, n, n)
  {
    hide ParitiesAt, Extends;
    forall x | 0 <= x < 16 && n >= 15
      ensures r[x].msg != []
    {
      var k := n - 15 + Place(x - (n - 15));
      assert Place(k) == x;
    }
  }

  /** A slot that holds message `k`, when none of the messages its parities cover is missing. */
  lemma HeldQuiet(r: Ring, c: Config, h: History, k: int)
    requires FecOk(c) && k < |h| && SlotHolds(r[Place(k)], c, h, k)
    requires k >= 0 ==> forall i :: k - Depth(c, k) <= i < k ==> r[Place(i)].msg != []
    ensures QuietAt(r, Place(k))
  {
    hide ParitiesAt, EntriesAt, SpanAt, Extends, ConfigOk, Place, Member;
    var s := r[Place(k)];
    forall m | 0 <= m < |s.parities|
      ensures GroupFull(r, Place(k), m)
    {
      var g := RingGroup(r, Place(k) + m, s.span, s.entries);
      forall i | 0 <= i < |g|
        ensures g[i] != []
      {
        GroupPlaces(c, k, m, i);
      }
    }
  }

  lemma FullQuiet(r: Ring, l: nat)
    requires l < 16 && forall x :: 0 <= x < 16 ==> r[x].msg != []
    ensures QuietAt(r, l)
  {
    hide Place;
    forall m | 0 <= m < |r[l].parities|
      ensures GroupFull(r, l, m)
    {
      var g := RingGroup(r, l + m, r[l].span, r[l].entries);
      forall i | 0 <= i < |g|
        ensures g[i] != []
      {
        assert r[GroupPlace(l + m, r[l].span, r[l].entries, i)].msg != [];
      }
    }
  }

  lemma StalledQuiet(r: Ring, c: Config, h: History, n: nat, j: nat, l: nat)
    requires FecOk(c) && Stalled(r, c, h, n, j) && l < 16
    ensures QuietAt(r, l)
  {
    hide QuietAt, SlotHolds, Depth;
    if n >= 15 {
      FullQuiet(r, l);
    } else {
      var k := n - 15 + Place(l - (n - 15));
      assert Place(k) == l;
      if k >= 0 { DepthMonotone(c, k, k); }
      HeldQuiet(r, c, h, k);
    }
  }

  /** A late packet fills its slot. */
  lemma StillStalled(r: Ring, c: Config, h: History, n: nat, j: nat, m: nat, s: Slot)
    requires FecOk(c) && Stalled(r, c, h, n, j) && m <= j && SlotHolds(s, c, h, m) && s.msg != []
    ensures Stalled(r[Place(m) := s], c, h, n, m)
  {
    hide SlotHolds;
    var r' := r[Place(m) := s];
    if n < 15 {
      SlotReplaced(r, c, h, n + 1, m, s);
    }
    forall k | n - 15 <= k <= m
      ensures SlotHolds(r'[Place(k)], c, h, k) && (k >= 0 ==> r'[Place(k)].msg != [])
    {
      if k < m { PlaceDistinct(k, m); }
    }
  }

  lemma PacketSlot(c: Config, h: History, m: nat)
    requires FecOk(c) && m < |h| && m < 0x1_0000
    ensures var p := ContentAt(c, h, m); SlotHolds(Slot(p.msg, p.parities, p.span, |p.parities|), c, h, m)
    ensures ContentAt(c, h, m).msg != []
  {
    hide EntriesAt, SpanAt;
  }

  lemma NothingMarked(r: Ring, from: int, end: int)
    requires end <= from
    ensures Marked(r, from, end) == r
  {
  }

  /** A packet that is no later than the last late one delivers nothing. */
  lemma LateBrings(r: Ring, c: Config, h: History, n: nat, j: nat, m: nat)
    requires FecOk(c) && Stalled(r, c, h, n, j) && m <= j && m < |h| < 0x1_0000
    ensures var p := ContentAt(c, h, m);
            Stalled(AfterFec(r, j + 1, p), c, h, n, m) && Delivered(r, j + 1, p) == []
  {
    hide ContentAt, Stalled, SlotHolds, Marked, QuietAt, RepairAll, Regained, Place, ConfigOk;
    StalledMeans(r, c, h, n, j);
    var p := ContentAt(c, h, m);
    PacketSlot(c, h, m);
    NothingMarked(r, j + 1, m);
    var mid := BeforeRepair(r, j + 1, p);
    StillStalled(r, c, h, n, j, m, Slot(p.msg, p.parities, p.span, |p.parities|));
    forall y: int
      ensures QuietAt(mid, Place(y))
    {
      StalledQuiet(mid, c, h, n, m, Place(y));
    }
    QuietAll(mid, m, Reach(p.span * |p.parities|));
    NothingRegained(mid, mid, m - 15, m);
  }

  lemma StalledMeans(r: Ring, c: Config, h: History, n: nat, j: nat)
    requires FecOk(c) && Stalled(r, c, h, n, j)
    ensures j <= n < |h|
  {
  }

  // ---------- a later packet after late ones ----------

  /** Message `k` was lost between the last late packet `j` and packet `m`, which carries `e` parities of `s`
      messages, and one of the first `q` parities is of a group in which only message `k` is missing. */
  predicate Won(j: nat, m: nat, e: nat, s: nat, q: nat, k: int) {
    j < k && m - e <= k < m - e + q && (s == 1 || k - e <= j)
  }

  /** Of the messages just before `m` those up to `j` are there, and those won with `q` parities. */
  ghost predicate Regains(r: Ring, j: nat, m: nat, e: nat, s: nat, q: nat) {
    forall k :: m - 15 <= k < m ==> (r[Place(k)].msg != [] <==> 0 <= k <= j || Won(j, m, e, s, q, k))
  }

  /** The slots behind the last late packet are empty, those up to it are as they should be. */
  ghost predicate Behind(r: Ring, c: Config, h: History, j: nat, m: nat)
    requires FecOk(c) && j < |h|
  {
    forall k :: m - 15 <= k < m ==> if k <= j then SlotHolds(r[Place(k)], c, h, k) else r[Place(k)].parities == []
  }

  lemma EarlierMember(n: nat, s: nat, e: nat, m: nat, i: nat)
    requires m < e && i < s - 1 && e * s <= n
    ensures Member(n, s, e, m, i) <= n - e + m - e
    ensures i == s - 2 ==> Member(n, s, e, m, i) == n - e + m - e
  {
    if i == s - 2 {
      assert e * (s - i) == e * 2;
    } else {
      Below(e, s - 2, i);
      assert e * (s - i) == e * (s - 2 - i) + 2 * e;
    }
  }

  /** What is missing of the group of parity `q`. */
  lemma GroupThere(r: Ring, c: Config, j: nat, m: nat, q: nat)
    requires FecOk(c) && j < m && q < EntriesAt(c, m)
    requires Regains(r, j, m, EntriesAt(c, m), SpanAt(c, m), q)
    ensures var e, s := EntriesAt(c, m), SpanAt(c, m);
            var last := m - e + q;
            && s > 0 && 0 <= last && m - 15 <= last < m && GroupPlace(Place(m) + q, s, e, s - 1) == Place(last)
            && LackingOf(RingGroup(r, Place(m) + q, s, e))
               == if last <= j then Nothing else if s == 1 || last - e <= j then One(s - 1) else Several
  {
    hide EntriesAt, SpanAt, LackingOf, Place, Member;
    WindUp(c, m);
    DepthMonotone(c, m, m);
    var e, s := EntriesAt(c, m), SpanAt(c, m);
    var last := m - e + q;
    var g := RingGroup(r, Place(m) + q, s, e);
    forall i | 0 <= i < s
      ensures g[i] != [] <==> Member(m, s, e, q, i) <= j
    {
      GroupPlaces(c, m, q, i);
      LastMember(m, s, e, q, i);
    }
    GroupPlaces(c, m, q, s - 1);
    LastMember(m, s, e, q, s - 1);
    forall i | 0 <= i < s - 1
      ensures Member(m, s, e, q, i) <= last - e && (i == s - 2 ==> Member(m, s, e, q, i) == last - e)
    {
      EarlierMember(m, s, e, q, i);
    }
    LackingEnd(g, last > j, s > 1 && last - e > j);
  }

  /** A group of which at most the last two and those before them are missing. */
  lemma LackingEnd(g: seq<Octets>, last: bool, other: bool)
    requires g != [] && (g[|g| - 1] == [] <==> last) && (other ==> last && |g| > 1 && g[|g| - 2] == [])
    requires !other ==> forall i :: 0 <= i < |g| - 1 ==> g[i] != []
    ensures LackingOf(g) == if !last then Nothing else if !other then One(|g| - 1) else Several
  {
    hide LackingOf;
    if !last {
      assert forall i :: 0 <= i < |g| ==> g[i] != [];
    } else if other {
      assert g[|g| - 1] == g[|g| - 2] == [];
    }
  }

  /** Parity `q` wins the last message of its group, if that is the only one missing. */
  lemma ParityWins(r: Ring, c: Config, j: nat, m: nat, q: nat)
    requires FecOk(c) && j < m && q < EntriesAt(c, m) && Carries(r[Place(m)], c, m)
    requires Regains(r, j, m, EntriesAt(c, m), SpanAt(c, m), q)
    ensures Regains(RepairGroup(r, Place(m), q), j, m, EntriesAt(c, m), SpanAt(c, m), q + 1)
  {
    hide EntriesAt, SpanAt, LackingOf, RingGroup, GroupPlace, Rebuilt;
    GroupThere(r, c, j, m, q);
    var r', last := RepairGroup(r, Place(m), q), m - EntriesAt(c, m) + q;
    forall k: int | m - 15 <= k < m && k != last
      ensures r'[Place(k)] == r[Place(k)]
    {
      if k < last { PlaceDistinct(k, last); } else { PlaceDistinct(last, k); }
    }
  }

  /** A slot with all parities of packet `m`. */
  ghost predicate Carries(s: Slot, c: Config, m: nat)
    requires FecOk(c)
  {
    && s.msg != [] && s.span == SpanAt(c, m) && s.entries == EntriesAt(c, m) && |s.parities| == EntriesAt(c, m)
    && forall q :: 0 <= q < |s.parities| ==> s.parities[q] != []
  }

  lemma {:induction false} SlotWins(mid: Ring, c: Config, j: nat, m: nat, q: nat)
    requires FecOk(c) && j < m && q <= EntriesAt(c, m) && Carries(mid[Place(m)], c, m)
    requires Regains(mid, j, m, EntriesAt(c, m), SpanAt(c, m), 0)
    ensures Regains(RepairSlot(mid, Place(m), q), j, m, EntriesAt(c, m), SpanAt(c, m), q)
    ensures RepairSlot(mid, Place(m), q)[Place(m)] == mid[Place(m)]
  {
    hide EntriesAt, SpanAt, Regains, RepairGroup;
    if q > 0 {
      SlotWins(mid, c, j, m, q - 1);
      ParityWins(RepairSlot(mid, Place(m), q - 1), c, j, m, q - 1);
    }
  }

  lemma SavedBehind(r: Ring, c: Config, h: History, n: nat, j: nat, m: nat)
    requires FecOk(c) && Stalled(r, c, h, n, j) && j <= n < m < |h| < 0x1_0000
    ensures var mid := BeforeRepair(r, j + 1, ContentAt(c, h, m));
            && Regains(mid, j, m, EntriesAt(c, m), SpanAt(c, m), 0) && Behind(mid, c, h, j, m)
            && Carries(mid[Place(m)], c, m)
  {
    hide Marked, Extends, EntriesAt, SpanAt, RingHolds, AllHeld;
    var mid := BeforeRepair(r, j + 1, ContentAt(c, h, m));
    ParitiesSendable(c, h, m);
    forall k: int | m - 15 <= k < m
      ensures mid[Place(k)] == if k <= j then r[Place(k)] else MISSING
    {
      PlaceDistinct(k, m);
      MarkedAt(r, j + 1, m, k);
    }
  }

  /** Nothing but the parities of packet `m` itself repairs anything. */
  lemma OthersQuiet(mid: Ring, first: Ring, c: Config, h: History, j: nat, m: nat, y: int)
    requires FecOk(c) && j < m && j < |h| && m - 15 + Depth(c, m) <= y < m
    requires Behind(mid, c, h, j, m) && Regains(mid, j, m, EntriesAt(c, m), SpanAt(c, m), 0)
    requires Regains(first, j, m, EntriesAt(c, m), SpanAt(c, m), EntriesAt(c, m))
    requires forall x :: 0 <= x < 16 ==> first[x] == mid[x].(msg := first[x].msg)
    requires forall x :: 0 <= x < 16 && mid[x].msg != [] ==> first[x] == mid[x]
    ensures QuietAt(first, Place(y))
  {
    hide EntriesAt, SpanAt, Depth, LackingOf, ParitiesAt, Place;
    assert first[Place(y)] == mid[Place(y)].(msg := first[Place(y)].msg);
    if 0 <= y <= j {
      DepthMonotone(c, y, m);
      DepthMonotone(c, y, y);
      assert first[Place(y)] == mid[Place(y)];
      HeldQuiet(first, c, h, y);
    }
  }

  /** A packet after a late one wins exactly the messages of which it has a parity with nothing else
      missing. */
  lemma LaterWins(r: Ring, c: Config, h: History, n: nat, j: nat, m: nat)
    requires FecOk(c) && Stalled(r, c, h, n, j) && j <= n < m < |h| < 0x1_0000
    ensures var p := ContentAt(c, h, m);
            var e, s := EntriesAt(c, m), SpanAt(c, m);
            Regains(BeforeRepair(r, j + 1, p), j, m, e, s, 0) && Regains(AfterFec(r, j + 1, p), j, m, e, s, e)
  {
    hide Stalled, EntriesAt, SpanAt, ContentAt, Regains, Behind, Carries, QuietAt, RepairAll, RepairSlot, Depth;
    hide Marked, BeforeRepair, AfterFec, ConfigOk;
    var p := ContentAt(c, h, m);
    var mid := BeforeRepair(r, j + 1, p);
    SavedBehind(r, c, h, n, j, m);
    ContentDepth(r, c, h, j + 1, m);
    DepthMonotone(c, m, m);
    CarriesAll(mid[Place(m)], c, m);
    var first := RepairSlot(mid, Place(m), EntriesAt(c, m));
    SlotWins(mid, c, j, m, EntriesAt(c, m));
    DepthZero(c, m);
    if EntriesAt(c, m) > 0 {
      forall y: int | m - 16 + Depth(c, m) < y <= m - 1
        ensures QuietAt(first, Place(y))
      {
        OthersQuiet(mid, first, c, h, j, m, y);
      }
      QuietAll(first, m - 1, 15 - Depth(c, m));
      RepairFirst(mid, m, 16 - Depth(c, m));
    } else {
      RepairNone(mid, m);
    }
  }

  lemma CarriesAll(s: Slot, c: Config, m: nat)
    requires FecOk(c) && Carries(s, c, m)
    ensures |s.parities| == EntriesAt(c, m)
  {
  }

  lemma DepthZero(c: Config, m: nat)
    requires FecOk(c)
    ensures EntriesAt(c, m) > 0 <==> Depth(c, m) > 0
  {
    WindUp(c, m);
    hide EntriesAt, SpanAt;
  }

  lemma RepairFirst(r: Ring, x: int, n: nat)
    requires n > 0
    ensures RepairAll(r, x, n) == RepairAll(RepairSlot(r, Place(x), |r[Place(x)].parities|), x - 1, n - 1)
  {
  }

  lemma RepairNone(r: Ring, x: int)
    ensures RepairAll(r, x, 0) == r && RepairSlot(r, Place(x), 0) == r
  {
  }

  predicate IsRegained(before: Ring, after: Ring, k: int) {
    before[Place(k)].msg == [] && after[Place(k)].msg != []
  }

  /** Delivering what was regained, whatever has been delivered before. */
  lemma {:induction false} RegainedTwice(log: seq<Delivery>, before: Ring, after: Ring, lo: int, hi: int)
    requires lo <= hi
    ensures var more := log + Regained(before, after, lo, hi);
            && (forall k :: Logged(more, k) <==> Logged(log, k) || (lo <= k < hi && IsRegained(before, after, k)))
            && (NoneTwice(more) <==>
                  NoneTwice(log) && forall k :: lo <= k < hi && IsRegained(before, after, k) ==> !Logged(log, k))
    decreases hi - lo
  {
    hide NoneTwice, Logged, Place;
    if lo == hi {
      assert log + Regained(before, after, lo, hi) == log;
    } else {
      RegainedTwice(log, before, after, lo, hi - 1);
      var most, d := log + Regained(before, after, lo, hi - 1), RegainedAt(before, after, hi - 1);
      assert log + Regained(before, after, lo, hi) == most + d;
      if d == [] {
        assert most + d == most;
      } else {
        assert d == [d[0]] && d[0].seqNo == hi - 1;
        TwiceMore(most, d[0]);
        forall k
          ensures Logged(most + d, k) <==> Logged(most, k) || k == hi - 1
        {
          LoggedMore(most, d[0], k);
        }
      }
    }
  }

  lemma CompleteLogged(log: seq<Delivery>, h: History, next: nat)
    requires Complete(log, h, next)
    ensures NoneTwice(log) && forall k :: Logged(log, k) <==> 0 <= k < next
  {
    forall k | 0 <= k < next
      ensures Logged(log, k)
    {
      assert log[k].seqNo == k;
    }
  }

  /** All messages up to `n` were delivered; after packet `j` packet `m` arrives. */
  lemma LaterTwice(s: State, c: Config, h: History, n: nat, j: nat, m: nat)
    requires FecOk(c) && Stalled(s.ring, c, h, n, j) && j <= n < m < |h| < 0x1_0000
    requires s.next == j + 1 && Complete(s.log, h, n + 1)
    ensures var e, w := EntriesAt(c, m), SpanAt(c, m);
            NoneTwice(s.log + Delivered(s.ring, s.next, ContentAt(c, h, m)))
            <==> j == n || n + e < m || (w > 1 && j + 2 * e < m)
  {
    hide Stalled, Complete, ContentAt, Regains, BeforeRepair, AfterFec, Regained;
    hide ConfigOk, EntriesAt, SpanAt, NoneTwice, Logged;
    var p := ContentAt(c, h, m);
    var mid, after := BeforeRepair(s.ring, j + 1, p), AfterFec(s.ring, j + 1, p);
    var e, w := EntriesAt(c, m), SpanAt(c, m);
    LaterWins(s.ring, c, h, n, j, m);
    CompleteLogged(s.log, h, n + 1);
    RegainedTwice(s.log, mid, after, m - 15, m);
    var more := s.log + Regained(mid, after, m - 15, m);
    TwiceMore(more, Delivery(m, p.msg));
    assert s.log + Delivered(s.ring, s.next, p) == more + [Delivery(m, p.msg)];
    WonExactly(mid, after, c, j, m);
    WonAny(c, n, j, m);
  }

  lemma WonExactly(mid: Ring, after: Ring, c: Config, j: nat, m: nat)
    requires FecOk(c) && j < m
    requires Regains(mid, j, m, EntriesAt(c, m), SpanAt(c, m), 0)
    requires Regains(after, j, m, EntriesAt(c, m), SpanAt(c, m), EntriesAt(c, m))
    ensures forall k :: m - 15 <= k < m ==>
              (IsRegained(mid, after, k) <==> Won(j, m, EntriesAt(c, m), SpanAt(c, m), EntriesAt(c, m), k))
  {
    hide EntriesAt, SpanAt;
  }

  /** Whether a message that had been delivered before is won. */
  lemma WonAny(c: Config, n: nat, j: nat, m: nat)
    requires FecOk(c) && j <= n < m
    ensures var e, w := EntriesAt(c, m), SpanAt(c, m);
            (forall k :: m - 15 <= k < m && Won(j, m, e, w, e, k) ==> k > n)
            <==> j == n || n + e < m || (w > 1 && j + 2 * e < m)
  {
    WindUp(c, m);
    hide EntriesAt, SpanAt;
    var e, w := EntriesAt(c, m), SpanAt(c, m);
    var k := if j + 1 > m - e then j + 1 else m - e;
    if j < n && m <= n + e && (w <= 1 || m <= j + 2 * e) {
      assert Won(j, m, e, w, e, k) && k <= n && m - 15 <= k < m;
    }
  }

  // ---------- whole runs ----------

  /** Late packets, none of them later than the one before it; the first is no later than packet `n`. */
  predicate Falling(l: seq<nat>, n: nat) {
    forall i :: 0 <= i < |l| ==> NoLater(l, n, i)
  }

  predicate NoLater(l: seq<nat>, n: nat, i: nat)
    requires i < |l|
  {
    l[i] <= if i == 0 then n else l[i - 1]
  }

  /** Late packets deliver nothing, if no message was given up before. */
  lemma {:induction false} LateRun(c: Config, h: History, a: seq<nat>, l: seq<nat>)
    requires FecOk(c) && Arrivals(a, h) && ShortBursts(c, a) && a != [] && Falling(l, a[|a| - 1])
    ensures WereSent(a + l, h)
    ensures var n, s := a[|a| - 1], RunOf(c, h, a + l);
            && Complete(s.log, h, n + 1) && Stalled(s.ring, c, h, n, (a + l)[|a + l| - 1])
  {
    hide ShortBursts, ContentAt, RunOf, Complete, Stalled, AfterFec, Delivered, RingHolds, AllHeld, EntriesAt, ConfigOk;
    var n := a[|a| - 1];
    if l == [] {
      assert a + l == a;
      FecComplete(c, h, a);
      CompleteStalled(RunOf(c, h, a).ring, c, h, n);
    } else {
      var init, m := l[..|l| - 1], l[|l| - 1];
      FallingInit(l, n);
      LateRun(c, h, a, init);
      assert a + l == (a + init) + [m];
      FallingBelow(l, n);
      OneMoreArrival(c, h, a + init, m);
      var s := RunOf(c, h, a + init);
      LateBrings(s.ring, c, h, n, (a + init)[|a + init| - 1], m);
      assert s.log + [] == s.log;
    }
  }

  lemma {:induction false} FallingBelow(l: seq<nat>, n: nat)
    requires Falling(l, n)
    ensures forall i :: 0 <= i < |l| ==> l[i] <= n
  {
    if l != [] {
      FallingInit(l, n);
      FallingBelow(l[..|l| - 1], n);
    }
  }

  lemma FallingInit(l: seq<nat>, n: nat)
    requires l != [] && Falling(l, n)
    ensures var init := l[..|l| - 1];
            Falling(init, n) && l[|l| - 1] <= if init == [] then n else init[|init| - 1]
  {
    var init := l[..|l| - 1];
    forall i | 0 <= i < |init|
      ensures NoLater(init, n, i)
    {
      assert NoLater(l, n, i);
    }
    assert NoLater(l, n, |l| - 1);
  }

  /** After messages up to `n`, and then late packets, the last of them packet `j`: packet `m` is late, too, or
      no packet was late, or `m` is so much later that its parities, one for each `c.span` messages sent and
      at most `c.entries`, cannot make up for any message behind `j` that had been delivered before. */
  predicate Harmless(c: Config, n: nat, j: nat, m: nat)
    requires c.span > 0
  {
    var e := Least(c.entries, m / c.span);
    m <= j || j == n || (n < m && (n + e < m || (1 < c.span <= m && j + 2 * e < m)))
  }

  /** Packets `a` arrive in order, with short bursts of losses only; then late packets `l`, which deliver
      nothing; then packet `m`.  No message is delivered twice if and only if packet `m` is late, too, or
      there was no late packet before it, or it comes so much later that its parities cannot make up for
      any message behind the last late packet that had been delivered before. */
  lemma LateExactly(c: Config, h: History, a: seq<nat>, l: seq<nat>, m: nat)
    requires FecOk(c) && Arrivals(a, h) && ShortBursts(c, a) && a != [] && Falling(l, a[|a| - 1]) && m < |h|
    ensures WereSent(a + l + [m], h)
    ensures NoneTwice(RunOf(c, h, a + l + [m]).log) <==> Harmless(c, a[|a| - 1], (a + l)[|a + l| - 1], m)
  {
    hide ShortBursts, ContentAt, RunOf, Complete, Stalled, AfterFec, Delivered, EntriesAt;
    hide SpanAt, ConfigOk, NoneTwice, Falling, Logged, After;
    var n, j := a[|a| - 1], (a + l)[|a + l| - 1];
    EntriesMeans(c, m);
    LateRun(c, h, a, l);
    OneMoreArrival(c, h, a + l, m);
    AfterLate(RunOf(c, h, a + l), c, h, n, j, m);
  }

  /** The same for the packet behind the late ones. */
  lemma AfterLate(s: State, c: Config, h: History, n: nat, j: nat, m: nat)
    requires FecOk(c) && Stalled(s.ring, c, h, n, j) && m < |h| < 0x1_0000
    requires s.next == j + 1 && n < |h| && Complete(s.log, h, n + 1)
    ensures var e, w := EntriesAt(c, m), SpanAt(c, m);
            NoneTwice(s.log + Delivered(s.ring, s.next, ContentAt(c, h, m)))
            <==> m <= j || j == n || (n < m && (n + e < m || (w > 1 && j + 2 * e < m)))
  {
    hide ContentAt, Complete, Stalled, AfterFec, Delivered, EntriesAt, SpanAt, ConfigOk, NoneTwice, Logged;
    StalledMeans(s.ring, c, h, n, j);
    CompleteLogged(s.log, h, n + 1);
    if m <= j {
      LateBrings(s.ring, c, h, n, j, m);
      assert s.log + [] == s.log;
    } else if m <= n {
      PrimaryLast(s.ring, j + 1, ContentAt(c, h, m));
      TwiceLast(s.log, Delivered(s.ring, s.next, ContentAt(c, h, m)), m);
    } else {
      LaterTwice(s, c, h, n, j, m);
    }
  }
}
