/** Whole runs: all messages are sent, and some of the packets arrive, perhaps repeatedly.  The results here
    are about packets that arrive in order. */
module UdptlRuns {
  import opened LengthCoding
  import opened Parity
  import opened UdptlPackets
  import opened UdptlRing
  import opened UdptlFec
  import opened UdptlBursts
  import opened Udptl

  datatype State = State(ring: Ring, next: nat, log: seq<Delivery>)

  /** The numbers of packets that arrive: each of them was sent.  All numbers belong to one round of the
      sixteen-bit counter. */
  ghost predicate WereSent(a: seq<nat>, h: History) {
    |h| < 0x1_0000 && forall i :: 0 <= i < |a| ==> a[i] < |h|
  }

  /** ... and no packet arrives after a later one. */
  ghost predicate Arrivals(a: seq<nat>, h: History) {
    WereSent(a, h) && forall i :: 0 < i < |a| ==> a[i - 1] <= a[i]
  }

  /** The receiver once the packets `a` have arrived. */
  ghost function RunOf(c: Config, h: History, a: seq<nat>): (s: State)
    requires ConfigOk(c) && WereSent(a, h)
    ensures s.next == if a == [] then 0 else a[|a| - 1] + 1
  {
    if a == [] then State(seq(16, _ => MISSING), 0, []) else
    var s := RunOf(c, h, a[..|a| - 1]);
    var p := ContentAt(c, h, a[|a| - 1]);
    State(After(s.ring, s.next, p), p.seqNo + 1, s.log + Delivered(s.ring, s.next, p))
  }

  lemma OneMoreArrival(c: Config, h: History, a: seq<nat>, n: nat)
    requires ConfigOk(c) && WereSent(a, h) && n < |h|
    ensures WereSent(a + [n], h)
    ensures var s, p := RunOf(c, h, a), ContentAt(c, h, n);
            RunOf(c, h, a + [n]) == State(After(s.ring, s.next, p), n + 1, s.log + Delivered(s.ring, s.next, p))
    ensures |a| == 0 ==> RunOf(c, h, a).log == [] && RunOf(c, h, a).next == 0
  {
    hide ContentAt, After, Delivered, ConfigOk;
    var b := a + [n];
    assert b[..|b| - 1] == a && forall i :: 0 <= i < |a| ==> b[i] == a[i];
  }

  // ---------- forward error correction ----------

  /** In every run: each slot is marked missing or holds its message; no message is delivered twice; what
      is delivered was sent under that number, apart from zeros at the end; of the last sixteen messages
      those delivered are those held; and the message of every packet that arrives is delivered. */
  lemma {:induction false} FecRun(c: Config, h: History, a: seq<nat>)
    requires FecOk(c) && Arrivals(a, h)
    ensures var s := RunOf(c, h, a); Invariant(c, h, s.ring, s.log, s.next)
    ensures forall i :: 0 <= i < |a| ==> Logged(RunOf(c, h, a).log, a[i])
  {
    hide Invariant, ContentAt, Delivered, AfterFec;
    if a == [] {
      StartOfRun(c, h);
    } else {
      var init, n := a[..|a| - 1], a[|a| - 1];
      FecRun(c, h, init);
      var s := RunOf(c, h, init);
      InvariantKept(c, h, s.ring, s.log, s.next, n);
      var log := RunOf(c, h, a).log;
      forall i | 0 <= i < |a|
        ensures Logged(log, a[i])
      {
        if i < |init| {
          assert init[i] == a[i];
          StaysLogged(s.log, Delivered(s.ring, s.next, ContentAt(c, h, n)), a[i]);
        }
      }
    }
  }

  lemma StartOfRun(c: Config, h: History)
    requires FecOk(c)
    ensures Invariant(c, h, seq(16, _ => MISSING), [], 0)
  {
    InitiallyHolds(c, h);
  }

  lemma StaysLogged(log: seq<Delivery>, more: seq<Delivery>, k: int)
    requires Logged(log, k)
    ensures Logged(log + more, k)
  {
    var i :| 0 <= i < |log| && log[i].seqNo == k;
    assert (log + more)[i].seqNo == k;
  }

  /** Nothing of the last sixteen messages is missing. */
  ghost predicate AllHeld(r: Ring, next: nat) {
    forall k :: next - 16 <= k < next && 0 <= k ==> r[Place(k)].msg != []
  }

  /** No more than `entries` packets are missing before the `i`-th arrival. */
  predicate Closes(a: seq<nat>, i: nat, entries: nat)
    requires i < |a|
  {
    a[i] <= entries + if i == 0 then 0 else a[i - 1] + 1
  }

  /** Before no packet have more been lost in a row than it has parities. */
  ghost predicate ShortBursts(c: Config, a: seq<nat>)
    requires FecOk(c)
  {
    forall i :: 0 <= i < |a| ==> Closes(a, i, Least(c.entries, a[i] / c.span))
  }

  /** Messages 0, 1, 2, ... up to `next` were delivered, in this order, each of them once. */
  ghost predicate Complete(log: seq<Delivery>, h: History, next: nat) {
    |log| == next <= |h| && forall k :: 0 <= k < next ==> log[k].seqNo == k && Extends(log[k].msg, h[k])
  }

  /** If all bursts of losses are short, nothing is ever given up: all messages are delivered exactly
      once and in order. */
  lemma {:induction false} FecComplete(c: Config, h: History, a: seq<nat>)
    requires FecOk(c) && Arrivals(a, h) && ShortBursts(c, a)
    ensures var s := RunOf(c, h, a);
            s.next <= |h| && RingHolds(s.ring, c, h, s.next) && AllHeld(s.ring, s.next) && Complete(s.log, h, s.next)
  {
    hide ContentAt, Delivered, AfterFec, RingHolds, AllHeld, Complete, EntriesAt, Extends, ConfigOk, ShortBursts;
    if a == [] {
      NothingDelivered(c, h);
    } else {
      var init, n := a[..|a| - 1], a[|a| - 1];
      LastShort(c, a);
      FecComplete(c, h, init);
      var s := RunOf(c, h, init);
      CompleteStep(c, h, s, n);
    }
  }

  lemma LastShort(c: Config, a: seq<nat>)
    requires FecOk(c) && a != [] && ShortBursts(c, a)
    ensures var init, n := a[..|a| - 1], a[|a| - 1];
            ShortBursts(c, init) && n <= EntriesAt(c, n) + if init == [] then 0 else init[|init| - 1] + 1
  {
    EntriesMeans(c, a[|a| - 1]);
    hide EntriesAt, Least;
    var init := a[..|a| - 1];
    forall i | 0 <= i < |init|
      ensures Closes(init, i, Least(c.entries, init[i] / c.span))
    {
      assert init[i] == a[i] && Closes(a, i, Least(c.entries, a[i] / c.span));
    }
    assert Closes(a, |a| - 1, Least(c.entries, a[|a| - 1] / c.span));
  }

  lemma NothingDelivered(c: Config, h: History)
    requires FecOk(c)
    ensures RingHolds(seq(16, _ => MISSING), c, h, 0) && AllHeld(seq(16, _ => MISSING), 0) && Complete([], h, 0)
  {
    InitiallyHolds(c, h);
  }

  lemma CompleteStep(c: Config, h: History, s: State, n: nat)
    requires FecOk(c) && n < |h| < 0x1_0000 && s.next <= n + 1 && n <= EntriesAt(c, n) + s.next
    requires RingHolds(s.ring, c, h, s.next) && AllHeld(s.ring, s.next) && Complete(s.log, h, s.next)
    ensures var p := ContentAt(c, h, n);
            && RingHolds(AfterFec(s.ring, s.next, p), c, h, n + 1) && AllHeld(AfterFec(s.ring, s.next, p), n + 1)
            && Complete(s.log + Delivered(s.ring, s.next, p), h, n + 1)
  {
    hide ContentAt, RingHolds, EntriesAt, Complete, ConfigOk, AfterFec, Delivered, AllHeld, MakesUpFor;
    PacketHolds(s.ring, c, h, s.next, n);
    StillHeld(c, h, s, n);
    if n < s.next {
      NothingRepeated(c, h, s, n);
      assert s.log + [] == s.log;
    } else {
      var burst := BurstOnly(c, h, s, n);
      CompleteLog(c, h, s.log, s.next, n, burst);
      assert s.log + (burst + [Delivery(n, h[n])]) == s.log + burst + [Delivery(n, h[n])];
    }
  }

  lemma NothingRepeated(c: Config, h: History, s: State, n: nat)
    requires FecOk(c) && n < |h| < 0x1_0000 && s.next == n + 1
    requires RingHolds(s.ring, c, h, s.next) && AllHeld(s.ring, s.next)
    ensures Delivered(s.ring, s.next, ContentAt(c, h, n)) == []
  {
    hide ContentAt, RingHolds, ConfigOk, AfterFec, BeforeRepair, Regained, AllHeld;
    PacketHolds(s.ring, c, h, s.next, n);
    OldHeld(c, h, s, n, n);
  }

  /** If nothing older is missing, a packet brings the burst before it and its own message. */
  lemma BurstOnly(c: Config, h: History, s: State, n: nat) returns (burst: seq<Delivery>)
    requires FecOk(c) && n < |h| < 0x1_0000 && s.next <= n <= EntriesAt(c, n) + s.next
    requires RingHolds(s.ring, c, h, s.next) && AllHeld(s.ring, s.next)
    ensures MakesUpFor(burst, c, h, s.next, n)
    ensures Delivered(s.ring, s.next, ContentAt(c, h, n)) == burst + [Delivery(n, h[n])]
  {
    hide ContentAt, RingHolds, EntriesAt, SpanAt, ConfigOk, AfterFec, BeforeRepair;
    hide Delivered, ShortBurst, AllHeld, Depth, MakesUpFor, Least, Regained;
    DepthCovers(c, n);
    PacketHolds(s.ring, c, h, s.next, n);
    BurstHere(c, h, s, n);
    var older;
    older, burst := BurstRecovered(s.ring, c, h, s.next, n);
    OldHeld(c, h, s, n, n - Depth(c, n));
    NothingOlder(older, burst, Delivery(n, h[n]));
  }

  lemma NothingOlder(older: seq<Delivery>, burst: seq<Delivery>, d: Delivery)
    requires older == []
    ensures older + burst + [d] == burst + [d]
  {
  }

  lemma CompleteLog(c: Config, h: History, log: seq<Delivery>, next: nat, n: nat, burst: seq<Delivery>)
    requires FecOk(c) && next <= n < |h| && n - next <= EntriesAt(c, n)
    requires Complete(log, h, next) && MakesUpFor(burst, c, h, next, n)
    ensures Complete(log + burst + [Delivery(n, h[n])], h, n + 1)
  {
    hide EntriesAt, ParityOf, CoveringGroup, Extends;
    var all := log + burst + [Delivery(n, h[n])];
    forall k | 0 <= k < n + 1
      ensures all[k].seqNo == k && Extends(all[k].msg, h[k])
    {
      if next <= k < n { assert all[k] == burst[k - next]; }
      ItselfExtends(h[n]);
    }
  }

  lemma ItselfExtends(d: Octets)
    ensures Extends(d, d)
  {
  }

  lemma BurstHere(c: Config, h: History, s: State, n: nat)
    requires FecOk(c) && n < |h| < 0x1_0000 && s.next <= n <= EntriesAt(c, n) + s.next
    requires RingHolds(s.ring, c, h, s.next) && AllHeld(s.ring, s.next)
    ensures ShortBurst(s.ring, c, h, s.next, n)
  {
    DepthMonotone(c, n, n);
    EntriesMeans(c, n);
    hide EntriesAt, RingHolds, ConfigOk, Depth, Least;
  }

  /** What was held before is not regained. */
  lemma OldHeld(c: Config, h: History, s: State, n: nat, hi: int)
    requires FecOk(c) && n < |h| < 0x1_0000 && s.next <= n + 1 && hi <= n && hi <= s.next
    requires RingHolds(s.ring, c, h, s.next) && AllHeld(s.ring, s.next)
    requires RingHolds(AfterFec(s.ring, s.next, ContentAt(c, h, n)), c, h, n + 1)
    ensures var p := ContentAt(c, h, n);
            Regained(BeforeRepair(s.ring, s.next, p), AfterFec(s.ring, s.next, p), n - 15, hi) == []
  {
    hide ContentAt, ConfigOk, RepairAll, Marked, Extends, ParitiesAt, EntriesAt, SpanAt;
    var p := ContentAt(c, h, n);
    var mid, after := BeforeRepair(s.ring, s.next, p), AfterFec(s.ring, s.next, p);
    forall k | n - 15 <= k < hi
      ensures mid[Place(k)].msg != [] || after[Place(k)].msg == []
    {
      if k < 0 {
        assert SlotHolds(after[Place(k)], c, h, k);
      } else {
        PlaceDistinct(k, n);
        MarkedAt(s.ring, s.next, n, k);
      }
    }
    NothingRegained(mid, after, n - 15, hi);
  }

  lemma StillHeld(c: Config, h: History, s: State, n: nat)
    requires FecOk(c) && n < |h| < 0x1_0000 && s.next <= n + 1 && n <= EntriesAt(c, n) + s.next
    requires RingHolds(s.ring, c, h, s.next) && AllHeld(s.ring, s.next)
    ensures AllHeld(AfterFec(s.ring, s.next, ContentAt(c, h, n)), n + 1)
  {
    hide ContentAt, ConfigOk, RepairAll, Marked, RingHolds, EntriesAt, Depth, BurstClosed, ShortBurst;
    var p := ContentAt(c, h, n);
    var mid, after := BeforeRepair(s.ring, s.next, p), AfterFec(s.ring, s.next, p);
    DepthCovers(c, n);
    assert after[Place(n)].msg == p.msg;
    if s.next <= n { BurstHere(c, h, s, n); }
    forall k: int | n + 1 - 16 <= k < n + 1 && 0 <= k
      ensures after[Place(k)].msg != []
    {
      if k < s.next && k < n {
        PlaceDistinct(k, n);
        MarkedAt(s.ring, s.next, n, k);
      } else if k < n {
        BurstCloses(s.ring, c, h, s.next, n);
        ClosedAt(mid, after, c, h, s.next, n, k);
      }
    }
  }

  lemma ClosedAt(mid: Ring, after: Ring, c: Config, h: History, next: nat, n: nat, k: int)
    requires FecOk(c) && n < |h| && BurstClosed(mid, after, c, h, next, n) && next <= k < n
    ensures after[Place(k)].msg != []
  {
    hide EntriesAt, RingHolds, ParityOf, CoveringGroup;
  }

  // ---------- redundancy ----------

  /** Messages `lo` up to `hi`, each under its own number. */
  function Range(h: History, lo: nat, hi: nat): (d: seq<Delivery>)
    requires lo <= hi <= |h|
    ensures |d| == hi - lo
  {
    seq(hi - lo, i requires 0 <= i < hi - lo => Delivery(lo + i, h[lo + i]))
  }

  /** The oldest message that packet `n` brings to a receiver that expects message `next`. */
  function Oldest(r: nat, next: nat, n: nat): (k: nat)
    requires next <= n
    ensures next <= k <= n
  {
    if n - Least(n, r) <= next then next else n - Least(n, r)
  }

  lemma {:induction false} SecondariesRange(h: History, s: seq<Octets>, n: nat, next: nat, i: nat)
    requires |s| <= n < |h| && i <= |s| && next <= n && forall j :: 0 <= j < |s| ==> s[j] == h[n - 1 - j]
    ensures FromSecondaries(s, n, next, i) == Range(h, if n - i <= next then next else n - i, n)
    decreases i
  {
    if i > 0 {
      SecondariesRange(h, s, n, next, i - 1);
    }
  }

  /** How many of the messages before its own a packet repeats. */
  function Repeats(c: Config): nat {
    if c.scheme.Redundancy? then c.entries else 0
  }

  /** What a packet without parities brings. */
  lemma PacketBrings(c: Config, h: History, r: Ring, next: nat, n: nat)
    requires ConfigOk(c) && !c.scheme.Fec? && n < |h| && n < 0x1_0000
    ensures Delivered(r, next, ContentAt(c, h, n))
         == if n < next then [] else Range(h, Oldest(Repeats(c), next, n), n + 1)
  {
    SecondariesAt(c, h, n);
    hide ContentAt, FromSecondaries, Range, ConfigOk, Regained, AfterFec, BeforeRepair, Least, WithKept, Delivered;
    var p := ContentAt(c, h, n);
    DeliveredSecondaries(r, next, p);
    if n < next {
      NothingNew(r, p.secondaries, n, next, |p.secondaries|);
    } else {
      SecondariesRange(h, p.secondaries, n, next, |p.secondaries|);
      RangePush(h, Oldest(Repeats(c), next, n), n);
    }
  }

  lemma DeliveredSecondaries(r: Ring, next: nat, p: Content)
    requires p.WithSecondaries?
    ensures Delivered(r, next, p)
         == FromSecondaries(p.secondaries, p.seqNo, next, |p.secondaries|)
            + if p.seqNo >= next then [Delivery(p.seqNo, p.msg)] else []
  {
    hide FromSecondaries;
  }

  lemma SecondariesAt(c: Config, h: History, n: nat)
    requires ConfigOk(c) && !c.scheme.Fec? && n < |h| && n < 0x1_0000
    ensures var s := ContentAt(c, h, n).secondaries;
            |s| == Least(n, Repeats(c)) && forall j :: 0 <= j < |s| ==> s[j] == h[n - 1 - j]
  {
  }

  lemma RangePush(h: History, lo: nat, n: nat)
    requires lo <= n < |h|
    ensures Range(h, lo, n + 1) == Range(h, lo, n) + [Delivery(n, h[n])]
  {
  }

  /** No more consecutive packets than there are entries have been lost, from the first packet on. */
  predicate NoGap(a: seq<nat>, entries: nat) {
    forall i :: 0 <= i < |a| ==> Closes(a, i, entries)
  }

  /** In every run messages are delivered in order, none of them twice, and just as they were sent. */
  ghost predicate InOrder(log: seq<Delivery>, h: History, next: nat) {
    && (forall i :: 0 <= i < |log| ==> 0 <= log[i].seqNo < next <= |h| && log[i].msg == h[log[i].seqNo])
    && forall i, j :: 0 <= i < j < |log| ==> log[i].seqNo < log[j].seqNo
  }

  /** All messages up to the last one received are delivered exactly once, in order, under their own
      numbers, if and only if no more consecutive packets were lost than there are redundant entries:
      without any, if and only if none was lost. */
  lemma {:induction false} RedundancyRun(c: Config, h: History, a: seq<nat>)
    requires ConfigOk(c) && !c.scheme.Fec? && Arrivals(a, h)
    ensures var s := RunOf(c, h, a);
            && s.next <= |h| && InOrder(s.log, h, s.next)
            && (s.log == Range(h, 0, s.next) <==> NoGap(a, Repeats(c)))
            && |s.log| <= s.next && (|s.log| == s.next ==> NoGap(a, Repeats(c)))
  {
    hide ContentAt, Delivered, After, NoGap, InOrder, ConfigOk, Repeats;
    if a == [] {
      NothingYet(h, a, Repeats(c));
    } else {
      var init, n := a[..|a| - 1], a[|a| - 1];
      RedundancyRun(c, h, init);
      GapOfLast(a, Repeats(c));
      RedundancyStep(c, h, RunOf(c, h, init), n);
    }
  }

  lemma NothingYet(h: History, a: seq<nat>, entries: nat)
    requires a == []
    ensures InOrder([], h, 0) && Range(h, 0, 0) == [] && NoGap(a, entries)
  {
  }

  lemma RedundancyStep(c: Config, h: History, s: State, n: nat)
    requires ConfigOk(c) && !c.scheme.Fec? && n < |h| < 0x1_0000 && s.next <= n + 1
    requires InOrder(s.log, h, s.next) && |s.log| <= s.next
    ensures var log := s.log + Delivered(s.ring, s.next, ContentAt(c, h, n));
            && InOrder(log, h, n + 1) && |log| <= n + 1
            && (|log| == n + 1 ==> |s.log| == s.next && n <= Repeats(c) + s.next)
            && (s.log == Range(h, 0, s.next) && n <= Repeats(c) + s.next ==> log == Range(h, 0, n + 1))
  {
    hide ContentAt, Delivered, ConfigOk;
    PacketBrings(c, h, s.ring, s.next, n);
    var more := Delivered(s.ring, s.next, ContentAt(c, h, n));
    if n >= s.next {
      RangeJoin(s.log, h, s.next, Oldest(Repeats(c), s.next, n), n + 1);
    } else {
      assert s.log + more == s.log;
    }
  }

  lemma GapOfLast(a: seq<nat>, entries: nat)
    requires a != []
    ensures var init := a[..|a| - 1];
            NoGap(a, entries)
            <==> NoGap(init, entries) && a[|a| - 1] <= entries + if init == [] then 0 else init[|init| - 1] + 1
  {
    var init := a[..|a| - 1];
    assert forall i :: 0 <= i < |init| ==> Closes(init, i, entries) == Closes(a, i, entries);
    assert Closes(a, |a| - 1, entries) <==> a[|a| - 1] <= entries + if init == [] then 0 else init[|init| - 1] + 1;
  }

  lemma RangeJoin(log: seq<Delivery>, h: History, next: nat, k: nat, end: nat)
    requires next <= k < end <= |h| && InOrder(log, h, next) && |log| <= next
    ensures InOrder(log + Range(h, k, end), h, end)
    ensures k == next && log == Range(h, 0, next) ==> log + Range(h, k, end) == Range(h, 0, end)
  {
  }
}
