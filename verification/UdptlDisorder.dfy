/** Runs in which packets arrive in any order.  A packet that arrives after a later one sets the receiver
    back, so that messages can be delivered twice; here it is said when. */
module UdptlDisorder {
  import opened LengthCoding
  import opened UdptlPackets
  import opened UdptlRing
  import opened UdptlFec
  import opened Udptl
  import opened UdptlRuns

  // ---------- without parities ----------

  /** The number that the receiver expects when the `i`-th packet arrives. */
  function Expected(a: seq<nat>, i: nat): nat
    requires i <= |a|
  {
    if i == 0 then 0 else a[i - 1] + 1
  }

  /** The `i`-th arrival is not earlier than expected. */
  predicate InTime(a: seq<nat>, i: nat)
    requires i < |a|
  {
    Expected(a, i) <= a[i]
  }

  /** The `i`-th arrival brings message `k`, when packets repeat the `r` messages before their own. */
  predicate Brings(a: seq<nat>, r: nat, i: nat, k: int)
    requires i < |a|
  {
    InTime(a, i) && Expected(a, i) <= k && a[i] - r <= k <= a[i]
  }

  /** No message is brought by both arrivals: either they are too early to bring anything, or what one of
      them brings is behind what the other one brings. */
  predicate Apart(a: seq<nat>, r: nat, i: nat, j: nat)
    requires i < |a| && j < |a|
  {
    InTime(a, i) && InTime(a, j) ==>
      a[i] < Expected(a, j) || a[i] < a[j] - r || a[j] < Expected(a, i) || a[j] < a[i] - r
  }

  predicate AllApart(a: seq<nat>, r: nat) {
    forall i, j :: 0 <= i < j < |a| ==> Apart(a, r, i, j)
  }

  /** Some arrival brings message `k`. */
  ghost predicate Brought(a: seq<nat>, r: nat, k: int) {
    exists i :: 0 <= i < |a| && Brings(a, r, i, k)
  }

  /** Whatever the order in which packets without parities arrive: a message is delivered if and only if
      one of them brings it; what is delivered is what was sent; and no message is delivered twice if and
      only if no two of the arrivals bring the same one. */
  lemma {:induction false} AnyOrder(c: Config, h: History, a: seq<nat>)
    requires ConfigOk(c) && !c.scheme.Fec? && WereSent(a, h)
    ensures var log := RunOf(c, h, a).log;
            && (NoneTwice(log) <==> AllApart(a, Repeats(c)))
            && (forall d :: d in log ==> 0 <= d.seqNo < |h| && d.msg == h[d.seqNo])
            && forall k :: Logged(log, k) <==> Brought(a, Repeats(c), k)
  {
    hide RunOf, ContentAt, ConfigOk, NoneTwice, Logged, AllApart, Brought, Brings, Repeats, Delivered, After;
    if a == [] {
      NothingArrived(c, h, a);
    } else {
      var init, n := a[..|a| - 1], a[|a| - 1];
      assert a == init + [n];
      AnyOrder(c, h, init);
      OneMoreArrival(c, h, init, n);
      var s := RunOf(c, h, init);
      PacketBrings(c, h, s.ring, s.next, n);
      ExpectedNext(c, h, init, n);
      var lo, hi := LastRange(a, Repeats(c), |init|);
      assert Range(h, 0, 0) == [];
      assert RunOf(c, h, a).log == s.log + Range(h, lo, hi);
      LastApart(a, Repeats(c), |init|);
      LastBrought(a, Repeats(c), |init|);
      RangeLogged(s.log, h, lo, hi);
      SameMessages(s.log, h, lo, hi);
    }
  }

  lemma NothingArrived(c: Config, h: History, a: seq<nat>)
    requires ConfigOk(c) && WereSent(a, h) && a == []
    ensures RunOf(c, h, a).log == [] && NoneTwice([]) && AllApart(a, Repeats(c))
    ensures forall k :: !Logged([], k) && !Brought(a, Repeats(c), k)
  {
  }

  lemma ExpectedNext(c: Config, h: History, a: seq<nat>, n: nat)
    requires ConfigOk(c) && WereSent(a, h)
    ensures RunOf(c, h, a).next == Expected(a + [n], |a|)
  {
  }

  /** The last arrival brings messages `lo` up to `hi`. */
  lemma LastRange(a: seq<nat>, r: nat, l: nat) returns (lo: nat, hi: nat)
    requires |a| == l + 1
    ensures (forall k :: Brings(a, r, l, k) <==> lo <= k < hi) && lo <= hi <= a[l] + 1
    ensures Expected(a, l) <= a[l] ==> lo == Oldest(r, Expected(a, l), a[l]) && hi == a[l] + 1
    ensures Expected(a, l) > a[l] ==> lo == hi == 0
  {
    lo, hi := if InTime(a, l) then Oldest(r, Expected(a, l), a[l]) else 0, if InTime(a, l) then a[l] + 1 else 0;
  }

  /** The last arrival against those before it. */
  lemma LastApart(a: seq<nat>, r: nat, l: nat)
    requires |a| == l + 1
    ensures AllApart(a, r) <==> AllApart(a[..l], r) && forall k :: Brought(a[..l], r, k) ==> !Brings(a, r, l, k)
  {
    hide Oldest;
    var init := a[..l];
    forall i, j | 0 <= i < j < l
      ensures Apart(a, r, i, j) == Apart(init, r, i, j)
    {
    }
    FirstApart(a, r, l);
    assert AllApart(a, r) <==> AllApart(init, r) && forall i :: 0 <= i < l ==> Apart(a, r, i, l);
  }

  lemma FirstApart(a: seq<nat>, r: nat, l: nat)
    requires |a| == l + 1
    ensures (forall i :: 0 <= i < l ==> Apart(a, r, i, l))
            <==> forall k :: Brought(a[..l], r, k) ==> !Brings(a, r, l, k)
  {
    hide Oldest, Brings, Apart;
    var init := a[..l];
    if forall i :: 0 <= i < l ==> Apart(a, r, i, l) {
      forall i, k | 0 <= i < l && Brings(init, r, i, k)
        ensures !Brings(a, r, l, k)
      {
        SameBrings(a, r, l, i);
        OneBoth(a, r, i, l);
      }
    } else {
      var i :| 0 <= i < l && !Apart(a, r, i, l);
      SameBrings(a, r, l, i);
      OneBoth(a, r, i, l);
      var k :| Brings(a, r, i, k) && Brings(a, r, l, k);
      assert Brings(init, r, i, k);
    }
  }

  lemma SameBrings(a: seq<nat>, r: nat, l: nat, i: nat)
    requires i < l <= |a|
    ensures forall k :: Brings(a[..l], r, i, k) <==> Brings(a, r, i, k)
  {
  }

  lemma OneBoth(a: seq<nat>, r: nat, i: nat, j: nat)
    requires i < |a| && j < |a|
    ensures Apart(a, r, i, j) <==> !exists k :: Brings(a, r, i, k) && Brings(a, r, j, k)
  {
    if !Apart(a, r, i, j) {
      var k := if a[i] < a[j] then a[i] else a[j];
      assert Brings(a, r, i, k) && Brings(a, r, j, k);
    }
  }

  lemma LastBrought(a: seq<nat>, r: nat, l: nat)
    requires |a| == l + 1
    ensures forall k :: Brought(a, r, k) <==> Brought(a[..l], r, k) || Brings(a, r, l, k)
  {
    hide Oldest, Brings;
    forall i, k | 0 <= i < l
      ensures Brings(a[..l], r, i, k) <==> Brings(a, r, i, k)
    {
      SameBrings(a, r, l, i);
    }
  }

  /** Delivering messages `lo` up to `hi`. */
  lemma {:induction false} RangeLogged(log: seq<Delivery>, h: History, lo: nat, hi: nat)
    requires lo <= hi <= |h|
    ensures var more := log + Range(h, lo, hi);
            && (forall k :: Logged(more, k) <==> Logged(log, k) || lo <= k < hi)
            && (NoneTwice(more) <==> NoneTwice(log) && !exists k :: lo <= k < hi && Logged(log, k))
    decreases hi - lo
  {
    hide NoneTwice, Logged;
    if lo == hi {
      assert log + Range(h, lo, hi) == log;
    } else {
      RangeLogged(log, h, lo, hi - 1);
      RangePush(h, lo, hi - 1);
      var most, d := log + Range(h, lo, hi - 1), Delivery(hi - 1, h[hi - 1]);
      assert log + Range(h, lo, hi) == most + [d];
      TwiceMore(most, d);
      forall k
        ensures Logged(most + [d], k) <==> Logged(most, k) || k == hi - 1
      {
        LoggedMore(most, d, k);
      }
    }
  }

  lemma TwiceMore(log: seq<Delivery>, d: Delivery)
    ensures NoneTwice(log + [d]) <==> NoneTwice(log) && !Logged(log, d.seqNo)
  {
    var more := log + [d];
    assert forall i :: 0 <= i < |log| ==> more[i] == log[i];
    if Logged(log, d.seqNo) {
      var i :| 0 <= i < |log| && log[i].seqNo == d.seqNo;
      assert more[i].seqNo == more[|log|].seqNo;
    }
  }

  lemma SameMessages(log: seq<Delivery>, h: History, lo: nat, hi: nat)
    requires lo <= hi <= |h| && forall d :: d in log ==> 0 <= d.seqNo < |h| && d.msg == h[d.seqNo]
    ensures forall d :: d in log + Range(h, lo, hi) ==> 0 <= d.seqNo < |h| && d.msg == h[d.seqNo]
  {
  }

  // ---------- the ring without parities ----------

  /** Of the last sixteen messages before `next` the ring holds just those delivered, exactly as they were
      sent; the slots of all others are marked missing. */
  ghost predicate KeepsDelivered(r: Ring, log: seq<Delivery>, h: History, next: nat) {
    next <= |h| && forall k :: next - 16 <= k < next ==>
      r[Place(k)] == if k >= 0 && Logged(log, k) then Slot(h[k], [], 0, 0) else MISSING
  }

  /** What is kept for a peer that goes over to forward error correction later. */
  lemma {:induction false} RedundancyRing(c: Config, h: History, a: seq<nat>)
    requires ConfigOk(c) && !c.scheme.Fec? && Arrivals(a, h)
    ensures var s := RunOf(c, h, a); KeepsDelivered(s.ring, s.log, h, s.next)
    ensures forall k :: Logged(RunOf(c, h, a).log, k) ==> 0 <= k < RunOf(c, h, a).next
    ensures a != [] ==> Logged(RunOf(c, h, a).log, a[|a| - 1])
  {
    hide RunOf, ContentAt, ConfigOk, Logged, KeepsDelivered, Repeats, Delivered, After, Range, Oldest;
    if a == [] {
      NothingKept(c, h, a);
    } else {
      var init, n := a[..|a| - 1], a[|a| - 1];
      assert a == init + [n];
      RedundancyRing(c, h, init);
      OneMoreArrival(c, h, init, n);
      ExpectedNext(c, h, init, n);
      var s := RunOf(c, h, init);
      PacketBrings(c, h, s.ring, s.next, n);
      assert n < s.next ==> init != [] && n == init[|init| - 1] && s.next == n + 1;
      if n < s.next {
        assert s.log + [] == s.log;
        KeptAgain(c, h, s.ring, s.log, n);
      } else {
        var lo := Oldest(Repeats(c), s.next, n);
        RangeLogged(s.log, h, lo, n + 1);
        KeptMore(c, h, s.ring, s.log, s.log + Range(h, lo, n + 1), s.next, n);
      }
    }
  }

  lemma NothingKept(c: Config, h: History, a: seq<nat>)
    requires ConfigOk(c) && WereSent(a, h) && a == []
    ensures var s := RunOf(c, h, a);
            s.log == [] && KeepsDelivered(s.ring, s.log, h, s.next) && forall k :: !Logged(s.log, k)
  {
  }

  /** The same packet again. */
  lemma KeptAgain(c: Config, h: History, r: Ring, log: seq<Delivery>, n: nat)
    requires ConfigOk(c) && !c.scheme.Fec? && n < |h| < 0x1_0000 && KeepsDelivered(r, log, h, n + 1) && Logged(log, n)
    ensures KeepsDelivered(After(r, n + 1, ContentAt(c, h, n)), log, h, n + 1)
  {
    hide Logged, WithKept, ConfigOk, ContentAt, Place;
    var p := ContentAt(c, h, n);
    NothingNew(r, p.secondaries, n, n + 1, |p.secondaries|);
    assert r[Place(n)] == Slot(h[n], [], 0, 0);
    assert r[Place(n) := r[Place(n)]] == r;
  }

  lemma KeptMore(c: Config, h: History, r: Ring, log: seq<Delivery>, more: seq<Delivery>, next: nat, n: nat)
    requires ConfigOk(c) && !c.scheme.Fec? && next <= n < |h| < 0x1_0000 && KeepsDelivered(r, log, h, next)
    requires forall k :: Logged(log, k) ==> 0 <= k < next
    requires forall k :: Logged(more, k) <==> Logged(log, k) || Oldest(Repeats(c), next, n) <= k < n + 1
    ensures KeepsDelivered(After(r, next, ContentAt(c, h, n)), more, h, n + 1)
  {
    SecondariesAt(c, h, n);
    RepeatsFew(c);
    hide Logged, WithKept, Marked, ConfigOk, ContentAt, Place, Repeats;
    var p := ContentAt(c, h, n);
    var mid := Marked(r, next, n)[Place(n) := Slot(p.msg, [], 0, 0)];
    forall k: int | n - 15 <= k < n + 1
      ensures After(r, next, p)[Place(k)] == if k >= 0 && Logged(more, k) then Slot(h[k], [], 0, 0) else MISSING
    {
      KeptAt(mid, p.secondaries, n, next, |p.secondaries|, k);
      if k < n {
        PlaceDistinct(k, n);
        MarkedAt(r, next, n, k);
      }
    }
  }

  lemma RepeatsFew(c: Config)
    requires ConfigOk(c) && !c.scheme.Fec?
    ensures Repeats(c) <= 15
  {
  }

  /** Where the secondaries are kept. */
  lemma {:induction false} KeptAt(r: Ring, s: seq<Octets>, n: int, next: int, i: nat, k: int)
    requires i <= |s| && i <= 15 && n - 16 < k <= n
    ensures WithKept(r, s, n, next, i)[Place(k)]
         == if next <= k < n && n - i <= k then Slot(s[n - k - 1], [], 0, 0) else r[Place(k)]
    decreases i
  {
    hide Place;
    if i > 0 {
      var r' := if n - i >= next then r[Place(n - i) := Slot(s[i - 1], [], 0, 0)] else r;
      KeptAt(r', s, n, next, i - 1, k);
      if k < n - i { PlaceDistinct(k, n - i); }
      if n - i < k { PlaceDistinct(n - i, k); }
    }
  }

  // ---------- whatever the scheme ----------

  /** Whatever the scheme: two packets of the same number, neither of them earlier than expected, deliver
      their message twice. */
  lemma OwnTwice(c: Config, h: History, a: seq<nat>, i: nat, j: nat)
    requires ConfigOk(c) && WereSent(a, h) && i < j < |a| && a[i] == a[j] && InTime(a, i) && InTime(a, j)
    ensures !NoneTwice(RunOf(c, h, a).log)
  {
    hide ContentAt, ConfigOk, RunOf, Logged, NoneTwice, After, Delivered;
    var n := a[i];
    OwnDelivered(c, h, a[..i + 1], i);
    LogGrows(c, h, a[..j], i + 1);
    assert a[..j][..i + 1] == a[..i + 1];
    StillLogged(RunOf(c, h, a[..i + 1]).log, RunOf(c, h, a[..j]).log, n);
    OwnAgain(c, h, a[..j], n);
    assert a[..j] + [n] == a[..j + 1];
    LogGrows(c, h, a, j + 1);
    TwiceStays(RunOf(c, h, a[..j + 1]).log, RunOf(c, h, a).log);
  }

  lemma OwnAgain(c: Config, h: History, a: seq<nat>, n: nat)
    requires ConfigOk(c) && WereSent(a, h) && n < |h| && RunOf(c, h, a).next <= n && Logged(RunOf(c, h, a).log, n)
    ensures WereSent(a + [n], h) && !NoneTwice(RunOf(c, h, a + [n]).log)
  {
    hide ContentAt, ConfigOk, RunOf, Logged, NoneTwice, After, Delivered;
    OneMoreArrival(c, h, a, n);
    var s := RunOf(c, h, a);
    PrimaryLast(s.ring, s.next, ContentAt(c, h, n));
    TwiceLast(s.log, Delivered(s.ring, s.next, ContentAt(c, h, n)), n);
  }

  lemma OwnDelivered(c: Config, h: History, a: seq<nat>, i: nat)
    requires ConfigOk(c) && WereSent(a, h) && |a| == i + 1 && InTime(a, i)
    ensures Logged(RunOf(c, h, a).log, a[i])
  {
    hide ContentAt, ConfigOk, RunOf;
    var init, n := a[..i], a[i];
    assert a == init + [n];
    OneMoreArrival(c, h, init, n);
    var s := RunOf(c, h, init);
    PrimaryLast(s.ring, s.next, ContentAt(c, h, n));
    var log := RunOf(c, h, a).log;
    assert log[|log| - 1].seqNo == n;
  }

  lemma PrimaryLast(r: Ring, next: int, p: Content)
    requires p.seqNo >= next
    ensures var d := Delivered(r, next, p); d != [] && d[|d| - 1] == Delivery(p.seqNo, p.msg)
  {
    hide Regained, FromSecondaries;
  }

  lemma {:induction false} LogGrows(c: Config, h: History, a: seq<nat>, i: nat)
    requires ConfigOk(c) && WereSent(a, h) && i <= |a|
    ensures RunOf(c, h, a[..i]).log <= RunOf(c, h, a).log
  {
    hide ContentAt, ConfigOk, After, Delivered;
    if i < |a| {
      LogGrows(c, h, a[..|a| - 1], i);
      assert a[..|a| - 1][..i] == a[..i];
    } else {
      assert a[..i] == a;
    }
  }

  lemma StillLogged(log: seq<Delivery>, more: seq<Delivery>, k: int)
    requires Logged(log, k) && log <= more
    ensures Logged(more, k)
  {
    assert more == log + more[|log|..];
    StaysLogged(log, more[|log|..], k);
  }

  lemma TwiceLast(log: seq<Delivery>, more: seq<Delivery>, k: int)
    requires Logged(log, k) && more != [] && more[|more| - 1].seqNo == k
    ensures !NoneTwice(log + more)
  {
    var i :| 0 <= i < |log| && log[i].seqNo == k;
    var all := log + more;
    assert all[i].seqNo == all[|all| - 1].seqNo;
  }

  lemma TwiceStays(log: seq<Delivery>, more: seq<Delivery>)
    requires !NoneTwice(log) && log <= more
    ensures !NoneTwice(more)
  {
    var i, j :| 0 <= i < j < |log| && log[i].seqNo == log[j].seqNo;
    assert more[i].seqNo == more[j].seqNo;
  }

  /** A packet that arrives after a later one sets the receiver back: when the later one is repeated, its
      message is delivered a second time. */
  lemma SetBack(c: Config, h: History, j: nat, n: nat)
    requires ConfigOk(c) && j < n < |h| < 0x1_0000
    ensures !NoneTwice(RunOf(c, h, [n, j, n]).log)
  {
    hide RunOf, NoneTwice, ConfigOk;
    OwnTwice(c, h, [n, j, n], 0, 2);
  }

  // ---------- with parities ----------

  /** Whatever arrives, the parities kept are of some use. */
  lemma {:induction false} RunFits(c: Config, h: History, a: seq<nat>)
    requires FecOk(c) && WereSent(a, h)
    ensures RingFits(RunOf(c, h, a).ring)
  {
    hide ContentAt, ConfigOk, RingFits, AfterFec, Delivered;
    if a == [] {
      NoneFit();
    } else {
      var init, n := a[..|a| - 1], a[|a| - 1];
      RunFits(c, h, init);
      var s := RunOf(c, h, init);
      PacketFits(s.ring, s.next, ContentAt(c, h, n));
    }
  }

  lemma NoneFit()
    ensures RingFits(seq(16, _ => MISSING))
  {
  }

  lemma PacketFits(r: Ring, next: int, p: Content)
    requires RingFits(r) && ContentOk(p) && p.WithParities?
    ensures RingFits(AfterFec(r, next, p))
  {
    hide RepairAll, Marked;
    MarkedFits(r, next, p.seqNo, p.msg);
    assert SlotFits(Slot(p.msg, p.parities, p.span, |p.parities|));
    var mid, after := BeforeRepair(r, next, p), AfterFec(r, next, p);
    forall x | 0 <= x < 16
      ensures SlotFits(after[x])
    {
      assert after[x] == mid[x].(msg := after[x].msg);
      assert x != Place(p.seqNo) ==>
          mid[x] == Marked(r, next, p.seqNo)[Place(p.seqNo) := Slot(p.msg, [], 0, 0)][x];
    }
  }

  /** Two rings in which the same messages are missing, and the same parities are there. */
  ghost predicate Alike(r: Ring, r': Ring) {
    && RingFits(r) && RingFits(r')
    && forall x :: 0 <= x < 16 ==> SlotsAlike(r[x], r'[x])
  }

  predicate SlotsAlike(s: Slot, s': Slot) {
    && (s.msg == [] <==> s'.msg == []) && |s.parities| == |s'.parities|
    && s.span == s'.span && s.entries == s'.entries
  }

  predicate GroupsAlike(g: seq<Octets>, g': seq<Octets>) {
    |g| == |g'| && forall i :: 0 <= i < |g| ==> (g[i] == [] <==> g'[i] == [])
  }

  ghost predicate SameNumbers(log: seq<Delivery>, log': seq<Delivery>) {
    |log| == |log'| && forall i :: 0 <= i < |log| ==> log[i].seqNo == log'[i].seqNo
  }

  /** Which numbers are delivered, and so whether one of them is delivered twice, depends on what arrives
      only, and not on what the messages are. */
  lemma {:induction false} NumbersOnly(c: Config, h: History, h': History, a: seq<nat>)
    requires FecOk(c) && WereSent(a, h) && WereSent(a, h')
    ensures var s, s' := RunOf(c, h, a), RunOf(c, h', a);
            && s.next == s'.next && Alike(s.ring, s'.ring) && SameNumbers(s.log, s'.log)
            && (NoneTwice(s.log) <==> NoneTwice(s'.log))
  {
    hide ContentAt, ConfigOk, Alike, SameNumbers, NoneTwice, AfterFec, Delivered;
    if a == [] {
      AlikeStart();
    } else {
      var init, n := a[..|a| - 1], a[|a| - 1];
      NumbersOnly(c, h, h', init);
      var s, s' := RunOf(c, h, init), RunOf(c, h', init);
      var p, p' := ContentAt(c, h, n), ContentAt(c, h', n);
      ContentsAlike(c, h, h', n);
      PacketAlike(s.ring, s'.ring, s.next, p, p');
      NumbersJoin(s.log, s'.log, Delivered(s.ring, s.next, p), Delivered(s'.ring, s'.next, p'));
    }
    SameTwice(RunOf(c, h, a).log, RunOf(c, h', a).log);
  }

  lemma AlikeStart()
    ensures Alike(seq(16, _ => MISSING), seq(16, _ => MISSING)) && SameNumbers([], [])
  {
  }

  lemma SameTwice(log: seq<Delivery>, log': seq<Delivery>)
    requires SameNumbers(log, log')
    ensures NoneTwice(log) <==> NoneTwice(log')
  {
  }

  lemma NumbersJoin(a: seq<Delivery>, a': seq<Delivery>, b: seq<Delivery>, b': seq<Delivery>)
    requires SameNumbers(a, a') && SameNumbers(b, b')
    ensures SameNumbers(a + b, a' + b')
  {
  }

  /** Two packets of the same number that carry as many parities, of groups as large. */
  predicate PacketsAlike(p: Content, p': Content) {
    && ContentOk(p) && ContentOk(p') && p.WithParities? && p'.WithParities?
    && p.seqNo == p'.seqNo && p.span == p'.span && |p.parities| == |p'.parities|
  }

  lemma ContentsAlike(c: Config, h: History, h': History, n: nat)
    requires FecOk(c) && n < |h| && n < |h'| && n < 0x1_0000
    ensures PacketsAlike(ContentAt(c, h, n), ContentAt(c, h', n))
  {
    hide EntriesAt, SpanAt;
  }

  lemma PacketAlike(r: Ring, r': Ring, next: int, p: Content, p': Content)
    requires Alike(r, r') && PacketsAlike(p, p')
    ensures Alike(AfterFec(r, next, p), AfterFec(r', next, p'))
    ensures SameNumbers(Delivered(r, next, p), Delivered(r', next, p'))
  {
    hide RepairAll, Regained, Marked, Alike, ContentOk;
    MarkedAlike(r, r', next, p.seqNo);
    SavedAlike(Marked(r, next, p.seqNo), Marked(r', next, p.seqNo), p, p');
    var mid, mid' := BeforeRepair(r, next, p), BeforeRepair(r', next, p');
    AllAlike(mid, mid', p.seqNo, Reach(p.span * |p.parities|));
    RegainedAlike(mid, mid', AfterFec(r, next, p), AfterFec(r', next, p'), p.seqNo - 15, p.seqNo);
  }

  lemma {:induction false} MarkedAlike(r: Ring, r': Ring, from: int, end: int)
    requires Alike(r, r')
    ensures Alike(Marked(r, from, end), Marked(r', from, end))
    decreases if from < end then end - from else 0
  {
    if from < end {
      MarkedAlike(r, r', from, end - 1);
    }
  }

  lemma SavedAlike(r: Ring, r': Ring, p: Content, p': Content)
    requires Alike(r, r') && PacketsAlike(p, p')
    ensures Alike(r[Place(p.seqNo) := Slot(p.msg, p.parities, p.span, |p.parities|)],
                  r'[Place(p'.seqNo) := Slot(p'.msg, p'.parities, p'.span, |p'.parities|)])
  {
  }

  lemma {:induction false} LackingAlike(g: seq<Octets>, g': seq<Octets>)
    requires GroupsAlike(g, g')
    ensures LackingOf(g) == LackingOf(g')
  {
    if g != [] {
      LackingAlike(g[..|g| - 1], g'[..|g| - 1]);
    }
  }

  lemma GroupAlike(r: Ring, r': Ring, l: nat, m: nat)
    requires Alike(r, r') && l < 16 && m < |r[l].parities|
    ensures m < |r'[l].parities| && Alike(RepairGroup(r, l, m), RepairGroup(r', l, m))
  {
    hide Rebuilt, LackingOf, Place;
    assert SlotsAlike(r[l], r'[l]) && SlotFits(r[l]) && SlotFits(r'[l]);
    var s := r[l];
    var g, g' := RingGroup(r, l + m, s.span, s.entries), RingGroup(r', l + m, s.span, s.entries);
    forall i | 0 <= i < |g|
      ensures g[i] == [] <==> g'[i] == []
    {
      assert SlotsAlike(r[GroupPlace(l + m, s.span, s.entries, i)], r'[GroupPlace(l + m, s.span, s.entries, i)]);
    }
    LackingAlike(g, g');
  }

  lemma {:induction false} SlotAlike(r: Ring, r': Ring, l: nat, m: nat)
    requires Alike(r, r') && l < 16 && m <= |r[l].parities|
    ensures m <= |r'[l].parities| && Alike(RepairSlot(r, l, m), RepairSlot(r', l, m))
  {
    hide RepairGroup, Alike;
    SameParities(r, r', l);
    if m > 0 {
      SlotAlike(r, r', l, m - 1);
      GroupAlike(RepairSlot(r, l, m - 1), RepairSlot(r', l, m - 1), l, m - 1);
    }
  }

  lemma SameParities(r: Ring, r': Ring, l: nat)
    requires Alike(r, r') && l < 16
    ensures |r[l].parities| == |r'[l].parities|
  {
    assert SlotsAlike(r[l], r'[l]);
  }

  lemma {:induction false} AllAlike(r: Ring, r': Ring, x: int, n: nat)
    requires Alike(r, r')
    ensures Alike(RepairAll(r, x, n), RepairAll(r', x, n))
    decreases n
  {
    hide RepairSlot, Alike;
    if n > 0 {
      var l := Place(x);
      SameParities(r, r', l);
      SlotAlike(r, r', l, |r[l].parities|);
      AllAlike(RepairSlot(r, l, |r[l].parities|), RepairSlot(r', l, |r[l].parities|), x - 1, n - 1);
    }
  }

  lemma {:induction false} RegainedAlike(r: Ring, r': Ring, s: Ring, s': Ring, lo: int, hi: int)
    requires Alike(r, r') && Alike(s, s')
    ensures SameNumbers(Regained(r, s, lo, hi), Regained(r', s', lo, hi))
    decreases if lo < hi then hi - lo else 0
  {
    if lo < hi {
      RegainedAlike(r, r', s, s', lo, hi - 1);
      var x := Place(hi - 1);
      assert SlotsAlike(r[x], r'[x]) && SlotsAlike(s[x], s'[x]);
    }
  }
}
