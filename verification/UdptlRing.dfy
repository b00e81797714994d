/** The ring of sixteen slots in which a receiver keeps what it has got, and what repairing the gaps in
    it from the parities amounts to. */
module UdptlRing {
  import opened LengthCoding
  import opened Parity
  import opened UdptlPackets

  /** A message (empty if it is missing), and the parities of the packet that brought it. */
  datatype Slot = Slot(msg: Octets, parities: seq<Octets>, span: nat, entries: nat)

  const MISSING := Slot([], [], 0, 0)

  type Ring = r: seq<Slot> | |r| == 16 witness seq(16, _ => MISSING)

  datatype Delivery = Delivery(seqNo: int, msg: Octets)

  /** The slot of the message with number `k`. */
  function Place(k: int): (x: nat)
    ensures x < 16
  {
    k % 16
  }

  /** Numbers less than sixteen apart have different slots. */
  lemma PlaceDistinct(a: int, b: int)
    requires a < b < a + 16
    ensures Place(a) != Place(b)
  {
  }

  /** The slot does not depend on the number of times the sequence number has wrapped. */
  lemma PlaceWraps(k: nat)
    ensures Place(k % 0x1_0000) == Place(k)
  {
  }

  lemma PlaceSum(a: int, b: int)
    ensures Place(Place(a) + b) == Place(a + b)
  {
  }

  /** The slots in which the messages of a group are, from the oldest to the newest; the group ends
      `entries` numbers before `limit`. */
  function GroupPlace(limit: int, span: nat, entries: nat, i: nat): (x: nat)
    requires i < span
    ensures x < 16
  {
    Place(limit - entries * (span - i))
  }

  /** Reducing the limit to a slot number makes no difference. */
  lemma LimitReduced(limit: int, span: nat, entries: nat, i: nat)
    requires i < span
    ensures GroupPlace(Place(limit), span, entries, i) == GroupPlace(limit, span, entries, i)
  {
    hide Place;
    var d := entries * (span - i);
    PlaceSum(limit, -d);
    assert Place(limit) - d == Place(limit) + -d && limit - d == limit + -d;
  }

  function RingGroup(r: Ring, limit: int, span: nat, entries: nat): (g: seq<Octets>)
    ensures |g| == span
  {
    seq(span, i requires 0 <= i < span => r[GroupPlace(limit, span, entries, i)].msg)
  }

  datatype Lacking = Nothing | One(i: nat) | Several

  /** Which messages of a group are missing. */
  function LackingOf(g: seq<Octets>): (w: Lacking)
    ensures w.One? ==> w.i < |g| && g[w.i] == [] && forall i :: 0 <= i < |g| && i != w.i ==> g[i] != []
    ensures w.Nothing? <==> forall i :: 0 <= i < |g| ==> g[i] != []
    ensures w.Several? ==> exists i, j :: 0 <= i < j < |g| && g[i] == [] && g[j] == []
  {
    if g == [] then Nothing else
    var w := LackingOf(g[..|g| - 1]);
    if g[|g| - 1] != [] then w else if w == Nothing then One(|g| - 1) else Several
  }

  /** What parity `p` says is missing from a group. */
  function Rebuilt(p: Octets, g: seq<Octets>): (d: Octets)
    ensures |d| == |p| && forall j :: 0 <= j < |d| ==> d[j] == Xor(p[j], XorAt(g, j))
  {
    seq(|p|, j requires 0 <= j < |p| => Xor(p[j], XorAt(g, j)))
  }

  /** Parity `m` of slot `l` is used to repair the only message missing from its group. */
  function RepairGroup(r: Ring, l: nat, m: nat): (r': Ring)
    requires l < 16 && m < |r[l].parities|
    ensures forall x :: 0 <= x < 16 && r[x].msg != [] ==> r'[x] == r[x]
    ensures forall x :: 0 <= x < 16 ==> r'[x] == r[x].(msg := r'[x].msg)
  {
    var s := r[l];
    var g := RingGroup(r, l + m, s.span, s.entries);
    match LackingOf(g)
    case One(i) =>
      var x := GroupPlace(l + m, s.span, s.entries, i);
      r[x := r[x].(msg := Rebuilt(s.parities[m], g))]
    case _ => r
  }

  /** The first `n` parities of slot `l` are used. */
  function RepairSlot(r: Ring, l: nat, n: nat): (r': Ring)
    requires l < 16 && n <= |r[l].parities|
    ensures forall x :: 0 <= x < 16 && r[x].msg != [] ==> r'[x] == r[x]
    ensures forall x :: 0 <= x < 16 ==> r'[x] == r[x].(msg := r'[x].msg)
  {
    if n == 0 then r else RepairGroup(RepairSlot(r, l, n - 1), l, n - 1)
  }

  /** Message `x` and the `n - 1` ones before it serve to repair others, the latest one first. */
  function RepairAll(r: Ring, x: int, n: nat): (r': Ring)
    ensures forall x :: 0 <= x < 16 && r[x].msg != [] ==> r'[x] == r[x]
    ensures forall x :: 0 <= x < 16 ==> r'[x] == r[x].(msg := r'[x].msg)
    decreases n
  {
    if n == 0 then r else
    RepairAll(RepairSlot(r, Place(x), |r[Place(x)].parities|), x - 1, n - 1)
  }

  /** The slots of messages `from` up to `to` are marked missing. */
  function Marked(r: Ring, from: int, to: int): Ring
    decreases if from < to then to - from else 0
  {
    if to <= from then r else Marked(r, from, to - 1)[Place(to - 1) := MISSING]
  }

  /** The messages numbered `lo` up to `hi` that were missing in one ring and are there in another. */
  function Regained(before: Ring, after: Ring, lo: int, hi: int): seq<Delivery>
    decreases if lo < hi then hi - lo else 0
  {
    if hi <= lo then [] else
    Regained(before, after, lo, hi - 1) + RegainedAt(before, after, hi - 1)
  }

  function RegainedAt(before: Ring, after: Ring, k: int): seq<Delivery> {
    var x := Place(k);
    if before[x].msg == [] && after[x].msg != [] then [Delivery(k, after[x].msg)] else []
  }

  /** How many slots before and including the one just received are used for repairs. */
  function Reach(p: nat): nat {
    if p == 0 then 0 else 16 - Least(p, 16)
  }

  /** The ring once a packet with parities has been taken in. */
  function AfterFec(r: Ring, next: int, c: Content): Ring
    requires c.WithParities?
  {
    RepairAll(BeforeRepair(r, next, c), c.seqNo, Reach(c.span * |c.parities|))
  }

  function BeforeRepair(r: Ring, next: int, c: Content): Ring
    requires c.WithParities?
  {
    Marked(r, next, c.seqNo)[Place(c.seqNo) := Slot(c.msg, c.parities, c.span, |c.parities|)]
  }

  /** What the receiver of a packet, when it expects message `next`, hands on. */
  function Delivered(r: Ring, next: int, c: Content): seq<Delivery> {
    var primary := if c.seqNo >= next then [Delivery(c.seqNo, c.msg)] else [];
    match c
    case WithSecondaries(n, _, s) => FromSecondaries(s, n, next, |s|) + primary
    case WithParities(n, _, _, _) =>
      Regained(BeforeRepair(r, next, c), AfterFec(r, next, c), n - 15, n) + primary
  }

  /** Of the first `i` secondaries, those that were not seen before, the oldest one first. */
  function FromSecondaries(s: seq<Octets>, n: int, next: int, i: nat): seq<Delivery>
    requires i <= |s|
  {
    if i == 0 then []
    else (if n - i >= next then [Delivery(n - i, s[i - 1])] else []) + FromSecondaries(s, n, next, i - 1)
  }

  /** The secondaries that were not seen before are kept, the oldest one first. */
  function WithKept(r: Ring, s: seq<Octets>, n: int, next: int, i: nat): Ring
    requires i <= |s|
    decreases i
  {
    if i == 0 then r
    else WithKept(if n - i >= next then r[Place(n - i) := Slot(s[i - 1], [], 0, 0)] else r, s, n, next, i - 1)
  }

  /** The ring once a packet has been taken in. */
  function After(r: Ring, next: int, c: Content): Ring {
    match c
    case WithSecondaries(n, msg, s) => WithKept(Marked(r, next, n)[Place(n) := Slot(msg, [], 0, 0)], s, n, next, |s|)
    case WithParities(_, _, _, _) => AfterFec(r, next, c)
  }

  /** The parities of a slot are of some use, and reach back no further than the ring. */
  predicate SlotFits(s: Slot) {
    s.parities == [] || (|s.parities| == s.entries && s.span * s.entries <= 15
                         && forall m :: 0 <= m < |s.parities| ==> s.parities[m] != [])
  }

  predicate RingFits(r: Ring) {
    forall x :: 0 <= x < 16 ==> SlotFits(r[x])
  }

  /** The next slot of a group is `entries` on; behind the newest member comes the limit. */
  lemma GroupStep(limit: nat, span: nat, entries: nat, t: nat)
    requires limit < 16 && t <= span
    ensures t == span ==> Place(limit - entries * (span - t)) == limit
    ensures t < span ==>
              Place(Place(limit - entries * (span - t)) + entries) == Place(limit - entries * (span - (t + 1)))
  {
    if t == span {
      assert entries * (span - t) == 0;
    } else {
      var d := entries * (span - t);
      assert entries * (span - (t + 1)) == d - entries;
      PlaceSum(limit - d, entries);
    }
  }

  /** Counting up from the oldest member of a group in steps of `entries`, the limit is not met before
      all members have been. */
  lemma GroupWalk(limit: nat, span: nat, entries: nat, t: nat)
    requires limit < 16 && t <= span && entries >= 1 && span * entries <= 15
    ensures Place(limit - entries * (span - t)) == limit <==> t == span
  {
    if t == span {
      assert entries * (span - t) == 0;
    } else {
      Below(entries, span, t);
      PlaceDistinct(limit - entries * (span - t), limit);
    }
  }

  /** What a search for the missing message of a group finds: its slot, -1 for none, -2 for several. */
  predicate Which(which: int, w: Lacking, limit: nat, span: nat, entries: nat)
    requires w.One? ==> w.i < span
  {
    match w
    case Nothing => which == -1
    case One(i) => which == GroupPlace(limit, span, entries, i)
    case Several => which == -2
  }
}
