/** A UDPTL endpoint: `udptl_build_packet` and `udptl_rx_packet`, and the rings they share. */
module Udptl {
  import opened Bits
  import opened LengthCoding
  import opened Parity
  import opened UdptlPackets
  import opened UdptlRing
  import opened UdptlFec
  import opened UdptlReading

  /** The parity of the messages in the slots of a group. */
  function SentGroup(tx: seq<Octets>, limit: nat, span: nat, entries: nat): (g: seq<Octets>)
    requires |tx| == 16
    ensures |g| == span
  {
    seq(span, i requires 0 <= i < span => tx[GroupPlace(limit, span, entries, i)])
  }

  /** The last `e` messages before the one in slot `entry`, the latest first. */
  function SentBefore(tx: seq<Octets>, entry: nat, e: nat): (g: seq<Octets>)
    requires |tx| == 16
    ensures |g| == e
  {
    seq(e, i requires 0 <= i < e => tx[Place(entry - i - 1)])
  }

  function SentParities(tx: seq<Octets>, entry: nat, span: nat, entries: nat): (g: seq<Octets>)
    requires |tx| == 16
    ensures |g| == entries
  {
    seq(entries, m requires 0 <= m < entries => ParityOf(SentGroup(tx, Place(entry + m), span, entries)))
  }

  /** The last sixteen messages are in the ring. */
  ghost predicate HoldsSent(tx: seq<Octets>, h: History) {
    |tx| == 16 && forall k :: 0 <= k < |h| && |h| - 16 <= k ==> tx[Place(k)] == h[k]
  }

  lemma OneMoreSent(tx: seq<Octets>, h: History, msg: Octets)
    requires HoldsSent(tx, h) && Sendable(msg)
    ensures HoldsSent(tx[Place(|h|) := msg], h + [msg])
  {
    forall k | 0 <= k < |h| && |h| - 15 <= k
      ensures tx[Place(|h|) := msg][Place(k)] == h[k]
    {
      PlaceDistinct(k, |h|);
    }
  }

  /** What the ring yields are the secondaries of packet `n`. */
  lemma SecondariesSent(c: Config, tx: seq<Octets>, h: History, n: nat)
    requires ConfigOk(c) && HoldsSent(tx, h) && |h| == n + 1 && n < 0x1_0000
    requires c.scheme.Redundancy?
    ensures SentBefore(tx, Place(n), Least(n, c.entries)) == ContentAt(c, h, n).secondaries
  {
    var e := Least(n, c.entries);
    forall i | 0 <= i < e
      ensures SentBefore(tx, Place(n), e)[i] == h[n - 1 - i]
    {
      PlaceSum(n, -i - 1);
    }
  }

  /** What the ring yields are the parities of packet `n`: the slots visited are exactly those of the
      messages that it should cover, and none that was never written. */
  lemma ParitiesSent(c: Config, tx: seq<Octets>, h: History, n: nat)
    requires FecOk(c) && HoldsSent(tx, h) && |h| == n + 1
    ensures SentParities(tx, Place(n), SpanAt(c, n), EntriesAt(c, n)) == ParitiesAt(c, h, n)
  {
    WindUp(c, n);
    DepthMonotone(c, n, n);
    hide EntriesAt, SpanAt, ConfigOk, ParityOf, Member;
    assert c.span >= 1;
    var e, s := EntriesAt(c, n), SpanAt(c, n);
    forall m | 0 <= m < e
      ensures SentGroup(tx, Place(Place(n) + m), s, e) == GroupOf(h, n, s, e, m)
    {
      forall i | 0 <= i < s
        ensures tx[GroupPlace(Place(Place(n) + m), s, e, i)] == h[Member(n, s, e, m, i)]
      {
        LimitReduced(Place(n) + m, s, e, i);
        GroupPlaces(c, n, m, i);
      }
      assert SentGroup(tx, Place(Place(n) + m), s, e) == GroupOf(h, n, s, e, m);
    }
  }

  lemma {:induction false} OpenTypesAppend(g: seq<Octets>, d: Octets)
    ensures OpenTypes(g + [d]) == OpenTypes(g) + OpenType(d)
  {
    hide OpenType;
    if g == [] {
      assert [d][1..] == [];
    } else {
      OpenTypesAppend(g[1..], d);
      assert (g + [d])[1..] == g[1..] + [d];
    }
  }

  lemma ParityAppend(g: seq<Octets>, t: nat)
    requires t < |g|
    ensures ParityOf(g[..t + 1]) == Merged(ParityOf(g[..t]), g[t])
  {
    assert g[..t + 1][..t] == g[..t];
  }

  /** Combine a message with the parity in the first `high` octets of `fec`. */
  method MergeInto(fec: array<byte>, high: nat, d: Octets) returns (high': nat)
    requires high <= fec.Length && |d| <= fec.Length
    modifies fec
    ensures high' == (if high < |d| then |d| else high) && fec[..high'] == Merged(old(fec[..high]), d)
  {
    ghost var was := fec[..high];
    XorZero();
    if high < |d| {
      var j := 0;
      while j < high
        invariant j <= high
        invariant forall k :: 0 <= k < j ==> fec[k] == Xor(At(was, k), At(d, k))
        invariant forall k :: j <= k < high ==> fec[k] == was[k]
      {
        fec[j] := Xor(fec[j], d[j]);
        j := j + 1;
      }
      while j < |d|
        invariant high <= j <= |d|
        invariant forall k :: 0 <= k < j ==> fec[k] == Xor(At(was, k), At(d, k))
      {
        fec[j] := d[j];
        j := j + 1;
      }
      high' := |d|;
    } else {
      var j := 0;
      while j < |d|
        invariant j <= |d|
        invariant forall k :: 0 <= k < j ==> fec[k] == Xor(At(was, k), At(d, k))
        invariant forall k :: j <= k < high ==> fec[k] == was[k]
      {
        fec[j] := Xor(fec[j], d[j]);
        j := j + 1;
      }
      high' := high;
    }
    assert fec[..high'] == Merged(was, d);
  }

  lemma XorZero()
    ensures forall a: byte :: Xor(0, a) == a && Xor(a, 0) == a
  {
    forall a: byte
      ensures Xor(0, a) == a && Xor(a, 0) == a
    {
      XorLaws(a, a, a);
    }
  }

  class Endpoint {
    const config: Config
    var txSeqNo: nat
    const tx: array<Octets>
    var rxSeqNo: nat
    const rx: array<Slot>
    /** What the packet handler has been given. */
    var log: seq<Delivery>

    ghost predicate Valid()
      reads this, tx, rx
    {
      && ConfigOk(config) && tx.Length == 16 && rx.Length == 16 && (tx as object) != rx
      && forall x :: 0 <= x < 16 ==> |tx[x]| <= MAX_DATAGRAM
    }

    /** `udptl_init` */
    constructor (config: Config)
      requires ConfigOk(config)
      ensures Valid() && this.config == config && fresh(tx) && fresh(rx)
      ensures Sent([]) && rxSeqNo == 0 && log == [] && rx[..] == seq(16, _ => MISSING)
    {
      this.config := config;
      tx, rx := new Octets[16](_ => []), new Slot[16](_ => MISSING);
      txSeqNo, rxSeqNo, log := 0, 0, [];
    }

    // ---------- sending ----------

    /** The messages `h` have been sent, and the last sixteen of them are in the ring. */
    ghost predicate Sent(h: History)
      requires Valid()
      reads this, tx, rx
    {
      txSeqNo == |h| && HoldsSent(tx[..], h)
    }

    /** The parity of a group in the ring. */
    method BuildParity(limit: nat, span: nat, entries: nat) returns (parity: Octets)
      requires Valid() && limit < 16 && entries >= 1 && span * entries <= 15
      ensures parity == ParityOf(SentGroup(tx[..], limit, span, entries))
    {
      hide ParityOf, Place, ConfigOk;
      ghost var g := SentGroup(tx[..], limit, span, entries);
      var fec := new byte[MAX_DATAGRAM](_ => 0);
      var high: nat := 0;
      var i := Place(limit - span * entries);
      ghost var t := 0;
      NoParity(g);
      GroupStep(limit, span, entries, 0);
      while i != limit
        invariant t <= span && i == Place(limit - entries * (span - t)) && high <= fec.Length
        invariant fec[..high] == ParityOf(g[..t])
        decreases span - t
      {
        GroupStep(limit, span, entries, t);
        ParityAppend(g, t);
        assert g[t] == tx[i];
        high := MergeInto(fec, high, tx[i]);
        i := Place(i + entries);
        t := t + 1;
        GroupStep(limit, span, entries, t);
      }
      GroupWalk(limit, span, entries, t);
      assert g[..t] == g;
      parity := fec[..high];
    }

    /** The secondary messages. */
    method PutSecondaries(buf: Octets, entry: nat) returns (buf': Octets)
      requires Valid() && config.scheme.Redundancy?
      ensures var s := SentBefore(tx[..], entry, Least(txSeqNo, config.entries));
              buf' == buf + ([0x00] + (LengthOctets(|s|) + OpenTypes(s)))
    {
      hide OpenType, Place, LengthOctets;
      buf' := buf + [0x00];
      var entries := if txSeqNo > config.entries then config.entries else txSeqNo;
      ghost var s := SentBefore(tx[..], entry, entries);
      var enclen;
      buf', enclen := EncodeLength(buf', entries);
      ghost var head := buf';
      for i := 0 to entries
        invariant buf' == head + OpenTypes(s[..i])
      {
        var j := Place(entry - i - 1);
        buf' := EncodeOpenType(buf', tx[j]);
        OpenTypesAppend(s[..i], s[i]);
        assert s[..i + 1] == s[..i] + [s[i]];
      }
      assert s[..entries] == s;
    }

    /** The parities. */
    method PutParities(buf: Octets, seqNo: nat, entry: nat) returns (buf': Octets)
      requires Valid() && config.scheme.Fec?
      ensures var e, s := EntriesAt(config, seqNo), SpanAt(config, seqNo);
              && e < 256 && s < 256
              && buf' == buf + ([0x80, 1, s, e] + OpenTypes(SentParities(tx[..], entry, s, e)))
    {
      WindUp(config, seqNo);
      SpanSmall(config);
      hide OpenType, Place, ParityOf, ConfigOk;
      var span, entries := config.span, config.entries;
      if seqNo < config.span * config.entries {
        entries := seqNo / config.span;
        if seqNo < config.span {
          span := 0;
        }
      }
      buf' := buf + [0x80];
      buf' := buf' + [1];
      buf' := buf' + [span];
      buf' := buf' + [entries];
      ghost var head := buf';
      assert head == buf + [0x80, 1, span, entries];
      ghost var s := SentParities(tx[..], entry, span, entries);
      buf' := PutEntries(buf', entry, span, entries);
      Joined(buf', buf, [0x80, 1, span, entries], OpenTypes(s));
    }

    method PutEntries(buf: Octets, entry: nat, span: nat, entries: nat) returns (buf': Octets)
      requires Valid() && span * entries <= 15
      ensures buf' == buf + OpenTypes(SentParities(tx[..], entry, span, entries))
    {
      hide OpenType, Place, ParityOf, ConfigOk;
      ghost var s := SentParities(tx[..], entry, span, entries);
      buf' := buf;
      for m := 0 to entries
        invariant buf' == buf + OpenTypes(s[..m])
      {
        var limit := Place(entry + m);
        var fec := BuildParity(limit, span, entries);
        buf' := EncodeOpenType(buf', fec);
        OpenTypesAppend(s[..m], s[m]);
        assert s[..m + 1] == s[..m] + [s[m]];
      }
      assert s[..entries] == s;
    }

    method PutRecovery(buf: Octets, seqNo: nat, entry: nat) returns (buf': Octets)
      requires Valid()
      ensures seqNo == txSeqNo && entry == Place(seqNo) ==> buf' == buf + SentRecovery(config, tx[..], seqNo)
    {
      match config.scheme {
        case NoCorrection =>
          buf' := buf + [0x00];
          var enclen;
          buf', enclen := EncodeLength(buf', 0);
        case Redundancy =>
          buf' := PutSecondaries(buf, entry);
        case Fec =>
          buf' := PutParities(buf, seqNo, entry);
      }
    }

    /** The sequence number. */
    method PutHeader(seqNo: nat) returns (buf: Octets)
      ensures buf == Header(seqNo)
    {
      buf := [seqNo / 256 % 256];
      buf := buf + [seqNo % 256];
    }

    /** `udptl_build_packet`, when `h` has been sent already. */
    method BuildPacket(msg: Octets, ghost h: History) returns (packet: Octets, ok: bool)
      requires Valid()
      modifies this`txSeqNo, tx
      ensures Valid() && ok == Sendable(msg)
      ensures !ok ==> txSeqNo == old(txSeqNo) && tx[..] == old(tx[..])
      ensures ok && old(Sent(h)) ==> Sent(h + [msg])
      ensures ok && old(Sent(h)) && |h| < 0x1_0000 ==> packet == Packet(ContentAt(config, h + [msg], |h|))
    {
      hide OpenType, HoldsSent, SentRecovery, ConfigOk, Recovery, ContentAt, Packet, Header, Place;
      if |msg| < 1 || |msg| > MAX_DATAGRAM {
        return [], false;
      }
      ghost var sent := Sent(h);
      if sent { OneMoreSent(tx[..], h, msg); }
      var seqNo := txSeqNo % 0x1_0000;
      var entry := Place(seqNo);
      PlaceWraps(txSeqNo);
      tx[entry] := msg;
      packet := PutHeader(seqNo);
      packet := EncodeOpenType(packet, msg);
      packet := PutRecovery(packet, seqNo, entry);
      if sent && |h| < 0x1_0000 { PacketSent(config, tx[..], h, msg, packet); }
      txSeqNo := txSeqNo + 1;
      ok := true;
    }

    // ---------- receiving ----------

    /** Mark the slots of all messages skipped. */
    method MarkMissed(seqNo: nat)
      requires Valid()
      modifies rx
      ensures Valid() && rx[..] == Marked(old(rx[..]), rxSeqNo, seqNo)
    {
      var i := rxSeqNo;
      while seqNo > i
        invariant rxSeqNo <= i && (i <= seqNo || i == rxSeqNo)
        invariant rx[..] == Marked(old(rx[..]), rxSeqNo, i)
      {
        rx[Place(i)] := MISSING;
        i := i + 1;
      }
    }

    /** Keep the secondaries not seen before and hand them on, the oldest one first. */
    method PlaySecondaries(bufs: seq<Octets>, seqNo: nat)
      requires Valid()
      modifies this`log, rx
      ensures Valid()
      ensures log == old(log) + FromSecondaries(bufs, seqNo, rxSeqNo, |bufs|)
      ensures rx[..] == WithKept(old(rx[..]), bufs, seqNo, rxSeqNo, |bufs|)
    {
      var i: nat := |bufs|;
      while i > 0
        invariant i <= |bufs|
        invariant log + FromSecondaries(bufs, seqNo, rxSeqNo, i)
               == old(log) + FromSecondaries(bufs, seqNo, rxSeqNo, |bufs|)
        invariant WithKept(rx[..], bufs, seqNo, rxSeqNo, i) == WithKept(old(rx[..]), bufs, seqNo, rxSeqNo, |bufs|)
      {
        if seqNo - i >= rxSeqNo {
          rx[Place(seqNo - i)] := Slot(bufs[i - 1], [], 0, 0);
          log := log + [Delivery(seqNo - i, bufs[i - 1])];
        }
        i := i - 1;
      }
    }

    /** Look for the message missing from a group. */
    method FindMissing(limit: nat, span: nat, entries: nat) returns (which: int)
      requires Valid() && limit < 16
      ensures which < 16
      ensures entries >= 1 && span * entries <= 15 ==>
                Which(which, LackingOf(RingGroup(rx[..], limit, span, entries)), limit, span, entries)
    {
      hide Place, ConfigOk, Which, LackingOf;
      ghost var g := RingGroup(rx[..], limit, span, entries);
      WhichNone(g, limit, span, entries);
      which := -1;
      var k := Place(limit - span * entries);
      ghost var t := 0;
      GroupStep(limit, span, entries, 0);
      while k != limit
        invariant t <= span && k == Place(limit - entries * (span - t)) && which < 16
        invariant t == span ==> k == limit
        invariant Which(which, LackingOf(g[..t]), limit, span, entries)
        decreases span - t
      {
        GroupStep(limit, span, entries, t);
        WhichNext(g, t, k, which, limit, span, entries);
        assert g[t] == rx[k].msg;
        if rx[k].msg == [] {
          which := if which == -1 then k else -2;
        }
        k := Place(k + entries);
        t := t + 1;
        GroupStep(limit, span, entries, t);
      }
      if entries >= 1 && span * entries <= 15 {
        GroupWalk(limit, span, entries, t);
        assert g[..t] == g;
      }
    }

    /** What parity `p` of a group says that its missing message is. */
    method Rebuild(p: Octets, limit: nat, span: nat, entries: nat) returns (d: Octets)
      requires Valid() && limit < 16
      ensures |d| == |p|
      ensures entries >= 1 && span * entries <= 15 ==> d == Rebuilt(p, RingGroup(rx[..], limit, span, entries))
    {
      ghost var g := RingGroup(rx[..], limit, span, entries);
      d := [];
      var j := 0;
      while j < |p|
        invariant j <= |p| && |d| == j
        invariant entries >= 1 && span * entries <= 15 ==> forall i :: 0 <= i < j ==> d[i] == Xor(p[i], XorAt(g, i))
      {
        var b := RebuildOctet(p[j], j, limit, span, entries);
        d := d + [b];
        j := j + 1;
      }
    }

    method RebuildOctet(first: byte, j: nat, limit: nat, span: nat, entries: nat) returns (b: byte)
      requires Valid() && limit < 16
      ensures entries >= 1 && span * entries <= 15 ==>
                b == Xor(first, XorAt(RingGroup(rx[..], limit, span, entries), j))
    {
      hide Place, ConfigOk, Xor;
      ghost var g := RingGroup(rx[..], limit, span, entries);
      b := first;
      XorLaws(first, 0, 0);
      var k := Place(limit - span * entries);
      ghost var t := 0;
      GroupStep(limit, span, entries, 0);
      while k != limit
        invariant t <= span && k == Place(limit - entries * (span - t))
        invariant t == span ==> k == limit
        invariant b == Xor(first, XorAt(g[..t], j))
        decreases span - t
      {
        GroupStep(limit, span, entries, t);
        assert g[..t + 1][..t] == g[..t];
        assert g[t] == rx[k].msg;
        XorLaws(first, XorAt(g[..t], j), At(g[t], j));
        b := Xor(b, if |rx[k].msg| > j then rx[k].msg[j] else 0);
        k := Place(k + entries);
        t := t + 1;
        GroupStep(limit, span, entries, t);
      }
      if entries >= 1 && span * entries <= 15 {
        GroupWalk(limit, span, entries, t);
        assert g[..t] == g;
      }
    }

    /** Only messages, not parities, have changed. */
    twostate predicate OnlyMessages()
      reads this, tx, rx
    {
      && old(Valid()) && Valid() && tx[..] == old(tx[..])
      && forall y :: 0 <= y < 16 ==> rx[y] == old(rx[y]).(msg := rx[y].msg)
    }

    /** Use parity `m` of slot `l`. */
    method UseParity(l: nat, m: nat, repaired: array<bool>)
      requires Valid() && l < 16 && m < |rx[l].parities|
      requires repaired.Length == 16 && (repaired as object) != rx && (repaired as object) != tx
      modifies rx, repaired
      ensures OnlyMessages()
      ensures old(SlotFits(rx[l])) ==>
                && rx[..] == RepairGroup(old(rx[..]), l, m)
                && Flagged(old(repaired[..]), repaired[..], old(rx[..]), rx[..])
    {
      hide Place, ConfigOk, LackingOf, RingGroup, Rebuilt, Xor;
      var s := rx[l];
      var limit := Place(l + m);
      LimitBelow(l + m);
      RingGroupReduced(rx[..], l + m, s.span, s.entries);
      if s.entries == 0 {
        assert !SlotFits(s);
      }
      var which := FindMissing(limit, s.span, s.entries);
      if which >= 0 {
        var d := Rebuild(s.parities[m], limit, s.span, s.entries);
        rx[which] := rx[which].(msg := d);
        repaired[which] := true;
      }
      if SlotFits(s) {
        Repaired(old(rx[..]), l, m, which);
      }
    }

    /** Use all parities of slot `l`. */
    method UseSlot(l: nat, repaired: array<bool>)
      requires Valid() && l < 16
      requires repaired.Length == 16 && (repaired as object) != rx && (repaired as object) != tx
      modifies rx, repaired
      ensures OnlyMessages()
      ensures old(SlotFits(rx[l])) ==>
                && rx[..] == RepairSlot(old(rx[..]), l, |old(rx[l].parities)|)
                && Flagged(old(repaired[..]), repaired[..], old(rx[..]), rx[..])
    {
      hide Place, ConfigOk, RepairGroup, Flagged;
      ghost var s := rx[l];
      NoneFlagged(repaired[..], rx[..]);
      if |rx[l].parities| == 0 || |rx[l].parities[0]| == 0 {
        return;
      }
      var m := 0;
      while m < rx[l].entries && m < |rx[l].parities|
        invariant m <= |s.parities| && OnlyMessages() && rx[l] == s.(msg := rx[l].msg)
        invariant SlotFits(s) ==>
                    && rx[..] == RepairSlot(old(rx[..]), l, m)
                    && Flagged(old(repaired[..]), repaired[..], old(rx[..]), rx[..])
      {
        ghost var flags, mid := repaired[..], rx[..];
        UseParity(l, m, repaired);
        if SlotFits(s) { FlaggedThen(old(repaired[..]), flags, repaired[..], old(rx[..]), mid, rx[..]); }
        m := m + 1;
      }
    }

    /** Use the packet just received and those before it, as far as the ring reaches. */
    method UseAll(seqNo: nat, span: nat, entries: nat, repaired: array<bool>)
      requires Valid()
      requires repaired.Length == 16 && (repaired as object) != rx && (repaired as object) != tx
      modifies rx, repaired
      ensures OnlyMessages()
      ensures old(RingFits(rx[..])) && span * entries <= 15 ==>
                && rx[..] == RepairAll(old(rx[..]), seqNo, Reach(span * entries))
                && Flagged(old(repaired[..]), repaired[..], old(rx[..]), rx[..])
    {
      hide ConfigOk, RepairSlot, SlotFits, Place, RepairAll, Flagged;
      LimitBelow(seqNo);
      var x := Place(seqNo);
      var end := Place(x - (16 - span * entries));
      var l := x;
      ghost var at: int := seqNo;
      ghost var fits := RingFits(rx[..]) && span * entries <= 15;
      if fits { ReachIs(x, span * entries); }
      NoneFlagged(repaired[..], rx[..]);
      while l != end
        invariant l < 16 && l == Place(at) && OnlyMessages()
        invariant fits ==>
                    && RepairAll(rx[..], at, Place(l - end)) == RepairAll(old(rx[..]), seqNo, Reach(span * entries))
                    && Flagged(old(repaired[..]), repaired[..], old(rx[..]), rx[..])
        decreases Place(l - end)
      {
        Nearer(l, at, end);
        if fits {
          SameFit(old(rx[..]), rx[..], l);
          NextUsed(rx[..], at, Place(l - end));
        }
        ghost var flags, ring := repaired[..], rx[..];
        UseSlot(l, repaired);
        if fits { FlaggedThen(old(repaired[..]), flags, repaired[..], old(rx[..]), ring, rx[..]); }
        l := Place(l - 1);
        at := at - 1;
      }
      Nowhere(end);
      AllUsed(rx[..], at);
    }

    /** Hand on what has been repaired, forwards in time. */
    method PlayRepaired(seqNo: nat, repaired: array<bool>, ghost mid: Ring)
      requires Valid() && repaired.Length == 16
      modifies this`log
      ensures FlagsTell(repaired[..], mid, rx[..], Place(seqNo)) ==>
                log == old(log) + Regained(mid, rx[..], seqNo - 15, seqNo)
    {
      hide ConfigOk, Place, Regained, FlagsTell;
      ghost var flagged := FlagsTell(repaired[..], mid, rx[..], Place(seqNo));
      var x := Place(seqNo);
      RingWalk(seqNo - 16, seqNo);
      var l, j: int := Place(x + 1), seqNo - 15;
      RingWalk(seqNo - 15, seqNo);
      NoneRegained(mid, rx[..], j);
      assert old(log) + [] == old(log);
      while l != x
        invariant l == Place(j) && l < 16 && seqNo - 15 <= j <= seqNo
        invariant flagged ==> log == old(log) + Regained(mid, rx[..], seqNo - 15, j)
        decreases seqNo - j
      {
        RingWalk(j, seqNo);
        RegainedNext(mid, rx[..], seqNo - 15, j);
        if flagged { FlagOf(repaired[..], mid, rx[..], x, j); }
        if repaired[l] {
          log := log + [Delivery(j, rx[l].msg)];
        }
        l := Place(l + 1);
        j := j + 1;
      }
      RingWalk(j, seqNo);
    }

    /** Read the parities, which must be all that is left of the packet, into slot `x`. */
    method ReadParities(buf: Octets, ptr: nat, x: nat, ghost c: Content)
      returns (ok: bool, span: nat, entries: nat)
      requires Valid() && ptr <= |buf| && x < 16
      modifies rx
      ensures Valid()
      ensures c.WithParities? && ContentOk(c) && buf[ptr..] == [1, c.span, |c.parities|] + OpenTypes(c.parities) ==>
                && ok && span == c.span && entries == |c.parities|
                && rx[..] == old(rx[..])[x := old(rx[x]).(parities := c.parities, span := span, entries := entries)]
    {
      hide OpenType, OpenTypes, ConfigOk;
      ghost var parities := if c.WithParities? && ContentOk(c) then c.parities else [];
      ghost var head := if c.WithParities? && ContentOk(c) then [1, c.span, |c.parities|] else [];
      ghost var enc := c.WithParities? && ContentOk(c) && buf[ptr..] == head + OpenTypes(parities);
      if enc { HeadFirst(buf, ptr, head, OpenTypes(parities)); }
      ok, span, entries := false, 0, 0;
      if ptr + 2 > |buf| || buf[ptr] != 1 {
        return;
      }
      span := buf[ptr + 1];
      rx[x] := rx[x].(span := span);
      if ptr + 3 > |buf| {
        return;
      }
      entries := buf[ptr + 2];
      rx[x] := rx[x].(entries := entries);
      var end, list;
      ok, end, list := ReadObjects(buf, ptr + 3, entries, true, parities, []);
      rx[x] := rx[x].(parities := list);
      if ok {
        ok := end == |buf|;
      }
    }

    /** The packet carries parities: keep them, repair what can be repaired, and hand that on. */
    method TakeParities(buf: Octets, ptr: nat, seqNo: nat, ghost c: Content) returns (ok: bool)
      requires Valid() && ptr <= |buf|
      modifies this`log, rx
      ensures Valid() && (!ok ==> log == old(log))
      ensures c.WithParities? && ContentOk(c) && seqNo == c.seqNo && old(RingFits(rx[..]))
              && old(rx[Place(seqNo)]) == Slot(c.msg, [], 0, 0)
              && buf[ptr..] == [1, c.span, |c.parities|] + OpenTypes(c.parities) ==>
                var mid := old(rx[..])[Place(seqNo) := Slot(c.msg, c.parities, c.span, |c.parities|)];
                && ok && rx[..] == RepairAll(mid, seqNo, Reach(c.span * |c.parities|))
                && log == old(log) + Regained(mid, rx[..], seqNo - 15, seqNo)
    {
      hide OpenTypes, Regained, RepairAll, ConfigOk, Place;
      LimitBelow(seqNo);
      var x := Place(seqNo);
      var span, entries;
      ok, span, entries := ReadParities(buf, ptr, x, c);
      if !ok {
        return;
      }
      ghost var mid := rx[..];
      var repaired := new bool[16](_ => false);
      repaired[x] := true;
      ghost var flags := repaired[..];
      if c.WithParities? && ContentOk(c) && RingFits(old(rx[..])) {
        SavedFits(old(rx[..]), x, Slot(c.msg, c.parities, c.span, |c.parities|), c);
      }
      UseAll(seqNo, span, entries, repaired);
      assert forall y :: 0 <= y < 16 ==> flags[y] == (y == x) && repaired[..][y] == repaired[y] && rx[..][y] == rx[y];
      PlayRepaired(seqNo, repaired, mid);
    }

    /** Take in what follows the message of a packet. */
    method TakeRecovery(buf: Octets, ptr: nat, seqNo: nat, ghost c: Content) returns (ok: bool)
      requires Valid() && ptr < |buf|
      modifies this`log, rx
      ensures Valid() && (!ok ==> log == old(log))
      ensures ContentOk(c) && seqNo == c.seqNo && buf[ptr..] == Recovery(c)
              && (c.WithParities? ==> old(RingFits(rx[..])) && old(rx[Place(seqNo)]) == Slot(c.msg, [], 0, 0)) ==>
                && ok && rx[..] == Recovered(old(rx[..]), rxSeqNo, c)
                && log == old(log) + RecoveredLog(old(rx[..]), rx[..], rxSeqNo, c)
    {
      hide OpenTypes, Regained, RepairAll, ConfigOk, Place, RingFits, Recovery, FromSecondaries, WithKept;
      if ContentOk(c) && buf[ptr..] == Recovery(c) { RecoveryAhead(buf, ptr, c); }
      if buf[ptr] < 0x80 {
        var bufs;
        ok, bufs := ReadSecondaries(buf, ptr + 1, if c.WithSecondaries? then c.secondaries else []);
        if ok {
          if seqNo > rxSeqNo {
            PlaySecondaries(bufs, seqNo);
          } else {
            NothingNew(rx[..], bufs, seqNo, rxSeqNo, |bufs|);
            assert log == old(log) + [];
          }
        }
      } else {
        ok := TakeParities(buf, ptr + 1, seqNo, c);
      }
    }

    /** `udptl_rx_packet`.  A packet that is refused is not handed on; one that carries what it should is
        accepted, and `Delivered` and `After` say what is handed on and kept. */
    method RxPacket(buf: Octets, ghost c: Content) returns (stat: int)
      requires Valid()
      modifies this`rxSeqNo, this`log, rx
      ensures Valid() && (stat == 0 || stat == -1)
      ensures stat == -1 ==> log == old(log) && rxSeqNo == old(rxSeqNo)
      ensures ContentOk(c) && buf == Packet(c) && (c.WithParities? ==> old(RingFits(rx[..]))) ==>
                && stat == 0 && rxSeqNo == (c.seqNo + 1) % 0x1_0000
                && rx[..] == After(old(rx[..]), old(rxSeqNo), c)
                && log == old(log) + Delivered(old(rx[..]), old(rxSeqNo), c)
    {
      hide OpenTypes, OpenType, Packet, Marked, Place, ConfigOk, Recovered;
      hide RecoveredLog, RingFits, Delivered, After, ContentOk, Recovery;
      TakenIn(rx[..], rxSeqNo, c);
      var front := ReadHeader(buf, c);
      if front.Bad? {
        return -1;
      }
      var seqNo, msg, ptr := front.seqNo, front.msg, front.ptr;
      LimitBelow(seqNo);
      MarkMissed(seqNo);
      rx[Place(seqNo)] := Slot(msg, [], 0, 0);
      if ContentOk(c) && buf == Packet(c) {
        if c.WithParities? && RingFits(old(rx[..])) { MarkedFits(old(rx[..]), rxSeqNo, seqNo, msg); }
      }
      var ok := TakeRecovery(buf, ptr, seqNo, c);
      if !ok {
        return -1;
      }
      if seqNo >= rxSeqNo {
        log := log + [Delivery(seqNo, msg)];
      }
      rxSeqNo := (seqNo + 1) % 0x1_0000;
      stat := 0;
    }
  }

  /** A slot is flagged if its message has been regained. */
  ghost predicate FlagsTell(flags: seq<bool>, mid: Ring, after: Ring, x: nat) {
    |flags| == 16 && forall y :: 0 <= y < 16 && y != x ==> flags[y] == (mid[y].msg == [] && after[y].msg != [])
  }

  lemma FlagOf(flags: seq<bool>, mid: Ring, after: Ring, x: nat, j: int)
    requires FlagsTell(flags, mid, after, x) && Place(j) != x
    ensures RegainedAt(mid, after, j) == if flags[Place(j)] then [Delivery(j, after[Place(j)].msg)] else []
  {
  }

  lemma RingWalk(j: int, n: int)
    requires n - 16 <= j <= n
    ensures Place(j) < 16 && Place(Place(j) + 1) == Place(j + 1)
    ensures n - 15 <= j ==> (Place(j) == Place(n) <==> j == n)
    ensures j == n - 16 ==> Place(j) == Place(n)
  {
  }

  lemma RegainedNext(before: Ring, after: Ring, lo: int, j: int)
    requires lo <= j
    ensures Regained(before, after, lo, j + 1) == Regained(before, after, lo, j) + RegainedAt(before, after, j)
  {
  }

  lemma NoneRegained(before: Ring, after: Ring, lo: int)
    ensures Regained(before, after, lo, lo) == []
  {
  }

  /** The ring once what follows the message of a packet has been taken in, too. */
  function Recovered(r: Ring, next: int, c: Content): Ring {
    match c
    case WithSecondaries(n, _, s) => WithKept(r, s, n, next, |s|)
    case WithParities(n, msg, span, p) => RepairAll(r[Place(n) := Slot(msg, p, span, |p|)], n, Reach(span * |p|))
  }

  function RecoveredLog(r: Ring, after: Ring, next: int, c: Content): seq<Delivery> {
    match c
    case WithSecondaries(n, _, s) => FromSecondaries(s, n, next, |s|)
    case WithParities(n, msg, span, p) => Regained(r[Place(n) := Slot(msg, p, span, |p|)], after, n - 15, n)
  }

  lemma TakenIn(r: Ring, next: int, c: Content)
    ensures var saved := Marked(r, next, c.seqNo)[Place(c.seqNo) := Slot(c.msg, [], 0, 0)];
            && After(r, next, c) == Recovered(saved, next, c)
            && Delivered(r, next, c) == RecoveredLog(saved, After(r, next, c), next, c)
                 + if c.seqNo >= next then [Delivery(c.seqNo, c.msg)] else []
  {
    hide Marked, Place, RepairAll, Regained, FromSecondaries, WithKept;
    var saved := Marked(r, next, c.seqNo)[Place(c.seqNo) := Slot(c.msg, [], 0, 0)];
    if c.WithParities? {
      assert saved[Place(c.seqNo) := Slot(c.msg, c.parities, c.span, |c.parities|)] == BeforeRepair(r, next, c);
    }
  }

  lemma HeadFirst(buf: Octets, ptr: nat, head: Octets, rest: Octets)
    requires ptr <= |buf| && buf[ptr..] == head + rest
    ensures ptr + |head| <= |buf| && buf[ptr + |head|..] == rest + []
    ensures forall i :: 0 <= i < |head| ==> buf[ptr + i] == head[i]
  {
    forall i | 0 <= i < |head|
      ensures buf[ptr + i] == head[i]
    {
      assert buf[ptr..][i] == head[i];
    }
    assert buf[ptr + |head|..] == buf[ptr..][|head|..];
  }

  lemma RecoveryAhead(buf: Octets, ptr: nat, c: Content)
    requires ContentOk(c) && ptr < |buf| && buf[ptr..] == Recovery(c)
    ensures match c
            case WithSecondaries(_, _, s) =>
              buf[ptr] == 0 && |s| < 0x4000 && AllSendable(s) && buf[ptr + 1..] == LengthOctets(|s|) + OpenTypes(s)
            case WithParities(_, _, span, p) => buf[ptr] == 0x80 && buf[ptr + 1..] == [1, span, |p|] + OpenTypes(p)
  {
    hide OpenTypes, LengthOctets;
    assert buf[ptr] == buf[ptr..][0] && buf[ptr + 1..] == buf[ptr..][1..];
    if c.WithParities? {
      assert Recovery(c)[1..] == [1, c.span, |c.parities|] + OpenTypes(c.parities);
    }
  }

  lemma SavedFits(r: Ring, x: nat, s: Slot, c: Content)
    requires RingFits(r) && x < 16 && c.WithParities? && ContentOk(c)
    requires s == Slot(c.msg, c.parities, c.span, |c.parities|)
    ensures RingFits(r[x := s])
  {
  }

  lemma {:induction false} MarkedFits(r: Ring, from: int, to: int, msg: Octets)
    requires RingFits(r)
    ensures RingFits(Marked(r, from, to)) && RingFits(Marked(r, from, to)[Place(to) := Slot(msg, [], 0, 0)])
    decreases if from < to then to - from else 0
  {
    if from < to {
      MarkedFits(r, from, to - 1, msg);
    }
  }

  /** A packet that is not later than expected brings nothing new in its secondaries. */
  lemma {:induction false} NothingNew(r: Ring, s: seq<Octets>, n: int, next: int, i: nat)
    requires i <= |s| && n <= next
    ensures FromSecondaries(s, n, next, i) == [] && WithKept(r, s, n, next, i) == r
    decreases i
  {
    if i > 0 {
      NothingNew(r, s, n, next, i - 1);
    }
  }

  /** Of the slots, those flagged are those flagged before and those that have been filled. */
  ghost predicate Flagged(flags: seq<bool>, flags': seq<bool>, before: Ring, after: Ring) {
    && |flags| == |flags'| == 16
    && (forall y :: 0 <= y < 16 ==> flags'[y] == (flags[y] || (before[y].msg == [] && after[y].msg != [])))
    && forall y :: 0 <= y < 16 && before[y].msg != [] ==> after[y] == before[y]
  }

  lemma NoneFlagged(flags: seq<bool>, r: Ring)
    requires |flags| == 16
    ensures Flagged(flags, flags, r, r)
  {
  }

  lemma FlaggedThen(a: seq<bool>, b: seq<bool>, c: seq<bool>, r: Ring, s: Ring, t: Ring)
    requires Flagged(a, b, r, s) && Flagged(b, c, s, t)
    ensures Flagged(a, c, r, t)
  {
  }

  /** How many slots lie between the newest one and the one to stop at. */
  lemma ReachIs(x: nat, p: nat)
    requires x < 16 && p <= 15
    ensures Place(x - Place(x - (16 - p))) == Reach(p)
  {
  }

  lemma Nowhere(x: int)
    ensures Place(x - x) == 0
  {
  }

  lemma Nearer(l: nat, at: int, end: nat)
    requires l < 16 && end < 16 && l != end && l == Place(at)
    ensures Place(l - 1) < 16 && Place(l - 1) == Place(at - 1) && Place(Place(l - 1) - end) == Place(l - end) - 1
  {
  }

  lemma NextUsed(r: Ring, x: int, n: nat)
    requires n > 0
    ensures RepairAll(r, x, n) == RepairAll(RepairSlot(r, Place(x), |r[Place(x)].parities|), x - 1, n - 1)
  {
  }

  lemma AllUsed(r: Ring, x: int)
    ensures RepairAll(r, x, 0) == r
  {
  }

  lemma LimitBelow(limit: int)
    ensures Place(limit) < 16
  {
  }

  lemma RingGroupReduced(r: Ring, limit: int, span: nat, entries: nat)
    ensures RingGroup(r, Place(limit), span, entries) == RingGroup(r, limit, span, entries)
  {
    forall i | 0 <= i < span
      ensures r[GroupPlace(Place(limit), span, entries, i)].msg == r[GroupPlace(limit, span, entries, i)].msg
    {
      LimitReduced(limit, span, entries, i);
    }
  }

  /** Repairing the slot found is what the parity is for. */
  lemma Repaired(r: Ring, l: nat, m: nat, which: int)
    requires l < 16 && m < |r[l].parities| && SlotFits(r[l])
    requires var s := r[l];
             Which(which, LackingOf(RingGroup(r, l + m, s.span, s.entries)), Place(l + m), s.span, s.entries)
    ensures which < 16
    ensures RepairGroup(r, l, m)
         == if which < 0 then r else
            r[which := r[which].(msg := Rebuilt(r[l].parities[m], RingGroup(r, l + m, r[l].span, r[l].entries)))]
    ensures which >= 0 ==> r[which].msg == []
  {
    hide Place, LackingOf, Rebuilt;
    var s := r[l];
    match LackingOf(RingGroup(r, l + m, s.span, s.entries)) {
      case One(i) => LimitReduced(l + m, s.span, s.entries, i);
      case _ =>
    }
  }

  lemma SameFit(before: Ring, after: Ring, l: nat)
    requires RingFits(before) && l < 16 && after[l] == before[l].(msg := after[l].msg)
    ensures SlotFits(after[l])
  {
  }

  lemma LackingNext(g: seq<Octets>, t: nat)
    requires t < |g|
    ensures LackingOf(g[..t + 1]) == if g[t] != [] then LackingOf(g[..t])
                                     else if LackingOf(g[..t]) == Nothing then One(t) else Several
  {
    assert g[..t + 1][..t] == g[..t];
  }

  lemma WhichNone(g: seq<Octets>, limit: nat, span: nat, entries: nat)
    requires |g| == span
    ensures Which(-1, LackingOf(g[..0]), limit, span, entries)
  {
  }

  /** The search looks at one more member of the group. */
  lemma WhichNext(g: seq<Octets>, t: nat, k: int, which: int, limit: nat, span: nat, entries: nat)
    requires t < |g| == span && k == GroupPlace(limit, span, entries, t)
    requires Which(which, LackingOf(g[..t]), limit, span, entries)
    ensures var now := if g[t] != [] then which else if which == -1 then k else -2;
            Which(now, LackingOf(g[..t + 1]), limit, span, entries)
  {
    hide LackingOf, Place;
    LackingNext(g, t);
  }

  /** What is put behind the message of packet `n`, given the ring. */
  function SentRecovery(c: Config, tx: seq<Octets>, n: nat): Octets
    requires ConfigOk(c) && |tx| == 16
  {
    match c.scheme
    case NoCorrection => [0x00] + LengthOctets(0)
    case Redundancy =>
      var s := SentBefore(tx, Place(n), Least(n, c.entries));
      [0x00] + (LengthOctets(|s|) + OpenTypes(s))
    case Fec =>
      WindUp(c, n);
      SpanSmall(c);
      var e, s := EntriesAt(c, n), SpanAt(c, n);
      [0x80, 1, s, e] + OpenTypes(SentParities(tx, Place(n), s, e))
  }

  lemma ContentSent(c: Config, tx: seq<Octets>, h: History, n: nat)
    requires ConfigOk(c) && HoldsSent(tx, h) && |h| == n + 1 && n < 0x1_0000
    ensures SentRecovery(c, tx, n) == Recovery(ContentAt(c, h, n))
    ensures Packet(ContentAt(c, h, n)) == Header(n) + (OpenType(h[n]) + SentRecovery(c, tx, n))
  {
    hide HoldsSent, OpenType, SentBefore, SentParities, EntriesAt, SpanAt, ParitiesAt, Least;
    match c.scheme {
      case NoCorrection =>
        assert LengthOctets(0) + OpenTypes([]) == LengthOctets(0);
      case Redundancy =>
        SecondariesSent(c, tx, h, n);
      case Fec =>
        ParitiesSent(c, tx, h, n);
    }
  }

  lemma PacketSent(c: Config, tx: seq<Octets>, h: History, msg: Octets, packet: Octets)
    requires ConfigOk(c) && Sendable(msg) && |tx| == 16 && HoldsSent(tx, h + [msg]) && |h| < 0x1_0000
    requires packet == Header(|h|) + OpenType(msg) + SentRecovery(c, tx, |h|)
    ensures packet == Packet(ContentAt(c, h + [msg], |h|))
  {
    hide HoldsSent, OpenType, SentRecovery, Packet, ContentAt, Header, ConfigOk;
    ContentSent(c, tx, h + [msg], |h|);
    Joined(packet, Header(|h|), OpenType(msg), SentRecovery(c, tx, |h|));
  }

  lemma Joined(packet: Octets, a: Octets, b: Octets, c: Octets)
    requires packet == a + b + c
    ensures packet == a + (b + c)
  {
  }

  lemma NoParity(g: seq<Octets>)
    ensures ParityOf(g[..0]) == []
  {
  }
}
