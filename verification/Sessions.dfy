/** The table of fax sessions: setting up and releasing calls, and closing the gaps that releases leave. */
module Sessions {
  import opened Allocators

  const FAX_MAX_SESSIONS := 80
  const SESSION_ID_OUT := 1024
  const SESSION_ID_CNT := 2048
  const PORT_START := 37000
  const PORT_COUNT := 200
  const FAX_CONTROL_PORT := 23232

  /** One leg of a call, or the control session. */
  class Session {
    const id: int
    const isIn: bool
    const callId: string
    const locPort: int
    var sidx: int
    var peer: Session?

    constructor (id: int, isIn: bool, sidx: int, callId: string, locPort: int)
      ensures this.id == id && this.isIn == isIn && this.sidx == sidx && peer == null
      ensures this.callId == callId && this.locPort == locPort
    {
      this.id, this.isIn, this.sidx := id, isIn, sidx;
      this.callId, this.locPort, peer := callId, locPort, null;
    }
  }

  /** The other leg of the call in entry `i`. */
  function Mate(i: nat): (j: nat)
    requires i > 0
    ensures j > 0 && i != j
    ensures i == if j % 2 == 1 then j + 1 else j - 1
  {
    if i % 2 == 1 then i + 1 else i - 1
  }

  /** The entries that are not empty, in their order. */
  function LiveOf(s: seq<Session?>): (r: seq<Session?>)
    ensures |r| <= |s| && null !in r
  {
    if s == [] then [] else LiveOf(s[..|s| - 1]) + if s[|s| - 1] == null then [] else [s[|s| - 1]]
  }

  /** The numbers of the sessions in a part of the table; -1 for empty entries. */
  function IdsOf(s: seq<Session?>): (r: seq<int>)
    ensures |r| == |s|
  {
    seq(|s|, i requires 0 <= i < |s| => if s[i] == null then -1 else s[i].id)
  }

  /** The places of their ports in the table of ports. */
  function PortsOf(s: seq<Session?>): (r: seq<int>)
    ensures |r| == |s|
  {
    seq(|s|, i requires 0 <= i < |s| => if s[i] == null then -1 else s[i].locPort - PORT_START)
  }

  /** What can go wrong while a call is set up. */
  datatype Luck = Luck(modeKnown: bool, inCreated: bool, inInited: bool,
                       outCreated: bool, outInited: bool, started: bool)

  datatype Outcome = Rejected | Failed | Created | Overrun

  class Table {
    const session: array<Session?>
    /** `pfds[i].fd` */
    const fd: array<int>
    var cnt: nat
    const ids: array<bool>
    var nextIn: nat
    var nextOut: nat
    const ports: array<bool>
    var nextPort: nat
    /** All sessions that are or were in the table. */
    ghost var objs: set<Session>

    /** The arrays are what they should be. */
    ghost predicate Shape()
      reads this
    {
      && session.Length == FAX_MAX_SESSIONS && fd.Length == FAX_MAX_SESSIONS
      && ids.Length == SESSION_ID_CNT && ports.Length == PORT_COUNT && ids != ports
      && (ids as object) != fd && (ports as object) != fd && (session as object) != fd
      && (ids as object) != session && (ports as object) != session
      && cnt <= FAX_MAX_SESSIONS
      && nextIn <= SESSION_ID_OUT <= nextOut <= SESSION_ID_CNT && nextPort <= PORT_COUNT
    }

    /** The entries in use. */
    ghost function Entries(): (s: seq<Session?>)
      requires Shape()
      reads this, session
      ensures |s| == cnt
    {
      session[..cnt]
    }

    /** The session numbers and ports in use are just those of the sessions in the table. */
    ghost predicate Exact()
      requires Shape() && cnt > 0
      reads this, session, ids, ports
    {
      && Owned(ids[..], IdsOf(Entries()))
      && Owned(ports[..], PortsOf(Entries()[1..]))
    }

    ghost predicate Valid()
      reads this, session, fd, ids, ports, objs
    {
      Shape() && cnt > 0 && Linked(Entries(), objs) && Exact() && Polled()
    }

    /** Just the sessions in the table are polled for data. */
    ghost predicate Polled()
      requires Shape()
      reads this, session, fd
    {
      forall i :: 0 <= i < cnt ==> (session[i] == null <==> fd[i] == -1)
    }

    /** No entry is empty. */
    ghost predicate Compact()
      requires Shape()
      reads this, session
    {
      null !in Entries()
    }

    /** `app_cfgInit`: nothing in the table yet. */
    constructor ()
      ensures Shape() && cnt == 0 && objs == {} && fd[0] == 0
      ensures fresh(session) && fresh(fd) && fresh(ids) && fresh(ports)
      ensures (forall x :: 0 <= x < SESSION_ID_CNT ==> !ids[x]) && forall x :: 0 <= x < PORT_COUNT ==> !ports[x]
    {
      session, fd := new Session?[FAX_MAX_SESSIONS](_ => null), new int[FAX_MAX_SESSIONS](_ => 0);
      ids, ports := new bool[SESSION_ID_CNT](_ => false), new bool[PORT_COUNT](_ => false);
      nextIn, nextOut, nextPort, cnt, objs := 0, SESSION_ID_OUT, 0, 0, {};
    }

    /** `app_InitControlFD` */
    method InitControl()
      requires Shape() && cnt == 0 && objs == {} && fd[0] != -1
      requires (forall x :: 0 <= x < SESSION_ID_CNT ==> !ids[x]) && forall x :: 0 <= x < PORT_COUNT ==> !ports[x]
      modifies this, session, ids
      ensures Valid() && Compact() && cnt == 1 && fresh(objs)
    {
      hide Owned, Linked, NextFree, IdsOf, PortsOf;
      ghost var free := ids[..];
      NothingOwned(free);
      NothingOwned(ports[..]);
      NotExhausted(free, [], 0, SESSION_ID_OUT, nextIn);
      var id;
      id, nextIn := TakeNext(ids, 0, SESSION_ID_OUT, nextIn);
      OwnedPush(free, [], id);
      var control := new Session(id, true, 0, "", FAX_CONTROL_PORT);
      session[0] := control;
      cnt, objs := 1, {control};
      ControlOnly(control, objs);
      assert Entries() == [control] && [control][1..] == [] && [] + [id] == [id];
    }

    /** `session_create` and the beginning of `session_init`: the next number of its direction and the
        next gateway port are taken.  The port is kept in sixteen bits, so that -1 for none turns into
        65535. */
    method NewSession(isIn: bool, sidx: nat, callId: string) returns (s: Session)
      requires Shape()
      modifies this`nextIn, this`nextOut, this`nextPort, ids, ports
      ensures Shape() && fresh(s) && s.isIn == isIn && s.sidx == sidx && s.peer == null && s.callId == callId
      ensures s.id == if isIn then NextFree(old(ids[..]), 0, SESSION_ID_OUT, old(nextIn))
                      else NextFree(old(ids[..]), SESSION_ID_OUT, SESSION_ID_CNT, old(nextOut))
      ensures ids[..] == if s.id == -1 then old(ids[..]) else old(ids[..])[s.id := true]
      ensures nextIn == if isIn && s.id != -1 then s.id + 1 else old(nextIn)
      ensures nextOut == if !isIn && s.id != -1 then s.id + 1 else old(nextOut)
      ensures var k := NextFree(old(ports[..]), 0, PORT_COUNT, old(nextPort));
              && nextPort == (if k == -1 then old(nextPort) else k + 1)
              && s.locPort == (if k == -1 then 65535 else k + PORT_START)
              && ports[..] == if k == -1 then old(ports[..]) else old(ports[..])[k := true]
    {
      hide NextFree;
      var id, k;
      if isIn {
        id, nextIn := TakeNext(ids, 0, SESSION_ID_OUT, nextIn);
      } else {
        id, nextOut := TakeNext(ids, SESSION_ID_OUT, SESSION_ID_CNT, nextOut);
      }
      k, nextPort := TakeNext(ports, 0, PORT_COUNT, nextPort);
      s := new Session(id, isIn, sidx, callId, if k == -1 then 65535 else k + PORT_START);
    }

    /** `session_destroy`: number and port are given back, if they were taken. */
    method Destroy(s: Session)
      requires Shape()
      modifies ids, ports
      ensures ids[..] == if 0 <= s.id < SESSION_ID_CNT then old(ids[..])[s.id := false] else old(ids[..])
      ensures ports[..] == if PORT_START <= s.locPort < PORT_START + PORT_COUNT
                           then old(ports[..])[s.locPort - PORT_START := false] else old(ports[..])
    {
      var res;
      if 0 <= s.id < SESSION_ID_CNT {
        res := GiveBack(ids, s.id);
      }
      if PORT_START <= s.locPort < PORT_START + PORT_COUNT {
        res := GiveBack(ports, s.locPort - PORT_START);
      }
    }

    /** `proc_setup`.  A call is set up if nothing goes wrong and there is room for both of its legs; if it
        is refused or something goes wrong, nothing is left of it.  But the code asks for room for one leg
        only: with 79 sessions it would write the second one behind the end of the table. */
    method Setup(callId: string, luck: Luck) returns (r: Outcome)
      requires Valid() && Compact()
      modifies this, session, fd, ids, ports
      ensures r == Rejected <==> old(cnt) >= FAX_MAX_SESSIONS
      ensures r == Created <==> old(cnt) + 2 <= FAX_MAX_SESSIONS && AllWell(luck)
      ensures r == Overrun <==> old(cnt) < FAX_MAX_SESSIONS < old(cnt) + 2 && AllWell(luck)
      ensures r != Overrun ==> Valid() && Compact()
      ensures r != Created ==> cnt == old(cnt) && objs == old(objs)
      ensures r == Rejected || r == Failed ==>
                session[..] == old(session[..]) && ids[..] == old(ids[..]) && ports[..] == old(ports[..])
      ensures r == Created ==>
                && cnt == old(cnt) + 2 && Entries()[..old(cnt)] == old(Entries()) && fresh(objs - old(objs))
                && session[cnt - 2].callId == callId
    {
      hide NextFree, Owned, Linked, IdsOf, PortsOf;
      if cnt >= FAX_MAX_SESSIONS {
        return Rejected;
      }
      if !luck.modeKnown || !luck.inCreated {
        return Failed;
      }
      ghost var was := Entries();
      EntryCounts(was);
      var ok, in_, out := NewPair(callId, luck, IdsOf(was), PortsOf(was[1..]));
      if !ok {
        return Failed;
      }
      if cnt + 2 > FAX_MAX_SESSIONS {
        return Overrun;
      }
      session[cnt], fd[cnt] := in_, 1;
      session[cnt + 1], fd[cnt + 1] := out, 1;
      cnt := cnt + 2;
      objs := objs + {in_, out};
      assert Entries() == was + [in_, out];
      PairAdded(was, old(objs), in_, out);
      r := Created;
    }

    /** Both legs of a call, or nothing. */
    method NewPair(callId: string, luck: Luck, ghost numbers: seq<int>, ghost places: seq<int>)
      returns (ok: bool, in_: Session, out: Session)
      requires Shape() && Owned(ids[..], numbers) && |numbers| + 1 < SESSION_ID_OUT
      requires Owned(ports[..], places) && |places| + 1 < PORT_COUNT
      modifies this`nextIn, this`nextOut, this`nextPort, ids, ports
      ensures Shape() && ok == (luck.inInited && luck.outCreated && luck.outInited && luck.started)
      ensures !ok ==> ids[..] == old(ids[..]) && ports[..] == old(ports[..])
      ensures ok ==>
                && fresh(in_) && fresh(out) && in_ != out && in_.peer == out && out.peer == in_
                && in_.isIn && !out.isIn && InRange(in_.id, true) && InRange(out.id, false)
                && PORT_START <= in_.locPort < PORT_START + PORT_COUNT
                && PORT_START <= out.locPort < PORT_START + PORT_COUNT
                && in_.sidx == cnt && out.sidx == cnt + 1 && in_.callId == out.callId == callId
                && Owned(ids[..], numbers + [in_.id] + [out.id])
                && Owned(ports[..], places + [in_.locPort - PORT_START] + [out.locPort - PORT_START])
    {
      hide NextFree, Owned;
      in_ := NewLeg(true, cnt, callId, numbers, places);
      out := in_;
      if !luck.inInited || !luck.outCreated {
        Destroy(in_);
        return false, in_, out;
      }
      out := NewLeg(false, cnt + 1, callId, numbers + [in_.id], places + [in_.locPort - PORT_START]);
      if !luck.outInited || !luck.started {
        Destroy(out);
        Destroy(in_);
        return false, in_, out;
      }
      in_.peer, out.peer := out, in_;
      ok := true;
    }

    /** A leg is created and initialised; there are always a number and a port left for it. */
    method NewLeg(isIn: bool, sidx: nat, callId: string, ghost numbers: seq<int>, ghost places: seq<int>)
      returns (s: Session)
      requires Shape() && Owned(ids[..], numbers) && |numbers| < SESSION_ID_OUT
      requires Owned(ports[..], places) && |places| < PORT_COUNT
      modifies this`nextIn, this`nextOut, this`nextPort, ids, ports
      ensures Shape() && fresh(s) && s.isIn == isIn && s.sidx == sidx && s.callId == callId && InRange(s.id, isIn)
      ensures !old(ids[..])[s.id] && ids[..] == old(ids[..])[s.id := true]
      ensures Owned(ids[..], numbers + [s.id])
      ensures PORT_START <= s.locPort < PORT_START + PORT_COUNT
      ensures !old(ports[..])[s.locPort - PORT_START] && ports[..] == old(ports[..])[s.locPort - PORT_START := true]
      ensures Owned(ports[..], places + [s.locPort - PORT_START])
    {
      hide NextFree, Owned;
      if isIn {
        OneLeft(ids[..], numbers, 0, SESSION_ID_OUT, nextIn);
      } else {
        OneLeft(ids[..], numbers, SESSION_ID_OUT, SESSION_ID_CNT, nextOut);
      }
      OneLeft(ports[..], places, 0, PORT_COUNT, nextPort);
      ghost var used, held := ids[..], ports[..];
      s := NewSession(isIn, sidx, callId);
      OwnedPush(used, numbers, s.id);
      OwnedPush(held, places, s.locPort - PORT_START);
    }

    /** `proc_release`: the first call of that name is removed; both its entries become empty, and its
        numbers and ports are free again.  `k` is the first of its entries, or zero if there is none. */
    method Release(callId: string) returns (ghost k: nat)
      requires Valid()
      modifies session, fd, ids, ports
      ensures Valid() && Named(old(Entries()), callId, k)
      ensures if k == 0 then session[..] == old(session[..]) && ids[..] == old(ids[..]) && ports[..] == old(ports[..])
              else CallRemoved(old(session[..]), session[..], old(ids[..]), ids[..], k)
    {
      hide Owned, IdsOf, PortsOf, Linked;
      ghost var was := Entries();
      var i := 1;
      while i < cnt
        invariant 1 <= i <= cnt
        invariant forall j :: 0 < j < i && was[j] != null ==> was[j].callId != callId
      {
        var cs := session[i];
        assert was[i] == cs;
        if cs != null && cs.callId == callId {
          k := i;
          RemoveCall(cs, i);
          return;
        }
        i := i + 1;
      }
      k := 0;
    }

    /** Take a leg and its peer out of the table. */
    method RemoveCall(cs: Session, i: nat)
      requires Valid() && 0 < i < cnt && session[i] == cs
      modifies session, fd, ids, ports
      ensures Valid()
      ensures CallRemoved(old(session[..]), session[..], old(ids[..]), ids[..], i)
    {
      hide Owned, Linked, IdsOf, PortsOf, Mate;
      ghost var was, all := Entries(), session[..];
      LegFacts(was, objs, i, cs);
      StillLinked(was, objs, i);
      var peer := cs.peer;
      NumbersRemoved(was, i, Mate(i), cs, peer, ids[..]);
      PortsRemoved(was, i, Mate(i), cs, peer, ports[..]);
      assert all[Mate(i)] == was[Mate(i)];
      BothInside(all, cnt, i);
      Blank(i);
      Blank(peer.sidx);
      DestroyBoth(cs, peer);
    }

    method DestroyBoth(cs: Session, peer: Session)
      requires Shape() && 0 <= cs.id < SESSION_ID_CNT && 0 <= peer.id < SESSION_ID_CNT
      requires PORT_START <= cs.locPort < PORT_START + PORT_COUNT
      requires PORT_START <= peer.locPort < PORT_START + PORT_COUNT
      modifies ids, ports
      ensures ids[..] == old(ids[..])[peer.id := false][cs.id := false]
      ensures ports[..] == old(ports[..])[peer.locPort - PORT_START := false][cs.locPort - PORT_START := false]
    {
      Destroy(peer);
      Destroy(cs);
    }

    /** Empty one entry. */
    method Blank(i: nat)
      requires Shape() && i < cnt && Polled()
      modifies session, fd
      ensures session[..] == old(session[..])[i := null] && Polled()
    {
      session[i], fd[i] := null, -1;
    }

    /** The entries before `i` have moved up over `skip` empty ones; those from `i` on have not. */
    ghost predicate Moving(was: seq<Session?>, i: nat, skip: nat)
      requires Shape()
      reads this, session, fd, objs
    {
      && |was| == cnt && skip < i <= cnt
      && session[..i - skip] == LiveOf(was[..i]) && session[i..cnt] == was[i..]
      && (forall k :: 0 <= k < i - skip ==> fd[k] != -1)
      && (forall k :: i <= k < cnt ==> (fd[k] == -1 <==> was[k] == null))
      && Placed(session[..i - skip], objs)
      && (forall k :: i <= k < cnt && was[k] != null ==> was[k] in objs && was[k].sidx == k)
      && forall j, k :: 0 <= j < k < cnt && was[j] != null ==> was[j] != was[k]
    }

    lemma StartMoving()
      requires Valid()
      ensures Moving(Entries(), 1, 0) && Paired(Entries(), objs)
    {
      var was := Entries();
      assert was[..1][..0] == [] && LiveOf(was[..1]) == [was[0]];
      forall j, k | 0 <= j < k < cnt && was[j] != null
        ensures was[j] != was[k]
      {
        assert was[k] != null ==> was[k].sidx == k;
      }
    }

    lemma StayPut(was: seq<Session?>, i: nat, skip: nat)
      requires Shape() && Moving(was, i, skip) && i < cnt && skip == 0 && was[i] != null && session[i] == was[i]
      ensures Moving(was, i + 1, skip)
    {
      NextLive(was, i);
      assert session[..i + 1] == session[..i] + [session[i]];
      assert session[i + 1..cnt] == was[i..][1..];
    }

    method MoveUp(ghost was: seq<Session?>, i: nat, skip: nat)
      requires Shape() && Moving(was, i, skip) && i < cnt && was[i] != null && skip > 0
      modifies session, fd, objs`sidx
      ensures Moving(was, i + 1, skip)
    {
      hide LiveOf;
      ghost var moved := session[..i - skip];
      NextLive(was, i);
      LiveIn(was[..i], was[i]);
      assert session[i] == session[i..cnt][0] == was[i];
      session[i - skip] := session[i];
      fd[i - skip] := fd[i];
      session[i].sidx := i - skip;
      assert session[..i + 1 - skip] == moved + [was[i]];
      assert forall k :: 0 <= k < i - skip ==> session[..i - skip][k] == moved[k];
      assert session[i + 1..cnt] == was[i..][1..];
    }

    /** Entry `i` is skipped if it is empty, and moves up otherwise. */
    method TakeEntry(ghost was: seq<Session?>, i: nat, skip: nat) returns (skip': nat)
      requires Shape() && Moving(was, i, skip) && i < cnt
      modifies session, fd, objs`sidx
      ensures Moving(was, i + 1, skip')
    {
      NextLive(was, i);
      assert session[i] == session[i..cnt][0] == was[i];
      skip' := skip;
      if fd[i] == -1 {
        assert session[i + 1..cnt] == was[i..][1..];
        skip' := skip + 1;
      } else if skip > 0 {
        MoveUp(was, i, skip);
      } else {
        StayPut(was, i, skip);
      }
    }

    /** The loop of `app_procSessions` */
    method CloseGaps() returns (skip: nat)
      requires Valid()
      modifies session, fd, objs`sidx
      ensures Moving(old(Entries()), cnt, skip)
    {
      hide Valid, Moving, Paired, Owned;
      Opened();
      ghost var was := Entries();
      var i := 1;
      skip := 0;
      StartMoving();
      while i < cnt
        invariant 1 <= i <= cnt && Moving(was, i, skip)
      {
        skip := TakeEntry(was, i, skip);
        i := i + 1;
      }
    }

    /** `app_procSessions`: sessions move up into the gaps that removed ones have left; their order stays. */
    method ProcSessions()
      requires Valid()
      modifies this`cnt, session, fd, objs`sidx
      ensures Valid() && Compact() && Entries() == LiveOf(old(Entries()))
      ensures ids[..] == old(ids[..]) && ports[..] == old(ports[..])
    {
      hide Valid, Owned, Placed, Moving, LiveOf, Mate, InRange, IdsOf, PortsOf, Compact;
      Opened();
      ghost var was := Entries();
      LiveExact(was, objs, ids[..], ports[..]);
      var skip := CloseGaps();
      assert Paired(was, objs);
      AllMoved(was, skip);
      LivePaired(was, objs);
      cnt := cnt - skip;
      Closed(LiveOf(was));
    }

    lemma Opened()
      requires Valid()
      ensures Shape() && cnt > 0 && Paired(Entries(), objs)
      ensures Owned(ids[..], IdsOf(Entries())) && Owned(ports[..], PortsOf(Entries()[1..]))
    {
    }

    lemma CallCounts()
      requires Valid()
      ensures var s := Entries(); CallsIn(LiveOf(s)) == CallsIn(s) && |LiveOf(s)| == 2 * |CallsIn(s)| + 1
    {
      Opened();
      CallsInLive(Entries(), objs);
    }

    lemma Closed(s: seq<Session?>)
      requires Shape() && Entries() == s && |s| > 0 && Paired(s, objs) && Placed(s, objs)
      requires Owned(ids[..], IdsOf(s)) && Owned(ports[..], PortsOf(s[1..]))
      requires forall k :: 0 <= k < cnt ==> fd[k] != -1 && session[k] != null
      ensures Valid() && Compact()
    {
      hide Owned, Paired, Placed, IdsOf, PortsOf;
      NoneEmpty(s);
    }

    lemma AllMoved(was: seq<Session?>, skip: nat)
      requires Shape() && Moving(was, cnt, skip)
      ensures skip < cnt && session[..cnt - skip] == LiveOf(was) && Placed(LiveOf(was), objs)
      ensures forall k :: 0 <= k < cnt - skip ==> fd[k] != -1 && session[k] != null
    {
      assert was[..cnt] == was;
      assert forall k :: 0 <= k < cnt - skip ==> session[k] == session[..cnt - skip][k] == LiveOf(was)[k];
    }
  }

  /** The two legs of a call stay side by side. */
  lemma {:induction false} LivePaired(s: seq<Session?>, objs: set<Session>)
    requires Paired(s, objs)
    ensures Paired(LiveOf(s), objs)
    decreases |s|
  {
    hide LegOk, InRange;
    if |s| == 1 {
      assert s[..0] == [] && LiveOf(s) == s;
    } else {
      var n := |s| - 2;
      PairedInit(s, objs);
      LivePaired(s[..n], objs);
      LastCall(s, objs);
      LiveOfTwo(s);
      if s[n] == null {
        assert LiveOf(s) == LiveOf(s[..n]);
      } else {
        PairedPush(LiveOf(s[..n]), objs, objs, s[n], s[n + 1]);
      }
    }
  }

  lemma LiveOfTwo(s: seq<Session?>)
    requires |s| >= 2 && (s[|s| - 2] == null <==> s[|s| - 1] == null)
    ensures LiveOf(s) == if s[|s| - 2] == null then LiveOf(s[..|s| - 2])
                         else LiveOf(s[..|s| - 2]) + [s[|s| - 2], s[|s| - 1]]
  {
    hide LiveOf;
    var n := |s| - 2;
    NextLive(s, n);
    NextLive(s, n + 1);
    assert s[..n + 2] == s;
    if s[n] != null { PushTwo(LiveOf(s[..n]), s[n], s[n + 1]); }
  }

  lemma PushTwo(s: seq<Session?>, a: Session?, b: Session?)
    ensures s + [a] + [b] == s + [a, b]
  {
  }

  /** The last two entries. */
  lemma LastCall(s: seq<Session?>, objs: set<Session>)
    requires Paired(s, objs) && |s| > 1
    ensures var n := |s| - 2; var a, b := s[n], s[n + 1];
            && (a == null <==> b == null)
            && (a != null ==>
                  && a in objs && b in objs && a.peer == b && b.peer == a && a.callId == b.callId
                  && a.isIn && !b.isIn && InRange(a.id, true) && InRange(b.id, false)
                  && PORT_START <= a.locPort < PORT_START + PORT_COUNT
                  && PORT_START <= b.locPort < PORT_START + PORT_COUNT)
  {
    var n := |s| - 2;
    assert s[n] != null ==> LegOk(s, objs, n);
    assert s[n + 1] != null ==> LegOk(s, objs, n + 1);
  }

  lemma PairedInit(s: seq<Session?>, objs: set<Session>)
    requires Paired(s, objs) && |s| > 1
    ensures Paired(s[..|s| - 2], objs)
  {
    hide LegOk;
    var r := s[..|s| - 2];
    forall i | 0 < i < |r| && r[i] != null
      ensures LegOk(r, objs, i)
    {
      assert LegOk(s, objs, i);
      WithinOdd(i, |r|);
      SameLeg(s, r, objs, objs, i);
    }
  }

  lemma WithinOdd(i: nat, n: nat)
    requires 0 < i < n && n % 2 == 1
    ensures Mate(i) < n
  {
  }

  lemma SameLeg(r: seq<Session?>, s: seq<Session?>, fewer: set<Session>, objs: set<Session>, i: nat)
    requires 0 < i < |r| && r[i] != null && LegOk(r, fewer, i) && fewer <= objs
    requires i < |s| && Mate(i) < |s| && Mate(i) < |r| && s[i] == r[i] && s[Mate(i)] == r[Mate(i)]
    ensures LegOk(s, objs, i)
  {
  }

  lemma PairedPush(r: seq<Session?>, fewer: set<Session>, objs: set<Session>, a: Session, b: Session)
    requires Paired(r, fewer) && fewer <= objs && a in objs && b in objs
    requires a.peer == b && b.peer == a && a.callId == b.callId
    requires a.isIn && !b.isIn && InRange(a.id, true) && InRange(b.id, false)
    requires PORT_START <= a.locPort < PORT_START + PORT_COUNT && PORT_START <= b.locPort < PORT_START + PORT_COUNT
    ensures Paired(r + [a, b], objs)
  {
    hide InRange, LegOk;
    var s := r + [a, b];
    NewLegs(r, objs, a, b);
    forall i | 0 < i < |s| && s[i] != null
      ensures LegOk(s, objs, i)
    {
      if i < |r| {
        assert LegOk(r, fewer, i);
        WithinOdd(i, |r|);
        SameLeg(r, s, fewer, objs, i);
      }
    }
  }

  lemma NewLegs(r: seq<Session?>, objs: set<Session>, a: Session, b: Session)
    requires |r| % 2 == 1 && a in objs && b in objs && a.peer == b && b.peer == a && a.callId == b.callId
    requires a.isIn && !b.isIn && InRange(a.id, true) && InRange(b.id, false)
    requires PORT_START <= a.locPort < PORT_START + PORT_COUNT && PORT_START <= b.locPort < PORT_START + PORT_COUNT
    ensures LegOk(r + [a, b], objs, |r|) && LegOk(r + [a, b], objs, |r| + 1)
  {
  }

  /** Numbers and ports in use are still those of the sessions in the table. */
  lemma LiveExact(s: seq<Session?>, objs: set<Session>, ids: seq<bool>, ports: seq<bool>)
    requires Paired(s, objs) && Owned(ids, IdsOf(s)) && Owned(ports, PortsOf(s[1..]))
    ensures Owned(ids, IdsOf(LiveOf(s))) && |LiveOf(s)| > 0 && Owned(ports, PortsOf(LiveOf(s)[1..]))
  {
    hide Owned;
    LiveNumbers(s);
    LiveTail(s);
    LivePlaces(s[1..]);
    OwnedCompact(ids, IdsOf(s));
    OwnedCompact(ports, PortsOf(s[1..]));
  }

  lemma {:induction false} LiveNumbers(s: seq<Session?>)
    requires forall i :: 0 <= i < |s| && s[i] != null ==> s[i].id >= 0
    ensures IdsOf(LiveOf(s)) == WithoutGaps(IdsOf(s))
  {
    if s != [] {
      var init, x := s[..|s| - 1], s[|s| - 1];
      assert s == init + [x];
      hide IdsOf, LiveOf, WithoutGaps;
      LiveNumbers(init);
      LivePush(init, x);
      IdsPush(init, x);
      GapsPush(IdsOf(init), if x == null then -1 else x.id);
      if x != null { IdsPush(LiveOf(init), x); }
    } else {
      NothingLive();
    }
  }

  lemma NothingLive()
    ensures LiveOf([]) == [] && IdsOf([]) == [] && PortsOf([]) == [] && WithoutGaps([]) == []
  {
  }

  lemma LivePush(s: seq<Session?>, x: Session?)
    ensures LiveOf(s + [x]) == if x == null then LiveOf(s) else LiveOf(s) + [x]
  {
    NextLive(s + [x], |s|);
    assert (s + [x])[..|s|] == s && (s + [x])[..|s| + 1] == s + [x];
  }

  lemma GapsPush(owners: seq<int>, x: int)
    ensures WithoutGaps(owners + [x]) == if x == -1 then WithoutGaps(owners) else WithoutGaps(owners) + [x]
  {
    assert (owners + [x])[..|owners|] == owners;
  }

  lemma IdsPush(s: seq<Session?>, x: Session?)
    ensures IdsOf(s + [x]) == IdsOf(s) + [if x == null then -1 else x.id]
  {
  }

  lemma PortsPush(s: seq<Session?>, x: Session?)
    ensures PortsOf(s + [x]) == PortsOf(s) + [if x == null then -1 else x.locPort - PORT_START]
  {
  }

  lemma {:induction false} LivePlaces(s: seq<Session?>)
    requires forall i :: 0 <= i < |s| && s[i] != null ==> s[i].locPort >= PORT_START
    ensures PortsOf(LiveOf(s)) == WithoutGaps(PortsOf(s))
  {
    if s != [] {
      var init, x := s[..|s| - 1], s[|s| - 1];
      assert s == init + [x];
      hide PortsOf, LiveOf, WithoutGaps;
      LivePlaces(init);
      LivePush(init, x);
      PortsPush(init, x);
      GapsPush(PortsOf(init), if x == null then -1 else x.locPort - PORT_START);
      if x != null { PortsPush(LiveOf(init), x); }
    } else {
      NothingLive();
    }
  }

  lemma {:induction false} LiveTail(s: seq<Session?>)
    requires |s| > 0 && s[0] != null
    ensures LiveOf(s) == [s[0]] + LiveOf(s[1..])
  {
    if |s| == 1 {
      assert s[..0] == [];
    } else {
      LiveTail(s[..|s| - 1]);
      assert s[1..][..|s| - 2] == s[..|s| - 1][1..];
    }
  }

  lemma NoneEmpty(s: seq<Session?>)
    requires forall k :: 0 <= k < |s| ==> s[k] != null
    ensures null !in s
  {
  }

  lemma NextLive(s: seq<Session?>, i: nat)
    requires i < |s|
    ensures LiveOf(s[..i + 1]) == if s[i] == null then LiveOf(s[..i]) else LiveOf(s[..i]) + [s[i]]
  {
    assert s[..i + 1][..i] == s[..i];
  }

  lemma {:induction false} LiveIn(s: seq<Session?>, x: Session)
    ensures x in LiveOf(s) <==> x in s
  {
    if s != [] {
      LiveIn(s[..|s| - 1], x);
      assert s == s[..|s| - 1] + [s[|s| - 1]];
    }
  }

  /** Entry `k` is the first one behind the control session that belongs to a call of that name; zero if
      there is none. */
  predicate Named(s: seq<Session?>, callId: string, k: nat) {
    && (k > 0 ==> k < |s| && s[k] != null && s[k].callId == callId)
    && forall i :: 0 < i < (if k == 0 then |s| else k) && i < |s| && s[i] != null ==> s[i].callId != callId
  }

  /** The leg in entry `k` and its peer are gone, and their numbers are free. */
  ghost predicate CallRemoved(was: seq<Session?>, now: seq<Session?>, ids: seq<bool>, ids': seq<bool>, k: nat) {
    && 0 < k < |was| && Mate(k) < |was| && was[k] != null && was[Mate(k)] != null
    && now == was[k := null][Mate(k) := null]
    && 0 <= was[k].id < |ids| && 0 <= was[Mate(k)].id < |ids|
    && ids' == ids[was[Mate(k)].id := false][was[k].id := false]
  }

  /** What a leg of the table has. */
  lemma LegFacts(was: seq<Session?>, objs: set<Session>, i: nat, cs: Session)
    requires Linked(was, objs) && 0 < i < |was| && was[i] == cs
    ensures Mate(i) < |was| && Mate(i) != i && cs.peer != null && was[Mate(i)] == cs.peer
    ensures cs.peer in objs && cs.peer.sidx == Mate(i)
    ensures 0 <= cs.id < SESSION_ID_CNT && 0 <= cs.peer.id < SESSION_ID_CNT
    ensures PORT_START <= cs.locPort < PORT_START + PORT_COUNT
    ensures PORT_START <= cs.peer.locPort < PORT_START + PORT_COUNT
  {
    assert LegOk(was, objs, i);
    assert LegOk(was, objs, Mate(i));
  }

  lemma NumbersRemoved(was: seq<Session?>, i: nat, j: nat, cs: Session, peer: Session, ids: seq<bool>)
    requires i < |was| && j < |was| && i != j && was[i] == cs && was[j] == peer
    requires Owned(ids, IdsOf(was)) && 0 <= cs.id && 0 <= peer.id
    ensures cs.id < |ids| && peer.id < |ids|
    ensures Owned(ids[peer.id := false][cs.id := false], IdsOf(was[i := null][j := null]))
  {
    OwnedDropTwo(ids, IdsOf(was), i, j);
    assert IdsOf(was[i := null][j := null]) == IdsOf(was)[i := -1][j := -1];
  }

  lemma PortsRemoved(was: seq<Session?>, i: nat, j: nat, cs: Session, peer: Session, ports: seq<bool>)
    requires 0 < i < |was| && 0 < j < |was| && i != j && was[i] == cs && was[j] == peer
    requires Owned(ports, PortsOf(was[1..])) && PORT_START <= cs.locPort && PORT_START <= peer.locPort
    ensures cs.locPort - PORT_START < |ports| && peer.locPort - PORT_START < |ports|
    ensures Owned(ports[peer.locPort - PORT_START := false][cs.locPort - PORT_START := false],
                  PortsOf(was[i := null][j := null][1..]))
  {
    OwnedDropTwo(ports, PortsOf(was[1..]), i - 1, j - 1);
    assert was[i := null][j := null][1..] == was[1..][i - 1 := null][j - 1 := null];
    assert PortsOf(was[1..][i - 1 := null][j - 1 := null]) == PortsOf(was[1..])[i - 1 := -1][j - 1 := -1];
  }

  lemma StillLinked(was: seq<Session?>, objs: set<Session>, i: nat)
    requires Linked(was, objs) && 0 < i < |was| && Mate(i) < |was|
    ensures Linked(was[i := null][Mate(i) := null], objs)
  {
    hide LegOk, InRange;
    var s := was[i := null][Mate(i) := null];
    forall k | 0 < k < |s| && s[k] != null
      ensures LegOk(s, objs, k)
    {
      assert LegOk(was, objs, k);
      WithinOdd(k, |was|);
      MatesApart(i, k);
      SameLeg(was, s, objs, objs, k);
    }
  }

  lemma MatesApart(i: nat, k: nat)
    requires i > 0 && k > 0 && k != i && k != Mate(i)
    ensures Mate(k) != i && Mate(k) != Mate(i) && Mate(i) > 0
  {
  }

  lemma OneLeft(t: seq<bool>, owners: seq<int>, lo: nat, hi: nat, cursor: nat)
    requires Owned(t, owners) && lo <= cursor <= hi <= |t| && |owners| < hi - lo
    ensures NextFree(t, lo, hi, cursor) != -1
  {
    NotExhausted(t, owners, lo, hi, cursor);
  }

  lemma EntryCounts(s: seq<Session?>)
    requires 0 < |s| <= FAX_MAX_SESSIONS
    ensures |IdsOf(s)| + 1 < SESSION_ID_OUT && |PortsOf(s[1..])| + 1 < PORT_COUNT
  {
  }

  /** Two legs more. */
  lemma PairAdded(was: seq<Session?>, objs: set<Session>, in_: Session, out: Session)
    requires Linked(was, objs) && in_ !in objs && out !in objs && in_ != out
    requires in_.isIn && !out.isIn && InRange(in_.id, true) && InRange(out.id, false)
    requires in_.sidx == |was| && out.sidx == |was| + 1
    requires in_.peer == out && out.peer == in_ && in_.callId == out.callId
    requires PORT_START <= in_.locPort < PORT_START + PORT_COUNT && PORT_START <= out.locPort < PORT_START + PORT_COUNT
    ensures Linked(was + [in_, out], objs + {in_, out})
    ensures IdsOf(was + [in_, out]) == IdsOf(was) + [in_.id] + [out.id]
    ensures PortsOf((was + [in_, out])[1..])
         == PortsOf(was[1..]) + [in_.locPort - PORT_START] + [out.locPort - PORT_START]
  {
    PairLinked(was, objs, in_, out);
    var s := was + [in_, out];
    assert s[1..] == was[1..] + [in_, out];
  }

  lemma PairLinked(was: seq<Session?>, objs: set<Session>, in_: Session, out: Session)
    requires Linked(was, objs) && in_ != out
    requires in_.isIn && !out.isIn && InRange(in_.id, true) && InRange(out.id, false)
    requires in_.sidx == |was| && out.sidx == |was| + 1
    requires in_.peer == out && out.peer == in_ && in_.callId == out.callId
    requires PORT_START <= in_.locPort < PORT_START + PORT_COUNT && PORT_START <= out.locPort < PORT_START + PORT_COUNT
    ensures Linked(was + [in_, out], objs + {in_, out})
  {
    PairedPush(was, objs, objs + {in_, out}, in_, out);
  }

  predicate AllWell(l: Luck): (well: bool)
    ensures well <==> l == Luck(true, true, true, true, true, true)
  {
    l.modeKnown && l.inCreated && l.inInited && l.outCreated && l.outInited && l.started
  }

  lemma ControlOnly(control: Session, objs: set<Session>)
    requires control in objs && control.isIn && control.sidx == 0 && InRange(control.id, true)
    ensures Linked([control], objs) && IdsOf([control]) == [control.id] && PortsOf([]) == []
  {
  }

  predicate InRange(id: int, isIn: bool) {
    if isIn then 0 <= id < SESSION_ID_OUT else SESSION_ID_OUT <= id < SESSION_ID_CNT
  }

  /** The control session comes first; behind it, IN and OUT legs alternate, and the two legs of a call are
      each other's peers. */
  ghost predicate Paired(s: seq<Session?>, objs: set<Session>)
    reads objs
  {
    && |s| % 2 == 1 && s[0] != null && s[0].isIn && InRange(s[0].id, true)
    && forall i :: 0 < i < |s| && s[i] != null ==> LegOk(s, objs, i)
  }

  /** The session in entry `i` has a number that tells its direction, a gateway port, and a peer. */
  ghost predicate LegOk(s: seq<Session?>, objs: set<Session>, i: nat)
    requires 0 < i < |s| && s[i] != null
    reads objs
  {
    && s[i].isIn == (i % 2 == 1) && InRange(s[i].id, s[i].isIn)
    && PORT_START <= s[i].locPort < PORT_START + PORT_COUNT
    && Mate(i) < |s| && s[Mate(i)] != null && s[i] in objs && s[Mate(i)] in objs
    && s[i].peer == s[Mate(i)] && s[i].callId == s[Mate(i)].callId
  }

  /** Each session knows its place. */
  ghost predicate Placed(s: seq<Session?>, objs: set<Session>)
    reads objs
  {
    forall i :: 0 <= i < |s| && s[i] != null ==> s[i] in objs && s[i].sidx == i
  }

  ghost predicate Linked(s: seq<Session?>, objs: set<Session>)
    reads objs
  {
    Paired(s, objs) && Placed(s, objs)
  }

  /** What the control socket brings in one round. */
  datatype Command = SetUp(callId: string, luck: Luck) | TakeDown(callId: string) | Nothing

  /** The names of the calls in the table, in the order of the table. */
  function CallsIn(s: seq<Session?>): seq<string> {
    if |s| <= 1 then [] else
    CallsIn(s[..|s| - 2]) + if s[|s| - 2] == null then [] else [s[|s| - 2].callId]
  }

  /** The names without the first one that is `name`. */
  function Without(names: seq<string>, name: string): seq<string> {
    if names == [] then [] else
    var init, last := names[..|names| - 1], names[|names| - 1];
    if name in init then Without(init, name) + [last] else if last == name then init else names
  }

  /** A call is set up when there is room for one of its legs only. */
  predicate Overruns(names: seq<string>, command: Command) {
    command.SetUp? && AllWell(command.luck) && 2 * |names| + 1 == FAX_MAX_SESSIONS - 1
  }

  /** The calls after one more command. */
  function Obeyed(names: seq<string>, command: Command): seq<string> {
    match command
    case SetUp(callId, luck) =>
      if AllWell(luck) && 2 * |names| + 1 < FAX_MAX_SESSIONS - 1 then names + [callId] else names
    case TakeDown(callId) => Without(names, callId)
    case Nothing => names
  }

  /** The calls after a number of commands: those set up and not taken down since, in the order in which
      they were set up. */
  function AllObeyed(names: seq<string>, commands: seq<Command>): seq<string> {
    if commands == [] then names else
    Obeyed(AllObeyed(names, commands[..|commands| - 1]), commands[|commands| - 1])
  }

  predicate NoOverrun(names: seq<string>, commands: seq<Command>) {
    forall i :: 0 <= i < |commands| ==> !Overruns(AllObeyed(names, commands[..i]), commands[i])
  }

  lemma CallsInPush(s: seq<Session?>, a: Session, b: Session)
    requires s != []
    ensures CallsIn(s + [a, b]) == CallsIn(s) + [a.callId]
  {
    assert (s + [a, b])[..|s|] == s;
  }

  /** Closing gaps changes no call. */
  lemma {:induction false} CallsInLive(s: seq<Session?>, objs: set<Session>)
    requires Paired(s, objs)
    ensures CallsIn(LiveOf(s)) == CallsIn(s)
    ensures |LiveOf(s)| == 2 * |CallsIn(s)| + 1
    decreases |s|
  {
    hide LegOk, InRange;
    if |s| == 1 {
      assert s[..0] == [] && LiveOf(s) == s;
    } else {
      var n := |s| - 2;
      PairedInit(s, objs);
      CallsInLive(s[..n], objs);
      LastCall(s, objs);
      LiveOfTwo(s);
      if s[n] != null { CallsInPush(LiveOf(s[..n]), s[n], s[n + 1]); }
    }
  }

  lemma NamedInit(s: seq<Session?>, name: string, k: nat, n: nat)
    requires Named(s, name, k) && 0 < n <= |s|
    ensures Named(s[..n], name, if k < n then k else 0)
  {
  }

  /** Taking a call out of the table takes its name out of the calls. */
  lemma {:induction false} CallGone(s: seq<Session?>, objs: set<Session>, name: string, k: nat)
    requires Paired(s, objs) && Named(s, name, k)
    ensures k > 0 ==> Mate(k) < |s|
    ensures CallsIn(if k == 0 then s else s[k := null][Mate(k) := null]) == Without(CallsIn(s), name)
    ensures k > 0 <==> name in CallsIn(s)
    decreases |s|
  {
    hide LegOk, InRange, Without;
    if |s| == 1 {
      WithoutNothing(name);
    } else {
      var n := |s| - 2;
      var k' := if k < n then k else 0;
      PairedInit(s, objs);
      NamedInit(s, name, k, n);
      CallGone(s[..n], objs, name, k');
      LastCall(s, objs);
      LastGone(s, n, name, k);
    }
  }

  lemma LastGone(s: seq<Session?>, n: nat, name: string, k: nat)
    requires |s| == n + 2 && n % 2 == 1 && (s[n] == null <==> s[n + 1] == null) && Named(s, name, k)
    requires s[n] != null ==> s[n].callId == s[n + 1].callId
    requires 0 < k < n ==> Mate(k) < n
    requires var r := s[..n];
             && CallsIn(if 0 < k < n then r[k := null][Mate(k) := null] else r) == Without(CallsIn(r), name)
             && (0 < k < n <==> name in CallsIn(r))
    ensures k > 0 ==> Mate(k) < |s|
    ensures CallsIn(if k == 0 then s else s[k := null][Mate(k) := null]) == Without(CallsIn(s), name)
    ensures k > 0 <==> name in CallsIn(s)
  {
    hide Without;
    WithoutLast(CallsIn(s[..n]), if s[n] == null then [] else [s[n].callId], name);
    if 0 < k < n {
      BothInside(s, n, k);
    } else if k > 0 {
      assert k == n;
      assert s[k := null][Mate(k) := null][..n] == s[..n];
    }
  }

  lemma WithoutNothing(name: string)
    ensures Without([], name) == []
  {
  }

  lemma WithoutLast(names: seq<string>, last: seq<string>, name: string)
    requires |last| <= 1
    ensures Without(names + last, name)
         == if name in names then Without(names, name) + last else if last == [name] then names else names + last
    ensures name !in names ==> Without(names, name) == names
  {
    if last == [] {
      assert names + last == names;
    } else {
      assert (names + last)[..|names|] == names;
    }
    if name !in names { NotThere(names, name); }
  }

  /** The first call of that name is the one that goes. */
  lemma {:induction false} FirstGoes(names: seq<string>, name: string) returns (k: nat)
    requires name in names
    ensures k < |names| && names[k] == name && forall i :: 0 <= i < k ==> names[i] != name
    ensures Without(names, name) == names[..k] + names[k + 1..]
  {
    var init, last := names[..|names| - 1], names[|names| - 1];
    if name in init {
      k := FirstGoes(init, name);
      assert names[..k] == init[..k] && names[k + 1..] == init[k + 1..] + [last];
    } else {
      k := |names| - 1;
      assert names[k + 1..] == [] && forall i :: 0 <= i < k ==> names[i] == init[i];
    }
  }

  lemma NotThere(names: seq<string>, name: string)
    requires name !in names
    ensures Without(names, name) == names
  {
    if names != [] {
      assert names[|names| - 1] in names;
    }
  }

  /** One round of `app_start`: gaps are closed first, then a command is carried out. */
  method Round(t: Table, command: Command) returns (ok: bool)
    requires t.Valid()
    modifies t, t.session, t.fd, t.ids, t.ports, t.objs
    ensures fresh(t.objs - old(t.objs))
    ensures ok <==> !Overruns(old(CallsIn(t.Entries())), command)
    ensures if ok then t.Valid() && CallsIn(t.Entries()) == Obeyed(old(CallsIn(t.Entries())), command)
            else t.cnt == FAX_MAX_SESSIONS - 1
  {
    hide Linked, Owned, IdsOf, PortsOf, LiveOf, CallsIn, Without;
    t.CallCounts();
    t.ProcSessions();
    ok := true;
    match command {
      case SetUp(callId, luck) =>
        ok := SetUpRound(t, callId, luck);
      case TakeDown(callId) =>
        TakeDownRound(t, callId);
      case Nothing =>
    }
  }

  method SetUpRound(t: Table, callId: string, luck: Luck) returns (ok: bool)
    requires t.Valid() && t.Compact() && t.cnt == 2 * |CallsIn(t.Entries())| + 1
    modifies t, t.session, t.fd, t.ids, t.ports
    ensures fresh(t.objs - old(t.objs))
    ensures ok <==> !Overruns(old(CallsIn(t.Entries())), SetUp(callId, luck))
    ensures if ok then t.Valid() && CallsIn(t.Entries()) == Obeyed(old(CallsIn(t.Entries())), SetUp(callId, luck))
            else t.cnt == FAX_MAX_SESSIONS - 1
  {
    hide Linked, Owned, IdsOf, PortsOf, LiveOf, CallsIn, Without;
    ghost var s := t.Entries();
    var r := t.Setup(callId, luck);
    ok := r != Overrun;
    if r == Created {
      assert t.Entries()[t.cnt - 2] == t.session[t.cnt - 2];
      CallsInNext(t.Entries());
    } else if r != Overrun {
      assert t.Entries() == s;
    }
  }

  method TakeDownRound(t: Table, callId: string)
    requires t.Valid()
    modifies t.session, t.fd, t.ids, t.ports
    ensures t.Valid() && CallsIn(t.Entries()) == Without(old(CallsIn(t.Entries())), callId)
  {
    hide Linked, Owned, IdsOf, PortsOf, LiveOf, CallsIn, Without, Paired, Named;
    ghost var s, all := t.Entries(), t.session[..];
    t.Opened();
    CallsWithout(s, t.objs, callId);
    ghost var k := t.Release(callId);
    if k > 0 { BothInside(all, t.cnt, k); }
    assert t.Entries() == if k == 0 then s else s[k := null][Mate(k) := null];
  }

  lemma BothInside(all: seq<Session?>, n: nat, k: nat)
    requires 0 < k < n <= |all| && Mate(k) < n
    ensures all[k := null][Mate(k) := null][..n] == all[..n][k := null][Mate(k) := null]
  {
    hide Mate;
  }

  lemma CallsWithout(s: seq<Session?>, objs: set<Session>, name: string)
    requires Paired(s, objs)
    ensures forall k: nat :: Named(s, name, k) ==>
              && k < |s| && (k > 0 ==> Mate(k) < |s|)
              && CallsIn(if k == 0 then s else s[k := null][Mate(k) := null]) == Without(CallsIn(s), name)
  {
    forall k: nat | Named(s, name, k)
      ensures k < |s| && (k > 0 ==> Mate(k) < |s|)
      ensures CallsIn(if k == 0 then s else s[k := null][Mate(k) := null]) == Without(CallsIn(s), name)
    {
      CallGone(s, objs, name, k);
    }
  }

  lemma CallsInNext(s: seq<Session?>)
    requires |s| > 1 && s[|s| - 2] != null
    ensures CallsIn(s) == CallsIn(s[..|s| - 2]) + [s[|s| - 2].callId]
  {
  }

  /** After any number of rounds the table is what it should be, and the calls in it are those set up and
      not taken down since, unless a call was set up when there were 79 sessions. */
  method Rounds(t: Table, commands: seq<Command>) returns (ok: bool)
    requires t.Valid()
    modifies t, t.session, t.fd, t.ids, t.ports, t.objs
    ensures ok <==> NoOverrun(old(CallsIn(t.Entries())), commands)
    ensures if ok then t.Valid() && CallsIn(t.Entries()) == AllObeyed(old(CallsIn(t.Entries())), commands)
            else t.cnt == FAX_MAX_SESSIONS - 1
  {
    hide CallsIn, Obeyed, Overruns, Linked, Owned, IdsOf, PortsOf;
    ghost var names := CallsIn(t.Entries());
    assert commands[..0] == [];
    for i := 0 to |commands|
      invariant t.Valid() && fresh(t.objs - old(t.objs))
      invariant CallsIn(t.Entries()) == AllObeyed(names, commands[..i])
      invariant forall j :: 0 <= j < i ==> !Overruns(AllObeyed(names, commands[..j]), commands[j])
    {
      ok := Round(t, commands[i]);
      if !ok {
        return;
      }
      assert commands[..i + 1][..i] == commands[..i];
    }
    assert commands[..|commands|] == commands;
    ok := true;
  }

  /** Thirty-nine calls are set up; the next one overruns the table. */
  method FortiethCall() returns (r: Outcome)
    ensures r == Overrun
  {
    var t := new Table();
    t.InitControl();
    var well := Luck(true, true, true, true, true, true);
    for i := 0 to 39
      invariant t.Valid() && t.Compact() && t.cnt == 2 * i + 1
      invariant fresh(t) && fresh(t.session) && fresh(t.fd) && fresh(t.ids) && fresh(t.ports) && fresh(t.objs)
    {
      r := t.Setup("call", well);
    }
    r := t.Setup("call", well);
  }
}
