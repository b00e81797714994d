/** Taking a UDPTL packet apart. */
module UdptlReading {
  import opened LengthCoding
  import opened UdptlPackets

  lemma NextOpenType(buf: Octets, ptr: nat, objs: seq<Octets>, i: nat, rest: Octets)
    requires ptr <= |buf| && i < |objs| && buf[ptr..] == OpenTypes(objs[i..]) + rest
    ensures var k := |OpenType(objs[i])|;
            && OpenType(objs[i]) <= buf[ptr..] && ptr + k <= |buf|
            && buf[ptr + k..] == OpenTypes(objs[i + 1..]) + rest
  {
    hide OpenType;
    var o, more := OpenType(objs[i]), OpenTypes(objs[i + 1..]) + rest;
    assert objs[i..][1..] == objs[i + 1..];
    assert buf[ptr..] == o + more;
    assert buf[ptr + |o|..] == buf[ptr..][|o|..];
  }

  /** Read `count` open types, none of them larger than a message if `bounded`. */
  method ReadObjects(buf: Octets, ptr: nat, count: nat, bounded: bool, ghost objs: seq<Octets>, ghost rest: Octets)
    returns (ok: bool, ptr': nat, list: seq<Octets>)
    requires ptr <= |buf|
    ensures ptr <= ptr' <= |buf| && (ok ==> |list| == count)
    ensures AllSendable(objs) && count == |objs| && buf[ptr..] == OpenTypes(objs) + rest ==>
              ok && list == objs && buf[ptr'..] == rest
  {
    hide OpenType, OpenTypes;
    ghost var enc := AllSendable(objs) && count == |objs| && buf[ptr..] == OpenTypes(objs) + rest;
    assert objs[0..] == objs;
    ok, ptr', list := true, ptr, [];
    for i := 0 to count
      invariant ptr <= ptr' <= |buf| && |list| == i && ok
      invariant enc ==> list == objs[..i] && buf[ptr'..] == OpenTypes(objs[i..]) + rest
    {
      if enc { NextOpenType(buf, ptr', objs, i, rest); }
      var obj;
      ok, ptr', obj := DecodeOpenType(buf, ptr', if enc then objs[i] else []);
      if !ok {
        return;
      }
      if bounded && |obj| > MAX_DATAGRAM {
        return false, ptr', list;
      }
      list := list + [obj];
    }
    NoOpenTypes(objs, rest);
  }

  lemma NoOpenTypes(objs: seq<Octets>, rest: Octets)
    ensures OpenTypes(objs[|objs|..]) + rest == rest && objs[..|objs|] == objs
  {
  }

  lemma LengthFirst(buf: Octets, ptr: nat, n: nat, rest: Octets)
    requires ptr <= |buf| && buf[ptr..] == LengthOctets(n) + rest
    ensures LengthOctets(n) <= buf[ptr..] && ptr + |LengthOctets(n)| <= |buf|
    ensures buf[ptr + |LengthOctets(n)|..] == rest
  {
    hide LengthOctets;
    var l := LengthOctets(n);
    assert buf[ptr + |l|..] == buf[ptr..][|l|..];
  }

  /** Read the secondary messages, which must be all that is left of the packet. */
  method ReadSecondaries(buf: Octets, ptr0: nat, ghost secs: seq<Octets>) returns (ok: bool, list: seq<Octets>)
    requires ptr0 <= |buf|
    ensures AllSendable(secs) && |secs| < 0x4000 && buf[ptr0..] == LengthOctets(|secs|) + OpenTypes(secs) ==>
              ok && list == secs
  {
    hide OpenTypes, LengthOctets;
    ghost var enc := AllSendable(secs) && |secs| < 0x4000 && buf[ptr0..] == LengthOctets(|secs|) + OpenTypes(secs);
    if enc {
      LengthFirst(buf, ptr0, |secs|, OpenTypes(secs));
      assert OpenTypes(secs) + [] == OpenTypes(secs);
    }
    var ptr := ptr0;
    list := [];
    while true
      invariant ptr0 <= ptr <= |buf|
      invariant enc ==> ptr == ptr0 && list == []
      decreases |buf| - ptr
    {
      var stat, count, more;
      stat, ptr, count := DecodeLength(buf, ptr, |secs|);
      if stat == Truncated {
        return false, list;
      }
      ok, ptr, more := ReadObjects(buf, ptr, count, false, secs, []);
      if !ok {
        return;
      }
      list := list + more;
      if stat == Last {
        break;
      }
    }
    ok := ptr == |buf|;
  }

  datatype Front = Bad | Good(seqNo: nat, msg: Octets, ptr: nat)

  lemma PacketParts(c: Content)
    requires ContentOk(c)
    ensures var b := Packet(c);
            && |b| >= 2 && b[0] == c.seqNo / 256 && b[1] == c.seqNo % 256 && Short(c.msg)
            && OpenType(c.msg) <= b[2..] && |b| == 2 + |OpenType(c.msg)| + |Recovery(c)|
            && b[2 + |OpenType(c.msg)|..] == Recovery(c)
  {
    hide OpenType, Recovery;
    var b, o, r := Packet(c), OpenType(c.msg), Recovery(c);
    assert b[2..] == o + r;
    assert b[2 + |o|..] == b[2..][|o|..];
  }

  /** The sequence number and the message, and where what follows them begins. */
  method ReadHeader(buf: Octets, ghost c: Content) returns (h: Front)
    ensures h.Good? ==> h.ptr < |buf| && h.seqNo < 0x1_0000 && |h.msg| <= MAX_DATAGRAM
    ensures ContentOk(c) && buf == Packet(c) ==>
              h == Good(c.seqNo, c.msg, 2 + |OpenType(c.msg)|) && buf[h.ptr..] == Recovery(c)
  {
    hide OpenType, Packet, Recovery;
    if ContentOk(c) { PacketParts(c); }
    if ContentOk(c) { RecoveryNotEmpty(c); }
    if 2 > |buf| {
      return Bad;
    }
    var first: int := buf[0];
    var seqNo := first * 256 + buf[1];
    var ok, ptr, msg := DecodeOpenType(buf, 2, if ContentOk(c) then c.msg else []);
    if !ok || ptr + 1 > |buf| || |msg| > MAX_DATAGRAM {
      return Bad;
    }
    h := Good(seqNo, msg, ptr);
  }

  lemma RecoveryNotEmpty(c: Content)
    requires ContentOk(c)
    ensures |Recovery(c)| >= 1
  {
  }
}
