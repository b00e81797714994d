/** Length determinants and open types, as in sections 10.9 and 10.2 of ITU-T X.691:
    `encode_length`, `decode_length`, `encode_open_type` and `decode_open_type`. */
module LengthCoding {
  import opened Bits

  type Octets = seq<byte>

  /** How many octets the determinant of a length announces; a long one comes in fragments. */
  function Announced(n: nat): (k: nat)
    ensures k <= n && (n < 0x4000 ==> k == n) && (n >= 0x4000 ==> k >= 0x4000)
  {
    if n < 0x4000 then n else if n < 0x1_0000 then n / 0x4000 * 0x4000 else 0x1_0000
  }

  function LengthOctets(n: nat): (s: Octets)
    ensures 1 <= |s| <= 2
  {
    if n < 0x80 then [n]
    else if n < 0x4000 then [0x80 + n / 256, n % 256]
    else [0xC0 + Announced(n) / 0x4000]
  }

  /** The fragments of an object.  They stop once the last octet is out, even if the determinant of the
      last fragment says that another one follows. */
  function Fragments(data: Octets): Octets
    decreases |data|
  {
    var k := Announced(|data|);
    LengthOctets(|data|) + data[..k] + if k < |data| then Fragments(data[k..]) else []
  }

  /** An empty object is sent as a single zero octet. */
  function OpenType(data: Octets): Octets {
    Fragments(if data == [] then [0] else data)
  }

  function OpenTypes(objects: seq<Octets>): Octets {
    if objects == [] then [] else OpenType(objects[0]) + OpenTypes(objects[1..])
  }

  /** What can be sent without fragments. */
  predicate Short(data: Octets) {
    1 <= |data| < 0x4000
  }

  lemma ShortOpenType(data: Octets)
    requires Short(data)
    ensures OpenType(data) == LengthOctets(|data|) + data
  {
    assert data[..|data|] == data;
  }

  method EncodeLength(buf: Octets, value: nat) returns (buf': Octets, enclen: nat)
    ensures buf' == buf + LengthOctets(value) && enclen == Announced(value)
    ensures value < 128 ==> buf' == buf + [value]
    ensures 128 <= value < 16384 ==> buf' == buf + [128 + value / 256, value % 256]
    ensures value >= 16384 ==> buf' == buf + [192 + if value / 16384 < 4 then value / 16384 else 4]
  {
    if value < 0x80 {
      return buf + [value], value;
    }
    if value < 0x4000 {
      buf' := buf + [0x80 + value / 256];
      buf' := buf' + [value % 256];
      return buf', value;
    }
    var multiplier := if value < 0x1_0000 then value / 0x4000 else 4;
    return buf + [0xC0 + multiplier], multiplier * 0x4000;
  }

  method EncodeOpenType(buf: Octets, data: Octets) returns (buf': Octets)
    ensures buf' == buf + OpenType(data)
  {
    hide Fragments, LengthOctets, Announced;
    var d := if data == [] then [0] else data;
    var idx := 0;
    assert d[0..] == d;
    buf' := buf;
    while true
      invariant idx < |d|
      invariant buf' + Fragments(d[idx..]) == buf + OpenType(data)
      decreases |d| - idx
    {
      var enclen;
      FragmentStep(buf', d, idx);
      buf', enclen := EncodeLength(buf', |d| - idx);
      buf' := buf' + d[idx..idx + enclen];
      if enclen >= |d| - idx {
        break;
      }
      idx := idx + enclen;
    }
  }

  lemma FragmentStep(was: Octets, d: Octets, idx: nat)
    requires idx < |d|
    ensures var k := Announced(|d| - idx);
            && 0 < k <= |d| - idx
            && was + Fragments(d[idx..])
               == was + LengthOctets(|d| - idx) + d[idx..idx + k]
                  + if k < |d| - idx then Fragments(d[idx + k..]) else []
  {
    hide LengthOctets;
    var k := Announced(|d| - idx);
    SlicesOfTail(d, idx, k);
    var more := if k < |d| - idx then Fragments(d[idx + k..]) else [];
    assert Fragments(d[idx..]) == LengthOctets(|d| - idx) + d[idx..idx + k] + more;
    FourParts(was, LengthOctets(|d| - idx), d[idx..idx + k], more);
  }

  lemma SlicesOfTail(d: Octets, idx: nat, k: nat)
    requires idx + k <= |d|
    ensures d[idx..][..k] == d[idx..idx + k] && d[idx..][k..] == d[idx + k..]
  {
  }

  lemma FourParts(a: Octets, b: Octets, c: Octets, d: Octets)
    ensures a + (b + c + d) == a + b + c + d
  {
  }

  datatype LengthStatus = Truncated | Last | Fragment

  /** Read a determinant at `ptr`; the new position and the length it announces. */
  method DecodeLength(buf: Octets, ptr: nat, ghost n: nat) returns (stat: LengthStatus, ptr': nat, value: nat)
    requires ptr <= |buf|
    ensures ptr <= ptr' <= |buf| && (stat != Truncated ==> ptr < ptr')
    ensures stat == Fragment ==> value % 0x4000 == 0
    ensures stat == Last ==> value < 0x4000
    ensures stat == Truncated <==> ptr == |buf| || (128 <= buf[ptr] < 192 && ptr + 1 == |buf|)
    ensures stat == Last && buf[ptr] < 128 ==> value == buf[ptr] && ptr' == ptr + 1
    ensures stat == Last && buf[ptr] >= 128 ==>
              ptr + 1 < |buf| &&
              var first: int, second: int := buf[ptr], buf[ptr + 1];
              first < 192 && ptr' == ptr + 2 && value == 256 * (first - 128) + second
    ensures stat == Fragment ==>
              var first: int := buf[ptr]; first >= 192 && ptr' == ptr + 1 && value == 16384 * (first - 192)
    ensures n < 0x4000 && LengthOctets(n) <= buf[ptr..] ==>
              stat == Last && value == n && ptr' == ptr + |LengthOctets(n)|
  {
    ghost var ahead := buf[ptr..];
    assert |ahead| > 0 ==> ahead[0] == buf[ptr];
    assert |ahead| > 1 ==> ahead[1] == buf[ptr + 1];
    assert LengthOctets(n) <= ahead ==> forall i :: 0 <= i < |LengthOctets(n)| ==> LengthOctets(n)[i] == ahead[i];
    ptr', value := ptr, 0;
    if ptr >= |buf| {
      return Truncated, ptr, 0;
    }
    var first: int := buf[ptr];
    if first < 0x80 {
      return Last, ptr + 1, first;
    }
    if first < 0xC0 {
      if ptr >= |buf| - 1 {
        return Truncated, ptr, 0;
      }
      return Last, ptr + 2, first % 64 * 256 + buf[ptr + 1];
    }
    return Fragment, ptr + 1, first % 64 * 0x4000;
  }

  /** Read an open type at `ptr`.  A short object that was encoded there comes back, and the position is
      just behind it.  Of an object in fragments the original keeps the place of the first fragment and the
      length of them all, so that what it takes for the object has the determinants in between in it. */
  method DecodeOpenType(buf: Octets, ptr: nat, ghost data: Octets) returns (ok: bool, ptr': nat, obj: Octets)
    requires ptr <= |buf|
    ensures ptr <= ptr' <= |buf| && (ok ==> ptr < ptr')
    ensures Short(data) && OpenType(data) <= buf[ptr..] ==>
              ok && obj == data && ptr' == ptr + |OpenType(data)|
  {
    ghost var enc := Short(data) && OpenType(data) <= buf[ptr..];
    if enc {
      ShortOpenType(data);
      OpenTypeAhead(buf, ptr, data);
    }
    ptr', obj := ptr, [];
    var start: nat, total: nat := ptr, 0;
    while true
      invariant ptr <= ptr' <= |buf| && start + total <= ptr'
      invariant enc ==> ptr' == ptr && total == 0
      decreases |buf| - ptr'
    {
      var stat, count;
      stat, ptr', count := DecodeLength(buf, ptr', |data|);
      if stat == Truncated {
        return false, ptr', obj;
      }
      if count > 0 {
        if ptr' + count > |buf| {
          return false, ptr', obj;
        }
        if total == 0 {
          start := ptr';
        }
        total := total + count;
        ptr' := ptr' + count;
      }
      if stat == Last {
        break;
      }
    }
    ok, obj := true, buf[start..start + total];
  }

  lemma OpenTypeAhead(buf: Octets, ptr: nat, data: Octets)
    requires ptr <= |buf| && Short(data) && OpenType(data) <= buf[ptr..]
    ensures var k := |LengthOctets(|data|)|;
            && LengthOctets(|data|) <= buf[ptr..] && |OpenType(data)| == k + |data|
            && ptr + k + |data| <= |buf| && buf[ptr + k..ptr + k + |data|] == data
  {
    ShortOpenType(data);
    var l, o := LengthOctets(|data|), OpenType(data);
    assert buf[ptr..][..|o|] == o;
    assert o[..|l|] == l && o[|l|..] == data;
    assert buf[ptr..][..|l|] == o[..|l|];
    assert buf[ptr + |l|..ptr + |o|] == o[|l|..];
  }
}
