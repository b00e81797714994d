/** The packets of the run-length coding of `tif_luv.c`: what they stand for, and which ones an encoder that
    looks for runs chooses. */
module LogLuvPackets {
  import opened Bits

  type Octets = seq<byte>

  const MINRUN := 4

  function Run(b: byte, n: nat): (r: Octets)
    ensures |r| == n
  {
    seq(n, _ => b)
  }

  /** How many octets of the plane a packet stands for, given its first octet. */
  function Taken(c: byte): (n: nat) {
    if c >= 128 then c - 126 else c
  }

  /** How many octets a packet consists of. */
  function Size(c: byte): (n: nat)
    ensures n > 0
  {
    if c >= 128 then 2 else c + 1
  }

  /** `code` begins with a packet that stands for the beginning of `plane`: a run of equal octets, or a
      literal string that is not empty. */
  ghost predicate FirstStands(code: Octets, plane: Octets)
    requires code != []
  {
    var n, k := Taken(code[0]), Size(code[0]);
    && code[0] > 0 && k <= |code| && n <= |plane|
    && plane[..n] == if code[0] >= 128 then Run(code[1], n) else code[1..k]
  }

  /** `code` is made up of packets that stand for `plane`. */
  ghost predicate Stands(code: Octets, plane: Octets) {
    if code == [] then plane == []
    else FirstStands(code, plane) && Stands(code[Size(code[0])..], plane[Taken(code[0])..])
  }

  lemma FirstJoin(a: Octets, p: Octets, b: Octets, q: Octets)
    requires a != [] && FirstStands(a, p)
    ensures FirstStands(a + b, p + q) && Size(a[0]) <= |a| && Taken(a[0]) <= |p|
    ensures (a + b)[Size(a[0])..] == a[Size(a[0])..] + b && (p + q)[Taken(a[0])..] == p[Taken(a[0])..] + q
  {
    var n, k := Taken(a[0]), Size(a[0]);
    assert (a + b)[0] == a[0] && (a + b)[1] == a[1] && (p + q)[..n] == p[..n];
    assert (a + b)[1..k] == a[1..k];
  }

  lemma {:induction false} StandsJoin(a: Octets, p: Octets, b: Octets, q: Octets)
    requires Stands(a, p) && Stands(b, q)
    ensures Stands(a + b, p + q)
    decreases |a|
  {
    hide FirstStands, Size, Taken;
    if a == [] {
      assert a + b == b && p + q == q;
    } else {
      FirstJoin(a, p, b, q);
      StandsJoin(a[Size(a[0])..], p[Taken(a[0])..], b, q);
    }
  }

  lemma OnePacket(code: Octets, plane: Octets)
    requires code != [] && FirstStands(code, plane) && Size(code[0]) == |code| && Taken(code[0]) == |plane|
    ensures Stands(code, plane)
  {
    assert code[Size(code[0])..] == [] && plane[Taken(code[0])..] == [];
  }

  lemma RunStands(b: byte, n: nat)
    requires 2 <= n <= 129
    ensures Stands([126 + n, b], Run(b, n))
  {
    hide Stands;
    assert Run(b, n)[..n] == Run(b, n);
    OnePacket([126 + n, b], Run(b, n));
  }

  lemma LiteralStands(d: Octets)
    requires 1 <= |d| <= 127
    ensures Stands([|d|] + d, d)
  {
    hide Stands;
    var n: byte := |d|;
    var code := [n] + d;
    assert code[1..|code|] == d && d[..|d|] == d;
    OnePacket(code, d);
  }

  lemma LiteralNotEmpty(code: Octets, plane: Octets)
    requires Stands(code, plane) && plane != []
    ensures code != []
  {
  }

  lemma StandsEmpty()
    ensures Stands([], [])
  {
  }

  // ---------- which packets are chosen ----------

  /** Whether the comparison `(tp[i] & mask) == b` holds.  In the high octets of 16-bit pixels `b` is a
      signed number that the left side is never equal to if its top bit is set. */
  predicate Same(a: byte, b: byte, signed: bool) {
    a == b && !(signed && b >= 128)
  }

  /** Octets `from` up to `end` compare equal to the first of them. */
  ghost predicate Equal(plane: Octets, signed: bool, from: nat, end: nat) {
    from < end <= |plane| && forall k :: from < k < end ==> Same(plane[k], plane[from], signed)
  }

  /** A long run, one of at least four octets, begins with octet `k`. */
  ghost predicate LongRun(plane: Octets, signed: bool, k: nat) {
    k + 4 <= |plane| && Equal(plane, signed, k, k + 4)
  }

  /** From `from` to `end` there is no long run, and then there is one, or the row ends. */
  ghost predicate Stretch(plane: Octets, signed: bool, from: nat, end: nat) {
    && from <= end <= |plane| && (forall k :: from <= k < end ==> !LongRun(plane, signed, k))
    && (end == |plane| || LongRun(plane, signed, end))
  }

  /** The first packet of `code`, which begins at octet `i`, where a stretch without long runs begins if
      `start`.  A long run goes on to where the next octet differs, or the row ends, or it has 129 octets.  A
      short run, of two or three octets, is a whole stretch.  A literal string has no octet at which a long
      run begins; it goes on to the end of the stretch, or has 127 octets; and it is not a whole stretch of
      two or three equal octets. */
  ghost predicate FirstThrifty(code: Octets, plane: Octets, signed: bool, start: bool, i: nat)
    requires code != []
  {
    var c: int := code[0];
    if c >= 130 then
      var end := i + c - 126;
      Equal(plane, signed, i, end) && (c == 255 || end == |plane| || !Same(plane[end], plane[i], signed))
    else if c >= 128 then
      start && Stretch(plane, signed, i, i + c - 126) && Equal(plane, signed, i, i + c - 126)
    else
      && 0 < c && i + c <= |plane| && (forall k :: i <= k < i + c ==> !LongRun(plane, signed, k))
      && (c == 127 || Stretch(plane, signed, i, i + c))
      && (start && 2 <= c <= 3 ==> !Equal(plane, signed, i, i + c))
  }

  /** All packets of `code`, which goes from octet `i` to octet `j`, are chosen like that; behind a long run
      a stretch begins. */
  ghost predicate Thrifty(code: Octets, plane: Octets, signed: bool, start: bool, i: nat, j: nat, start': bool)
    decreases |code|
  {
    if code == [] then i == j && start == start'
    else
      && FirstThrifty(code, plane, signed, start, i) && Size(code[0]) <= |code|
      && Thrifty(code[Size(code[0])..], plane, signed, code[0] >= 130, i + Taken(code[0]), j, start')
  }

  /** So are all packets of the code of a whole plane. */
  ghost predicate WellChosen(code: Octets, plane: Octets, signed: bool) {
    Thrifty(code, plane, signed, true, 0, |plane|, true) || Thrifty(code, plane, signed, true, 0, |plane|, false)
  }

  lemma {:induction false} ThriftyJoin(a: Octets, b: Octets, plane: Octets, signed: bool,
                                       f: bool, i: nat, f': bool, j: nat, f'': bool, k: nat)
    requires Thrifty(a, plane, signed, f, i, j, f') && Thrifty(b, plane, signed, f', j, k, f'')
    ensures Thrifty(a + b, plane, signed, f, i, k, f'')
    decreases |a|
  {
    hide FirstThrifty, Size, Taken;
    if a == [] {
      assert a + b == b;
    } else {
      var n := Size(a[0]);
      ThriftyJoin(a[n..], b, plane, signed, a[0] >= 130, i + Taken(a[0]), f', j, f'', k);
      SameFirst(a, a + b, plane, signed, f, i);
      assert (a + b)[n..] == a[n..] + b;
    }
  }

  lemma SameFirst(a: Octets, b: Octets, plane: Octets, signed: bool, f: bool, i: nat)
    requires a != [] && b != [] && a[0] == b[0]
    ensures FirstThrifty(a, plane, signed, f, i) == FirstThrifty(b, plane, signed, f, i)
  {
  }

  lemma OneThrifty(code: Octets, plane: Octets, signed: bool, f: bool, i: nat)
    requires code != [] && FirstThrifty(code, plane, signed, f, i) && Size(code[0]) == |code|
    ensures Thrifty(code, plane, signed, f, i, i + Taken(code[0]), code[0] >= 130)
  {
    hide FirstThrifty;
    assert code[|code|..] == [];
  }

  lemma ThriftyEmpty(plane: Octets, signed: bool, f: bool, i: nat)
    ensures Thrifty([], plane, signed, f, i, i, f)
  {
  }

  /** A literal string of a stretch: what is left of it, or 127 octets. */
  lemma LiteralChosen(code: Octets, plane: Octets, signed: bool, f: bool, i0: nat, i: nat, end: nat, j: nat)
    requires Stretch(plane, signed, i0, end) && i0 <= i < end && j == if end - i > 127 then 127 else end - i
    requires |code| == j + 1 && code[0] == j
    requires f && 2 <= end - i <= 3 ==> !Equal(plane, signed, i, end)
    ensures Thrifty(code, plane, signed, f, i, i + j, false)
  {
    hide Equal, LongRun;
    OneThrifty(code, plane, signed, f, i);
  }

  lemma ShortChosen(code: Octets, plane: Octets, signed: bool, i: nat, end: nat)
    requires Stretch(plane, signed, i, end) && Equal(plane, signed, i, end) && 2 <= end - i <= 3
    requires |code| == 2 && code[0] == 126 + (end - i)
    ensures Thrifty(code, plane, signed, true, i, end, false)
  {
    hide Equal, Stretch;
    OneThrifty(code, plane, signed, true, i);
  }

  lemma LongChosen(code: Octets, plane: Octets, signed: bool, f: bool, i: nat, n: nat)
    requires 4 <= n <= 129 && Equal(plane, signed, i, i + n) && |code| == 2 && code[0] == 126 + n
    requires n == 129 || i + n == |plane| || !Same(plane[i + n], plane[i], signed)
    ensures Thrifty(code, plane, signed, f, i, i + n, true)
  {
    OneThrifty(code, plane, signed, f, i);
  }

  lemma StretchOver(plane: Octets, signed: bool, i: nat, end: nat)
    requires Stretch(plane, signed, i, end)
    ensures Stretch(plane, signed, end, end)
  {
  }

  // ---------- the choice is the only one ----------

  /** The first packet is determined. */
  lemma SamePacket(a: Octets, b: Octets, plane: Octets, signed: bool, f: bool, i: nat)
    requires a != [] && b != [] && FirstThrifty(a, plane, signed, f, i) && FirstThrifty(b, plane, signed, f, i)
    ensures a[0] == b[0]
  {
    if LongRun(plane, signed, i) {
      LongOnly(a, plane, signed, f, i);
      LongOnly(b, plane, signed, f, i);
      SameRun(a, b, plane, signed, f, i);
      SameRun(b, a, plane, signed, f, i);
    } else {
      NotLong(a, plane, signed, f, i);
      NotLong(b, plane, signed, f, i);
      SameShort(a, b, plane, signed, f, i);
      SameShort(b, a, plane, signed, f, i);
    }
  }

  lemma LongOnly(a: Octets, plane: Octets, signed: bool, f: bool, i: nat)
    requires a != [] && FirstThrifty(a, plane, signed, f, i) && LongRun(plane, signed, i)
    ensures a[0] >= 130
  {
    hide LongRun, Equal;
    assert a[0] < 130 ==> !LongRun(plane, signed, i);
  }

  lemma NotLong(a: Octets, plane: Octets, signed: bool, f: bool, i: nat)
    requires a != [] && FirstThrifty(a, plane, signed, f, i) && !LongRun(plane, signed, i)
    ensures a[0] < 130
  {
  }

  lemma SameRun(a: Octets, b: Octets, plane: Octets, signed: bool, f: bool, i: nat)
    requires a != [] && b != [] && FirstThrifty(a, plane, signed, f, i) && FirstThrifty(b, plane, signed, f, i)
    requires a[0] >= 130 && b[0] >= 130
    ensures a[0] >= b[0]
  {
  }

  lemma SameShort(a: Octets, b: Octets, plane: Octets, signed: bool, f: bool, i: nat)
    requires a != [] && b != [] && FirstThrifty(a, plane, signed, f, i) && FirstThrifty(b, plane, signed, f, i)
    requires a[0] < 130 && b[0] < 130
    ensures a[0] <= b[0]
  {
    hide Equal, LongRun;
    var m: int := if a[0] >= 128 then a[0] - 126 else a[0];
    var n: int := if b[0] >= 128 then b[0] - 126 else b[0];
    assert m < n ==> !Stretch(plane, signed, i, i + m);
    assert n < m ==> !Stretch(plane, signed, i, i + n);
  }

  /** There is only one code for a plane whose packets are chosen like that. */
  lemma {:induction false} OnlyCode(a: Octets, b: Octets, plane: Octets, signed: bool, f: bool, i: nat,
                                    fa: bool, fb: bool)
    requires i <= |plane| && Stands(a, plane[i..]) && Stands(b, plane[i..])
    requires Thrifty(a, plane, signed, f, i, |plane|, fa) && Thrifty(b, plane, signed, f, i, |plane|, fb)
    ensures a == b
    decreases |a|
  {
    hide FirstThrifty, FirstStands, Size, Taken, Run;
    if a != [] && b != [] {
      SamePacket(a, b, plane, signed, f, i);
      SameOctets(a, b, plane[i..]);
      var k, n := Size(a[0]), Taken(a[0]);
      assert plane[i..][n..] == plane[i + n..];
      OnlyCode(a[k..], b[k..], plane, signed, a[0] >= 130, i + n, fa, fb);
      assert a == a[..k] + a[k..] && b == b[..k] + b[k..];
    } else {
      NothingLeft(a, plane[i..]);
      NothingLeft(b, plane[i..]);
    }
  }

  lemma NothingLeft(a: Octets, p: Octets)
    requires Stands(a, p)
    ensures a == [] <==> p == []
  {
  }

  lemma SameOctets(a: Octets, b: Octets, p: Octets)
    requires a != [] && b != [] && a[0] == b[0] && FirstStands(a, p) && FirstStands(b, p)
    ensures var k, n := Size(a[0]), Taken(a[0]);
            k <= |a| && k <= |b| && n <= |p| && a[..k] == b[..k]
  {
    var k, n := Size(a[0]), Taken(a[0]);
    if a[0] >= 128 {
      assert p[..n][0] == Run(a[1], n)[0] && p[..n][0] == Run(b[1], n)[0];
      assert a[..k] == [a[0], a[1]] && b[..k] == [b[0], b[1]];
    } else {
      assert a[..k] == [a[0]] + a[1..k] && b[..k] == [b[0]] + b[1..k];
    }
  }

  // ---------- planes of equal octets ----------

  /** A plane of equal octets takes two octets for each 129 of it, or part of 129. */
  lemma {:induction false} EqualPlane(code: Octets, plane: Octets, signed: bool, i: nat, f: bool)
    requires i <= |plane| && Thrifty(code, plane, signed, true, i, |plane|, f) && Stands(code, plane[i..])
    requires forall j, k :: 0 <= j < |plane| && 0 <= k < |plane| ==> Same(plane[j], plane[k], signed)
    ensures |code| == 2 * ((|plane| - i + 128) / 129)
    decreases |code|
  {
    hide Stands, FirstStands, FirstThrifty, Same, Size, Taken;
    if code != [] {
      StandsFirst(code, plane[i..]);
      var n, k := Taken(code[0]), Size(code[0]);
      EqualPacket(code, plane, signed, i);
      assert plane[i..][n..] == plane[i + n..];
      if i + n < |plane| {
        EqualPlane(code[k..], plane, signed, i + n, f);
        OnePairMore(|plane| - i);
      } else {
        NothingLeft(code[k..], plane[i + n..]);
        OnePairMore(|plane| - i);
      }
    }
  }

  lemma OnePairMore(n: nat)
    ensures n >= 129 ==> (n + 128) / 129 == 1 + (n - 129 + 128) / 129
    ensures 0 < n <= 129 ==> (n + 128) / 129 == 1
  {
  }

  lemma StandsFirst(code: Octets, plane: Octets)
    requires Stands(code, plane) && code != []
    ensures FirstStands(code, plane) && Size(code[0]) <= |code| && Taken(code[0]) <= |plane|
    ensures Stands(code[Size(code[0])..], plane[Taken(code[0])..])
  {
    hide Run, Size, Taken;
  }

  lemma EqualPacket(code: Octets, plane: Octets, signed: bool, i: nat)
    requires code != [] && i <= |plane| && FirstThrifty(code, plane, signed, true, i) && i + Taken(code[0]) <= |plane|
    requires forall j, k :: 0 <= j < |plane| && 0 <= k < |plane| ==> Same(plane[j], plane[k], signed)
    ensures Size(code[0]) == 2 && Taken(code[0]) > 0
    ensures Taken(code[0]) == if |plane| - i >= 129 then 129 else |plane| - i
    ensures Taken(code[0]) < |plane| - i ==> code[0] >= 130
  {
    var n := |plane| - i;
    assert n >= 4 ==> LongRun(plane, signed, i);
    if n >= 4 {
      LongOnly(code, plane, signed, true, i);
    } else {
      NotLong(code, plane, signed, true, i);
      assert forall k :: i <= k < |plane| ==> !LongRun(plane, signed, k);
      assert n > 0 ==> Equal(plane, signed, i, |plane|);
    }
  }

  // ---------- whole planes ----------

  /** The choice leaves no choice: a plane has only one such code. */
  lemma OneCode(a: Octets, b: Octets, plane: Octets, signed: bool)
    requires Stands(a, plane) && Stands(b, plane) && WellChosen(a, plane, signed) && WellChosen(b, plane, signed)
    ensures a == b
  {
    hide Thrifty, Stands;
    assert plane[0..] == plane;
    var fa := Thrifty(a, plane, signed, true, 0, |plane|, true);
    var fb := Thrifty(b, plane, signed, true, 0, |plane|, true);
    OnlyCode(a, b, plane, signed, true, 0, fa, fb);
  }

  /** Equal octets, below 128 where octets from there on compare as different, take two octets for each 129 of
      them, or part of 129. */
  lemma EqualOctets(code: Octets, b: byte, n: nat, signed: bool)
    requires Stands(code, Run(b, n)) && WellChosen(code, Run(b, n), signed) && (signed ==> b < 128)
    ensures |code| == 2 * ((n + 128) / 129)
  {
    hide Thrifty, Stands;
    var plane := Run(b, n);
    assert plane[0..] == plane;
    EqualPlane(code, plane, signed, 0, Thrifty(code, plane, signed, true, 0, |plane|, true));
  }
}
