/** The run-length coding of `LogL16Encode`, `LogL16Decode`, `LogLuvEncode32` and `LogLuvDecode32`: the
    octets of all pixels of a row that have the same significance, the most significant ones first, are
    coded as runs of equal octets and as literal strings. */
module LogLuv {
  import opened Bits
  import opened Strips
  import opened LogLuvPackets

  /** Octet `s / 8` of a pixel. */
  function OctetAt(p: nat, s: nat): (b: byte) {
    assert Pow2(8) == 256;
    Low(Shr(p, s), 8)
  }

  /** The octets of a pixel. */
  lemma OctetsAre(p: nat)
    ensures OctetAt(p, 0) == p % 256 && OctetAt(p, 8) == p / 256 % 256
    ensures OctetAt(p, 16) == p / 256 / 256 % 256 && OctetAt(p, 24) == p / 256 / 256 / 256 % 256
  {
    hide Low, Shr;
    EightBits(p);
    EightBits(p / 256);
    EightBits(p / 256 / 256);
    EightBits(p / 256 / 256 / 256);
    ShrTwice(p, 0, 0);
    ShrTwice(p, 8, 8);
    ShrTwice(p, 16, 8);
  }

  lemma EightBits(p: nat)
    ensures Low(p, 8) == p % 256 && Shr(p, 8) == p / 256 && Shr(p, 0) == p
  {
    hide Low, Shr;
    NoShift(p);
    LowHigh(p, 8);
    assert Pow2(8) == 256;
    DivRest(p, Shr(p, 8), Low(p, 8));
  }

  lemma NoShift(p: nat)
    ensures Shr(p, 0) == p
  {
  }

  lemma DivRest(p: nat, q: nat, r: nat)
    requires p == 256 * q + r && r < 256
    ensures r == p % 256 && q == p / 256
  {
  }

  lemma {:induction false} LowHigh(v: nat, n: nat)
    ensures v == Pow2(n) * Shr(v, n) + Low(v, n)
  {
    if n > 0 {
      hide Low, Shr;
      OneBit(v, n);
      LowHigh(v / 2, n - 1);
      TwiceTimes(Pow2(n - 1), Shr(v / 2, n - 1));
    }
  }

  lemma OneBit(v: nat, n: nat)
    requires n > 0
    ensures Shr(v, n) == Shr(v / 2, n - 1) && Low(v, n) == 2 * Low(v / 2, n - 1) + v % 2
  {
  }

  lemma TwiceTimes(x: nat, y: nat)
    ensures 2 * x * y == 2 * (x * y)
  {
  }

  lemma {:induction false} ShrTwice(p: nat, m: nat, n: nat)
    ensures Shr(p, m + n) == Shr(Shr(p, m), n)
  {
    if m > 0 {
      ShrTwice(p / 2, m - 1, n);
    }
  }

  /** The octets of one significance. */
  function Plane(tp: seq<nat>, s: nat): (r: Octets)
    ensures |r| == |tp|
  {
    seq(|tp|, i requires 0 <= i < |tp| => OctetAt(tp[i], s))
  }

  // ---------- the encoder ----------

  /** The output: octets already in the file, and the raw data buffer. */
  class RawWriter {
    var file: Octets
    var raw: Octets
    const rawSize: nat

    ghost predicate Valid()
      reads this
    {
      |raw| <= rawSize
    }

    ghost function Written(): Octets
      reads this
    {
      file + raw
    }

    /** How much the buffer still holds. */
    function Room(): nat
      requires Valid()
      reads this
    {
      rawSize - |raw|
    }

    constructor (rawSize: nat)
      ensures Valid() && this.rawSize == rawSize && Written() == []
    {
      this.rawSize := rawSize;
      file, raw := [], [];
    }

    method Flush()
      requires Valid()
      modifies this
      ensures Valid() && Room() == rawSize && Written() == old(Written())
    {
      file, raw := file + raw, [];
    }

    /** `*op++ = b`: never without room. */
    method Put(b: byte)
      requires Valid() && Room() > 0
      modifies this
      ensures Valid() && Room() == old(Room()) - 1 && Written() == old(Written()) + [b]
    {
      raw := raw + [b];
      assert file + raw == old(file + raw) + [b];
    }
  }

  /** All octets from `from` up to `to` are the same. */
  ghost predicate AllSame(plane: Octets, from: nat, to: nat) {
    from <= to <= |plane| && forall k :: from <= k < to ==> plane[k] == plane[from]
  }

  /** A long run begins with octet `k`. */
  predicate LongRunAt(tp: seq<nat>, s: nat, signed: bool, k: nat) {
    k + MINRUN <= |tp| && forall j :: k < j < k + MINRUN ==> Same(OctetAt(tp[j], s), OctetAt(tp[k], s), signed)
  }

  /** Find the next long run; `beg` is the end of the row if there is none. */
  method FindRun(tp: seq<nat>, s: nat, signed: bool, i: nat) returns (beg: nat, rc: nat)
    requires i < |tp|
    ensures i <= beg <= |tp|
    ensures beg < |tp| ==> MINRUN <= rc <= 129 && beg + rc <= |tp| && AllSame(Plane(tp, s), beg, beg + rc)
    ensures beg == |tp| ==> rc < MINRUN
    ensures forall k :: i <= k < beg ==> !LongRunAt(tp, s, signed, k)
    ensures beg < |tp| ==>
              && (forall k :: beg < k < beg + rc ==> Same(OctetAt(tp[k], s), OctetAt(tp[beg], s), signed))
              && (rc == 129 || beg + rc == |tp| || !Same(OctetAt(tp[beg + rc], s), OctetAt(tp[beg], s), signed))
  {
    hide OctetAt;
    beg, rc := i, 0;
    while beg < |tp|
      invariant i <= beg <= |tp| && rc < MINRUN
      invariant forall k :: i <= k < beg ==> !LongRunAt(tp, s, signed, k)
    {
      var b := OctetAt(tp[beg], s);
      rc := 1;
      while rc < 127 + 2 && beg + rc < |tp| && Same(OctetAt(tp[beg + rc], s), b, signed)
        invariant 1 <= rc <= 129 && beg + rc <= |tp|
        invariant forall k :: beg <= k < beg + rc ==> OctetAt(tp[k], s) == b
        invariant forall k :: beg < k < beg + rc ==> Same(OctetAt(tp[k], s), b, signed)
      {
        rc := rc + 1;
      }
      if rc >= MINRUN {
        return;
      }
      forall k | beg <= k < beg + rc
        ensures !LongRunAt(tp, s, signed, k)
      {
        if k + MINRUN <= |tp| {
          assert !Same(OctetAt(tp[beg + rc], s), OctetAt(tp[k], s), signed);
        }
      }
      beg := beg + rc;
    }
  }

  /** Whether two or three octets before a run are a run of their own. */
  method IsShortRun(tp: seq<nat>, s: nat, signed: bool, i: nat, beg: nat) returns (short: bool)
    requires i + 1 < beg <= |tp|
    ensures short <==> forall k :: i < k < beg ==> Same(OctetAt(tp[k], s), OctetAt(tp[i], s), signed)
  {
    hide OctetAt;
    var b := OctetAt(tp[i], s);
    var j := i + 1;
    while true
      invariant i < j < beg && forall k :: i < k < j ==> Same(OctetAt(tp[k], s), b, signed)
      decreases beg - j
    {
      var same := Same(OctetAt(tp[j], s), b, signed);
      j := j + 1;
      if !same {
        return false;
      }
      if j == beg {
        return true;
      }
    }
  }

  /** Octets `from` to `from + j` as one literal string. */
  method PutLiteral(w: RawWriter, tp: seq<nat>, s: nat, from: nat, j: nat) returns (ghost code: Octets)
    requires w.Valid() && 1 <= j <= 127 && from + j <= |tp| && w.Room() >= j + 3
    modifies w
    ensures w.Valid() && w.Room() >= 2 && w.Written() == old(w.Written()) + code
    ensures |code| == j + 1 && code[0] == j && Stands(code, Plane(tp, s)[from..from + j])
  {
    hide OctetAt, Stands;
    ghost var plane := Plane(tp, s);
    w.Put(j);
    code := [j];
    var i, left: nat := from, j;
    while left > 0
      invariant w.Valid() && from <= i && i + left == from + j && w.Room() >= left + 2
      invariant w.Written() == old(w.Written()) + code && code == [j] + plane[from..i]
    {
      assert plane[from..i + 1] == plane[from..i] + [plane[i]];
      w.Put(OctetAt(tp[i], s));
      code := code + [plane[i]];
      i := i + 1;
      left := left - 1;
    }
    LiteralStands(plane[from..i]);
  }

  /** Octets `i0` to `beg` as literal strings; the buffer is flushed when the next one would not fit. */
  method PutLiterals(w: RawWriter, tp: seq<nat>, s: nat, i0: nat, beg: nat, ghost signed: bool, ghost start: bool)
    returns (ghost code: Octets)
    requires w.Valid() && w.rawSize >= 130 && i0 <= beg <= |tp|
    requires Stretch(Plane(tp, s), signed, i0, beg)
    requires start && 2 <= beg - i0 <= 3 ==> !Equal(Plane(tp, s), signed, i0, beg)
    modifies w
    ensures Thrifty(code, Plane(tp, s), signed, start, i0, beg, start && i0 == beg)
    ensures w.Valid() && w.Written() == old(w.Written()) + code
    ensures Stands(code, Plane(tp, s)[i0..beg])
    ensures 127 * (|code| - (beg - i0)) <= beg - i0 + 126
    ensures if i0 < beg then w.Room() >= 2 else w.Room() == old(w.Room()) && code == []
  {
    hide OctetAt, Stands, Thrifty, Stretch, Equal, Plane;
    var i := i0;
    code := [];
    ghost var plane := Plane(tp, s);
    StandsEmpty();
    ThriftyEmpty(plane, signed, start, i0);
    assert plane[i0..i0] == [];
    while i < beg
      invariant Thrifty(code, plane, signed, start, i0, i, start && i0 == i)
      invariant w.Valid() && i0 <= i <= beg
      invariant w.Written() == old(w.Written()) + code && Stands(code, plane[i0..i])
      invariant 127 * (|code| - (i - i0)) <= i - i0 + if i < beg then 0 else 126
      invariant if i0 < i then w.Room() >= 2 else w.Room() == old(w.Room()) && code == []
    {
      var j := beg - i;
      if j > 127 {
        j := 127;
      }
      if w.Room() < j + 3 {
        w.Flush();
      }
      ghost var more := PutLiteral(w, tp, s, i, j);
      StandsJoin(code, plane[i0..i], more, plane[i..i + j]);
      assert plane[i0..i + j] == plane[i0..i] + plane[i..i + j];
      LiteralChosen(more, plane, signed, start && i0 == i, i0, i, beg, j);
      ThriftyJoin(code, more, plane, signed, start, i0, start && i0 == i, i, false, i + j);
      code := code + more;
      i := i + j;
    }
  }

  /** One run. */
  method PutRun(w: RawWriter, b: byte, n: nat, ghost plane: Octets, ghost from: nat)
    requires w.Valid() && w.Room() >= 2 && 2 <= n <= 129
    requires AllSame(plane, from, from + n) && from < |plane| && plane[from] == b
    modifies w
    ensures w.Valid() && w.Room() == old(w.Room()) - 2 && w.Written() == old(w.Written()) + [126 + n, b]
    ensures Stands([126 + n, b], plane[from..from + n])
  {
    w.Put(128 - 2 + n);
    w.Put(b);
    RunStands(b, n);
    assert plane[from..from + n] == Run(b, n);
  }

  /** The octets before a long run, as a short run or as literal strings. */
  method PutBeforeRun(w: RawWriter, tp: seq<nat>, s: nat, signed: bool, i0: nat, beg: nat) returns (ghost code: Octets)
    requires w.Valid() && w.rawSize >= 130 && w.Room() >= 4 && i0 <= beg <= |tp|
    requires Stretch(Plane(tp, s), signed, i0, beg)
    modifies w
    ensures Thrifty(code, Plane(tp, s), signed, true, i0, beg, i0 == beg)
    ensures w.Valid() && w.Room() >= 2 && w.Written() == old(w.Written()) + code
    ensures Stands(code, Plane(tp, s)[i0..beg])
    ensures 127 * (|code| - (beg - i0)) <= beg - i0 + 126
  {
    hide OctetAt, Stands, AllSame, Thrifty, Stretch, Equal, FirstThrifty;
    var i := i0;
    code := [];
    if beg - i > 1 && beg - i < MINRUN {
      var short := IsShortRun(tp, s, signed, i, beg);
      ShortIsEqual(tp, s, signed, i, beg);
      if short {
        ShortIsRun(tp, s, signed, i, beg);
        PutRun(w, OctetAt(tp[i], s), beg - i, Plane(tp, s), i);
        code := [126 + (beg - i), OctetAt(tp[i], s)];
        ShortChosen(code, Plane(tp, s), signed, i, beg);
        i := beg;
        StretchOver(Plane(tp, s), signed, i0, beg);
      }
    }
    ghost var more := PutLiterals(w, tp, s, i, beg, signed, i == i0);
    if i != i0 {
      assert more == [];
    }
    assert code + more == if i == i0 then more else code;
    code := code + more;
  }

  /** One round of the search: what precedes the next long run, and that run. */
  method PutSegment(w: RawWriter, tp: seq<nat>, s: nat, signed: bool, i0: nat)
    returns (i: nat, ghost code: Octets, ghost start: bool)
    requires w.Valid() && w.rawSize >= 130 && i0 < |tp|
    modifies w
    ensures Thrifty(code, Plane(tp, s), signed, true, i0, i, start) && (i < |tp| ==> start)
    ensures w.Valid() && i0 < i <= |tp| && w.Written() == old(w.Written()) + code
    ensures Stands(code, Plane(tp, s)[i0..i])
    ensures 127 * (|code| - (i - i0)) <= i - i0 + if i < |tp| then 0 else 126
  {
    hide OctetAt, Stands, AllSame, Thrifty, FirstThrifty, Stretch, Equal, LongRunAt, Same;
    ghost var plane := Plane(tp, s);
    if w.Room() < 4 {
      w.Flush();
    }
    var beg, rc := FindRun(tp, s, signed, i0);
    RunFound(tp, s, signed, i0, beg, rc);
    start := i0 == beg;
    code := PutBeforeRun(w, tp, s, signed, i0, beg);
    i := beg;
    if rc >= MINRUN {
      ghost var run := [126 + rc, OctetAt(tp[beg], s)];
      PutRun(w, OctetAt(tp[beg], s), rc, plane, beg);
      StandsJoin(code, plane[i0..i], run, plane[i..i + rc]);
      assert plane[i0..i + rc] == plane[i0..i] + plane[i..i + rc];
      LongChosen(run, plane, signed, start, beg, rc);
      ThriftyJoin(code, run, plane, signed, true, i0, start, beg, true, beg + rc);
      code, start := code + run, true;
    } else {
      rc := 0;
    }
    i := i + rc;
  }

  /** What has been found, said of the plane. */
  lemma RunFound(tp: seq<nat>, s: nat, signed: bool, i: nat, beg: nat, rc: nat)
    requires i <= beg <= |tp| && forall k :: i <= k < beg ==> !LongRunAt(tp, s, signed, k)
    requires beg < |tp| ==>
               && MINRUN <= rc <= 129 && beg + rc <= |tp|
               && (forall k :: beg < k < beg + rc ==> Same(OctetAt(tp[k], s), OctetAt(tp[beg], s), signed))
               && (rc == 129 || beg + rc == |tp| || !Same(OctetAt(tp[beg + rc], s), OctetAt(tp[beg], s), signed))
    ensures Stretch(Plane(tp, s), signed, i, beg)
    ensures beg < |tp| ==>
              var plane := Plane(tp, s);
              && Equal(plane, signed, beg, beg + rc)
              && (rc == 129 || beg + rc == |tp| || !Same(plane[beg + rc], plane[beg], signed))
  {
    hide OctetAt, Same;
    var plane := Plane(tp, s);
    forall k | i <= k < beg
      ensures !LongRun(plane, signed, k)
    {
      LongRunIs(tp, s, signed, k);
    }
    if beg < |tp| {
      forall k | beg < k < beg + rc
        ensures Same(plane[k], plane[beg], signed)
      {
        assert Same(OctetAt(tp[k], s), OctetAt(tp[beg], s), signed);
      }
    }
  }

  lemma LongRunIs(tp: seq<nat>, s: nat, signed: bool, k: nat)
    ensures LongRunAt(tp, s, signed, k) <==> LongRun(Plane(tp, s), signed, k)
  {
    hide OctetAt, Same;
    var plane := Plane(tp, s);
    assert forall j :: 0 <= j < |tp| ==> plane[j] == OctetAt(tp[j], s);
    if k + 4 <= |tp| && LongRunAt(tp, s, signed, k) {
      forall j | k < j < k + 4
        ensures Same(plane[j], plane[k], signed)
      {
        assert Same(OctetAt(tp[j], s), OctetAt(tp[k], s), signed);
      }
    }
    if LongRun(plane, signed, k) {
      forall j | k < j < k + MINRUN
        ensures Same(OctetAt(tp[j], s), OctetAt(tp[k], s), signed)
      {
        assert Same(plane[j], plane[k], signed);
      }
    }
  }

  lemma ShortIsEqual(tp: seq<nat>, s: nat, signed: bool, i: nat, beg: nat)
    requires i + 1 < beg <= |tp|
    ensures Equal(Plane(tp, s), signed, i, beg)
            <==> forall k :: i < k < beg ==> Same(OctetAt(tp[k], s), OctetAt(tp[i], s), signed)
  {
    hide OctetAt, Same;
    var plane := Plane(tp, s);
    assert forall j :: 0 <= j < |tp| ==> plane[j] == OctetAt(tp[j], s);
    if Equal(plane, signed, i, beg) {
      forall k | i < k < beg
        ensures Same(OctetAt(tp[k], s), OctetAt(tp[i], s), signed)
      {
        assert Same(plane[k], plane[i], signed);
      }
    }
  }

  lemma ShortIsRun(tp: seq<nat>, s: nat, signed: bool, i: nat, beg: nat)
    requires i + 1 < beg <= |tp|
    requires forall k :: i < k < beg ==> Same(OctetAt(tp[k], s), OctetAt(tp[i], s), signed)
    ensures AllSame(Plane(tp, s), i, beg)
  {
    hide OctetAt;
    var plane := Plane(tp, s);
    forall k | i <= k < beg
      ensures plane[k] == plane[i]
    {
      if i < k { assert Same(OctetAt(tp[k], s), OctetAt(tp[i], s), signed); }
    }
  }

  /** The octets of one significance.  They take at most one octet in 127 more than there are pixels. */
  method EncodePlane(w: RawWriter, tp: seq<nat>, s: nat, signed: bool) returns (ghost code: Octets)
    requires w.Valid() && w.rawSize >= 130
    modifies w
    ensures w.Valid() && w.Written() == old(w.Written()) + code
    ensures Stands(code, Plane(tp, s))
    ensures |code| <= |tp| + (|tp| + 126) / 127
    ensures WellChosen(code, Plane(tp, s), signed)
  {
    hide OctetAt, Stands, Thrifty;
    ghost var plane := Plane(tp, s);
    var i := 0;
    code := [];
    ghost var start := true;
    StandsEmpty();
    ThriftyEmpty(plane, signed, true, 0);
    assert plane[..0] == [];
    while i < |tp|
      invariant w.Valid() && i <= |tp|
      invariant w.Written() == old(w.Written()) + code && Stands(code, plane[..i])
      invariant 127 * (|code| - i) <= i + if i < |tp| then 0 else 126
      invariant Thrifty(code, plane, signed, true, 0, i, start) && (i < |tp| ==> start)
    {
      ghost var more, from := [], i;
      i, more, start := PutSegment(w, tp, s, signed, i);
      ThriftyJoin(code, more, plane, signed, true, 0, true, from, start, i);
      StandsJoin(code, plane[..from], more, plane[from..i]);
      assert plane[..i] == plane[..from] + plane[from..i];
      code := code + more;
    }
    assert plane[..i] == plane;
  }

  function Joined(codes: seq<Octets>): Octets {
    if codes == [] then [] else codes[0] + Joined(codes[1..])
  }

  lemma {:induction false} JoinedAppend(a: seq<Octets>, b: seq<Octets>)
    ensures Joined(a + b) == Joined(a) + Joined(b)
  {
    if a == [] {
      assert a + b == b;
    } else {
      JoinedAppend(a[1..], b);
      assert (a + b)[1..] == a[1..] + b && (a + b)[0] == a[0];
      assert a[0] + (Joined(a[1..]) + Joined(b)) == a[0] + Joined(a[1..]) + Joined(b);
    }
  }

  lemma JoinedPush(a: seq<Octets>, c: Octets)
    ensures Joined(a + [c]) == Joined(a) + c
  {
    JoinedAppend(a, [c]);
    assert [c][1..] == [] && Joined([c]) == c + Joined([]);
  }

  /** One code for each significance, the highest one first. */
  ghost predicate RowStands(codes: seq<Octets>, row: seq<nat>, planes: nat) {
    |codes| == planes && forall q :: 0 <= q < planes ==> Stands(codes[q], Plane(row, 8 * (planes - 1 - q)))
  }

  /** `LogLuvEncode32` for 4 planes, `LogL16Encode` for 2 */
  method EncodeRow(w: RawWriter, tp: seq<nat>, planes: nat) returns (ghost codes: seq<Octets>)
    requires w.Valid() && w.rawSize >= 130
    modifies w
    ensures w.Valid() && w.Written() == old(w.Written()) + Joined(codes)
    ensures RowStands(codes, tp, planes)
    ensures forall q :: 0 <= q < planes ==> |codes[q]| <= |tp| + (|tp| + 126) / 127
    ensures forall q :: 0 <= q < planes ==>
              WellChosen(codes[q], Plane(tp, 8 * (planes - 1 - q)), planes == 2 && q == 0)
  {
    hide Stands, Plane, WellChosen;
    var shft := planes * 8 - 8;
    codes := [];
    while shft >= 0
      invariant w.Valid() && shft == 8 * (planes - 1 - |codes|) && |codes| <= planes
      invariant w.Written() == old(w.Written()) + Joined(codes)
      invariant forall q :: 0 <= q < |codes| ==> Stands(codes[q], Plane(tp, 8 * (planes - 1 - q)))
      invariant forall q :: 0 <= q < |codes| ==> |codes[q]| <= |tp| + (|tp| + 126) / 127
      invariant forall q :: 0 <= q < |codes| ==>
                  WellChosen(codes[q], Plane(tp, 8 * (planes - 1 - q)), planes == 2 && q == 0)
      decreases shft + 8
    {
      ghost var code := EncodePlane(w, tp, shft, planes == 2 && shft == 8);
      JoinedPush(codes, code);
      codes := codes + [code];
      shft := shft - 8;
    }
  }

  // ---------- strips ----------

  /** Rows of `n` pixels, each with its own codes: no run goes across the end of a row. */
  ghost predicate StripStands(codes: seq<Octets>, pixels: seq<nat>, n: nat, planes: nat)
    requires n > 0
  {
    if pixels == [] then codes == []
    else
      && n <= |pixels| && planes <= |codes| && RowStands(codes[..planes], pixels[..n], planes)
      && StripStands(codes[planes..], pixels[n..], n, planes)
  }

  lemma {:induction false} StripAppend(a: seq<Octets>, p: seq<nat>, b: seq<Octets>, q: seq<nat>, n: nat, planes: nat)
    requires n > 0 && StripStands(a, p, n, planes) && |q| == n && RowStands(b, q, planes)
    ensures StripStands(a + b, p + q, n, planes)
    decreases |p|
  {
    hide RowStands;
    if p == [] {
      assert a + b == b && p + q == q && b[..planes] == b && q[..n] == q by { RowCount(b, q, planes); }
      assert b[planes..] == [] && q[n..] == [] by { RowCount(b, q, planes); }
      assert StripStands([], [], n, planes);
    } else {
      StripAppend(a[planes..], p[n..], b, q, n, planes);
      assert (a + b)[..planes] == a[..planes] && (a + b)[planes..] == a[planes..] + b;
      assert (p + q)[..n] == p[..n] && (p + q)[n..] == p[n..] + q;
    }
  }

  lemma RowCount(b: seq<Octets>, q: seq<nat>, planes: nat)
    requires RowStands(b, q, planes)
    ensures |b| == planes
  {
  }

  /** `LogLuvEncodeStrip` */
  method EncodeStrip(w: RawWriter, pixels: seq<nat>, n: nat, planes: nat) returns (ghost codes: seq<Octets>)
    requires w.Valid() && w.rawSize >= 130 && n > 0 && Whole(|pixels|, n)
    modifies w
    ensures w.Valid() && w.Written() == old(w.Written()) + Joined(codes)
    ensures StripStands(codes, pixels, n, planes)
  {
    hide Stands, Plane, Whole, RowStands, StripStands;
    codes := [];
    var off, cc: nat := 0, |pixels|;
    NoRows(n, planes);
    assert pixels[..0] == [];
    while cc > 0
      invariant w.Valid() && off + cc == |pixels| && Whole(cc, n)
      invariant w.Written() == old(w.Written()) + Joined(codes) && StripStands(codes, pixels[..off], n, planes)
    {
      WholeStep(cc, n);
      ghost var row := EncodeRow(w, pixels[off..off + n], planes);
      StripAppend(codes, pixels[..off], row, pixels[off..off + n], n, planes);
      JoinedAppend(codes, row);
      assert pixels[..off] + pixels[off..off + n] == pixels[..off + n];
      codes := codes + row;
      off, cc := off + n, cc - n;
    }
    assert pixels[..off] == pixels;
  }

  lemma NoRows(n: nat, planes: nat)
    requires n > 0
    ensures StripStands([], [], n, planes)
  {
  }
}
