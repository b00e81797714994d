/** Decoding run-length coded pixels: `LogL16Decode`, `LogLuvDecode32` and the strip functions; and the
    round trip. */
module LogLuvDecoder {
  import opened Bits
  import opened Strips
  import opened LogLuvPackets
  import opened LogLuv

  /** The data still to be decoded: `raw` from `bp` on, of which `cc` octets are left to use. */
  class RawReader {
    const raw: Octets
    var bp: nat
    var cc: int

    ghost predicate Valid()
      reads this
    {
      bp <= |raw| && cc <= |raw| - bp
    }

    /** Nothing has been lost, and `ahead` comes next. */
    ghost predicate At(ahead: Octets)
      reads this
    {
      bp <= |raw| && cc == |raw| - bp && raw[bp..] == ahead
    }

    constructor (raw: Octets)
      ensures Valid() && this.raw == raw && At(raw)
    {
      this.raw := raw;
      bp, cc := 0, |raw|;
      new;
      assert raw[0..] == raw;
    }
  }

  /** The bits of a pixel from bit `s` up. */
  function Above(p: nat, s: nat): nat {
    Shl(Shr(p, s), s)
  }

  /** Putting octet `s / 8` into a pixel of which only what is above it is known. */
  lemma OctetIn(p: nat, s: nat)
    ensures Or(Above(p, s + 8), Shl(OctetAt(p, s), s)) == Above(p, s)
  {
    assert Pow2(8) == 256;
    ShlBound(OctetAt(p, s), 8, s);
    ShlLow(Shr(p, s + 8), s + 8);
    OrDisjoint(Above(p, s + 8), Shl(OctetAt(p, s), s), s + 8);
    ShrSplit(p, s, 8);
    ShlAdd(Shl(Shr(p, s + 8), 8), OctetAt(p, s), s);
    ShlShl(Shr(p, s + 8), 8, s);
  }

  lemma {:induction false} ShlLow(v: nat, n: nat)
    ensures Low(Shl(v, n), n) == 0
  {
    if n > 0 {
      ShlLow(v, n - 1);
      var w := Shl(v, n);
      assert w % 2 == 0 && w / 2 == Shl(v, n - 1);
      assert Low(w, n) == 2 * Low(w / 2, n - 1) + w % 2;
    }
  }

  /** A number is its high part and its low `n` bits. */
  lemma {:induction false} ShrSplit(v: nat, m: nat, n: nat)
    ensures Shr(v, m) == Shl(Shr(v, m + n), n) + Low(Shr(v, m), n)
  {
    if m > 0 {
      ShrSplit(v / 2, m - 1, n);
    } else {
      LowSplit(v, n);
    }
  }

  lemma {:induction false} LowSplit(v: nat, n: nat)
    ensures v == Shl(Shr(v, n), n) + Low(v, n)
  {
    if n > 0 {
      LowSplit(v / 2, n - 1);
    }
  }

  lemma {:induction false} ShlShl(v: nat, m: nat, n: nat)
    ensures Shl(Shl(v, m), n) == Shl(v, m + n)
  {
    if n > 0 {
      ShlShl(v, m, n - 1);
    }
  }

  /** Of the pixels at `off`, the first `i` have got their octets `s / 8`. */
  ghost predicate Merged(was: seq<nat>, tp: seq<nat>, off: nat, s: nat, plane: Octets, i: nat) {
    && |tp| == |was| && i <= |plane| && off + |plane| <= |was|
    && forall k :: 0 <= k < |was| ==>
         tp[k] == if off <= k < off + i then Or(was[k], Shl(plane[k - off], s)) else was[k]
  }

  /** `tp[i++] |= b` */
  lemma MergedNext(was: seq<nat>, tp: seq<nat>, off: nat, s: nat, plane: Octets, i: nat)
    requires Merged(was, tp, off, s, plane, i) && i < |plane|
    ensures Merged(was, tp[off + i := Or(tp[off + i], Shl(plane[i], s))], off, s, plane, i + 1)
  {
    hide Or, Shl;
  }

  lemma NoneMerged(was: seq<nat>, off: nat, s: nat, plane: Octets)
    requires off + |plane| <= |was|
    ensures Merged(was, was, off, s, plane, 0)
  {
  }

  /** The octets from `i` on of a plane begin with what a packet in front of the data stands for. */
  ghost predicate Says(raw: Octets, bp: nat, plane: Octets, i: nat) {
    && bp < |raw| && bp + Size(raw[bp]) <= |raw| && 0 < Taken(raw[bp]) && i + Taken(raw[bp]) <= |plane|
    && plane[i..i + Taken(raw[bp])]
       == if raw[bp] >= 128 then Run(raw[bp + 1], Taken(raw[bp])) else raw[bp + 1..bp + 1 + raw[bp]]
  }

  lemma RunSays(raw: Octets, bp: nat, plane: Octets, i: nat, n: nat)
    requires bp + 2 <= |raw| && raw[bp] >= 128 && n == Taken(raw[bp]) && 0 < n && i + n <= |plane|
    requires plane[i..i + n] == Run(raw[bp + 1], n)
    ensures Says(raw, bp, plane, i)
  {
  }

  lemma LiteralSays(raw: Octets, bp: nat, plane: Octets, i: nat, k: nat)
    requires bp + k <= |raw| && k >= 2 && raw[bp] < 128 && k == 1 + raw[bp] && i + raw[bp] <= |plane|
    requires plane[i..i + raw[bp]] == raw[bp + 1..bp + k]
    ensures Says(raw, bp, plane, i)
  {
  }

  /** What the first packet says. */
  lemma FirstPacket(raw: Octets, bp: nat, code: Octets, plane: Octets, i: nat, rest: Octets)
    requires i <= |plane| && bp <= |raw| && raw[bp..] == code + rest && code != [] && Stands(code, plane[i..])
    ensures Says(raw, bp, plane, i) && code[0] == raw[bp]
  {
    hide Stands, FirstStands, Size, Taken, Run, Says;
    FirstOfStands(code, plane[i..]);
    var n, k := Taken(code[0]), Size(code[0]);
    FrontOf(raw, bp, code, rest, k);
    TailSlices(plane, i, n);
    SizeBounds(code[0]);
    FrontPoints(raw, bp, code, k);
    if code[0] >= 128 {
      RunSays(raw, bp, plane, i, n);
    } else {
      LiteralSays(raw, bp, plane, i, k);
    }
  }

  /** What is left when the first packet, `k` octets that stand for `n`, has been taken. */
  lemma OtherPackets(raw: Octets, bp: nat, code: Octets, plane: Octets, i: nat, rest: Octets, n: nat, k: nat)
    requires i <= |plane| && bp <= |raw| && raw[bp..] == code + rest && code != [] && Stands(code, plane[i..])
    requires n == Taken(code[0]) && k == Size(code[0])
    ensures k <= |code| && bp + k <= |raw| && i + n <= |plane|
    ensures Stands(code[k..], plane[i + n..]) && raw[bp + k..] == code[k..] + rest
  {
    hide Stands, FirstStands, Size, Taken, Run;
    FirstOfStands(code, plane[i..]);
    FrontOf(raw, bp, code, rest, k);
    TailSlices(plane, i, n);
  }

  lemma FrontPoints(raw: Octets, bp: nat, code: Octets, k: nat)
    requires 2 <= k <= |code| && bp + k <= |raw| && raw[bp..bp + k] == code[..k]
    ensures raw[bp] == code[0] && raw[bp + 1] == code[..k][1] && raw[bp + 1..bp + k] == code[..k][1..k]
  {
    SlicePoints(raw, bp, k);
    assert code[..k][0] == code[0];
  }

  lemma SlicePoints(raw: Octets, bp: nat, k: nat)
    requires 2 <= k && bp + k <= |raw|
    ensures var p := raw[bp..bp + k]; p[0] == raw[bp] && p[1] == raw[bp + 1] && p[1..k] == raw[bp + 1..bp + k]
  {
  }

  lemma FrontOf(raw: Octets, bp: nat, code: Octets, rest: Octets, k: nat)
    requires bp <= |raw| && raw[bp..] == code + rest && k <= |code|
    ensures bp + k <= |raw| && raw[bp..bp + k] == code[..k] && raw[bp + k..] == code[k..] + rest
  {
    assert raw[bp..][..k] == raw[bp..bp + k] && raw[bp..][k..] == raw[bp + k..];
  }

  lemma TailSlices(plane: Octets, i: nat, n: nat)
    requires i + n <= |plane|
    ensures plane[i..][..n] == plane[i..i + n] && plane[i..][n..] == plane[i + n..]
  {
  }

  lemma SizeBounds(c: byte)
    ensures Size(c) == (if c >= 128 then 2 else c + 1) && Taken(c) == if c >= 128 then c - 126 else c
  {
  }

  lemma FirstOfStands(code: Octets, plane: Octets)
    requires Stands(code, plane) && code != []
    ensures 2 <= Size(code[0]) <= |code| && 0 < Taken(code[0]) <= |plane|
    ensures plane[..Taken(code[0])] == if code[0] >= 128 then Run(code[..Size(code[0])][1], Taken(code[0]))
                                       else code[..Size(code[0])][1..Size(code[0])]
    ensures Stands(code[Size(code[0])..], plane[Taken(code[0])..])
  {
    hide Run, Stands, Size, Taken;
    StandsFirst(code, plane);
    SizeBounds(code[0]);
    SlicePoints(code, 0, Size(code[0]));
  }

  /** A run: `rc` times the octet `b`. */
  method TakeRun(tp: array<nat>, off: nat, s: nat, n: nat, i0: nat, rc0: nat, b: byte,
                 ghost was: seq<nat>, ghost plane: Octets) returns (i: nat)
    requires off + n <= tp.Length && i0 <= n
    modifies tp
    ensures i0 <= i <= n && (rc0 > 0 && i0 < n ==> i > i0)
    ensures i0 + rc0 <= n && |plane| == n && old(Merged(was, tp[..], off, s, plane, i0))
            && plane[i0..i0 + rc0] == Run(b, rc0) ==>
              i == i0 + rc0 && Merged(was, tp[..], off, s, plane, i)
  {
    hide Merged, Or, Shl;
    ghost var enc := i0 + rc0 <= n && |plane| == n && Merged(was, tp[..], off, s, plane, i0)
                     && plane[i0..i0 + rc0] == Run(b, rc0);
    assert enc ==> forall j :: i0 <= j < i0 + rc0 ==> plane[j] == plane[i0..i0 + rc0][j - i0];
    i := i0;
    var rc: int := rc0;
    while true
      invariant i0 <= i <= n && (rc == rc0 - (i - i0) >= 0)
      invariant enc ==> Merged(was, tp[..], off, s, plane, i)
      decreases rc
    {
      var more := rc != 0;
      rc := rc - 1;
      if !more || i >= n {
        break;
      }
      if enc { MergedNext(was, tp[..], off, s, plane, i); }
      tp[off + i] := Or(tp[off + i], Shl(b, s));
      i := i + 1;
    }
  }

  /** A literal string: the next `rc` octets. */
  method TakeLiteral(rd: RawReader, tp: array<nat>, off: nat, s: nat, n: nat, i0: nat, rc0: nat,
                     ghost was: seq<nat>, ghost plane: Octets) returns (i: nat)
    requires rd.bp <= |rd.raw| && 1 <= rd.cc <= |rd.raw| - rd.bp + 1 && off + n <= tp.Length && i0 <= n
    modifies rd, tp
    ensures rd.Valid() && rd.cc < old(rd.cc) && i0 <= i <= n
    ensures old(rd.cc) == |rd.raw| - old(rd.bp) + 1 && old(rd.bp) + rc0 <= |rd.raw|
            && i0 + rc0 <= n && |plane| == n && old(Merged(was, tp[..], off, s, plane, i0))
            && plane[i0..i0 + rc0] == rd.raw[old(rd.bp)..old(rd.bp) + rc0] ==>
              && i == i0 + rc0 && Merged(was, tp[..], off, s, plane, i)
              && rd.bp == old(rd.bp) + rc0 && rd.cc == |rd.raw| - rd.bp
  {
    hide Merged, Or, Shl;
    ghost var enc := rd.cc == |rd.raw| - rd.bp + 1 && rd.bp + rc0 <= |rd.raw|
                     && i0 + rc0 <= n && |plane| == n && Merged(was, tp[..], off, s, plane, i0)
                     && plane[i0..i0 + rc0] == rd.raw[rd.bp..rd.bp + rc0];
    ghost var bp := rd.bp;
    assert enc ==> forall j :: i0 <= j < i0 + rc0 ==>
             plane[j] == plane[i0..i0 + rc0][j - i0] == rd.raw[bp..bp + rc0][j - i0] == rd.raw[bp + (j - i0)];
    i := i0;
    var rc: int := rc0;
    while true
      invariant i0 <= i <= n && rc == rc0 - (i - i0) >= 0
      invariant rd.bp == old(rd.bp) + (i - i0) <= |rd.raw|
      invariant rd.cc == old(rd.cc) - (i - i0) && 1 <= rd.cc <= |rd.raw| - rd.bp + 1
      invariant enc ==> Merged(was, tp[..], off, s, plane, i)
      decreases rc
    {
      rd.cc := rd.cc - 1;
      if rd.cc == 0 {
        break;
      }
      var more := rc != 0;
      rc := rc - 1;
      if !more || i >= n {
        break;
      }
      if enc { MergedNext(was, tp[..], off, s, plane, i); }
      tp[off + i] := Or(tp[off + i], Shl(rd.raw[rd.bp], s));
      i := i + 1;
      rd.bp := rd.bp + 1;
    }
  }

  /** One packet; of a run that the data breaks off in, nothing is taken. */
  method TakePacket(rd: RawReader, tp: array<nat>, off: nat, s: nat, n: nat, i0: nat,
                    ghost was: seq<nat>, ghost plane: Octets) returns (i: nat)
    requires rd.Valid() && rd.cc > 0 && off + n <= tp.Length && i0 < n
    modifies rd, tp
    ensures rd.Valid() && rd.cc < old(rd.cc) && i0 <= i <= n
    ensures var c := rd.raw[old(rd.bp)];
            old(rd.cc == |rd.raw| - rd.bp) && Says(rd.raw, old(rd.bp), plane, i0) && |plane| == n
            && old(Merged(was, tp[..], off, s, plane, i0)) ==>
              && i == i0 + Taken(c) && Merged(was, tp[..], off, s, plane, i)
              && rd.bp == old(rd.bp) + Size(c) && rd.cc == |rd.raw| - rd.bp
  {
    hide Merged, Or, Shl, Run, Size, Taken;
    SizeBounds(rd.raw[rd.bp]);
    if rd.raw[rd.bp] >= 128 {
      if rd.cc < 2 {
        rd.cc := rd.cc - 2;
        return i0;
      }
      var first: int := rd.raw[rd.bp];
      var rc, b := first + (2 - 128), rd.raw[rd.bp + 1];
      rd.bp := rd.bp + 2;
      rd.cc := rd.cc - 2;
      i := TakeRun(tp, off, s, n, i0, rc, b, was, plane);
    } else {
      var rc := rd.raw[rd.bp];
      rd.bp := rd.bp + 1;
      i := TakeLiteral(rd, tp, off, s, n, i0, rc, was, plane);
    }
  }

  /** One plane of the pixels at `tp[off]`; the result is for how many there was data. */
  method DecodePlane(rd: RawReader, tp: array<nat>, off: nat, n: nat, s: nat,
                     ghost code: Octets, ghost plane: Octets, ghost rest: Octets) returns (i: nat)
    requires rd.Valid() && off + n <= tp.Length
    modifies rd, tp
    ensures rd.Valid() && i <= n
    ensures old(rd.At(code + rest)) && Stands(code, plane) && |plane| == n ==>
              i == n && rd.At(rest) && Merged(old(tp[..]), tp[..], off, s, plane, n)
  {
    hide Merged, Stands, Size, Taken, Says;
    ghost var enc := rd.At(code + rest) && Stands(code, plane) && |plane| == n;
    ghost var was, left := tp[..], code;
    i := 0;
    if enc {
      NoneMerged(was, off, s, plane);
      assert plane[0..] == plane;
    }
    while i < n && rd.cc > 0
      invariant rd.Valid() && i <= n
      invariant enc ==> rd.At(left + rest) && Stands(left, plane[i..]) && Merged(was, tp[..], off, s, plane, i)
      decreases rd.cc
    {
      ghost var c := rd.raw[rd.bp];
      if enc {
        LiteralNotEmpty(left, plane[i..]);
        FirstPacket(rd.raw, rd.bp, left, plane, i, rest);
        OtherPackets(rd.raw, rd.bp, left, plane, i, rest, Taken(c), Size(c));
      }
      i := TakePacket(rd, tp, off, s, n, i, was, plane);
      if enc {
        left := left[Size(c)..];
      }
    }
    if enc { NothingLeft(left, plane, i, rd.raw[rd.bp..], rest); }
  }

  /** The data of a plane ends just when the plane is complete. */
  lemma NothingLeft(left: Octets, plane: Octets, i: nat, ahead: Octets, rest: Octets)
    requires i <= |plane| && Stands(left, plane[i..]) && ahead == left + rest
    requires i == |plane| || ahead == []
    ensures i == |plane| && ahead == rest
  {
    if left != [] {
      FirstOfStands(left, plane[i..]);
    }
  }

  /** The pixels at `off` are those of `row` as far as bit `s` and above. */
  ghost predicate Shows(was: seq<nat>, tp: seq<nat>, off: nat, row: seq<nat>, s: nat) {
    && |tp| == |was| && off + |row| <= |was|
    && forall k :: 0 <= k < |was| ==> tp[k] == if off <= k < off + |row| then Above(row[k - off], s) else was[k]
  }

  lemma ShowsMore(was: seq<nat>, before: seq<nat>, after: seq<nat>, off: nat, row: seq<nat>, s: nat)
    requires Shows(was, before, off, row, s + 8) && Merged(before, after, off, s, Plane(row, s), |row|)
    ensures Shows(was, after, off, row, s)
  {
    hide Above, Or, Shl, OctetAt;
    forall k | off <= k < off + |row|
      ensures after[k] == Above(row[k - off], s)
    {
      OctetIn(row[k - off], s);
    }
  }

  predicate Fits(row: seq<nat>, bits: nat) {
    forall k :: 0 <= k < |row| ==> row[k] < Pow2(bits)
  }

  lemma ShowsNothing(was: seq<nat>, tp: seq<nat>, off: nat, row: seq<nat>, s: nat)
    requires |tp| == |was| && off + |row| <= |was| && Fits(row, s)
    requires forall k :: 0 <= k < |was| ==> tp[k] == if off <= k < off + |row| then 0 else was[k]
    ensures Shows(was, tp, off, row, s)
  {
    forall k | 0 <= k < |row|
      ensures Above(row[k], s) == 0
    {
      LowIdentity(row[k], s);
      ShlValue(0, s);
    }
  }

  lemma ShowsAll(was: seq<nat>, tp: seq<nat>, off: nat, row: seq<nat>)
    requires Shows(was, tp, off, row, 0)
    ensures tp[off..off + |row|] == row && tp[..off] == was[..off] && tp[off + |row|..] == was[off + |row|..]
  {
    assert forall k :: 0 <= k < |row| ==> Above(row[k], 0) == row[k];
  }

  /** `_TIFFmemset(tp, 0, ...)` */
  method Clear(tp: array<nat>, off: nat, n: nat)
    requires off + n <= tp.Length
    modifies tp
    ensures forall k :: 0 <= k < tp.Length ==> tp[k] == if off <= k < off + n then 0 else old(tp[k])
  {
    for i := 0 to n
      invariant forall k :: 0 <= k < tp.Length ==> tp[k] == if off <= k < off + i then 0 else old(tp[k])
    {
      tp[off + i] := 0;
    }
  }

  /** `LogLuvDecode32` for 4 planes, `LogL16Decode` for 2: a row into the pixels at `tp[off]`.  If its
      codes come next, the row comes back, and exactly its codes have been used up. */
  method DecodeRow(rd: RawReader, tp: array<nat>, off: nat, n: nat, planes: nat,
                   ghost codes: seq<Octets>, ghost row: seq<nat>, ghost rest: Octets) returns (ok: bool)
    requires rd.Valid() && off + n <= tp.Length
    modifies rd, tp
    ensures rd.Valid()
    ensures old(rd.At(Joined(codes) + rest)) && RowStands(codes, row, planes) && |row| == n && Fits(row, 8 * planes) ==>
              && ok && rd.At(rest) && tp[off..off + n] == row
              && tp[..off] == old(tp[..off]) && tp[off + n..] == old(tp[off + n..])
  {
    hide Stands, Plane, Merged, Shows, Fits, Joined;
    ghost var enc := rd.At(Joined(codes) + rest) && RowStands(codes, row, planes)
                     && |row| == n && Fits(row, 8 * planes);
    ghost var was := tp[..];
    Clear(tp, off, n);
    if enc { ShowsNothing(was, tp[..], off, row, 8 * planes); }
    assert codes[0..] == codes;
    var shft: int := planes * 8 - 8;
    ghost var q := 0;
    while shft >= 0
      invariant rd.Valid() && q <= planes && shft == 8 * (planes - 1 - q)
      invariant enc ==> rd.At(Joined(codes[q..]) + rest) && Shows(was, tp[..], off, row, shft + 8)
      decreases shft + 8
    {
      ghost var before := tp[..];
      if enc { NextCode(codes, q, rest); }
      var i := DecodePlane(rd, tp, off, n, shft, if enc then codes[q] else [], if enc then Plane(row, shft) else [],
                           if enc then Joined(codes[q + 1..]) + rest else []);
      if i != n {
        return false;
      }
      if enc { ShowsMore(was, before, tp[..], off, row, shft); }
      shft := shft - 8;
      q := q + 1;
    }
    if enc {
      NoCodes(codes[q..], rest);
      ShowsAll(was, tp[..], off, row);
    }
    ok := true;
  }

  lemma NextCode(codes: seq<Octets>, q: nat, rest: Octets)
    requires q < |codes|
    ensures Joined(codes[q..]) + rest == codes[q] + (Joined(codes[q + 1..]) + rest)
  {
    assert codes[q..][1..] == codes[q + 1..];
  }

  lemma NoCodes(codes: seq<Octets>, rest: Octets)
    requires codes == []
    ensures Joined(codes) + rest == rest
  {
  }

  /** The codes of a strip come next. */
  ghost predicate StripAhead(rd: RawReader, codes: seq<Octets>, pixels: seq<nat>, n: nat, planes: nat, rest: Octets)
    requires n > 0
    reads rd
  {
    rd.At(Joined(codes) + rest) && StripStands(codes, pixels, n, planes) && Fits(pixels, 8 * planes)
  }

  lemma NextRow(codes: seq<Octets>, pixels: seq<nat>, n: nat, planes: nat, rest: Octets)
    requires n > 0 && pixels != [] && StripStands(codes, pixels, n, planes) && Fits(pixels, 8 * planes)
    ensures n <= |pixels| && planes <= |codes|
    ensures RowStands(codes[..planes], pixels[..n], planes) && Fits(pixels[..n], 8 * planes)
    ensures StripStands(codes[planes..], pixels[n..], n, planes) && Fits(pixels[n..], 8 * planes)
    ensures Joined(codes) + rest == Joined(codes[..planes]) + (Joined(codes[planes..]) + rest)
  {
    hide RowStands, Joined, Fits;
    FitsParts(pixels, n, 8 * planes);
    JoinedParts(codes, planes, rest);
  }

  lemma FitsParts(pixels: seq<nat>, n: nat, bits: nat)
    requires n <= |pixels| && Fits(pixels, bits)
    ensures Fits(pixels[..n], bits) && Fits(pixels[n..], bits)
  {
  }

  lemma JoinedParts(codes: seq<Octets>, k: nat, rest: Octets)
    requires k <= |codes|
    ensures Joined(codes) + rest == Joined(codes[..k]) + (Joined(codes[k..]) + rest)
  {
    hide Joined;
    assert codes == codes[..k] + codes[k..];
    JoinedTwo(codes[..k], codes[k..], rest);
  }

  lemma JoinedTwo(front: seq<Octets>, back: seq<Octets>, rest: Octets)
    ensures Joined(front + back) + rest == Joined(front) + (Joined(back) + rest)
  {
    hide Joined;
    JoinedAppend(front, back);
    TwoParts(Joined(front), Joined(back), rest);
  }

  lemma TwoParts(a: Octets, b: Octets, c: Octets)
    ensures a + b + c == a + (b + c)
  {
  }

  /** `LogLuvDecodeStrip` of the pixels from `tp[off0]` up to `tp[end]` */
  method DecodeStrip(rd: RawReader, tp: array<nat>, off0: nat, end: nat, n: nat, planes: nat,
                     ghost codes: seq<Octets>, ghost pixels: seq<nat>, ghost rest: Octets) returns (ok: bool)
    requires rd.Valid() && off0 <= end <= tp.Length && n > 0 && Whole(end - off0, n)
    modifies rd, tp
    ensures rd.Valid()
    ensures old(StripAhead(rd, codes, pixels, n, planes, rest)) && |pixels| == end - off0 ==>
              && ok && rd.At(rest) && tp[off0..end] == pixels
              && tp[..off0] == old(tp[..off0]) && tp[end..] == old(tp[end..])
  {
    hide RowStands, StripStands, Whole, Fits, Joined;
    ghost var enc := StripAhead(rd, codes, pixels, n, planes, rest) && |pixels| == end - off0;
    ghost var left, was := codes, tp[..];
    var off := off0;
    var cc: nat := end - off0;
    assert pixels[0..] == pixels;
    while cc != 0
      invariant rd.Valid() && off0 <= off && off + cc == end && Whole(cc, n)
      invariant enc ==> StripAhead(rd, left, pixels[off - off0..], n, planes, rest)
      invariant enc ==> tp[..off0] == was[..off0] && tp[off0..off] == pixels[..off - off0] && tp[off..] == was[off..]
      decreases cc
    {
      WholeStep(cc, n);
      ghost var row, mine, others, more, before := [], [], [], rest, tp[..];
      if enc {
        more := pixels[off - off0..];
        NextRow(left, more, n, planes, rest);
        row, mine, others := more[..n], left[..planes], left[planes..];
      }
      ok := DecodeRow(rd, tp, off, n, planes, mine, row, Joined(others) + rest);
      if !ok {
        return false;
      }
      if enc {
        RowDone(was, before, tp[..], pixels, off0, off, n, end);
        left := others;
      }
      off, cc := off + n, cc - n;
    }
    if enc { StripDone(left, pixels[off - off0..], n, planes, rest); }
    ok := true;
  }

  lemma StripDone(left: seq<Octets>, pixels: seq<nat>, n: nat, planes: nat, rest: Octets)
    requires n > 0 && pixels == [] && StripStands(left, pixels, n, planes)
    ensures Joined(left) + rest == rest
  {
  }

  lemma RowDone(was: seq<nat>, before: seq<nat>, after: seq<nat>, pixels: seq<nat>,
                off0: nat, off: nat, n: nat, end: nat)
    requires off0 <= off && off + n <= end <= |was| == |before| == |after| && |pixels| == end - off0
    requires before[..off0] == was[..off0] && before[off0..off] == pixels[..off - off0] && before[off..] == was[off..]
    requires after[off..off + n] == pixels[off - off0..][..n]
    requires after[..off] == before[..off] && after[off + n..] == before[off + n..]
    ensures after[..off0] == was[..off0] && after[off0..off + n] == pixels[..off + n - off0]
    ensures after[off + n..] == was[off + n..]
    ensures pixels[off - off0..][n..] == pixels[off + n - off0..]
  {
    assert after[..off0] == after[..off][..off0] == before[..off][..off0] == before[..off0];
    assert after[off0..off] == after[..off][off0..] == before[..off][off0..] == before[off0..off];
    assert after[off0..off + n] == after[off0..off] + after[off..off + n];
    assert pixels[..off + n - off0] == pixels[..off - off0] + pixels[off - off0..][..n];
    assert before[off + n..] == before[off..][n..] == was[off..][n..] == was[off + n..];
  }

  /** The octets of a strip that is encoded into a new file. */
  method EncodedStrip(pixels: seq<nat>, n: nat, planes: nat, rawSize: nat)
    returns (data: Octets, ghost codes: seq<Octets>)
    requires n > 0 && Whole(|pixels|, n) && rawSize >= 130
    ensures data == Joined(codes) && StripStands(codes, pixels, n, planes)
  {
    hide StripStands, Whole, Joined;
    var w := new RawWriter(rawSize);
    codes := EncodeStrip(w, pixels, n, planes);
    data := w.file + w.raw;
    assert w.Written() == [] + Joined(codes) == Joined(codes);
  }

  /** Decoding what was encoded gives back all pixels of a strip, for rows of any length and for 16- as
      for 32-bit pixels, whatever follows the strip. */
  method RoundTrip(pixels: seq<nat>, n: nat, planes: nat, rawSize: nat, more: Octets)
    returns (ok: bool, out: seq<nat>, left: Octets)
    requires n > 0 && Whole(|pixels|, n) && rawSize >= 130 && Fits(pixels, 8 * planes)
    ensures ok && out == pixels && left == more
  {
    hide StripStands, Whole, Fits, Joined;
    var data, codes := EncodedStrip(pixels, n, planes, rawSize);
    data := data + more;
    var rd := new RawReader(data);
    var tp := new nat[|pixels|](_ => 0);
    ok := DecodeStrip(rd, tp, 0, |pixels|, n, planes, codes, pixels, more);
    out, left := tp[..], rd.raw[rd.bp..];
    assert tp[0..|pixels|] == tp[..];
  }
}
