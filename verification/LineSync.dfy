/** `SYNC_EOL`: finding the end of line code that starts a row of Group 3 data. */
module LineSync {
  import opened Bits
  import opened BitReader

  /** Length of a bit string without its trailing zeros. */
  function Trimmed(b: Bitstring): (n: nat)
    ensures n <= |b|
    ensures forall i :: n <= i < |b| ==> !b[i]
    ensures n > 0 ==> b[n - 1]
  {
    if b == [] then 0 else if b[|b| - 1] then |b| else Trimmed(b[..|b| - 1])
  }

  lemma TrimmedUnique(b: Bitstring, n: nat)
    requires n <= |b| && (forall i :: n <= i < |b| ==> !b[i]) && (n > 0 ==> b[n - 1])
    ensures Trimmed(b) == n
  {
  }

  lemma TrimmedPadded(before: Bitstring, after: Bitstring)
    requires |before| <= |after| && after == before + Zeros(|after| - |before|)
    ensures Trimmed(after) == Trimmed(before)
  {
    TrimmedUnique(after, Trimmed(before));
  }

  lemma TrimmedTail(b: Bitstring)
    requires |b| > 0 && Trimmed(b) > 0
    ensures Trimmed(b[1..]) == Trimmed(b) - 1
  {
    TrimmedUnique(b[1..], Trimmed(b) - 1);
  }

  /** `m` zeros and a one, as at the end of an end of line code. */
  function Mark(m: nat): (b: Bitstring)
    ensures |b| == m + 1 && b[m] && forall i :: 0 <= i < m ==> !b[i]
  {
    Zeros(m) + [true]
  }

  /** The accumulator shows zero exactly if the next `n` bits are zeros. */
  lemma ShowsZero(w: nat, n: nat, ahead: Bitstring)
    requires w < Pow2(n) && n <= |ahead| && LsbBits(w, n) == ahead[..n]
    ensures w == 0 <==> forall i :: 0 <= i < n ==> !ahead[i]
  {
    LsbOfZero(n);
    assert forall i :: 0 <= i < n ==> ahead[i] == ahead[..n][i];
    if forall i :: 0 <= i < n ==> !ahead[i] {
      assert ahead[..n] == Zeros(n);
      LsbInjective(w, 0, n);
    }
  }

  lemma AfterNeeded(before: Bitstring, after: Bitstring, avail: nat, n: nat, eof: bool, e: Bitstring)
    requires Needed(before, after, avail, n, eof) && e != [] && Follows(before, e)
    ensures !eof && Follows(after, e)
  {
    FollowsPad(before, e, |after| - |before|);
  }

  // ---------- where the stream is ----------

  /** Bit `i` of a stream, which goes on with zeros when its data has run out. */
  predicate BitAt(b: Bitstring, i: nat) {
    i < |b| && b[i]
  }

  predicate ZerosAt(b: Bitstring, i: nat, n: nat) {
    forall t :: i <= t < i + n ==> !BitAt(b, t)
  }

  /** The first `p` bits of the stream have been used up; zeros may have been made up at its end. */
  ghost predicate Past(before: Bitstring, after: Bitstring, p: nat) {
    |before| <= |after| + p && forall i: nat :: BitAt(after, i) == BitAt(before, p + i)
  }

  lemma PastNeeded(before: Bitstring, mid: Bitstring, after: Bitstring, p: nat, avail: nat, n: nat, eof: bool)
    requires Past(before, mid, p) && Needed(mid, after, avail, n, eof)
    ensures Past(before, after, p)
  {
    assert forall i: nat :: BitAt(after, i) == BitAt(mid, i);
  }

  lemma PastDropped(before: Bitstring, after: Bitstring, p: nat, n: nat)
    requires Past(before, after, p) && n <= |after|
    ensures Past(before, after[n..], p + n)
  {
    forall i: nat
      ensures BitAt(after[n..], i) == BitAt(before, p + n + i)
    {
      assert BitAt(after[n..], i) == BitAt(after, n + i);
    }
  }

  lemma PastThen(a: Bitstring, b: Bitstring, c: Bitstring, p: nat, q: nat)
    requires Past(a, b, p) && Past(b, c, q)
    ensures Past(a, c, p + q)
  {
  }

  /** What the accumulator shows says whether `n` zeros come next. */
  lemma ZerosNext(w: nat, n: nat, before: Bitstring, after: Bitstring, p: nat)
    requires w < Pow2(n) && n <= |after| && LsbBits(w, n) == after[..n] && Past(before, after, p)
    ensures w == 0 <==> ZerosAt(before, p, n)
  {
    ShowsZero(w, n, after);
    assert forall i :: 0 <= i < n ==> after[i] == BitAt(after, i) == BitAt(before, p + i);
    if w == 0 {
      forall t | p <= t < p + n
        ensures !BitAt(before, t)
      {
        assert BitAt(after, t - p) == BitAt(before, p + (t - p));
      }
    }
  }

  lemma ZerosThen(b: Bitstring, i: nat, m: nat, n: nat)
    requires ZerosAt(b, i, m) && ZerosAt(b, i + m, n)
    ensures ZerosAt(b, i, m + n)
  {
  }

  // ---------- the three steps ----------

  /** Skip bit by bit until eleven zeros are next: the first ones in the stream. */
  method FindZeros(rd: Reader) returns (eof: bool, ghost z: nat)
    requires rd.Valid()
    modifies rd
    ensures rd.Valid() && (eof <==> old(rd.Ahead()) == [])
    ensures !eof ==> Past(old(rd.Ahead()), rd.Ahead(), z) && IsFirstZeros(old(rd.Ahead()), z)
  {
    hide Trimmed, Past, ZerosAt, Needed, LsbBits, Pow2, Scanned, IsFirstZeros;
    ghost var all := rd.Ahead();
    z := 0;
    ScanStart(all);
    while true
      invariant rd.Valid() && Scanned(all, rd.Ahead(), z)
      decreases Trimmed(rd.Ahead())
    {
      ghost var before := rd.Ahead();
      eof := rd.NeedBits16(11);
      ScanNeeded(all, before, rd.Ahead(), z, rd.avail, eof);
      if eof {
        return;
      }
      rd.GetBitsAhead(11);
      ScanStep(all, before, rd.Ahead(), z, rd.avail, rd.GetBits(11));
      if rd.GetBits(11) == 0 {
        return;
      }
      rd.ClrBits(1);
      z := z + 1;
    }
  }

  /** Bits up to `z` have been looked at; there were no eleven zeros. */
  ghost predicate Scanned(all: Bitstring, ahead: Bitstring, z: nat) {
    && Past(all, ahead, z) && (z == 0 ==> ahead == all) && (z > 0 ==> ahead != [] && all != [])
    && forall i :: 0 <= i < z ==> !ZerosAt(all, i, 11)
  }

  lemma ScanStart(all: Bitstring)
    ensures Scanned(all, all, 0)
  {
  }

  lemma ScanNeeded(all: Bitstring, before: Bitstring, after: Bitstring, z: nat, avail: nat, eof: bool)
    requires Scanned(all, before, z) && Needed(before, after, avail, 11, eof)
    ensures eof <==> all == []
    ensures !eof ==> 11 <= avail <= |after|
  {
    hide Past, ZerosAt;
  }

  lemma ScanStep(all: Bitstring, before: Bitstring, after: Bitstring, z: nat, avail: nat, w: nat)
    requires Scanned(all, before, z) && Needed(before, after, avail, 11, false)
    requires w < Pow2(11) && LsbBits(w, 11) == after[..11]
    ensures w == 0 ==> Past(all, after, z) && IsFirstZeros(all, z)
    ensures w != 0 ==> Scanned(all, after[1..], z + 1) && Trimmed(after[1..]) < Trimmed(before)
  {
    hide Past, ZerosAt, Trimmed, LsbBits, Pow2;
    PastNeeded(all, before, after, z, avail, 11, false);
    ZerosNext(w, 11, all, after, z);
    if w != 0 {
      PastDropped(all, after, z, 1);
      OneFewer(before, after, w, 11);
    }
  }

  /** The first place with eleven zeros. */
  ghost predicate IsFirstZeros(b: Bitstring, z: nat) {
    ZerosAt(b, z, 11) && forall i :: 0 <= i < z ==> !ZerosAt(b, i, 11)
  }

  lemma PastNothing(b: Bitstring)
    ensures Past(b, b, 0) && ZerosAt(b, 0, 0)
  {
  }

  /** What is left gets shorter as long as not only zeros are left. */
  lemma OneFewer(before: Bitstring, after: Bitstring, w: nat, n: nat)
    requires 0 < w < Pow2(n) && n <= |after| && LsbBits(w, n) == after[..n]
    requires |before| <= |after| && after == before + Zeros(|after| - |before|)
    ensures |after| > 0 && Trimmed(after[1..]) < Trimmed(before)
  {
    hide Trimmed;
    ShowsZero(w, n, after);
    TrimmedPadded(before, after);
    TrimmedTail(after);
  }

  /** Skip whole octets of zeros; if the data runs out, there was no one bit. */
  method SkipOctets(rd: Reader) returns (eof: bool, ghost q: nat)
    requires rd.Valid()
    modifies rd
    ensures rd.Valid() && Past(old(rd.Ahead()), rd.Ahead(), q) && ZerosAt(old(rd.Ahead()), 0, q)
    ensures if eof then rd.Ahead() == [] else rd.acc > 0
  {
    hide Past, ZerosAt, Needed;
    ghost var all := rd.Ahead();
    q := 0;
    PastNothing(all);
    while true
      invariant rd.Valid() && Past(all, rd.Ahead(), q) && ZerosAt(all, 0, q)
      decreases |rd.Ahead()|
    {
      ghost var before := rd.Ahead();
      eof := rd.NeedBits8(8);
      NeededLength(before, rd.Ahead(), rd.avail, 8, eof);
      PastNeeded(all, before, rd.Ahead(), q, rd.avail, 8, eof);
      if eof {
        return;
      }
      rd.GetBitsAhead(8);
      ZerosNext(rd.GetBits(8), 8, all, rd.Ahead(), q);
      if rd.GetBits(8) != 0 {
        LowIdentity(0, 8);
        return;
      }
      ZerosThen(all, 0, q, 8);
      PastDropped(all, rd.Ahead(), q, 8);
      rd.ClrBits(8);
      q := q + 8;
    }
  }

  lemma NeededLength(before: Bitstring, after: Bitstring, avail: nat, n: nat, eof: bool)
    requires Needed(before, after, avail, n, eof) && n > 0
    ensures eof ==> after == []
    ensures !eof ==> n <= avail <= |after| < |before| + n
  {
  }

  lemma EvenShift(acc: nat, avail: nat)
    requires 0 < acc < Pow2(avail)
    ensures avail > 0 && Low(acc, 1) == acc % 2
    ensures Low(acc, 1) == 0 ==> Shr(acc, 1) > 0
  {
    assert Low(acc / 2, 0) == 0;
    assert Shr(acc, 1) == Shr(acc / 2, 0) == acc / 2;
  }

  /** Skip to just behind the next one bit, which the accumulator holds. */
  method SkipToOne(rd: Reader) returns (ghost o: nat)
    requires rd.Valid() && rd.acc > 0
    modifies rd
    ensures rd.Valid() && Past(old(rd.Ahead()), rd.Ahead(), o + 1) && IsNextOne(old(rd.Ahead()), 0, o)
  {
    hide Past, ZerosAt;
    ghost var all := rd.Ahead();
    o := 0;
    PastNothing(all);
    EvenShift(rd.acc, rd.avail);
    rd.GetBitsAhead(1);
    while rd.GetBits(1) == 0
      invariant rd.Valid() && rd.acc > 0 && rd.avail > 0
      invariant Past(all, rd.Ahead(), o) && ZerosAt(all, 0, o)
      decreases rd.avail
    {
      EvenShift(rd.acc, rd.avail);
      rd.GetBitsAhead(1);
      ZerosNext(rd.GetBits(1), 1, all, rd.Ahead(), o);
      ZerosThen(all, 0, o, 1);
      PastDropped(all, rd.Ahead(), o, 1);
      rd.ClrBits(1);
      EvenShift(rd.acc, rd.avail);
      o := o + 1;
    }
    rd.GetBitsAhead(1);
    ZerosNext(rd.GetBits(1), 1, all, rd.Ahead(), o);
    PastDropped(all, rd.Ahead(), o, 1);
    NotZerosAt(all, o);
    rd.ClrBits(1);
  }

  lemma NotZerosAt(b: Bitstring, i: nat)
    ensures ZerosAt(b, i, 1) <==> !BitAt(b, i)
  {
  }

  /** The first one bit from `z` on. */
  ghost predicate IsNextOne(b: Bitstring, z: nat, o: nat) {
    z <= o && ZerosAt(b, z, o - z) && BitAt(b, o)
  }

  /** Skip to just behind the next one bit, if there is one. */
  method SkipMark(rd: Reader) returns (eof: bool, ghost o: nat)
    requires rd.Valid()
    modifies rd
    ensures rd.Valid()
    ensures if eof then forall i: nat :: !BitAt(old(rd.Ahead()), i)
            else IsNextOne(old(rd.Ahead()), 0, o) && Past(old(rd.Ahead()), rd.Ahead(), o + 1)
  {
    hide Past, ZerosAt, IsNextOne, BitAt;
    ghost var all := rd.Ahead();
    ghost var q;
    eof, q := SkipOctets(rd);
    ghost var mid := rd.Ahead();
    if eof {
      NoOneLeft(all, mid, q);
      o := 0;
      return;
    }
    o := SkipToOne(rd);
    PastThen(all, mid, rd.Ahead(), q, o + 1);
    NextOneAfter(all, mid, q, o);
    o := q + o;
  }

  /** `SYNC_EOL`.  Whatever comes first is skipped up to eleven zeros, unless those have been seen already;
      decoding resumes just behind the next one bit.  It fails if there is nothing left, or no such bit.
      So if an end of line code comes next, with any number of fill bits before it, decoding resumes just
      behind it. */
  method SyncEol(rd: Reader, eolCnt: nat, ghost m: nat, ghost rest: Bitstring)
    returns (eof: bool, eolCnt': nat, ghost z: nat, ghost o: nat)
    requires rd.Valid()
    modifies rd
    ensures rd.Valid() && eolCnt' == if eof then eolCnt else 0
    ensures if eolCnt == 0 && old(rd.Ahead()) != [] then IsFirstZeros(old(rd.Ahead()), z) else z == 0
    ensures if eof then forall i: nat :: i >= z ==> !BitAt(old(rd.Ahead()), i)
            else IsNextOne(old(rd.Ahead()), z, o) && Past(old(rd.Ahead()), rd.Ahead(), o + 1)
    ensures (eolCnt != 0 || m >= 11) && Follows(old(rd.Ahead()), Mark(m) + rest) ==>
              !eof && Follows(rd.Ahead(), rest)
  {
    hide Follows, Mark, Past, ZerosAt, IsFirstZeros, IsNextOne, BitAt;
    eof, eolCnt', z, o := false, eolCnt, 0, 0;
    ghost var all := rd.Ahead();
    PastNothing(all);
    if eolCnt == 0 {
      eof, z := FindZeros(rd);
      if eof {
        z := 0;
        NothingAhead(all, m, rest);
        return;
      }
    }
    ghost var mid := rd.Ahead();
    eof, o := SkipMark(rd);
    if eof {
      NoneBehind(all, mid, z);
    } else {
      PastThen(all, mid, rd.Ahead(), z, o + 1);
      NextOneLater(all, mid, z, o);
      o := z + o;
      eolCnt' := 0;
    }
    MarkPassed(all, rd.Ahead(), eolCnt, eof, z, o, m, rest);
  }

  lemma NothingAhead(all: Bitstring, m: nat, rest: Bitstring)
    requires all == []
    ensures !Follows(all, Mark(m) + rest) && forall i: nat :: !BitAt(all, i)
  {
  }

  lemma MarkBits(all: Bitstring, m: nat, rest: Bitstring)
    requires Follows(all, Mark(m) + rest)
    ensures BitAt(all, m) && forall i :: 0 <= i < m ==> !BitAt(all, i)
  {
    var e := Mark(m) + rest;
    assert forall i :: 0 <= i <= m ==> all[i] == all[..|e|][i] == e[i] == Mark(m)[i];
  }

  lemma NoOneLeft(all: Bitstring, after: Bitstring, q: nat)
    requires Past(all, after, q) && ZerosAt(all, 0, q) && after == []
    ensures forall i: nat :: !BitAt(all, i)
  {
    forall i: nat
      ensures !BitAt(all, i)
    {
      if i >= q { assert BitAt(after, i - q) == BitAt(all, q + (i - q)); }
    }
  }

  lemma NextOneAfter(all: Bitstring, after: Bitstring, q: nat, o: nat)
    requires Past(all, after, q) && ZerosAt(all, 0, q) && IsNextOne(after, 0, o)
    ensures IsNextOne(all, 0, q + o)
  {
    hide BitAt;
    forall t | 0 <= t < q + o
      ensures !BitAt(all, t)
    {
      if t >= q { assert BitAt(after, t - q) == BitAt(all, q + (t - q)); }
    }
    assert BitAt(after, o) == BitAt(all, q + o);
  }

  lemma NoneBehind(all: Bitstring, after: Bitstring, z: nat)
    requires Past(all, after, z) && forall i: nat :: !BitAt(after, i)
    ensures forall i: nat :: i >= z ==> !BitAt(all, i)
  {
    hide BitAt;
    forall i: nat | i >= z
      ensures !BitAt(all, i)
    {
      assert BitAt(after, i - z) == BitAt(all, z + (i - z));
    }
  }

  lemma NextOneLater(all: Bitstring, after: Bitstring, z: nat, o: nat)
    requires Past(all, after, z) && IsNextOne(after, 0, o)
    ensures IsNextOne(all, z, z + o)
  {
    hide BitAt;
    forall t | z <= t < z + o
      ensures !BitAt(all, t)
    {
      assert BitAt(after, t - z) == BitAt(all, z + (t - z));
    }
    assert BitAt(after, o) == BitAt(all, z + o);
  }

  /** With a mark of eleven or more zeros in front, just the mark is skipped. */
  lemma MarkPassed(all: Bitstring, after: Bitstring, eolCnt: nat, eof: bool, z: nat, o: nat, m: nat, rest: Bitstring)
    requires if eolCnt == 0 then IsFirstZeros(all, z) else z == 0
    requires if eof then forall i: nat :: i >= z ==> !BitAt(all, i) else IsNextOne(all, z, o) && Past(all, after, o + 1)
    ensures (eolCnt != 0 || m >= 11) && Follows(all, Mark(m) + rest) ==> !eof && Follows(after, rest)
  {
    hide Mark, BitAt;
    if (eolCnt != 0 || m >= 11) && Follows(all, Mark(m) + rest) {
      MarkBits(all, m, rest);
      assert m >= 11 ==> ZerosAt(all, 0, 11);
      assert z == 0 && !eof;
      assert o == m;
      RestAfter(all, after, m, rest);
    }
  }

  lemma RestAfter(all: Bitstring, after: Bitstring, m: nat, rest: Bitstring)
    requires Follows(all, Mark(m) + rest) && Past(all, after, m + 1)
    ensures Follows(after, rest)
  {
    var e := Mark(m) + rest;
    forall i | 0 <= i < |after|
      ensures after[i] == if i < |rest| then rest[i] else false
    {
      assert BitAt(after, i) == BitAt(all, m + 1 + i);
      assert i < |rest| ==> all[..|e|][m + 1 + i] == e[m + 1 + i];
    }
    assert after[..|rest|] == rest;
  }
}
