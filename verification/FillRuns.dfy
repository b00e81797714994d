/** `_TIFFFax3fillruns`: painting a row of pixels in place from its run lengths. */
module FillRuns {
  import opened Pixels
  import opened Spans

  /** The pixels that a list of runs stands for, the first run of colour `c`, cut off after `room`
      pixels.  Run lengths are unsigned in the original, so a negative one is longer than any row. */
  function Painted(runs: seq<int>, c: bool, room: nat): (r: Row)
    ensures |r| <= room
    decreases |runs|
  {
    if runs == [] then [] else
    var n := Clip(runs[0], room);
    Stretch(n, c) + Painted(runs[1..], !c, room - n)
  }

  function Clip(run: int, room: nat): (n: nat)
    ensures n <= room
  {
    if 0 <= run <= room then run else room
  }

  /** How many pixels the runs amount to. */
  function Total(runs: seq<int>): int {
    if runs == [] then 0 else runs[0] + Total(runs[1..])
  }

  predicate NoneNegative(runs: seq<int>) {
    forall j :: 0 <= j < |runs| ==> runs[j] >= 0
  }

  /** Where painting ends: at the end of the row, unless the runs do not get that far. */
  function EndOf(runs: seq<int>, room: nat): int {
    if NoneNegative(runs) && Total(runs) < room then Total(runs) else room
  }

  lemma {:induction false} TotalPush(runs: seq<int>, n: int)
    ensures Total(runs + [n]) == Total(runs) + n
  {
    if runs == [] {
      assert ([] + [n])[1..] == [];
    } else {
      assert (runs + [n])[1..] == runs[1..] + [n];
      TotalPush(runs[1..], n);
    }
  }

  lemma {:induction false} TotalPositive(runs: seq<int>)
    requires NoneNegative(runs)
    ensures Total(runs) >= 0
  {
    if runs != [] {
      TotalPositive(runs[1..]);
    }
  }

  lemma {:induction false} PaintedEnd(runs: seq<int>, c: bool, room: nat)
    ensures |Painted(runs, c, room)| == EndOf(runs, room)
    decreases |runs|
  {
    if runs != [] {
      var n := Clip(runs[0], room);
      PaintedEnd(runs[1..], !c, room - n);
      assert NoneNegative(runs) <==> runs[0] >= 0 && NoneNegative(runs[1..]) by { NoneNegativeTail(runs); }
      if NoneNegative(runs[1..]) { TotalPositive(runs[1..]); }
    }
  }

  lemma NoneNegativeTail(runs: seq<int>)
    requires runs != []
    ensures NoneNegative(runs) <==> runs[0] >= 0 && NoneNegative(runs[1..])
  {
    assert forall j :: 0 < j < |runs| ==> runs[j] == runs[1..][j - 1];
  }

  /** Every pixel has the colour of the run that contains it. */
  lemma {:induction false} PaintedPixel(runs: seq<int>, c: bool, room: nat, j: nat, i: nat)
    requires j < |runs| && NoneNegative(runs[..j]) && Total(runs[..j]) <= i < room
    requires runs[j] < 0 || i < Total(runs[..j]) + runs[j]
    ensures i < |Painted(runs, c, room)| && Painted(runs, c, room)[i] == if j % 2 == 0 then c else !c
    decreases |runs|
  {
    hide Painted, Clipped, Stretch, NoneNegative;
    var n := Clip(runs[0], room);
    PaintedStep(runs, c, room);
    if j > 0 {
      FirstOfFront(runs, j);
      PaintedPixel(runs[1..], !c, room - n, j - 1, i - n);
    } else {
      assert runs[..0] == [];
    }
  }

  lemma FirstOfFront(runs: seq<int>, j: nat)
    requires 0 < j <= |runs| && NoneNegative(runs[..j])
    ensures runs[0] >= 0 && NoneNegative(runs[1..][..j - 1])
    ensures Total(runs[..j]) == runs[0] + Total(runs[1..][..j - 1]) && Total(runs[1..][..j - 1]) >= 0
  {
    hide NoneNegative;
    var front := runs[..j];
    assert front[1..] == runs[1..][..j - 1] && front[0] == runs[0];
    NoneNegativeTail(front);
    TotalPositive(front[1..]);
  }

  /** From `before` to `after`, exactly the pixels from `from` up to `to` were set, to colour `c`. */
  ghost predicate Filled(before: seq<bv8>, after: seq<bv8>, from: nat, to: nat, c: bool)
  {
    && |after| == |before|
    && forall i :: 0 <= i < 8 * |before| ==>
         Unpack(after)[i] == if from <= i < to then c else Unpack(before)[i]
  }

  lemma FilledThen(a: seq<bv8>, b: seq<bv8>, d: seq<bv8>, from: nat, mid: nat, to: nat, c: bool)
    requires Filled(a, b, from, mid, c) && Filled(b, d, mid, to, c) && from <= mid <= to
    ensures Filled(a, d, from, to, c)
  {
  }

  /** Changing one byte changes its eight pixels. */
  lemma FilledByte(before: seq<bv8>, k: nat, b: bv8, from: nat, to: nat, c: bool)
    requires k < |before| && from <= to <= 8
    requires Masked(before[k], b, from, to, c)
    ensures Filled(before, before[k := b], 8 * k + from, 8 * k + to, c)
  {
    forall i | 0 <= i < 8 * |before|
      ensures Unpack(before[k := b])[i] == if 8 * k + from <= i < 8 * k + to then c else Unpack(before)[i]
    {
      assert i / 8 == k ==> Bit(b, i % 8) == if from <= i % 8 < to then c else Bit(before[k], i % 8);
    }
  }

  /** The table `_fillmasks`: the first `n` bits of a byte. */
  function FillMask(n: nat): bv8
    requires n <= 8
  {
    match n
    case 0 => 0x00 case 1 => 0x80 case 2 => 0xC0 case 3 => 0xE0 case 4 => 0xF0
    case 5 => 0xF8 case 6 => 0xFC case 7 => 0xFE case _ => 0xFF
  }

  lemma OrBits(a: bv8, m: bv8, i: nat)
    requires i < 8
    ensures Bit(a | m, i) == (Bit(a, i) || Bit(m, i))
  {
  }

  lemma AndBits(a: bv8, m: bv8, i: nat)
    requires i < 8
    ensures Bit(a & m, i) == (Bit(a, i) && Bit(m, i))
  {
  }

  lemma NotBits(m: bv8, i: nat)
    requires i < 8
    ensures Bit(!m, i) == !Bit(m, i)
  {
  }

  lemma ShiftedRight(m: bv8, n: nat, i: nat)
    requires n < 8 && i < 8
    ensures Bit(m >> n, i) == (n <= i && Bit(m, i - n))
  {
  }

  lemma FillMaskBits(n: nat, i: nat)
    requires n <= 8 && i < 8
    ensures Bit(FillMask(n), i) == (i < n)
  {
  }

  lemma AllOnes(i: nat)
    requires i < 8
    ensures Bit(0xFF, i)
  {
  }

  /** `b` is `a` with pixels `from` up to `to` of colour `c`. */
  ghost predicate Masked(a: bv8, b: bv8, from: nat, to: nat, c: bool) {
    forall i :: 0 <= i < 8 ==> Bit(b, i) == if from <= i < to then c else Bit(a, i)
  }

  /** `m` has exactly the bits from `from` up to `to`. */
  ghost predicate IsMask(m: bv8, from: nat, to: nat) {
    forall i :: 0 <= i < 8 ==> Bit(m, i) == (from <= i < to)
  }

  /** `0xff >> n` */
  method TailMask(n: nat) returns (m: bv8)
    requires n < 8
    ensures IsMask(m, n, 8)
  {
    m := 0xFF >> n;
    forall i | 0 <= i < 8
      ensures Bit(m, i) == (n <= i < 8)
    {
      ShiftedRight(0xFF, n, i);
      if n <= i { AllOnes(i - n); }
    }
  }

  /** `0xff << (8 - n)`, or `0xff00 >> n` cut to a byte */
  method HeadMask(n: nat) returns (m: bv8)
    requires 0 < n < 8
    ensures IsMask(m, 0, n)
  {
    m := 0xFF << (8 - n);
    forall i | 0 <= i < 8
      ensures Bit(m, i) == (0 <= i < n)
    {
      ShiftedBits(0xFF, 8 - n, i);
      if i < n { AllOnes(8 - n + i); }
    }
  }

  /** `_fillmasks[run] >> bx` */
  method MiddleMask(bx: nat, run: nat) returns (m: bv8)
    requires bx < 8 && bx + run <= 8
    ensures IsMask(m, bx, bx + run)
  {
    m := FillMask(run) >> bx;
    forall i | 0 <= i < 8
      ensures Bit(m, i) == (bx <= i < bx + run)
    {
      ShiftedRight(FillMask(run), bx, i);
      if bx <= i { FillMaskBits(run, i - bx); }
    }
  }

  /** `a |= m` for black, `a &= ~m` for white. */
  method ApplyMask(a: bv8, m: bv8, c: bool, ghost from: nat, ghost to: nat) returns (b: bv8)
    requires IsMask(m, from, to)
    ensures Masked(a, b, from, to, c)
  {
    b := if c then a | m else a & !m;
    forall i | 0 <= i < 8
      ensures Bit(b, i) == if from <= i < to then c else Bit(a, i)
    {
      OrBits(a, m, i);
      AndBits(a, !m, i);
      NotBits(m, i);
    }
  }

  /** `a &= m` for white. */
  method KeepMask(a: bv8, m: bv8, ghost from: nat, ghost to: nat) returns (b: bv8)
    requires forall i :: 0 <= i < 8 ==> Bit(m, i) == !(from <= i < to)
    ensures Masked(a, b, from, to, WHITE)
  {
    b := a & m;
    forall i | 0 <= i < 8
      ensures Bit(b, i) == if from <= i < to then WHITE else Bit(a, i)
    {
      AndBits(a, m, i);
    }
  }

  /** Set the pixels from place `bx` to the end of a byte. */
  method LeftMasked(a: bv8, bx: nat, c: bool) returns (b: bv8)
    requires 0 < bx < 8
    ensures Masked(a, b, bx, 8, c)
  {
    if c {
      var m := TailMask(bx);
      b := ApplyMask(a, m, BLACK, bx, 8);
    } else {
      var m := HeadMask(bx);
      b := KeepMask(a, m, bx, 8);
    }
  }

  /** Set the first `run` pixels of a byte. */
  method RightMasked(a: bv8, run: nat, c: bool) returns (b: bv8)
    requires 0 < run < 8
    ensures Masked(a, b, 0, run, c)
  {
    if c {
      var m := HeadMask(run);
      b := ApplyMask(a, m, BLACK, 0, run);
    } else {
      var m := TailMask(run);
      b := KeepMask(a, m, 0, run);
    }
  }

  method SetByte(buf: array<bv8>, k: nat, b: bv8, ghost from: nat, ghost to: nat, ghost c: bool)
    requires k < buf.Length && from <= to <= 8 && Masked(buf[k], b, from, to, c)
    modifies buf
    ensures Filled(old(buf[..]), buf[..], 8 * k + from, 8 * k + to, c)
  {
    FilledByte(buf[..], k, b, from, to, c);
    buf[k] := b;
    assert buf[..] == old(buf[..])[k := b];
  }

  lemma SolidMasked(a: bv8, c: bool)
    ensures Masked(a, Solid(c), 0, 8, c)
  {
    forall i | 0 <= i < 8
      ensures Bit(Solid(c), i) == c
    {
      LeadingRunBits(Solid(c), c);
    }
  }

  /** `n` whole bytes: to a word boundary byte by byte, then by whole words, then the rest. */
  method FillBytes(buf: array<bv8>, addr: nat, k0: nat, n0: nat, c: bool)
    requires k0 + n0 <= buf.Length
    modifies buf
    ensures Filled(old(buf[..]), buf[..], 8 * k0, 8 * (k0 + n0), c)
  {
    ghost var was := buf[..];
    var k, n := k0, n0;
    if n / 8 > 1 {
      while n > 0 && !IsAligned(addr, k)
        invariant k0 <= k && k + n == k0 + n0 && Filled(was, buf[..], 8 * k0, 8 * k, c)
      {
        ghost var before := buf[..];
        SolidMasked(buf[k], c);
        SetByte(buf, k, Solid(c), 0, 8, c);
        FilledThen(was, before, buf[..], 8 * k0, 8 * k, 8 * k + 8, c);
        k, n := k + 1, n - 1;
      }
      var nw := n / 8;
      n := n - nw * 8;
      while nw > 0
        invariant k0 <= k && nw >= 0 && k + 8 * nw + n == k0 + n0 && Filled(was, buf[..], 8 * k0, 8 * k, c)
      {
        FillWord(buf, k, c, was, 8 * k0);
        k, nw := k + 8, nw - 1;
      }
    }
    while n > 0
      invariant k0 <= k && k + n == k0 + n0 && Filled(was, buf[..], 8 * k0, 8 * k, c)
    {
      ghost var before := buf[..];
      SolidMasked(buf[k], c);
      SetByte(buf, k, Solid(c), 0, 8, c);
      FilledThen(was, before, buf[..], 8 * k0, 8 * k, 8 * k + 8, c);
      k, n := k + 1, n - 1;
    }
  }

  /** Store one word, eight bytes of colour `c`. */
  method FillWord(buf: array<bv8>, k: nat, c: bool, ghost was: seq<bv8>, ghost from: nat)
    requires k + 8 <= buf.Length && from <= 8 * k && Filled(was, buf[..], from, 8 * k, c)
    modifies buf
    ensures Filled(was, buf[..], from, 8 * (k + 8), c)
  {
    for j := 0 to 8
      invariant Filled(was, buf[..], from, 8 * (k + j), c)
    {
      ghost var before := buf[..];
      SolidMasked(buf[k + j], c);
      SetByte(buf, k + j, Solid(c), 0, 8, c);
      FilledThen(was, before, buf[..], from, 8 * (k + j), 8 * (k + j) + 8, c);
    }
  }

  /** Set the `run` pixels from `pos` on to colour `c`. */
  method FillSpan(buf: array<bv8>, addr: nat, pos: nat, run: nat, c: bool)
    requires pos + run <= 8 * buf.Length
    modifies buf
    ensures Filled(old(buf[..]), buf[..], pos, pos + run, c)
  {
    if run == 0 {
      return;
    }
    ghost var was := buf[..];
    var k, bx, left := pos / 8, pos % 8, run;
    if left > 8 - bx {
      if bx != 0 {
        var b := LeftMasked(buf[k], bx, c);
        SetByte(buf, k, b, bx, 8, c);
        k, left := k + 1, left - (8 - bx);
      }
      ghost var mid := buf[..];
      FillBytes(buf, addr, k, left / 8, c);
      FilledThen(was, mid, buf[..], pos, 8 * k, 8 * (k + left / 8), c);
      k, left := k + left / 8, left % 8;
      if left != 0 {
        ghost var before := buf[..];
        var b := RightMasked(buf[k], left, c);
        SetByte(buf, k, b, 0, left, c);
        FilledThen(was, before, buf[..], pos, 8 * k, 8 * k + left, c);
      }
    } else {
      var m := MiddleMask(bx, left);
      var b := ApplyMask(buf[k], m, c, bx, bx + left);
      SetByte(buf, k, b, bx, bx + left, c);
    }
  }

  // ---------- a whole row ----------

  /** The runs, each cut to what is left of the row. */
  function Clipped(runs: seq<int>, room: nat): (r: seq<int>)
    ensures |r| == |runs|
  {
    if runs == [] then [] else
    var n := Clip(runs[0], room);
    [n] + Clipped(runs[1..], room - n)
  }

  /** `after` is `before` with the pixels of `r` from position `from` on. */
  ghost predicate Overlaid(before: seq<bv8>, after: seq<bv8>, from: nat, r: Row)
  {
    && |after| == |before|
    && forall i :: 0 <= i < 8 * |before| ==>
         Unpack(after)[i] == if from <= i < from + |r| then r[i - from] else Unpack(before)[i]
  }

  lemma OverlaidThen(a: seq<bv8>, b: seq<bv8>, d: seq<bv8>, from: nat, r: Row, n: nat, c: bool)
    requires Overlaid(a, b, from, r) && Filled(b, d, from + |r|, from + |r| + n, c)
    ensures Overlaid(a, d, from, r + Stretch(n, c))
  {
  }

  lemma PaintedFirst(n: nat, rest: seq<int>, c: bool, room: nat)
    requires n <= room
    ensures Painted([n] + rest, c, room) == Stretch(n, c) + Painted(rest, !c, room - n)
    ensures Clipped([n] + rest, room) == [n] + Clipped(rest, room - n)
  {
    assert ([n] + rest)[1..] == rest;
  }

  /** After `j` of the `given` runs, `done` is painted and `cut` are their clipped lengths; the next run
      is of colour `c`. */
  ghost predicate Progress(given: seq<int>, j: nat, c: bool, done: Row, cut: seq<int>, lastx: nat)
  {
    && j <= |given| && |done| <= lastx
    && Painted(given, WHITE, lastx) == done + Painted(given[j..], c, lastx - |done|)
    && Clipped(given, lastx) == cut + Clipped(given[j..], lastx - |done|)
  }

  lemma ProgressStart(given: seq<int>, lastx: nat)
    ensures Progress(given, 0, WHITE, [], [], lastx)
  {
    assert given[0..] == given;
  }

  lemma ProgressStep(given: seq<int>, j: nat, c: bool, done: Row, cut: seq<int>, lastx: nat, n: nat)
    requires Progress(given, j, c, done, cut, lastx) && j < |given| && n == Clip(given[j], lastx - |done|)
    ensures Progress(given, j + 1, !c, done + Stretch(n, c), cut + [n], lastx)
  {
    assert given[j..][1..] == given[j + 1..];
    assert |done + Stretch(n, c)| == |done| + n;
  }

  lemma ProgressEnd(given: seq<int>, c: bool, done: Row, cut: seq<int>, lastx: nat)
    requires Progress(given, |given|, c, done, cut, lastx)
    ensures Painted(given, WHITE, lastx) == done && Clipped(given, lastx) == cut
  {
    assert given[|given|..] == [];
  }

  /** Clip run `j`, store it back, and paint it from pixel `x` of the row on. */
  method FillRun(buf: array<bv8>, addr: nat, off: nat, runs: array<int>, j: nat, x: nat, lastx: nat, c: bool)
    returns (n: nat)
    requires (buf as object) != runs
    requires 8 * off + lastx <= 8 * buf.Length && j < runs.Length && x <= lastx
    modifies buf, runs
    ensures n == Clip(old(runs[j]), lastx - x) && runs[..] == old(runs[..])[j := n]
    ensures Filled(old(buf[..]), buf[..], 8 * off + x, 8 * off + x + n, c)
  {
    if runs[j] < 0 || x + runs[j] > lastx || runs[j] > lastx {
      runs[j] := lastx - x;
    }
    n := runs[j];
    FillSpan(buf, addr, 8 * off + x, n, c);
  }

  /** Paint the row whose first byte is `buf[off]` from its first `count` runs; `x` is how many pixels
      were painted, which is the whole row if the runs amount to that much. */
  method FillRow(buf: array<bv8>, addr: nat, off: nat, runs: array<int>, count: nat, lastx: nat) returns (x: nat)
    requires (buf as object) != runs
    requires 8 * off + lastx <= 8 * buf.Length && count + count % 2 <= runs.Length
    modifies buf, runs
    ensures Overlaid(old(buf[..]), buf[..], 8 * off, Painted(old(runs[..count]), WHITE, lastx))
    ensures x == |Painted(old(runs[..count]), WHITE, lastx)| == EndOf(old(runs[..count]), lastx)
    ensures runs[..count] == Clipped(old(runs[..count]), lastx)
    ensures forall j :: count + count % 2 <= j < runs.Length ==> runs[j] == old(runs[j])
  {
    hide Filled, Overlaid, Clip, Painted, Clipped, Unpack, EndOf;
    var erun := count;
    ghost var given := runs[..count];
    if erun % 2 == 1 {
      runs[erun] := 0;
      given := given + [0];
      erun := erun + 1;
    }
    assert runs[..erun] == given;
    x := FillPairs(buf, addr, off, runs, erun, lastx);
    WithoutLast(old(runs[..count]), given, lastx);
    PaintedEnd(old(runs[..count]), WHITE, lastx);
    assert runs[..count] == runs[..erun][..count];
  }

  /** The loop of the painter: a white and a black run at a time. */
  method FillPairs(buf: array<bv8>, addr: nat, off: nat, runs: array<int>, erun: nat, lastx: nat) returns (x: nat)
    requires (buf as object) != runs
    requires 8 * off + lastx <= 8 * buf.Length && erun % 2 == 0 && erun <= runs.Length
    modifies buf, runs
    ensures Overlaid(old(buf[..]), buf[..], 8 * off, Painted(old(runs[..erun]), WHITE, lastx))
    ensures x == |Painted(old(runs[..erun]), WHITE, lastx)|
    ensures runs[..erun] == Clipped(old(runs[..erun]), lastx)
    ensures forall k :: erun <= k < runs.Length ==> runs[k] == old(runs[k])
  {
    hide Filled, Overlaid, Clip, Painted, Clipped, Unpack, Progress;
    ghost var given := runs[..erun];
    x := 0;
    var j := 0;
    ghost var done: Row := [];
    ProgressStart(given, lastx);
    OverlaidNothing(buf[..], 8 * off);
    assert runs[..0] == [] && given[0..] == given;
    while j < erun
      invariant j <= erun && j % 2 == 0 && x == |done| <= lastx
      invariant Overlaid(old(buf[..]), buf[..], 8 * off, done)
      invariant Progress(given, j, WHITE, done, runs[..j], lastx)
      invariant runs[j..erun] == given[j..]
      invariant forall k :: erun <= k < runs.Length ==> runs[k] == old(runs[k])
    {
      x, done := FillNext(buf, addr, off, runs, j, x, lastx, WHITE, old(buf[..]), given, done);
      x, done := FillNext(buf, addr, off, runs, j + 1, x, lastx, BLACK, old(buf[..]), given, done);
      j := j + 2;
    }
    ProgressEnd(given, WHITE, done, runs[..erun], lastx);
  }

  lemma OverlaidNothing(b: seq<bv8>, from: nat)
    ensures Overlaid(b, b, from, [])
  {
  }

  method FillNext(buf: array<bv8>, addr: nat, off: nat, runs: array<int>, j: nat, x: nat, lastx: nat, c: bool,
                  ghost was: seq<bv8>, ghost given: seq<int>, ghost done: Row)
    returns (x': nat, ghost done': Row)
    requires (buf as object) != runs
    requires 8 * off + lastx <= 8 * buf.Length && j < |given| <= runs.Length && x == |done| <= lastx
    requires Overlaid(was, buf[..], 8 * off, done) && Progress(given, j, c, done, runs[..j], lastx)
    requires runs[j..|given|] == given[j..]
    modifies buf, runs
    ensures x' == |done'| <= lastx
    ensures Overlaid(was, buf[..], 8 * off, done') && Progress(given, j + 1, !c, done', runs[..j + 1], lastx)
    ensures runs[j + 1..|given|] == given[j + 1..]
    ensures forall k :: |given| <= k < runs.Length ==> runs[k] == old(runs[k])
  {
    hide Filled, Overlaid, Clip, Progress;
    ghost var before, cut := buf[..], runs[..j];
    assert runs[j..|given|][0] == given[j..][0];
    assert |done| <= lastx;
    var n := FillRun(buf, addr, off, runs, j, x, lastx, c);
    ProgressStep(given, j, c, done, cut, lastx, n);
    OverlaidThen(was, before, buf[..], 8 * off, done, n, c);
    done', x' := done + Stretch(n, c), x + n;
    assert runs[..j + 1] == cut + [n];
    ClipFits(given[j], lastx - x);
  }

  lemma ClipFits(run: int, room: nat)
    ensures Clip(run, room) <= room
  {
  }

  /** An empty run at the end paints nothing. */
  lemma WithoutLast(runs: seq<int>, given: seq<int>, lastx: nat)
    requires given == runs || given == runs + [0]
    ensures Painted(given, WHITE, lastx) == Painted(runs, WHITE, lastx)
    ensures Clipped(given, lastx)[..|runs|] == Clipped(runs, lastx)
  {
    if given == runs + [0] {
      PaintedAppend(runs, WHITE, lastx);
    }
  }

  lemma {:induction false} PaintedAppend(runs: seq<int>, c: bool, room: nat)
    ensures Painted(runs + [0], c, room) == Painted(runs, c, room)
    ensures Clipped(runs + [0], room)[..|runs|] == Clipped(runs, room)
    decreases |runs|
  {
    if runs == [] {
      assert Clip(0, room) == 0;
      assert (runs + [0])[1..] == [];
    } else {
      hide Painted, Clipped, Clip;
      assert (runs + [0])[1..] == runs[1..] + [0];
      PaintedStep(runs, c, room);
      PaintedStep(runs + [0], c, room);
      PaintedAppend(runs[1..], !c, room - Clip(runs[0], room));
    }
  }

  /** What is stored back for run `j`: as much of it as is within the row. */
  lemma {:induction false} ClippedRun(runs: seq<int>, room: nat, j: nat)
    requires j < |runs| && NoneNegative(runs[..j])
    ensures var left := room - Total(runs[..j]);
            Clipped(runs, room)[j] == if left <= 0 then 0 else if 0 <= runs[j] <= left then runs[j] else left
    decreases |runs|
  {
    hide Painted, Clipped, NoneNegative;
    PaintedStep(runs, WHITE, room);
    if j > 0 {
      FirstOfFront(runs, j);
      ClippedRun(runs[1..], room - Clip(runs[0], room), j - 1);
    } else {
      assert runs[..0] == [];
    }
  }

  lemma PaintedStep(runs: seq<int>, c: bool, room: nat)
    requires runs != []
    ensures var n := Clip(runs[0], room);
            && Painted(runs, c, room) == Stretch(n, c) + Painted(runs[1..], !c, room - n)
            && Clipped(runs, room) == [n] + Clipped(runs[1..], room - n)
  {
  }
}
