/** The decoder's view of a row: an array of run lengths, white first, whose prefix sums are the
    changing elements of the row. */
module Changes {
  import opened Bits
  import opened Pixels
  import opened FaxCoding

  /** The colour of run `j`. */
  predicate Colour(j: nat) {
    j % 2 == 1
  }

  /** Where run `j` starts: run 0 is white, run 1 black, and so on.  Run 0 is empty if the row starts
      black, and all runs after the last pixel are empty. */
  function Change(row: Row, j: nat): (p: nat)
    ensures p <= |row| && (j == 0 ==> p == 0)
  {
    if j == 0 then 0 else FirstOf(row, Change(row, j - 1), Colour(j))
  }

  function RunAt(row: Row, j: nat): int {
    Change(row, j + 1) - Change(row, j)
  }

  /** The first `n` elements of `r` are the run lengths of `row`. */
  ghost predicate RunsOf(r: seq<int>, n: nat, row: Row) {
    n <= |r| && forall j :: 0 <= j < n ==> r[j] == RunAt(row, j)
  }

  /** The first `n` elements of `r` are all the run lengths of `row`, and the last of them is the empty
      run that stands for the imaginary change after the last pixel. */
  ghost predicate Describes(r: seq<int>, n: nat, row: Row) {
    n > 0 && RunsOf(r, n, row) && Change(row, n - 1) == |row|
  }

  /** Before the end of the row both the run at `j` and the one after it are described. */
  lemma DescribedBelow(r: seq<int>, n: nat, row: Row, j: nat)
    requires Describes(r, n, row) && Change(row, j) < |row|
    ensures j + 2 <= n <= |r| && r[j] == RunAt(row, j) && r[j + 1] == RunAt(row, j + 1)
  {
    if n - 1 <= j {
      ChangeMonotone(row, n - 1, j);
    }
  }

  lemma {:induction false} ChangeMonotone(row: Row, i: nat, j: nat)
    requires i <= j
    ensures Change(row, i) <= Change(row, j)
  {
    if i < j {
      ChangeMonotone(row, i, j - 1);
    }
  }

  /** Runs are not empty, except the first one and those after the end of the row. */
  lemma ChangeStep(row: Row, j: nat)
    requires j > 0 && Change(row, j) < |row|
    ensures Change(row, j + 1) > Change(row, j)
  {
  }

  lemma {:induction false} ChangeCount(row: Row, j: nat)
    requires Change(row, j) < |row|
    ensures j <= Change(row, j) + 1
  {
    if j > 0 {
      ChangeMonotone(row, j - 1, j);
      ChangeCount(row, j - 1);
      if j > 1 {
        ChangeStep(row, j - 1);
      }
    }
  }

  /** Searching from anywhere between two consecutive changes finds the second one. */
  lemma FirstOfFrom(row: Row, p: nat, c: bool, p': nat)
    requires p <= p' <= |row| && p' <= FirstOf(row, p, c)
    ensures FirstOf(row, p', c) == FirstOf(row, p, c)
  {
    FirstOfUnique(row, p', c, FirstOf(row, p, c));
  }

  /** A row is its runs. */
  lemma {:induction false} PixelInRun(row: Row, j: nat, i: nat)
    requires Change(row, j) <= i < Change(row, j + 1)
    ensures row[i] == Colour(j)
  {
  }

  // ---------- b1 in terms of the changes of the reference line ----------

  /** Not at the start of a row, b1 is the first change of the right colour beyond a0. */
  lemma B1IsChange(ref: Row, s: Pos, m: nat)
    requires !s.start && s.a0 < Change(ref, m) && Colour(m) != s.c
    requires m >= 2 ==> Change(ref, m - 2) <= s.a0
    ensures B1(ref, s) == Change(ref, m)
  {
    if Change(ref, m - 1) <= s.a0 {
      PixelInRun(ref, m - 1, s.a0);
      FirstOfFrom(ref, Change(ref, m - 1), Colour(m), s.a0);
    } else {
      FirstOfFrom(ref, Change(ref, m - 2), Colour(m - 1), s.a0);
    }
  }

  lemma B2IsChange(ref: Row, s: Pos, m: nat)
    requires s.a0 <= |ref| && B1(ref, s) == Change(ref, m) && Colour(m) != s.c
    ensures B2(ref, s) == Change(ref, m + 1)
  {
  }

  // ---------- encoder and decoder in step ----------

  /** The encoder stands at `s`; the decoder has stored `pa` runs, has `run` pixels of the current one,
      and points into the reference runs at `pb`, whose start it has in `b1`. */
  ghost predicate InStep(row: Row, ref: Row, s: Pos, pa: nat, run: int, pb: nat, b1: int) {
    && |ref| == |row| && PosOk(row, s)
    && s.c == Colour(pa) && (s.start ==> pa == 0)
    && Change(row, pa) <= s.a0 && run == s.a0 - Change(row, pa)
    && A1(row, s) == Change(row, pa + 1)
    && Colour(pb) != s.c
    && (pb >= 2 ==> Change(ref, pb - 2) <= s.a0)
    && (s.a0 < |row| ==> b1 == Change(ref, pb))
    && (s.a0 < |row| && pa == 0 ==> b1 == B1(ref, s))
    && (s.a0 == |row| ==> run == 0) && pa <= |row| + 2
  }

  lemma InStepAtStart(row: Row, ref: Row, b1: int)
    requires |ref| == |row| && b1 == RunAt(ref, 0)
    ensures InStep(row, ref, ROW_START, 0, 0, 1, b1)
  {
  }

  /** `CHECK_b1` may move on by two runs while b1 is not beyond a0. */
  lemma InStepAdvance(row: Row, ref: Row, s: Pos, pa: nat, run: int, pb: nat, b1: int)
    requires InStep(row, ref, s, pa, run, pb, b1) && pa > 0 && b1 == Change(ref, pb) <= s.a0
    ensures InStep(row, ref, s, pa, run, pb + 2, Change(ref, pb + 2))
    ensures Change(ref, pb + 2) == b1 + RunAt(ref, pb) + RunAt(ref, pb + 1)
  {
    hide Change, A1, B1, PosOk;
    assert Colour(pb + 2) == Colour(pb);
  }

  /** After `CHECK_b1` the decoder's b1 is the encoder's. */
  lemma InStepChecked(row: Row, ref: Row, s: Pos, pa: nat, run: int, pb: nat, b1: int)
    requires InStep(row, ref, s, pa, run, pb, b1) && s.a0 < |row|
    requires pa == 0 || b1 > s.a0
    ensures b1 == B1(ref, s) == Change(ref, pb)
    ensures B2(ref, s) == Change(ref, pb + 1)
  {
    if pa > 0 {
      B1IsChange(ref, s, pb);
    }
    B2IsChange(ref, s, pb);
  }

  lemma InStepPass(row: Row, ref: Row, s: Pos, pa: nat, run: int, pb: nat, b1: int)
    requires InStep(row, ref, s, pa, run, pb, b1) && s.a0 < |row| && b1 == B1(ref, s) == Change(ref, pb)
    requires B2(ref, s) == Change(ref, pb + 1) && ModeOf(row, ref, s) == Pass
    ensures var t := Next(row, ref, s);
            t.a0 == Change(ref, pb + 1) && t.a0 < |row|
            && InStep(row, ref, t, pa, run + t.a0 - s.a0, pb + 2, Change(ref, pb + 2))
  {
    hide PosOk, B1, B2, Change, FirstOf;
    assert Colour(pb + 2) == Colour(pb) != Colour(pb + 1);
    NextOk(row, ref, s);
    var t := Next(row, ref, s);
    FirstOfFrom(row, s.a0, !s.c, t.a0);
    NextChange(ref, t, pb + 1);
  }

  /** Right after a change to a0's own colour, b1 is the next change. */
  lemma NextChange(ref: Row, t: Pos, m: nat)
    requires m > 0 && !t.start && t.a0 == Change(ref, m) < |ref| && Colour(m) == t.c
    ensures B1(ref, t) == Change(ref, m + 1) && Change(ref, m - 1) <= t.a0
  {
    ChangeStep(ref, m);
    ChangeMonotone(ref, m - 1, m);
    B1IsChange(ref, t, m + 1);
  }

  /** At a change of the coding line the decoder has just stored a run; its pointer need only have the
      right colour and not be too far ahead. */
  lemma InStepAtChange(row: Row, ref: Row, t: Pos, m: nat, pb: nat)
    requires |ref| == |row| && PosOk(row, t) && !t.start && 0 < m <= |row| + 2
    requires t.a0 == Change(row, m) && t.c == Colour(m) != Colour(pb)
    requires pb >= 2 ==> Change(ref, pb - 2) <= t.a0
    ensures InStep(row, ref, t, m, 0, pb, Change(ref, pb))
  {
    hide PosOk, B1;
    assert Colour(m + 1) == !t.c;
  }

  lemma InStepVertical(row: Row, ref: Row, s: Pos, pa: nat, run: int, pb: nat, b1: int)
    requires InStep(row, ref, s, pa, run, pb, b1) && s.a0 < |row| && b1 == B1(ref, s) == Change(ref, pb)
    requires ModeOf(row, ref, s).Vertical?
    ensures var t := Next(row, ref, s);
            var d := ModeOf(row, ref, s).d;
            && t.a0 == Change(row, pa + 1) == b1 - d
            && (d <= 0 ==> InStep(row, ref, t, pa + 1, 0, pb + 1, Change(ref, pb + 1)))
            && (d > 0 ==> pb > 0 && InStep(row, ref, t, pa + 1, 0, pb - 1, Change(ref, pb - 1)))
  {
    hide PosOk, B1, B2, FirstOf, Change;
    ChangeCount(row, pa);
    NextOk(row, ref, s);
    var t := Next(row, ref, s);
    var d := ModeOf(row, ref, s).d;
    assert t.a0 == Change(row, pa + 1) == b1 - d && t.c == Colour(pa + 1);
    if d <= 0 {
      if pb > 0 {
        ChangeMonotone(ref, pb - 1, pb);
      }
      InStepAtChange(row, ref, t, pa + 1, pb + 1);
    } else {
      if pb > 2 {
        ChangeMonotone(ref, pb - 3, pb - 2);
      }
      InStepAtChange(row, ref, t, pa + 1, pb - 1);
    }
  }

  lemma InStepHorizontal(row: Row, ref: Row, s: Pos, pa: nat, run: int, pb: nat, b1: int)
    requires InStep(row, ref, s, pa, run, pb, b1) && s.a0 < |row| && ModeOf(row, ref, s) == Horizontal
    ensures var t := Next(row, ref, s);
            && A1(row, s) == Change(row, pa + 1)
            && t.a0 == A2(row, s) == Change(row, pa + 2)
            && InStep(row, ref, t, pa + 2, 0, pb, b1)
  {
    hide PosOk, B1, B2, FirstOf;
    ChangeCount(row, pa);
    NextOk(row, ref, s);
    assert Colour(pa + 2) == Colour(pa);
    InStepAtChange(row, ref, Next(row, ref, s), pa + 2, pb);
  }

  /** Neither pointer is beyond what a row of that width can need. */
  lemma InStepBounds(row: Row, ref: Row, s: Pos, pa: nat, run: int, pb: nat, b1: int)
    requires InStep(row, ref, s, pa, run, pb, b1) && s.a0 < |row|
    ensures pa <= |row| && pb <= |row| + 2
  {
    ChangeCount(row, pa);
    if pb >= 2 {
      ChangeCount(ref, pb - 2);
    }
  }

  lemma RunsPush(r: seq<int>, n: nat, row: Row, run: int)
    requires RunsOf(r, n, row) && n < |r| && run == RunAt(row, n)
    ensures RunsOf(r[n := run], n + 1, row)
  {
  }

  /** A vertical mode code ends the current run and moves one run on, or back, on the reference line. */
  lemma AfterVertical(row: Row, ref: Row, r: seq<int>, n: nat, s: Pos, pa: nat, run: int, pb: nat, b1: int)
    requires InStep(row, ref, s, pa, run, pb, b1) && s.a0 < |row| && b1 == B1(ref, s) == Change(ref, pb)
    requires Describes(r, n, ref) && |row| + 3 <= |r| && ModeOf(row, ref, s).Vertical?
    ensures pa <= |row| && pb <= |row| + 2
    ensures var t := Next(row, ref, s);
            var d := ModeOf(row, ref, s).d;
            && t.a0 == b1 - d && run + t.a0 - s.a0 == RunAt(row, pa)
            && (d <= 0 ==> InStep(row, ref, t, pa + 1, 0, pb + 1, b1 + r[pb]))
            && (d > 0 ==> pb > 0 && InStep(row, ref, t, pa + 1, 0, pb - 1, b1 - r[pb - 1]))
            && (d > 0 && b1 <= s.a0 + d ==> b1 == s.a0 + d && pa == 0)
  {
    hide PosOk;
    InStepBounds(row, ref, s, pa, run, pb, b1);
    InStepVertical(row, ref, s, pa, run, pb, b1);
    if pb >= 2 {
      DescribedBelow(r, n, ref, pb - 2);
    }
    if Change(ref, pb) < |ref| {
      DescribedBelow(r, n, ref, pb);
    }
    NextOk(row, ref, s);
  }

  lemma AfterHorizontal(row: Row, ref: Row, s: Pos, pa: nat, run: int, pb: nat, b1: int)
    requires InStep(row, ref, s, pa, run, pb, b1) && s.a0 < |row| && ModeOf(row, ref, s) == Horizontal
    ensures pa <= |row|
    ensures run + (A1(row, s) - s.a0) == RunAt(row, pa) && A2(row, s) - A1(row, s) == RunAt(row, pa + 1)
    ensures var t := Next(row, ref, s);
            t.a0 == A2(row, s) && InStep(row, ref, t, pa + 2, 0, pb, b1) && b1 == Change(ref, pb)
  {
    InStepHorizontal(row, ref, s, pa, run, pb, b1);
    InStepBounds(row, ref, s, pa, run, pb, b1);
  }

  lemma StartOfRow(row: Row, ref: Row, r: seq<int>, n: nat, t: seq<int>)
    requires |ref| == |row| && Describes(r, n, ref)
    ensures |r| > 0 && InStep(row, ref, ROW_START, 0, 0, 1, r[0]) && RunsOf(t, 0, row)
  {
    InStepAtStart(row, ref, r[0]);
  }

  lemma RestOfRow(row: Row, ref: Row, s: Pos, rest: Bitstring)
    requires |ref| == |row| && PosOk(row, s) && s.a0 < |row|
    ensures PosOk(row, Next(row, ref, s))
    ensures Bits2D(row, ref, s) + rest == ModeBits(row, ref, s) + (Bits2D(row, ref, Next(row, ref, s)) + rest)
  {
    NextOk(row, ref, s);
  }

  /** When a0 reaches the end of the row, so do the runs. */
  lemma EndOfRow(row: Row, ref: Row, s: Pos, pa: nat, run: int, pb: nat, b1: int, rest: Bitstring)
    requires InStep(row, ref, s, pa, run, pb, b1) && s.a0 == |row|
    ensures Bits2D(row, ref, s) + rest == rest
    ensures run == 0 && Change(row, pa) == |row| && pa <= |row| + 2
  {
  }

  /** One run of one-dimensional coding. */
  lemma Run1D(row: Row, pa: nat, rest: Bitstring)
    requires Change(row, pa) < |row|
    ensures pa <= |row| + 1 && RunAt(row, pa) >= 0 && (pa > 0 ==> RunAt(row, pa) > 0)
    ensures Bits1D(row, Change(row, pa), Colour(pa)) + rest
         == SpanBits(Colour(pa), RunAt(row, pa))
            + ((if Change(row, pa + 1) == |row| then [] else Bits1D(row, Change(row, pa + 1), Colour(pa + 1))) + rest)
    ensures Change(row, pa + 1) == Change(row, pa) + RunAt(row, pa)
  {
    hide SpanBits;
    ChangeCount(row, pa);
    assert Colour(pa + 1) == !Colour(pa);
  }
}
