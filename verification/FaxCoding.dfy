/** The coding schemes of ITU-T T.4 and T.6 as functions from rows of pixels to bit strings:
    one-dimensional coding (section 4.1 of T.4) and two-dimensional coding (section 4.2 of T.4, section
    2.2 of T.6), in terms of the changing elements a0, a1, a2, b1 and b2. */
module FaxCoding {
  import opened Bits
  import opened Pixels
  import opened CodeTables
  import opened DecodeTables

  function CodeBits(e: TableEntry): (b: Bitstring)
    ensures |b| == e.length
  {
    MsbBits(e.code, e.length)
  }

  function RunCode(c: bool, i: nat): TableEntry
    requires i < 104
  {
    if c then BlackCode(i) else WhiteCode(i)
  }

  /** The code table of a colour, as the decoder knows it. */
  function RunKind(c: bool): Kind {
    if c then Black else White
  }

  lemma RunCodeRow(c: bool, i: nat)
    requires i < 104
    ensures RunCode(c, i) == CodeRow(RunKind(c), i)
    ensures RunCode(c, i).code < Pow2(RunCode(c, i).length)
    ensures RunCode(c, i).runlen == if i < 64 then i else 64 * (i - 63)
  {
    RowReversed(RunKind(c), i);
    RunLengths(c, i);
  }

  lemma RunLengths(c: bool, i: nat)
    requires i < 104
    ensures RunCode(c, i).runlen == if i < 64 then i else 64 * (i - 63)
  {
  }

  /** A run of `n` pixels: make-up codes for 2560 while it is longer than any other code can say, at most
      one more make-up code, and a terminating code. */
  function SpanBits(c: bool, n: nat): (b: Bitstring)
  {
    if n >= 2624 then CodeBits(RunCode(c, 103)) + SpanBits(c, n - 2560)
    else if n >= 64 then CodeBits(RunCode(c, 63 + n / 64)) + CodeBits(RunCode(c, n % 64))
    else CodeBits(RunCode(c, n))
  }

  /** What is left of a run after its first code. */
  function AfterMakeUp(n: nat): nat {
    if n >= 2624 then n - 2560 else n % 64
  }

  /** The first code of a run of `n` pixels. */
  function FirstCode(n: nat): (i: nat)
    ensures i < 104
    ensures (if i < 64 then i else 64 * (i - 63)) == if n >= 64 then n - AfterMakeUp(n) else n
    ensures i < 64 <==> n < 64
  {
    if n >= 2624 then 103 else if n >= 64 then 63 + n / 64 else n
  }

  lemma SpanStep(c: bool, n: nat)
    ensures SpanBits(c, n)
         == CodeBits(RunCode(c, FirstCode(n))) + if n < 64 then [] else SpanBits(c, AfterMakeUp(n))
  {
  }

  lemma SpanSplit(c: bool, n: nat, rest: Bitstring)
    ensures SpanBits(c, n) + rest
         == CodeBits(RunCode(c, FirstCode(n))) + if n < 64 then rest else SpanBits(c, AfterMakeUp(n)) + rest
  {
    hide SpanBits, RunCode, CodeBits;
    SpanStep(c, n);
  }

  // ---------- one-dimensional coding ----------

  /** Runs of alternating colour from position `p` on, the first one of colour `c` (and possibly empty). */
  function Bits1D(row: Row, p: nat, c: bool): Bitstring
    requires p < |row|
    decreases |row| - p, if row[p] == c then 0 else 1
  {
    var q := FirstOf(row, p, !c);
    SpanBits(c, q - p) + if q == |row| then [] else Bits1D(row, q, !c)
  }

  lemma Step1D(row: Row, p: nat, c: bool)
    requires p < |row|
    ensures var q := FirstOf(row, p, !c);
            && Bits1D(row, p, c) == SpanBits(c, q - p) + (if q == |row| then [] else Bits1D(row, q, !c))
            && (q < |row| ==> row[q] == !c)
  {
  }

  // ---------- two-dimensional coding ----------

  /** Where the coding of a row stands: at a0, in a run of colour `c`.  At the start of a row a0 is an
      imaginary white pixel just before the first one. */
  datatype Pos = Pos(a0: nat, c: bool, start: bool)

  const ROW_START := Pos(0, WHITE, true)

  ghost predicate PosOk(row: Row, s: Pos) {
    && s.a0 <= |row|
    && (s.start ==> s == ROW_START)
    && (!s.start && s.a0 < |row| ==> row[s.a0] == s.c)
  }

  /** The next change to the right of a0 on the coding line. */
  function A1(row: Row, s: Pos): (a1: nat)
    requires s.a0 <= |row|
    ensures s.a0 <= a1 <= |row|
  {
    FirstOf(row, s.a0, !s.c)
  }

  /** The next change after a1. */
  function A2(row: Row, s: Pos): (a2: nat)
    requires s.a0 <= |row|
    ensures A1(row, s) <= a2 <= |row|
  {
    FirstOf(row, A1(row, s), s.c)
  }

  /** The first change on the reference line to the right of a0 and of the colour opposite to a0's. */
  function B1(ref: Row, s: Pos): (b1: nat)
    requires s.a0 <= |ref|
    ensures s.a0 <= b1 <= |ref|
  {
    FirstOf(ref, if s.start then s.a0 else FirstOf(ref, s.a0, s.c), !s.c)
  }

  /** The change after b1 on the reference line. */
  function B2(ref: Row, s: Pos): (b2: nat)
    requires s.a0 <= |ref|
    ensures B1(ref, s) <= b2 <= |ref|
  {
    FirstOf(ref, B1(ref, s), s.c)
  }

  datatype Mode = Pass | Vertical(d: int) | Horizontal

  function ModeOf(row: Row, ref: Row, s: Pos): (m: Mode)
    requires |ref| == |row| && s.a0 <= |row|
    ensures m.Vertical? ==> -3 <= m.d <= 3
  {
    var a1, b1 := A1(row, s), B1(ref, s);
    if B2(ref, s) < a1 then Pass
    else if -3 <= b1 - a1 <= 3 then Vertical(b1 - a1)
    else Horizontal
  }

  function ModeBits(row: Row, ref: Row, s: Pos): Bitstring
    requires |ref| == |row| && s.a0 <= |row|
  {
    match ModeOf(row, ref, s)
    case Pass => CodeBits(PASS_CODE)
    case Vertical(d) => CodeBits(VCode(d + 3))
    case Horizontal =>
      CodeBits(HORIZ_CODE) + HorizontalRuns(row, s)
  }

  /** The two runs of horizontal mode, from a0 to a1 and from a1 to a2. */
  function HorizontalRuns(row: Row, s: Pos): Bitstring
    requires s.a0 <= |row|
  {
    SpanBits(s.c, A1(row, s) - s.a0) + SpanBits(!s.c, A2(row, s) - A1(row, s))
  }

  function Next(row: Row, ref: Row, s: Pos): Pos
    requires |ref| == |row| && s.a0 <= |row|
  {
    match ModeOf(row, ref, s)
    case Pass => Pos(B2(ref, s), s.c, false)
    case Vertical(_) => Pos(A1(row, s), !s.c, false)
    case Horizontal => Pos(A2(row, s), s.c, false)
  }

  /** Each mode code makes progress: a0 moves right, except that it may stay at the first pixel when
      the row starts black. */
  lemma NextOk(row: Row, ref: Row, s: Pos)
    requires |ref| == |row| && PosOk(row, s) && s.a0 < |row|
    ensures PosOk(row, Next(row, ref, s))
    ensures Next(row, ref, s).a0 > s.a0 || s.start
    ensures !Next(row, ref, s).start && Next(row, ref, s).a0 >= s.a0
  {
    if !s.start {
      assert A1(row, s) > s.a0;
    }
    if ModeOf(row, ref, s) == Pass {
      assert B1(ref, s) < |ref| ==> B2(ref, s) > B1(ref, s);
    }
  }

  /** The two-dimensional coding of the rest of a row. */
  function Bits2D(row: Row, ref: Row, s: Pos): Bitstring
    requires |ref| == |row| && PosOk(row, s)
    decreases |row| - s.a0, s.start
  {
    if s.a0 == |row| then [] else
    NextOk(row, ref, s);
    ModeBits(row, ref, s) + Bits2D(row, ref, Next(row, ref, s))
  }
}
