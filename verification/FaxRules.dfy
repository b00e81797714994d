/** The rules of ITU-T T.4 and T.6 that the coding of a row keeps, stated about the pixels and the bits
    themselves: which mode is chosen, which codes a run takes, how rows follow each other in a strip. */
module FaxRules {
  import opened Bits
  import opened Pixels
  import opened CodeTables
  import opened FaxCoding
  import opened FaxEncoder
  import opened FaxDecoder
  import opened Strips
  import opened Group4
  import opened Group3

  // ---------- the changing elements ----------

  /** `q` is the first position from `p` on with a pixel of colour `c`, or the end of the row. */
  ghost predicate IsFirst(row: Row, p: nat, c: bool, q: nat) {
    p <= q <= |row| && (forall i :: p <= i < q ==> row[i] != c) && (q < |row| ==> row[q] == c)
  }

  /** A run of the colour other than `c` begins at `i`; to the left of a row everything is white. */
  predicate OtherBegins(row: Row, i: nat, c: bool) {
    i < |row| && row[i] != c && (if i == 0 then c == WHITE else row[i - 1] == c)
  }

  /** `b1` is the first position to the right of a0 at which a run of the other colour begins, or the end
      of the row; at the start of a row a0 is to the left of the first pixel. */
  ghost predicate IsB1(ref: Row, a0: nat, c: bool, start: bool, b1: nat) {
    && a0 <= b1 <= |ref|
    && (forall i :: (if start then 0 else a0 + 1) <= i < b1 ==> !OtherBegins(ref, i, c))
    && (b1 < |ref| ==> OtherBegins(ref, b1, c) && (start || b1 > a0))
  }

  lemma FirstIs(row: Row, p: nat, c: bool, q: nat)
    requires IsFirst(row, p, c, q)
    ensures FirstOf(row, p, c) == q
  {
    FirstOfUnique(row, p, c, q);
  }

  lemma B1Is(ref: Row, s: Pos, b1: nat)
    requires (s.start ==> s == ROW_START) && IsB1(ref, s.a0, s.c, s.start, b1)
    ensures B1(ref, s) == b1
  {
    var b := B1(ref, s);
    if s.start {
      assert b < |ref| ==> OtherBegins(ref, b, WHITE);
    } else {
      var p := FirstOf(ref, s.a0, s.c);
      assert b < |ref| ==> b > p && ref[b - 1] == s.c && OtherBegins(ref, b, s.c);
      NoneBetween(ref, s.a0, s.c, p, b);
    }
  }

  lemma NoneBetween(ref: Row, a0: nat, c: bool, p: nat, b: nat)
    requires IsFirst(ref, a0, c, p) && IsFirst(ref, p, !c, b)
    ensures forall i :: a0 < i < b ==> !OtherBegins(ref, i, c)
  {
  }

  // ---------- two-dimensional coding ----------

  /** The code of vertical mode: b1 - a1 is `d`. */
  lemma VerticalCodes()
    ensures CodeBits(VCode(3)) == [true]
    ensures CodeBits(VCode(2)) == [false, true, true] && CodeBits(VCode(4)) == [false, true, false]
    ensures CodeBits(VCode(1)) == [false, false, false, false, true, true]
    ensures CodeBits(VCode(5)) == [false, false, false, false, true, false]
    ensures CodeBits(VCode(0)) == [false, false, false, false, false, true, true]
    ensures CodeBits(VCode(6)) == [false, false, false, false, false, true, false]
  {
    MsbThree(1, 1);
    MsbThree(3, 3);
    MsbThree(2, 3);
    MsbThree(3, 6);
    MsbThree(2, 6);
    MsbThree(3, 7);
    MsbThree(2, 7);
  }

  lemma OtherCodes()
    ensures CodeBits(PASS_CODE) == [false, false, false, true] && CodeBits(HORIZ_CODE) == [false, false, true]
  {
    MsbThree(1, 4);
    MsbThree(1, 3);
  }

  /** Numbers below four, written with `n` bits. */
  lemma MsbThree(v: nat, n: nat)
    requires v < 4 && n > 0
    ensures MsbBits(v, n) == if n == 1 then [v % 2 == 1] else Zeros(n - 2) + [v / 2 == 1, v % 2 == 1]
  {
    assert MsbBits(v, n) == MsbBits(v / 2, n - 1) + [v % 2 == 1];
    if n == 1 {
      assert MsbBits(v / 2, 0) == [];
    } else {
      assert MsbBits(v / 2, n - 1) == MsbBits(v / 2 / 2, n - 2) + [v / 2 % 2 == 1];
      MsbOfZero(n - 2);
    }
  }

  /** Section 4.2.1.3 of T.4.  If b2 is to the left of a1 the bits begin with the code of pass mode, and a0
      moves below b2.  Otherwise, if a1 and b1 are at most three pixels apart, they begin with the code of
      vertical mode for that distance, and a0 moves to a1.  Otherwise they begin with the code of horizontal
      mode and the runs up to a1 and a2, and a0 moves to a2. */
  lemma ModeRule(row: Row, ref: Row, s: Pos, a1: nat, a2: nat, b1: nat, b2: nat)
    requires |ref| == |row| && PosOk(row, s) && s.a0 < |row|
    requires IsFirst(row, s.a0, !s.c, a1) && IsFirst(row, a1, s.c, a2)
    requires IsB1(ref, s.a0, s.c, s.start, b1) && IsFirst(ref, b1, s.c, b2)
    ensures PosOk(row, Pos(a1, !s.c, false)) && PosOk(row, Pos(a2, s.c, false))
    ensures b2 < a1 ==>
              && PosOk(row, Pos(b2, s.c, false))
              && Bits2D(row, ref, s) == [false, false, false, true] + Bits2D(row, ref, Pos(b2, s.c, false))
    ensures b2 >= a1 && -3 <= b1 - a1 <= 3 ==>
              Bits2D(row, ref, s)
              == (if b1 == a1 then [true]
                  else if a1 == b1 + 1 then [false, true, true]
                  else if a1 == b1 + 2 then [false, false, false, false, true, true]
                  else if a1 == b1 + 3 then [false, false, false, false, false, true, true]
                  else if b1 == a1 + 1 then [false, true, false]
                  else if b1 == a1 + 2 then [false, false, false, false, true, false]
                  else [false, false, false, false, false, true, false]) + Bits2D(row, ref, Pos(a1, !s.c, false))
    ensures b2 >= a1 && !(-3 <= b1 - a1 <= 3) ==>
              Bits2D(row, ref, s)
              == [false, false, true] + (SpanBits(s.c, a1 - s.a0) + SpanBits(!s.c, a2 - a1))
                 + Bits2D(row, ref, Pos(a2, s.c, false))
  {
    hide CodeBits, SpanBits, FirstOf, Bits2D;
    FirstIs(row, s.a0, !s.c, a1);
    FirstIs(row, a1, s.c, a2);
    B1Is(ref, s, b1);
    FirstIs(ref, b1, s.c, b2);
    VerticalCodes();
    OtherCodes();
    NextOk(row, ref, s);
    FirstMode(row, ref, s);
  }

  lemma FirstMode(row: Row, ref: Row, s: Pos)
    requires |ref| == |row| && PosOk(row, s) && s.a0 < |row|
    ensures PosOk(row, Next(row, ref, s))
    ensures Bits2D(row, ref, s) == ModeBits(row, ref, s) + Bits2D(row, ref, Next(row, ref, s))
  {
    NextOk(row, ref, s);
  }

  /** ... and only then: the mode can be told from the number of zeros in front of the first one bit and, in
      vertical mode, from the bit behind that one. */
  lemma ModeOnly(row: Row, ref: Row, s: Pos, a1: nat, a2: nat, b1: nat, b2: nat) returns (k: nat)
    requires |ref| == |row| && PosOk(row, s) && s.a0 < |row|
    requires IsFirst(row, s.a0, !s.c, a1) && IsFirst(row, a1, s.c, a2)
    requires IsB1(ref, s.a0, s.c, s.start, b1) && IsFirst(ref, b1, s.c, b2)
    ensures IsFirst(Bits2D(row, ref, s), 0, true, k) && k <= 5
    ensures k == 3 <==> b2 < a1
    ensures k == 2 <==> b2 >= a1 && !(-3 <= b1 - a1 <= 3)
    ensures k == 0 <==> b2 >= a1 && a1 == b1
    ensures k == 1 <==> b2 >= a1 && (a1 == b1 + 1 || b1 == a1 + 1)
    ensures k == 4 <==> b2 >= a1 && (a1 == b1 + 2 || b1 == a1 + 2)
    ensures k == 5 <==> b2 >= a1 && (a1 == b1 + 3 || b1 == a1 + 3)
    ensures k in {1, 4, 5} ==> k + 1 < |Bits2D(row, ref, s)| && (Bits2D(row, ref, s)[k + 1] <==> a1 > b1)
  {
    hide IsB1, Bits2D, SpanBits;
    ModeRule(row, ref, s, a1, a2, b1, b2);
    var d := b1 - a1;
    k := if b2 < a1 then 3 else if d == 0 then 0 else if -1 <= d <= 1 then 1
         else if -2 <= d <= 2 then 4 else if -3 <= d <= 3 then 5 else 2;
  }

  // ---------- runs ----------

  function Copies(b: Bitstring, n: nat): Bitstring {
    if n == 0 then [] else b + Copies(b, n - 1)
  }

  /** The code of a colour's table that stands for `n` pixels: the tables list 0 to 63, and then the
      multiples of 64 up to 2560. */
  function CodeFor(c: bool, n: nat): (e: TableEntry)
    requires n < 64 || (n % 64 == 0 && n <= 2560)
  {
    var i := if n < 64 then n else 63 + n / 64;
    if c == BLACK then BlackCode(i) else WhiteCode(i)
  }

  lemma CodeForLength(c: bool, n: nat)
    requires n < 64 || (n % 64 == 0 && n <= 2560)
    ensures CodeFor(c, n).runlen == n
  {
    RunLengths(c, if n < 64 then n else 63 + n / 64);
  }

  /** One make-up code and a terminating code. */
  function TwoCodes(c: bool, n: nat): Bitstring
    requires n < 2624
  {
    CodeBits(CodeFor(c, n / 64 * 64)) + CodeBits(CodeFor(c, n % 64))
  }

  /** Section 4.1.1 of T.4: a run of less than 64 pixels is its terminating code; a longer one is a make-up
      code for the multiple of 64 in it and a terminating code for the rest; before these, a run of 2624 or
      more takes make-up codes for 2560, just so many that less than 2624 pixels are left. */
  lemma {:induction false} SpanRule(c: bool, n: nat)
    ensures n < 64 ==> SpanBits(c, n) == CodeBits(CodeFor(c, n))
    ensures n >= 64 ==>
              var q := (n - 64) / 2560;
              var r := n - 2560 * q;
              64 <= r < 2624 && SpanBits(c, n) == Copies(CodeBits(CodeFor(c, 2560)), q) + TwoCodes(c, r)
    decreases n
  {
    hide CodeBits, WhiteCode, BlackCode;
    if n >= 2624 {
      SpanRule(c, n - 2560);
      var q := (n - 64) / 2560;
      assert (n - 2560 - 64) / 2560 == q - 1;
      var b := CodeBits(CodeFor(c, 2560));
      var r := n - 2560 * q;
      assert Copies(b, q) == b + Copies(b, q - 1);
      Concat(b, Copies(b, q - 1), TwoCodes(c, r));
    } else if n >= 64 {
      assert (n - 64) / 2560 == 0 && n / 64 * 64 / 64 == n / 64;
      assert Copies(CodeBits(CodeFor(c, 2560)), 0) == [];
    }
  }

  // ---------- one-dimensional coding ----------

  /** A row begins with a white run, which may be empty; runs of both colours alternate. */
  lemma RunRule(row: Row, p: nat, c: bool, q: nat)
    requires p < |row| && IsFirst(row, p, !c, q)
    ensures Bits1D(row, p, c) == SpanBits(c, q - p) + if q == |row| then [] else Bits1D(row, q, !c)
  {
    hide SpanBits;
    FirstIs(row, p, !c, q);
  }

  // ---------- strips ----------

  /** Pixel `j` of row `i` is a bit of the packed bytes, the first pixel of a byte in its top bit. */
  lemma RowsAre(data: seq<bv8>, rb: nat, w: nat, i: nat, j: nat)
    requires 0 < rb && w <= 8 * rb && rb * (i + 1) <= |data| && j < w
    ensures i < |RowsOf(data, rb, w)| && 0 <= rb * i && rb * i + j / 8 < |data|
    ensures RowsOf(data, rb, w)[i][j] <==> (data[rb * i + j / 8] >> (7 - j % 8)) & 1 == 1
  {
    hide RowsOf;
    RowIs(data, rb, w, i);
    assert rb * (i + 1) == rb * i + rb && j / 8 < rb;
    var row := data[rb * i..rb * (i + 1)];
    assert row[j / 8] == data[rb * i + j / 8];
    BitIsPixel(row[j / 8], j % 8);
  }

  lemma {:induction false} RowIs(data: seq<bv8>, rb: nat, w: nat, i: nat)
    requires 0 < rb && w <= 8 * rb && rb * (i + 1) <= |data|
    ensures i < |RowsOf(data, rb, w)| && 0 <= rb * i <= rb * (i + 1)
    ensures RowsOf(data, rb, w)[i] == RowOf(data[rb * i..rb * (i + 1)], w)
  {
    hide RowOf;
    assert rb * (i + 1) == rb * i + rb;
    if i > 0 {
      assert rb * i == rb * (i - 1) + rb;
      RowIs(data[rb..], rb, w, i - 1);
      assert data[rb..][rb * (i - 1)..rb * i] == data[rb * i..rb * (i + 1)];
    }
  }

  /** A Group 4 strip: each row is coded with respect to the one before it, from its left end on. */
  lemma Group4Rule(rows: seq<Row>, ref: Row)
    requires OfWidth(rows, |ref|)
    ensures StripBits(rows, ref)
         == if rows == [] then [] else Bits2D(rows[0], ref, Pos(0, WHITE, true)) + StripBits(rows[1..], rows[0])
  {
  }

  /** Eleven zeros and a one. */
  lemma EolRule()
    ensures EOL == [false, false, false, false, false, false, false, false, false, false, false, true]
    ensures EOFB == [false, false, false, false, false, false, false, false, false, false, false, true]
                    + [false, false, false, false, false, false, false, false, false, false, false, true]
  {
    MsbThree(1, 12);
  }

  /** A Group 3 strip: before each row there are fill bits, if asked for, as few as make the end of line code
      end on an octet boundary; then that code; then, in two-dimensional coding, a one if the row is coded on
      its own and a zero if not; then the row, coded with respect to the one before it or on its own; a row
      is coded on its own after `maxk - 1` others. */
  lemma Group3Rule(o: Options, p: nat, n: nat, rows: seq<Row>, ref: Row, f: nat)
    requires OfWidth(rows, |ref|) && |ref| > 0 && rows != []
    requires if o.fillBits then f < 8 && (n + f + 12) % 8 == 0 else f == 0
    ensures var line := Zeros(f)
                        + ([false, false, false, false, false, false, false, false, false, false, false, true]
                           + (if !o.is2D then [] else if p == 0 then [true] else [false])
                           + if !o.is2D || p == 0 then Bits1D(rows[0], 0, WHITE)
                             else Bits2D(rows[0], ref, Pos(0, WHITE, true)));
            G3Bits(o, p, n, rows, ref)
            == line + G3Bits(o, if !o.is2D || p + 1 >= o.maxk then 0 else p + 1, n + |line|, rows[1..], rows[0])
  {
    hide Bits1D, Bits2D, EOL, Fill;
    EolRule();
    FillLeast(o, n, f);
  }

  lemma FillLeast(o: Options, n: nat, f: nat)
    requires if o.fillBits then f < 8 && (n + f + 12) % 8 == 0 else f == 0
    ensures Fill(o, n) == f
  {
  }
}
