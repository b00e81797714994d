/** The encoder: `putspan`, the search for changing elements, and the encoders of one row,
    `Fax3Encode1DRow` and `Fax3Encode2DRow`. */
module FaxEncoder {
  import opened Bits
  import opened BitWriter
  import opened Pixels
  import opened Spans
  import opened CodeTables
  import opened FaxCoding

  /** The first `w` pixels of packed bytes. */
  function RowOf(bytes: seq<bv8>, w: nat): (r: Row)
    requires w <= 8 * |bytes|
    ensures |r| == w
  {
    Unpack(bytes)[..w]
  }

  lemma SpanIsFirst(bytes: seq<bv8>, bs: nat, be: nat, c: bool, span: nat)
    requires be <= 8 * |bytes| && IsSpan(bytes, bs, be, c, span)
    ensures FirstOf(RowOf(bytes, be), bs, !c) == bs + span
  {
    FirstOfUnique(RowOf(bytes, be), bs, !c, bs + span);
  }

  predicate Pixel(bytes: seq<bv8>, ix: nat)
    requires ix < 8 * |bytes|
  {
    Bit(bytes[ix / 8], ix % 8)
  }

  lemma PixelIs(bytes: seq<bv8>, w: nat, ix: nat)
    requires ix < w <= 8 * |bytes|
    ensures RowOf(bytes, w)[ix] == Pixel(bytes, ix)
  {
  }

  /** Where the first change is, relative to an imaginary white pixel before the row. */
  lemma FirstPixel(bytes: seq<bv8>, w: nat)
    requires 0 < w <= 8 * |bytes|
    ensures Pixel(bytes, 0) ==> FirstOf(RowOf(bytes, w), 0, BLACK) == 0
  {
  }

  lemma VCodeFits(i: nat)
    requires i < 7
    ensures VCode(i).code < Pow2(VCode(i).length)
  {
    Pow2Monotone(2, 6);
    Pow2Monotone(2, 7);
  }

  /** `finddiff` */
  method FindDiff(bytes: seq<bv8>, addr: nat, bs: nat, be: nat, c: bool) returns (p: nat)
    requires bs <= be <= 8 * |bytes|
    ensures p == FirstOf(RowOf(bytes, be), bs, !c)
  {
    var span := FindSpan(bytes, addr, bs, be, c);
    SpanIsFirst(bytes, bs, be, c, span);
    p := bs + span;
  }

  /** `finddiff2` with the colour of the pixel at `bs`: the next change after it. */
  method FindDiff2(bytes: seq<bv8>, addr: nat, bs: nat, be: nat) returns (p: nat)
    requires bs <= be <= 8 * |bytes|
    ensures bs == be ==> p == be
    ensures bs < be ==> p == FirstOf(RowOf(bytes, be), bs, !RowOf(bytes, be)[bs])
  {
    p := be;
    if bs < be {
      PixelIs(bytes, be, bs);
      p := FindDiff(bytes, addr, bs, be, Pixel(bytes, bs));
    }
  }

  class Encoder {
    const writer: Writer
    const rowpixels: nat

    ghost predicate Valid()
      reads writer
    {
      rowpixels > 0 && writer.Valid()
    }

    constructor (writer: Writer, rowpixels: nat)
      requires writer.Valid() && rowpixels > 0
      ensures Valid() && this.writer == writer && this.rowpixels == rowpixels
    {
      this.writer, this.rowpixels := writer, rowpixels;
    }

    method PutCode(e: TableEntry)
      requires Valid() && e.code < Pow2(e.length)
      modifies writer
      ensures Valid() && writer.Written() == old(writer.Written()) + CodeBits(e)
    {
      writer.PutBits(e.code, e.length);
    }

    /** Put code `i` of a colour; the result is how many pixels it stands for. */
    method PutRunCode(c: bool, i: nat) returns (runlen: nat)
      requires Valid() && i < 104
      modifies writer
      ensures Valid() && writer.Written() == old(writer.Written()) + CodeBits(RunCode(c, i))
      ensures runlen == if i < 64 then i else 64 * (i - 63)
    {
      RunCodeRow(c, i);
      var te := RunCode(c, i);
      PutCode(te);
      runlen := te.runlen;
    }

    /** `putspan` */
    method PutSpan(span: nat, c: bool)
      requires Valid()
      modifies writer
      ensures Valid() && writer.Written() == old(writer.Written()) + SpanBits(c, span)
    {
      hide RunCode, CodeBits, SpanBits;
      var left: nat := span;
      while left >= 2624
        invariant Valid()
        invariant writer.Written() + SpanBits(c, left) == old(writer.Written()) + SpanBits(c, span)
      {
        SpanStep(c, left);
        Concat(writer.Written(), CodeBits(RunCode(c, 103)), SpanBits(c, AfterMakeUp(left)));
        var runlen := PutRunCode(c, 63 + 2560 / 64);
        left := left - runlen;
      }
      if left >= 64 {
        SpanStep(c, left);
        Concat(writer.Written(), CodeBits(RunCode(c, 63 + left / 64)), SpanBits(c, AfterMakeUp(left)));
        var runlen := PutRunCode(c, 63 + left / 64);
        left := left - runlen;
      }
      SpanStep(c, left);
      var runlen := PutRunCode(c, left);
    }

    /** Put one run of `Fax3Encode1DRow`. */
    method Put1DRun(bp: seq<bv8>, addr: nat, bs: nat, c: bool) returns (end: nat)
      requires Valid() && bs < rowpixels <= 8 * |bp|
      modifies writer
      ensures Valid() && bs <= end <= rowpixels
      ensures RowOf(bp, rowpixels)[bs] == c || end < rowpixels
      ensures RowOf(bp, rowpixels)[bs] == c ==> bs < end
      ensures end < rowpixels ==> RowOf(bp, rowpixels)[end] == !c
      ensures writer.Written() + Left1D(RowOf(bp, rowpixels), end, !c)
           == old(writer.Written()) + Bits1D(RowOf(bp, rowpixels), bs, c)
    {
      hide SpanBits, Bits1D, FirstOf, RowOf, IsSpan;
      ghost var row := RowOf(bp, rowpixels);
      Step1D(row, bs, c);
      ghost var next := FirstOf(row, bs, !c);
      Concat(writer.Written(), SpanBits(c, next - bs), Left1D(row, next, !c));
      var span := FindSpan(bp, addr, bs, rowpixels, c);
      SpanIsFirst(bp, bs, rowpixels, c, span);
      PutSpan(span, c);
      end := bs + span;
    }

    /** `Fax3Encode1DRow`, without byte or word alignment */
    method Encode1DRow(bp: seq<bv8>, addr: nat)
      requires Valid() && rowpixels <= 8 * |bp|
      modifies writer
      ensures Valid() && writer.Written() == old(writer.Written()) + Bits1D(RowOf(bp, rowpixels), 0, WHITE)
    {
      hide SpanBits, FirstOf, RowOf, Bits1D;
      ghost var row := RowOf(bp, rowpixels);
      var bs := 0;
      while true
        invariant Valid() && bs < rowpixels
        invariant writer.Written() + Bits1D(row, bs, WHITE) == old(writer.Written()) + Bits1D(row, 0, WHITE)
        decreases rowpixels - bs
      {
        bs := Put1DRun(bp, addr, bs, WHITE);
        if bs >= rowpixels {
          break;
        }
        bs := Put1DRun(bp, addr, bs, BLACK);
        if bs >= rowpixels {
          break;
        }
      }
    }

    /** A run and the next one. */
    method PutTwoSpans(n1: nat, n2: nat, c: bool)
      requires Valid()
      modifies writer
      ensures Valid() && writer.Written() == old(writer.Written()) + (SpanBits(c, n1) + SpanBits(!c, n2))
    {
      hide SpanBits;
      Concat(writer.Written(), SpanBits(c, n1), SpanBits(!c, n2));
      PutSpan(n1, c);
      PutSpan(n2, !c);
    }

    /** Horizontal mode: both runs up to a2, which is returned. */
    method PutHorizontal(bp: seq<bv8>, baddr: nat, a1: nat, ghost s: Pos, a0: nat) returns (a2: nat)
      requires Valid() && rowpixels <= 8 * |bp|
      requires PosOk(RowOf(bp, rowpixels), s) && s.a0 == a0 < rowpixels && a1 == A1(RowOf(bp, rowpixels), s)
      modifies writer
      ensures Valid() && a2 == A2(RowOf(bp, rowpixels), s)
      ensures writer.Written()
           == old(writer.Written()) + (CodeBits(HORIZ_CODE) + HorizontalRuns(RowOf(bp, rowpixels), s))
    {
      hide SpanBits, CodeBits, FirstOf, RowOf;
      var bits := rowpixels;
      a2 := FindDiff2(bp, baddr, a1, bits);
      SecondChange(RowOf(bp, bits), s, a2);
      PixelIs(bp, bits, a0);
      Concat(writer.Written(), CodeBits(HORIZ_CODE), HorizontalRuns(RowOf(bp, bits), s));
      PutCode(HORIZ_CODE);
      if a0 + a1 == 0 || !Pixel(bp, a0) {
        PutTwoSpans(a1 - a0, a2 - a1, WHITE);
      } else {
        PutTwoSpans(a1 - a0, a2 - a1, BLACK);
      }
    }

    /** The code of one mode, given the changing elements, and the new a0. */
    method PutMode(bp: seq<bv8>, baddr: nat, rp: seq<bv8>, raddr: nat, a1: nat, b1: nat, ghost s: Pos, a0: nat)
      returns (next: nat)
      requires Valid() && rowpixels <= 8 * |bp| && rowpixels <= 8 * |rp|
      requires PosOk(RowOf(bp, rowpixels), s) && s.a0 == a0 < rowpixels
      requires a1 == A1(RowOf(bp, rowpixels), s) && b1 == B1(RowOf(rp, rowpixels), s)
      modifies writer
      ensures Valid() && next == Next(RowOf(bp, rowpixels), RowOf(rp, rowpixels), s).a0
      ensures writer.Written()
           == old(writer.Written()) + ModeBits(RowOf(bp, rowpixels), RowOf(rp, rowpixels), s)
    {
      hide CodeBits, HorizontalRuns, RowOf;
      var bits := rowpixels;
      var b2 := FindDiff2(rp, raddr, b1, bits);
      if b2 >= a1 {
        var d := b1 - a1;
        if !(-3 <= d <= 3) {
          next := PutHorizontal(bp, baddr, a1, s, a0);
        } else {
          VCodeFits(d + 3);
          PutCode(VCode(d + 3));
          next := a1;
        }
      } else {
        PutCode(PASS_CODE);
        next := b2;
      }
    }

    /** `Fax3Encode2DRow` */
    method Encode2DRow(bp: seq<bv8>, baddr: nat, rp: seq<bv8>, raddr: nat)
      requires Valid() && rowpixels <= 8 * |bp| && rowpixels <= 8 * |rp|
      modifies writer
      ensures Valid()
      ensures writer.Written()
           == old(writer.Written()) + Bits2D(RowOf(bp, rowpixels), RowOf(rp, rowpixels), ROW_START)
    {
      hide ModeBits, FirstOf, RowOf;
      var bits := rowpixels;
      ghost var row, ref := RowOf(bp, bits), RowOf(rp, bits);
      var a0, a1, b1 := 0, 0, 0;
      FirstPixel(bp, bits);
      FirstPixel(rp, bits);
      if !Pixel(bp, 0) {
        a1 := FindDiff(bp, baddr, 0, bits, WHITE);
      }
      if !Pixel(rp, 0) {
        b1 := FindDiff(rp, raddr, 0, bits, WHITE);
      }
      ghost var s := ROW_START;
      while true
        invariant Valid() && PosOk(row, s) && s.a0 == a0 < bits
        invariant a1 == A1(row, s) && b1 == B1(ref, s)
        invariant writer.Written() + Bits2D(row, ref, s) == old(writer.Written()) + Bits2D(row, ref, ROW_START)
        decreases bits - a0, s.start
      {
        NextOk(row, ref, s);
        Concat(writer.Written(), ModeBits(row, ref, s), Bits2D(row, ref, Next(row, ref, s)));
        a0 := PutMode(bp, baddr, rp, raddr, a1, b1, s, a0);
        s := Next(row, ref, s);
        if a0 >= bits {
          break;
        }
        PixelIs(bp, bits, a0);
        a1 := FindDiff(bp, baddr, a0, bits, Pixel(bp, a0));
        b1 := FindDiff(rp, raddr, a0, bits, !Pixel(bp, a0));
        b1 := FindDiff(rp, raddr, b1, bits, Pixel(bp, a0));
      }
    }
  }

  /** The next change behind a1 is a2. */
  lemma SecondChange(row: Row, s: Pos, a2: nat)
    requires PosOk(row, s) && s.a0 < |row|
    requires A1(row, s) == |row| ==> a2 == |row|
    requires A1(row, s) < |row| ==> a2 == FirstOf(row, A1(row, s), !row[A1(row, s)])
    ensures a2 == A2(row, s)
  {
  }

  /** What is left to write of a one-dimensional row, from position `p` on. */
  function Left1D(row: Row, p: nat, c: bool): Bitstring
    requires p <= |row|
  {
    if p == |row| then [] else Bits1D(row, p, c)
  }
}
