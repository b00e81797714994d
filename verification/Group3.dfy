/** Encoding Group 3 strips: `Fax3Encode` and `Fax3PutEOL`, for one-dimensional coding and for mixed one- and
    two-dimensional coding, and what the bits of such a strip are. */
module Group3 {
  import opened Bits
  import opened Pixels
  import opened CodeTables
  import opened FaxCoding
  import opened Strips
  import opened LineSync
  import opened FaxEncoder
  import opened FaxDecoder
  import opened Group4

  /** The options of a strip: is two-dimensional coding used, are end of line codes aligned, and at least
      one row of how many consecutive ones is coded on its own. */
  datatype Options = Options(is2D: bool, fillBits: bool, maxk: nat)

  predicate OptionsOk(o: Options) {
    o.is2D ==> o.maxk >= 2
  }

  /** Whether the row at phase `p`, counting from the last row coded on its own, is coded on its own. */
  predicate Is1D(o: Options, p: nat) {
    !o.is2D || p == 0
  }

  function NextPhase(o: Options, p: nat): nat {
    if !o.is2D || p + 1 >= o.maxk then 0 else p + 1
  }

  /** How many fill bits precede an end of line code at bit `n` of the strip. */
  function Fill(o: Options, n: nat): nat {
    if o.fillBits then (12 - n % 8) % 8 else 0
  }

  const EOL := MsbBits(EOL_CODE, 12)

  function EolBits(o: Options, p: nat): Bitstring {
    EOL + if o.is2D then [Is1D(o, p)] else []
  }

  /** A row at bit `n` of the strip: fill, end of line, and the tag that says how the row is coded. */
  function LineBits(o: Options, p: nat, n: nat, row: Row, ref: Row): Bitstring
    requires |row| == |ref|
  {
    Zeros(Fill(o, n)) + (EolBits(o, p) + RowBits(Is1D(o, p), row, ref))
  }

  /** Rows from phase `p` and bit `n` on, after the row `ref`. */
  function G3Bits(o: Options, p: nat, n: nat, rows: seq<Row>, ref: Row): Bitstring
    requires OfWidth(rows, |ref|)
    decreases |rows|
  {
    if rows == [] then [] else
    var line := LineBits(o, p, n, rows[0], ref);
    line + G3Bits(o, NextPhase(o, p), n + |line|, rows[1..], rows[0])
  }

  function PhaseAfter(o: Options, p: nat, n: nat): nat
    decreases n
  {
    if n == 0 then p else PhaseAfter(o, NextPhase(o, p), n - 1)
  }

  // ---------- where the end of line codes are ----------

  /** The bit just behind the end of line code of row `i`. */
  function EolEnd(o: Options, p: nat, n: nat, rows: seq<Row>, ref: Row, i: nat): nat
    requires OfWidth(rows, |ref|) && i < |rows|
    decreases i
  {
    if i == 0 then n + Fill(o, n) + 12 else
    var line := LineBits(o, p, n, rows[0], ref);
    EolEnd(o, NextPhase(o, p), n + |line|, rows[1..], rows[0], i - 1)
  }

  /** The end of line code of one row. */
  lemma LineEol(o: Options, p: nat, n: nat, row: Row, ref: Row)
    requires |row| == |ref|
    ensures var f, line := Fill(o, n), LineBits(o, p, n, row, ref);
            && f + 12 <= |line| && line[f..f + 12] == EOL
            && (o.is2D ==> f + 12 < |line| && line[f + 12] == Is1D(o, p))
            && (o.fillBits ==> (n + f + 12) % 8 == 0)
  {
    hide RowBits, Is1D, Fill, EOL;
    EolLength();
    FillAligns(o, n);
    var f, tail := Fill(o, n), EolBits(o, p) + RowBits(Is1D(o, p), row, ref);
    SliceOfTail(Zeros(f), tail, 0, 12);
    assert tail[0..12] == EOL;
  }

  lemma EolLength()
    ensures |EOL| == 12
  {
  }

  lemma FillAligns(o: Options, n: nat)
    ensures o.fillBits ==> (n + Fill(o, n) + 12) % 8 == 0
  {
  }

  lemma SliceOfTail(a: Bitstring, b: Bitstring, i: nat, j: nat)
    requires i <= j <= |b|
    ensures (a + b)[|a| + i..|a| + j] == b[i..j]
  {
  }

  /** Each row of a strip has its end of line code; the tag behind it says that the row is coded on its
      own exactly if its phase is zero; with fill bits the code ends on an octet boundary. */
  lemma {:induction false} EolPlaces(o: Options, p: nat, n: nat, rows: seq<Row>, ref: Row, i: nat)
    requires OfWidth(rows, |ref|) && i < |rows|
    ensures var e := EolEnd(o, p, n, rows, ref, i) - n;
            var b := G3Bits(o, p, n, rows, ref);
            && 12 <= e <= |b| && b[e - 12..e] == EOL
            && (o.is2D ==> e < |b| && b[e] == (PhaseAfter(o, p, i) == 0))
    ensures o.fillBits ==> EolEnd(o, p, n, rows, ref, i) % 8 == 0
    decreases i
  {
    hide LineBits, EOL, Fill, NextPhase;
    var line := LineBits(o, p, n, rows[0], ref);
    var rest := G3Bits(o, NextPhase(o, p), n + |line|, rows[1..], rows[0]);
    if i == 0 {
      LineEol(o, p, n, rows[0], ref);
      var f := Fill(o, n);
      assert (line + rest)[f..f + 12] == line[f..f + 12];
    } else {
      EolPlaces(o, NextPhase(o, p), n + |line|, rows[1..], rows[0], i - 1);
      var e := EolEnd(o, p, n, rows, ref, i) - n - |line|;
      SliceOfTail(line, rest, e - 12, e);
    }
  }

  /** Every row whose number is a multiple of `maxk`, and no other, is coded on its own: at most
      `maxk - 1` consecutive rows are not. */
  lemma {:induction false} Refreshed(o: Options, p: nat, i: nat)
    requires o.is2D && OptionsOk(o) && p < o.maxk
    ensures PhaseAfter(o, p, i) == (p + i) % o.maxk
    decreases i
  {
    if i > 0 {
      Refreshed(o, NextPhase(o, p), i - 1);
      if p + 1 == o.maxk {
        ModMinus(p + i, o.maxk);
      }
    }
  }

  // ---------- the encoder ----------

  class Group3Encoder {
    const enc: Encoder
    const rowbytes: nat
    const o: Options
    var tag1D: bool
    var k: nat
    var refline: seq<bv8>

    ghost predicate Valid()
      reads this, enc.writer
    {
      && enc.Valid() && rowbytes == RowBytes(enc.rowpixels) && |refline| == rowbytes && OptionsOk(o)
      && (if !o.is2D then tag1D else if tag1D then k == o.maxk - 1 else 1 <= k < o.maxk)
    }

    ghost function Reference(): Row
      requires Valid()
      reads this, enc.writer
    {
      RowOf(refline, enc.rowpixels)
    }

    /** How many rows ago the last one coded on its own was. */
    ghost function Phase(): (p: nat)
      requires Valid()
      reads this, enc.writer
      ensures tag1D == Is1D(o, p)
    {
      if tag1D then 0 else o.maxk - k
    }

    /** `Fax3PreEncode`; `fine` tells a resolution of more than 150 lines an inch. */
    constructor (enc: Encoder, is2D: bool, fillBits: bool, fine: bool)
      requires enc.Valid()
      ensures Valid() && this.enc == enc && Phase() == 0
      ensures o == Options(is2D, fillBits, if !is2D then 0 else if fine then 4 else 2)
    {
      this.enc := enc;
      rowbytes := RowBytes(enc.rowpixels);
      var maxk := if !is2D then 0 else if fine then 4 else 2;
      o := Options(is2D, fillBits, maxk);
      tag1D := true;
      k := if is2D then maxk - 1 else 0;
      refline := seq(RowBytes(enc.rowpixels), _ => 0x00);
    }

    /** The fill bits of `Fax3PutEOL` */
    method PutFill()
      requires Valid()
      modifies enc.writer
      ensures Valid()
      ensures enc.writer.Written() == old(enc.writer.Written()) + Zeros(Fill(o, |old(enc.writer.Written())|))
    {
      hide Fill;
      ghost var was := enc.writer.Written();
      enc.writer.Position();
      assert was + [] == was;
      FillFor(o, |was|, enc.writer.bit);
      if o.fillBits {
        var align := 8 - 4;
        if align != enc.writer.bit {
          if align > enc.writer.bit {
            align := enc.writer.bit + (8 - align);
          } else {
            align := enc.writer.bit - align;
          }
          MsbOfZero(align);
          enc.writer.PutBits(0, align);
        }
      }
    }

    /** `Fax3PutEOL` */
    method PutEOL()
      requires Valid()
      modifies enc.writer
      ensures Valid()
      ensures enc.writer.Written()
           == old(enc.writer.Written()) + (Zeros(Fill(o, |old(enc.writer.Written())|)) + EolBits(o, Phase()))
    {
      hide Fill, EolBits, Is1D, Mark, MsbBits, Pow2;
      ghost var was := enc.writer.Written();
      EolCode();
      TagAdded(o, Phase());
      PutFill();
      var code, length := EOL_CODE, 12;
      if o.is2D {
        code, length := 2 * code + (if tag1D then 1 else 0), length + 1;
      }
      Concat(was, Zeros(Fill(o, |was|)), EolBits(o, Phase()));
      enc.writer.PutBits(code, length);
    }

    /** One row of `Fax3Encode`.  Whenever the next row is due to be coded with respect to the reference
        line, the reference line is this row. */
    method EncodeRow(bp: seq<bv8>, addr: nat, raddr: nat)
      requires Valid() && |bp| == rowbytes
      modifies this, enc.writer
      ensures Valid() && Phase() == NextPhase(o, old(Phase()))
      ensures !tag1D ==> Reference() == RowOf(bp, enc.rowpixels)
      ensures enc.writer.Written() == old(enc.writer.Written())
           + LineBits(o, old(Phase()), |old(enc.writer.Written())|, RowOf(bp, enc.rowpixels), old(Reference()))
    {
      hide Bits2D, Bits1D, RowOf, Fill, EolBits;
      ghost var was, row, ref := enc.writer.Written(), RowOf(bp, enc.rowpixels), Reference();
      Associate(was, Zeros(Fill(o, |was|)), EolBits(o, Phase()), RowBits(tag1D, row, ref));
      PutEOL();
      if o.is2D {
        if tag1D {
          enc.Encode1DRow(bp, addr);
          tag1D := false;
        } else {
          enc.Encode2DRow(bp, addr, refline, raddr);
          k := k - 1;
        }
        if k == 0 {
          tag1D := true;
          k := o.maxk - 1;
        } else {
          refline := bp;
        }
      } else {
        enc.Encode1DRow(bp, addr);
      }
    }

    /** A whole number of rows. */
    method EncodeRows(data: seq<bv8>, addr: nat, raddr: nat)
      requires Valid() && Whole(|data|, rowbytes)
      modifies this, enc.writer
      ensures Valid()
      ensures var rows := RowsOf(data, rowbytes, enc.rowpixels);
              && Phase() == PhaseAfter(o, old(Phase()), |rows|)
              && (!tag1D ==> Reference() == LastRow(rows, old(Reference())))
              && enc.writer.Written() == old(enc.writer.Written())
                   + G3Bits(o, old(Phase()), |old(enc.writer.Written())|, rows, old(Reference()))
    {
      hide LineBits, RowOf, RowsOf, G3Bits, LastRow, Whole, PhaseAfter, NextPhase;
      var w := enc.rowpixels;
      var off := 0;
      ghost var rows := RowsOf(data, rowbytes, w);
      ghost var prev := Reference();
      ghost var all := enc.writer.Written() + G3Bits(o, Phase(), |enc.writer.Written()|, rows, prev);
      ghost var last, after := LastRow(rows, prev), PhaseAfter(o, Phase(), |rows|);
      assert data[0..] == data;
      while off < |data|
        invariant Valid() && off <= |data| && Whole(|data| - off, rowbytes) && |prev| == w
        invariant !tag1D ==> Reference() == prev
        invariant var n := |enc.writer.Written()|; var left := RowsOf(data[off..], rowbytes, w);
                  && enc.writer.Written() + G3Bits(o, Phase(), n, left, prev) == all
                  && LastRow(left, prev) == last && PhaseAfter(o, Phase(), |left|) == after
      {
        G3Step(data, off, rowbytes, w, prev, o, Phase(), enc.writer.Written(), Reference());
        var bp := data[off..off + rowbytes];
        EncodeRow(bp, addr + off, raddr);
        prev := RowOf(bp, w);
        off := off + rowbytes;
      }
      G3End(data, off, rowbytes, w, prev, o, Phase(), |enc.writer.Written()|);
    }

    /** `Fax3Encode` */
    method Encode(data: seq<bv8>, addr: nat, raddr: nat) returns (ok: bool)
      requires Valid()
      modifies this, enc.writer
      ensures Valid() && ok == Whole(|data|, rowbytes)
      ensures !ok ==> enc.writer.Written() == old(enc.writer.Written())
                      && refline == old(refline) && tag1D == old(tag1D) && k == old(k)
      ensures ok ==> var rows := RowsOf(data, rowbytes, enc.rowpixels);
                     && Phase() == PhaseAfter(o, old(Phase()), |rows|)
                     && (!tag1D ==> Reference() == LastRow(rows, old(Reference())))
                     && enc.writer.Written() == old(enc.writer.Written())
                          + G3Bits(o, old(Phase()), |old(enc.writer.Written())|, rows, old(Reference()))
    {
      ok := Whole(|data|, rowbytes);
      if ok {
        EncodeRows(data, addr, raddr);
      }
    }
  }

  lemma FillFor(o: Options, n: nat, bit: nat)
    requires 1 <= bit <= 8 && n % 8 == (8 - bit) % 8
    ensures Fill(o, n) == if !o.fillBits then 0 else if bit >= 4 then bit - 4 else bit + 4
  {
  }

  lemma EolCode()
    ensures 1 < Pow2(12) && 3 < Pow2(13)
    ensures EOL == MsbBits(1, 12) == Mark(11)
  {
    Pow2Monotone(1, 12);
    Pow2Monotone(2, 13);
    assert MsbBits(1, 12) == MsbBits(0, 11) + [true];
    MsbOfZero(11);
  }

  /** The tag is put in one code with the end of line. */
  lemma TagAdded(o: Options, p: nat)
    ensures if o.is2D then MsbBits(2 * EOL_CODE + (if Is1D(o, p) then 1 else 0), 13) == EolBits(o, p)
            else MsbBits(EOL_CODE, 12) == EolBits(o, p)
  {
    hide Is1D;
    var code := 2 * EOL_CODE + if Is1D(o, p) then 1 else 0;
    assert code / 2 == EOL_CODE && (code % 2 == 1) == Is1D(o, p);
    assert MsbBits(code, 13) == MsbBits(code / 2, 12) + [code % 2 == 1];
    assert EOL + [] == EOL;
  }

  lemma Associate(a: Bitstring, b: Bitstring, c: Bitstring, d: Bitstring)
    ensures a + (b + c) + d == a + (b + (c + d))
  {
  }

  /** A row coded on its own does not depend on the reference line. */
  lemma LineAnyReference(o: Options, p: nat, n: nat, row: Row, ref: Row, ref': Row)
    requires |row| == |ref| == |ref'| && (Is1D(o, p) || ref == ref')
    ensures LineBits(o, p, n, row, ref) == LineBits(o, p, n, row, ref')
  {
  }

  /** The next row of a strip. */
  lemma G3Step(data: seq<bv8>, off: nat, rb: nat, w: nat, prev: Row, o: Options, p: nat, was: Bitstring, ref: Row)
    requires 0 < rb && w <= 8 * rb && off < |data| && Whole(|data| - off, rb) && |prev| == |ref| == w
    requires Is1D(o, p) || ref == prev
    ensures off + rb <= |data| && Whole(|data| - (off + rb), rb)
    ensures var row := RowOf(data[off..off + rb], w);
            var rows, rest := RowsOf(data[off..], rb, w), RowsOf(data[off + rb..], rb, w);
            var line := LineBits(o, p, |was|, row, ref);
            && was + G3Bits(o, p, |was|, rows, prev) == was + line + G3Bits(o, NextPhase(o, p), |was + line|, rest, row)
            && LastRow(rows, prev) == LastRow(rest, row)
            && PhaseAfter(o, p, |rows|) == PhaseAfter(o, NextPhase(o, p), |rest|)
  {
    hide LineBits, RowOf, Whole, NextPhase;
    WholeStep(|data| - off, rb);
    NextRow(data, off, rb, w);
    var row := RowOf(data[off..off + rb], w);
    LineAnyReference(o, p, |was|, row, ref, prev);
    var line := LineBits(o, p, |was|, row, ref);
    Concat(was, line, G3Bits(o, NextPhase(o, p), |was| + |line|, RowsOf(data[off + rb..], rb, w), row));
  }

  lemma G3End(data: seq<bv8>, off: nat, rb: nat, w: nat, prev: Row, o: Options, p: nat, n: nat)
    requires 0 < rb && w <= 8 * rb && off == |data| && |prev| == w
    ensures var rows := RowsOf(data[off..], rb, w);
            && G3Bits(o, p, n, rows, prev) == [] && LastRow(rows, prev) == prev && PhaseAfter(o, p, |rows|) == p
  {
    assert data[off..] == [];
  }
}
