/** Group 4 (MMR) strips: `Fax4Encode`, `Fax4PostEncode` and `Fax4Decode`, and the round trip. */
module Group4 {
  import opened Bits
  import opened BitWriter
  import opened BitReader
  import opened Pixels
  import opened CodeTables
  import opened DecodeTables
  import opened TableBuilder
  import opened FaxCoding
  import opened FillRuns
  import opened Strips
  import opened FaxEncoder
  import opened FaxDecoder
  import opened RowDecoder

  /** Every row coded with respect to the one before it, the first one with respect to `ref`. */
  function StripBits(rows: seq<Row>, ref: Row): Bitstring
    requires OfWidth(rows, |ref|)
  {
    if rows == [] then [] else Bits2D(rows[0], ref, ROW_START) + StripBits(rows[1..], rows[0])
  }

  /** The reference line once `rows` have been coded. */
  function LastRow(rows: seq<Row>, ref: Row): Row {
    if rows == [] then ref else rows[|rows| - 1]
  }

  const EOFB := MsbBits(EOL_CODE, 12) + MsbBits(EOL_CODE, 12)

  class Group4Encoder {
    const enc: Encoder
    const rowbytes: nat
    var refline: seq<bv8>

    ghost predicate Valid()
      reads this, enc.writer
    {
      enc.Valid() && rowbytes == RowBytes(enc.rowpixels) && |refline| == rowbytes
    }

    ghost function Reference(): Row
      requires Valid()
      reads this, enc.writer
    {
      RowOf(refline, enc.rowpixels)
    }

    /** `Fax3PreEncode`: a white reference line. */
    constructor (enc: Encoder)
      requires enc.Valid()
      ensures Valid() && this.enc == enc && Reference() == Stretch(enc.rowpixels, WHITE)
    {
      this.enc := enc;
      rowbytes := RowBytes(enc.rowpixels);
      refline := seq(RowBytes(enc.rowpixels), _ => 0x00);
      new;
      WhiteBytes(refline, enc.rowpixels);
    }

    /** One row, which becomes the reference line. */
    method EncodeRow(bp: seq<bv8>, addr: nat, raddr: nat)
      requires Valid() && |bp| == rowbytes
      modifies this, enc.writer
      ensures Valid() && Reference() == RowOf(bp, enc.rowpixels)
      ensures enc.writer.Written()
           == old(enc.writer.Written()) + Bits2D(RowOf(bp, enc.rowpixels), old(Reference()), ROW_START)
    {
      enc.Encode2DRow(bp, addr, refline, raddr);
      refline := bp;
    }

    /** A whole number of rows. */
    method EncodeRows(data: seq<bv8>, addr: nat, raddr: nat)
      requires Valid() && Whole(|data|, rowbytes)
      modifies this, enc.writer
      ensures Valid()
      ensures var rows := RowsOf(data, rowbytes, enc.rowpixels);
              && enc.writer.Written() == old(enc.writer.Written()) + StripBits(rows, old(Reference()))
              && Reference() == LastRow(rows, old(Reference()))
    {
      hide Bits2D, RowOf, RowsOf, StripBits, LastRow, Whole;
      var w := enc.rowpixels;
      var off := 0;
      ghost var rows := RowsOf(data, rowbytes, w);
      ghost var all, last := enc.writer.Written() + StripBits(rows, Reference()), LastRow(rows, Reference());
      assert data[0..] == data;
      while off < |data|
        invariant Valid() && off <= |data| && Whole(|data| - off, rowbytes)
        invariant enc.writer.Written() + StripBits(RowsOf(data[off..], rowbytes, w), Reference()) == all
        invariant LastRow(RowsOf(data[off..], rowbytes, w), Reference()) == last
      {
        StripStep(data, off, rowbytes, w, Reference());
        var bp := data[off..off + rowbytes];
        ghost var rest := RowsOf(data[off + rowbytes..], rowbytes, w);
        Concat(enc.writer.Written(), Bits2D(RowOf(bp, w), Reference(), ROW_START), StripBits(rest, RowOf(bp, w)));
        EncodeRow(bp, addr + off, raddr);
        off := off + rowbytes;
      }
      StripEnd(data, off, rowbytes, w, Reference());
    }

    /** `Fax4Encode` */
    method Encode(data: seq<bv8>, addr: nat, raddr: nat) returns (ok: bool)
      requires Valid()
      modifies this, enc.writer
      ensures Valid() && ok == Whole(|data|, rowbytes)
      ensures !ok ==> enc.writer.Written() == old(enc.writer.Written()) && refline == old(refline)
      ensures ok ==> var rows := RowsOf(data, rowbytes, enc.rowpixels);
                     && enc.writer.Written() == old(enc.writer.Written()) + StripBits(rows, old(Reference()))
                     && Reference() == LastRow(rows, old(Reference()))
    {
      ok := Whole(|data|, rowbytes);
      if ok {
        EncodeRows(data, addr, raddr);
      }
    }

    /** `Fax4PostEncode`: end of facsimile block, and the last octet. */
    method PostEncode()
      requires Valid()
      modifies enc.writer
      ensures Valid() && enc.writer.bit == 8
      ensures Follows(enc.writer.Written(), old(enc.writer.Written()) + EOFB)
    {
      Pow2Monotone(1, 12);
      ghost var was := enc.writer.Written();
      enc.writer.PutBits(EOL_CODE, 12);
      enc.writer.PutBits(EOL_CODE, 12);
      Concat(was, MsbBits(EOL_CODE, 12), MsbBits(EOL_CODE, 12));
      enc.writer.PostEncode();
    }
  }

  /** How a call of a strip decoder ended; running out of a run array is not noticed by the original. */
  datatype Result = Success | Failure | OutOfRuns

  class Group4Decoder {
    const s: StripState
    const rowbytes: nat

    ghost predicate Valid()
      reads this, s, s.rd
    {
      s.Valid() && rowbytes == RowBytes(s.lastx)
    }

    constructor (s: StripState)
      requires s.Valid()
      ensures Valid() && this.s == s
    {
      this.s := s;
      rowbytes := RowBytes(s.lastx);
    }

    /** The next row, painted at byte `off` of the buffer; `done` says that it was not the last one. */
    method DecodeRow(buf: array<bv8>, addr: nat, off: nat, ghost row: Row, ghost ref: Row, ghost rest: Bitstring)
      returns (res: Result, done: bool)
      requires Valid() && off + rowbytes <= buf.Length
      requires (buf as object) != s.curruns && (buf as object) != s.refruns
      modifies s, s.curruns, s.refruns, s.rd, buf
      ensures Valid() && {s.curruns, s.refruns} == old({s.curruns, s.refruns})
      ensures old(s.eolCnt) == 0 && old(s.Reference(ref)) && |row| == s.lastx
              && Follows(old(s.rd.Ahead()), Bits2D(row, ref, ROW_START) + rest) ==>
                && res == Success && done && s.eolCnt == 0 && s.Reference(row) && Follows(s.rd.Ahead(), rest)
                && Overlaid(old(buf[..]), buf[..], 8 * off, row)
    {
      var st, rs := s.ExpandRow(false, row, ref, rest);
      if st == Overrun {
        return OutOfRuns, false;
      }
      if st == Eof || s.eolCnt != 0 {
        res := EndOfBlock(rs, buf, addr, off);
        return res, false;
      }
      var ok := s.FinishRow(rs, buf, addr, off, row);
      if !ok {
        return OutOfRuns, false;
      }
      return Success, true;
    }

    /** `EOFG4`: skip the rest of the end of block, and paint what there is of the row. */
    method EndOfBlock(rs: RowState, buf: array<bv8>, addr: nat, off: nat) returns (res: Result)
      requires Valid() && rs.Valid() && rs.thisrun == s.curruns && rs.lastx == s.lastx
      requires (buf as object) != s.curruns && 8 * off + s.lastx <= 8 * buf.Length
      modifies s.rd, s.curruns, buf
      ensures Valid()
    {
      var eof := s.rd.NeedBits16(13);
      if !eof {
        s.rd.ClrBits(13);
      }
      var ok := s.PaintRow(rs, buf, addr, off, []);
      return if !ok then OutOfRuns else if s.line != 0 then Success else Failure;
    }

    /** The strip carries `rows` after the reference line `ref`, then `rest`, and `n` bytes are just
        enough room for them. */
    ghost predicate Carries(rows: seq<Row>, ref: Row, rest: Bitstring, room: seq<bv8>)
      requires Valid()
      reads this, s, s.rd, s.refruns
    {
      && s.eolCnt == 0 && s.Reference(ref) && OfWidth(rows, s.lastx)
      && Follows(s.rd.Ahead(), StripBits(rows, ref) + rest)
      && |rows| == |RowsOf(room, rowbytes, s.lastx)|
    }

    /** `Fax4Decode` of `occ` bytes at `buf[off0]`: a strip that carries as many rows as there is room
        for, whatever follows them, is decoded to exactly those rows. */
    method Decode(buf: array<bv8>, addr: nat, off0: nat, occ: nat,
                  ghost rows: seq<Row>, ghost ref: Row, ghost rest: Bitstring) returns (res: Result)
      requires Valid() && off0 + occ <= buf.Length
      requires (buf as object) != s.curruns && (buf as object) != s.refruns
      modifies s, s.curruns, s.refruns, s.rd, buf
      ensures Valid() && {s.curruns, s.refruns} == old({s.curruns, s.refruns})
      ensures !Whole(occ, rowbytes) ==> res == Failure && buf[..] == old(buf[..])
      ensures Whole(occ, rowbytes) && old(Carries(rows, ref, rest, buf[off0..off0 + occ])) ==>
                && res == Success && s.eolCnt == 0 && Follows(s.rd.Ahead(), rest)
                && s.Reference(LastRow(rows, ref))
                && Decoded(old(buf[..]), buf[..], off0, off0 + occ, rowbytes, s.lastx, rows)
    {
      if !Whole(occ, rowbytes) {
        return Failure;
      }
      res := DecodeRows(buf, addr, off0, off0 + occ, rows, ref, rest);
    }

    method DecodeRows(buf: array<bv8>, addr: nat, off0: nat, end: nat,
                      ghost rows: seq<Row>, ghost ref: Row, ghost rest: Bitstring) returns (res: Result)
      requires Valid() && off0 <= end <= buf.Length && Whole(end - off0, rowbytes)
      requires (buf as object) != s.curruns && (buf as object) != s.refruns
      modifies s, s.curruns, s.refruns, s.rd, buf
      ensures Valid() && {s.curruns, s.refruns} == old({s.curruns, s.refruns})
      ensures old(Carries(rows, ref, rest, buf[off0..end])) ==>
                && res == Success && s.eolCnt == 0 && Follows(s.rd.Ahead(), rest)
                && s.Reference(LastRow(rows, ref))
                && Decoded(old(buf[..]), buf[..], off0, end, rowbytes, s.lastx, rows)
    {
      hide Bits2D, RowOf, RowsOf, PadsOf, StripBits, LastRow, Whole, OfWidth, Decoded;
      ghost var enc := Carries(rows, ref, rest, buf[off0..end]);
      var off := off0;
      ghost var done, left, was := [], rows, buf[..];
      ghost var from := ref;
      DecodedStart(buf[..], off0, rowbytes, s.lastx);
      while off < end
        invariant Valid() && off0 <= off <= end && Whole(end - off, rowbytes)
        invariant {s.curruns, s.refruns} == old({s.curruns, s.refruns})
        invariant enc ==> Carries(left, from, rest, was[off..end])
        invariant enc ==> rows == done + left && LastRow(left, from) == LastRow(rows, ref)
        invariant enc ==> Decoded(was, buf[..], off0, off, rowbytes, s.lastx, done)
        decreases end - off
      {
        WholeStep(end - off, rowbytes);
        ghost var row, after, before := [], rest, buf[..];
        if enc {
          row := FirstRow(was, off, end, rowbytes, s.lastx, left, from);
          Concat(Bits2D(row, from, ROW_START), StripBits(left[1..], row), rest);
          after := StripBits(left[1..], row) + rest;
        }
        var more;
        res, more := DecodeRow(buf, addr, off, row, from, after);
        if !more {
          return;
        }
        if enc {
          DecodedStep(was, before, buf[..], off0, off, rowbytes, s.lastx, done, row);
          done, left, from := done + [row], left[1..], row;
        }
        off := off + rowbytes;
      }
      if enc {
        NoRowsLeft(was, off, rowbytes, s.lastx, left, from);
        assert done == rows;
      }
      res := Success;
    }
  }

  /** From `before` to `after`, the rows in bytes `from` to `to` have become `rows`; the bytes outside
      and the bits that pad a row to whole bytes are as they were. */
  ghost predicate Decoded(before: seq<bv8>, after: seq<bv8>, from: nat, to: nat, rb: nat, w: nat, rows: seq<Row>)
    requires 0 < rb && w <= 8 * rb
  {
    && |after| == |before| && from <= to <= |before| && Whole(to - from, rb)
    && RowsOf(after[from..to], rb, w) == rows
    && PadsOf(after[from..to], rb, w) == PadsOf(before[from..to], rb, w)
    && after[..from] == before[..from] && after[to..] == before[to..]
  }

  lemma DecodedStart(b: seq<bv8>, from: nat, rb: nat, w: nat)
    requires 0 < rb && w <= 8 * rb && from <= |b|
    ensures Decoded(b, b, from, from, rb, w, [])
  {
    assert b[from..from] == [];
  }

  lemma DecodedStep(was: seq<bv8>, before: seq<bv8>, after: seq<bv8>, from: nat, off: nat, rb: nat, w: nat,
                    rows: seq<Row>, row: Row)
    requires 0 < rb && w <= 8 * rb && off + rb <= |was| && |row| == w
    requires Decoded(was, before, from, off, rb, w, rows) && Overlaid(before, after, 8 * off, row)
    ensures Decoded(was, after, from, off + rb, rb, w, rows + [row])
  {
    hide RowsOf, PadsOf, Whole;
    OverlaidBytes(before, after, off, rb, row);
    assert after[from..off] == after[..off][from..] == before[..off][from..] == before[from..off];
    assert after[from..off + rb] == after[from..off] + after[off..off + rb];
    assert was[from..off + rb] == was[from..off] + was[off..off + rb];
    assert was[off..off + rb] == was[off..][..rb] == before[off..][..rb] == before[off..off + rb];
    RowsAppend(after[from..off], after[off..off + rb], rb, w);
    RowsAppend(was[from..off], was[off..off + rb], rb, w);
    assert after[..from] == after[..off][..from] == before[..off][..from] == before[..from];
    assert after[off + rb..] == before[off..][rb..] == was[off..][rb..] == was[off + rb..];
    WholeNext(off - from, rb);
  }

  lemma WholeNext(n: nat, rb: nat)
    requires 0 < rb && Whole(n, rb)
    ensures Whole(n + rb, rb)
  {
    ModMinus(n + rb, rb);
  }

  /** The first of the rows still to come. */
  lemma FirstRow(was: seq<bv8>, off: nat, end: nat, rb: nat, w: nat, left: seq<Row>, from: Row) returns (row: Row)
    requires 0 < rb && w <= 8 * rb && off + rb <= end <= |was| && |from| == w && OfWidth(left, w)
    requires |left| == |RowsOf(was[off..end], rb, w)|
    ensures |left| > 0 && row == left[0] && |row| == w && OfWidth(left[1..], w)
    ensures StripBits(left, from) == Bits2D(row, from, ROW_START) + StripBits(left[1..], row)
    ensures LastRow(left, from) == LastRow(left[1..], row)
    ensures |left[1..]| == |RowsOf(was[off + rb..end], rb, w)|
  {
    hide Bits2D;
    var data := was[off..end];
    NextRow(data, 0, rb, w);
    assert data[0..] == data && data[rb..] == was[off + rb..end];
    row := left[0];
  }

  lemma NoRowsLeft(was: seq<bv8>, off: nat, rb: nat, w: nat, left: seq<Row>, from: Row)
    requires 0 < rb && w <= 8 * rb && off <= |was| && |from| == w && OfWidth(left, w)
    requires |left| == |RowsOf(was[off..off], rb, w)|
    ensures left == [] && StripBits(left, from) == [] && LastRow(left, from) == from
  {
    assert was[off..off] == [];
  }

  lemma WhiteBytes(bytes: seq<bv8>, w: nat)
    requires w <= 8 * |bytes| && forall k :: 0 <= k < |bytes| ==> bytes[k] == 0x00
    ensures RowOf(bytes, w) == Stretch(w, WHITE)
  {
    forall i | 0 <= i < w
      ensures RowOf(bytes, w)[i] == WHITE
    {
      assert !Bit(0x00, i % 8);
    }
  }

  /** The next row of the data, and the others. */
  lemma NextRow(data: seq<bv8>, off: nat, rb: nat, w: nat)
    requires 0 < rb && w <= 8 * rb && off + rb <= |data|
    ensures RowsOf(data[off..], rb, w) == [RowOf(data[off..off + rb], w)] + RowsOf(data[off + rb..], rb, w)
    ensures RowsOf(data[off..], rb, w)[0] == RowOf(data[off..off + rb], w)
    ensures RowsOf(data[off..], rb, w)[1..] == RowsOf(data[off + rb..], rb, w)
  {
    assert data[off..][..rb] == data[off..off + rb];
    assert data[off..][rb..] == data[off + rb..];
  }

  lemma StripStep(data: seq<bv8>, off: nat, rb: nat, w: nat, ref: Row)
    requires 0 < rb && w <= 8 * rb && off < |data| && Whole(|data| - off, rb) && |ref| == w
    ensures off + rb <= |data| && Whole(|data| - (off + rb), rb)
    ensures var row := RowOf(data[off..off + rb], w);
            var rows, rest := RowsOf(data[off..], rb, w), RowsOf(data[off + rb..], rb, w);
            && StripBits(rows, ref) == Bits2D(row, ref, ROW_START) + StripBits(rest, row)
            && LastRow(rows, ref) == LastRow(rest, row)
  {
    hide Bits2D, RowOf, Whole;
    WholeStep(|data| - off, rb);
    NextRow(data, off, rb, w);
  }

  lemma StripEnd(data: seq<bv8>, off: nat, rb: nat, w: nat, ref: Row)
    requires 0 < rb && w <= 8 * rb && off == |data| && |ref| == w
    ensures StripBits(RowsOf(data[off..], rb, w), ref) == [] && LastRow(RowsOf(data[off..], rb, w), ref) == ref
  {
    assert data[off..] == [];
  }

  /** Encode a strip and end it. */
  method EncodeStrip(data: seq<bv8>, w: nat, rawSize: nat, addr: nat, raddr: nat) returns (bytes: seq<byte>)
    requires w > 0 && rawSize > 0 && Whole(|data|, RowBytes(w))
    ensures Follows(BytesBits(bytes), StripBits(RowsOf(data, RowBytes(w), w), Stretch(w, WHITE)) + EOFB)
  {
    hide StripBits, RowsOf, Whole;
    var writer := new Writer(rawSize);
    var e := new Encoder(writer, w);
    var encoder := new Group4Encoder(e);
    var ok := encoder.Encode(data, addr, raddr);
    encoder.PostEncode();
    bytes := writer.file + writer.raw;
    assert writer.Written() == BytesBits(bytes);
  }

  /** Decode a strip into a buffer that holds `was`. */
  method DecodeStrip(bytes: seq<byte>, w: nat, was: seq<bv8>, addr: nat, ghost rows: seq<Row>, ghost rest: Bitstring)
    returns (res: Result, out: seq<bv8>)
    requires w > 0 && Whole(|was|, RowBytes(w))
    ensures |out| == |was|
    ensures OfWidth(rows, w) && |rows| == |RowsOf(was, RowBytes(w), w)|
            && Follows(BytesBits(bytes), StripBits(rows, Stretch(w, WHITE)) + rest) ==>
              res == Success && RowsOf(out, RowBytes(w), w) == rows
  {
    hide StripBits, RowsOf, Whole;
    var tables := BuildTables();
    var reader := new Reader(bytes);
    var state := new StripState(reader, tables, w);
    var decoder := new Group4Decoder(state);
    var buf := new bv8[|was|](i requires 0 <= i < |was| => was[i]);
    assert buf[0..|was|] == was;
    res := decoder.Decode(buf, addr, 0, |was|, rows, Stretch(w, WHITE), rest);
    out := buf[..];
    assert out[0..|was|] == out;
  }

  /** The decoder applied to what the encoder wrote returns the same pixels: for every width, every
      sequence of rows, every size of the raw buffer, every alignment, and whatever the buffer held that
      is decoded into. */
  method RoundTrip(data: seq<bv8>, w: nat, rawSize: nat, was: seq<bv8>, addr: nat, raddr: nat)
    returns (res: Result, out: seq<bv8>)
    requires w > 0 && rawSize > 0 && Whole(|data|, RowBytes(w)) && |was| == |data|
    ensures res == Success && |out| == |data|
    ensures RowsOf(out, RowBytes(w), w) == RowsOf(data, RowBytes(w), w)
  {
    hide StripBits, RowsOf, Whole;
    var bytes := EncodeStrip(data, w, rawSize, addr, raddr);
    SameRowCount(data, was, RowBytes(w), w);
    res, out := DecodeStrip(bytes, w, was, addr, RowsOf(data, RowBytes(w), w), EOFB);
  }

  method BuildTables() returns (tables: Tables)
    ensures tables.Valid()
  {
    var main := BuildTable(Main);
    var white := BuildTable(White);
    var black := BuildTable(Black);
    tables := Tables(main[..], white[..], black[..]);
  }

  lemma {:induction false} SameRowCount(a: seq<bv8>, b: seq<bv8>, rb: nat, w: nat)
    requires 0 < rb && w <= 8 * rb && |a| == |b|
    ensures |RowsOf(a, rb, w)| == |RowsOf(b, rb, w)|
  {
    if |a| >= rb {
      SameRowCount(a[rb..], b[rb..], rb, w);
    }
  }
}
