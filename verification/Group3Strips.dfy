/** Decoding Group 3 strips: `Fax3Decode1D` and `Fax3Decode2D`, and the round trip. */
module Group3Strips {
  import opened Bits
  import opened BitWriter
  import opened BitReader
  import opened Pixels
  import opened FillRuns
  import opened Strips
  import opened LineSync
  import opened FaxEncoder
  import opened FaxDecoder
  import opened RowDecoder
  import opened Group4
  import opened Group3

  /** The tag that follows an end of line code. */
  function TagBits(o: Options, p: nat): Bitstring {
    if o.is2D then [Is1D(o, p)] else []
  }

  /** What follows the end of line code of a row. */
  function AfterEol(o: Options, p: nat, row: Row, ref: Row, rest: Bitstring): Bitstring
    requires |row| == |ref|
  {
    TagBits(o, p) + (RowBits(Is1D(o, p), row, ref) + rest)
  }

  lemma LineSplit(o: Options, p: nat, n: nat, row: Row, ref: Row, rest: Bitstring)
    requires |row| == |ref|
    ensures LineBits(o, p, n, row, ref) + rest == Mark(Fill(o, n) + 11) + AfterEol(o, p, row, ref, rest)
  {
    hide RowBits, Fill, Is1D, EOL, Mark;
    EolCode();
    LongerMark(Fill(o, n), 11);
    FiveParts(Zeros(Fill(o, n)), EOL, TagBits(o, p), RowBits(Is1D(o, p), row, ref), rest);
  }

  lemma LongerMark(f: nat, m: nat)
    ensures Zeros(f) + Mark(m) == Mark(f + m)
  {
  }

  lemma FiveParts(a: Bitstring, b: Bitstring, c: Bitstring, d: Bitstring, e: Bitstring)
    ensures a + (b + c + d) + e == a + b + (c + (d + e))
  {
    Concat(a, b + c + d, e);
    Concat(b + c, d, e);
    Concat(b, c, d + e);
    Concat(a, b, c + (d + e));
  }

  class Group3Decoder {
    const s: StripState
    const rowbytes: nat

    ghost predicate Valid()
      reads this, s, s.rd
    {
      s.Valid() && rowbytes == RowBytes(s.lastx)
    }

    constructor (s: StripState)
      requires s.Valid()
      ensures Valid() && this.s == s
    {
      this.s := s;
      rowbytes := RowBytes(s.lastx);
    }

    /** `EOF1D` and `EOF2D`: the data ended before the row began; paint it white. */
    method NoRow(buf: array<bv8>, addr: nat, off: nat) returns (res: Result)
      requires Valid() && off + rowbytes <= buf.Length && (buf as object) != s.curruns
      modifies s.curruns, buf
      ensures Valid()
    {
      var rs := new RowState(s.rd, s.tables, s.lastx, s.curruns, s.refruns, s.eolCnt);
      var ok := rs.CleanupRuns();
      if ok {
        ok := s.PaintRow(rs, buf, addr, off, []);
      }
      return if ok then Failure else OutOfRuns;
    }

    /** One row of `Fax3Decode1D`; `more` says that decoding goes on. */
    method Line1D(buf: array<bv8>, addr: nat, off: nat,
                  ghost o: Options, ghost n: nat, ghost row: Row, ghost rest: Bitstring)
      returns (res: Result, more: bool)
      requires Valid() && off + rowbytes <= buf.Length
      requires (buf as object) != s.curruns && (buf as object) != s.refruns
      modifies s`eolCnt, s`line, s.curruns, s.rd, buf
      ensures Valid()
      ensures !o.is2D && old(s.eolCnt) == 0 && |row| == s.lastx
              && Follows(old(s.rd.Ahead()), LineBits(o, 0, n, row, row) + rest) ==>
                && res == Success && more && s.eolCnt == 0 && Follows(s.rd.Ahead(), rest)
                && Overlaid(old(buf[..]), buf[..], 8 * off, row)
    {
      hide LineBits, RowBits, Fill, Follows, IsFirstZeros, IsNextOne, Past, BitAt, AfterEol, Overlaid;
      LineSplit(o, 0, n, row, row, rest);
      TagOf(o, 0, row, row, rest);
      var eof;
      ghost var zeros, one;
      eof, s.eolCnt, zeros, one := SyncEol(s.rd, s.eolCnt, Fill(o, n) + 11, AfterEol(o, 0, row, row, rest));
      if eof {
        res := NoRow(buf, addr, off);
        return res, false;
      }
      var st, rs := s.ExpandRow(true, row, row, rest);
      if st == Overrun {
        return OutOfRuns, false;
      }
      var ok := s.PaintRow(rs, buf, addr, off, row);
      if !ok {
        return OutOfRuns, false;
      }
      if st == Eof {
        return Failure, false;
      }
      s.line := s.line + 1;
      return Success, true;
    }

    /** One row of `Fax3Decode2D` */
    method Line2D(buf: array<bv8>, addr: nat, off: nat,
                  ghost o: Options, ghost p: nat, ghost n: nat, ghost row: Row, ghost ref: Row, ghost rest: Bitstring)
      returns (res: Result, more: bool)
      requires Valid() && off + rowbytes <= buf.Length
      requires (buf as object) != s.curruns && (buf as object) != s.refruns
      modifies s, s.curruns, s.refruns, s.rd, buf
      ensures Valid() && {s.curruns, s.refruns} == old({s.curruns, s.refruns})
      ensures o.is2D && old(s.eolCnt) == 0 && old(s.Reference(ref)) && |row| == |ref| == s.lastx
              && Follows(old(s.rd.Ahead()), LineBits(o, p, n, row, ref) + rest) ==>
                && res == Success && more && s.eolCnt == 0 && s.Reference(row) && Follows(s.rd.Ahead(), rest)
                && Overlaid(old(buf[..]), buf[..], 8 * off, row)
    {
      hide LineBits, RowBits, Fill, Follows;
      ghost var enc := o.is2D && s.eolCnt == 0 && s.Reference(ref) && |row| == |ref| == s.lastx
                       && Follows(s.rd.Ahead(), LineBits(o, p, n, row, ref) + rest);
      ghost var after := [];
      if enc {
        LineSplit(o, p, n, row, ref, rest);
        after := RowBits(Is1D(o, p), row, ref) + rest;
      }
      var eof, is1D := SyncTag(o, p, Fill(o, n) + 11, after);
      if eof {
        res := NoRow(buf, addr, off);
        return res, false;
      }
      var st, rs := s.ExpandRow(is1D, row, ref, rest);
      if st == Overrun {
        return OutOfRuns, false;
      }
      if st == Eof {
        var ok := s.PaintRow(rs, buf, addr, off, row);
        return if ok then Failure else OutOfRuns, false;
      }
      var ok := s.FinishRow(rs, buf, addr, off, row);
      if !ok {
        return OutOfRuns, false;
      }
      return Success, true;
    }

    /** The end of line code and the tag in front of a row. */
    method SyncTag(ghost o: Options, ghost p: nat, ghost m: nat, ghost rest: Bitstring) returns (eof: bool, is1D: bool)
      requires Valid()
      modifies s`eolCnt, s.rd
      ensures Valid()
      ensures o.is2D && m >= 11 && Follows(old(s.rd.Ahead()), Mark(m) + (TagBits(o, p) + rest)) ==>
                !eof && is1D == Is1D(o, p) && Follows(s.rd.Ahead(), rest) && s.eolCnt == 0
    {
      hide Follows, Mark, Is1D, IsFirstZeros, IsNextOne, Past, BitAt;
      ghost var bits := TagBits(o, p) + rest;
      ghost var enc := o.is2D && m >= 11 && Follows(s.rd.Ahead(), Mark(m) + bits);
      is1D := false;
      ghost var zeros, one;
      eof, s.eolCnt, zeros, one := SyncEol(s.rd, s.eolCnt, m, bits);
      if eof {
        return;
      }
      ghost var before := s.rd.Ahead();
      eof := s.rd.NeedBits8(1);
      if enc { AfterNeeded(before, s.rd.Ahead(), s.rd.avail, 1, eof, bits); }
      if eof {
        return;
      }
      s.rd.GetBitsAhead(1);
      if enc { TagAhead(s.rd.GetBits(1), s.rd.Ahead(), Is1D(o, p), rest); }
      is1D := s.rd.GetBits(1) != 0;
      s.rd.ClrBits(1);
    }

    /** The strip carries `rows` after the reference line `ref`, then `rest`, and there is just enough
        room for them. */
    ghost predicate Carries(o: Options, p: nat, n: nat, rows: seq<Row>, ref: Row, rest: Bitstring, room: seq<bv8>)
      requires Valid()
      reads this, s, s.rd, s.refruns
    {
      && s.eolCnt == 0 && |ref| == s.lastx && OfWidth(rows, s.lastx)
      && (o.is2D ==> s.Reference(ref)) && (!o.is2D ==> p == 0)
      && Follows(s.rd.Ahead(), G3Bits(o, p, n, rows, ref) + rest)
      && |rows| == |RowsOf(room, rowbytes, s.lastx)|
    }

    method DecodeRows(is2D: bool, buf: array<bv8>, addr: nat, off0: nat, end: nat,
                      ghost o: Options, ghost p: nat, ghost n: nat,
                      ghost rows: seq<Row>, ghost ref: Row, ghost rest: Bitstring) returns (res: Result)
      requires Valid() && off0 <= end <= buf.Length && Whole(end - off0, rowbytes)
      requires (buf as object) != s.curruns && (buf as object) != s.refruns
      modifies s, s.curruns, s.refruns, s.rd, buf
      ensures Valid() && {s.curruns, s.refruns} == old({s.curruns, s.refruns})
      ensures is2D == o.is2D && old(Carries(o, p, n, rows, ref, rest, buf[off0..end])) ==>
                && res == Success && s.eolCnt == 0 && Follows(s.rd.Ahead(), rest)
                && (is2D ==> s.Reference(LastRow(rows, ref)))
                && Decoded(old(buf[..]), buf[..], off0, end, rowbytes, s.lastx, rows)
    {
      hide LineBits, RowOf, RowsOf, PadsOf, G3Bits, LastRow, Whole, OfWidth, Decoded, Follows, NextPhase;
      ghost var enc := is2D == o.is2D && Carries(o, p, n, rows, ref, rest, buf[off0..end]);
      var off := off0;
      ghost var done, left, was := [], rows, buf[..];
      ghost var from, q: nat, at: nat := ref, p, n;
      DecodedStart(buf[..], off0, rowbytes, s.lastx);
      while off < end
        invariant Valid() && off0 <= off <= end && Whole(end - off, rowbytes)
        invariant {s.curruns, s.refruns} == old({s.curruns, s.refruns})
        invariant enc ==> Carries(o, q, at, left, from, rest, was[off..end])
        invariant enc ==> rows == done + left && LastRow(left, from) == LastRow(rows, ref)
        invariant enc ==> Decoded(was, buf[..], off0, off, rowbytes, s.lastx, done)
        decreases end - off
      {
        WholeStep(end - off, rowbytes);
        ghost var row, after, before := [], rest, buf[..];
        if enc {
          row, after := NextLine(was, off, end, rowbytes, s.lastx, left, from, o, q, at, rest);
        }
        var more;
        if is2D {
          res, more := Line2D(buf, addr, off, o, q, at, row, from, after);
        } else {
          res, more := Line1D(buf, addr, off, o, at, row, after);
        }
        if !more {
          return;
        }
        if enc {
          DecodedStep(was, before, buf[..], off0, off, rowbytes, s.lastx, done, row);
          done, left, at := done + [row], left[1..], at + |LineBits(o, q, at, row, from)|;
          q, from := NextPhase(o, q), row;
        }
        off := off + rowbytes;
      }
      if enc {
        NoLinesLeft(was, off, rowbytes, s.lastx, left, from, o, q, at);
        assert done == rows;
        NothingBefore(rest);
      }
      res := Success;
    }

    /** `Fax3Decode1D` of `occ` bytes at `buf[off0]` */
    method Decode1D(buf: array<bv8>, addr: nat, off0: nat, occ: nat, ghost o: Options, ghost n: nat,
                    ghost rows: seq<Row>, ghost ref: Row, ghost rest: Bitstring) returns (res: Result)
      requires Valid() && off0 + occ <= buf.Length
      requires (buf as object) != s.curruns && (buf as object) != s.refruns
      modifies s, s.curruns, s.refruns, s.rd, buf
      ensures Valid() && {s.curruns, s.refruns} == old({s.curruns, s.refruns})
      ensures !Whole(occ, rowbytes) ==> res == Failure && buf[..] == old(buf[..])
      ensures Whole(occ, rowbytes) && !o.is2D && old(Carries(o, 0, n, rows, ref, rest, buf[off0..off0 + occ])) ==>
                && res == Success && s.eolCnt == 0 && Follows(s.rd.Ahead(), rest)
                && Decoded(old(buf[..]), buf[..], off0, off0 + occ, rowbytes, s.lastx, rows)
    {
      if !Whole(occ, rowbytes) {
        return Failure;
      }
      res := DecodeRows(false, buf, addr, off0, off0 + occ, o, 0, n, rows, ref, rest);
    }

    /** `Fax3Decode2D` of `occ` bytes at `buf[off0]` */
    method Decode2D(buf: array<bv8>, addr: nat, off0: nat, occ: nat, ghost o: Options, ghost p: nat, ghost n: nat,
                    ghost rows: seq<Row>, ghost ref: Row, ghost rest: Bitstring) returns (res: Result)
      requires Valid() && off0 + occ <= buf.Length
      requires (buf as object) != s.curruns && (buf as object) != s.refruns
      modifies s, s.curruns, s.refruns, s.rd, buf
      ensures Valid() && {s.curruns, s.refruns} == old({s.curruns, s.refruns})
      ensures !Whole(occ, rowbytes) ==> res == Failure && buf[..] == old(buf[..])
      ensures Whole(occ, rowbytes) && o.is2D && old(Carries(o, p, n, rows, ref, rest, buf[off0..off0 + occ])) ==>
                && res == Success && s.eolCnt == 0 && Follows(s.rd.Ahead(), rest)
                && s.Reference(LastRow(rows, ref))
                && Decoded(old(buf[..]), buf[..], off0, off0 + occ, rowbytes, s.lastx, rows)
    {
      if !Whole(occ, rowbytes) {
        return Failure;
      }
      res := DecodeRows(true, buf, addr, off0, off0 + occ, o, p, n, rows, ref, rest);
    }
  }

  lemma TagOf(o: Options, p: nat, row: Row, ref: Row, rest: Bitstring)
    requires |row| == |ref|
    ensures !o.is2D ==> AfterEol(o, p, row, ref, rest) == RowBits(true, row, ref) + rest
  {
    hide RowBits;
  }

  lemma TagAhead(w: nat, ahead: Bitstring, tag: bool, rest: Bitstring)
    requires w < Pow2(1) && 1 <= |ahead| && LsbBits(w, 1) == ahead[..1] && Follows(ahead, [tag] + rest)
    ensures tag == (w != 0) && Follows(ahead[1..], rest)
  {
    FollowsDrop(ahead, [tag], rest);
    assert Pow2(1) == 2 * Pow2(0);
    assert LsbBits(w, 1)[0] == (w % 2 == 1);
  }

  lemma NothingBefore(rest: Bitstring)
    ensures [] + rest == rest
  {
  }

  /** The next of the rows still to come. */
  lemma NextLine(was: seq<bv8>, off: nat, end: nat, rb: nat, w: nat, left: seq<Row>, from: Row,
                 o: Options, q: nat, at: nat, rest: Bitstring) returns (row: Row, after: Bitstring)
    requires 0 < rb && w <= 8 * rb && off + rb <= end <= |was| && |from| == w && OfWidth(left, w)
    requires |left| == |RowsOf(was[off..end], rb, w)| && (!o.is2D ==> q == 0)
    ensures |left| > 0 && row == left[0] && |row| == w && OfWidth(left[1..], w)
    ensures after == G3Bits(o, NextPhase(o, q), at + |LineBits(o, q, at, row, from)|, left[1..], row) + rest
    ensures G3Bits(o, q, at, left, from) + rest == LineBits(o, q, at, row, from) + after
    ensures !o.is2D ==> NextPhase(o, q) == 0 && LineBits(o, q, at, row, from) == LineBits(o, 0, at, row, row)
    ensures LastRow(left, from) == LastRow(left[1..], row)
    ensures |left[1..]| == |RowsOf(was[off + rb..end], rb, w)|
  {
    hide LineBits;
    var data := was[off..end];
    NextRow(data, 0, rb, w);
    assert data[0..] == data && data[rb..] == was[off + rb..end];
    row := left[0];
    var line := LineBits(o, q, at, row, from);
    after := G3Bits(o, NextPhase(o, q), at + |line|, left[1..], row) + rest;
    Concat(line, G3Bits(o, NextPhase(o, q), at + |line|, left[1..], row), rest);
    if !o.is2D {
      LineAnyReference(o, q, at, row, from, row);
    }
  }

  lemma NoLinesLeft(was: seq<bv8>, off: nat, rb: nat, w: nat, left: seq<Row>, from: Row, o: Options, q: nat, at: nat)
    requires 0 < rb && w <= 8 * rb && off <= |was| && |from| == w && OfWidth(left, w)
    requires |left| == |RowsOf(was[off..off], rb, w)|
    ensures left == [] && G3Bits(o, q, at, left, from) == [] && LastRow(left, from) == from
  {
    assert was[off..off] == [];
  }

  /** Encode a strip and end it. */
  method EncodeStrip(data: seq<bv8>, w: nat, is2D: bool, fillBits: bool, fine: bool, rawSize: nat,
                     addr: nat, raddr: nat)
    returns (bytes: seq<byte>, ghost o: Options, ghost ref: Row)
    requires w > 0 && rawSize > 0 && Whole(|data|, RowBytes(w))
    ensures o == Options(is2D, fillBits, if !is2D then 0 else if fine then 4 else 2) && |ref| == w
    ensures Follows(BytesBits(bytes), G3Bits(o, 0, 0, RowsOf(data, RowBytes(w), w), ref))
  {
    hide G3Bits, RowsOf, Whole, PhaseAfter, LastRow;
    var writer := new Writer(rawSize);
    var e := new Encoder(writer, w);
    var encoder := new Group3Encoder(e, is2D, fillBits, fine);
    o, ref := encoder.o, encoder.Reference();
    var ok := encoder.Encode(data, addr, raddr);
    writer.PostEncode();
    bytes := writer.file + writer.raw;
    assert writer.Written() == BytesBits(bytes);
  }

  /** Decode a strip into a buffer that holds `was`. */
  method DecodeStrip(bytes: seq<byte>, w: nat, is2D: bool, was: seq<bv8>, addr: nat,
                     ghost o: Options, ghost rows: seq<Row>, ghost ref: Row, ghost rest: Bitstring)
    returns (res: Result, out: seq<bv8>)
    requires w > 0 && Whole(|was|, RowBytes(w))
    ensures |out| == |was|
    ensures o.is2D == is2D && |ref| == w && OfWidth(rows, w) && |rows| == |RowsOf(was, RowBytes(w), w)|
            && Follows(BytesBits(bytes), G3Bits(o, 0, 0, rows, ref) + rest) ==>
              res == Success && RowsOf(out, RowBytes(w), w) == rows
  {
    hide LineBits, RowsOf, Whole, LastRow, Follows, G3Bits;
    var tables := BuildTables();
    var reader := new Reader(bytes);
    var state := new StripState(reader, tables, w);
    var decoder := new Group3Decoder(state);
    var buf := new bv8[|was|](i requires 0 <= i < |was| => was[i]);
    assert buf[0..|was|] == was;
    ghost var white := Stretch(w, WHITE);
    if |ref| == w && OfWidth(rows, w) { FirstReference(o, 0, rows, ref, white); }
    if is2D {
      res := decoder.Decode2D(buf, addr, 0, |was|, o, 0, 0, rows, white, rest);
    } else {
      res := decoder.Decode1D(buf, addr, 0, |was|, o, 0, rows, white, rest);
    }
    out := buf[..];
    assert out[0..|was|] == out;
  }

  /** The first row of a strip is coded on its own, so what the reference line was does not matter. */
  lemma FirstReference(o: Options, n: nat, rows: seq<Row>, ref: Row, ref': Row)
    requires |ref| == |ref'| && OfWidth(rows, |ref|)
    ensures G3Bits(o, 0, n, rows, ref) == G3Bits(o, 0, n, rows, ref')
  {
    hide LineBits;
    if rows != [] { LineAnyReference(o, 0, n, rows[0], ref, ref'); }
  }

  /** The decoder applied to what the encoder wrote returns the same pixels: for one- and two-dimensional
      coding, with and without fill bits, for both values of K, every width and every sequence of rows, and
      whatever the buffer held that is decoded into. */
  method RoundTrip(data: seq<bv8>, w: nat, is2D: bool, fillBits: bool, fine: bool, rawSize: nat, was: seq<bv8>,
                   addr: nat, raddr: nat)
    returns (res: Result, out: seq<bv8>)
    requires w > 0 && rawSize > 0 && Whole(|data|, RowBytes(w)) && |was| == |data|
    ensures res == Success && |out| == |data|
    ensures RowsOf(out, RowBytes(w), w) == RowsOf(data, RowBytes(w), w)
  {
    hide G3Bits, RowsOf, Whole;
    var bytes, o, ref := EncodeStrip(data, w, is2D, fillBits, fine, rawSize, addr, raddr);
    SameRowCount(data, was, RowBytes(w), w);
    ghost var rows := RowsOf(data, RowBytes(w), w);
    assert G3Bits(o, 0, 0, rows, ref) + [] == G3Bits(o, 0, 0, rows, ref);
    res, out := DecodeStrip(bytes, w, is2D, was, addr, o, rows, ref, []);
  }
}
