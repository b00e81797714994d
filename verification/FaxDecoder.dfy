/** What Group 3 and Group 4 decoding have in common: the decoder's state between rows, expanding one
    row into runs, painting it, and making it the reference line. */
module FaxDecoder {
  import opened Bits
  import opened BitReader
  import opened Pixels
  import opened FaxCoding
  import opened Changes
  import opened FillRuns
  import opened RowDecoder
  import opened FaxEncoder

  /** The pixels of one run. */
  lemma RunPixels(row: Row, j: nat)
    ensures Change(row, j) <= Change(row, j + 1)
    ensures row[Change(row, j)..Change(row, j + 1)] == Stretch(RunAt(row, j), Colour(j))
  {
    forall i | Change(row, j) <= i < Change(row, j + 1)
      ensures row[i] == Colour(j)
    {
      PixelInRun(row, j, i);
    }
  }

  /** The runs of a row paint that row, and none of them has to be cut. */
  lemma {:induction false} RunsPaintRow(r: seq<int>, n: nat, row: Row, j: nat)
    requires RunsOf(r, n, row) && j <= n
    ensures Change(row, j) <= Change(row, n)
    ensures Painted(r[j..n], Colour(j), |row| - Change(row, j)) == row[Change(row, j)..Change(row, n)]
    ensures Clipped(r[j..n], |row| - Change(row, j)) == r[j..n]
    decreases n - j
  {
    hide Painted, Clipped, Change, Stretch;
    if j == n {
      NoMoreRuns(Colour(j), |row| - Change(row, j));
    } else {
      RunsPaintRow(r, n, row, j + 1);
      RunPixels(row, j);
      assert r[j] == RunAt(row, j);
      OneMoreRun(r, n, row, j, Change(row, j), Change(row, j + 1), Change(row, n), Colour(j));
    }
  }

  lemma NoMoreRuns(c: bool, room: nat)
    ensures Painted([], c, room) == [] && Clipped([], room) == []
  {
  }

  lemma OneMoreRun(r: seq<int>, n: nat, row: Row, j: nat, p: nat, q: nat, e: nat, c: bool)
    requires j < n <= |r| && p <= q <= e <= |row| && r[j] == q - p
    requires row[p..q] == Stretch(q - p, c)
    requires Painted(r[j + 1..n], !c, |row| - q) == row[q..e]
    requires Clipped(r[j + 1..n], |row| - q) == r[j + 1..n]
    ensures Painted(r[j..n], c, |row| - p) == row[p..e]
    ensures Clipped(r[j..n], |row| - p) == r[j..n]
  {
    hide Painted, Clipped, Stretch;
    var tail := r[j + 1..n];
    assert r[j..n] == [r[j]] + tail;
    PaintedFirst(q - p, tail, c, |row| - p);
    assert |row| - p - (q - p) == |row| - q;
    assert row[p..e] == row[p..q] + row[q..e];
  }

  class StripState {
    const rd: Reader
    const tables: Tables
    const lastx: nat
    var curruns: array<int>
    var refruns: array<int>
    var eolCnt: nat
    var line: nat

    ghost predicate Valid()
      reads this, rd
    {
      && rd.Valid() && tables.Valid() && lastx > 0 && curruns != refruns
      && lastx + 3 <= curruns.Length && lastx + 3 <= refruns.Length
    }

    /** The reference line is `ref`. */
    ghost predicate Reference(ref: Row)
      reads this, refruns
    {
      |ref| == lastx && exists n: nat :: Describes(refruns[..], n, ref)
    }

    /** `Fax3SetupState` and `Fax3PreDecode`: room for the runs of two rows, and a white reference line. */
    constructor (rd: Reader, tables: Tables, lastx: nat)
      requires rd.Valid() && tables.Valid() && lastx > 0
      ensures Valid() && this.rd == rd && this.tables == tables && this.lastx == lastx
      ensures fresh(curruns) && fresh(refruns) && eolCnt == 0 && line == 0
      ensures Reference(Stretch(lastx, WHITE))
    {
      var nruns := (lastx + 31) / 32 * 32 * 2;
      this.rd, this.tables, this.lastx := rd, tables, lastx;
      curruns, refruns := new int[nruns](_ => 0), new int[nruns](_ => 0);
      eolCnt, line := 0, 0;
      new;
      refruns[0], refruns[1] := lastx, 0;
      WhiteReference(refruns[..], lastx);
    }

    /** Expand the next row into `curruns`; `rs` are the expander's variables. */
    method ExpandRow(is1D: bool, ghost row: Row, ghost ref: Row, ghost rest: Bitstring)
      returns (st: Status, rs: RowState)
      requires Valid()
      modifies this`eolCnt, curruns, rd
      ensures Valid() && fresh(rs) && rs.Valid() && rs.thisrun == curruns && rs.rd == rd && rs.lastx == lastx
      ensures (is1D || old(Reference(ref))) && |row| == |ref| == lastx
              && Follows(old(rd.Ahead()), RowBits(is1D, row, ref) + rest) ==>
                st == Going && rs.Decoded(row) && Follows(rd.Ahead(), rest) && eolCnt == old(eolCnt)
    {
      ghost var n: nat := if exists n: nat :: Describes(refruns[..], n, ref) then
                            var n: nat :| Describes(refruns[..], n, ref); n else 0;
      rs := new RowState(rd, tables, lastx, curruns, refruns, eolCnt);
      if is1D {
        st := rs.Expand1D(row, rest);
      } else {
        st := rs.Expand2D(row, ref, n, rest);
      }
      eolCnt := rs.eolCnt;
    }

    /** Paint the expanded row into the user's buffer at byte `off`. */
    method PaintRow(rs: RowState, buf: array<bv8>, addr: nat, off: nat, ghost row: Row) returns (ok: bool)
      requires Valid() && rs.Valid() && rs.thisrun == curruns && rs.lastx == lastx
      requires (buf as object) != curruns && 8 * off + lastx <= 8 * buf.Length
      modifies buf, curruns
      ensures Valid() && rs.Valid()
      ensures old(rs.Decoded(row)) ==>
                ok && rs.Decoded(row) && Overlaid(old(buf[..]), buf[..], 8 * off, row)
      ensures !ok ==> buf[..] == old(buf[..])
    {
      hide Overlaid, RunsOf, Painted;
      var count := rs.pa;
      if count + count % 2 > curruns.Length {
        return false;
      }
      ghost var enc := rs.Decoded(row);
      ghost var runs := curruns[..];
      if enc {
        RunsPaintRow(runs, count, row, 0);
        assert runs[0..count] == runs[..count] && row[0..|row|] == row;
      }
      var x := FillRow(buf, addr, off, curruns, count, lastx);
      if enc {
        assert curruns[..count] == runs[..count];
        SamePrefix(curruns[..], runs, count, row);
      }
      ok := true;
    }

    /** Append the imaginary change and make the row the reference line. */
    method SwapRuns(rs: RowState, ghost row: Row) returns (ok: bool)
      requires Valid() && rs.Valid() && rs.thisrun == curruns && rs.lastx == lastx
      modifies this`curruns, this`refruns, rs, curruns
      ensures Valid() && {curruns, refruns} == old({curruns, refruns})
      ensures old(rs.Decoded(row)) ==> ok && Reference(row)
    {
      ghost var enc := rs.Decoded(row);
      ghost var n := rs.pa;
      ghost var runs := curruns[..];
      ok := rs.SetValue(0);
      if enc {
        LastRun(runs, n, row);
        assert Describes(curruns[..], n + 1, row);
      }
      curruns, refruns := refruns, curruns;
      if enc {
        assert Describes(refruns[..], n + 1, row);
      }
    }

    /** Paint an expanded row and make it the reference line. */
    method FinishRow(rs: RowState, buf: array<bv8>, addr: nat, off: nat, ghost row: Row) returns (ok: bool)
      requires Valid() && rs.Valid() && rs.thisrun == curruns && rs.lastx == lastx
      requires (buf as object) != curruns && 8 * off + lastx <= 8 * buf.Length
      modifies this`curruns, this`refruns, this`line, rs, curruns, buf
      ensures Valid() && {curruns, refruns} == old({curruns, refruns})
      ensures old(rs.Decoded(row)) ==> ok && Reference(row) && Overlaid(old(buf[..]), buf[..], 8 * off, row)
    {
      ok := PaintRow(rs, buf, addr, off, row);
      if ok {
        line := line + 1;
        ok := SwapRuns(rs, row);
      }
    }
  }

  /** The coding of one row. */
  function RowBits(is1D: bool, row: Row, ref: Row): Bitstring
    requires |row| == |ref|
  {
    if is1D then (if row == [] then [] else Bits1D(row, 0, WHITE)) else Bits2D(row, ref, ROW_START)
  }

  lemma SamePrefix(r: seq<int>, r': seq<int>, n: nat, row: Row)
    requires n <= |r| && n <= |r'| && r[..n] == r'[..n] && RunsOf(r', n, row)
    ensures RunsOf(r, n, row)
  {
    forall j | 0 <= j < n
      ensures r[j] == RunAt(row, j)
    {
      assert r[..n][j] == r'[..n][j];
    }
  }

  lemma LastRun(r: seq<int>, n: nat, row: Row)
    requires RunsOf(r, n, row) && n < |r| && Change(row, n) == |row|
    ensures Describes(r[n := 0], n + 1, row)
  {
    RunsPush(r, n, row, 0);
  }

  lemma WhiteReference(r: seq<int>, w: nat)
    requires |r| >= 2 && r[0] == w && r[1] == 0
    ensures Describes(r, 2, Stretch(w, WHITE))
  {
    var row := Stretch(w, WHITE);
    assert Change(row, 1) == FirstOf(row, 0, BLACK) == w;
  }
}
