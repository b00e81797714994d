/** The line expanders `EXPAND1D` and `EXPAND2D` and the macros they are made of.

    The expanders are macros that share the local variables of the function that decodes a strip; here
    those variables are the fields of an object.  The methods are total: they follow the original on
    any data, and report running off the end of a run array, which the original does not check.
    What they promise is about data that carries an encoded row, given by ghost parameters.
 */
module RowDecoder {
  import opened Bits
  import opened BitReader
  import opened Pixels
  import opened DecodeTables
  import opened TableBuilder
  import opened FaxCoding
  import opened Changes
  import opened FillRuns

  /** How a piece of a row's expansion ended: normally; at an end of line code; at a code that does not
      belong there; at the end of the data; or outside a run array. */
  datatype Status = Going | Eol | Bad | Eof | Overrun

  datatype Tables = Tables(main: seq<TabEnt>, white: seq<TabEnt>, black: seq<TabEnt>) {
    ghost predicate Valid() {
      IsTable(main, Main) && IsTable(white, White) && IsTable(black, Black)
    }

    function Of(kind: Kind): seq<TabEnt> {
      match kind case Main => main case White => white case Black => black
    }
  }

  class RowState {
    const rd: Reader
    const tables: Tables
    const lastx: nat
    const thisrun: array<int>
    const refruns: array<int>
    var a0: int
    var runLength: int
    var pa: nat
    var pb: nat
    var b1: int
    var eolCnt: nat

    ghost predicate Valid()
      reads this, rd
    {
      && rd.Valid() && tables.Valid() && thisrun != refruns
      && pa <= thisrun.Length && pb <= refruns.Length
    }

    constructor (rd: Reader, tables: Tables, lastx: nat, thisrun: array<int>, refruns: array<int>, eolCnt: nat)
      requires rd.Valid() && tables.Valid() && thisrun != refruns
      ensures Valid()
      ensures this.rd == rd && this.tables == tables && this.lastx == lastx
      ensures this.thisrun == thisrun && this.refruns == refruns && this.eolCnt == eolCnt
      ensures a0 == 0 && runLength == 0 && pa == 0 && pb == 0
    {
      this.rd, this.tables, this.lastx := rd, tables, lastx;
      this.thisrun, this.refruns, this.eolCnt := thisrun, refruns, eolCnt;
      a0, runLength, pa, pb, b1 := 0, 0, 0, 0, 0;
    }

    // ---------- LOOKUP8, LOOKUP16 ----------

    /** Look up the next code and skip it.  If the data carries code `i` of the table and then `rest`,
        the code's entry is found and `rest` is left. */
    method Lookup(kind: Kind, ghost i: nat, ghost rest: Bitstring) returns (eof: bool, ent: TabEnt)
      requires Valid() && i < Rows(kind)
      modifies rd
      ensures Valid()
      ensures Follows(old(rd.Ahead()), CodeBits(CodeRow(kind, i)) + rest) ==>
                !eof && ent == RowEntry(kind, i) && Follows(rd.Ahead(), rest)
      ensures !eof && ent.state != S_Null && ent.state != S_EOL ==> Ones(rd.Ahead()) < Ones(old(rd.Ahead()))
      ensures Ones(rd.Ahead()) <= Ones(old(rd.Ahead()))
    {
      hide Follows, Ones, CodeBits, CodeRow, RowEntry, Pow2, LsbBits;
      ghost var before := rd.Ahead();
      if kind == Main {
        eof := rd.NeedBits8(Window(kind));
      } else {
        eof := rd.NeedBits16(Window(kind));
      }
      NoCodeAhead(kind, i, rest);
      if eof {
        ent := NULL_ENTRY;
        return;
      }
      var w := rd.GetBits(Window(kind));
      rd.GetBitsAhead(Window(kind));
      ghost var ahead := rd.Ahead();
      ent := tables.Of(kind)[w];
      LookupProgress(kind, w);
      rd.ClrBits(ent.width);
      AfterLookup(kind, w, before, ahead, i, rest);
    }

    // ---------- SETVALUE ----------

    method SetValue(x: int) returns (ok: bool)
      requires Valid()
      modifies this`a0, this`runLength, this`pa, thisrun
      ensures Valid() && ok == (old(pa) < thisrun.Length)
      ensures ok ==> pa == old(pa) + 1 && a0 == old(a0) + x && runLength == 0
      ensures ok ==> thisrun[..] == old(thisrun[..])[old(pa) := old(runLength) + x]
      ensures !ok ==> pa == old(pa) && a0 == old(a0) && runLength == old(runLength) && thisrun[..] == old(thisrun[..])
    {
      if pa >= thisrun.Length {
        return false;
      }
      thisrun[pa] := runLength + x;
      pa := pa + 1;
      a0 := a0 + x;
      runLength := 0;
      return true;
    }

    // ---------- one run of either colour ----------

    /** Look up the next code of a run, of which `n` pixels are left to be told. */
    method LookupRun(c: bool, ghost n: nat, ghost rest: Bitstring) returns (eof: bool, ent: TabEnt)
      requires Valid()
      modifies rd
      ensures Valid() && Ones(rd.Ahead()) <= Ones(old(rd.Ahead()))
      ensures !eof && ent.state != S_Null && ent.state != S_EOL ==> Ones(rd.Ahead()) < Ones(old(rd.Ahead()))
      ensures Follows(old(rd.Ahead()), SpanBits(c, n) + rest) ==>
                !eof && ent.param == (if n < 64 then n else n - AfterMakeUp(n))
      ensures Follows(old(rd.Ahead()), SpanBits(c, n) + rest) && n < 64 ==>
                ent.state == TermState(c) && Follows(rd.Ahead(), rest)
      ensures Follows(old(rd.Ahead()), SpanBits(c, n) + rest) && n >= 64 ==>
                IsMakeUp(c, ent.state) && Follows(rd.Ahead(), SpanBits(c, AfterMakeUp(n)) + rest)
    {
      RunRow(c, FirstCode(n));
      SpanSplit(c, n, rest);
      eof, ent := Lookup(RunKind(c), FirstCode(n), if n < 64 then rest else SpanBits(c, AfterMakeUp(n)) + rest);
    }

    /** Read make-up codes and a terminating code. */
    method ReadRun(c: bool, ghost n: nat, ghost rest: Bitstring) returns (st: Status)
      requires Valid()
      modifies this`a0, this`runLength, this`pa, thisrun, rd
      ensures Valid() && Ones(rd.Ahead()) <= Ones(old(rd.Ahead()))
      ensures st == Going ==> pa == old(pa) + 1 && Ones(rd.Ahead()) < Ones(old(rd.Ahead()))
      ensures Follows(old(rd.Ahead()), SpanBits(c, n) + rest) && old(pa) < thisrun.Length ==>
                && st == Going && Follows(rd.Ahead(), rest)
                && pa == old(pa) + 1 && a0 == old(a0) + n && runLength == 0
                && thisrun[..] == old(thisrun[..])[old(pa) := old(runLength) + n]
    {
      hide SpanBits, TableAt, Follows;
      ghost var enc := Follows(rd.Ahead(), SpanBits(c, n) + rest) && pa < thisrun.Length;
      ghost var left: nat := n;
      while true
        invariant Valid() && pa == old(pa) && thisrun[..] == old(thisrun[..])
        invariant Ones(rd.Ahead()) <= Ones(old(rd.Ahead()))
        invariant enc ==> left <= n && a0 == old(a0) + n - left && runLength == old(runLength) + n - left
        invariant enc ==> Follows(rd.Ahead(), SpanBits(c, left) + rest)
        decreases Ones(rd.Ahead())
      {
        var eof, ent := LookupRun(c, left, rest);
        if eof {
          return Eof;
        }
        if ent.state == TermState(c) {
          var ok := SetValue(ent.param);
          return if ok then Going else Overrun;
        } else if IsMakeUp(c, ent.state) {
          a0 := a0 + ent.param;
          runLength := runLength + ent.param;
          left := AfterMakeUp(left);
        } else {
          return if ent.state == S_EOL then Eol else Bad;
        }
      }
    }

    // ---------- two-dimensional coding ----------

    /** The array of the reference line describes `ref` as far as its entry `n - 1`, and both arrays have
        room for every run of a row. */
    ghost predicate Reference(ref: Row, n: nat)
      reads refruns
    {
      && |ref| == lastx && Describes(refruns[..], n, ref)
      && lastx + 3 <= refruns.Length && lastx + 3 <= thisrun.Length
    }

    /** The decoder is in step with an encoder that stands at `s`, and has stored the runs up to there. */
    ghost predicate At(row: Row, ref: Row, s: Pos)
      reads this, thisrun
    {
      && |row| == lastx && s.a0 == a0 && InStep(row, ref, s, pa, runLength, pb, b1)
      && RunsOf(thisrun[..], pa, row)
    }

    /** Bring b1 beyond a0. */
    method CheckB1(ghost row: Row, ghost ref: Row, ghost n: nat, ghost s: Pos) returns (ok: bool)
      requires Valid()
      modifies this`b1, this`pb
      ensures Valid()
      ensures old(At(row, ref, s) && b1 == Change(ref, pb)) && Reference(ref, n) ==>
                && ok && At(row, ref, s)
                && (s.a0 < lastx ==> b1 == B1(ref, s) == Change(ref, pb) && B2(ref, s) == Change(ref, pb + 1))
    {
      hide Change, A1, B1, B2, FirstOf, RunsOf, IsTable;
      ghost var enc := At(row, ref, s) && b1 == Change(ref, pb) && Reference(ref, n);
      if pa != 0 {
        while b1 <= a0 && b1 < lastx
          invariant Valid() && (enc ==> At(row, ref, s) && b1 == Change(ref, pb))
          decreases refruns.Length - pb
        {
          if enc {
            DescribedBelow(refruns[..], n, ref, pb);
            InStepAdvance(row, ref, s, pa, runLength, pb, b1);
          }
          if pb + 2 > refruns.Length {
            return false;
          }
          b1 := b1 + refruns[pb] + refruns[pb + 1];
          pb := pb + 2;
        }
      }
      if enc && s.a0 < lastx {
        InStepChecked(row, ref, s, pa, runLength, pb, b1);
      }
      return true;
    }

    /** A pass mode code. */
    method PassMode(ghost row: Row, ghost ref: Row, ghost n: nat, ghost s: Pos) returns (ok: bool)
      requires Valid()
      modifies this`b1, this`pb, this`a0, this`runLength
      ensures Valid()
      ensures old(At(row, ref, s)) && Reference(ref, n) && s.a0 < lastx && ModeOf(row, ref, s) == Pass ==>
                ok && At(row, ref, Next(row, ref, s))
    {
      hide Change, A1, B1, B2, FirstOf, RunsOf, IsTable, ModeOf, Next;
      ghost var enc := At(row, ref, s) && Reference(ref, n) && s.a0 < lastx && ModeOf(row, ref, s) == Pass;
      ok := CheckB1(row, ref, n, s);
      if enc {
        InStepPass(row, ref, s, pa, runLength, pb, b1);
        ChangeMonotone(ref, pb, pb + 1);
        DescribedBelow(refruns[..], n, ref, pb);
      }
      if !ok || pb + 2 > refruns.Length {
        return false;
      }
      b1 := b1 + refruns[pb];
      runLength := runLength + b1 - a0;
      a0 := b1;
      b1 := b1 + refruns[pb + 1];
      pb := pb + 2;
    }

    /** A vertical mode code: the run ends `d` pixels to the left of b1, or `-d` to its right. */
    method VerticalMode(d: int, ghost row: Row, ghost ref: Row, ghost n: nat, ghost s: Pos) returns (st: Status)
      requires Valid()
      modifies this`b1, this`pb, this`a0, this`runLength, this`pa, thisrun
      ensures Valid()
      ensures old(At(row, ref, s)) && Reference(ref, n) && s.a0 < lastx && ModeOf(row, ref, s) == Vertical(d) ==>
                st == Going && At(row, ref, Next(row, ref, s))
    {
      hide Change, A1, B1, B2, FirstOf, RunsOf, IsTable, ModeOf, Next;
      ghost var enc := At(row, ref, s) && Reference(ref, n) && s.a0 < lastx && ModeOf(row, ref, s) == Vertical(d);
      var ok := CheckB1(row, ref, n, s);
      if !ok {
        return Overrun;
      }
      if enc {
        AfterVertical(row, ref, refruns[..], n, s, pa, runLength, pb, b1);
        RunsPush(thisrun[..], pa, row, runLength + b1 - a0 - d);
      }
      if d > 0 && b1 <= a0 + d && (b1 < a0 + d || pa != 0) {
        return Bad;
      }
      ok := SetValue(b1 - a0 - d);
      if !ok || (d > 0 && pb == 0) || (d <= 0 && pb >= refruns.Length) {
        return Overrun;
      }
      if d > 0 {
        pb := pb - 1;
        b1 := b1 - refruns[pb];
      } else {
        b1 := b1 + refruns[pb];
        pb := pb + 1;
      }
      return Going;
    }

    /** A horizontal mode code: two runs, the first of the colour due next. */
    method HorizontalMode(ghost row: Row, ghost ref: Row, ghost n: nat, ghost s: Pos, ghost rest: Bitstring)
      returns (st: Status)
      requires Valid()
      modifies this`b1, this`pb, this`a0, this`runLength, this`pa, thisrun, rd
      ensures Valid() && Ones(rd.Ahead()) <= Ones(old(rd.Ahead()))
      ensures old(At(row, ref, s)) && Reference(ref, n) && s.a0 < lastx && ModeOf(row, ref, s) == Horizontal
              && Follows(old(rd.Ahead()), HorizontalRuns(row, s) + rest) ==>
                st == Going && At(row, ref, Next(row, ref, s)) && Follows(rd.Ahead(), rest)
    {
      hide Change, A1, A2, B1, B2, FirstOf, RunsOf, IsTable, ModeOf, Next, SpanBits, RunAt, Follows, Ones, PosOk;
      ghost var enc := At(row, ref, s) && Reference(ref, n) && s.a0 < lastx && ModeOf(row, ref, s) == Horizontal
                       && Follows(rd.Ahead(), HorizontalRuns(row, s) + rest);
      ghost var n1, n2 := 0, 0;
      if enc {
        AfterHorizontal(row, ref, s, pa, runLength, pb, b1);
        n1, n2 := A1(row, s) - s.a0, A2(row, s) - A1(row, s);
        RunsPush(thisrun[..], pa, row, runLength + n1);
        RunsPush(thisrun[..][pa := runLength + n1], pa + 1, row, n2);
        assert HorizontalRuns(row, s) + rest == SpanBits(s.c, n1) + (SpanBits(!s.c, n2) + rest);
      }
      var c := pa % 2 == 1;
      st := ReadRun(c, n1, SpanBits(!c, n2) + rest);
      if st != Going {
        return if st == Eol then Bad else st;
      }
      st := ReadRun(!c, n2, rest);
      if st != Going {
        return if st == Eol then Bad else st;
      }
      ghost var t := if enc then Next(row, ref, s) else s;
      var ok := CheckB1(row, ref, n, t);
      return if ok then Going else Overrun;
    }

    // ---------- whole rows ----------

    /** What has been stored, and what has been read of the current run, add up to a0. */
    ghost predicate AddUp()
      requires Valid()
      reads this, thisrun, rd
    {
      Total(thisrun[..pa]) + runLength == a0
    }

    /** Make the runs add up to the width of the row, if they do not yet: whatever the data, the painter
        gets to the end of the row then.  A complete row is left as it is. */
    method CleanupRuns() returns (ok: bool)
      requires Valid()
      modifies this`a0, this`runLength, this`pa, thisrun
      ensures Valid()
      ensures old(runLength) == 0 && old(a0) == lastx ==>
                ok && a0 == old(a0) && runLength == 0 && pa == old(pa) && thisrun[..] == old(thisrun[..])
      ensures ok && old(AddUp()) ==> EndOf(thisrun[..pa], lastx) == lastx
    {
      hide EndOf, Total, IsTable;
      ok := true;
      if runLength != 0 {
        ok := Store(0);
        if !ok {
          return;
        }
      }
      if a0 != lastx {
        while a0 > lastx && pa > 0
          invariant Valid() && runLength == 0
          invariant old(AddUp()) ==> Total(thisrun[..pa]) == a0
          decreases pa
        {
          TotalLast(thisrun[..pa]);
          assert thisrun[..pa][..pa - 1] == thisrun[..pa - 1];
          pa := pa - 1;
          a0 := a0 - thisrun[pa];
        }
        if a0 < lastx {
          ok := FillUp();
        } else if a0 > lastx {
          NothingStored(thisrun[..pa]);
          ok := SetValue(lastx);
          if ok {
            ok := SetValue(0);
          }
        } else {
          EndReached(thisrun[..pa], lastx);
        }
      } else {
        EndReached(thisrun[..pa], lastx);
      }
    }

    /** The rest of the row is a white run. */
    method FillUp() returns (ok: bool)
      requires Valid() && a0 < lastx && runLength == 0
      modifies this`a0, this`runLength, this`pa, thisrun
      ensures Valid()
      ensures ok && old(AddUp()) ==> EndOf(thisrun[..pa], lastx) == lastx
    {
      hide EndOf, Total, IsTable;
      ghost var was := thisrun[..pa];
      if a0 < 0 {
        a0 := 0;
      }
      ghost var from := a0;
      if pa % 2 == 1 {
        ok := Store(0);
        if !ok {
          return;
        }
      }
      ghost var front := thisrun[..pa];
      ok := Store(lastx - a0);
      if ok { FilledUp(was, front, from, lastx); }
    }

    /** `SETVALUE`, seen as appending to the runs. */
    method Store(x: int) returns (ok: bool)
      requires Valid()
      modifies this`a0, this`runLength, this`pa, thisrun
      ensures Valid() && ok == (old(pa) < thisrun.Length)
      ensures ok ==> pa == old(pa) + 1 && a0 == old(a0) + x && runLength == 0
      ensures ok ==> thisrun[..pa] == old(thisrun[..pa]) + [old(runLength) + x]
      ensures ok ==> Total(thisrun[..pa]) == Total(old(thisrun[..pa])) + old(runLength) + x
    {
      TotalPush(thisrun[..pa], runLength + x);
      ok := SetValue(x);
      assert ok ==> thisrun[..pa] == old(thisrun[..pa]) + [old(runLength) + x];
    }

    /** The row in `thisrun` is `row`: its first `pa` entries are all the runs, and there is room for
        the imaginary change. */
    ghost predicate Decoded(row: Row)
      reads this, thisrun
    {
      && a0 == lastx == |row| && runLength == 0 && pa < thisrun.Length
      && RunsOf(thisrun[..], pa, row) && Change(row, pa) == |row|
    }

    /** One mode code. */
    method ExpandMode(ghost row: Row, ghost ref: Row, ghost n: nat, ghost s: Pos, ghost rest: Bitstring)
      returns (st: Status)
      requires Valid()
      modifies this, thisrun, rd
      ensures Valid() && Ones(rd.Ahead()) <= Ones(old(rd.Ahead()))
      ensures st == Going ==> Ones(rd.Ahead()) < Ones(old(rd.Ahead()))
      ensures old(At(row, ref, s)) && Reference(ref, n) && s.a0 < lastx
              && Follows(old(rd.Ahead()), ModeBits(row, ref, s) + rest) ==>
                st == Going && At(row, ref, Next(row, ref, s)) && Follows(rd.Ahead(), rest) && eolCnt == old(eolCnt)
    {
      hide Change, A1, A2, B1, B2, FirstOf, RunsOf, IsTable, ModeOf;
      hide Next, SpanBits, HorizontalRuns, TableAt, Ones, Follows, PosOk;
      ghost var enc := At(row, ref, s) && Reference(ref, n) && s.a0 < lastx
                       && Follows(rd.Ahead(), ModeBits(row, ref, s) + rest);
      ghost var i, after := 0, rest;
      if enc {
        i := ModeIndex(ModeOf(row, ref, s));
        ModeSplit(row, ref, s, rest);
        after := if ModeOf(row, ref, s) == Horizontal then HorizontalRuns(row, s) + rest else rest;
      }
      var eof, ent := Lookup(Main, i, after);
      if eof {
        return Eof;
      }
      match ent.state
      case S_Pass =>
        var ok := PassMode(row, ref, n, s);
        return if ok then Going else Overrun;
      case S_Horiz =>
        st := HorizontalMode(row, ref, n, s, rest);
      case S_V0 =>
        st := VerticalMode(0, row, ref, n, s);
      case S_VR =>
        var right: int := ent.param;
        st := VerticalMode(-right, row, ref, n, s);
      case S_VL =>
        st := VerticalMode(ent.param, row, ref, n, s);
      case S_Ext =>
        st := StoreRest();
      case S_EOL =>
        st := EndOfLine2D();
      case _ =>
        return Bad;
    }

    /** Seven zeros where a mode code should be: end of the block. */
    method EndOfLine2D() returns (st: Status)
      requires Valid()
      modifies this`pa, this`eolCnt, thisrun, rd
      ensures Valid() && st != Going && Ones(rd.Ahead()) <= Ones(old(rd.Ahead()))
    {
      st := StoreRest();
      if st != Overrun {
        ghost var before := rd.Ahead();
        var eof := rd.NeedBits8(4);
        if eof {
          return Eof;
        }
        OnesPadded(before, rd.Ahead());
        OnesDrop(rd.Ahead(), 4);
        rd.ClrBits(4);
        eolCnt := 1;
      }
    }

    /** `*pa++ = lastx - a0` */
    method StoreRest() returns (st: Status)
      requires Valid()
      modifies this`pa, thisrun
      ensures Valid() && (st == Bad || st == Overrun)
    {
      if pa >= thisrun.Length {
        return Overrun;
      }
      thisrun[pa] := lastx - a0;
      pa := pa + 1;
      return Bad;
    }

    /** `EXPAND2D`: a row coded with respect to the reference line. */
    method Expand2D(ghost row: Row, ghost ref: Row, ghost n: nat, ghost rest: Bitstring) returns (st: Status)
      requires Valid() && a0 == 0 && runLength == 0 && pa == 0
      modifies this, thisrun, rd
      ensures Valid()
      ensures |row| == lastx && Reference(ref, n) && Follows(old(rd.Ahead()), Bits2D(row, ref, ROW_START) + rest) ==>
                st == Going && Decoded(row) && Follows(rd.Ahead(), rest) && eolCnt == old(eolCnt)
    {
      hide Change, A1, A2, B1, B2, FirstOf, RunsOf, IsTable, ModeOf, Next, ModeBits, TableAt;
      ghost var enc := |row| == lastx && Reference(ref, n)
                       && Follows(rd.Ahead(), Bits2D(row, ref, ROW_START) + rest);
      if refruns.Length == 0 {
        return Overrun;
      }
      b1, pb := refruns[0], 1;
      ghost var s := ROW_START;
      if enc { StartOfRow(row, ref, refruns[..], n, thisrun[..]); }
      while a0 < lastx
        invariant Valid() && eolCnt >= 0
        invariant enc ==> At(row, ref, s) && Follows(rd.Ahead(), Bits2D(row, ref, s) + rest) && eolCnt == old(eolCnt)
        decreases Ones(rd.Ahead())
      {
        ghost var after := rest;
        if enc {
          RestOfRow(row, ref, s, rest);
          after := Bits2D(row, ref, Next(row, ref, s)) + rest;
        }
        st := ExpandMode(row, ref, n, s, after);
        if enc { s := Next(row, ref, s); }
        if st == Overrun {
          return;
        }
        if st != Going {
          var ok := CleanupRuns();
          return if !ok then Overrun else if st == Eof then Eof else Going;
        }
      }
      if enc { EndOfRow(row, ref, s, pa, runLength, pb, b1, rest); }
      st := FinishRow2D();
    }

    /** The end of `EXPAND2D`, once a0 is at the end of the row: after a pass mode code a final one bit is
        expected.  Whatever comes, the painter gets to the end of the row then. */
    method FinishRow2D() returns (st: Status)
      requires Valid()
      modifies this`a0, this`runLength, this`pa, thisrun, rd
      ensures Valid()
      ensures old(runLength) == 0 && old(a0) == lastx ==>
                && st == Going && a0 == old(a0) && runLength == 0 && pa == old(pa)
                && thisrun[..] == old(thisrun[..])
      ensures rd.Ahead() == if old(Unfinished() && rd.Ahead() != [] && rd.Ahead()[0]) then old(rd.Ahead())[1..]
                            else old(rd.Ahead())
      ensures st == Eof <==> old(Unfinished()) && old(rd.Ahead()) == [] && st != Overrun
      ensures st != Overrun && old(AddUp()) ==> EndOf(thisrun[..pa], lastx) == lastx
    {
      hide Total, EndOf, IsTable;
      var ok := true;
      if runLength != 0 {
        var good := true;
        if runLength + a0 < lastx {
          ghost var before := rd.Ahead();
          var eof := rd.NeedBits8(1);
          if eof {
            ok := CleanupRuns();
            return if ok then Eof else Overrun;
          }
          assert rd.Ahead() == before;
          NextBit();
          if rd.GetBits(1) == 0 {
            good := false;
          } else {
            rd.ClrBits(1);
          }
        }
        if good {
          ok := Store(0);
        }
      }
      if ok {
        ok := CleanupRuns();
      }
      return if ok then Going else Overrun;
    }

    /** A final one bit is expected. */
    predicate Unfinished()
      reads this
    {
      runLength != 0 && runLength + a0 < lastx
    }

    lemma NextBit()
      requires rd.Valid() && rd.avail >= 1
      ensures rd.Ahead() != [] && (rd.GetBits(1) != 0 <==> rd.Ahead()[0])
    {
      rd.GetBitsAhead(1);
      OneBit(rd.GetBits(1));
    }

    /** The data carries the rest of `row`, coded on its own, from a0 on; `pa` runs are stored. */
    ghost predicate Within1D(row: Row, rest: Bitstring)
      requires rd.Valid()
      reads this, thisrun, rd
    {
      && |row| == lastx && lastx + 3 <= thisrun.Length
      && runLength == 0 && a0 == Change(row, pa) < lastx && RunsOf(thisrun[..], pa, row)
      && Follows(rd.Ahead(), Bits1D(row, Change(row, pa), Colour(pa)) + rest)
    }

    lemma Begin1D(row: Row, rest: Bitstring)
      requires Valid() && a0 == 0 && runLength == 0 && pa == 0
      requires |row| == lastx > 0 && lastx + 3 <= thisrun.Length
      requires Follows(rd.Ahead(), Bits1D(row, 0, WHITE) + rest)
      ensures Within1D(row, rest)
    {
      hide FirstOf, IsTable, Bits1D;
      assert Colour(0) == WHITE;
    }

    /** One run of `EXPAND1D`. */
    method Expand1DRun(ghost row: Row, ghost rest: Bitstring) returns (st: Status)
      requires Valid()
      modifies this, thisrun, rd
      ensures Valid()
      ensures st == Going ==> pa == old(pa) + 1 && Ones(rd.Ahead()) < Ones(old(rd.Ahead()))
      ensures old(Within1D(row, rest)) ==>
                && st == Going && eolCnt == old(eolCnt)
                && (old(pa) > 0 ==> thisrun[old(pa)] > 0)
                && (if a0 < lastx then Within1D(row, rest) else Decoded(row) && Follows(rd.Ahead(), rest))
    {
      hide FirstOf, RunsOf, IsTable, TableAt, SpanBits, Change, Bits1D, RunAt;
      ghost var enc := Within1D(row, rest);
      ghost var n, after := 0, rest;
      if enc {
        Run1D(row, pa, rest);
        n := RunAt(row, pa);
        after := (if Change(row, pa + 1) == |row| then [] else Bits1D(row, Change(row, pa + 1), Colour(pa + 1))) + rest;
        RunsPush(thisrun[..], pa, row, n);
      }
      st := ReadRun(pa % 2 == 1, n, after);
      if st == Eol {
        eolCnt := 1;
      }
    }

    /** `EXPAND1D`: a row coded on its own. */
    method Expand1D(ghost row: Row, ghost rest: Bitstring) returns (st: Status)
      requires Valid() && a0 == 0 && runLength == 0 && pa == 0
      modifies this, thisrun, rd
      ensures Valid()
      ensures |row| == lastx > 0 && lastx + 3 <= thisrun.Length
              && Follows(old(rd.Ahead()), Bits1D(row, 0, WHITE) + rest) ==>
                st == Going && Decoded(row) && Follows(rd.Ahead(), rest) && eolCnt == old(eolCnt)
    {
      ghost var enc := |row| == lastx > 0 && lastx + 3 <= thisrun.Length
                       && Follows(rd.Ahead(), Bits1D(row, 0, WHITE) + rest);
      if enc { Begin1D(row, rest); }
      hide FirstOf, IsTable, TableAt, SpanBits, Bits1D, Within1D, RunsOf, Change;
      st := Expand1DRuns(row, rest);
      if st == Overrun {
        return;
      }
      var ok := CleanupRuns();
      st := if !ok then Overrun else if st == Eof then Eof else Going;
    }

    /** The loop of `EXPAND1D`: white and black runs in turn.  A pair of empty runs is dropped. */
    method Expand1DRuns(ghost row: Row, ghost rest: Bitstring) returns (st: Status)
      requires Valid() && pa % 2 == 0
      modifies this, thisrun, rd
      ensures Valid()
      ensures old(Within1D(row, rest)) ==>
                st == Going && Decoded(row) && Follows(rd.Ahead(), rest) && eolCnt == old(eolCnt)
    {
      hide FirstOf, IsTable, TableAt, SpanBits, Bits1D, Within1D, Decoded;
      hide RunsOf, Change, Follows, Ones, LsbBits, BytesBits;
      ghost var enc := Within1D(row, rest);
      while true
        invariant Valid() && pa % 2 == 0
        invariant enc ==> Within1D(row, rest) && eolCnt == old(eolCnt)
        decreases Ones(rd.Ahead())
      {
        st := Expand1DRun(row, rest);
        if st != Going || a0 >= lastx {
          return;
        }
        st := Expand1DRun(row, rest);
        if st != Going || a0 >= lastx {
          return;
        }
        if thisrun[pa - 1] == 0 && thisrun[pa - 2] == 0 {
          pa := pa - 2;
        }
      }
    }
  }

  /** The row of the main table for a mode. */
  function ModeIndex(m: Mode): nat
    requires m.Vertical? ==> -3 <= m.d <= 3
  {
    match m
    case Pass => 0
    case Horizontal => 1
    case Vertical(d) => if d <= 0 then 2 - d else 5 + d
  }

  lemma ModeSplit(row: Row, ref: Row, s: Pos, rest: Bitstring)
    requires |ref| == |row| && s.a0 <= |row|
    ensures var m := ModeOf(row, ref, s);
            var e := RowEntry(Main, ModeIndex(m));
            && ModeBits(row, ref, s) + rest
               == CodeBits(CodeRow(Main, ModeIndex(m)))
                  + (if m == Horizontal then HorizontalRuns(row, s) + rest else rest)
            && e.state == (match m
                           case Pass => S_Pass
                           case Horizontal => S_Horiz
                           case Vertical(d) => if d == 0 then S_V0 else if d < 0 then S_VR else S_VL)
            && (m.Vertical? && m.d != 0 ==> e.param == if m.d < 0 then -m.d else m.d)
  {
    hide HorizontalRuns, ModeOf;
  }

  /** What the decoder is told about code `i` of a colour. */
  lemma RunRow(c: bool, i: nat)
    requires i < 104
    ensures CodeBits(CodeRow(RunKind(c), i)) == CodeBits(RunCode(c, i))
    ensures RowEntry(RunKind(c), i).param == if i < 64 then i else 64 * (i - 63)
    ensures i < 64 ==> RowEntry(RunKind(c), i).state == TermState(c)
    ensures i >= 64 ==> IsMakeUp(c, RowEntry(RunKind(c), i).state)
  {
    RunCodeRow(c, i);
  }

  function TermState(c: bool): State {
    if c then S_TermB else S_TermW
  }

  predicate IsMakeUp(c: bool, state: State) {
    state == S_MakeUp || state == if c then S_MakeUpB else S_MakeUpW
  }

  lemma OneBit(w: nat)
    requires w < Pow2(1)
    ensures LsbBits(w, 1) == [w != 0]
  {
    assert Pow2(1) == 2 * Pow2(0) && LsbBits(w / 2, 0) == [];
  }

  lemma TotalLast(runs: seq<int>)
    requires runs != []
    ensures Total(runs) == Total(runs[..|runs| - 1]) + runs[|runs| - 1]
  {
    TotalPush(runs[..|runs| - 1], runs[|runs| - 1]);
    assert runs == runs[..|runs| - 1] + [runs[|runs| - 1]];
  }

  lemma NothingStored(runs: seq<int>)
    ensures runs == [] ==> Total(runs) == 0
  {
  }

  lemma EndReached(runs: seq<int>, lastx: nat)
    ensures Total(runs) == lastx ==> EndOf(runs, lastx) == lastx
  {
  }

  /** Runs that amount to `from`, or to a negative number if `from` is zero, and then the rest of a row. */
  lemma FilledUp(was: seq<int>, front: seq<int>, from: int, lastx: nat)
    requires 0 <= from <= lastx && (front == was || front == was + [0])
    ensures Total(was) == from || (Total(was) < 0 && from == 0) ==> EndOf(front + [lastx - from], lastx) == lastx
  {
    hide Total;
    var all := front + [lastx - from];
    TotalPush(was, 0);
    TotalPush(front, lastx - from);
    if NoneNegative(all) {
      assert forall j :: 0 <= j < |was| ==> was[j] == all[j];
      TotalPositive(was);
    }
  }

  /** An empty stream does not begin with a code. */
  lemma NoCodeAhead(kind: Kind, i: nat, rest: Bitstring)
    requires i < Rows(kind)
    ensures !Follows([], CodeBits(CodeRow(kind, i)) + rest)
  {
    hide CodeRow;
    RowReversed(kind, i);
  }

  /** The effect of a lookup on the stream. */
  lemma AfterLookup(kind: Kind, w: nat, before: Bitstring, ahead: Bitstring, i: nat, rest: Bitstring)
    requires i < Rows(kind) && Window(kind) <= |ahead| && LsbBits(w, Window(kind)) == ahead[..Window(kind)]
    requires |before| <= |ahead| && ahead == before + Zeros(|ahead| - |before|)
    ensures var e := TableAt(kind, w);
            && e.width <= |ahead|
            && (e.state != S_Null && e.state != S_EOL ==> Ones(ahead[e.width..]) < Ones(before))
            && Ones(ahead[e.width..]) <= Ones(before)
            && (Follows(before, CodeBits(CodeRow(kind, i)) + rest) ==>
                  e == RowEntry(kind, i) && Follows(ahead[e.width..], rest))
  {
    var e := TableAt(kind, w);
    LookupProgress(kind, w);
    OnesPadded(before, ahead);
    OnesDrop(ahead, e.width);
    assert ahead[..Window(kind)][..e.width] == ahead[..e.width];
    if Follows(before, CodeBits(CodeRow(kind, i)) + rest) {
      FollowsPad(before, CodeBits(CodeRow(kind, i)) + rest, |ahead| - |before|);
      FollowsDrop(ahead, CodeBits(CodeRow(kind, i)), rest);
      RowReversed(kind, i);
      var l := CodeRow(kind, i).length;
      assert ahead[..Window(kind)][..l] == ahead[..l];
      LookupDecodes(kind, i, w);
    }
  }
}
