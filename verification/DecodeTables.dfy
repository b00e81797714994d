/** The decoder's lookup tables: which code begins a window of bits.

    The three tables are generated by filling in, for each code, every window that has the code as its
    low-order bits (`TableBuilder`).  Here the codes of the generator are matched row by row with the
    codes of the encoder, and decision trees over the window values show that no window begins with
    two different codes.
 */
module DecodeTables {
  import opened Bits
  import opened CodeTables

  /** What a table tells the decoder to do. */
  datatype State =
    | S_Null | S_Pass | S_Horiz | S_V0 | S_VR | S_VL | S_Ext
    | S_TermW | S_TermB | S_MakeUpW | S_MakeUpB | S_MakeUp | S_EOL

  datatype TabEnt = TabEnt(state: State, width: nat, param: nat)

  const NULL_ENTRY := TabEnt(S_Null, 0, 0)

  datatype Kind = Main | White | Black

  // ---------- the rows of the three tables ----------

  /** The number of rows, end of line being the last. */
  function Rows(kind: Kind): nat {
    if kind.Main? then 11 else 105
  }

  /** How many bits the decoder looks at. */
  function Window(kind: Kind): nat {
    match kind
    case Main => 7
    case White => 12
    case Black => 13
  }

  /** Row `i` as the encoder writes it. */
  function CodeRow(kind: Kind, i: nat): TableEntry
    requires i < Rows(kind)
  {
    match kind
    case Main =>
      if i == 0 then PASS_CODE else if i == 1 then HORIZ_CODE else if i == 2 then VCode(3)
      else if i < 6 then VCode(5 - i) else if i < 9 then VCode(i - 2)
      else TableEntry(7, 10 - i, 0)
    case White => if i < 104 then WhiteCode(i) else TableEntry(11, 0, 0)
    case Black => if i < 104 then BlackCode(i) else TableEntry(11, 0, 0)
  }

  /** Row `i` as the table generator has it. */
  function RowProto(kind: Kind, i: nat): Proto
    requires i < Rows(kind)
  {
    match kind
    case Main =>
      if i == 0 then PASS_PROTO else if i == 1 then HORIZ_PROTO else if i == 2 then V0_PROTO
      else if i < 6 then VR(i - 3) else if i < 9 then VL(i - 6)
      else if i == 9 then EXT_PROTO else EOLV_PROTO
    case White =>
      if i < 64 then TermW(i) else if i < 91 then MakeUpW(i - 64) else if i < 104 then MakeUp(i - 91) else EOLH_PROTO
    case Black =>
      if i < 64 then TermB(i) else if i < 91 then MakeUpB(i - 64) else if i < 104 then MakeUp(i - 91) else EOLH_PROTO
  }

  function RowState(kind: Kind, i: nat): State
    requires i < Rows(kind)
  {
    match kind
    case Main =>
      if i == 0 then S_Pass else if i == 1 then S_Horiz else if i == 2 then S_V0
      else if i < 6 then S_VR else if i < 9 then S_VL else if i == 9 then S_Ext else S_EOL
    case White =>
      if i < 64 then S_TermW else if i < 91 then S_MakeUpW else if i < 104 then S_MakeUp else S_EOL
    case Black =>
      if i < 64 then S_TermB else if i < 91 then S_MakeUpB else if i < 104 then S_MakeUp else S_EOL
  }

  function RowParam(kind: Kind, i: nat): nat
    requires i < Rows(kind)
  {
    match kind
    case Main => if 3 <= i < 6 then i - 2 else if 6 <= i < 9 then i - 5 else 0
    case _ => CodeRow(kind, i).runlen
  }

  /** What the decoder must find in a window that begins with row `i`. */
  function RowEntry(kind: Kind, i: nat): TabEnt
    requires i < Rows(kind)
  {
    TabEnt(RowState(kind, i), CodeRow(kind, i).length, RowParam(kind, i))
  }

  /** Window `w`, first bit lowest, has the code of `p` as its low-order bits. */
  predicate Matches(p: Proto, w: nat) {
    Low(w, p.Width()) == p.code
  }

  // ---------- constant folding ----------

  /** `Pow2` without recursion. */
  function P2(k: nat): nat
    requires k <= 13
  {
    match k
    case 0 => 1 case 1 => 2 case 2 => 4 case 3 => 8 case 4 => 16 case 5 => 32 case 6 => 64
    case 7 => 128 case 8 => 256 case 9 => 512 case 10 => 1024 case 11 => 2048 case 12 => 4096 case _ => 8192
  }

  lemma P2IsPow2(k: nat)
    requires k <= 13
    ensures P2(k) == Pow2(k)
  {
    if k > 0 {
      P2IsPow2(k - 1);
    }
  }

  /** `Reverse(v, 4)` without recursion. */
  function Reverse4(v: nat): nat
    requires v < 16
  {
    match v
    case 0 => 0 case 1 => 8 case 2 => 4 case 3 => 12 case 4 => 2 case 5 => 10 case 6 => 6 case 7 => 14
    case 8 => 1 case 9 => 9 case 10 => 5 case 11 => 13 case 12 => 3 case 13 => 11 case 14 => 7 case _ => 15
  }

  function Reverse8(v: nat): nat
    requires v < 256
  {
    Reverse4(v % 16) * 16 + Reverse4(v / 16)
  }

  /** `r` is the reversal of an eight-bit number; `code` is its reversal as a number of `length` bits. */
  predicate Reversed(length: nat, r: nat, code: nat)
  {
    match length
    case 1 => r == 128 * code case 2 => r == 64 * code case 3 => r == 32 * code case 4 => r == 16 * code
    case 5 => r == 8 * code case 6 => r == 4 * code case 7 => r == 2 * code case 8 => r == code
    case 9 => 2 * r == code case 10 => 4 * r == code case 11 => 8 * r == code case 12 => 16 * r == code
    case 13 => 32 * r == code case _ => false
  }

  /** A row of the generator and a row of the encoder's table describe the same code. */
  predicate Agrees(c: TableEntry, param: nat, p: Proto, bits: nat)
    requires bits <= 13
  {
    && 1 <= c.length <= bits && c.code < 256 && c.code < P2(c.length)
    && p.val == 16 * param + c.length
    && Reversed(c.length, Reverse8(c.code), p.code)
  }

  predicate RowAgrees(kind: Kind, i: nat)
    requires i < Rows(kind)
  {
    Agrees(CodeRow(kind, i), RowParam(kind, i), RowProto(kind, i), Window(kind))
  }

  lemma TermWRows0(i: nat)
    requires 0 <= i < 16
    ensures RowAgrees(White, i)
  {
  }

  lemma TermWRows1(i: nat)
    requires 16 <= i < 32
    ensures RowAgrees(White, i)
  {
  }

  lemma TermWRows2(i: nat)
    requires 32 <= i < 48
    ensures RowAgrees(White, i)
  {
  }

  lemma TermWRows3(i: nat)
    requires 48 <= i < 64
    ensures RowAgrees(White, i)
  {
  }

  lemma TermBRows0(i: nat)
    requires 0 <= i < 16
    ensures RowAgrees(Black, i)
  {
  }

  lemma TermBRows1(i: nat)
    requires 16 <= i < 32
    ensures RowAgrees(Black, i)
  {
  }

  lemma TermBRows2(i: nat)
    requires 32 <= i < 48
    ensures RowAgrees(Black, i)
  {
  }

  lemma TermBRows3(i: nat)
    requires 48 <= i < 64
    ensures RowAgrees(Black, i)
  {
  }

  lemma MakeUpWRows0(i: nat)
    requires 64 <= i < 71
    ensures RowAgrees(White, i)
  {
  }

  lemma MakeUpWRows1(i: nat)
    requires 71 <= i < 78
    ensures RowAgrees(White, i)
  {
  }

  lemma MakeUpWRows2(i: nat)
    requires 78 <= i < 85
    ensures RowAgrees(White, i)
  {
  }

  lemma MakeUpWRows3(i: nat)
    requires 85 <= i < 91
    ensures RowAgrees(White, i)
  {
  }

  lemma MakeUpBRows0(i: nat)
    requires 64 <= i < 71
    ensures RowAgrees(Black, i)
  {
  }

  lemma MakeUpBRows1(i: nat)
    requires 71 <= i < 78
    ensures RowAgrees(Black, i)
  {
  }

  lemma MakeUpBRows2(i: nat)
    requires 78 <= i < 85
    ensures RowAgrees(Black, i)
  {
  }

  lemma MakeUpBRows3(i: nat)
    requires 85 <= i < 91
    ensures RowAgrees(Black, i)
  {
  }

  lemma MakeUpRowsW1(i: nat)
    requires 91 <= i < 98
    ensures RowAgrees(White, i)
  {
  }

  lemma MakeUpRowsW2(i: nat)
    requires 98 <= i < 105
    ensures RowAgrees(White, i)
  {
  }

  lemma MakeUpRowsB1(i: nat)
    requires 91 <= i < 98
    ensures RowAgrees(Black, i)
  {
  }

  lemma MakeUpRowsB2(i: nat)
    requires 98 <= i < 105
    ensures RowAgrees(Black, i)
  {
  }

  lemma MainRows(i: nat)
    requires i < 11
    ensures RowAgrees(Main, i)
  {
  }

  lemma RowsAgree(kind: Kind, i: nat)
    requires i < Rows(kind)
    ensures RowAgrees(kind, i)
  {
    match kind
    case Main => MainRows(i);
    case White =>
      if i < 16 { TermWRows0(i); } else if i < 32 { TermWRows1(i); }
      else if i < 48 { TermWRows2(i); } else if i < 64 { TermWRows3(i); }
      else if i < 71 { MakeUpWRows0(i); } else if i < 78 { MakeUpWRows1(i); }
      else if i < 85 { MakeUpWRows2(i); } else if i < 91 { MakeUpWRows3(i); }
      else if i < 98 { MakeUpRowsW1(i); } else { MakeUpRowsW2(i); }
    case Black =>
      if i < 16 { TermBRows0(i); } else if i < 32 { TermBRows1(i); }
      else if i < 48 { TermBRows2(i); } else if i < 64 { TermBRows3(i); }
      else if i < 71 { MakeUpBRows0(i); } else if i < 78 { MakeUpBRows1(i); }
      else if i < 85 { MakeUpBRows2(i); } else if i < 91 { MakeUpBRows3(i); }
      else if i < 98 { MakeUpRowsB1(i); } else { MakeUpRowsB2(i); }
  }

  // ---------- reversal of codes ----------

  lemma Reverse4Correct(v: nat)
    requires v < 16
    ensures Reverse4(v) == Reverse(v, 4)
  {
    hide Reverse, Pow2;
    ReverseStep(v, 4);
    ReverseStep(v / 2, 3);
    ReverseStep(v / 2 / 2, 2);
    ReverseStep(v / 2 / 2 / 2, 1);
    P2IsPow2(3);
    P2IsPow2(2);
    P2IsPow2(1);
    P2IsPow2(0);
  }

  lemma ReverseStep(v: nat, n: nat)
    requires n > 0
    ensures Reverse(v, n) == (if v % 2 == 1 then Pow2(n - 1) else 0) + Reverse(v / 2, n - 1)
    ensures n == 1 ==> Reverse(v / 2, n - 1) == 0
  {
  }

  lemma {:induction false} ReverseSplit(v: nat, m: nat, n: nat)
    ensures Reverse(v, m + n) == Shl(Reverse(v, m), n) + Reverse(Shr(v, m), n)
  {
    if m > 0 {
      ReverseSplit(v / 2, m - 1, n);
      ShlAdd(if v % 2 == 1 then Pow2(m - 1) else 0, Reverse(v / 2, m - 1), n);
      ShlValue(Pow2(m - 1), n);
      ShlValue(0, n);
      Pow2Add(m - 1, n);
    } else {
      ShlValue(0, n);
    }
  }

  lemma {:induction false} ReverseZero(n: nat)
    ensures Reverse(0, n) == 0
  {
    if n > 0 {
      ReverseZero(n - 1);
    }
  }

  lemma {:induction false} ReverseLow(v: nat, n: nat)
    ensures Reverse(Low(v, n), n) == Reverse(v, n)
  {
    if n > 0 {
      ReverseLow(v / 2, n - 1);
      assert Low(v, n) / 2 == Low(v / 2, n - 1);
    }
  }

  lemma Reverse8Correct(v: nat)
    requires v < 256
    ensures Reverse8(v) == Reverse(v, 8)
  {
    var lo, hi := v % 16, v / 16;
    ShlConstants(hi);
    assert v == lo + Shl(hi, 4);
    P2IsPow2(4);
    JoinParts(lo, 4, hi);
    ReverseSplit(v, 4, 4);
    ReverseLow(v, 4);
    Reverse4Correct(lo);
    Reverse4Correct(hi);
    ShlConstants(Reverse(lo, 4));
  }

  lemma ShlConstants(x: nat)
    ensures Shl(x, 1) == 2 * x && Shl(x, 2) == 4 * x && Shl(x, 3) == 8 * x && Shl(x, 4) == 16 * x
    ensures Shl(x, 5) == 32 * x && Shl(x, 6) == 64 * x && Shl(x, 7) == 128 * x
  {
    assert Shl(x, 1) == 2 * x;
    assert Shl(x, 2) == 4 * x;
    assert Shl(x, 4) == 16 * x;
    assert Shl(x, 6) == 64 * x;
  }

  lemma ReversedMeans(length: nat, r: nat, code: nat)
    requires Reversed(length, r, code)
    ensures 1 <= length <= 13
    ensures if length <= 8 then r == Shl(code, 8 - length) else code == Shl(r, length - 8)
  {
    ShlConstants(code);
    ShlConstants(r);
  }

  lemma ReversedCorrect(length: nat, v: nat, r: nat, code: nat)
    requires v < Pow2(8) && v < Pow2(length) && r == Reverse(v, 8) && Reversed(length, r, code)
    ensures code == Reverse(v, length)
  {
    hide Reversed, Reverse, Shl, Pow2;
    ReversedMeans(length, r, code);
    if length <= 8 {
      ReversedShort(length, v, code);
    } else {
      ReversedLong(length, v);
    }
  }

  lemma ReversedShort(length: nat, v: nat, code: nat)
    requires length <= 8 && v < Pow2(length) && Reverse(v, 8) == Shl(code, 8 - length)
    ensures code == Reverse(v, length)
  {
    hide Reverse, Shl, Shr, Low, Pow2;
    var k := 8 - length;
    ReverseSplit(v, length, k);
    LowIdentity(v, length);
    ReverseZero(k);
    MsbShl(code, 0, k);
    MsbShl(Reverse(v, length), 0, k);
  }

  lemma ReversedLong(length: nat, v: nat)
    requires length > 8 && v < Pow2(8)
    ensures Reverse(v, length) == Shl(Reverse(v, 8), length - 8)
  {
    hide Reverse, Shl, Shr, Low, Pow2;
    var k := length - 8;
    ReverseSplit(v, 8, k);
    LowIdentity(v, 8);
    ReverseZero(k);
  }

  lemma AgreesMeans(c: TableEntry, param: nat, p: Proto, bits: nat)
    requires bits <= 13 && Agrees(c, param, p, bits)
    ensures Reversal(c, param, p, bits)
  {
    hide Reverse8, Reversed, Reverse;
    P2IsPow2(c.length);
    P2IsPow2(8);
    Reverse8Correct(c.code);
    ReversedCorrect(c.length, c.code, Reverse8(c.code), p.code);
    ReverseBits(c.code, c.length);
  }

  /** `p` is `c` with its bits in the opposite order, and stands for `param`. */
  ghost predicate Reversal(c: TableEntry, param: nat, p: Proto, bits: nat) {
    && 1 <= c.length <= bits && c.code < Pow2(c.length)
    && p.Width() == c.length && p.Param() == param
    && p.code < Pow2(c.length) && LsbBits(p.code, c.length) == MsbBits(c.code, c.length)
  }

  /** A generated code is the encoder's code with its bits reversed. */
  lemma RowReversed(kind: Kind, i: nat)
    requires i < Rows(kind)
    ensures Reversal(CodeRow(kind, i), RowParam(kind, i), RowProto(kind, i), Window(kind))
  {
    RowsAgree(kind, i);
    AgreesMeans(CodeRow(kind, i), RowParam(kind, i), RowProto(kind, i), Window(kind));
  }

  // ---------- no window begins with two codes ----------

  /** The mode code that begins the 7-bit window of value `v`, first bit highest. */
  function MainFind(v: nat): nat
  {
    if v < 6 then
      if v < 2 then
        if v < 1 then 10 else 9
      else
        if v < 3 then 8 else if v < 4 then 5 else 7
    else
      if v < 32 then
        if v < 8 then 4 else if v < 16 then 0 else 1
      else
        if v < 48 then 6 else if v < 64 then 3 else 2
  }

  /** The white code that begins the 12-bit window of value `v`: 104 is end of line, 105 no code. */
  function WhiteFind(v: nat): nat
  {
    if v < 896 then
      if v < 304 then
        if v < 30 then
          if v < 21 then
            if v < 18 then
              if v < 2 then 104 else if v < 16 then 105 else 91
            else
              if v < 19 then 94 else if v < 20 then 95 else 96
          else
            if v < 24 then
              if v < 22 then 97 else if v < 23 then 98 else 99
            else
              if v < 26 then 92 else if v < 28 then 93 else if v < 29 then 100 else 101
        else
          if v < 96 then
            if v < 48 then
              if v < 31 then 102 else if v < 32 then 103 else 29
            else
              if v < 64 then 30 else if v < 80 then 45 else 46
          else
            if v < 176 then
              if v < 128 then 22 else if v < 160 then 23 else 47
            else
              if v < 192 then 48 else if v < 256 then 13 else if v < 288 then 20 else 33
      else
        if v < 640 then
          if v < 416 then
            if v < 352 then
              if v < 320 then 34 else if v < 336 then 35 else 36
            else
              if v < 368 then 37 else if v < 384 then 38 else 19
          else
            if v < 512 then
              if v < 432 then 31 else if v < 448 then 32 else 1
            else
              if v < 576 then 12 else if v < 592 then 53 else if v < 608 then 54 else 26
        else
          if v < 768 then
            if v < 688 then
              if v < 656 then 39 else if v < 672 then 40 else 41
            else
              if v < 704 then 42 else if v < 720 then 43 else if v < 736 then 44 else 21
          else
            if v < 832 then
              if v < 800 then 28 else if v < 816 then 61 else 62
            else
              if v < 848 then 63 else if v < 864 then 0 else if v < 880 then 68 else 69
    else
      if v < 1648 then
        if v < 1344 then
          if v < 1224 then
            if v < 1184 then
              if v < 1024 then 10 else if v < 1152 then 11 else 27
            else
              if v < 1200 then 59 else if v < 1216 then 60 else 86
          else
            if v < 1248 then
              if v < 1232 then 87 else if v < 1240 then 88 else 90
            else
              if v < 1280 then 18 else if v < 1312 then 24 else if v < 1328 then 49 else 50
        else
          if v < 1456 then
            if v < 1408 then
              if v < 1360 then 51 else if v < 1376 then 52 else 25
            else
              if v < 1424 then 55 else if v < 1440 then 56 else 57
          else
            if v < 1600 then
              if v < 1472 then 58 else if v < 1536 then 66 else 89
            else
              if v < 1616 then 70 else if v < 1632 then 71 else if v < 1640 then 74 else 75
      else
        if v < 1792 then
          if v < 1712 then
            if v < 1688 then
              if v < 1664 then 73 else if v < 1680 then 72 else 76
            else
              if v < 1696 then 77 else if v < 1704 then 78 else 79
          else
            if v < 1736 then
              if v < 1720 then 80 else if v < 1728 then 81 else 82
            else
              if v < 1744 then 83 else if v < 1752 then 84 else if v < 1760 then 85 else 67
        else
          if v < 2816 then
            if v < 2432 then
              if v < 2048 then 2 else if v < 2304 then 3 else 65
            else
              if v < 2560 then 8 else if v < 2688 then 9 else if v < 2752 then 16 else 17
          else
            if v < 3392 then
              if v < 3072 then 4 else if v < 3328 then 5 else 14
            else
              if v < 3456 then 15 else if v < 3584 then 64 else if v < 3840 then 6 else 7
  }

  /** The black code that begins the 13-bit window of value `v`: 104 is end of line, 105 no code. */
  function BlackFind(v: nat): nat
  {
    if v < 168 then
      if v < 85 then
        if v < 60 then
          if v < 42 then
            if v < 36 then
              if v < 4 then 104 else if v < 32 then 105 else 91
            else
              if v < 38 then 94 else if v < 40 then 95 else 96
          else
            if v < 48 then
              if v < 44 then 97 else if v < 46 then 98 else 99
            else
              if v < 52 then 92 else if v < 56 then 93 else if v < 58 then 100 else 101
        else
          if v < 76 then
            if v < 72 then
              if v < 62 then 102 else if v < 64 then 103 else 18
            else
              if v < 74 then 52 else if v < 75 then 73 else 74
          else
            if v < 80 then
              if v < 77 then 75 else if v < 78 then 76 else 55
            else
              if v < 82 then 56 else if v < 83 then 83 else if v < 84 then 84 else 85
      else
        if v < 109 then
          if v < 96 then
            if v < 90 then
              if v < 86 then 86 else if v < 88 then 59 else 60
            else
              if v < 91 then 87 else if v < 92 then 88 else 24
          else
            if v < 102 then
              if v < 100 then 25 else if v < 101 then 89 else 90
            else
              if v < 104 then 68 else if v < 106 then 69 else if v < 108 then 70 else 71
        else
          if v < 118 then
            if v < 114 then
              if v < 110 then 72 else if v < 112 then 53 else 54
            else
              if v < 115 then 77 else if v < 116 then 78 else if v < 117 then 79 else 80
          else
            if v < 128 then
              if v < 119 then 81 else if v < 120 then 82 else 64
            else
              if v < 160 then 13 else if v < 164 then 23 else if v < 166 then 50 else 51
    else
      if v < 402 then
        if v < 206 then
          if v < 180 then
            if v < 174 then
              if v < 170 then 44 else if v < 172 then 45 else 46
            else
              if v < 176 then 47 else if v < 178 then 57 else 58
          else
            if v < 192 then
              if v < 182 then 61 else if v < 184 then 67 else 16
            else
              if v < 200 then 17 else if v < 202 then 48 else if v < 204 then 49 else 62
        else
          if v < 218 then
            if v < 212 then
              if v < 208 then 63 else if v < 210 then 30 else 31
            else
              if v < 214 then 32 else if v < 216 then 33 else 40
          else
            if v < 256 then
              if v < 220 then 41 else if v < 224 then 22 else 14
            else
              if v < 320 then 10 else if v < 384 then 11 else if v < 400 then 15 else 65
      else
        if v < 432 then
          if v < 416 then
            if v < 408 then
              if v < 404 then 66 else if v < 406 then 26 else 27
            else
              if v < 410 then 28 else if v < 412 then 29 else 19
          else
            if v < 424 then
              if v < 420 then 20 else if v < 422 then 34 else 35
            else
              if v < 426 then 36 else if v < 428 then 37 else if v < 430 then 38 else 39
        else
          if v < 768 then
            if v < 440 then
              if v < 436 then 21 else if v < 438 then 42 else 43
            else
              if v < 448 then 0 else if v < 512 then 12 else if v < 640 then 9 else 8
          else
            if v < 2048 then
              if v < 1024 then 7 else if v < 1536 then 6 else 5
            else
              if v < 3072 then 1 else if v < 4096 then 4 else if v < 6144 then 3 else 2
  }

  function Find(kind: Kind, v: nat): nat {
    match kind
    case Main => MainFind(v)
    case White => WhiteFind(v)
    case Black => BlackFind(v)
  }

  /** A window of `bits` bits and value `v` begins with code `c`. */
  predicate Begins(c: TableEntry, bits: nat, v: nat)
    requires bits <= 13
  {
    c.length <= bits && c.code * P2(bits - c.length) <= v < c.code * P2(bits - c.length) + P2(bits - c.length)
  }

  lemma MainFinds(i: nat, v: nat)
    requires i < 11 && Begins(CodeRow(Main, i), 7, v)
    ensures MainFind(v) == i
  {
  }

  lemma WhiteFinds0(i: nat, v: nat)
    requires 0 <= i < 35 && Begins(CodeRow(White, i), 12, v)
    ensures WhiteFind(v) == i
  {
  }

  lemma WhiteFinds1(i: nat, v: nat)
    requires 35 <= i < 70 && Begins(CodeRow(White, i), 12, v)
    ensures WhiteFind(v) == i
  {
  }

  lemma WhiteFinds2(i: nat, v: nat)
    requires 70 <= i < 105 && Begins(CodeRow(White, i), 12, v)
    ensures WhiteFind(v) == i
  {
  }

  lemma BlackFinds0(i: nat, v: nat)
    requires 0 <= i < 35 && Begins(CodeRow(Black, i), 13, v)
    ensures BlackFind(v) == i
  {
  }

  lemma BlackFinds1(i: nat, v: nat)
    requires 35 <= i < 70 && Begins(CodeRow(Black, i), 13, v)
    ensures BlackFind(v) == i
  {
  }

  lemma BlackFinds2(i: nat, v: nat)
    requires 70 <= i < 105 && Begins(CodeRow(Black, i), 13, v)
    ensures BlackFind(v) == i
  {
  }

  lemma Finds(kind: Kind, i: nat, v: nat)
    requires i < Rows(kind) && Begins(CodeRow(kind, i), Window(kind), v)
    ensures Find(kind, v) == i
  {
    match kind
    case Main => MainFinds(i, v);
    case White =>
      if i < 35 { WhiteFinds0(i, v); } else if i < 70 { WhiteFinds1(i, v); } else { WhiteFinds2(i, v); }
    case Black =>
      if i < 35 { BlackFinds0(i, v); } else if i < 70 { BlackFinds1(i, v); } else { BlackFinds2(i, v); }
  }

  /** A window that matches a prototype is, read as bits, the code and then something. */
  lemma MatchIsPrefix(c: TableEntry, param: nat, p: Proto, bits: nat, w: nat)
    requires Reversal(c, param, p, bits)
    ensures Matches(p, w) <==> LsbBits(w, bits)[..c.length] == MsbBits(c.code, c.length)
  {
    hide LsbBits, MsbBits, Low, Shr, Pow2;
    LsbSplit(w, c.length, bits - c.length);
    LsbLow(w, c.length);
    if LsbBits(w, bits)[..c.length] == MsbBits(c.code, c.length) {
      LsbInjective(Low(w, c.length), p.code, c.length);
    }
  }

  lemma PrefixBegins(window: Bitstring, c: TableEntry)
    requires |window| <= 13 && c.length <= |window| && c.code < Pow2(c.length)
    requires window[..c.length] == MsbBits(c.code, c.length)
    ensures Begins(c, |window|, Value(window))
  {
    hide Value, MsbBits, Pow2, P2;
    var rest := window[c.length..];
    assert window == window[..c.length] + rest;
    ValueJoin(window[..c.length], rest);
    ValueOfMsb(c.code, c.length);
    P2IsPow2(|rest|);
  }

  /** At most one row matches a window: the one the decision tree finds. */
  lemma OnlyMatch(kind: Kind, i: nat, w: nat)
    requires i < Rows(kind) && Matches(RowProto(kind, i), w)
    ensures Find(kind, Value(LsbBits(w, Window(kind)))) == i
  {
    RowReversed(kind, i);
    MatchIsPrefix(CodeRow(kind, i), RowParam(kind, i), RowProto(kind, i), Window(kind), w);
    PrefixBegins(LsbBits(w, Window(kind)), CodeRow(kind, i));
    Finds(kind, i, Value(LsbBits(w, Window(kind))));
  }
}
