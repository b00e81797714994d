/** `find0span` and `find1span`: how many pixels of one colour follow a position, found a word or a
    byte at a time.  The two C functions differ only in the colour, which is a parameter here. */
module Spans {
  import opened Pixels

  /** The table `zeroruns`: how many leading bits of a byte are clear. */
  function ZeroRuns(b: bv8): (n: nat)
    ensures n <= 8
  {
    if b < 0x01 then 8 else if b < 0x02 then 7 else if b < 0x04 then 6 else if b < 0x08 then 5
    else if b < 0x10 then 4 else if b < 0x20 then 3 else if b < 0x40 then 2 else if b < 0x80 then 1 else 0
  }

  /** The table `oneruns`: how many leading bits of a byte are set. */
  function OneRuns(b: bv8): (n: nat)
    ensures n <= 8
  {
    if b < 0x80 then 0 else if b < 0xC0 then 1 else if b < 0xE0 then 2 else if b < 0xF0 then 3
    else if b < 0xF8 then 4 else if b < 0xFC then 5 else if b < 0xFE then 6 else if b < 0xFF then 7 else 8
  }

  function LeadingRun(b: bv8, c: bool): nat {
    if c then OneRuns(b) else ZeroRuns(b)
  }

  /** A byte, or each byte of a word, all of one colour. */
  function Solid(c: bool): bv8 {
    if c then 0xFF else 0x00
  }

  lemma LeadingRunBits(b: bv8, c: bool)
    ensures LeadingRun(b, c) <= 8
    ensures forall i :: 0 <= i < LeadingRun(b, c) ==> Bit(b, i) == c
    ensures LeadingRun(b, c) < 8 ==> Bit(b, LeadingRun(b, c)) != c
    ensures LeadingRun(b, c) == 8 <==> b == Solid(c)
  {
    forall i | 0 <= i < 8
      ensures i < LeadingRun(b, c) ==> Bit(b, i) == c
      ensures i == LeadingRun(b, c) ==> Bit(b, i) != c
    {
      LeadingBit(b, c, i);
    }
  }

  lemma LeadingBit(b: bv8, c: bool, i: nat)
    requires i < 8
    ensures i < LeadingRun(b, c) ==> Bit(b, i) == c
    ensures i == LeadingRun(b, c) ==> Bit(b, i) != c
  {
  }

  lemma ShiftedBits(b: bv8, n: nat, i: nat)
    requires n < 8 && i < 8
    ensures Bit(b << n, i) == (n + i < 8 && Bit(b, n + i))
  {
  }

  /** Is the address of byte `k` a multiple of the word size, given that of byte 0? */
  predicate IsAligned(addr: nat, k: nat) {
    (addr + k) % 8 == 0
  }

  /** All pixels from `from` up to `to` have colour `c`. */
  ghost predicate AllOf(row: seq<bv8>, from: nat, to: nat, c: bool)
  {
    to <= 8 * |row| && forall i :: from <= i < to ==> Unpack(row)[i] == c
  }

  /** `span` is the length of the run of colour `c` at `bs`, capped at `be`. */
  ghost predicate IsSpan(row: seq<bv8>, bs: nat, be: nat, c: bool, span: nat)
    requires be <= 8 * |row|
  {
    && bs + span <= be
    && AllOf(row, bs, bs + span, c)
    && (bs + span < be ==> Unpack(row)[bs + span] != c)
  }

  /** Stopping inside byte `k`, all of whose predecessors from `bs` on are of colour `c`. */
  lemma StopInByte(row: seq<bv8>, bs: nat, k: nat, be: nat, c: bool, n: nat)
    requires bs <= 8 * k < be <= 8 * |row| && AllOf(row, bs, 8 * k, c)
    requires n <= LeadingRun(row[k], c)
    requires n == be - 8 * k || (n == LeadingRun(row[k], c) && n < 8)
    requires 8 * k + n <= be
    ensures IsSpan(row, bs, be, c, 8 * k + n - bs)
  {
    LeadingRunBits(row[k], c);
    forall i | bs <= i < 8 * k + n
      ensures Unpack(row)[i] == c
    {
      if 8 * k <= i { UnpackAt(row, k, i - 8 * k); }
    }
    if 8 * k + n < be && n < 8 { UnpackAt(row, k, n); }
  }

  lemma SolidByte(row: seq<bv8>, bs: nat, k: nat, c: bool)
    requires bs <= 8 * k && k < |row| && AllOf(row, bs, 8 * k, c) && row[k] == Solid(c)
    ensures AllOf(row, bs, 8 * (k + 1), c)
  {
    LeadingRunBits(row[k], c);
    forall i | bs <= i < 8 * (k + 1)
      ensures Unpack(row)[i] == c
    {
      if 8 * k <= i { UnpackAt(row, k, i - 8 * k); }
    }
  }

  /** The leading bits of `b` are the pixels from place `n` of byte `k` to the end of the byte. */
  ghost predicate Shifted(row: seq<bv8>, k: nat, n: nat, b: bv8)
    requires k < |row|
  {
    forall i {:trigger Bit(b, i)} :: 0 <= i && n + i < 8 ==> Unpack(row)[8 * k + n + i] == Bit(b, i)
  }

  method ShiftLeft(row: seq<bv8>, k: nat, n: nat) returns (b: bv8)
    requires k < |row| && n < 8
    ensures Shifted(row, k, n, b)
  {
    b := row[k] << n;
    forall i {:trigger Bit(b, i)} | 0 <= i && n + i < 8
      ensures Unpack(row)[8 * k + n + i] == Bit(b, i)
    {
      ShiftedBits(row[k], n, i);
      UnpackAt(row, k, n + i);
    }
  }

  lemma LeftRun(row: seq<bv8>, k: nat, n: nat, b: bv8, be: nat, c: bool, span: nat)
    requires k < |row| && 8 * k + n < be <= 8 * |row| && n + span <= 8 && 8 * k + n + span <= be
    requires Shifted(row, k, n, b)
    requires forall i :: 0 <= i < span ==> Bit(b, i) == c
    requires n + span < 8 && 8 * k + n + span < be ==> Bit(b, span) != c
    ensures AllOf(row, 8 * k + n, 8 * k + n + span, c)
    ensures n + span < 8 ==> IsSpan(row, 8 * k + n, be, c, span)
  {
    hide Bit, Unpack;
    forall i | 8 * k + n <= i < 8 * k + n + span
      ensures Unpack(row)[i] == c
    {
      assert Bit(b, i - (8 * k + n)) == c;
    }
  }

  /** The partial byte on the left. */
  method LeftByte(row: seq<bv8>, bs: nat, be: nat, c: bool) returns (span: nat)
    requires bs < be <= 8 * |row| && bs % 8 != 0
    ensures bs + span <= be && bs % 8 + span <= 8 && AllOf(row, bs, bs + span, c)
    ensures bs % 8 + span < 8 ==> IsSpan(row, bs, be, c, span)
  {
    var n := bs % 8;
    var b := ShiftLeft(row, bs / 8, n);
    span := LeadingRun(b, c);
    LeadingRunBits(b, c);
    if span > 8 - n {
      span := 8 - n;
    }
    if span > be - bs {
      span := be - bs;
    }
    LeftRun(row, bs / 8, n, b, be, c, span);
  }

  /** Bytes `k` to `k + 7`, read as one word, are all of one colour. */
  predicate SolidWord(row: seq<bv8>, k: nat, c: bool)
    requires k + 8 <= |row|
  {
    row[k..k + 8] == seq(8, _ => Solid(c))
  }

  lemma SkipWord(row: seq<bv8>, bs: nat, k: nat, c: bool)
    requires bs <= 8 * k && k + 8 <= |row| && AllOf(row, bs, 8 * k, c) && SolidWord(row, k, c)
    ensures AllOf(row, bs, 8 * (k + 8), c)
  {
    for j := 0 to 8
      invariant AllOf(row, bs, 8 * (k + j), c)
    {
      assert row[k..k + 8][j] == row[k + j];
      SolidByte(row, bs, k + j, c);
    }
  }

  lemma NextBoundary(addr: nat, k: nat) returns (b: nat)
    ensures k <= b <= k + 7 && IsAligned(addr, b)
  {
    b := k + (8 - (addr + k) % 8) % 8;
  }

  /** From byte `k` on, go to a word boundary byte by byte and then by whole words.  If the run ends
      before the boundary, `done` is set and `k` is the byte it ends in. */
  method SkipWords(row: seq<bv8>, addr: nat, bs: nat, be: nat, c: bool, k0: nat) returns (done: bool, k: nat)
    requires bs <= 8 * k0 && be - 8 * k0 >= 2 * 8 * 8 && be <= 8 * |row| && AllOf(row, bs, 8 * k0, c)
    ensures k0 <= k && 8 * k <= be && AllOf(row, bs, 8 * k, c)
    ensures done ==> 8 * k + 8 <= be && row[k] != Solid(c)
  {
    k := k0;
    ghost var boundary := NextBoundary(addr, k0);
    while !IsAligned(addr, k)
      invariant k0 <= k <= boundary && AllOf(row, bs, 8 * k, c)
      decreases boundary - k
    {
      if row[k] != Solid(c) {
        return true, k;
      }
      SolidByte(row, bs, k, c);
      k := k + 1;
    }
    while be - 8 * k >= 8 * 8 && SolidWord(row, k, c)
      invariant k0 <= k && 8 * k <= be && AllOf(row, bs, 8 * k, c)
    {
      SkipWord(row, bs, k, c);
      k := k + 8;
    }
    done := false;
  }

  /** From byte `k` on, go byte by byte to the end of the run. */
  method LastBytes(row: seq<bv8>, bs: nat, be: nat, c: bool, k0: nat) returns (span: nat)
    requires bs <= 8 * k0 <= be <= 8 * |row| && AllOf(row, bs, 8 * k0, c)
    ensures IsSpan(row, bs, be, c, span)
  {
    var k := k0;
    while be - 8 * k >= 8
      invariant k0 <= k && 8 * k <= be && AllOf(row, bs, 8 * k, c)
    {
      if row[k] != Solid(c) {
        LeadingRunBits(row[k], c);
        StopInByte(row, bs, k, be, c, LeadingRun(row[k], c));
        return 8 * k - bs + LeadingRun(row[k], c);
      }
      SolidByte(row, bs, k, c);
      k := k + 1;
    }
    span := 8 * k - bs;
    var bits := be - 8 * k;
    if bits > 0 {
      LeadingRunBits(row[k], c);
      var n := LeadingRun(row[k], c);
      n := if n > bits then bits else n;
      StopInByte(row, bs, k, be, c, n);
      span := span + n;
    }
  }

  /** `find0span` when `c` is white, `find1span` when it is black. */
  method FindSpan(row: seq<bv8>, addr: nat, bs: nat, be: nat, c: bool) returns (span: nat)
    requires bs <= be <= 8 * |row|
    ensures IsSpan(row, bs, be, c, span)
  {
    var k := bs / 8;
    if bs < be && bs % 8 != 0 {
      span := LeftByte(row, bs, be, c);
      if bs % 8 + span < 8 {
        return;
      }
      k := k + 1;
    }
    if bs == be {
      return 0;
    }
    if be - 8 * k >= 2 * 8 * 8 {
      var done;
      done, k := SkipWords(row, addr, bs, be, c, k);
      if done {
        LeadingRunBits(row[k], c);
        StopInByte(row, bs, k, be, c, LeadingRun(row[k], c));
        return 8 * k - bs + LeadingRun(row[k], c);
      }
    }
    span := LastBytes(row, bs, be, c, k);
  }
}
