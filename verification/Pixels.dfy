/** Rows of black and white pixels, packed eight to a byte, leftmost pixel in the top bit. */
module Pixels {

  /** A row of pixels; `true` is black. */
  type Row = seq<bool>

  const WHITE := false
  const BLACK := true

  /** Pixel `i` of a byte. */
  predicate Bit(b: bv8, i: nat)
    requires i < 8
  {
    match i
    case 0 => b & 0x80 != 0 case 1 => b & 0x40 != 0 case 2 => b & 0x20 != 0 case 3 => b & 0x10 != 0
    case 4 => b & 0x08 != 0 case 5 => b & 0x04 != 0 case 6 => b & 0x02 != 0 case _ => b & 0x01 != 0
  }

  /** It is what the encoder's `PIXEL` macro extracts. */
  lemma BitIsPixel(b: bv8, i: nat)
    requires i < 8
    ensures Bit(b, i) <==> (b >> (7 - i)) & 1 == 1
  {
  }

  /** `n` pixels of colour `c`. */
  function Stretch(n: nat, c: bool): (r: Row)
    ensures |r| == n && forall i :: 0 <= i < n ==> r[i] == c
  {
    seq(n, _ => c)
  }

  /** The pixels of packed bytes. */
  function Unpack(buf: seq<bv8>): (r: Row)
    ensures |r| == 8 * |buf|
  {
    seq(8 * |buf|, i requires 0 <= i < 8 * |buf| => Bit(buf[i / 8], i % 8))
  }

  lemma UnpackAt(buf: seq<bv8>, k: nat, i: nat)
    requires k < |buf| && i < 8
    ensures Unpack(buf)[8 * k + i] == Bit(buf[k], i)
  {
    assert (8 * k + i) / 8 == k && (8 * k + i) % 8 == i;
  }

  /** Bytes per row of `w` pixels. */
  function RowBytes(w: nat): nat {
    (w + 7) / 8
  }

  /** The first position at or after `p` that has colour `c`, or the end of the row. */
  function FirstOf(row: Row, p: nat, c: bool): (q: nat)
    requires p <= |row|
    ensures p <= q <= |row|
    ensures forall i :: p <= i < q ==> row[i] != c
    ensures q < |row| ==> row[q] == c
    decreases |row| - p
  {
    if p == |row| || row[p] == c then p else FirstOf(row, p + 1, c)
  }

  lemma FirstOfUnique(row: Row, p: nat, c: bool, q: nat)
    requires p <= q <= |row|
    requires forall i :: p <= i < q ==> row[i] != c
    requires q < |row| ==> row[q] == c
    ensures FirstOf(row, p, c) == q
  {
  }
}
