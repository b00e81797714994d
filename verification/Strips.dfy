/** Strips: several rows of packed pixels, one after the other. */
module Strips {
  import opened Pixels
  import opened FillRuns
  import opened FaxEncoder

  predicate OfWidth(rows: seq<Row>, w: nat) {
    forall i :: 0 <= i < |rows| ==> |rows[i]| == w
  }

  /** The rows of `w` pixels in packed data of `rb` bytes a row; an incomplete last row does not count. */
  function RowsOf(data: seq<bv8>, rb: nat, w: nat): (rows: seq<Row>)
    requires 0 < rb && w <= 8 * rb
    ensures OfWidth(rows, w)
  {
    if |data| < rb then [] else [RowOf(data[..rb], w)] + RowsOf(data[rb..], rb, w)
  }

  /** What follows the last pixel in each row. */
  function PadsOf(data: seq<bv8>, rb: nat, w: nat): seq<Row>
    requires 0 < rb && w <= 8 * rb
  {
    if |data| < rb then [] else [Unpack(data[..rb])[w..]] + PadsOf(data[rb..], rb, w)
  }

  /** `n` bytes are a whole number of rows. */
  predicate Whole(n: nat, rb: nat)
    requires rb > 0
  {
    n % rb == 0
  }

  lemma WholeStep(n: nat, rb: nat)
    requires rb > 0 && n > 0 && Whole(n, rb)
    ensures n >= rb && Whole(n - rb, rb)
  {
    if n >= rb {
      ModMinus(n, rb);
    }
  }

  lemma ModMinus(n: nat, d: nat)
    requires 0 < d <= n
    ensures (n - d) % d == n % d
  {
    var q, r := n / d, n % d;
    assert q > 0;
    assert n - d == (q - 1) * d + r by { assert q * d == (q - 1) * d + d; }
    ModUnique(n - d, d, q - 1, r);
  }

  lemma ModUnique(v: nat, d: nat, q: nat, r: nat)
    requires r < d && v == q * d + r
    ensures v % d == r
  {
    var q', r' := v / d, v % d;
    assert (q' - q) * d == r - r';
    Multiple(q' - q, d);
  }

  /** A multiple of `d` is zero or at least `d` away from it. */
  lemma Multiple(k: int, d: int)
    requires d >= 0
    ensures k > 0 ==> k * d >= d
    ensures k < 0 ==> k * d <= -d
    decreases if k < 0 then -k else k
  {
    if k > 1 {
      Multiple(k - 1, d);
      assert k * d == (k - 1) * d + d;
    } else if k < -1 {
      Multiple(k + 1, d);
      assert k * d == (k + 1) * d - d;
    }
  }

  /** One more row. */
  lemma {:induction false} RowsAppend(a: seq<bv8>, b: seq<bv8>, rb: nat, w: nat)
    requires 0 < rb && w <= 8 * rb && Whole(|a|, rb) && |b| == rb
    ensures RowsOf(a + b, rb, w) == RowsOf(a, rb, w) + [RowOf(b, w)]
    ensures PadsOf(a + b, rb, w) == PadsOf(a, rb, w) + [Unpack(b)[w..]]
  {
    hide Whole;
    if a == [] {
      assert a + b == b && b[..rb] == b && RowsOf(b[rb..], rb, w) == [];
    } else {
      WholeStep(|a|, rb);
      RowsAppend(a[rb..], b, rb, w);
      assert (a + b)[..rb] == a[..rb] && (a + b)[rb..] == a[rb..] + b;
    }
  }

  /** Painting a row at byte `off` leaves everything before and after its bytes alone. */
  lemma OverlaidBytes(before: seq<bv8>, after: seq<bv8>, off: nat, rb: nat, row: Row)
    requires Overlaid(before, after, 8 * off, row) && off + rb <= |before| && |row| <= 8 * rb
    ensures |after| == |before| && after[..off] == before[..off] && after[off + rb..] == before[off + rb..]
    ensures RowOf(after[off..off + rb], |row|) == row
    ensures Unpack(after[off..off + rb])[|row|..] == Unpack(before[off..off + rb])[|row|..]
  {
    hide Overlaid, Unpack, RowOf;
    OverlaidFrame(before, after, off, rb, row);
    OverlaidRow(before, after, off, rb, row);
  }

  lemma OverlaidFrame(before: seq<bv8>, after: seq<bv8>, off: nat, rb: nat, row: Row)
    requires Overlaid(before, after, 8 * off, row) && off + rb <= |before| && |row| <= 8 * rb
    ensures |after| == |before| && after[..off] == before[..off] && after[off + rb..] == before[off + rb..]
  {
    hide Unpack;
    forall k | 0 <= k < |before| && (k < off || off + rb <= k)
      ensures after[k] == before[k]
    {
      SameByte(before, after, k);
    }
  }

  lemma OverlaidRow(before: seq<bv8>, after: seq<bv8>, off: nat, rb: nat, row: Row)
    requires Overlaid(before, after, 8 * off, row) && off + rb <= |before| == |after| && |row| <= 8 * rb
    ensures RowOf(after[off..off + rb], |row|) == row
    ensures Unpack(after[off..off + rb])[|row|..] == Unpack(before[off..off + rb])[|row|..]
  {
    hide Unpack;
    var old', new' := Unpack(before[off..off + rb]), Unpack(after[off..off + rb]);
    forall i | 0 <= i < 8 * rb
      ensures new'[i] == if i < |row| then row[i] else old'[i]
    {
      UnpackSliceAt(before, off, rb, i);
      UnpackSliceAt(after, off, rb, i);
    }
    assert new'[..|row|] == row;
    assert new'[|row|..] == old'[|row|..];
  }

  lemma UnpackSliceAt(b: seq<bv8>, off: nat, n: nat, i: nat)
    requires off + n <= |b| && i < 8 * n
    ensures Unpack(b[off..off + n])[i] == Unpack(b)[8 * off + i]
  {
    assert (8 * off + i) / 8 == off + i / 8 && (8 * off + i) % 8 == i % 8;
  }

  lemma SameByte(before: seq<bv8>, after: seq<bv8>, k: nat)
    requires k < |before| == |after|
    requires forall i :: 8 * k <= i < 8 * k + 8 ==> Unpack(after)[i] == Unpack(before)[i]
    ensures after[k] == before[k]
  {
    forall i | 0 <= i < 8
      ensures Bit(after[k], i) == Bit(before[k], i)
    {
      UnpackAt(before, k, i);
      UnpackAt(after, k, i);
    }
    SameBits(before[k], after[k]);
  }

  lemma SameBits(a: bv8, b: bv8)
    requires forall i :: 0 <= i < 8 ==> Bit(a, i) == Bit(b, i)
    ensures a == b
  {
    assert Bit(a, 0) == Bit(b, 0) && Bit(a, 1) == Bit(b, 1) && Bit(a, 2) == Bit(b, 2) && Bit(a, 3) == Bit(b, 3);
    assert Bit(a, 4) == Bit(b, 4) && Bit(a, 5) == Bit(b, 5) && Bit(a, 6) == Bit(b, 6) && Bit(a, 7) == Bit(b, 7);
  }
}
