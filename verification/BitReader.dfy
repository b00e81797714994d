/** The decoder's bit accumulator: `NeedBits8`, `NeedBits16`, `GetBits` and `ClrBits`. */
module BitReader {
  import opened Bits

  class Reader {
    /** The raw data of the strip, octets sent most significant bit first. */
    const raw: seq<byte>
    var cp: nat
    var acc: nat
    var avail: nat

    ghost predicate Valid()
      reads this
    {
      cp <= |raw| && avail <= 32 && acc < Pow2(avail)
    }

    /** The bits still to be decoded: those in the accumulator, then those not yet loaded. */
    ghost function Ahead(): Bitstring
      requires Valid()
      reads this
    {
      LsbBits(acc, avail) + BytesBits(raw[cp..])
    }

    constructor (raw: seq<byte>)
      ensures Valid() && this.raw == raw && Ahead() == BytesBits(raw)
    {
      this.raw := raw;
      cp, acc, avail := 0, 0, 0;
      new;
      assert raw[0..] == raw;
    }

    predicate EndOfData()
      requires Valid()
      reads this
    {
      cp >= |raw|
    }

    /** Load the next octet, bit-reversed, above the bits already held. */
    method LoadOctet()
      requires Valid() && !EndOfData() && avail <= 24
      modifies this
      ensures Valid() && cp == old(cp) + 1 && avail == old(avail) + 8
      ensures Ahead() == old(Ahead())
    {
      hide LsbBits, MsbBits, Or, Shl, Reverse, Pow2, BytesBits;
      var octet := raw[cp];
      OctetJoins(acc, avail, octet);
      BytesBitsNext(raw, cp);
      Concat(LsbBits(acc, avail), MsbBits(octet, 8), BytesBits(raw[cp + 1..]));
      acc := Or(acc, Shl(Reverse(octet, 8), avail));
      cp := cp + 1;
      avail := avail + 8;
    }

    /** The data has run out: pretend that `n` bits are held. */
    method PadTo(n: nat)
      requires Valid() && EndOfData() && avail <= n <= 32
      modifies this
      ensures Valid() && cp == old(cp) && avail == n
      ensures Ahead() == old(Ahead()) + Zeros(n - old(avail))
    {
      var k := n - avail;
      LsbJoin(acc, avail, 0, k);
      ShlValue(0, avail);
      LsbOfZero(k);
      Pow2Monotone(avail, n);
      assert raw[cp..] == [];
      avail := n;
    }

    method NeedBits8(n: nat) returns (eof: bool)
      requires Valid() && 1 <= n <= 8
      modifies this
      ensures Valid() && Needed(old(Ahead()), Ahead(), avail, n, eof)
      ensures cp >= old(cp)
    {
      eof := false;
      if avail < n {
        if EndOfData() {
          if avail == 0 {
            assert raw[cp..] == [];
            eof := true;
          } else {
            PadTo(n);
          }
        } else {
          LoadOctet();
        }
      }
      AheadLonger(acc, avail, raw[cp..]);
    }

    method NeedBits16(n: nat) returns (eof: bool)
      requires Valid() && 1 <= n <= 16
      modifies this
      ensures Valid() && Needed(old(Ahead()), Ahead(), avail, n, eof)
      ensures cp >= old(cp)
    {
      eof := false;
      if avail < n {
        if EndOfData() {
          if avail == 0 {
            assert raw[cp..] == [];
            eof := true;
          } else {
            PadTo(n);
          }
        } else {
          LoadOctet();
          if avail < n {
            if EndOfData() {
              PadTo(n);
            } else {
              LoadOctet();
            }
          }
        }
      }
      AheadLonger(acc, avail, raw[cp..]);
    }

    /** The next `n` bits, first one lowest. */
    function GetBits(n: nat): (w: nat)
      reads this
      ensures w < Pow2(n)
    {
      Low(acc, n)
    }

    method ClrBits(n: nat)
      requires Valid() && n <= avail
      modifies this
      ensures Valid() && avail == old(avail) - n && cp == old(cp)
      ensures acc == Shr(old(acc), n)
      ensures |old(Ahead())| >= n && Ahead() == old(Ahead())[n..]
    {
      LsbSplit(acc, n, avail - n);
      ShrBound(acc, avail - n, n);
      avail := avail - n;
      acc := Shr(acc, n);
    }

    /** What `GetBits` shows is the front of the stream. */
    lemma GetBitsAhead(n: nat)
      requires Valid() && n <= avail
      ensures n <= |Ahead()| && LsbBits(GetBits(n), n) == Ahead()[..n]
    {
      LsbSplit(acc, n, avail - n);
      LsbLow(acc, n);
    }
  }

  /** The effect of asking for `n` bits: end of file exactly when nothing is left; otherwise `n` bits are
      held, the stream being unchanged except that zeros are made up once its data has run out. */
  ghost predicate Needed(before: Bitstring, after: Bitstring, avail: nat, n: nat, eof: bool) {
    && (eof <==> before == [])
    && (eof ==> after == [])
    && (!eof ==>
          && n <= avail <= |after| && |before| <= |after|
          && after == before + Zeros(|after| - |before|)
          && (after == before || |after| == n))
  }

  lemma AheadLonger(acc: nat, avail: nat, rest: seq<byte>)
    ensures |LsbBits(acc, avail) + BytesBits(rest)| == avail + 8 * |rest|
  {
  }

  /** Oring an octet, bit-reversed, above the bits held appends its bits to them. */
  lemma OctetJoins(acc: nat, avail: nat, octet: byte)
    requires acc < Pow2(avail)
    ensures var r := Or(acc, Shl(Reverse(octet, 8), avail));
            r < Pow2(avail + 8) && LsbBits(r, avail + 8) == LsbBits(acc, avail) + MsbBits(octet, 8)
  {
    hide LsbBits, MsbBits, Or, Shl, Reverse, Pow2;
    ReverseBits(octet, 8);
    LsbJoin(acc, avail, Reverse(octet, 8), 8);
    ShlBound(Reverse(octet, 8), 8, avail);
    OrDisjoint(Shl(Reverse(octet, 8), avail), acc, avail);
    OrBound(acc, Reverse(octet, 8), avail);
  }

  lemma BytesBitsNext(raw: seq<byte>, cp: nat)
    requires cp < |raw|
    ensures BytesBits(raw[cp..]) == MsbBits(raw[cp], 8) + BytesBits(raw[cp + 1..])
  {
    assert raw[cp..][1..] == raw[cp + 1..];
  }

  lemma {:induction false} OrBound(v: nat, u: nat, m: nat)
    requires v < Pow2(m) && u < Pow2(8)
    ensures v + Shl(u, m) < Pow2(m + 8)
  {
    if m > 0 {
      OrBound(v / 2, u, m - 1);
    }
  }
}
