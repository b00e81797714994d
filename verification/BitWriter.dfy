/** The encoder's bit packer: `_PutBits`, `Fax3FlushBits` and the raw data buffer behind them. */
module BitWriter {
  import opened Bits

  class Writer {
    /** Octets already handed to the file by a flush of the raw buffer. */
    var file: seq<byte>
    /** The raw buffer, holding at most `rawSize` octets. */
    var raw: seq<byte>
    const rawSize: nat
    /** The octet being assembled, and how many of its bits are still free. */
    var data: nat
    var bit: nat

    ghost predicate Valid()
      reads this
    {
      && rawSize > 0 && |raw| <= rawSize
      && 1 <= bit <= 8 && data < 256 && Low(data, bit) == 0
    }

    /** Everything written so far, the unfinished octet included. */
    ghost function Written(): Bitstring
      requires Valid()
      reads this
    {
      BytesBits(file + raw) + MsbBits(Shr(data, bit), 8 - bit)
    }

    constructor (rawSize: nat)
      requires rawSize > 0
      ensures Valid() && Written() == [] && bit == 8
      ensures file == [] && raw == []
    {
      this.rawSize := rawSize;
      file, raw := [], [];
      data, bit := 0, 8;
      new;
      LowIdentity(0, 8);
      assert file + raw == [];
    }

    /** How far into an octet the stream is. */
    lemma Position()
      requires Valid()
      ensures |Written()| % 8 == (8 - bit) % 8
    {
    }

    /** Emit the low eight bits of `data`, whatever the rest of it holds. */
    method FlushOctet()
      requires rawSize > 0 && |raw| <= rawSize
      modifies this
      ensures data == 0 && bit == 8 && Valid()
      ensures Written() == BytesBits(old(file + raw)) + MsbBits(old(data), 8)
    {
      if |raw| >= rawSize {
        file, raw := file + raw, [];
      }
      assert Pow2(8) == 256;
      var octet := Low(data, 8);
      MsbLow(data, 8);
      raw := raw + [octet];
      assert file + raw == old(file + raw) + [octet];
      BytesBitsPush(old(file + raw), octet);
      data, bit := 0, 8;
      LowIdentity(0, 8);
    }

    /** Complete the octet with the low `bit` bits of `part` and emit it. */
    method CompleteOctet(part: nat)
      requires Valid() && (part < Pow2(bit) || (data == 0 && bit == 8))
      modifies this
      ensures data == 0 && bit == 8 && Valid()
      ensures Written() == old(Written()) + MsbBits(part, old(bit))
    {
      FillOctet(data, bit, part);
      data := Or(data, part);
      FlushOctet();
    }

    /** Put the `length` bits of `code` into the octet, which has room for them. */
    method PutLast(code: nat, length: nat)
      requires Valid() && length <= bit && code < Pow2(length)
      modifies this
      ensures Valid() && Written() == old(Written()) + MsbBits(code, length)
    {
      hide Or, Shl, Shr, Low, MsbBits, BytesBits, Pow2;
      FillPart(data, bit, code, length);
      ShrNothing(Or(data, Shl(code, bit - length)));
      data := Or(data, Shl(code, bit - length));
      bit := bit - length;
      if bit == 0 {
        FlushOctet();
      }
    }

    /** Append the `length` low bits of `code`, most significant first. */
    method PutBits(code: nat, length: nat)
      requires Valid() && code < Pow2(length)
      modifies this
      ensures Valid() && Written() == old(Written()) + MsbBits(code, length)
    {
      hide Shl, Low, Or, BytesBits, MsbBits;
      ghost var was := Written();
      assert MsbBits(Shr(code, length), 0) == [] && was + [] == was;
      var left: nat := length;
      while left > bit
        invariant Valid() && left <= length
        invariant left == length || (data == 0 && bit == 8)
        invariant Written() == old(Written()) + MsbBits(Shr(code, left), length - left)
      {
        NextPart(code, length, left, bit);
        if left == length { ShrBound(code, bit, left - bit); }
        var shifted := left - bit;
        Concat(was, MsbBits(Shr(code, left), length - left), MsbBits(Shr(code, shifted), bit));
        CompleteOctet(Shr(code, shifted));
        left := shifted;
      }
      assert left < 9;
      NextPart(code, length, left, left);
      MsbLow(code, left);
      ShrNothing(code);
      Concat(was, MsbBits(Shr(code, left), length - left), MsbBits(code, left));
      PutLast(Low(code, left), left);
    }

    /** End the strip: pad the last octet with zeros and emit it. */
    method PostEncode()
      requires Valid()
      modifies this
      ensures Valid() && bit == 8
      ensures Written() == old(Written()) + Zeros(old(bit) % 8)
    {
      if bit != 8 {
        MsbFill(data, 0, 8 - bit, bit);
        MsbOfZero(bit);
        FlushOctet();
      }
    }
  }

  lemma ShrNothing(v: nat)
    ensures Shr(v, 0) == v
  {
  }

  /** Oring the next `bit` bits of a code into the octet completes it. */
  lemma FillOctet(data: nat, bit: nat, part: nat)
    requires 1 <= bit <= 8 && data < 256 && Low(data, bit) == 0
    requires part < Pow2(bit) || (data == 0 && bit == 8)
    ensures MsbBits(Or(data, part), 8) == MsbBits(Shr(data, bit), 8 - bit) + MsbBits(part, bit)
  {
    if part < Pow2(bit) {
      OrDisjoint(data, part, bit);
      MsbFill(data, part, 8 - bit, bit);
    }
  }

  /** Oring the last `left` bits of a code into the octet leaves `bit - left` free. */
  lemma FillPart(data: nat, bit: nat, tail: nat, left: nat)
    requires left <= bit && 1 <= bit <= 8 && data < 256 && Low(data, bit) == 0 && tail < Pow2(left)
    ensures var k := bit - left; var d := Or(data, Shl(tail, k));
            d < 256 && Low(d, k) == 0
            && MsbBits(Shr(d, k), 8 - k) == MsbBits(Shr(data, bit), 8 - bit) + MsbBits(tail, left)
  {
    hide Or, Shl, Shr, Low, Pow2, MsbBits;
    var k := bit - left;
    var x := Shl(tail, k);
    ShlBound(tail, left, k);
    OrDisjoint(data, x, bit);
    Pow2Eight();
    FillBound(data, x, 8 - bit, bit);
    LowShorter(data, bit, k);
    LowAdd(data, x, k);
    FillBits(data, bit, tail, left);
  }

  lemma Pow2Eight()
    ensures Pow2(8) == 256
  {
  }

  lemma FillBits(data: nat, bit: nat, tail: nat, left: nat)
    requires left <= bit && 1 <= bit <= 8 && Low(data, bit) == 0 && Shl(tail, bit - left) < Pow2(bit)
    ensures var k := bit - left;
            MsbBits(Shr(data + Shl(tail, k), k), 8 - k) == MsbBits(Shr(data, bit), 8 - bit) + MsbBits(tail, left)
  {
    hide Or, Shl, Shr, Low, Pow2, MsbBits;
    var k := bit - left;
    var x := Shl(tail, k);
    MsbFill(data, x, 8 - bit, bit);
    MsbSplit(data + x, 8 - k, k);
    MsbSplit(x, left, k);
    MsbShl(tail, left, k);
    SameFront(MsbBits(Shr(data + x, k), 8 - k), MsbBits(data + x, k),
              MsbBits(Shr(data, bit), 8 - bit), MsbBits(tail, left), MsbBits(x, k));
  }

  lemma SameFront(a: Bitstring, b: Bitstring, c: Bitstring, d: Bitstring, e: Bitstring)
    requires a + b == c + (d + e) && |b| == |e|
    ensures a == c + d
  {
    assert (a + b)[..|a|] == a;
    assert (c + (d + e))[..|a|] == c + d;
  }

  lemma {:induction false} FillBound(a: nat, b: nat, m: nat, n: nat)
    requires Low(a, n) == 0 && a < Pow2(m + n) && b < Pow2(n)
    ensures a + b < Pow2(m + n)
  {
    if n > 0 {
      FillBound(a / 2, b / 2, m, n - 1);
    }
  }

  lemma {:induction false} LowAdd(a: nat, b: nat, k: nat)
    requires Low(a, k) == 0 && Low(b, k) == 0
    ensures Low(a + b, k) == 0
  {
    if k > 0 {
      assert (a + b) / 2 == a / 2 + b / 2;
      LowAdd(a / 2, b / 2, k - 1);
    }
  }

  /** The first `length - left` bits of a code, followed by its next `n`. */
  lemma NextPart(code: nat, length: nat, left: nat, n: nat)
    requires n <= left <= length
    ensures MsbBits(Shr(code, left), length - left) + MsbBits(Shr(code, left - n), n)
         == MsbBits(Shr(code, left - n), length - left + n)
  {
    ShrShr(code, left - n, n);
    MsbSplit(Shr(code, left - n), length - left, n);
  }

  lemma {:induction false} ShrShr(v: nat, m: nat, n: nat)
    ensures Shr(Shr(v, m), n) == Shr(v, m + n)
  {
    if m > 0 {
      ShrShr(v / 2, m - 1, n);
    }
  }
}
