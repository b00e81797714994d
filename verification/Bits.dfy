/** Bit strings, and the arithmetic that packs them into code words and bytes.

    A code stream is a `seq<bool>`, first transmitted bit first.  `MsbBits` is the order in which the
    encoder writes a code word; `LsbBits` is the order in which the decoder's accumulator holds it.
 */
module Bits {

  type Bitstring = seq<bool>

  /** An octet of the compressed stream. */
  type byte = x: nat | x < 256

  function Pow2(n: nat): (p: nat)
    ensures p > 0
  {
    if n == 0 then 1 else 2 * Pow2(n - 1)
  }

  function Zeros(n: nat): (b: Bitstring)
    ensures |b| == n
  {
    seq(n, _ => false)
  }

  /** The low `n` bits of `v`, most significant first. */
  function MsbBits(v: nat, n: nat): (b: Bitstring)
    ensures |b| == n
  {
    if n == 0 then [] else MsbBits(v / 2, n - 1) + [v % 2 == 1]
  }

  /** The low `n` bits of `v`, least significant first. */
  function LsbBits(v: nat, n: nat): (b: Bitstring)
    ensures |b| == n
  {
    if n == 0 then [] else [v % 2 == 1] + LsbBits(v / 2, n - 1)
  }

  /** The number whose binary digits, most significant first, are `b`. */
  function Value(b: Bitstring): (v: nat)
    ensures v < Pow2(|b|)
  {
    if b == [] then 0 else 2 * Value(b[..|b| - 1]) + (if b[|b| - 1] then 1 else 0)
  }

  /** `v >> n` */
  function Shr(v: nat, n: nat): nat
  {
    if n == 0 then v else Shr(v / 2, n - 1)
  }

  /** `v << n` */
  function Shl(v: nat, n: nat): nat
  {
    if n == 0 then v else 2 * Shl(v, n - 1)
  }

  /** `v & ((1 << n) - 1)` */
  function Low(v: nat, n: nat): (r: nat)
    ensures r < Pow2(n)
  {
    if n == 0 then 0 else 2 * Low(v / 2, n - 1) + v % 2
  }

  /** The low `n` bits of `v` in the opposite order. */
  function Reverse(v: nat, n: nat): nat
  {
    if n == 0 then 0 else (if v % 2 == 1 then Pow2(n - 1) else 0) + Reverse(v / 2, n - 1)
  }

  /** Bitwise or. */
  function Or(a: nat, b: nat): nat
    decreases a + b
  {
    if a == 0 then b
    else if b == 0 then a
    else (if a % 2 == 1 || b % 2 == 1 then 1 else 0) + 2 * Or(a / 2, b / 2)
  }

  /** The stream carried by a sequence of octets, each sent most significant bit first. */
  function BytesBits(s: seq<byte>): (b: Bitstring)
    ensures |b| == 8 * |s|
  {
    if s == [] then [] else MsbBits(s[0], 8) + BytesBits(s[1..])
  }

  /** How many bits of `b` are set. */
  function Ones(b: Bitstring): nat
  {
    if b == [] then 0 else (if b[0] then 1 else 0) + Ones(b[1..])
  }

  /** `ahead` starts with `expected`, and whatever is left of it is zero: the filler that completes the
      last octet, or that the reader makes up once the data has run out. */
  ghost predicate Follows(ahead: Bitstring, expected: Bitstring) {
    && |expected| <= |ahead|
    && ahead[..|expected|] == expected
    && forall i :: |expected| <= i < |ahead| ==> !ahead[i]
  }

  lemma Concat(a: Bitstring, b: Bitstring, c: Bitstring)
    ensures a + b + c == a + (b + c)
  {
  }

  // ---------- arithmetic of powers of two ----------

  lemma Pow2Add(m: nat, n: nat)
    ensures Pow2(m + n) == Pow2(m) * Pow2(n)
  {
    if n == 0 {
    } else {
      Pow2Add(m, n - 1);
      assert Pow2(m + n) == 2 * (Pow2(m) * Pow2(n - 1));
    }
  }

  lemma Pow2Monotone(m: nat, n: nat)
    requires m <= n
    ensures Pow2(m) <= Pow2(n)
  {
    if m < n {
      Pow2Monotone(m, n - 1);
    }
  }

  lemma {:induction false} ShlValue(v: nat, n: nat)
    ensures Shl(v, n) == v * Pow2(n)
  {
    if n > 0 {
      ShlValue(v, n - 1);
      assert v * Pow2(n) == 2 * (v * Pow2(n - 1));
    }
  }

  lemma {:induction false} ShlAdd(a: nat, b: nat, n: nat)
    ensures Shl(a + b, n) == Shl(a, n) + Shl(b, n)
  {
    if n > 0 {
      ShlAdd(a, b, n - 1);
    }
  }

  lemma {:induction false} ShlBound(v: nat, m: nat, n: nat)
    requires v < Pow2(m)
    ensures Shl(v, n) < Pow2(m + n) && Low(Shl(v, n), n) == 0
  {
    if n > 0 {
      ShlBound(v, m, n - 1);
    }
  }

  lemma {:induction false} ShrBound(v: nat, m: nat, n: nat)
    requires v < Pow2(m + n)
    ensures Shr(v, n) < Pow2(m)
  {
    if n > 0 {
      ShrBound(v / 2, m, n - 1);
    }
  }

  lemma {:induction false} LowIdentity(v: nat, n: nat)
    requires v < Pow2(n)
    ensures Low(v, n) == v && Shr(v, n) == 0
  {
    if n > 0 {
      LowIdentity(v / 2, n - 1);
    }
  }

  /** Clearing a longer run of low bits clears a shorter one. */
  lemma {:induction false} LowShorter(v: nat, m: nat, n: nat)
    requires n <= m && Low(v, m) == 0
    ensures Low(v, n) == 0
  {
    if n > 0 {
      LowShorter(v / 2, m - 1, n - 1);
    }
  }

  /** Oring numbers that occupy disjoint bit positions adds them. */
  lemma {:induction false} OrDisjoint(a: nat, b: nat, k: nat)
    requires Low(a, k) == 0 && b < Pow2(k)
    ensures Or(a, b) == a + b && Or(b, a) == a + b
    decreases k
  {
    if k > 0 && a > 0 && b > 0 {
      OrDisjoint(a / 2, b / 2, k - 1);
    }
  }

  // ---------- splitting and joining bit strings ----------

  lemma {:induction false} MsbSplit(v: nat, m: nat, n: nat)
    ensures MsbBits(v, m + n) == MsbBits(Shr(v, n), m) + MsbBits(v, n)
  {
    if n > 0 {
      MsbSplit(v / 2, m, n - 1);
    }
  }

  lemma {:induction false} MsbLow(v: nat, n: nat)
    ensures MsbBits(Low(v, n), n) == MsbBits(v, n)
  {
    if n > 0 {
      MsbLow(v / 2, n - 1);
      assert Low(v, n) / 2 == Low(v / 2, n - 1);
    }
  }

  /** Adding a number below the `n` low zero bits of `a` fills those bits in. */
  lemma {:induction false} MsbFill(a: nat, b: nat, m: nat, n: nat)
    requires Low(a, n) == 0 && b < Pow2(n)
    ensures MsbBits(a + b, m + n) == MsbBits(Shr(a, n), m) + MsbBits(b, n)
    ensures Shr(a + b, n) == Shr(a, n)
  {
    if n > 0 {
      assert a % 2 == 0 && (a + b) / 2 == a / 2 + b / 2 && (a + b) % 2 == b % 2;
      MsbFill(a / 2, b / 2, m, n - 1);
    }
  }

  lemma {:induction false} MsbShl(v: nat, m: nat, n: nat)
    ensures Shr(Shl(v, n), n) == v
  {
    if n > 0 {
      MsbShl(v, m, n - 1);
    }
  }

  lemma {:induction false} MsbOfZero(n: nat)
    ensures MsbBits(0, n) == Zeros(n)
  {
    if n > 0 {
      MsbOfZero(n - 1);
    }
  }

  lemma {:induction false} LsbSplit(v: nat, m: nat, n: nat)
    ensures LsbBits(v, m + n) == LsbBits(v, m) + LsbBits(Shr(v, m), n)
  {
    if m > 0 {
      LsbSplit(v / 2, m - 1, n);
    }
  }

  lemma {:induction false} LsbLow(v: nat, n: nat)
    ensures LsbBits(Low(v, n), n) == LsbBits(v, n)
  {
    if n > 0 {
      LsbLow(v / 2, n - 1);
      assert Low(v, n) / 2 == Low(v / 2, n - 1);
    }
  }

  lemma {:induction false} LsbOfZero(n: nat)
    ensures LsbBits(0, n) == Zeros(n)
  {
    if n > 0 {
      LsbOfZero(n - 1);
    }
  }

  /** Placing `u` above the low `m` bits of `v` appends its bits. */
  lemma {:induction false} LsbJoin(v: nat, m: nat, u: nat, n: nat)
    requires v < Pow2(m)
    ensures LsbBits(v + Shl(u, m), m + n) == LsbBits(v, m) + LsbBits(u, n)
  {
    if m > 0 {
      LsbJoin(v / 2, m - 1, u, n);
      var w := v + Shl(u, m);
      assert w / 2 == v / 2 + Shl(u, m - 1) && w % 2 == v % 2;
    }
  }

  lemma {:induction false} JoinParts(v: nat, m: nat, u: nat)
    requires v < Pow2(m)
    ensures Low(v + Shl(u, m), m) == v && Shr(v + Shl(u, m), m) == u
  {
    if m > 0 {
      JoinParts(v / 2, m - 1, u);
      var w := v + Shl(u, m);
      assert w / 2 == v / 2 + Shl(u, m - 1) && w % 2 == v % 2;
    }
  }

  lemma {:induction false} LsbInjective(v: nat, w: nat, n: nat)
    requires v < Pow2(n) && w < Pow2(n) && LsbBits(v, n) == LsbBits(w, n)
    ensures v == w
  {
    if n > 0 {
      var a, b := LsbBits(v, n), LsbBits(w, n);
      assert a[0] == b[0] && a[1..] == LsbBits(v / 2, n - 1) && b[1..] == LsbBits(w / 2, n - 1);
      LsbInjective(v / 2, w / 2, n - 1);
    }
  }

  /** Reading a reversed number from the low end is reading the number from the high end. */
  lemma {:induction false} ReverseBits(v: nat, n: nat)
    ensures Reverse(v, n) < Pow2(n)
    ensures LsbBits(Reverse(v, n), n) == MsbBits(v, n)
  {
    if n > 0 {
      hide LsbBits, Shl;
      ReverseBits(v / 2, n - 1);
      var r := Reverse(v / 2, n - 1);
      LsbJoin(r, n - 1, v % 2, 1);
      ShlValue(v % 2, n - 1);
      LowestBit(v % 2);
    }
  }

  lemma LowestBit(v: nat)
    requires v < 2
    ensures LsbBits(v, 1) == [v == 1]
  {
    assert LsbBits(v / 2, 0) == [];
  }

  lemma {:induction false} ValueOfMsb(v: nat, n: nat)
    requires v < Pow2(n)
    ensures Value(MsbBits(v, n)) == v
  {
    if n > 0 {
      ValueOfMsb(v / 2, n - 1);
      assert MsbBits(v, n)[..n - 1] == MsbBits(v / 2, n - 1);
    }
  }

  lemma {:induction false} ValueJoin(a: Bitstring, b: Bitstring)
    ensures Value(a + b) == Value(a) * Pow2(|b|) + Value(b)
  {
    if b == [] {
      assert a + b == a;
    } else {
      var b' := b[..|b| - 1];
      hide Value, Pow2;
      ValueJoin(a, b');
      assert (a + b)[..|a + b| - 1] == a + b';
      ValueStep(a + b);
      ValueStep(b);
      TimesDouble(Value(a), Pow2(|b'|));
    }
  }

  lemma ValueStep(b: Bitstring)
    requires b != []
    ensures Value(b) == 2 * Value(b[..|b| - 1]) + if b[|b| - 1] then 1 else 0
    ensures Pow2(|b|) == 2 * Pow2(|b| - 1)
  {
  }

  lemma TimesDouble(x: nat, y: nat)
    ensures x * (2 * y) == 2 * (x * y)
  {
  }

  lemma {:induction false} BytesBitsJoin(s: seq<byte>, t: seq<byte>)
    ensures BytesBits(s + t) == BytesBits(s) + BytesBits(t)
  {
    if s == [] {
      assert s + t == t;
    } else {
      BytesBitsJoin(s[1..], t);
      assert (s + t)[1..] == s[1..] + t;
      hide MsbBits;
      Concat(MsbBits(s[0], 8), BytesBits(s[1..]), BytesBits(t));
    }
  }

  lemma BytesBitsPush(s: seq<byte>, b: byte)
    ensures BytesBits(s + [b]) == BytesBits(s) + MsbBits(b, 8)
  {
    BytesBitsJoin(s, [b]);
    assert BytesBits([b]) == MsbBits(b, 8) + BytesBits([]);
  }

  // ---------- counting set bits, for termination of the decoder ----------

  lemma {:induction false} OnesJoin(a: Bitstring, b: Bitstring)
    ensures Ones(a + b) == Ones(a) + Ones(b)
  {
    if a == [] {
      assert a + b == b;
    } else {
      OnesJoin(a[1..], b);
      assert (a + b)[1..] == a[1..] + b;
    }
  }

  lemma {:induction false} OnesOfZeros(b: Bitstring)
    requires forall i :: 0 <= i < |b| ==> !b[i]
    ensures Ones(b) == 0
  {
    if b != [] { OnesOfZeros(b[1..]); }
  }

  lemma OnesPadded(before: Bitstring, after: Bitstring)
    requires |before| <= |after| && after == before + Zeros(|after| - |before|)
    ensures Ones(after) == Ones(before)
  {
    OnesJoin(before, Zeros(|after| - |before|));
    OnesOfZeros(Zeros(|after| - |before|));
  }

  lemma OnesDrop(b: Bitstring, n: nat)
    requires n <= |b|
    ensures Ones(b) == Ones(b[..n]) + Ones(b[n..])
  {
    OnesJoin(b[..n], b[n..]);
    assert b == b[..n] + b[n..];
  }

  // ---------- the Follows relation ----------

  lemma FollowsPad(ahead: Bitstring, expected: Bitstring, k: nat)
    requires Follows(ahead, expected)
    ensures Follows(ahead + Zeros(k), expected)
  {
    assert (ahead + Zeros(k))[..|expected|] == ahead[..|expected|];
  }

  /** Reading `code` off a stream that carries `code + rest` leaves a stream that carries `rest`. */
  lemma FollowsDrop(ahead: Bitstring, code: Bitstring, rest: Bitstring)
    requires Follows(ahead, code + rest)
    ensures ahead[..|code|] == code
    ensures Follows(ahead[|code|..], rest)
  {
    var e := code + rest;
    assert ahead[..|code|] == ahead[..|e|][..|code|] == e[..|code|] == code;
    var t := ahead[|code|..];
    assert t[..|rest|] == ahead[..|e|][|code|..] == e[|code|..] == rest;
    forall i | |rest| <= i < |t|
      ensures !t[i]
    {
      assert t[i] == ahead[|code| + i];
    }
  }
}
