/** Parity of messages of different lengths, as forward error correction uses it: the exclusive or of
    the messages, each taken to be followed by zeros. */
module Parity {
  import opened Bits
  import opened LengthCoding

  /** Exclusive or of the low `n` bits. */
  function XorBits(a: nat, b: nat, n: nat): (r: nat)
    ensures r < Pow2(n)
  {
    if n == 0 then 0 else (a + b) % 2 + 2 * XorBits(a / 2, b / 2, n - 1)
  }

  function Xor(a: byte, b: byte): (r: byte) {
    assert Pow2(8) == 256;
    XorBits(a, b, 8)
  }

  lemma {:induction false} XorBitsLaws(a: nat, b: nat, n: nat)
    ensures XorBits(a, b, n) == XorBits(b, a, n) && XorBits(a, a, n) == 0
  {
    if n > 0 {
      XorBitsLaws(a / 2, b / 2, n - 1);
      assert (a + a) % 2 == 0;
    }
  }

  lemma XorBitsStep(a: nat, b: nat, n: nat)
    requires n > 0
    ensures XorBits(a, b, n) % 2 == (a + b) % 2 && XorBits(a, b, n) / 2 == XorBits(a / 2, b / 2, n - 1)
  {
  }

  lemma LowBits(a: nat, b: nat, c: nat, ab: nat, bc: nat)
    requires ab % 2 == (a + b) % 2 && bc % 2 == (b + c) % 2
    ensures (ab + c) % 2 == (a + bc) % 2
  {
  }

  lemma {:induction false} XorBitsAssoc(a: nat, b: nat, c: nat, n: nat)
    ensures XorBits(XorBits(a, b, n), c, n) == XorBits(a, XorBits(b, c, n), n)
  {
    if n > 0 {
      hide XorBits;
      XorBitsAssoc(a / 2, b / 2, c / 2, n - 1);
      var ab, bc := XorBits(a, b, n), XorBits(b, c, n);
      XorBitsStep(a, b, n);
      XorBitsStep(b, c, n);
      XorBitsStep(ab, c, n);
      XorBitsStep(a, bc, n);
      LowBits(a, b, c, ab, bc);
    }
  }

  lemma {:induction false} XorBitsZero(a: nat, n: nat)
    requires a < Pow2(n)
    ensures XorBits(0, a, n) == a
  {
    if n > 0 {
      XorBitsZero(a / 2, n - 1);
    }
  }

  lemma XorLaws(a: byte, b: byte, c: byte)
    ensures Xor(a, b) == Xor(b, a) && Xor(Xor(a, b), c) == Xor(a, Xor(b, c))
    ensures Xor(a, a) == 0 && Xor(0, a) == a && Xor(a, 0) == a
  {
    assert Pow2(8) == 256;
    XorBitsLaws(a, b, 8);
    XorBitsAssoc(a, b, c, 8);
    XorBitsLaws(a, 0, 8);
    XorBitsZero(a, 8);
  }

  /** Octet `j` of a message that is followed by zeros. */
  function At(d: Octets, j: nat): byte {
    if j < |d| then d[j] else 0
  }

  function Merged(a: Octets, b: Octets): (r: Octets)
    ensures |r| == if |a| < |b| then |b| else |a|
    ensures forall j :: 0 <= j < |r| ==> r[j] == Xor(At(a, j), At(b, j))
  {
    seq(if |a| < |b| then |b| else |a|, j requires 0 <= j => Xor(At(a, j), At(b, j)))
  }

  /** The parity of a group of messages. */
  function ParityOf(g: seq<Octets>): Octets {
    if g == [] then [] else Merged(ParityOf(g[..|g| - 1]), g[|g| - 1])
  }

  function XorAt(g: seq<Octets>, j: nat): byte {
    if g == [] then 0 else Xor(XorAt(g[..|g| - 1], j), At(g[|g| - 1], j))
  }

  /** The parity is as long as the longest message, and its octets are the exclusive or of theirs. */
  lemma {:induction false} ParityIs(g: seq<Octets>, j: nat)
    ensures At(ParityOf(g), j) == XorAt(g, j)
    ensures forall d :: d in g ==> |d| <= |ParityOf(g)|
    ensures g != [] ==> exists d :: d in g && |d| == |ParityOf(g)|
  {
    hide Xor;
    XorLaws(0, 0, 0);
    if g != [] {
      var init, last := g[..|g| - 1], g[|g| - 1];
      ParityIs(init, j);
      assert g == init + [last];
    }
  }

  /** `e` is the message `d`, perhaps followed by zeros. */
  ghost predicate Extends(e: Octets, d: Octets) {
    |d| <= |e| && forall j :: 0 <= j < |e| ==> e[j] == At(d, j)
  }

  /** What a receiver holds of a group, message `t` of which it lacks. */
  ghost predicate AllBut(h: seq<Octets>, g: seq<Octets>, t: nat) {
    && |h| == |g| && t < |g| && h[t] == []
    && forall i :: 0 <= i < |g| && i != t ==> Extends(h[i], g[i])
  }

  lemma {:induction false} XorWithout(h: seq<Octets>, g: seq<Octets>, t: nat, j: nat)
    requires AllBut(h, g, t)
    ensures XorAt(g, j) == Xor(XorAt(h, j), At(g[t], j))
  {
    hide Xor;
    var n := |g| - 1;
    XorLaws(XorAt(h[..n], j), At(g[t], j), At(g[n], j));
    XorLaws(At(g[t], j), At(g[n], j), 0);
    XorLaws(XorAt(h[..n], j), At(g[n], j), At(g[t], j));
    if t == n {
      SameXor(h[..n], g[..n], j);
    } else {
      XorWithout(h[..n], g[..n], t, j);
    }
  }

  lemma {:induction false} SameXor(h: seq<Octets>, g: seq<Octets>, j: nat)
    requires |h| == |g| && forall i :: 0 <= i < |g| ==> Extends(h[i], g[i])
    ensures XorAt(h, j) == XorAt(g, j)
  {
    if g != [] {
      SameXor(h[..|g| - 1], g[..|g| - 1], j);
    }
  }

  /** The parity and all messages of a group but one give that one, followed by zeros up to the length
      of the longest one. */
  lemma Repairs(h: seq<Octets>, g: seq<Octets>, t: nat, e: Octets)
    requires AllBut(h, g, t) && |e| == |ParityOf(g)|
    requires forall j :: 0 <= j < |e| ==> e[j] == Xor(ParityOf(g)[j], XorAt(h, j))
    ensures Extends(e, g[t])
  {
    hide Xor, XorAt, ParityOf;
    forall j | 0 <= j < |e|
      ensures e[j] == At(g[t], j)
    {
      ParityIs(g, j);
      XorWithout(h, g, t, j);
      var a, b := XorAt(h, j), At(g[t], j);
      XorLaws(a, b, a);
      XorLaws(b, a, a);
      XorLaws(b, 0, 0);
    }
    ParityIs(g, 0);
    assert g[t] in g;
  }
}
