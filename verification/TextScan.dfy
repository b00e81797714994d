/** The pieces of the C library that signalling messages are printed and scanned with: decimal numbers,
    dotted addresses, and words separated by blanks. */
module TextScan {

  datatype Option<T> = None | Some(value: T)

  // ---------- decimal numbers ----------

  function Digit(d: nat): (c: char)
    requires d < 10
    ensures IsDigit(c) && DigitValue(c) == d
  {
    '0' + d as char
  }

  predicate IsDigit(c: char) {
    '0' <= c <= '9'
  }

  function DigitValue(c: char): (d: nat)
    requires IsDigit(c)
    ensures d < 10
  {
    (c - '0') as nat
  }

  predicate AllDigits(s: string) {
    forall i :: 0 <= i < |s| ==> IsDigit(s[i])
  }

  /** `%u` */
  function Decimal(n: nat): (s: string)
    ensures |s| > 0 && AllDigits(s)
  {
    (if n < 10 then [] else Decimal(n / 10)) + [Digit(n % 10)]
  }

  /** The number that the digits at the beginning of `s` are the continuation of `acc` to. */
  function Leading(s: string, acc: nat): nat {
    if s == [] || !IsDigit(s[0]) then acc else Leading(s[1..], 10 * acc + DigitValue(s[0]))
  }

  lemma {:induction false} LeadingJoin(s: string, t: string, acc: nat)
    requires AllDigits(s)
    ensures Leading(s + t, acc) == Leading(t, Leading(s, acc))
    decreases |s|
  {
    if s == [] {
      assert s + t == t;
    } else {
      assert (s + t)[1..] == s[1..] + t && (s + t)[0] == s[0];
      LeadingJoin(s[1..], t, 10 * acc + DigitValue(s[0]));
    }
  }

  lemma {:induction false} DecimalBack(n: nat)
    ensures Leading(Decimal(n), 0) == n
  {
    var d := Digit(n % 10);
    assert Leading([d], if n < 10 then 0 else n / 10) == n by { assert [d][1..] == []; }
    if n < 10 {
      assert Decimal(n) == [d];
    } else {
      DecimalBack(n / 10);
      LeadingJoin(Decimal(n / 10), [d], 0);
    }
  }

  lemma {:induction false} DecimalLength(n: nat, k: nat, bound: nat)
    requires n < bound && bound == Power10(k) && k > 0
    ensures |Decimal(n)| <= k
    decreases k
  {
    if n >= 10 {
      DecimalLength(n / 10, k - 1, Power10(k - 1));
    }
  }

  function Power10(k: nat): (p: nat)
    ensures p > 0
  {
    if k == 0 then 1 else 10 * Power10(k - 1)
  }

  /** No number starts with a zero but zero itself. */
  lemma {:induction false} DecimalFirst(n: nat)
    ensures n > 0 ==> Decimal(n)[0] != '0'
    ensures n == 0 ==> Decimal(n) == "0"
  {
    if n >= 10 {
      DecimalFirst(n / 10);
    }
  }

  // ---------- words ----------

  predicate IsBlank(c: char) {
    c == ' ' || c == '\t' || c == '\n' || c == '\r' || c == '\U{000B}' || c == '\U{000C}'
  }

  predicate IsWord(w: string) {
    |w| > 0 && forall i :: 0 <= i < |w| ==> !IsBlank(w[i])
  }

  /** `s` is empty or begins with a blank. */
  predicate Ends(s: string) {
    s == [] || IsBlank(s[0])
  }

  function SkipBlanks(s: string): (r: string)
    ensures r == [] || !IsBlank(r[0])
  {
    if s == [] || !IsBlank(s[0]) then s else SkipBlanks(s[1..])
  }

  /** How long the word at the beginning of `s` is. */
  function WordLength(s: string): (n: nat)
    ensures n <= |s| && (forall i :: 0 <= i < n ==> !IsBlank(s[i])) && Ends(s[n..])
    ensures s != [] && !IsBlank(s[0]) ==> n > 0
  {
    if Ends(s) then 0 else 1 + WordLength(s[1..])
  }

  /** `%s`: the next word, if there is one, and what follows it. */
  function ScanWord(s: string): (r: Option<(string, string)>)
    ensures r.Some? ==> IsWord(r.value.0) && Ends(r.value.1)
  {
    var t := SkipBlanks(s);
    if t == [] then None else Some((t[..WordLength(t)], t[WordLength(t)..]))
  }

  lemma {:induction false} WordIs(w: string, rest: string)
    requires (forall i :: 0 <= i < |w| ==> !IsBlank(w[i])) && Ends(rest)
    ensures WordLength(w + rest) == |w|
    decreases |w|
  {
    if w == [] {
      assert w + rest == rest;
    } else {
      assert (w + rest)[0] == w[0] && (w + rest)[1..] == w[1..] + rest;
      WordIs(w[1..], rest);
    }
  }

  /** A word in front of a blank is scanned as itself. */
  lemma ScanFirst(w: string, rest: string)
    requires IsWord(w) && Ends(rest)
    ensures ScanWord(w + rest) == Some((w, rest))
  {
    WordIs(w, rest);
    assert (w + rest)[0] == w[0];
    assert (w + rest)[..|w|] == w && (w + rest)[|w|..] == rest;
  }

  lemma ScanSkips(b: char, s: string)
    requires IsBlank(b)
    ensures ScanWord([b] + s) == ScanWord(s)
  {
    assert ([b] + s)[1..] == s;
  }

  // ---------- dotted addresses ----------

  /** Where `c` is in `s` for the first time; the length of `s` if it is not. */
  function IndexOf(s: string, c: char): (k: nat)
    ensures k <= |s| && (k < |s| ==> s[k] == c) && forall i :: 0 <= i < k ==> s[i] != c
  {
    if s == [] || s[0] == c then 0 else 1 + IndexOf(s[1..], c)
  }

  lemma {:induction false} IndexIs(s: string, c: char, rest: string)
    requires c !in s
    ensures IndexOf(s + [c] + rest, c) == |s|
    decreases |s|
  {
    var t := s + [c] + rest;
    if s == [] {
      assert t[0] == c;
    } else {
      assert t[0] == s[0] && t[1..] == s[1..] + [c] + rest;
      IndexIs(s[1..], c, rest);
    }
  }

  lemma {:induction false} NoIndex(s: string, c: char)
    requires c !in s
    ensures IndexOf(s, c) == |s|
  {
    if s != [] { NoIndex(s[1..], c); }
  }

  /** One number of a dotted address, in plain decimal. */
  function AddressPart(s: string): (r: Option<nat>)
    ensures r.Some? ==> r.value < 256
  {
    if |s| == 0 || |s| > 3 || !AllDigits(s) || (s[0] == '0' && |s| > 1) || Leading(s, 0) > 255 then None
    else Some(Leading(s, 0))
  }

  lemma PartBack(n: nat)
    requires n < 256
    ensures AddressPart(Decimal(n)) == Some(n)
    ensures '.' !in Decimal(n) && ':' !in Decimal(n) && |Decimal(n)| <= 3 && IsWord(Decimal(n))
  {
    DecimalBack(n);
    DecimalFirst(n);
    assert Power10(3) == 1000;
    DecimalLength(n, 3, 1000);
  }

  /** The numbers between the dots of `s`, which there are `n` of. */
  function DottedValue(s: string, n: nat, acc: nat): Option<nat>
    requires n > 0
  {
    var k := IndexOf(s, '.');
    var part := AddressPart(s[..k]);
    if part == None then None
    else if n == 1 then (if k == |s| then Some(256 * acc + part.value) else None)
    else if k == |s| then None
    else DottedValue(s[k + 1..], n - 1, 256 * acc + part.value)
  }

  /** `inet_addr`, for addresses of four decimal numbers */
  function InetAddr(s: string): Option<nat> {
    DottedValue(s, 4, 0)
  }

  /** The `n` low octets of an address, with dots between them. */
  function Dotted(ip: nat, n: nat): string
    requires n > 0
  {
    (if n == 1 then [] else Dotted(ip / 256, n - 1) + ".") + Decimal(ip % 256)
  }

  /** `inet_ntoa` */
  function InetNtoa(ip: nat): string {
    Dotted(ip, 4)
  }

  /** A number in front of a dot is read first. */
  lemma PartFirst(d: nat, rest: string, n: nat, acc: nat)
    requires d < 256 && n > 1
    ensures DottedValue(Decimal(d) + "." + rest, n, acc) == DottedValue(rest, n - 1, 256 * acc + d)
  {
    PartBack(d);
    var s := Decimal(d) + "." + rest;
    IndexIs(Decimal(d), '.', rest);
    assert s[..|Decimal(d)|] == Decimal(d) && s[|Decimal(d)| + 1..] == rest;
  }

  lemma PartLast(d: nat, acc: nat)
    requires d < 256
    ensures DottedValue(Decimal(d), 1, acc) == Some(256 * acc + d)
  {
    PartBack(d);
    NoIndex(Decimal(d), '.');
    assert Decimal(d)[..|Decimal(d)|] == Decimal(d);
  }

  lemma FourParts(ip: nat)
    ensures var a, b, c, d := ip / 0x100_0000 % 256, ip / 0x1_0000 % 256, ip / 256 % 256, ip % 256;
            InetNtoa(ip) == Decimal(a) + "." + (Decimal(b) + "." + (Decimal(c) + "." + Decimal(d)))
  {
    hide Decimal;
    var x1, x2, x3 := ip / 256, ip / 256 / 256, ip / 256 / 256 / 256;
    assert x2 == ip / 0x1_0000 && x3 == ip / 0x100_0000;
    assert Dotted(x3, 1) == [] + Decimal(x3 % 256) == Decimal(x3 % 256);
    assert Dotted(x2, 2) == Dotted(x3, 1) + "." + Decimal(x2 % 256);
    assert Dotted(x1, 3) == Dotted(x2, 2) + "." + Decimal(x1 % 256);
    assert Dotted(ip, 4) == Dotted(x1, 3) + "." + Decimal(ip % 256);
  }

  /** Printing an address and reading it again. */
  lemma AddressBack(ip: nat)
    requires ip < 0x1_0000_0000
    ensures InetAddr(InetNtoa(ip)) == Some(ip)
    ensures ':' !in InetNtoa(ip) && IsWord(InetNtoa(ip)) && |InetNtoa(ip)| <= 15
  {
    hide DottedValue, Decimal, InetNtoa, IsBlank;
    var a, b, c, d := ip / 0x100_0000 % 256, ip / 0x1_0000 % 256, ip / 256 % 256, ip % 256;
    FourParts(ip);
    PartFirst(a, Decimal(b) + "." + (Decimal(c) + "." + Decimal(d)), 4, 0);
    PartFirst(b, Decimal(c) + "." + Decimal(d), 3, a);
    PartFirst(c, Decimal(d), 2, 256 * a + b);
    PartLast(d, 256 * (256 * a + b) + c);
    PartBack(a);
    PartBack(b);
    PartBack(c);
    PartBack(d);
    DotNoBlank();
    FourOctets(ip);
  }

  lemma FourOctets(ip: nat)
    requires ip < 0x1_0000_0000
    ensures 256 * (256 * (256 * (ip / 0x100_0000 % 256) + ip / 0x1_0000 % 256) + ip / 256 % 256) + ip % 256 == ip
  {
    var a := ip / 256;
    var b := a / 256;
    assert ip / 0x1_0000 == b && ip / 0x100_0000 == b / 256;
    assert 256 * (b / 256) + b % 256 == b;
  }

  lemma DotNoBlank()
    ensures !IsBlank('.') && !IsBlank(':')
  {
  }
}
