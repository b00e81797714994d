/** What goes over the wire: the text of every kind of message, and what becomes of that text at a receiver.
    The peer is another program, so the texts are written out here. */
module MessageTexts {
  import opened TextScan
  import opened Messages

  // ---------- numbers and addresses ----------

  function DigitChar(d: nat): (c: char)
    requires d < 10
  {
    "0123456789"[d]
  }

  /** Numbers below 100000, in decimal and without zeros in front. */
  lemma DecimalText(n: nat)
    requires n < 100000
    ensures var d, c, b, a := n % 10, n / 10 % 10, n / 10 / 10 % 10, n / 10 / 10 / 10 % 10;
            Decimal(n)
            == if n < 10 then [DigitChar(d)]
               else if n < 100 then [DigitChar(c), DigitChar(d)]
               else if n < 1000 then [DigitChar(b), DigitChar(c), DigitChar(d)]
               else if n < 10000 then [DigitChar(a), DigitChar(b), DigitChar(c), DigitChar(d)]
               else [DigitChar(n / 10 / 10 / 10 / 10), DigitChar(a), DigitChar(b), DigitChar(c), DigitChar(d)]
  {
    hide Decimal, DigitChar;
    var q1 := n / 10;
    var q2 := q1 / 10;
    var q3 := q2 / 10;
    LastDigit(n);
    LastDigit(q1);
    LastDigit(q2);
    LastDigit(q3);
    LastDigit(q3 / 10);
  }

  lemma LastDigit(n: nat)
    ensures Decimal(n) == (if n < 10 then [] else Decimal(n / 10)) + [DigitChar(n % 10)]
  {
    var d := n % 10;
    assert d == 0 || d == 1 || d == 2 || d == 3 || d == 4 || d == 5 || d == 6 || d == 7 || d == 8 || d == 9;
  }

  /** The four octets of an address, the highest first, with dots between them. */
  lemma AddressIs(ip: nat)
    ensures InetNtoa(ip)
         == Decimal(ip / 0x100_0000 % 256) + "." + Decimal(ip / 0x1_0000 % 256) + "." + Decimal(ip / 256 % 256)
            + "." + Decimal(ip % 256)
  {
    hide Decimal, InetNtoa;
    FourParts(ip);
    var a, b, c, d := ip / 0x100_0000 % 256, ip / 0x1_0000 % 256, ip / 256 % 256, ip % 256;
    SevenPieces(Decimal(a), ".", Decimal(b), ".", Decimal(c), ".", Decimal(d));
  }

  lemma SevenPieces(a: string, b: string, c: string, d: string, e: string, f: string, g: string)
    ensures a + b + (c + d + (e + f + g)) == a + b + c + d + e + f + g
  {
  }

  // ---------- texts ----------

  lemma TwoPieces(a: string, b: string, c: string)
    ensures a + (b + c) == a + b + c
  {
  }

  /** `SETUP 1 GG 10.0.0.1:5000 10.0.0.2:6000`, the source first */
  lemma SetupGGText(id: CallId, a: Ip, p: Port, b: Ip, q: Port)
    ensures Compose(SetupGG(id, a, p, b, q))
         == "SETUP " + id + " GG " + InetNtoa(a) + ":" + Decimal(p) + " " + InetNtoa(b) + ":" + Decimal(q) + "\r\n"
  {
    hide Decimal, InetNtoa, Compose;
    var m := SetupGG(id, a, p, b, q);
    NotCut(m);
    var t := InetNtoa(b) + (":" + Decimal(q)) + "\r\n";
    Joined4("SETUP", " ", id, " ", PayloadText(m));
    Joined4("GG", " ", AddressText(a, p), " ", AddressText(b, q) + "\r\n");
    GGPieces(id, InetNtoa(a), Decimal(p), InetNtoa(b), Decimal(q));
  }

  lemma Joined4(a: string, b: string, c: string, d: string, e: string)
    ensures a + (b + (c + (d + e))) == a + b + c + d + e
  {
    TwoPieces(a + b + c, d, e);
    TwoPieces(a + b, c, d + e);
    TwoPieces(a, b, c + (d + e));
  }

  lemma GGPieces(id: string, a: string, p: string, b: string, q: string)
    ensures "SETUP" + " " + id + " " + ("GG" + " " + (a + (":" + p)) + " " + (b + (":" + q) + "\r\n"))
         == "SETUP " + id + " GG " + a + ":" + p + " " + b + ":" + q + "\r\n"
  {
    assert "SETUP" + " " == "SETUP " && " " + "GG" + " " == " GG ";
    TwoPieces(a, ":", p);
    TwoPieces(b, ":", q);
    var front := "SETUP " + id + " ";
    TwoPieces(front, "GG" + " " + (a + ":" + p) + " ", b + ":" + q + "\r\n");
    TwoPieces(front, "GG" + " " + (a + ":" + p), " ");
    TwoPieces(front, "GG" + " ", a + ":" + p);
    TwoPieces("SETUP " + id, " ", "GG" + " ");
    assert " " + ("GG" + " ") == " GG ";
    var start := "SETUP " + id + " GG ";
    TwoPieces(start, a + ":", p);
    TwoPieces(start, a, ":");
    var mid := start + a + ":" + p + " ";
    TwoPieces(mid, b + ":" + q, "\r\n");
    TwoPieces(mid, b + ":", q);
    TwoPieces(mid, b, ":");
  }

  lemma SetupGTText(id: CallId, a: Ip, p: Port)
    ensures Compose(SetupGT(id, a, p)) == "SETUP " + id + " GT " + InetNtoa(a) + ":" + Decimal(p) + "\r\n"
  {
    hide Decimal, InetNtoa, Compose;
    var m := SetupGT(id, a, p);
    NotCut(m);
    Joined4("SETUP", " ", id, " ", PayloadText(m));
    GTPieces("SETUP ", id, "GT", InetNtoa(a), Decimal(p));
    assert "SETUP" + " " == "SETUP " && " " + "GT" + " " == " GT ";
  }

  lemma GTPieces(kind: string, id: string, mode: string, a: string, p: string)
    ensures kind + id + " " + (mode + (" " + (a + (":" + p) + "\r\n")))
         == kind + id + (" " + mode + " ") + a + ":" + p + "\r\n"
  {
    TwoPieces(a, ":", p);
    var front := kind + id;
    TwoPieces(mode, " ", a + ":" + p + "\r\n");
    TwoPieces(front, " ", mode + " " + (a + ":" + p + "\r\n"));
    TwoPieces(" ", mode + " ", a + ":" + p + "\r\n");
    TwoPieces(" ", mode, " ");
    TwoPieces(front, " " + mode + " ", a + ":" + p + "\r\n");
    var start := front + (" " + mode + " ");
    TwoPieces(start, a + ":" + p, "\r\n");
    TwoPieces(start, a + ":", p);
    TwoPieces(start, a, ":");
  }

  lemma OkText(id: CallId, a: Ip, p: Port)
    ensures Compose(Ok(id, a, p)) == "OK " + id + " " + InetNtoa(a) + ":" + Decimal(p) + "\r\n"
  {
    hide Decimal, InetNtoa, Compose;
    var m := Ok(id, a, p);
    NotCut(m);
    Joined4("OK", " ", id, " ", PayloadText(m));
    assert "OK" + " " == "OK ";
    TwoPieces(InetNtoa(a), ":", Decimal(p));
    var front := "OK " + id + " ";
    TwoPieces(front, InetNtoa(a) + ":" + Decimal(p), "\r\n");
    TwoPieces(front, InetNtoa(a) + ":", Decimal(p));
    TwoPieces(front, InetNtoa(a), ":");
  }

  lemma ReleaseText(id: CallId)
    ensures Compose(Release(id)) == "RELEASE " + id + "\r\n"
  {
    hide Compose;
    var m := Release(id);
    NotCut(m);
    Joined4("RELEASE", " ", id, "\r", "\n");
    assert "RELEASE" + " " == "RELEASE ";
    TwoPieces("RELEASE " + id, "\r", "\n");
    assert "\r" + "\n" == "\r\n";
  }

  lemma ErrorText(id: CallId)
    ensures Compose(Error(id, Internal)) == "ERROR " + id + " INTERNAL_ERR\r\n"
    ensures Compose(Error(id, InvalidMessage)) == "ERROR " + id + " INVALID_MSG_ERR\r\n"
    ensures Compose(Error(id, Unknown)) == "ERROR " + id + " UNKNOWN_ERR\r\n"
  {
    hide Compose;
    ErrorPieces(id, Internal);
    ErrorPieces(id, InvalidMessage);
    ErrorPieces(id, Unknown);
    assert " " + ("INTERNAL_ERR" + "\r\n") == " INTERNAL_ERR\r\n";
    assert " " + ("INVALID_MSG_ERR" + "\r\n") == " INVALID_MSG_ERR\r\n";
    assert " " + ("UNKNOWN_ERR" + "\r\n") == " UNKNOWN_ERR\r\n";
  }

  lemma ErrorPieces(id: CallId, cause: Cause)
    ensures Compose(Error(id, cause)) == "ERROR " + id + (" " + (CauseText(cause) + "\r\n"))
  {
    hide Compose, CauseText;
    var m := Error(id, cause);
    NotCut(m);
    Joined4("ERROR", " ", id, " ", PayloadText(m));
    assert "ERROR" + " " == "ERROR ";
    TwoPieces("ERROR " + id, " ", CauseText(cause) + "\r\n");
  }

  // ---------- what becomes of them ----------

  /** A message whose payload has been read or refused. */
  function Finished(r: Result<Message>): Result<Message> {
    match r
    case Refused(code) => Refused(code - 100)
    case Overlong => Overlong
    case Parsed(m) => Parsed(m)
  }

  lemma ParseIs(m: Message)
    requires IsWord(m.callId)
    ensures Parse(Compose(m)) == Finished(ParsePayload(TypeText(m), m.callId, PayloadText(m)))
  {
    hide Text, PayloadText, ParsePayload, ScanWord, Compose;
    NotCut(m);
    FrontBack(m);
  }

  /** The text of a SETUP between gateways gives back the addresses and ports, the source first, unless an
      address is the broadcast address or a port is 0 or 65535. */
  lemma SetupGGParsed(id: CallId, a: Ip, p: Port, b: Ip, q: Port)
    requires IsWord(id)
    ensures Parse("SETUP " + id + " GG " + InetNtoa(a) + ":" + Decimal(p) + " "
                  + InetNtoa(b) + ":" + Decimal(q) + "\r\n")
         == if a == 0xFFFF_FFFF || b == 0xFFFF_FFFF then Refused(-103)
            else if q == 0 || q == 65535 then Refused(-107)
            else if p == 0 || p == 65535 then Refused(-104)
            else Parsed(SetupGG(id, a, p, b, q))
  {
    hide Compose, Parse, PayloadText, ParseSetup, Decimal, InetNtoa;
    var m := SetupGG(id, a, p, b, q);
    SetupGGText(id, a, p, b, q);
    ParseIs(m);
    GGOutcome(m);
  }

  lemma GGOutcome(m: Message)
    requires m.SetupGG?
    ensures ParseSetup(m.callId, PayloadText(m))
         == if !IpOk(m.srcIp) || !IpOk(m.dstIp) then Refused(-3)
            else if !PortOk(m.dstPort) then Refused(-7)
            else if !PortOk(m.srcPort) then Refused(-4)
            else Parsed(m)
  {
    hide AddressText, ScanWord, ParseAddress, IsBlank;
    var src, dst := AddressText(m.srcIp, m.srcPort), AddressText(m.dstIp, m.dstPort);
    var more := " " + (dst + "\r\n");
    BlanksEnd(src + more, dst + "\r\n");
    AddressLength(m.srcIp, m.srcPort);
    AddressTextBack(m.srcIp, m.srcPort, -2);
    AddressLength(m.dstIp, m.dstPort);
    AddressTextBack(m.dstIp, m.dstPort, -5);
    ScanFirst("GG", " " + (src + more));
    ScanSkips(' ', src + more);
    ScanFirst(src, more);
    ScanSkips(' ', dst + "\r\n");
    ScanFirst(dst, "\r\n");
  }

  lemma SetupGTParsed(id: CallId, a: Ip, p: Port)
    requires IsWord(id)
    ensures Parse("SETUP " + id + " GT " + InetNtoa(a) + ":" + Decimal(p) + "\r\n")
         == if a == 0xFFFF_FFFF then Refused(-103)
            else if p == 0 || p == 65535 then Refused(-104)
            else Parsed(SetupGT(id, a, p))
  {
    hide Compose, Parse, PayloadText, ParseSetup, Decimal, InetNtoa;
    var m := SetupGT(id, a, p);
    SetupGTText(id, a, p);
    ParseIs(m);
    GTOutcome(m);
  }

  lemma GTOutcome(m: Message)
    requires m.SetupGT?
    ensures ParseSetup(m.callId, PayloadText(m))
         == if !IpOk(m.srcIp) then Refused(-3) else if !PortOk(m.srcPort) then Refused(-4) else Parsed(m)
  {
    hide AddressText, ScanWord, ParseAddress, IsBlank;
    var src := AddressText(m.srcIp, m.srcPort);
    BlanksEnd(src + "\r\n", "");
    AddressLength(m.srcIp, m.srcPort);
    AddressTextBack(m.srcIp, m.srcPort, -2);
    ScanFirst("GT", " " + (src + "\r\n"));
    ScanSkips(' ', src + "\r\n");
    ScanFirst(src, "\r\n");
  }

  lemma OkParsed(id: CallId, a: Ip, p: Port)
    requires IsWord(id)
    ensures Parse("OK " + id + " " + InetNtoa(a) + ":" + Decimal(p) + "\r\n")
         == if a == 0xFFFF_FFFF then Refused(-103)
            else if p == 0 || p == 65535 then Refused(-104)
            else Parsed(Ok(id, a, p))
  {
    hide Compose, Parse, PayloadText, ParseOk, Decimal, InetNtoa;
    OkText(id, a, p);
    ParseIs(Ok(id, a, p));
    OkOutcome(Ok(id, a, p));
  }

  lemma OkOutcome(m: Message)
    requires m.Ok?
    ensures ParseOk(m.callId, PayloadText(m))
         == if !IpOk(m.ip) then Refused(-3) else if !PortOk(m.port) then Refused(-4) else Parsed(m)
  {
    hide AddressText, ScanWord, ParseAddress, IsBlank;
    BlanksEnd("", "");
    AddressLength(m.ip, m.port);
    AddressTextBack(m.ip, m.port, -2);
    ScanFirst(AddressText(m.ip, m.port), "\r\n");
  }

  lemma ReleaseParsed(id: CallId)
    requires IsWord(id)
    ensures Parse("RELEASE " + id + "\r\n") == Parsed(Release(id))
  {
    hide Compose, Parse, PayloadText;
    ReleaseText(id);
    ParseIs(Release(id));
  }

  lemma ErrorParsed(id: CallId)
    requires IsWord(id)
    ensures Parse("ERROR " + id + " INTERNAL_ERR\r\n") == Parsed(Error(id, Internal))
    ensures Parse("ERROR " + id + " INVALID_MSG_ERR\r\n") == Parsed(Error(id, InvalidMessage))
    ensures Parse("ERROR " + id + " UNKNOWN_ERR\r\n") == Parsed(Error(id, Unknown))
  {
    hide Compose, Parse, PayloadText, ParseError;
    ErrorText(id);
    ParseIs(Error(id, Internal));
    ErrorBack(Error(id, Internal));
    ParseIs(Error(id, InvalidMessage));
    ErrorBack(Error(id, InvalidMessage));
    ParseIs(Error(id, Unknown));
    ErrorBack(Error(id, Unknown));
  }

  /** What is read for a number of any size: it is cut down to 32 bits, so that a multiple of two to the
      thirty-second power is a port of zero, and what is negative then passes for a port. */
  lemma AnyNumber(id: CallId, a: Ip, n: nat)
    requires IsWord(id) && a != 0xFFFF_FFFF && n < 0x1_0000_0000_0000_0000
    ensures var low := n % 0x1_0000_0000;
            Parse("OK " + id + " " + InetNtoa(a) + ":" + Decimal(n) + "\r\n")
            == if low == 0 || 65535 <= low < 0x8000_0000 then Refused(-104) else Parsed(Ok(id, a, n % 0x1_0000))
  {
    hide ScanWord, InetNtoa, Decimal, IsBlank, ParseAddress, StrToUL, ToInt32;
    BlanksEnd("", "");
    var address := InetNtoa(a) + [':'] + Decimal(n);
    NumberAddress(a, n);
    LowBits(n);
    OkIsWord();
    OkPieces(id, InetNtoa(a), Decimal(n));
    assert Ends(" " + (address + "\r\n")) && Ends(" " + (id + (" " + (address + "\r\n"))));
    ScanFirst("OK", " " + (id + (" " + (address + "\r\n"))));
    ScanSkips(' ', id + (" " + (address + "\r\n")));
    ScanFirst(id, " " + (address + "\r\n"));
    Behind("OK", id, address + "\r\n");
    ScanFirst(address, "\r\n");
  }

  lemma OkIsWord()
    ensures IsWord("OK")
  {
  }

  lemma Behind(kind: string, id: string, payload: string)
    ensures var text := kind + (" " + (id + (" " + payload)));
            |kind| + |id| + 2 <= |text| && text[|kind| + |id| + 2..] == payload
  {
  }

  lemma OkPieces(id: string, a: string, n: string)
    ensures "OK " + id + " " + a + ":" + n + "\r\n" == "OK" + (" " + (id + (" " + (a + [':'] + n + "\r\n"))))
  {
    Joined4("OK", " ", id, " ", a + [':'] + n + "\r\n");
    assert "OK" + " " == "OK ";
    var front := "OK " + id + " ";
    TwoPieces(front, a + [':'] + n, "\r\n");
    TwoPieces(front, a + [':'], n);
    TwoPieces(front, a, [':']);
  }

  lemma NumberAddress(a: Ip, n: nat)
    requires a != 0xFFFF_FFFF && n < 0x1_0000_0000_0000_0000
    ensures var w := InetNtoa(a) + [':'] + Decimal(n);
            IsWord(w) && ParseAddress(w, -2) == Parsed(Address(a, ToInt32(n)))
  {
    hide InetNtoa, Decimal, InetAddr, IsBlank, ToInt32;
    AddressBack(a);
    NumberBack(n);
    DotNoBlank();
    DigitsNoBlank(Decimal(n));
    IndexIs(InetNtoa(a), ':', Decimal(n));
    var w, k := InetNtoa(a) + [':'] + Decimal(n), |InetNtoa(a)|;
    assert w[..k] == InetNtoa(a) && w[k + 1..] == Decimal(n);
  }

  lemma NumberBack(n: nat)
    requires n < 0x1_0000_0000_0000_0000
    ensures StrToUL(Decimal(n)) == n
  {
    DecimalBack(n);
    assert IsDigit(Decimal(n)[0]);
  }

  lemma LowBits(n: nat)
    ensures var low := n % 0x1_0000_0000;
            && ToInt32(n) == (if low < 0x8000_0000 then low else low - 0x1_0000_0000)
            && ToInt32(n) % 0x1_0000 == n % 0x1_0000
  {
    var q := n / 0x1_0000_0000;
    assert n == 0x1_0000 * (0x1_0000 * q) + n % 0x1_0000_0000;
  }

  // ---------- what is refused ----------

  /** Blanks of all kinds separate words. */
  lemma BlankSkipped(b: char, s: string)
    requires b in " \t\n\r\U{000B}\U{000C}"
    ensures ScanWord([b] + s) == ScanWord(s) && Ends([b] + s)
  {
    ScanSkips(b, s);
  }

  /** Of two words in front, the first one must say one of four kinds. */
  lemma KindRefused(kind: string, id: CallId, rest: string)
    requires IsWord(kind) && IsWord(id) && Ends(rest)
    ensures Parse(kind + " " + id + rest) == Refused(-3)
            <==> kind != "SETUP" && kind != "OK" && kind != "RELEASE" && kind != "ERROR"
  {
    hide ScanWord, ParsePayload, IsBlank;
    BlanksEnd(id + rest, "");
    TwoPieces(kind, " ", id + rest);
    TwoPieces(kind + " ", id, rest);
    ScanFirst(kind, " " + (id + rest));
    ScanSkips(' ', id + rest);
    ScanFirst(id, rest);
    assert kind + " " + id + rest == kind + (" " + (id + rest));
    PayloadCode(kind, id, if |kind| + |id| + 2 <= |kind + " " + id + rest|
                          then (kind + " " + id + rest)[|kind| + |id| + 2..] else "");
  }

  /** The codes for a payload that is refused. */
  lemma PayloadCode(kind: string, id: CallId, payload: string)
    ensures ParsePayload(kind, id, payload).Refused? ==> -8 <= ParsePayload(kind, id, payload).code < 0
  {
    hide ScanWord, ParseAddress;
    AddressCodes();
  }

  lemma AddressCodes()
    ensures forall w, code {:trigger ParseAddress(w, code)} ::
              ParseAddress(w, code).Refused? ==> ParseAddress(w, code).code in {code, -3}
  {
  }

  predicate AllBlank(s: string) {
    forall i :: 0 <= i < |s| ==> IsBlank(s[i])
  }

  /** With less than two words nothing is tried. */
  lemma TooShort(blanks: string, word: string, more: string)
    requires AllBlank(blanks) && AllBlank(more) && (word == "" || IsWord(word))
    ensures Parse(blanks + word + more) == Refused(-2)
  {
    hide IsBlank, ScanWord;
    NoWord(more);
    if word == "" {
      assert blanks + word + more == blanks + more;
      NoWord(blanks + more);
    } else {
      assert blanks + word + more == blanks + (word + more);
      LaterWord(blanks, word + more);
      assert more == [] || IsBlank(more[0]);
      ScanFirst(word, more);
    }
  }

  lemma {:induction false} NoWord(s: string)
    requires AllBlank(s)
    ensures ScanWord(s) == None
  {
    if s != [] {
      NoWord(s[1..]);
      ScanSkips(s[0], s[1..]);
      assert [s[0]] + s[1..] == s;
    }
  }

  lemma {:induction false} LaterWord(blanks: string, s: string)
    requires AllBlank(blanks)
    ensures ScanWord(blanks + s) == ScanWord(s)
    decreases |blanks|
  {
    if blanks == [] {
      assert blanks + s == s;
    } else {
      LaterWord(blanks[1..], s);
      ScanSkips(blanks[0], blanks[1..] + s);
      assert [blanks[0]] + (blanks[1..] + s) == blanks + s;
    }
  }
}
