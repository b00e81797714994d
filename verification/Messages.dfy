/** Signalling messages: `sig_msgCompose` prints them, `sig_msgParse` reads them. */
module Messages {
  import opened TextScan

  /** A string that fits the 32 characters set aside for a call's name. */
  type CallId = s: string | |s| <= 31 && '\0' !in s witness ""

  type Ip = n: nat | n < 0x1_0000_0000
  type Port = n: nat | n < 0x1_0000

  datatype Cause = Unknown | Internal | InvalidMessage

  /** A SETUP for a gateway at the other side has a second address, one for a terminal does not. */
  datatype Message =
    | SetupGG(callId: CallId, srcIp: Ip, srcPort: Port, dstIp: Ip, dstPort: Port)
    | SetupGT(callId: CallId, srcIp: Ip, srcPort: Port)
    | Ok(callId: CallId, ip: Ip, port: Port)
    | Release(callId: CallId)
    | Error(callId: CallId, cause: Cause)

  const MSG_BUF_LEN := 256

  function CauseText(c: Cause): string {
    match c
    case Internal => "INTERNAL_ERR"
    case InvalidMessage => "INVALID_MSG_ERR"
    case Unknown => "UNKNOWN_ERR"
  }

  function TypeText(m: Message): string {
    match m
    case SetupGG(_, _, _, _, _) => "SETUP"
    case SetupGT(_, _, _) => "SETUP"
    case Ok(_, _, _) => "OK"
    case Release(_) => "RELEASE"
    case Error(_, _) => "ERROR"
  }

  function AddressText(ip: Ip, port: Port): string {
    InetNtoa(ip) + ([':'] + Decimal(port))
  }

  /** What follows the call's name. */
  function PayloadText(m: Message): string {
    match m
    case SetupGG(_, srcIp, srcPort, dstIp, dstPort) =>
      "GG" + (" " + (AddressText(srcIp, srcPort) + (" " + (AddressText(dstIp, dstPort) + "\r\n"))))
    case SetupGT(_, srcIp, srcPort) => "GT" + (" " + (AddressText(srcIp, srcPort) + "\r\n"))
    case Ok(_, ip, port) => AddressText(ip, port) + "\r\n"
    case Release(_) => "\n"
    case Error(_, cause) => CauseText(cause) + "\r\n"
  }

  /** Between the name and the rest there is a blank; nothing but the end of the line follows the name of a
      RELEASE. */
  function Text(m: Message): string {
    TypeText(m) + (" " + (m.callId + ((if m.Release? then "\r" else " ") + PayloadText(m))))
  }

  /** `sig_msgCompose` into a buffer of MSG_BUF_LEN characters, the last of them a terminator */
  function Compose(m: Message): string {
    if |Text(m)| < MSG_BUF_LEN then Text(m) else Text(m)[..MSG_BUF_LEN - 1]
  }

  /** How parsing ends: the code returned for a message that is refused.  A name or another word that does
      not fit its buffer is not noticed by the original. */
  datatype Result<T> = Parsed(value: T) | Refused(code: int) | Overlong

  /** `strtoul(s, NULL, 10)` */
  function StrToUL(s: string): (v: nat)
    ensures v < 0x1_0000_0000_0000_0000
  {
    var digits := if s != [] && (s[0] == '-' || s[0] == '+') then s[1..] else s;
    var n := Leading(digits, 0);
    var v := if n < 0x1_0000_0000_0000_0000 then n else 0xFFFF_FFFF_FFFF_FFFF;
    if s != [] && s[0] == '-' && v > 0 then 0x1_0000_0000_0000_0000 - v else v
  }

  /** A number cut down to a signed one of 32 bits. */
  function ToInt32(v: nat): (r: int)
    ensures -0x8000_0000 <= r < 0x8000_0000
  {
    var low := v % 0x1_0000_0000;
    if low < 0x8000_0000 then low else low - 0x1_0000_0000
  }

  /** An address and a number for its port that has not been checked yet. */
  datatype Address = Address(ip: Ip, number: int)

  predicate PortBad(number: int) {
    number == 0 || number >= 0xFFFF
  }

  function ToPort(number: int): Port {
    number % 0x1_0000
  }

  /** `a.b.c.d:port`; the codes are for a missing colon and for a bad address. */
  function ParseAddress(w: string, noColon: int): Result<Address> {
    var k := IndexOf(w, ':');
    if k == |w| then Refused(noColon)
    else match InetAddr(w[..k])
         case None => Refused(-3)
         case Some(ip) =>
           if ip == 0xFFFF_FFFF || ip >= 0x1_0000_0000 then Refused(-3)
           else Parsed(Address(ip, ToInt32(StrToUL(w[k + 1..]))))
  }

  function ParseSetup(callId: CallId, payload: string): Result<Message> {
    match ScanWord(payload)
    case None => Refused(-1)
    case Some((mode, rest1)) =>
      match ScanWord(rest1)
      case None => Refused(-1)
      case Some((src, rest2)) =>
        match ParseAddress(src, -2)
        case Refused(code) => Refused(code)
        case Overlong => Overlong
        case Parsed(a) =>
          if mode == "GG" then
            match ScanWord(rest2)
            case None => Refused(-5)
            case Some((dst, _)) =>
              match ParseAddress(dst, -5)
              case Refused(code) => Refused(code)
              case Overlong => Overlong
              case Parsed(b) =>
                if PortBad(b.number) then Refused(-7)
                else if PortBad(a.number) then Refused(-4)
                else Parsed(SetupGG(callId, a.ip, ToPort(a.number), b.ip, ToPort(b.number)))
          else if mode == "GT" then
            if PortBad(a.number) then Refused(-4) else Parsed(SetupGT(callId, a.ip, ToPort(a.number)))
          else Refused(-8)
  }

  function ParseOk(callId: CallId, payload: string): Result<Message> {
    match ScanWord(payload)
    case None => Refused(-1)
    case Some((w, _)) =>
      match ParseAddress(w, -2)
      case Refused(code) => Refused(code)
      case Overlong => Overlong
      case Parsed(a) => if PortBad(a.number) then Refused(-4) else Parsed(Ok(callId, a.ip, ToPort(a.number)))
  }

  function ParseError(callId: CallId, payload: string): Result<Message> {
    match ScanWord(payload)
    case None => Refused(-1)
    case Some((w, _)) =>
      Parsed(Error(callId, if w == "INTERNAL_ERR" then Internal
                           else if w == "INVALID_MSG_ERR" then InvalidMessage else Unknown))
  }

  /** By the kind of message */
  function ParsePayload(kind: string, callId: CallId, payload: string): Result<Message> {
    if kind == "SETUP" then ParseSetup(callId, payload)
    else if kind == "OK" then ParseOk(callId, payload)
    else if kind == "ERROR" then ParseError(callId, payload)
    else Parsed(Release(callId))
  }

  /** `sig_msgParse`.  The payload is taken to begin two characters behind the two words. */
  function Parse(text: string): Result<Message> {
    match ScanWord(text)
    case None => Refused(-2)
    case Some((kind, rest)) =>
      match ScanWord(rest)
      case None => Refused(-2)
      case Some((id, _)) =>
        if kind !in {"SETUP", "OK", "ERROR", "RELEASE"} then Refused(-3)
        else if |id| > 31 || '\0' in id then Overlong
        else
          var off := |kind| + |id| + 2;
          match ParsePayload(kind, id, if off <= |text| then text[off..] else "")
          case Refused(code) => Refused(code - 100)
          case Overlong => Overlong
          case Parsed(m) => Parsed(m)
  }

  // ---------- printing and reading again ----------

  predicate PortOk(p: Port) {
    0 < p < 0xFFFF
  }

  predicate IpOk(ip: Ip) {
    ip != 0xFFFF_FFFF
  }

  /** What can be got across: the call has a name of one word, ports are neither 0 nor 65535, and no
      address is the broadcast address. */
  predicate Intact(m: Message) {
    IsWord(m.callId) &&
    match m
    case SetupGG(_, srcIp, srcPort, dstIp, dstPort) => IpOk(srcIp) && PortOk(srcPort) && IpOk(dstIp) && PortOk(dstPort)
    case SetupGT(_, srcIp, srcPort) => IpOk(srcIp) && PortOk(srcPort)
    case Ok(_, ip, port) => IpOk(ip) && PortOk(port)
    case Release(_) => true
    case Error(_, _) => true
  }

  lemma AddressLength(ip: Ip, port: Port)
    ensures |AddressText(ip, port)| <= 21 && IsWord(AddressText(ip, port)) && ':' !in InetNtoa(ip)
  {
    hide Decimal, InetNtoa, IsBlank;
    AddressBack(ip);
    assert Power10(5) == 100000;
    DecimalLength(port, 5, 100000);
    DotNoBlank();
    DigitsNoBlank(Decimal(port));
  }

  lemma DigitsNoBlank(s: string)
    requires AllDigits(s)
    ensures forall i :: 0 <= i < |s| ==> !IsBlank(s[i])
  {
  }

  lemma NotCut(m: Message)
    ensures Compose(m) == Text(m)
  {
    hide AddressText;
    match m {
      case SetupGG(_, srcIp, srcPort, dstIp, dstPort) =>
        AddressLength(srcIp, srcPort);
        AddressLength(dstIp, dstPort);
      case SetupGT(_, srcIp, srcPort) =>
        AddressLength(srcIp, srcPort);
      case Ok(_, ip, port) =>
        AddressLength(ip, port);
      case _ =>
    }
  }

  lemma PortBack(p: Port)
    ensures ToInt32(StrToUL(Decimal(p))) == p
  {
    DecimalBack(p);
    var s := Decimal(p);
    assert IsDigit(s[0]);
  }

  lemma AddressTextBack(ip: Ip, port: Port, code: int)
    ensures ParseAddress(AddressText(ip, port), code) == if IpOk(ip) then Parsed(Address(ip, port)) else Refused(-3)
  {
    hide Decimal, InetNtoa, InetAddr, IsBlank, StrToUL;
    AddressBack(ip);
    PortBack(port);
    var a, w := InetNtoa(ip), AddressText(ip, port);
    IndexIs(a, ':', Decimal(port));
    assert w == a + [':'] + Decimal(port);
    assert w[..|a|] == a && w[|a| + 1..] == Decimal(port);
  }

  /** The two words in front, and what the payload is taken to be. */
  lemma FrontBack(m: Message)
    requires IsWord(m.callId)
    ensures ScanWord(Text(m)).Some? && ScanWord(Text(m)).value.0 == TypeText(m)
    ensures ScanWord(ScanWord(Text(m)).value.1).Some? && ScanWord(ScanWord(Text(m)).value.1).value.0 == m.callId
    ensures var off := |TypeText(m)| + |m.callId| + 2; off <= |Text(m)| && Text(m)[off..] == PayloadText(m)
  {
    hide PayloadText, ScanWord;
    var tail := (if m.Release? then "\r" else " ") + PayloadText(m);
    ScanFirst(TypeText(m), " " + (m.callId + tail));
    ScanSkips(' ', m.callId + tail);
    ScanFirst(m.callId, tail);
    var off := |TypeText(m)| + |m.callId| + 2;
    assert Text(m)[off..] == PayloadText(m);
  }

  lemma SetupBack(m: Message)
    requires m.SetupGG? || m.SetupGT?
    ensures ParseSetup(m.callId, PayloadText(m)) == Parsed(m) <==>
            IpOk(m.srcIp) && PortOk(m.srcPort) && (m.SetupGG? ==> IpOk(m.dstIp) && PortOk(m.dstPort))
    ensures ParseSetup(m.callId, PayloadText(m)) != Overlong
  {
    hide AddressText, ScanWord, ParseAddress, IsBlank;
    var src := AddressText(m.srcIp, m.srcPort);
    var more := if m.SetupGG? then " " + (AddressText(m.dstIp, m.dstPort) + "\r\n") else "\r\n";
    BlanksEnd(src + more, if m.SetupGG? then AddressText(m.dstIp, m.dstPort) + "\r\n" else "");
    AddressLength(m.srcIp, m.srcPort);
    AddressTextBack(m.srcIp, m.srcPort, -2);
    ScanFirst(if m.SetupGG? then "GG" else "GT", " " + (src + more));
    ScanSkips(' ', src + more);
    ScanFirst(src, more);
    if m.SetupGG? {
      var dst := AddressText(m.dstIp, m.dstPort);
      AddressLength(m.dstIp, m.dstPort);
      AddressTextBack(m.dstIp, m.dstPort, -5);
      ScanSkips(' ', dst + "\r\n");
      ScanFirst(dst, "\r\n");
    }
  }

  lemma BlanksEnd(a: string, b: string)
    ensures Ends("\r\n") && Ends(" " + a) && Ends(" " + b) && IsBlank(' ') && IsWord("GG") && IsWord("GT")
  {
  }

  lemma OkBack(m: Message)
    requires m.Ok?
    ensures ParseOk(m.callId, PayloadText(m)) == Parsed(m) <==> IpOk(m.ip) && PortOk(m.port)
    ensures ParseOk(m.callId, PayloadText(m)) != Overlong
  {
    hide AddressText, ScanWord, ParseAddress, IsBlank;
    BlanksEnd("", "");
    AddressLength(m.ip, m.port);
    AddressTextBack(m.ip, m.port, -2);
    ScanFirst(AddressText(m.ip, m.port), "\r\n");
  }

  lemma ErrorBack(m: Message)
    requires m.Error?
    ensures ParseError(m.callId, PayloadText(m)) == Parsed(m)
  {
    hide ScanWord;
    ScanFirst(CauseText(m.cause), "\r\n");
  }

  lemma PayloadBack(m: Message)
    requires IsWord(m.callId)
    ensures ParsePayload(TypeText(m), m.callId, PayloadText(m)) == Parsed(m) <==> Intact(m)
  {
    hide PayloadText, ParseSetup, ParseOk, ParseError;
    match m {
      case SetupGG(_, _, _, _, _) => SetupBack(m);
      case SetupGT(_, _, _) => SetupBack(m);
      case Ok(_, _, _) => OkBack(m);
      case Error(_, _) => ErrorBack(m);
      case Release(_) =>
    }
  }

  /** A name that has been read is a word. */
  lemma NameIsWord(text: string)
    ensures Parse(text).Parsed? ==> IsWord(Parse(text).value.callId)
  {
    hide ScanWord, ParseAddress;
  }

  /** Reading what was printed gives back the message. */
  predicate GotAcross(m: Message) {
    Parse(Compose(m)) == Parsed(m)
  }

  /** ... just if it is one that can be got across. */
  lemma RoundTrip(m: Message)
    ensures GotAcross(m) <==> Intact(m)
  {
    hide Text, Parse, Intact, Compose;
    NotCut(m);
    if IsWord(m.callId) {
      ParseOfText(m);
      PayloadBack(m);
    } else {
      NameIsWord(Compose(m));
      NotIntact(m);
    }
  }

  lemma NotIntact(m: Message)
    requires !IsWord(m.callId)
    ensures !Intact(m)
  {
  }

  lemma ParseOfText(m: Message)
    requires IsWord(m.callId)
    ensures Parse(Text(m)) == Parsed(m) <==> ParsePayload(TypeText(m), m.callId, PayloadText(m)) == Parsed(m)
  {
    hide Text, PayloadText, ParsePayload, ScanWord;
    FrontBack(m);
  }

  /** Messages that can be printed but are not read back: a port of 65535, the broadcast address, and a name
      of two words. */
  lemma NotGotAcross(name: CallId)
    requires name == "a call"
    ensures !GotAcross(Ok(name, 0x7F00_0001, 0xFFFF))
    ensures !GotAcross(Ok(name, 0xFFFF_FFFF, 5000))
    ensures !GotAcross(Release(name))
  {
    hide GotAcross;
    RoundTrip(Ok(name, 0x7F00_0001, 0xFFFF));
    RoundTrip(Ok(name, 0xFFFF_FFFF, 5000));
    RoundTrip(Release(name));
    assert IsBlank(name[1]);
  }
}
