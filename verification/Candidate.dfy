/** `ice.c`: ICE candidates, their priority, and their SDP line. */
module Candidates {
  import opened Options
  import opened Text
  import opened Address

  datatype CandidateType = HostType | SrflxType | PrflxType | RelayType

  datatype Candidate = Candidate(
    foundation: string, component: int, priority: nat, transport: string,
    kind: CandidateType, addr: Address, raddr: Address)

  /** The slots of each of the agent's two candidate arrays. */
  const MAX_CANDIDATES: nat := 10

  // ---- Priority ----

  function TypePreference(kind: CandidateType): nat {
    match kind
    case HostType => 126
    case SrflxType => 100
    case PrflxType => 0
    case RelayType => 0
  }

  /** The local preference of the formula is the port. */
  function Priority(kind: CandidateType, port: nat, component: int): int {
    0x100_0000 * TypePreference(kind) + 0x100 * port + (256 - component)
  }

  /** The priority is a mixed-radix code: each of its three fields can be read back, so two
      candidates with one priority agree in type preference, port and component. */
  lemma PriorityDecodes(kind: CandidateType, port: nat, component: int)
    requires port < 0x1_0000 && 1 <= component <= 256
    ensures var p := Priority(kind, port, component);
            && p / 0x100_0000 == (match kind case HostType => 126 case SrflxType => 100 case PrflxType => 0 case RelayType => 0)
            && p / 0x100 % 0x1_0000 == port
            && 256 - p % 0x100 == component
            && 0 <= p < 127 * 0x100_0000
  {
    var p := Priority(kind, port, component);
    assert p / 0x100 == 0x1_0000 * TypePreference(kind) + port;
  }

  /** Whatever the ports, a host candidate outranks a reflexive one, and that one a relay. */
  lemma PriorityOrdersTypes(hostPort: nat, srflxPort: nat, relayPort: nat, component: int)
    requires hostPort < 0x1_0000 && srflxPort < 0x1_0000 && relayPort < 0x1_0000 && 1 <= component <= 256
    ensures Priority(HostType, hostPort, component) > Priority(SrflxType, srflxPort, component)
    ensures Priority(SrflxType, srflxPort, component) > Priority(RelayType, relayPort, component)
  {
    PriorityDecodes(HostType, hostPort, component);
    PriorityDecodes(SrflxType, srflxPort, component);
    PriorityDecodes(RelayType, relayPort, component);
  }

  // ---- Creation ----

  /** `ice_candidate_create` in a zeroed slot. */
  function Create(foundation: nat, kind: CandidateType, addr: Address): (c: Candidate)
    requires addr.port < 0x1_0000
    ensures 0 <= c.priority < 127 * 0x100_0000
  {
    PriorityDecodes(kind, addr.port, 1);
    Candidate(Decimal(foundation), 1, Priority(kind, addr.port, 1), "UDP", kind, addr, ZERO)
  }

  // ---- Printing ----

  function IntText(n: int): string {
    if n < 0 then "-" + Decimal(-n) else Decimal(n)
  }

  /** A candidate line without its `a=candidate:`, ending in `rest`. */
  function Body(foundation: string, component: int, transport: string, priority: nat, address: string, port: nat, rest: string): string {
    foundation + Spaced(IntText(component), Spaced(transport, Spaced(Decimal(priority), Spaced(address, Spaced(Decimal(port), rest)))))
  }

  const LINE_START := "a=candidate:"

  function TypeText(env: Platform, c: Candidate): string {
    var related := " raddr " + ToText(env, c.raddr.ip) + " rport " + Decimal(c.raddr.port);
    match c.kind
    case HostType => "host"
    case SrflxType => "srflx" + related
    case RelayType => "relay" + related
    case PrflxType => ""
  }

  /** `ice_candidate_to_description`, given room for the whole line. */
  function ToDescription(env: Platform, c: Candidate): string {
    LINE_START + Body(c.foundation, c.component, c.transport, c.priority, ToText(env, c.addr.ip), c.addr.port,
                      Spaced("typ", Spaced(TypeText(env, c), "\r\n")))
  }

  // ---- Parsing ----

  datatype Fields = Fields(
    foundation: string, component: int, transport: string, priority: int, address: string, port: int, kind: string)

  /** The seven conversions of the `sscanf` call. Blanks in its format match any blanks, line
      ends included, so the input is everything from the candidate to the end of the text. */
  function ScanFields(s: string): Scan<Fields> {
    match ScanWord(s)
    case Stuck => Stuck
    case Read(foundation, s) =>
      match ScanInt(s)
      case Stuck => Stuck
      case Read(component, s) =>
        match ScanWord(s)
        case Stuck => Stuck
        case Read(transport, s) =>
          match ScanInt(s)
          case Stuck => Stuck
          case Read(priority, s) => ScanAddressAndType(s, foundation, component, transport, priority)
  }

  function ScanAddressAndType(s: string, foundation: string, component: int, transport: string, priority: int): Scan<Fields> {
    match ScanWord(s)
    case Stuck => Stuck
    case Read(address, s) =>
      match ScanInt(s)
      case Stuck => Stuck
      case Read(port, s) =>
        match ScanLiteral(s, "typ")
        case Stuck => Stuck
        case Read(_, s) =>
          match ScanWord(s)
          case Stuck => Stuck
          case Read(kind, s) => Read(Fields(foundation, component, transport, priority, address, port, kind), s)
  }

  // ---- What the scan can store ----

  /** The characters that the text fields hold beside their terminator. */
  const WORD_MAX: nat := 32
  const ADDRESS_MAX: nat := 45
  const TYPE_MAX: nat := 15

  predicate IsInt32(n: int) {
    -0x8000_0000 <= n < 0x8000_0000
  }

  /** What `%u` can convert: a sign only negates the unsigned result. */
  predicate IsUnsigned32(n: int) {
    -0x1_0000_0000 < n < 0x1_0000_0000
  }

  predicate FieldsFit(f: Fields) {
    && |f.foundation| <= WORD_MAX && IsInt32(f.component) && |f.transport| <= WORD_MAX && IsUnsigned32(f.priority)
    && |f.address| <= ADDRESS_MAX && IsUnsigned32(f.port) && |f.kind| <= TYPE_MAX
  }

  /** Every conversion that is reached gives a value its field can hold. Otherwise the call has no
      defined result. */
  predicate ScanFits(s: string) {
    match ScanWord(s)
    case Stuck => true
    case Read(foundation, s) =>
      && |foundation| <= WORD_MAX
      && match ScanInt(s)
         case Stuck => true
         case Read(component, s) =>
           && IsInt32(component)
           && match ScanWord(s)
              case Stuck => true
              case Read(transport, s) =>
                && |transport| <= WORD_MAX
                && match ScanInt(s)
                   case Stuck => true
                   case Read(priority, s) => IsUnsigned32(priority) && AddressAndTypeFit(s)
  }

  predicate AddressAndTypeFit(s: string) {
    match ScanWord(s)
    case Stuck => true
    case Read(address, s) =>
      && |address| <= ADDRESS_MAX
      && match ScanInt(s)
         case Stuck => true
         case Read(port, s) =>
           && IsUnsigned32(port)
           && match ScanLiteral(s, "typ")
              case Stuck => true
              case Read(_, s) =>
                match ScanWord(s)
                case Stuck => true
                case Read(kind, s) => |kind| <= TYPE_MAX
  }

  lemma CompleteScanFits(s: string)
    requires ScanFields(s).Read?
    ensures ScanFits(s) <==> FieldsFit(ScanFields(s).value)
  {
    hide ScanWord, ScanInt, ScanLiteral;
  }

  /** Only the first characters of the type word are compared. */
  function KindOf(word: string): Option<CandidateType> {
    if "host" <= word then Some(HostType)
    else if "srflx" <= word then Some(SrflxType)
    else if "relay" <= word then Some(RelayType)
    else None
  }

  predicate IsUdp(transport: string) {
    "UDP" <= transport || "udp" <= transport
  }

  function Resolve(env: Platform, address: string): Option<Ip> {
    if Find(address, "local").Some? then env.mdns(address) else FromText(env, address)
  }

  /** What parsing comes to; `Undefined` when a value does not fit its field. */
  datatype Parse = Taken(candidate: Candidate) | Refused | Undefined

  /** The checks behind the scan; `%u` wraps a negative number, `addr_set_port` keeps 16 bits. */
  function Accept(env: Platform, f: Fields): Parse {
    if !IsUdp(f.transport) || KindOf(f.kind).None? then Refused
    else
      match Resolve(env, f.address)
      case None => Refused
      case Some(ip) =>
        Taken(Candidate(f.foundation, f.component, f.priority % 0x1_0000_0000, f.transport,
                        KindOf(f.kind).value, Address(ip, f.port % 0x1_0000), ZERO))
  }

  function ParseBody(env: Platform, s: string): Parse {
    if !ScanFits(s) then Undefined
    else
      match ScanFields(s)
      case Stuck => Refused
      case Read(fields, _) => Accept(env, fields)
  }

  const CANDIDATE_START := "candidate:"

  /** Where the scan starts, behind `candidate:` with or without `a=` in front of it. */
  function BodyOf(s: string): string
    requires LINE_START <= s || CANDIDATE_START <= s
  {
    var start := if "a=" <= s then 2 else 0;
    assert |LINE_START| == 12 && |CANDIDATE_START| == 10;
    assert CANDIDATE_START <= s ==> s[0] == 'c';
    s[start + |CANDIDATE_START|..]
  }

  /** `ice_candidate_from_description` on the text that starts with the candidate line. */
  function FromDescription(env: Platform, s: string): Parse
    requires LINE_START <= s || CANDIDATE_START <= s
  {
    ParseBody(env, BodyOf(s))
  }

  lemma FromLine(env: Platform, body: string)
    ensures LINE_START <= LINE_START + body
    ensures BodyOf(LINE_START + body) == body
    ensures FromDescription(env, LINE_START + body) == ParseBody(env, body)
  {
    assert (LINE_START + body)[12..] == body;
  }

  // ---- Printing and parsing fit together ----

  lemma ScanTail(foundation: string, component: nat, transport: string, priority: nat, address: string, port: nat, after: string)
    requires IsWord(address)
    requires after != "" && !IsSpace(after[0])
    ensures var n := WordLength(after);
            ScanAddressAndType(Spaced(address, Spaced(Decimal(port), Spaced("typ", Spaced("", after)))),
                               foundation, component, transport, priority)
            == Read(Fields(foundation, component, transport, priority, address, port, after[..n]), after[n..])
  {
    var s := Spaced("", after);
    ScanWordReads(address, Spaced(Decimal(port), Spaced("typ", s)));
    ScanIntReads(port, Spaced("typ", s));
    ScanLiteralReads("typ", s);
    assert s[1..] == after;
    assert SkipSpace(s) == SkipSpace(after) == after;
  }

  /** The scan takes a candidate line apart again, whatever stands behind the type word. */
  lemma ScanBody(foundation: string, component: nat, transport: string, priority: nat, address: string, port: nat, after: string)
    requires IsWord(foundation) && IsWord(transport) && IsWord(address)
    requires after != "" && !IsSpace(after[0])
    ensures var n := WordLength(after);
            ScanFields(Body(foundation, component, transport, priority, address, port, Spaced("typ", Spaced("", after))))
            == Read(Fields(foundation, component, transport, priority, address, port, after[..n]), after[n..])
    ensures ScanFits(Body(foundation, component, transport, priority, address, port, Spaced("typ", Spaced("", after))))
            <==> FieldsFit(Fields(foundation, component, transport, priority, address, port, after[..WordLength(after)]))
  {
    var s4 := Spaced(address, Spaced(Decimal(port), Spaced("typ", Spaced("", after))));
    var s3 := Spaced(Decimal(priority), s4);
    var s2 := Spaced(transport, s3);
    ScanWordReads(foundation, Spaced(Decimal(component), s2));
    ScanIntReads(component, s2);
    ScanWordReads(transport, s3);
    ScanIntReads(priority, s4);
    ScanTail(foundation, component, transport, priority, address, port, after);
    CompleteScanFits(Body(foundation, component, transport, priority, address, port, Spaced("typ", Spaced("", after))));
  }

  lemma FromDescriptionReads(env: Platform, foundation: string, component: nat, transport: string, priority: nat,
                             address: string, port: nat, after: string)
    requires IsWord(foundation) && IsWord(transport) && IsWord(address)
    requires after != "" && !IsSpace(after[0])
    ensures var line := LINE_START + Body(foundation, component, transport, priority, address, port, Spaced("typ", Spaced("", after)));
            && LINE_START <= line
            && var fields := Fields(foundation, component, transport, priority, address, port, after[..WordLength(after)]);
               FromDescription(env, line) == if FieldsFit(fields) then Accept(env, fields) else Undefined
  {
    ScanBody(foundation, component, transport, priority, address, port, after);
    FromLine(env, Body(foundation, component, transport, priority, address, port, Spaced("typ", Spaced("", after))));
  }

  /** What the gathering code can put into the local list. */
  predicate Printable(c: Candidate) {
    && IsWord(c.foundation) && |c.foundation| <= WORD_MAX && 0 <= c.component < 0x8000_0000
    && IsWord(c.transport) && |c.transport| <= WORD_MAX && IsUdp(c.transport)
    && c.priority < 0x1_0000_0000 && c.kind != PrflxType && c.addr.ip.V4? && c.addr.port < 0x1_0000
    && c.raddr.ip.V4?
  }

  /** Round trip of one candidate line, whatever text follows it: everything but the related
      address comes back. */
  lemma DescriptionRoundTrip(env: Platform, c: Candidate, rest: string)
    requires Printable(c)
    ensures LINE_START <= ToDescription(env, c) + rest
    ensures FromDescription(env, ToDescription(env, c) + rest) == Taken(c.(raddr := ZERO))
  {
    var address := ToText(env, c.addr.ip);
    var after := TypeText(env, c) + "\r\n" + rest;
    Ip4TextIsLiteral(c.addr.ip);
    LiteralIsWord(address);
    TypeWord(env, c, rest);
    DescriptionAppend(env, c, rest);
    FromDescriptionReads(env, c.foundation, c.component, c.transport, c.priority, address, c.addr.port, after);
    AcceptsPrinted(env, c, after[..WordLength(after)]);
  }

  lemma AcceptsPrinted(env: Platform, c: Candidate, word: string)
    requires Printable(c) && KindOf(word) == Some(c.kind) && |word| <= TYPE_MAX
    ensures var fields := Fields(c.foundation, c.component, c.transport, c.priority, ToText(env, c.addr.ip), c.addr.port, word);
            FieldsFit(fields) && Accept(env, fields) == Taken(c.(raddr := ZERO))
  {
    Ip4TextLength(c.addr.ip);
    Ip4TextIsLiteral(c.addr.ip);
    Ip4RoundTrip(c.addr.ip);
    LiteralIsNotLocal(ToText(env, c.addr.ip));
  }

  lemma SpacedAppend(w: string, s: string, rest: string)
    ensures Spaced(w, s) + rest == Spaced(w, s + rest)
  {
  }

  lemma BodyAppend(foundation: string, component: int, transport: string, priority: nat, address: string, port: nat, s: string, rest: string)
    ensures Body(foundation, component, transport, priority, address, port, s) + rest
         == Body(foundation, component, transport, priority, address, port, s + rest)
  {
    var s5 := Spaced(Decimal(port), s);
    var s4 := Spaced(address, s5);
    var s3 := Spaced(Decimal(priority), s4);
    var s2 := Spaced(transport, s3);
    var s1 := Spaced(IntText(component), s2);
    SpacedAppend(Decimal(port), s, rest);
    SpacedAppend(address, s5, rest);
    SpacedAppend(Decimal(priority), s4, rest);
    SpacedAppend(transport, s3, rest);
    SpacedAppend(IntText(component), s2, rest);
    assert foundation + s1 + rest == foundation + (s1 + rest);
  }

  lemma Associative(a: string, b: string, c: string)
    ensures a + b + c == a + (b + c)
  {
  }

  lemma TypAppend(kind: string, rest: string)
    ensures Spaced("typ", Spaced(kind, "\r\n")) + rest == Spaced("typ", Spaced("", kind + "\r\n" + rest))
  {
  }

  lemma DescriptionAppend(env: Platform, c: Candidate, rest: string)
    ensures ToDescription(env, c) + rest
         == LINE_START + Body(c.foundation, c.component, c.transport, c.priority, ToText(env, c.addr.ip), c.addr.port,
                              Spaced("typ", Spaced("", TypeText(env, c) + "\r\n" + rest)))
  {
    var s := Spaced("typ", Spaced(TypeText(env, c), "\r\n"));
    var body := Body(c.foundation, c.component, c.transport, c.priority, ToText(env, c.addr.ip), c.addr.port, s);
    hide Body;
    BodyAppend(c.foundation, c.component, c.transport, c.priority, ToText(env, c.addr.ip), c.addr.port, s, rest);
    TypAppend(TypeText(env, c), rest);
    Associative(LINE_START, body, rest);
  }

  lemma LiteralIsWord(address: string)
    requires IsLiteralText(address)
    ensures IsWord(address)
  {
    forall c | c in address ensures !IsSpace(c) {
      assert IsHexDigit(c) || c == '.' || c == ':';
    }
  }

  lemma AddressIsWord(env: Platform, ip: Ip)
    requires ip.V4?
    ensures IsWord(ToText(env, ip))
  {
    Ip4TextIsLiteral(ip);
    LiteralIsWord(Ip4Text(ip));
  }

  lemma TypeWord(env: Platform, c: Candidate, rest: string)
    requires c.kind != PrflxType
    ensures var after := TypeText(env, c) + "\r\n" + rest;
            && after != "" && !IsSpace(after[0])
            && KindOf(after[..WordLength(after)]) == Some(c.kind) && WordLength(after) <= TYPE_MAX
  {
    var after := TypeText(env, c) + "\r\n" + rest;
    var word := match c.kind case HostType => "host" case SrflxType => "srflx" case RelayType => "relay";
    var blank := if c.kind == HostType then "\r\n" + rest else after[5..];
    assert after == word + blank;
    WordLengthOf(word, blank);
  }
}
