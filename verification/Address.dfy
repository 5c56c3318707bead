/** `address.c`: network addresses and their text form. IPv4 text is modelled in full; the IPv6
    conversions and the mDNS lookup are calls into code outside the model, so they are
    parameters (`Platform`) and every theorem holds for all of them. */
module Address {
  import opened Options
  import opened Text
  import opened Bytes

  datatype Ip = V4(a: Byte, b: Byte, c: Byte, d: Byte) | V6(bytes: seq<Byte>)

  datatype Address = Address(ip: Ip, port: nat)

  /** A zeroed struct: its family prints as IPv4. */
  const ZERO := Address(V4(0, 0, 0, 0), 0)

  datatype Platform = Platform(
    pton6: string -> Option<seq<Byte>>,
    ntop6: seq<Byte> -> string,
    mdns: string -> Option<Ip>)

  predicate SameFamily(x: Address, y: Address) {
    x.ip.V4? == y.ip.V4?
  }

  // ---- inet_ntop and inet_pton for IPv4 ----

  function Ip4Text(ip: Ip): string
    requires ip.V4?
  {
    Decimal(ip.a) + "." + Decimal(ip.b) + "." + Decimal(ip.c) + "." + Decimal(ip.d)
  }

  /** One number of a dotted quad: at most three digits, at most 255, no leading zero. */
  function ReadOctet(s: string): (r: Scan<Byte>)
    ensures r.Read? ==> |r.rest| < |s|
  {
    var (v, rest) := ReadDigits(s, 0);
    var width := |s| - |rest|;
    if 1 <= width <= 3 && v < 256 && (width == 1 || s[0] != '0') then Read(v, rest) else Stuck
  }

  function ReadDot(s: string): Scan<()> {
    if s != "" && s[0] == '.' then Read((), s[1..]) else Stuck
  }

  function ReadOctetDot(s: string): Scan<Byte> {
    match ReadOctet(s)
    case Stuck => Stuck
    case Read(v, rest) =>
      match ReadDot(rest)
      case Stuck => Stuck
      case Read(_, rest) => Read(v, rest)
  }

  function ParseIp4(s: string): (r: Option<Ip>)
    ensures r.Some? ==> r.value.V4?
  {
    match ReadOctetDot(s)
    case Stuck => None
    case Read(a, s) =>
      match ReadOctetDot(s)
      case Stuck => None
      case Read(b, s) =>
        match ReadOctetDot(s)
        case Stuck => None
        case Read(c, s) =>
          match ReadOctet(s)
          case Stuck => None
          case Read(d, rest) => if rest == "" then Some(V4(a, b, c, d)) else None
  }

  lemma OctetReads(n: Byte, rest: string)
    requires !StartsWithDigit(rest)
    ensures ReadOctet(Decimal(n) + rest) == Read(n, rest)
  {
    ReadDecimal(n, rest);
    if 10 <= n {
      assert Decimal(n) == Decimal(n / 10) + [DigitChar(n % 10)];
      if 100 <= n {
        assert Decimal(n / 10) == Decimal(n / 10 / 10) + [DigitChar(n / 10 % 10)];
      }
    }
    assert (Decimal(n) + rest)[0] == Decimal(n)[0];
  }

  lemma OctetDotReads(n: Byte, rest: string)
    ensures ReadOctetDot(Decimal(n) + "." + rest) == Read(n, rest)
  {
    assert Decimal(n) + "." + rest == Decimal(n) + ("." + rest);
    OctetReads(n, "." + rest);
    assert ("." + rest)[1..] == rest;
  }

  /** Every IPv4 address survives being printed and read back. */
  lemma Ip4RoundTrip(ip: Ip)
    requires ip.V4?
    ensures ParseIp4(Ip4Text(ip)) == Some(ip)
  {
    var s3 := Decimal(ip.d);
    var s2 := Decimal(ip.c) + "." + s3;
    var s1 := Decimal(ip.b) + "." + s2;
    assert Ip4Text(ip) == Decimal(ip.a) + "." + s1;
    OctetDotReads(ip.a, s1);
    OctetDotReads(ip.b, s2);
    OctetDotReads(ip.c, s3);
    OctetReads(ip.d, "");
    assert s3 + "" == s3;
  }

  /** What the digits in front of a rest have been read as prints as those digits again, after what
      was read before them. */
  lemma {:induction false} ReadIsPrinted(s: string, sofar: nat)
    requires sofar > 0
    ensures var (v, rest) := ReadDigits(s, sofar);
            v > 0 && Decimal(v) + rest == Decimal(sofar) + s
  {
    if StartsWithDigit(s) {
      var next := 10 * sofar + DigitValue(s[0]);
      ReadIsPrinted(s[1..], next);
      assert next / 10 == sofar && next % 10 == DigitValue(s[0]);
      assert DigitChar(next % 10) == s[0];
      assert Decimal(next) == Decimal(sofar) + [s[0]];
      assert s == [s[0]] + s[1..];
    }
  }

  lemma OctetIsPrinted(s: string)
    ensures ReadOctet(s).Read? ==> s == Decimal(ReadOctet(s).value) + ReadOctet(s).rest
  {
    if StartsWithDigit(s) {
      var d := DigitValue(s[0]);
      assert ReadDigits(s, 0) == ReadDigits(s[1..], d);
      assert s == [s[0]] + s[1..] && Decimal(d) == [s[0]] by {
        assert DigitChar(d) == s[0];
      }
      if d > 0 {
        ReadIsPrinted(s[1..], d);
      } else {
        ZeroStandsAlone(s);
      }
    }
  }

  lemma ZeroStandsAlone(s: string)
    requires StartsWithDigit(s) && s[0] == '0'
    ensures ReadOctet(s).Read? ==> ReadOctet(s).value == 0 && ReadOctet(s).rest == s[1..]
  {
    DigitsRead(s[1..], 0);
  }

  lemma {:induction false} DigitsRead(s: string, sofar: nat)
    ensures |ReadDigits(s, sofar).1| <= |s|
    ensures |ReadDigits(s, sofar).1| == |s| ==> ReadDigits(s, sofar) == (sofar, s)
  {
    if StartsWithDigit(s) {
      DigitsRead(s[1..], 10 * sofar + DigitValue(s[0]));
    }
  }

  lemma OctetDotIsPrinted(s: string)
    ensures ReadOctetDot(s).Read? ==> s == Decimal(ReadOctetDot(s).value) + "." + ReadOctetDot(s).rest
  {
    hide ReadOctet;
    OctetIsPrinted(s);
    if ReadOctetDot(s).Read? {
      var rest := ReadOctet(s).rest;
      assert rest == "." + rest[1..];
    }
  }

  /** A text is taken for an IPv4 address exactly when it is the one that address prints as. */
  lemma Ip4TextIsExact(s: string, ip: Ip)
    requires ip.V4?
    ensures ParseIp4(s) == Some(ip) <==> s == Ip4Text(ip)
  {
    Ip4RoundTrip(ip);
    if ParseIp4(s) == Some(ip) {
      Ip4IsPrinted(s);
    }
  }

  lemma Ip4IsPrinted(s: string)
    requires ParseIp4(s).Some?
    ensures s == Ip4Text(ParseIp4(s).value)
  {
    hide ReadOctet, ReadOctetDot, Decimal;
    var s1 := ReadOctetDot(s).rest;
    var s2 := ReadOctetDot(s1).rest;
    var s3 := ReadOctetDot(s2).rest;
    OctetDotIsPrinted(s);
    OctetDotIsPrinted(s1);
    OctetDotIsPrinted(s2);
    OctetIsPrinted(s3);
  }

  /** `addr_to_string` */
  function ToText(env: Platform, ip: Ip): string {
    if ip.V4? then Ip4Text(ip) else env.ntop6(ip.bytes)
  }

  /** `addr_from_string` */
  function FromText(env: Platform, s: string): Option<Ip> {
    match ParseIp4(s)
    case Some(ip) => Some(ip)
    case None =>
      match env.pton6(s)
      case Some(bytes) => Some(V6(bytes))
      case None => None
  }

  // ---- Address literals ----

  predicate IsHexDigit(c: char) {
    IsDigit(c) || 'a' <= c <= 'f' || 'A' <= c <= 'F'
  }

  /** Text made only of the characters that numeric addresses are written with. */
  predicate IsLiteralText(s: string) {
    s != "" && forall c :: c in s ==> IsHexDigit(c) || c == '.' || c == ':'
  }

  lemma Ip4TextLength(ip: Ip)
    requires ip.V4?
    ensures |Ip4Text(ip)| <= 15
  {
    OctetLength(ip.a);
    OctetLength(ip.b);
    OctetLength(ip.c);
    OctetLength(ip.d);
  }

  lemma OctetLength(n: Byte)
    ensures |Decimal(n)| <= 3
  {
    if 10 <= n {
      assert Decimal(n) == Decimal(n / 10) + [DigitChar(n % 10)];
      if 100 <= n {
        assert Decimal(n / 10) == Decimal(n / 10 / 10) + [DigitChar(n / 10 % 10)];
      }
    }
  }

  lemma Ip4TextIsLiteral(ip: Ip)
    requires ip.V4?
    ensures IsLiteralText(Ip4Text(ip))
  {
  }

  /** A literal never looks like an mDNS name. */
  lemma {:induction false} LiteralIsNotLocal(s: string)
    requires forall c :: c in s ==> IsHexDigit(c) || c == '.' || c == ':'
    ensures Find(s, "local").None?
  {
    if s != "" {
      assert s[0] in s;
      LiteralIsNotLocal(s[1..]);
    }
  }
}
