/** `base64.c`: the encoder and decoder of section 4 of RFC 4648, with their output limits. Bytes are
    numbers below 256; the source's masks and shifts are written as divisions and remainders by
    powers of two. */
module Base64 {
  import opened Options
  import opened Bytes

  predicate InTable(c: char) {
    'A' <= c <= 'Z' || 'a' <= c <= 'z' || '0' <= c <= '9' || c == '+' || c == '/'
  }

  /** What `strchr` finds for a character of the table. */
  function Place(c: char): (v: nat)
    requires InTable(c)
    ensures v < 64
  {
    if 'A' <= c <= 'Z' then c as int - 'A' as int
    else if 'a' <= c <= 'z' then c as int - 'a' as int + 26
    else if '0' <= c <= '9' then c as int - '0' as int + 52
    else if c == '+' then 62
    else 63
  }

  /** `base64_table[v]`; the search in the table is its inverse. */
  function Digit(v: nat): (c: char)
    requires v < 64
    ensures InTable(c) && Place(c) == v
  {
    if v < 26 then 'A' + v as char
    else if v < 52 then 'a' + (v - 26) as char
    else if v < 62 then '0' + (v - 52) as char
    else if v == 62 then '+'
    else '/'
  }

  const UPPER := "ABCDEFGHIJKLMNOPQRSTUVWXYZ"
  const LOWER := "abcdefghijklmnopqrstuvwxyz"
  const DIGITS := "0123456789"

  /** The alphabet of section 4 of RFC 4648. */
  const TABLE := UPPER + LOWER + DIGITS + "+/"

  lemma UpperDigits(v: nat)
    requires v < 26
    ensures |UPPER| == 26 && UPPER[v] == Digit(v)
  {
  }

  lemma LowerDigits(v: nat)
    requires v < 26
    ensures |LOWER| == 26 && LOWER[v] == Digit(26 + v)
  {
  }

  lemma DecimalDigits(v: nat)
    requires v < 10
    ensures |DIGITS| == 10 && DIGITS[v] == Digit(52 + v)
  {
  }

  /** The digit of a value is its place in the alphabet. */
  lemma DigitsAreTable(v: nat)
    requires v < 64
    ensures |TABLE| == 64 && Digit(v) == TABLE[v]
  {
    UpperDigits(if v < 26 then v else 0);
    LowerDigits(if 26 <= v < 52 then v - 26 else 0);
    DecimalDigits(if 52 <= v < 62 then v - 52 else 0);
  }

  // ---- Encoding ----

  /** The four characters for `n` bytes, the missing ones of the three being zero. */
  function EncodeGroup(a: Byte, b: Byte, c: Byte, n: nat): (s: string)
    ensures |s| == 4
  {
    [Digit(a / 4),
     Digit(a % 4 * 16 + b / 16),
     if n > 1 then Digit(b % 16 * 4 + c / 64) else '=',
     if n > 2 then Digit(c % 64) else '=']
  }

  function Encode(x: seq<Byte>): (s: string)
    ensures |s| == (|x| + 2) / 3 * 4
  {
    if x == [] then ""
    else if |x| == 1 then EncodeGroup(x[0], 0, 0, 1)
    else if |x| == 2 then EncodeGroup(x[0], x[1], 0, 2)
    else EncodeGroup(x[0], x[1], x[2], 3) + Encode(x[3..])
  }

  lemma EncodeEmpty()
    ensures Encode([]) == ""
  {
  }

  /** The characters of the encoding that are written with room for `room`: all of them, or as many
      whole quads as fit. */
  function Written(full: nat, room: nat): (n: nat)
    ensures n <= full && n <= room
  {
    if full <= room then full else room / 4 * 4
  }

  /** How many places of the output are written: the characters, and a terminator behind the text if
      all of it fits. */
  function Touched(full: nat, room: nat): nat {
    if full <= room then full + 1 else Written(full, room)
  }

  /** The terminator goes behind the room given exactly when the text fills that room. */
  lemma TerminatorBehindRoom(input: seq<Byte>, room: nat)
    ensures Touched(|Encode(input)|, room) > room <==> |Encode(input)| == room
  {
  }

  function Rest(input: seq<Byte>, i: nat): seq<Byte> {
    if i < |input| then input[i..] else []
  }

  lemma {:induction false} EncodeUnfolds(input: seq<Byte>, i: nat)
    requires i < |input|
    ensures var rest := input[i..];
            && Encode(rest) == EncodeGroup(rest[0], if |rest| > 1 then rest[1] else 0, if |rest| > 2 then rest[2] else 0,
                                           if |rest| > 2 then 3 else |rest|)
                               + Encode(Rest(input, i + 3))
  {
    var rest := input[i..];
    if |rest| >= 3 {
      assert rest[3..] == input[i + 3..];
    } else {
      assert Encode([]) == "";
    }
  }

  /** `base64_encode`. When the whole text fits, the terminator is written behind it, so that place
      has to exist even where it lies beyond `outputLen`. */
  method EncodeInto(input: seq<Byte>, output: array<char>, outputLen: nat)
    requires outputLen <= output.Length
    requires |Encode(input)| <= outputLen ==> |Encode(input)| < output.Length
    modifies output
    ensures var full := Encode(input);
            var n := Written(|full|, outputLen);
            && output[..n] == full[..n]
            && (|full| <= outputLen ==> output[n] == '\0')
            && forall k :: Touched(|full|, outputLen) <= k < output.Length ==> output[k] == old(output[k])
  {
    hide Encode, EncodeGroup, Digit, Place, Written;
    ghost var full := Encode(input);
    var buf := new Byte[3](_ => 0);
    var outputIndex := 0;
    var i := 0;
    assert Rest(input, 0) == input;
    EncodeEmpty();
    while i < |input|
      invariant outputIndex <= outputLen && outputIndex % 4 == 0 && outputIndex <= |full|
      invariant full[outputIndex..] == Encode(Rest(input, i))
      invariant output[..outputIndex] == full[..outputIndex]
      invariant forall k :: outputIndex <= k < output.Length ==> output[k] == old(output[k])
    {
      var bufLen := NextGroup(input, i, buf, full, outputIndex);
      if outputIndex + 4 > outputLen {
        WrittenIs(|full|, outputLen, outputIndex);
        return;
      }
      ghost var was := output[..];
      WriteQuad(buf[0], buf[1], buf[2], bufLen, output, outputIndex);
      QuadWritten(full, outputIndex, was, output[..]);
      outputIndex := outputIndex + 4;
      i := i + 3;
    }
    assert outputIndex == |full|;
    WrittenIs(|full|, outputLen, outputIndex);
    output[outputIndex] := '\0';
  }

  /** The inner loop, and what it means for the text: the group in `buf` is its next quad. */
  method NextGroup(input: seq<Byte>, i: nat, buf: array<Byte>, ghost full: string, ghost at: nat) returns (bufLen: nat)
    requires i < |input| && buf.Length == 3
    requires at <= |full| && full[at..] == Encode(Rest(input, i))
    modifies buf
    ensures at + 4 <= |full| && full[at..at + 4] == EncodeGroup(buf[0], buf[1], buf[2], bufLen)
    ensures full[at + 4..] == Encode(Rest(input, i + 3))
  {
    hide Encode, EncodeGroup;
    bufLen := FillGroup(input, i, buf);
    EncodeUnfolds(input, i);
    QuadInFront(full, at, EncodeGroup(buf[0], buf[1], buf[2], bufLen), Encode(Rest(input, i + 3)));
  }

  lemma WrittenIs(full: nat, room: nat, at: nat)
    requires at % 4 == 0 && at <= room && (at == full || (at + 4 <= full && room < at + 4))
    ensures Written(full, room) == at
  {
  }

  lemma QuadInFront(full: string, at: nat, quad: string, more: string)
    requires at <= |full| && full[at..] == quad + more && |quad| == 4
    ensures at + 4 <= |full| && full[at..at + 4] == quad && full[at + 4..] == more
  {
    assert full[at..][..4] == quad && full[at..][4..] == more;
  }

  lemma QuadWritten(full: string, at: nat, was: string, now: string)
    requires at + 4 <= |full| && at + 4 <= |now| == |was|
    requires was[..at] == full[..at] == now[..at] && now[at..at + 4] == full[at..at + 4]
    ensures now[..at + 4] == full[..at + 4]
  {
    assert now[..at + 4] == now[..at] + now[at..at + 4];
    assert full[..at + 4] == full[..at] + full[at..at + 4];
  }

  method WriteQuad(a: Byte, b: Byte, c: Byte, bufLen: nat, output: array<char>, outputIndex: nat)
    requires outputIndex + 4 <= output.Length
    modifies output
    ensures output[..outputIndex] == old(output[..outputIndex])
    ensures output[outputIndex..outputIndex + 4] == EncodeGroup(a, b, c, bufLen)
    ensures forall k :: outputIndex + 4 <= k < output.Length ==> output[k] == old(output[k])
  {
    output[outputIndex] := Digit(a / 4);
    output[outputIndex + 1] := Digit(a % 4 * 16 + b / 16);
    output[outputIndex + 2] := if bufLen > 1 then Digit(b % 16 * 4 + c / 64) else '=';
    output[outputIndex + 3] := if bufLen > 2 then Digit(c % 64) else '=';
  }

  /** The inner loop: up to three bytes, zero behind the end of the input. */
  method FillGroup(input: seq<Byte>, i: nat, buf: array<Byte>) returns (bufLen: nat)
    requires i < |input| && buf.Length == 3
    modifies buf
    ensures bufLen == if |input| - i > 3 then 3 else |input| - i
    ensures forall j :: 0 <= j < 3 ==> buf[j] == if i + j < |input| then input[i + j] else 0
  {
    bufLen := 0;
    for j := 0 to 3
      invariant bufLen == if |input| - i > j then j else |input| - i
      invariant forall k :: 0 <= k < j ==> buf[k] == if i + k < |input| then input[i + k] else 0
    {
      if i + j < |input| {
        buf[j] := input[i + j];
        bufLen := bufLen + 1;
      } else {
        buf[j] := 0;
      }
    }
  }

  // ---- Decoding ----

  predicate IsText(s: string) {
    forall k :: 0 <= k < |s| ==> InTable(s[k]) || s[k] == '='
  }

  /** What a character stores. `strchr` finds a zero character too, at the table's own terminator;
      for any other character outside the table it finds nothing to subtract the table from. */
  function Bits(c: char): (v: Option<nat>)
    ensures v.Some? ==> v.value <= 64
  {
    if c == '=' then Some(0) else if InTable(c) then Some(Place(c)) else if c == '\0' then Some(64) else None
  }

  predicate AllKnown(g: string) {
    forall k :: 0 <= k < |g| ==> Bits(g[k]).Some?
  }

  /** The characters of a group that are not padding. */
  function Significant(g: string): (n: nat)
    ensures n <= |g|
  {
    if g == "" then 0 else Significant(g[..|g| - 1]) + if g[|g| - 1] != '=' then 1 else 0
  }

  /** `((c & 3) << 6) | d` */
  function LastByte(c: nat, d: nat): (b: Byte)
    requires d <= 64
  {
    if d < 64 then c % 4 * 64 + d else if c % 2 == 1 then c % 4 * 64 else c % 4 * 64 + 64
  }

  /** The bytes of a group: one, and one more for each significant character beyond the second.
      `second` is what stands in the second place of the buffer. */
  function DecodeGroup(g: string, second: nat): (bytes: seq<Byte>)
    requires 1 <= |g| <= 4 && AllKnown(g) && (|g| > 1 ==> Bits(g[1]) == Some(second))
    ensures 1 <= |bytes| <= 3 && (|bytes| <= Significant(g) || |bytes| == 1)
  {
    var n := Significant(g);
    [(Bits(g[0]).value * 4 + second / 16 % 4) % 256]
    + (if n > 2 then [(second % 16 * 16 + Bits(g[2]).value % 64 / 4) % 256] else [])
    + (if n > 3 then [LastByte(Bits(g[2]).value, Bits(g[3]).value)] else [])
  }

  function GroupLength(s: string): nat {
    if |s| < 4 then |s| else 4
  }

  /** What decoding comes to. It is undefined when a character is unknown, when a single character
      leaves the second place of the buffer unset, and when a group of padding only writes its byte
      behind the room. */
  datatype Decoded = Bytes(bytes: seq<Byte>) | NoRoom | Undefined

  function SecondPlace(g: string, was: Option<nat>): Option<nat> {
    if |g| > 1 then Bits(g[1]) else was
  }

  /** Each group has to leave room for as many bytes as it has significant characters, one more
      than it writes. `was` is what an earlier group left in the second place of the buffer. */
  function Decode(s: string, room: nat, was: Option<nat>): Decoded
    decreases |s|
  {
    if s == "" then Bytes([])
    else
      var g := s[..GroupLength(s)];
      if !AllKnown(g) then Undefined
      else if Significant(g) > room then NoRoom
      else
        var second := SecondPlace(g, was);
        if second.None? || room == 0 then Undefined
        else
          var bytes := DecodeGroup(g, second.value);
          Prepend(bytes, Decode(s[|g|..], room - |bytes|, second))
  }

  function Prepend(bytes: seq<Byte>, rest: Decoded): Decoded {
    match rest
    case Bytes(more) => Bytes(bytes + more)
    case NoRoom => NoRoom
    case Undefined => Undefined
  }

  /** Every group has a character that is not padding. */
  predicate GroupsSignificant(s: string)
    decreases |s|
  {
    s != "" ==> Significant(s[..GroupLength(s)]) > 0 && GroupsSignificant(s[GroupLength(s)..])
  }

  /** Texts of table characters and padding are decoded or refused, unless they are a single character
      or have a group of padding only. */
  lemma {:induction false} TextIsDefined(s: string, room: nat, was: Option<nat>)
    requires IsText(s) && GroupsSignificant(s) && (|s| == 1 ==> was.Some?)
    ensures Decode(s, room, was) != Undefined
    decreases |s|
  {
    hide Significant, DecodeGroup, Decode, Bits, AllKnown;
    if s == "" {
      NothingLeft(room, was);
    } else {
      var g := s[..GroupLength(s)];
      TextIsKnown(s);
      DecodeUnfolds(s, room, was);
      if Significant(g) <= room {
        var second := SecondPlace(g, was);
        TextIsDefined(s[|g|..], room - |DecodeGroup(g, second.value)|, second);
      }
    }
  }

  lemma TextIsKnown(s: string)
    requires IsText(s) && s != ""
    ensures var g := s[..GroupLength(s)];
            AllKnown(g) && (|g| > 1 ==> Bits(g[1]).Some?) && IsText(s[|g|..])
  {
    hide InTable, Place;
  }

  /** With room for as many bytes as there are characters, decoding is undefined exactly when a
      character is unknown or there is only one. */
  lemma {:induction false} UndefinedWithRoom(s: string, room: nat, was: Option<nat>)
    requires |s| <= room
    ensures Decode(s, room, was) != NoRoom
    ensures Decode(s, room, was) == Undefined <==> !AllKnown(s) || (|s| == 1 && was.None?)
    decreases |s|
  {
    hide Significant, DecodeGroup, Decode, Bits;
    if s == "" {
      NothingLeft(room, was);
    } else {
      var g := s[..GroupLength(s)];
      var second := SecondPlace(g, was);
      DecodeUnfolds(s, room, was);
      KnownParts(s, GroupLength(s));
      if AllKnown(g) && second.Some? {
        UndefinedWithRoom(s[|g|..], room - |DecodeGroup(g, second.value)|, second);
      }
    }
  }

  lemma KnownParts(s: string, n: nat)
    requires n <= |s|
    ensures AllKnown(s) <==> AllKnown(s[..n]) && AllKnown(s[n..])
  {
    hide Bits;
    assert forall k :: n <= k < |s| ==> s[k] == s[n..][k - n];
  }

  /** `base64_decode`. When `defined` is false, the source's behaviour is not. */
  method DecodeInto(input: string, output: array<Byte>, outputLen: nat) returns (ret: int, defined: bool)
    requires outputLen <= output.Length
    modifies output
    ensures match Decode(input, outputLen, None)
            case Bytes(bytes) => defined && ret == |bytes| <= outputLen && output[..ret] == bytes
            case NoRoom => defined && ret == -1
            case Undefined => !defined
    ensures output[outputLen..] == old(output[outputLen..])
  {
    hide DecodeGroup, Significant, AllKnown, Decode;
    var outputIndex := 0;
    var i := 0;
    var buf := new nat[4](_ => 0);
    ghost var second: Option<nat> := None;
    ghost var whole := Decode(input, outputLen, None);
    assert input[0..] == input;
    PrependNothing(output[..0], whole);
    while i < |input|
      invariant i <= |input| && outputIndex <= outputLen
      invariant second == if i == 0 then None else Some(buf[1])
      invariant whole == Prepend(output[..outputIndex], Decode(input[i..], outputLen - outputIndex, second))
      invariant output[outputLen..] == old(output[outputLen..])
    {
      ghost var s, room := input[i..], outputLen - outputIndex;
      ghost var g := s[..GroupLength(s)];
      DecodeUnfolds(s, room, second);
      var bufLen, known := ReadGroup(input, i, buf);
      if !known {
        return -1, false;
      }
      if outputIndex + bufLen > outputLen {
        return -1, true;
      }
      if (i == 0 && |input| == 1) || outputIndex == outputLen {
        return -1, false;
      }
      second := SecondPlace(g, second);
      ghost var done := output[..outputIndex];
      outputIndex := WriteBytes(g, buf, bufLen, output, outputIndex);
      assert output[..outputIndex] == done + DecodeGroup(g, buf[1]);
      PrependTwice(done, DecodeGroup(g, buf[1]), Decode(s[|g|..], outputLen - outputIndex, second));
      i := if i + 4 <= |input| then i + 4 else |input|;
      assert s[|g|..] == input[i..];
    }
    assert input[i..] == "";
    NothingLeft(outputLen - outputIndex, second);
    return outputIndex, true;
  }

  lemma NothingLeft(room: nat, was: Option<nat>)
    ensures Decode("", room, was) == Bytes([])
  {
  }

  lemma DecodeUnfolds(s: string, room: nat, was: Option<nat>)
    requires s != ""
    ensures var g := s[..GroupLength(s)];
            var second := SecondPlace(g, was);
            Decode(s, room, was) ==
            if !AllKnown(g) then Undefined
            else if Significant(g) > room then NoRoom
            else if second.None? || room == 0 then Undefined
            else Prepend(DecodeGroup(g, second.value), Decode(s[|g|..], room - |DecodeGroup(g, second.value)|, second))
  {
    hide DecodeGroup, Significant;
  }

  method WriteBytes(ghost g: string, buf: array<nat>, bufLen: nat, output: array<Byte>, outputIndex: nat) returns (next: nat)
    requires 1 <= |g| <= 4 && AllKnown(g) && bufLen == Significant(g)
    requires buf.Length == 4 && forall j :: 0 <= j < |g| ==> Bits(g[j]) == Some(buf[j])
    requires outputIndex + |DecodeGroup(g, buf[1])| <= output.Length
    modifies output
    ensures next == outputIndex + |DecodeGroup(g, buf[1])|
    ensures output[..outputIndex] == old(output[..outputIndex])
    ensures output[outputIndex..next] == DecodeGroup(g, buf[1])
    ensures output[next..] == old(output[next..])
  {
    hide Bits, LastByte;
    next := outputIndex;
    output[next] := (buf[0] * 4 + buf[1] / 16 % 4) % 256;
    next := next + 1;
    if bufLen > 2 {
      output[next] := (buf[1] % 16 * 16 + buf[2] % 64 / 4) % 256;
      next := next + 1;
    }
    if bufLen > 3 {
      output[next] := LastByte(buf[2], buf[3]);
      next := next + 1;
    }
  }

  lemma PrependNothing(a: seq<Byte>, rest: Decoded)
    requires a == []
    ensures Prepend(a, rest) == rest
  {
    if rest.Bytes? {
      assert a + rest.bytes == rest.bytes;
    }
  }

  lemma PrependTwice(a: seq<Byte>, b: seq<Byte>, rest: Decoded)
    ensures Prepend(a, Prepend(b, rest)) == Prepend(a + b, rest)
  {
    if rest.Bytes? {
      assert a + (b + rest.bytes) == a + b + rest.bytes;
    }
  }

  /** The inner loop: the values of up to four characters; places without one keep what they held. */
  method ReadGroup(input: string, i: nat, buf: array<nat>) returns (bufLen: nat, known: bool)
    requires i < |input| && buf.Length == 4
    modifies buf
    ensures var g := input[i..][..GroupLength(input[i..])];
            && known == AllKnown(g)
            && (known ==>
                  && bufLen == Significant(g)
                  && (forall j :: 0 <= j < |g| ==> Bits(g[j]) == Some(buf[j]))
                  && (|g| == 1 ==> buf[1] == old(buf[1])))
  {
    hide InTable, Place;
    bufLen := 0;
    ghost var s := input[i..];
    ghost var g := s[..GroupLength(s)];
    for j := 0 to 4
      invariant bufLen == Significant(g[..if j < |g| then j else |g|])
      invariant forall k :: 0 <= k < j && k < |g| ==> Bits(g[k]) == Some(buf[k])
      invariant |g| == 1 ==> buf[1] == old(buf[1])
    {
      if i + j < |input| {
        assert g[j] == s[j] == input[i + j] && g[..j + 1][..j] == g[..j];
        if input[i + j] != '=' {
          var bits := Bits(input[i + j]);
          if bits.None? {
            return 0, false;
          }
          buf[j] := bits.value;
          bufLen := bufLen + 1;
        } else {
          buf[j] := 0;
        }
      }
    }
    assert g[..|g|] == g;
    known := true;
  }

  // ---- Round trip ----

  lemma SignificantOfFour(g: string)
    requires |g| == 4
    ensures Significant(g) == (if g[0] != '=' then 1 else 0) + (if g[1] != '=' then 1 else 0)
                              + (if g[2] != '=' then 1 else 0) + (if g[3] != '=' then 1 else 0)
  {
    assert Significant(g[..0]) == 0;
    assert g[..1][..0] == g[..0] && g[..2][..1] == g[..1] && g[..3][..2] == g[..2] && g[..4] == g;
    assert Significant(g[..1]) == if g[0] != '=' then 1 else 0;
    assert Significant(g[..2]) == Significant(g[..1]) + if g[1] != '=' then 1 else 0;
  }

  lemma FirstOf(a: Byte, b: Byte)
    ensures (a / 4 * 4 + (a % 4 * 16 + b / 16) / 16 % 4) % 256 == a
  {
    assert (a % 4 * 16 + b / 16) / 16 == a % 4;
  }

  lemma SecondOf(a: Byte, b: Byte, c: Byte)
    ensures ((a % 4 * 16 + b / 16) % 16 * 16 + (b % 16 * 4 + c / 64) % 64 / 4) % 256 == b
  {
    assert (a % 4 * 16 + b / 16) % 16 == b / 16;
    assert (b % 16 * 4 + c / 64) % 64 / 4 == b % 16;
  }

  lemma LastOf(b: Byte, c: Byte)
    ensures LastByte(b % 16 * 4 + c / 64, c % 64) == c
  {
    assert (b % 16 * 4 + c / 64) % 4 == c / 64;
  }

  lemma GroupRoundTrip(a: Byte, b: Byte, c: Byte, n: nat)
    requires 1 <= n <= 3 && (n < 3 ==> c == 0) && (n < 2 ==> b == 0)
    ensures var g := EncodeGroup(a, b, c, n);
            && AllKnown(g) && Significant(g) == n + 1
            && DecodeGroup(g, Bits(g[1]).value) == [a, b, c][..n]
  {
    hide Significant;
    var g := EncodeGroup(a, b, c, n);
    SignificantOfFour(g);
    GroupBits(a, b, c, n);
    hide EncodeGroup, Bits, LastByte;
    FirstOf(a, b);
    if n > 1 {
      SecondOf(a, b, c);
    }
    if n > 2 {
      LastOf(b, c);
    }
    assert [a, b, c][..1] == [a] && [a, b, c][..2] == [a, b] && [a, b, c][..3] == [a, b, c];
  }

  lemma GroupBits(a: Byte, b: Byte, c: Byte, n: nat)
    requires 1 <= n <= 3
    ensures var g := EncodeGroup(a, b, c, n);
            && AllKnown(g) && Bits(g[0]) == Some(a / 4) && Bits(g[1]) == Some(a % 4 * 16 + b / 16)
            && Bits(g[2]) == Some(if n > 1 then b % 16 * 4 + c / 64 else 0)
            && Bits(g[3]) == Some(if n > 2 then c % 64 else 0)
  {
    hide Digit, Place;
  }

  /** Independently of the decoder: the four characters of a group, read as digits to the base 64,
      are the same 24-bit number as its three bytes read as digits to the base 256. */
  lemma GroupIsRadixChange(a: Byte, b: Byte, c: Byte, n: nat)
    requires 1 <= n <= 3 && (n < 3 ==> c == 0) && (n < 2 ==> b == 0)
    ensures var g := EncodeGroup(a, b, c, n);
            && IsText(g) && AllKnown(g)
            && 0x4_0000 * Bits(g[0]).value + 0x1000 * Bits(g[1]).value + 0x40 * Bits(g[2]).value + Bits(g[3]).value
               == 0x1_0000 * a + 0x100 * b + c
            && forall k :: 0 <= k < 4 ==> (g[k] == '=' <==> k > n)
  {
    hide Digit, Place;
    GroupBits(a, b, c, n);
    SixBitsAreEight(a, b, c);
  }

  lemma SixBitsAreEight(a: Byte, b: Byte, c: Byte)
    ensures 0x4_0000 * (a / 4) + 0x1000 * (a % 4 * 16 + b / 16) + 0x40 * (b % 16 * 4 + c / 64) + c % 64
         == 0x1_0000 * a + 0x100 * b + c
  {
  }

  lemma GroupInFront(g: string, rest: string, room: nat, was: Option<nat>)
    requires |g| == 4 && AllKnown(g) && Significant(g) > 0
    ensures Decode(g + rest, room, was) ==
            if Significant(g) > room then NoRoom
            else Prepend(DecodeGroup(g, Bits(g[1]).value),
                         Decode(rest, room - |DecodeGroup(g, Bits(g[1]).value)|, Bits(g[1])))
  {
    assert Bits(g[1]).Some?;
    hide Significant, DecodeGroup, AllKnown, Bits, Decode;
    assert (g + rest)[..4] == g && (g + rest)[4..] == rest;
    DecodeUnfolds(g + rest, room, was);
  }

  lemma FirstBytes(x: seq<Byte>, b: Byte, c: Byte, n: nat)
    requires 1 <= n <= 3 && n <= |x| && (n > 1 ==> b == x[1]) && (n > 2 ==> c == x[2])
    ensures [x[0], b, c][..n] == x[..n]
  {
  }

  /** Round trip: the encoding of a byte string decodes to that string exactly when it is empty or the
      decoder is given room for one byte more than it needs, and is refused otherwise; whatever the
      buffer held. */
  lemma {:induction false} RoundTrip(x: seq<Byte>, room: nat, was: Option<nat>)
    ensures Decode(Encode(x), room, was) == if x == [] || |x| + 1 <= room then Bytes(x) else NoRoom
    decreases |x|
  {
    if x == [] {
      EncodeEmpty();
    } else {
      var g, n := FirstGroup(x);
      hide EncodeGroup, DecodeGroup, Encode, Significant, Decode, Bits, AllKnown, Digit, Place;
      GroupInFront(g, Encode(x[n..]), room, was);
      if n + 1 <= room {
        RoundTrip(x[n..], room - n, Bits(g[1]));
        assert x[..n] + x[n..] == x;
      }
    }
  }

  /** The first group of an encoding stands for the first three bytes, or as many as there are. */
  lemma FirstGroup(x: seq<Byte>) returns (g: string, n: nat)
    requires x != []
    ensures n == (if |x| < 3 then |x| else 3) && |g| == 4 && AllKnown(g) && Significant(g) == n + 1
    ensures DecodeGroup(g, Bits(g[1]).value) == x[..n] && Encode(x) == g + Encode(x[n..])
  {
    n := if |x| < 3 then |x| else 3;
    var b, c := if n > 1 then x[1] else 0, if n > 2 then x[2] else 0;
    hide EncodeGroup, DecodeGroup, Encode, Significant, Digit, Place, Bits, AllKnown;
    g := EncodeGroup(x[0], b, c, n);
    GroupRoundTrip(x[0], b, c, n);
    FirstBytes(x, b, c, n);
    EncodeUnfolds(x, 0);
    assert x[0..] == x && Rest(x, 3) == x[n..];
  }

  /** The device's two calls in a row, through the buffers they use. */
  method EncodeThenDecode(x: seq<Byte>, text: array<char>, bytes: array<Byte>) returns (ret: int)
    requires |Encode(x)| < text.Length
    modifies text, bytes
    ensures ret == if x == [] || |x| < bytes.Length then |x| else -1
    ensures ret >= 0 ==> bytes[..ret] == x
  {
    EncodeInto(x, text, text.Length);
    RoundTrip(x, bytes.Length, None);
    assert text[..|Encode(x)|] == Encode(x);
    var defined;
    ret, defined := DecodeInto(text[..|Encode(x)|], bytes, bytes.Length);
  }
}
