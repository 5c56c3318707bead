/** `esp32_munge` of `app/bot.py`, which rewrites an SDP answer for the device, and what the
    device's parser makes of the result. */
module Munge {
  import opened Options
  import opened Text
  import opened Address
  import opened Candidates
  import opened Description
  import opened Lines

  // ---- Substring tests, str.replace and re.sub ----

  /** The pattern of a search: literal text, or the regular expression for a related address. */
  datatype Pattern = Literal(text: string) | RelatedAddress

  predicate IsPythonSpace(c: char) {
    || '\t' <= c <= '\r' || '\U{1c}' <= c <= ' ' || c == '\U{85}' || c == '\U{a0}' || c == '\U{1680}'
    || '\U{2000}' <= c <= '\U{200a}' || c == '\U{2028}' || c == '\U{2029}' || c == '\U{202f}'
    || c == '\U{205f}' || c == '\U{3000}'
  }

  function NonSpaceLength(s: string): (n: nat)
    ensures n <= |s|
  {
    if s == "" || IsPythonSpace(s[0]) then 0 else 1 + NonSpaceLength(s[1..])
  }

  const RADDR := " raddr "
  const RPORT := " rport "

  /** The length of the match at the start of `s`, 0 when there is none. A run of non-blanks is
      always taken whole, because a blank has to follow it. */
  function HitLength(p: Pattern, s: string): (n: nat)
    ensures n <= |s|
  {
    match p
    case Literal(text) => if text <= s then |text| else 0
    case RelatedAddress =>
      if !(RADDR <= s) then 0
      else
        var n := NonSpaceLength(s[|RADDR|..]);
        var port := s[|RADDR| + n..];
        if n == 0 || !(RPORT <= port) || NonSpaceLength(port[|RPORT|..]) == 0 then 0
        else |RADDR| + n + |RPORT| + NonSpaceLength(port[|RPORT|..])
  }

  predicate Occurs(p: Pattern, s: string) {
    s != "" && (HitLength(p, s) != 0 || Occurs(p, s[1..]))
  }

  /** Every match from the left replaced by `by`. */
  function Substitute(p: Pattern, s: string, put: string): string
    decreases |s|
  {
    if s == "" then ""
    else if HitLength(p, s) != 0 then put + Substitute(p, s[HitLength(p, s)..], put)
    else [s[0]] + Substitute(p, s[1..], put)
  }

  // ---- The rewrite ----

  const TYP_HOST := Literal(" typ host")
  const TYP_RELAY := Literal(" typ relay")
  const SHA_384 := Literal("sha-384")
  const SHA_512 := Literal("sha-512")
  const CANDIDATE_LINE := "a=candidate"

  predicate IsForeignHash(line: string) {
    Occurs(SHA_384, line) || Occurs(SHA_512, line)
  }

  /** What the loop appends for one line: nothing or one line. */
  function MungeLine(line: string): seq<string> {
    if IsForeignHash(line) then []
    else if CANDIDATE_LINE <= line then
      if Occurs(TYP_HOST, line) then [Substitute(TYP_HOST, line, TYP_RELAY.text)]
      else if Occurs(TYP_RELAY, line) then [Substitute(RelatedAddress, line, "")]
      else []
    else [line]
  }

  function MungeLines(lines: seq<string>): seq<string> {
    if lines == [] then [] else MungeLine(lines[0]) + MungeLines(lines[1..])
  }

  lemma {:induction false} MungeLinesAppend(lines: seq<string>, line: string)
    ensures MungeLines(lines + [line]) == MungeLines(lines) + MungeLine(line)
  {
    if lines == [] {
      assert [line][1..] == [];
    } else {
      assert (lines + [line])[1..] == lines[1..] + [line];
      MungeLinesAppend(lines[1..], line);
    }
  }

  function Munged(sdp: string): string {
    Join(CRLF, MungeLines(SplitLines(sdp))) + CRLF
  }

  // ---- What the rewrite keeps, in terms of places ----

  lemma {:induction false} OccursStands(text: string, s: string)
    requires text != ""
    ensures Occurs(Literal(text), s) <==> Stands(text, s)
  {
    if s != "" {
      StandsStep(text, s);
      OccursStands(text, s[1..]);
    }
  }

  /** The numbers of the lines that the rewrite keeps. */
  function Kept(lines: seq<string>): (ks: seq<nat>)
    ensures |ks| <= |lines|
  {
    if lines == [] then []
    else
      var n := |lines| - 1;
      Kept(lines[..n]) + if MungeLine(lines[n]) == [] then [] else [n]
  }

  /** One line: dropped, kept as it is, or a candidate that is kept relabelled. */
  lemma MungeLineSpelledOut(line: string)
    ensures |MungeLine(line)| <= 1
    ensures MungeLine(line) != [] <==>
      && !Stands("sha-384", line) && !Stands("sha-512", line)
      && ("a=candidate" <= line ==> Stands(" typ host", line) || Stands(" typ relay", line))
    ensures MungeLine(line) != [] && !("a=candidate" <= line) ==> MungeLine(line) == [line]
  {
    OccursStands("sha-384", line);
    OccursStands("sha-512", line);
    OccursStands(" typ host", line);
    OccursStands(" typ relay", line);
    hide Occurs, Stands, Substitute;
  }

  lemma {:induction false} KeptLines(lines: seq<string>)
    ensures var ks, out := Kept(lines), MungeLines(lines);
            && |ks| == |out|
            && (forall j :: 0 <= j < |ks| ==> ks[j] < |lines| && MungeLine(lines[ks[j]]) == [out[j]])
            && (forall i, j :: 0 <= i < j < |ks| ==> ks[i] < ks[j])
            && (forall k :: 0 <= k < |lines| ==> (k in ks <==> MungeLine(lines[k]) != []))
  {
    hide MungeLine;
    if lines != [] {
      hide MungeLines;
      var n := |lines| - 1;
      KeptLines(lines[..n]);
      assert lines == lines[..n] + [lines[n]];
      MungeLinesAppend(lines[..n], lines[n]);
      OneOrNone(lines[n]);
    }
  }

  lemma OneOrNone(line: string)
    ensures |MungeLine(line)| <= 1
  {
  }

  /** `esp32_munge`. The text returned is a list of complete lines, or a lone line end: in order, the
      lines `kept` of the answer. Those are the ones in which neither hash name stands at any place and
      that, if they are candidate attributes, name the type host or relay. A line that is no candidate
      attribute is returned as it is. */
  method Esp32Munge(sdp: string) returns (r: string, ghost kept: seq<nat>, ghost out: seq<string>)
    ensures r == Munged(sdp)
    ensures r == if out == [] then "\r\n" else Terminated(out)
    ensures var lines := SplitLines(sdp);
            && |kept| == |out|
            && (forall i, j :: 0 <= i < j < |kept| ==> kept[i] < kept[j])
            && (forall j :: 0 <= j < |kept| ==> kept[j] < |lines| && (!("a=candidate" <= lines[kept[j]]) ==> out[j] == lines[kept[j]]))
            && (forall k :: 0 <= k < |lines| ==>
                  (k in kept <==>
                     && !Stands("sha-384", lines[k]) && !Stands("sha-512", lines[k])
                     && ("a=candidate" <= lines[k] ==> Stands(" typ host", lines[k]) || Stands(" typ relay", lines[k]))))
  {
    hide Occurs, Stands, Substitute, Kept, SplitLines;
    var lines := SplitLines(sdp);
    var texts := MungeAll(lines);
    kept, out := Kept(lines), texts;
    KeptLines(lines);
    KeptSpelledOut(lines);
    if texts != [] {
      JoinTerminates(texts);
    }
    r := Join(CRLF, texts) + CRLF;
  }

  lemma KeptSpelledOut(lines: seq<string>)
    ensures forall k :: 0 <= k < |lines| ==>
      && (MungeLine(lines[k]) != [] <==>
            && !Stands("sha-384", lines[k]) && !Stands("sha-512", lines[k])
            && ("a=candidate" <= lines[k] ==> Stands(" typ host", lines[k]) || Stands(" typ relay", lines[k])))
      && (MungeLine(lines[k]) != [] && !("a=candidate" <= lines[k]) ==> MungeLine(lines[k]) == [lines[k]])
  {
    hide MungeLine, Stands;
    forall k | 0 <= k < |lines|
      ensures MungeLine(lines[k]) != [] <==>
            && !Stands("sha-384", lines[k]) && !Stands("sha-512", lines[k])
            && ("a=candidate" <= lines[k] ==> Stands(" typ host", lines[k]) || Stands(" typ relay", lines[k]))
      ensures MungeLine(lines[k]) != [] && !("a=candidate" <= lines[k]) ==> MungeLine(lines[k]) == [lines[k]]
    {
      MungeLineSpelledOut(lines[k]);
    }
  }

  /** Its loop. */
  method MungeAll(lines: seq<string>) returns (out: seq<string>)
    ensures out == MungeLines(lines)
  {
    out := [];
    for i := 0 to |lines|
      invariant out == MungeLines(lines[..i])
    {
      var line := lines[i];
      assert lines[..i + 1] == lines[..i] + [line];
      MungeLinesAppend(lines[..i], line);
      if Occurs(SHA_384, line) || Occurs(SHA_512, line) {
        continue;
      }
      if CANDIDATE_LINE <= line {
        if Occurs(TYP_HOST, line) {
          out := out + [Substitute(TYP_HOST, line, TYP_RELAY.text)];
        } else if Occurs(TYP_RELAY, line) {
          out := out + [Substitute(RelatedAddress, line, "")];
        }
      } else {
        out := out + [line];
      }
    }
    assert lines[..|lines|] == lines;
  }

  // ---- Answers with well-formed candidate lines ----

  datatype AnswerLine =
    | CandidateLine(foundation: string, component: nat, transport: string, priority: nat,
                    address: string, port: nat, kind: string, tail: string)
    | OtherLine(text: string)
  {
    function Text(): string {
      match this
      case OtherLine(text) => text
      case CandidateLine(foundation, component, transport, priority, address, port, kind, tail) =>
        LINE_START + Body(foundation, component, transport, priority, address, port, Spaced("typ", Spaced(kind, tail)))
    }

    /** A candidate attribute with a literal address: seven blank-separated words, the last of
        them one of the four types, then extensions that do not name a type again. */
    predicate WellFormed(env: Platform) {
      match this
      case OtherLine(text) => !(CANDIDATE_LINE <= text)
      case CandidateLine(foundation, component, transport, priority, address, port, kind, tail) =>
        && IsWord(foundation) && IsWord(transport)
        && port < 0x1_0000
        && IsLiteralText(address) && FromText(env, address).Some?
        && kind in {"host", "srflx", "prflx", "relay"}
        && (tail == "" || tail[0] == ' ')
        && !Occurs(TYP_HOST, tail) && !Occurs(TYP_RELAY, tail)
    }
  }

  /** A candidate line whose part from ` typ ` on is `rest`. */
  function LineWith(line: AnswerLine, rest: string): string
    requires line.CandidateLine?
  {
    LINE_START + Body(line.foundation, line.component, line.transport, line.priority, line.address, line.port, rest)
  }

  /** The tail of a line that the rewrite keeps. */
  function MungedTail(line: AnswerLine): string
    requires line.CandidateLine?
  {
    if line.kind == "relay" then Substitute(RelatedAddress, line.tail, "") else line.tail
  }

  function Texts(lines: seq<AnswerLine>): (ts: seq<string>)
    ensures |ts| == |lines| && forall k :: 0 <= k < |ts| ==> ts[k] == lines[k].Text()
  {
    seq(|lines|, k requires 0 <= k < |lines| => lines[k].Text())
  }

  /** The candidate that a line of the original answer is meant to give the device, if any: UDP
      host and relay candidates, relabelled. A candidate line that names a foreign hash is lost
      with the fingerprints. */
  function Offer(env: Platform, line: AnswerLine): seq<Candidate>
    requires line.WellFormed(env)
  {
    if line.OtherLine? || IsForeignHash(line.Text()) || !IsUdp(line.transport) || line.kind !in {"host", "relay"} then []
    else
      [Candidate(line.foundation, line.component, line.priority, line.transport, RelayType,
                 Address(FromText(env, line.address).value, line.port), ZERO)]
  }

  predicate AllWellFormed(env: Platform, lines: seq<AnswerLine>) {
    forall k :: 0 <= k < |lines| ==> lines[k].WellFormed(env)
  }

  function Offers(env: Platform, lines: seq<AnswerLine>): seq<Candidate>
    requires AllWellFormed(env, lines)
  {
    if lines == [] then []
    else
      var n := |lines| - 1;
      Offers(env, lines[..n]) + Offer(env, lines[n])
  }

  /** The candidates no earlier one of which has the same foundation. */
  function FirstPerFoundation(cs: seq<Candidate>): seq<Candidate> {
    if cs == [] then []
    else
      var n := |cs| - 1;
      FirstPerFoundation(cs[..n]) + if KnownFoundation(cs[..n], cs[n].foundation) then [] else [cs[n]]
  }

  /** What the device's scan reads from a kept line: its type word is `relay` and whatever follows
      without a blank. */
  function KeptFields(line: AnswerLine): Fields
    requires line.CandidateLine?
  {
    var tail := MungedTail(line);
    Fields(line.foundation, line.component, line.transport, line.priority, line.address, line.port,
           "relay" + tail[..WordLength(tail)])
  }

  predicate CredentialFits(text: string) {
    && (UFRAG_START <= text ==> |text| <= |UFRAG_START| + CREDENTIAL_MAX)
    && (PWD_START <= text ==> |text| <= |PWD_START| + CREDENTIAL_MAX)
  }

  /** What the device stores for line `k` has room: a credential in its field, the words and numbers
      of a kept candidate line in theirs, and the candidate in a slot, because the lines in front
      offer fewer than ten foundations. That asks nothing of a line the rewrite drops, but it does of
      a repeated foundation and of a transport other than UDP. */
  predicate HasRoom(env: Platform, lines: seq<AnswerLine>, k: nat)
    requires k < |lines| && AllWellFormed(env, lines)
  {
    var line := lines[k];
    if IsForeignHash(line.Text()) then true
    else if line.OtherLine? then CredentialFits(line.text)
    else
      line.kind in {"host", "relay"} ==>
        FieldsFit(KeptFields(line)) && |FirstPerFoundation(Offers(env, lines[..k]))| < MAX_CANDIDATES
  }

  // ---- Skipping the parts of a line a pattern cannot match in ----

  predicate StartsWithBlank(p: Pattern) {
    p.Literal? ==> p.text != "" && p.text[0] == ' '
  }

  lemma {:induction false} SkipWord(p: Pattern, w: string, rest: string, put: string)
    requires StartsWithBlank(p) && ' ' !in w
    ensures Occurs(p, w + rest) == Occurs(p, rest)
    ensures Substitute(p, w + rest, put) == w + Substitute(p, rest, put)
  {
    if w == "" {
      assert w + rest == rest;
    } else {
      assert (w + rest)[0] == w[0];
      assert (w + rest)[1..] == w[1..] + rest;
      SkipWord(p, w[1..], rest, put);
      assert w == [w[0]] + w[1..];
    }
  }

  lemma SkipSpaced(p: Pattern, w: string, rest: string, put: string)
    requires StartsWithBlank(p) && ' ' !in w && HitLength(p, Spaced(w, rest)) == 0
    ensures Occurs(p, Spaced(w, rest)) == Occurs(p, rest)
    ensures Substitute(p, Spaced(w, rest), put) == Spaced(w, Substitute(p, rest, put))
  {
    assert Spaced(w, rest)[1..] == w + rest;
    SkipWord(p, w, rest, put);
  }

  /** The patterns the rewrite looks for in a candidate line. */
  predicate IsLinePattern(p: Pattern) {
    p == TYP_HOST || p == TYP_RELAY || p == RelatedAddress
  }

  lemma NoHitBefore(p: Pattern, w: string, rest: string)
    requires IsLinePattern(p) && w != "" && w[0] != 't' && w[0] != 'r'
    ensures HitLength(p, Spaced(w, rest)) == 0
  {
    assert Spaced(w, rest)[1] == w[0];
  }

  lemma {:induction false} NonSpaceLengthOf(w: string, rest: string)
    requires forall c :: c in w ==> !IsPythonSpace(c)
    requires rest == "" || IsPythonSpace(rest[0])
    ensures NonSpaceLength(w + rest) == |w|
  {
    if w == "" {
      assert w + rest == rest;
    } else {
      assert (w + rest)[1..] == w[1..] + rest;
      NonSpaceLengthOf(w[1..], rest);
    }
  }

  /** A text that a blank, a word and another blank open starts with a pattern only if the word is
      as long as the pattern's first word. */
  lemma PrefixMeansWord(text: string, n: nat, w: string, rest: string)
    requires 0 < n && n + 1 < |text| && ' ' !in text[1..n + 1] && text[n + 1] == ' '
    requires IsWord(w) && rest != "" && rest[0] == ' '
    ensures text <= Spaced(w, rest) ==> |w| == n
  {
    var s := Spaced(w, rest);
    assert forall k :: 1 <= k <= |w| ==> s[k] == w[k - 1] && w[k - 1] in w;
    assert s[1 + |w|] == ' ';
    assert forall k :: 1 <= k <= n ==> text[1..n + 1][k - 1] == text[k] != ' ';
    assert text <= s ==> s[n + 1] == text[n + 1];
  }

  lemma HitMeansWord(p: Pattern, w: string, rest: string)
    requires IsLinePattern(p) && IsWord(w) && rest != "" && rest[0] == ' '
    ensures HitLength(p, Spaced(w, rest)) != 0 ==> |w| == if p == RelatedAddress then 5 else 3
  {
    PrefixMeansWord(RADDR, 5, w, rest);
    PrefixMeansWord(TYP_HOST.text, 3, w, rest);
    PrefixMeansWord(TYP_RELAY.text, 3, w, rest);
  }

  /** The transport may itself be `typ` or `raddr`, but the number behind it then breaks the match. */
  lemma NoHitAtTransport(p: Pattern, transport: string, priority: nat, address: string, rest: string)
    requires IsLinePattern(p) && IsWord(transport) && IsLiteralText(address)
    ensures HitLength(p, Spaced(transport, Spaced(Decimal(priority), Spaced(address, rest)))) == 0
  {
    var behind := Spaced(address, rest);
    HitMeansWord(p, transport, Spaced(Decimal(priority), behind));
    if p == RelatedAddress {
      NoRelatedAtTransport(transport, Decimal(priority), address, rest);
    } else {
      NoTypeAtTransport(p, transport, Decimal(priority), behind);
    }
  }

  lemma NoTypeAtTransport(p: Pattern, transport: string, number: string, behind: string)
    requires (p == TYP_HOST || p == TYP_RELAY) && number != "" && forall c :: c in number ==> IsDigit(c)
    requires HitLength(p, Spaced(transport, Spaced(number, behind))) != 0 ==> |transport| == 3
    ensures HitLength(p, Spaced(transport, Spaced(number, behind))) == 0
  {
    var s := Spaced(transport, Spaced(number, behind));
    assert s[2 + |transport|] == number[0] && number[0] in number;
  }

  lemma NoRelatedAtTransport(transport: string, number: string, address: string, rest: string)
    requires number != "" && (forall c :: c in number ==> IsDigit(c)) && IsLiteralText(address)
    requires HitLength(RelatedAddress, Spaced(transport, Spaced(number, Spaced(address, rest)))) != 0 ==> |transport| == 5
    ensures HitLength(RelatedAddress, Spaced(transport, Spaced(number, Spaced(address, rest)))) == 0
  {
    var behind := Spaced(address, rest);
    var s := Spaced(transport, Spaced(number, behind));
    if |transport| == 5 {
      assert s[7..] == number + behind;
      NonSpaceLengthOf(number, behind);
      hide NonSpaceLength, IsPythonSpace;
      assert s[7 + |number|..] == behind;
      assert behind[1] == address[0] && address[0] in address;
    }
  }

  /** Nothing is found in the fixed part of a well-formed candidate line. */
  lemma SkipBody(p: Pattern, foundation: string, component: nat, transport: string, priority: nat, address: string, port: nat, rest: string, put: string)
    requires IsLinePattern(p) && IsWord(foundation) && IsWord(transport) && IsLiteralText(address)
    ensures Occurs(p, Body(foundation, component, transport, priority, address, port, rest)) == Occurs(p, rest)
    ensures Substitute(p, Body(foundation, component, transport, priority, address, port, rest), put)
         == Body(foundation, component, transport, priority, address, port, Substitute(p, rest, put))
  {
    var s5 := Spaced(Decimal(port), rest);
    var s4 := Spaced(address, s5);
    var s3 := Spaced(Decimal(priority), s4);
    var s2 := Spaced(transport, s3);
    assert Decimal(port)[0] in Decimal(port) && Decimal(priority)[0] in Decimal(priority);
    assert Decimal(component)[0] in Decimal(component) && address[0] in address;
    LiteralIsWord(address);
    NoHitBefore(p, Decimal(port), rest);
    SkipSpaced(p, Decimal(port), rest, put);
    NoHitBefore(p, address, s5);
    SkipSpaced(p, address, s5, put);
    NoHitBefore(p, Decimal(priority), s4);
    SkipSpaced(p, Decimal(priority), s4, put);
    NoHitAtTransport(p, transport, priority, address, s5);
    SkipSpaced(p, transport, s3, put);
    NoHitBefore(p, Decimal(component), s2);
    SkipSpaced(p, Decimal(component), s2, put);
    SkipWord(p, foundation, Spaced(Decimal(component), s2), put);
  }

  lemma SkipLine(p: Pattern, line: AnswerLine, rest: string, put: string)
    requires IsLinePattern(p)
    requires line.CandidateLine? && IsWord(line.foundation) && IsWord(line.transport) && IsLiteralText(line.address)
    ensures Occurs(p, LineWith(line, rest)) == Occurs(p, rest)
    ensures Substitute(p, LineWith(line, rest), put) == LineWith(line, Substitute(p, rest, put))
  {
    SkipBody(p, line.foundation, line.component, line.transport, line.priority, line.address, line.port, rest, put);
    SkipWord(p, LINE_START, Body(line.foundation, line.component, line.transport, line.priority, line.address, line.port, rest), put);
  }

  lemma {:induction false} SubstituteAbsent(p: Pattern, s: string, put: string)
    requires !Occurs(p, s)
    ensures Substitute(p, s, put) == s
  {
    if s != "" {
      SubstituteAbsent(p, s[1..], put);
    }
  }

  lemma LiteralHit(text: string, tail: string, put: string)
    requires text != ""
    ensures Occurs(Literal(text), text + tail)
    ensures Substitute(Literal(text), text + tail, put) == put + Substitute(Literal(text), tail, put)
  {
    assert (text + tail)[|text|..] == tail;
  }

  lemma TypSpaced(kind: string, tail: string)
    ensures Spaced("typ", Spaced(kind, tail)) == " typ " + kind + tail
  {
  }

  lemma HostEnd(tail: string)
    requires !Occurs(TYP_HOST, tail)
    ensures var end := Spaced("typ", Spaced("host", tail));
            Occurs(TYP_HOST, end) && Substitute(TYP_HOST, end, TYP_RELAY.text) == Spaced("typ", Spaced("relay", tail))
  {
    hide Occurs, Substitute;
    SubstituteAbsent(TYP_HOST, tail, TYP_RELAY.text);
    LiteralHit(TYP_HOST.text, tail, TYP_RELAY.text);
    TypSpaced("host", tail);
    TypSpaced("relay", tail);
    assert " typ " + "host" == TYP_HOST.text && " typ " + "relay" == TYP_RELAY.text;
  }

  lemma OtherTypeMisses(p: Pattern, kind: string, tail: string)
    requires p == TYP_HOST || p == TYP_RELAY
    requires kind in {"host", "srflx", "prflx", "relay"} && kind != (if p == TYP_HOST then "host" else "relay")
    ensures HitLength(p, Spaced("typ", Spaced(kind, tail))) == 0 && HitLength(p, Spaced(kind, tail)) == 0
  {
    assert Spaced("typ", Spaced(kind, tail))[5] == kind[0] != p.text[5];
    assert Spaced(kind, tail)[1] == kind[0] != p.text[1];
  }

  /** A type pattern is found at the end of a line only if it names the line's own type. */
  lemma OtherEnd(p: Pattern, kind: string, tail: string)
    requires p == TYP_HOST || p == TYP_RELAY
    requires kind in {"host", "srflx", "prflx", "relay"} && !Occurs(p, tail)
    ensures Occurs(p, Spaced("typ", Spaced(kind, tail)))
        <==> kind == (if p == TYP_HOST then "host" else "relay")
  {
    hide Occurs, Substitute;
    var end := Spaced("typ", Spaced(kind, tail));
    if kind != (if p == TYP_HOST then "host" else "relay") {
      OtherTypeMisses(p, kind, tail);
      SkipSpaced(p, "typ", Spaced(kind, tail), "");
      SkipSpaced(p, kind, tail, "");
    } else {
      assert end == p.text + tail;
      LiteralHit(p.text, tail, "");
    }
  }

  lemma RelayEnd(tail: string)
    ensures Substitute(RelatedAddress, Spaced("typ", Spaced("relay", tail)), "")
         == Spaced("typ", Spaced("relay", Substitute(RelatedAddress, tail, "")))
  {
    assert Spaced("typ", Spaced("relay", tail))[1] == 't';
    SkipSpaced(RelatedAddress, "typ", Spaced("relay", tail), "");
    assert Spaced("relay", tail)[2] == 'e';
    SkipSpaced(RelatedAddress, "relay", tail, "");
  }

  /** What becomes of a well-formed candidate line: the type word changes, at most a related
      address goes, and everything in front of the type stays. */
  lemma MungesCandidate(env: Platform, line: AnswerLine)
    requires line.CandidateLine? && line.WellFormed(env)
    ensures MungeLine(line.Text()) ==
            if IsForeignHash(line.Text()) || line.kind !in {"host", "relay"} then []
            else [LineWith(line, Spaced("typ", Spaced("relay", MungedTail(line))))]
  {
    var end := Spaced("typ", Spaced(line.kind, line.tail));
    var text := LineWith(line, end);
    assert CANDIDATE_LINE <= text by {
      StartsAsCandidate(Body(line.foundation, line.component, line.transport, line.priority, line.address, line.port, end));
    }
    if line.kind == "host" { HostEnd(line.tail); }
    OtherEnd(TYP_HOST, line.kind, line.tail);
    OtherEnd(TYP_RELAY, line.kind, line.tail);
    if line.kind == "relay" { RelayEnd(line.tail); }
    SkipLine(TYP_HOST, line, end, TYP_RELAY.text);
    SkipLine(TYP_RELAY, line, end, "");
    SkipLine(RelatedAddress, line, end, "");
  }

  lemma StartsAsCandidate(body: string)
    ensures CANDIDATE_LINE <= LINE_START + body
  {
  }

  /** The pattern takes away exactly the related address that the device itself prints. */
  lemma StripsPrinted(env: Platform, c: Candidate)
    requires c.kind == RelayType && c.raddr.ip.V4?
    ensures Substitute(RelatedAddress, TypeText(env, c), "") == "relay"
  {
    var address, port := ToText(env, c.raddr.ip), Decimal(c.raddr.port);
    var related := RADDR + address + RPORT + port;
    assert TypeText(env, c) == "relay" + related;
    SkipWord(RelatedAddress, "relay", related, "");
    Ip4TextIsLiteral(c.raddr.ip);
    LiteralIsWord(address);
    WholeHit(address, port);
    assert Substitute(RelatedAddress, related, "") == "" + Substitute(RelatedAddress, related[|related|..], "");
  }

  lemma WholeHit(address: string, port: string)
    requires IsLiteralText(address) && port != "" && forall c :: c in port ==> IsDigit(c)
    ensures var related := RADDR + address + RPORT + port;
            HitLength(RelatedAddress, related) == |related|
  {
    var related := RADDR + address + RPORT + port;
    forall c | c in address ensures !IsPythonSpace(c) {
      assert IsHexDigit(c) || c == '.' || c == ':';
    }
    NonSpaceLengthOf(address, RPORT + port);
    NonSpaceLengthOf(port, "");
    assert port + "" == port;
    assert related[|RADDR|..] == address + (RPORT + port);
    var behind := related[|RADDR| + |address|..];
    assert behind == RPORT + port && behind[|RPORT|..] == port;
    assert address[0] in address;
  }
}
