/** `mdns.c`: the encoding of host names in DNS messages (section 3.1 of RFC 1035), the query that
    carries one, and the comparison of an answer's name. Texts are byte sequences without zero. */
module Mdns {
  import opened Options
  import opened Bytes

  type Octets = seq<Octet>

  const DOT: Octet := 46
  const HEADER: nat := 12
  const QUESTION: nat := 4
  const ANSWER: nat := 14
  const MAX_LABEL: nat := 63

  // ---- The encoding ----

  /** The length of the first label. */
  function LabelLength(h: Octets): (n: nat)
    ensures n <= |h| && (n < |h| ==> h[n] == DOT)
    ensures forall k :: 0 <= k < n ==> h[k] != DOT
  {
    if h == [] || h[0] == DOT then 0 else 1 + LabelLength(h[1..])
  }

  /** The rest of the name behind the first label and its dot. */
  function Behind(h: Octets): (rest: Octets)
    ensures h != [] ==> |rest| < |h|
  {
    var n := LabelLength(h);
    if n < |h| then h[n + 1..] else []
  }

  /** A length byte and a label. */
  function LabelBytes(part: Octets): Octets {
    [(|part| % 256) as Octet] + part
  }

  /** Length byte and label for each label, then a zero. The length is stored in one byte. */
  function Encode(h: Octets): (e: Octets)
    ensures e != []
    decreases |h|
  {
    if h == [] then [0] else LabelBytes(h[..LabelLength(h)]) + Encode(Behind(h))
  }

  lemma EncodeUnfolds(h: Octets)
    ensures h == [] ==> Encode(h) == [0]
    ensures h != [] ==> Encode(h) == LabelBytes(h[..LabelLength(h)]) + Encode(Behind(h))
  {
  }

  lemma Splice(s: Octets, from: nat, mid: nat, to: nat)
    requires from <= mid <= to <= |s|
    ensures s[from..to] == s[from..mid] + s[mid..to]
  {
  }

  lemma Associative(a: Octets, b: Octets, c: Octets)
    ensures a + (b + c) == a + b + c
  {
  }

  /** `mdns_add_hostname` at place `at` of the buffer. */
  method AddHostname(hostname: Octets, buf: array<Octet>, at: nat) returns (offset: nat)
    requires at + |Encode(hostname)| <= buf.Length
    modifies buf
    ensures offset == |Encode(hostname)| && buf[at..at + offset] == Encode(hostname)
    ensures forall k :: 0 <= k < at || at + offset <= k < buf.Length ==> buf[k] == old(buf[k])
  {
    hide LabelLength, Behind, Encode;
    offset := 0;
    ghost var written: Octets := [];
    assert written + Encode(hostname) == Encode(hostname);
    var part := hostname;
    while part != []
      invariant offset == |written| && written + Encode(part) == Encode(hostname)
      invariant buf[at..at + offset] == written
      invariant forall k :: 0 <= k < at || at + offset <= k < buf.Length ==> buf[k] == old(buf[k])
      decreases |part|
    {
      var len := LabelLength(part);
      EncodeUnfolds(part);
      ghost var more := LabelBytes(part[..len]);
      Associative(written, more, Encode(Behind(part)));
      ghost var was := buf[..];
      WriteLabel(part[..len], buf, at + offset);
      assert buf[at..at + offset] == was[at..at + offset];
      Splice(buf[..], at, at + offset, at + offset + 1 + len);
      written := written + more;
      offset := offset + 1 + len;
      part := Behind(part);
    }
    EncodeUnfolds(part);
    buf[at + offset] := 0;
    Splice(buf[..], at, at + offset, at + offset + 1);
    offset := offset + 1;
  }

  /** The body of that loop: the length byte and the label behind it. */
  method WriteLabel(part: Octets, buf: array<Octet>, place: nat)
    requires place + 1 + |part| <= buf.Length
    modifies buf
    ensures buf[place..place + 1 + |part|] == LabelBytes(part)
    ensures forall k :: 0 <= k < place || place + 1 + |part| <= k < buf.Length ==> buf[k] == old(buf[k])
  {
    buf[place] := (|part| % 256) as Octet;
    forall i | 0 <= i < |part| {
      buf[place + 1 + i] := part[i];
    }
  }

  /** The encoding is two bytes longer than the name exactly when the name is neither empty nor
      ends in a dot; otherwise it is one byte longer. */
  lemma {:induction false} EncodedLength(h: Octets)
    ensures |Encode(h)| == |h| + if h != [] && h[|h| - 1] != DOT then 2 else 1
    decreases |h|
  {
    if h != [] {
      EncodedLength(Behind(h));
      EncodeUnfolds(h);
      EncodeUnfolds(Behind(h));
      hide Encode;
      FirstLabel(h);
    }
  }

  lemma FirstLabel(h: Octets)
    requires h != []
    ensures |h| == LabelLength(h) + |Behind(h)| + if LabelLength(h) < |h| then 1 else 0
    ensures (h[|h| - 1] == DOT) == if Behind(h) == [] then LabelLength(h) < |h| else Behind(h)[|Behind(h)| - 1] == DOT
  {
    hide LabelLength;
  }

  // ---- The query ----

  /** The size `mdns_build_query` computes and returns. */
  function QuerySize(hostname: Octets): nat {
    HEADER + |hostname| + QUESTION + 2
  }

  /** The message it writes: one question, type A, class IN. */
  function Query(hostname: Octets): (q: Octets) {
    QUERY_HEADER + Encode(hostname) + QUERY_END
  }

  const QUERY_HEADER: Octets := [0, 0, 0, 0, 0, 1, 0, 0, 0, 0, 0, 0]
  const QUERY_END: Octets := [0, 1, 0, 1]

  /** The computed size is that of the message exactly when the name is neither empty nor ends in a
      dot; otherwise one zero byte is sent behind the message. It is never too small. */
  lemma QuerySizeIsExact(hostname: Octets)
    ensures |Query(hostname)| == QuerySize(hostname) <==> hostname != [] && hostname[|hostname| - 1] != DOT
    ensures |Query(hostname)| <= QuerySize(hostname)
  {
    EncodedLength(hostname);
  }

  /** `mdns_build_query`, on a little-endian machine. */
  method BuildQuery(hostname: Octets, buf: array<Octet>, size: nat) returns (total: int)
    requires size <= buf.Length
    modifies buf
    ensures total == if size < QuerySize(hostname) then -1 else QuerySize(hostname)
    ensures size < QuerySize(hostname) ==> buf[..] == old(buf[..])
    ensures size >= QuerySize(hostname) ==>
      && |Query(hostname)| <= size && buf[..|Query(hostname)|] == Query(hostname)
      && (forall k :: |Query(hostname)| <= k < size ==> buf[k] == 0)
      && (forall k :: size <= k < buf.Length ==> buf[k] == old(buf[k]))
  {
    total := HEADER + |hostname| + QUESTION + 2;
    if size < total {
      return -1;
    }
    QuerySizeIsExact(hostname);
    hide Encode, Query, LabelLength, Behind, LabelBytes;
    QueryLength(hostname);
    WriteHeader(buf, size);
    ghost var cleared := buf[..];
    var offset := AddHostname(hostname, buf, HEADER);
    assert buf[..HEADER] == cleared[..HEADER];
    offset := HEADER + offset;
    ghost var named := buf[..];
    WriteQuestion(buf, offset);
    assert buf[..offset] == named[..offset];
    QueryParts(named, buf[..], hostname);
  }

  lemma QueryLength(hostname: Octets)
    ensures |Query(hostname)| == HEADER + |Encode(hostname)| + QUESTION
  {
    hide Encode;
  }

  /** Its first lines: cleared memory and the header's count of questions. */
  method WriteHeader(buf: array<Octet>, size: nat)
    requires HEADER <= size <= buf.Length
    modifies buf
    ensures buf[..HEADER] == QUERY_HEADER && forall k :: HEADER <= k < size ==> buf[k] == 0
    ensures forall k :: size <= k < buf.Length ==> buf[k] == old(buf[k])
  {
    forall i | 0 <= i < size {
      buf[i] := 0;
    }
    buf[5] := 1;
  }

  /** Its last lines: type and class. */
  method WriteQuestion(buf: array<Octet>, offset: nat)
    requires offset + QUESTION <= buf.Length && forall k :: offset <= k < offset + QUESTION ==> buf[k] == 0
    modifies buf
    ensures buf[offset..offset + QUESTION] == QUERY_END
    ensures forall k :: 0 <= k < offset || offset + QUESTION <= k < buf.Length ==> buf[k] == old(buf[k])
  {
    buf[offset + 1] := 1;
    buf[offset + 3] := 1;
  }

  lemma QueryParts(named: Octets, final: Octets, hostname: Octets)
    requires HEADER + |Encode(hostname)| + QUESTION <= |named| == |final|
    requires var offset := HEADER + |Encode(hostname)|;
             && named[..HEADER] == QUERY_HEADER && named[HEADER..offset] == Encode(hostname)
             && final[..offset] == named[..offset] && final[offset..offset + QUESTION] == QUERY_END
    ensures final[..|Query(hostname)|] == Query(hostname)
  {
    var offset := HEADER + |Encode(hostname)|;
    Splice(named, 0, HEADER, offset);
    Splice(final, 0, offset, offset + QUESTION);
  }

  // ---- The encoding is self-delimiting ----

  /** Names of nonempty labels of at most 63 bytes. */
  predicate WellFormed(h: Octets)
    decreases |h|
  {
    var n := LabelLength(h);
    1 <= n <= MAX_LABEL && (n < |h| ==> WellFormed(Behind(h)))
  }

  datatype Decoded = Decoded(name: Octets, rest: Octets)

  /** Reads one name off the front of a message: labels without dots, up to the zero. */
  function Decode(e: Octets): Option<Decoded>
    decreases |e|
  {
    if e == [] || |e| <= e[0] as int then None
    else if e[0] == 0 then Some(Decoded([], e[1..]))
    else if DOT in e[1..1 + e[0] as int] then None
    else
      match Decode(e[1 + e[0] as int..])
      case None => None
      case Some(d) => Some(Decoded(WithLabel(e[1..1 + e[0] as int], d.name), d.rest))
  }

  /** A name with one more label in front. */
  function WithLabel(part: Octets, name: Octets): Octets {
    if name == [] then part else part + [DOT] + name
  }

  lemma DecodeStep(part: Octets, more: Octets)
    requires 1 <= |part| < 256 && DOT !in part
    ensures Decode(LabelBytes(part) + more) == match Decode(more)
         case None => None
         case Some(d) => Some(Decoded(WithLabel(part, d.name), d.rest))
  {
    var e := LabelBytes(part) + more;
    assert e[1 + e[0] as int..] == more && e[1..1 + e[0] as int] == part;
  }

  lemma {:induction false} LabelLengthIs(h: Octets, n: nat)
    requires n <= |h| && (n < |h| ==> h[n] == DOT) && forall k :: 0 <= k < n ==> h[k] != DOT
    ensures LabelLength(h) == n
  {
    if n > 0 {
      LabelLengthIs(h[1..], n - 1);
    }
  }

  lemma EncodeWithLabel(part: Octets, name: Octets)
    requires part != [] && DOT !in part
    ensures Encode(WithLabel(part, name)) == LabelBytes(part) + Encode(name)
  {
    hide Encode, LabelBytes;
    var h := WithLabel(part, name);
    assert forall k :: 0 <= k < |part| ==> h[k] == part[k] && part[k] in part;
    LabelLengthIs(h, |part|);
    EncodeUnfolds(h);
    assert h[..|part|] == part;
    assert Behind(h) == name;
  }

  /** What can be read is what encoding writes. */
  lemma {:induction false} DecodedIsEncoded(e: Octets)
    ensures Decode(e).Some? ==> e == Encode(Decode(e).value.name) + Decode(e).value.rest
    decreases |e|
  {
    if Decode(e).Some? {
      if e[0] == 0 {
        EncodeUnfolds([]);
        assert e == [0] + e[1..];
      } else {
        var n := 1 + e[0] as int;
        DecodedIsEncoded(e[n..]);
        var d := Decode(e[n..]).value;
        EncodeWithLabel(e[1..n], d.name);
        LabelAtFront(e);
        Associative(LabelBytes(e[1..n]), Encode(d.name), d.rest);
      }
    }
  }

  lemma LabelAtFront(e: Octets)
    requires e != [] && e[0] as int < |e|
    ensures e == LabelBytes(e[1..1 + e[0] as int]) + e[1 + e[0] as int..]
  {
  }

  lemma EndDecodes(rest: Octets)
    ensures Decode(Encode([]) + rest) == Some(Decoded([], rest))
  {
    assert ([0] + rest)[1..] == rest;
  }

  /** A well-formed name can be read back from its encoding, whatever follows it. */
  lemma {:induction false} DecodesBack(h: Octets, rest: Octets)
    requires WellFormed(h)
    ensures Decode(Encode(h) + rest) == Some(Decoded(h, rest))
    decreases |h|
  {
    var n := LabelLength(h);
    var more := Encode(Behind(h)) + rest;
    EncodeUnfolds(h);
    hide Encode, Decode, LabelLength, LabelBytes;
    assert DOT !in h[..n];
    Associative(LabelBytes(h[..n]), Encode(Behind(h)), rest);
    DecodeStep(h[..n], more);
    if n < |h| {
      DecodesBack(Behind(h), rest);
      assert h == h[..n] + [DOT] + Behind(h);
    } else {
      assert h[..n] == h;
      EndDecodes(rest);
    }
  }

  /** No well-formed name's encoding starts with another's. */
  lemma PrefixFree(g: Octets, h: Octets, x: Octets, y: Octets)
    requires WellFormed(g) && WellFormed(h) && Encode(g) + x == Encode(h) + y
    ensures g == h && x == y
  {
    DecodesBack(g, x);
    DecodesBack(h, y);
  }

  /** Without that condition it fails: "a." is written like "a", and "a" is a prefix of "a..b". */
  lemma EmptyLabelsAreAmbiguous()
    ensures Encode([97, DOT]) == Encode([97])
    ensures Encode([97]) <= Encode([97, DOT, DOT, 98])
  {
    var a, ab := [97], [97, DOT, DOT, 98];
    assert LabelLength(a) == 1 && Behind(a) == [] && a[..1] == [97];
    assert LabelLength([97, DOT]) == 1 && Behind([97, DOT]) == [] && [97, DOT][..1] == [97];
    assert LabelLength(ab) == 1 && Behind(ab) == [DOT, 98] && ab[..1] == [97];
    assert LabelLength([DOT, 98]) == 0 && [DOT, 98][..0] == [];
    assert Encode(a) == [1, 97, 0];
    assert Encode([DOT, 98]) == [0] + Encode([98]);
    assert Encode(ab) == [1, 97] + ([0] + Encode([98]));
  }

  lemma QueryHeaderIs()
    ensures QUERY_END == [0, 1, 0, 1]
    ensures |QUERY_HEADER| == HEADER && forall k :: 0 <= k < HEADER ==> QUERY_HEADER[k] == if k == 5 then 1 else 0
  {
  }

  /** What a query says to whoever reads it: it is no response, has one question and nothing else, and
      asks for the address (type 1) of the name in the Internet class (1). */
  lemma QueryAsks(hostname: Octets)
    requires WellFormed(hostname)
    ensures var q := Query(hostname);
            && HEADER <= |q| && Decode(q[HEADER..]) == Some(Decoded(hostname, [0, 1, 0, 1]))
            && (forall k :: 0 <= k < HEADER ==> q[k] == if k == 5 then 1 else 0)
  {
    hide *;
    QueryHeaderIs();
    QueryIs(hostname);
    DecodesBack(hostname, QUERY_END);
    AfterHeader(QUERY_HEADER, Encode(hostname), QUERY_END);
    InHeader(QUERY_HEADER, Encode(hostname), QUERY_END);
  }

  lemma QueryIs(hostname: Octets)
    ensures Query(hostname) == QUERY_HEADER + Encode(hostname) + QUERY_END
  {
    hide Encode;
  }

  lemma AfterHeader(header: Octets, name: Octets, fields: Octets)
    ensures (header + name + fields)[|header|..] == name + fields
  {
  }

  lemma InHeader(header: Octets, name: Octets, fields: Octets)
    ensures forall k :: 0 <= k < |header| ==> (header + name + fields)[k] == header[k]
  {
  }

  // ---- Answers ----

  /** A 16-bit number in network order. */
  function Word(high: Octet, low: Octet): int {
    256 * high as int + low as int
  }

  /** What `mdns_parse_answer` finds in the receive buffer: the four bytes of the address. */
  function Answer(buf: Octets, size: nat, hostname: Octets): Option<Octets>
    requires HEADER + |Encode(hostname)| + ANSWER <= |buf|
  {
    var name := Encode(hostname);
    var a := HEADER + |name|;
    if size < HEADER || buf[2] / 128 != 1 || buf[HEADER..a] != name || Word(buf[a + 8], buf[a + 9]) != 4 then None
    else Some(buf[a + 10..a + 14])
  }

  /** `mdns_parse_answer`. The name is compared and the fields are read within the buffer, whatever
      the size of the datagram. */
  method ParseAnswer(buf: array<Octet>, size: nat, hostname: Octets) returns (addr: Option<Octets>)
    requires |Encode(hostname)| <= 256 && HEADER + |Encode(hostname)| + ANSWER <= buf.Length
    ensures addr == Answer(buf[..], size, hostname)
  {
    if size < HEADER {
      return None;
    }
    var flagsQr := buf[2] / 128;
    if flagsQr != 1 {
      return None;
    }
    var name := new Octet[256](_ => 0);
    var offset := AddHostname(hostname, name, 0);
    assert buf[..][HEADER..HEADER + offset] == buf[HEADER..HEADER + offset];
    if buf[HEADER..HEADER + offset] != name[..offset] {
      return None;
    }
    var answer := HEADER + offset;
    if Word(buf[answer + 8], buf[answer + 9]) != 4 {
      return None;
    }
    assert buf[..][answer + 10..answer + 14] == buf[answer + 10..answer + 14];
    return Some(buf[answer + 10..answer + 14]);
  }

  /** A buffer holds the encoding of a well-formed name exactly when that name can be read from it. */
  lemma NameIsRead(e: Octets, hostname: Octets)
    requires WellFormed(hostname) && |Encode(hostname)| <= |e|
    ensures var n := |Encode(hostname)|;
            e[..n] == Encode(hostname) <==> Decode(e) == Some(Decoded(hostname, e[n..]))
  {
    hide Encode, Decode, WellFormed;
    var n := |Encode(hostname)|;
    if e[..n] == Encode(hostname) {
      assert e == Encode(hostname) + e[n..];
      DecodesBack(hostname, e[n..]);
    }
    if Decode(e) == Some(Decoded(hostname, e[n..])) {
      DecodedIsEncoded(e);
    }
  }

  lemma ReadNameHasRest(e: Octets, hostname: Octets)
    requires Decode(e).Some? && Decode(e).value.name == hostname
    ensures |Encode(hostname)| <= |e| && Decode(e).value.rest == e[|Encode(hostname)|..]
  {
    hide Encode, Decode;
    DecodedIsEncoded(e);
  }

  /** Whatever the buffer holds, an answer is taken exactly when the name that can be read behind the
      header is the well-formed one asked for, and four address bytes follow. */
  lemma AnswerIsForHost(buf: Octets, size: nat, hostname: Octets)
    requires WellFormed(hostname) && HEADER + |Encode(hostname)| + ANSWER <= |buf|
    ensures Answer(buf, size, hostname) ==
            match Decode(buf[HEADER..])
            case None => None
            case Some(d) =>
              if && HEADER <= size && buf[2] / 128 == 1 && d.name == hostname
                 && ANSWER <= |d.rest| && Word(d.rest[8], d.rest[9]) == 4
              then Some(d.rest[10..14]) else None
  {
    hide Encode, Decode, WellFormed;
    var e := buf[HEADER..];
    var n := |Encode(hostname)|;
    NameIsRead(e, hostname);
    assert e[..n] == buf[HEADER..HEADER + n];
    if Decode(e).Some? && Decode(e).value.name == hostname {
      ReadNameHasRest(e, hostname);
      var rest := e[n..];
      assert rest[8] == buf[HEADER + n + 8] && rest[9] == buf[HEADER + n + 9];
      assert rest[10..14] == buf[HEADER + n + 10..HEADER + n + 14];
    }
  }
}
