/** The pieces of the C library's text handling that the SDP code leans on:
    decimal printing, the scanning directives of `sscanf`, and `strstr`. */
module Text {
  import opened Options

  // ---- Decimal numbers ----

  predicate IsDigit(c: char) {
    '0' <= c <= '9'
  }

  function DigitChar(d: nat): (c: char)
    requires d < 10
    ensures IsDigit(c) && DigitValue(c) == d
  {
    '0' + d as char
  }

  function DigitValue(c: char): (d: nat)
    requires IsDigit(c)
    ensures d < 10
  {
    c as int - '0' as int
  }

  /** What `%d` and `%u` print for a nonnegative number. */
  function Decimal(n: nat): (s: string)
    ensures s != "" && forall c :: c in s ==> IsDigit(c)
  {
    if n < 10 then [DigitChar(n)] else Decimal(n / 10) + [DigitChar(n % 10)]
  }

  /** Consumes the leading digits of `s`, appending them to the number read so far. */
  function ReadDigits(s: string, sofar: nat): (r: (nat, string))
    ensures |r.1| <= |s|
  {
    if s != "" && IsDigit(s[0]) then ReadDigits(s[1..], 10 * sofar + DigitValue(s[0])) else (sofar, s)
  }

  predicate StartsWithDigit(s: string) {
    s != "" && IsDigit(s[0])
  }

  /** Reading back a printed number continues behind it with exactly its value. */
  lemma {:induction false} ReadDecimal(n: nat, rest: string)
    ensures ReadDigits(Decimal(n) + rest, 0) == ReadDigits(rest, n)
  {
    if n < 10 {
      assert Decimal(n) + rest == [DigitChar(n)] + rest;
      assert ([DigitChar(n)] + rest)[1..] == rest;
    } else {
      var tail := [DigitChar(n % 10)] + rest;
      assert Decimal(n) + rest == Decimal(n / 10) + tail;
      ReadDecimal(n / 10, tail);
      assert tail[1..] == rest;
    }
  }

  lemma DecimalInjective(m: nat, n: nat)
    ensures Decimal(m) == Decimal(n) <==> m == n
  {
    ReadDecimal(m, "");
    ReadDecimal(n, "");
    assert Decimal(m) + "" == Decimal(m) && Decimal(n) + "" == Decimal(n);
  }

  // ---- sscanf directives ----

  /** `isspace` in the C locale. */
  predicate IsSpace(c: char) {
    c == ' ' || '\t' <= c <= '\r'
  }

  predicate IsWord(s: string) {
    s != "" && forall c :: c in s ==> !IsSpace(c)
  }

  function SkipSpace(s: string): (r: string)
    ensures |r| <= |s|
    ensures r != "" ==> !IsSpace(r[0])
  {
    if s != "" && IsSpace(s[0]) then SkipSpace(s[1..]) else s
  }

  /** The length of the leading run of non-blank characters. */
  function WordLength(s: string): (n: nat)
    ensures n <= |s|
  {
    if s == "" || IsSpace(s[0]) then 0 else 1 + WordLength(s[1..])
  }

  /** The outcome of one conversion: what was read and what is left of the input. */
  datatype Scan<+T> = Stuck | Read(value: T, rest: string)

  /** `%s` */
  function ScanWord(s: string): Scan<string> {
    var t := SkipSpace(s);
    var n := WordLength(t);
    if n == 0 then Stuck else Read(t[..n], t[n..])
  }

  /** `%d` and `%u` before the value is cut to its width: an optional sign and digits. */
  function ScanInt(s: string): Scan<int> {
    var t := SkipSpace(s);
    var signed := t != "" && (t[0] == '-' || t[0] == '+');
    var u := if signed then t[1..] else t;
    if !StartsWithDigit(u) then Stuck
    else
      var (v: int, rest) := ReadDigits(u, 0);
      Read(if signed && t[0] == '-' then -v else v, rest)
  }

  /** Literal text of the format, after the blank in front of it. */
  function ScanLiteral(s: string, lit: string): Scan<()> {
    var t := SkipSpace(s);
    if lit <= t then Read((), t[|lit|..]) else Stuck
  }

  /** A rest that ends the word or the number before it. */
  predicate EndsWord(s: string) {
    s == "" || IsSpace(s[0])
  }

  lemma {:induction false} WordLengthOf(w: string, rest: string)
    requires forall c :: c in w ==> !IsSpace(c)
    ensures WordLength(w + rest) == |w| + WordLength(rest)
  {
    if w == "" {
      assert w + rest == rest;
    } else {
      assert (w + rest)[1..] == w[1..] + rest;
      WordLengthOf(w[1..], rest);
    }
  }

  /** A word with the blank in front of it and the text behind it. */
  function Spaced(w: string, rest: string): (s: string)
    ensures s != "" && s[0] == ' '
  {
    [' '] + (w + rest)
  }

  lemma ScanWordReads(w: string, rest: string)
    requires IsWord(w) && EndsWord(rest)
    ensures ScanWord(w + rest) == Read(w, rest)
    ensures ScanWord(Spaced(w, rest)) == Read(w, rest)
  {
    WordLengthOf(w, rest);
    assert (w + rest)[0] == w[0] && w[0] in w;
    assert Spaced(w, rest)[1..] == w + rest;
    assert SkipSpace(Spaced(w, rest)) == SkipSpace(w + rest);
    assert (w + rest)[..|w|] == w && (w + rest)[|w|..] == rest;
  }

  lemma ScanIntReads(n: nat, rest: string)
    requires EndsWord(rest)
    ensures ScanInt(Spaced(Decimal(n), rest)) == Read(n, rest)
  {
    var t := Decimal(n) + rest;
    assert t[0] == Decimal(n)[0] && Decimal(n)[0] in Decimal(n);
    assert IsDigit(t[0]);
    assert Spaced(Decimal(n), rest)[1..] == t;
    assert SkipSpace(Spaced(Decimal(n), rest)) == SkipSpace(t) == t;
    ReadDecimal(n, rest);
  }

  lemma ScanLiteralReads(lit: string, rest: string)
    requires IsWord(lit)
    ensures ScanLiteral(Spaced(lit, rest), lit) == Read((), rest)
  {
    var t := lit + rest;
    assert t[0] == lit[0] && lit[0] in lit;
    assert Spaced(lit, rest)[1..] == t;
    assert SkipSpace(Spaced(lit, rest)) == SkipSpace(t) == t;
    assert t[..|lit|] == lit && t[|lit|..] == rest;
  }

  // ---- Searching ----

  /** `strstr`: the first place where `p` occurs in `s`. */
  function Find(s: string, p: string): (r: Option<nat>)
    ensures r.Some? ==> r.value + |p| <= |s| && p <= s[r.value..]
  {
    if p <= s then Some(0)
    else if s == "" then None
    else
      match Find(s[1..], p)
      case None => None
      case Some(i) => assert s[1..][i..] == s[1 + i..]; Some(1 + i)
  }

  /** A line without `p`'s first character is found to end exactly where `p` follows it. */
  lemma {:induction false} FindAfter(line: string, p: string, rest: string)
    requires p != "" && p[0] !in line
    ensures Find(line + p + rest, p) == Some(|line|)
  {
    if line == "" {
      assert line + p + rest == p + rest;
    } else {
      var s := line + p + rest;
      assert s[0] == line[0];
      assert s[1..] == line[1..] + p + rest;
      FindAfter(line[1..], p, rest);
    }
  }

  /** `text` stands at some place in `s`. */
  predicate Stands(text: string, s: string) {
    exists i :: 0 <= i <= |s| && text <= s[i..]
  }

  lemma StandsStep(text: string, s: string)
    requires s != "" && text != ""
    ensures Stands(text, s) <==> text <= s || Stands(text, s[1..])
  {
    if Stands(text, s) {
      var i :| 0 <= i <= |s| && text <= s[i..];
      if i == 0 {
        assert s[0..] == s;
      } else {
        assert s[1..][i - 1..] == s[i..];
      }
    }
    if text <= s {
      assert s[0..] == s;
    }
    if Stands(text, s[1..]) {
      var i :| 0 <= i <= |s[1..]| && text <= s[1..][i..];
      assert s[i + 1..] == s[1..][i..];
    }
  }

  /** `strstr` finds a text exactly when it stands somewhere, at the first such place. */
  lemma {:induction false} FindIsFirst(s: string, p: string)
    requires p != ""
    ensures Find(s, p).Some? <==> Stands(p, s)
    ensures Find(s, p).Some? ==> forall j :: 0 <= j < Find(s, p).value ==> !(p <= s[j..])
  {
    if s != "" {
      StandsStep(p, s);
      FindIsFirst(s[1..], p);
      if Find(s, p).Some? && Find(s, p).value > 0 {
        forall j | 0 <= j < Find(s, p).value ensures !(p <= s[j..]) {
          if j > 0 {
            assert s[j..] == s[1..][j - 1..];
          }
        }
      }
    }
  }

  // ---- Python's str.join ----

  function Join(sep: string, lines: seq<string>): string {
    if lines == [] then "" else if |lines| == 1 then lines[0] else lines[0] + sep + Join(sep, lines[1..])
  }
}
