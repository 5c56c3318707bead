/** `embed_tflite.py`: the C array generator and the scanner behind `--check`. */
module Embed {
  import opened Text
  import opened Grouping
  import opened Bytes

  // ---- The generated text ----

  function HexChar(v: Octet): (c: char)
    requires v < 16
    ensures IsHex(c) && HexValue(c) == v
    ensures c != 'x'
  {
    if v < 10 then '0' + v as char else 'a' + (v - 10) as char
  }

  predicate IsHex(c: char) {
    '0' <= c <= '9' || 'a' <= c <= 'f' || 'A' <= c <= 'F'
  }

  function HexValue(c: char): (v: Octet)
    requires IsHex(c)
    ensures v < 16
  {
    if c <= '9' then (c as int - '0' as int) as Octet
    else if 'a' <= c then (c as int - 'a' as int + 10) as Octet
    else (c as int - 'A' as int + 10) as Octet
  }

  /** One array element: `0x`, two lower-case digits, a comma. */
  function Element(b: Octet): string {
    ['0', 'x', HexChar(b / 16), HexChar(b % 16), ',']
  }

  function Elements(bs: seq<Octet>): (es: seq<string>)
    ensures |es| == |bs|
  {
    if bs == [] then [] else Elements(bs[..|bs| - 1]) + [Element(bs[|bs| - 1])]
  }

  function ArrayLine(bs: seq<Octet>): string {
    "    " + Join(" ", Elements(bs))
  }

  function ArrayLines(groups: seq<seq<Octet>>): seq<string> {
    if groups == [] then [] else ArrayLines(groups[..|groups| - 1]) + [ArrayLine(groups[|groups| - 1])]
  }

  const PER_LINE: nat := 16

  const NOTE := "/* Auto-generated from " + "main/models/wake_word_ru.tflite" + " \U{2014} regenerate via " + "tools/embed_tflite.py. */"
  const INCLUDE := "#include <stddef.h>"
  const ALIGN_NOTE := "/* TFLite Micro requires " + "the model buffer to be " + "16-byte-aligned. */"
  const ALIGN := "__attribute__((aligned(16)))"
  const OPEN := "const unsigned char " + "wake_word_model_data[] = {"

  function Preamble(): seq<string> {
    [NOTE, INCLUDE, "", ALIGN_NOTE, ALIGN, OPEN]
  }

  function LengthLine(n: nat): string {
    "const size_t wake_word_model_data_len = " + Decimal(n) + ";"
  }

  /** Full lines of sixteen elements, a shorter one for what is left, and the closing lines. */
  function Lines(data: seq<Octet>): seq<string> {
    Preamble() + ArrayLines(Groups(data, PER_LINE))
    + (if Leftover(data, PER_LINE) == [] then [] else [ArrayLine(Leftover(data, PER_LINE))])
    + ["};", LengthLine(|data|), ""]
  }

  /** The generator. */
  method Generate(data: seq<Octet>) returns (text: string)
    ensures text == Join("\n", Lines(data))
  {
    hide Preamble, ArrayLine, ArrayLines, Element, Elements, Groups, Leftover, Join;
    var lines, chunk := GenerateFullLines(data);
    ElementsLength(Leftover(data, PER_LINE));
    if chunk != [] {
      LineIs(Leftover(data, PER_LINE));
      lines := lines + ["    " + Join(" ", chunk)];
    }
    lines := lines + ["};"];
    lines := lines + [LengthLine(|data|)];
    lines := lines + [""];
    assert lines == Lines(data);
    text := Join("\n", lines);
  }

  /** Its loop: `lines` grows by one line for every sixteen bytes, `chunk` holds the rest. */
  method GenerateFullLines(data: seq<Octet>) returns (lines: seq<string>, chunk: seq<string>)
    ensures lines == Preamble() + ArrayLines(Groups(data, PER_LINE))
    ensures chunk == Elements(Leftover(data, PER_LINE))
  {
    lines := Preamble();
    chunk := [];
    StartOfLines();
    hide Preamble, ArrayLine, ArrayLines, Element, Elements, Groups, Leftover, Join;
    assert data[..0] == [];
    for i := 0 to |data|
      invariant lines == Preamble() + ArrayLines(Groups(data[..i], PER_LINE))
      invariant chunk == Elements(Leftover(data[..i], PER_LINE))
      invariant |Leftover(data[..i], PER_LINE)| == i % PER_LINE
    {
      ghost var pending := Leftover(data[..i], PER_LINE) + [data[i]];
      assert data[..i + 1] == data[..i] + [data[i]];
      GroupsStep(data[..i], data[i], PER_LINE);
      ElementsAppend(Leftover(data[..i], PER_LINE), data[i]);
      chunk := chunk + [Element(data[i])];
      if (i + 1) % 16 == 0 {
        ArrayLinesAppend(Groups(data[..i], PER_LINE), pending);
        LineIs(pending);
        lines := lines + ["    " + Join(" ", chunk)];
        chunk := [];
      }
    }
    assert data[..|data|] == data;
  }

  lemma StartOfLines()
    ensures ArrayLines(Groups([], PER_LINE)) == [] && Leftover<Octet>([], PER_LINE) == [] && Elements([]) == []
  {
  }

  lemma ElementsLength(bs: seq<Octet>)
    ensures Elements(bs) == [] <==> bs == []
  {
  }

  lemma ElementsAppend(bs: seq<Octet>, b: Octet)
    ensures Elements(bs + [b]) == Elements(bs) + [Element(b)]
  {
    assert (bs + [b])[..|bs|] == bs;
  }

  lemma ArrayLinesAppend(groups: seq<seq<Octet>>, g: seq<Octet>)
    ensures ArrayLines(groups + [g]) == ArrayLines(groups) + [ArrayLine(g)]
  {
    assert (groups + [g])[..|groups|] == groups;
  }

  lemma LineIs(bs: seq<Octet>)
    ensures ArrayLine(bs) == "    " + Join(" ", Elements(bs))
  {
  }

  /** The declarations, and as many array lines as there are begun sixteens. */
  lemma LayoutOfLines(data: seq<Octet>)
    ensures var lines := Lines(data);
            && |lines| == 9 + (|data| + 15) / 16
            && lines[1] == "#include <stddef.h>" && lines[4] == "__attribute__((aligned(16)))"
            && lines[5] == "const unsigned char wake_word_model_data[] = {"
            && lines[|lines| - 3] == "};" && lines[|lines| - 1] == ""
  {
    DeclaresArray();
    hide Preamble, ArrayLine, ArrayLines, Groups, Leftover, LengthLine;
    GroupsCover(data, PER_LINE);
    ArrayLinesLength(Groups(data, PER_LINE));
  }

  lemma DeclaresArray()
    ensures |Preamble()| == 6 && Preamble()[1] == "#include <stddef.h>" && Preamble()[4] == "__attribute__((aligned(16)))"
    ensures Preamble()[5] == "const unsigned char wake_word_model_data[] = {"
  {
    OpenIs();
    PreambleIs();
    hide *;
  }

  lemma PreambleIs()
    ensures |Preamble()| == 6 && Preamble()[1] == INCLUDE == "#include <stddef.h>"
    ensures Preamble()[4] == ALIGN == "__attribute__((aligned(16)))" && Preamble()[5] == OPEN
  {
  }

  lemma OpenIs()
    ensures OPEN == "const unsigned char wake_word_model_data[] = {"
  {
  }

  lemma LinesAre(data: seq<Octet>)
    ensures var rest := Leftover(data, PER_LINE);
            PER_LINE == 16
            && Lines(data) == Preamble() + (ArrayLines(Groups(data, PER_LINE)) + if rest == [] then [] else [ArrayLine(rest)])
                              + ["};", LengthLine(|data|), ""]
  {
    hide Preamble, ArrayLine, ArrayLines, Groups, Leftover, LengthLine;
  }

  /** Array line `k` holds the bytes of sixteen places, or of those that are left. */
  lemma ArrayLineOfLines(data: seq<Octet>, k: nat)
    requires k < (|data| + 15) / 16
    ensures |Lines(data)| > 6 + k
    ensures Lines(data)[6 + k] == ArrayLine(data[16 * k..if 16 * k + 16 <= |data| then 16 * k + 16 else |data|])
  {
    hide *;
    LinesAre(data);
    LayoutOfLines(data);
    DeclaresArray();
    ArrayLinesLength(Groups(data, PER_LINE));
    GroupsCover(data, PER_LINE);
    GroupAt(data, k);
    var groups, rest := Groups(data, PER_LINE), Leftover(data, PER_LINE);
    var all := ArrayLines(groups) + if rest == [] then [] else [ArrayLine(rest)];
    assert Lines(data) == Preamble() + all + ["};", LengthLine(|data|), ""];
    if k < |groups| {
      ArrayLinesAt(groups, k);
      assert all[k] == ArrayLine(groups[k]);
    } else {
      assert k == |groups| && rest != [] && all[k] == ArrayLine(rest);
      assert data[16 * k..] == data[16 * k..|data|];
    }
    assert Lines(data)[6 + k] == all[k];
  }

  lemma {:induction false} ArrayLinesLength(groups: seq<seq<Octet>>)
    ensures |ArrayLines(groups)| == |groups|
  {
    if groups != [] {
      ArrayLinesLength(groups[..|groups| - 1]);
    }
  }

  lemma {:induction false} GroupAt(data: seq<Octet>, k: nat)
    ensures k < |Groups(data, 16)| ==> 16 * k + 16 <= |data| && Groups(data, 16)[k] == data[16 * k..16 * k + 16]
    ensures k == |Groups(data, 16)| ==> 16 * k <= |data| < 16 * k + 16 && Leftover(data, 16) == data[16 * k..]
    decreases |data|
  {
    if |data| >= 16 && k > 0 {
      GroupAt(data[16..], k - 1);
      if k - 1 < |Groups(data[16..], 16)| {
        assert data[16..][16 * (k - 1)..16 * (k - 1) + 16] == data[16 * k..16 * k + 16];
      }
      if k - 1 == |Groups(data[16..], 16)| {
        assert data[16..][16 * (k - 1)..] == data[16 * k..];
      }
    }
  }

  /** The last line but one names the number of bytes: read back, it is the number given. */
  lemma FooterNamesLength(data: seq<Octet>)
    ensures var lines := Lines(data);
            var head := "const size_t wake_word_model_data_len = ";
            && |lines| >= 2 && head <= lines[|lines| - 2]
            && ReadDigits(lines[|lines| - 2][|head|..], 0) == (|data|, ";")
  {
    hide Preamble, ArrayLines, ArrayLine, Groups, Leftover;
    var n, head := |data|, "const size_t wake_word_model_data_len = ";
    ReadDecimal(n, ";");
    assert LengthLine(n) == head + (Decimal(n) + ";");
    var lines := Lines(data);
    assert lines[|lines| - 2] == LengthLine(n);
  }

  // ---- The scanner ----

  predicate ElementAt(s: string) {
    |s| >= 4 && s[0] == '0' && s[1] == 'x' && IsHex(s[2]) && IsHex(s[3])
  }

  /** All matches of `0x` and two hex digits, from the left, as numbers. */
  function Scan(s: string): seq<Octet>
    decreases |s|
  {
    if s == "" then []
    else if ElementAt(s) then [16 * HexValue(s[2]) + HexValue(s[3])] + Scan(s[4..])
    else Scan(s[1..])
  }

  /** `--check` */
  predicate InSync(text: string, data: seq<Octet>) {
    Scan(text) == data
  }

  // ---- The scanner reads the generated text back ----

  /** Text that cannot finish a match begun in front of it. */
  predicate Closed(s: string) {
    s == "" || s[0] != 'x'
  }

  /** Scanning `s` yields `bs` and goes on behind it, whatever closed text follows. */
  ghost predicate Yields(s: string, bs: seq<Octet>) {
    Closed(s) && forall rest :: Closed(rest) ==> Scan(s + rest) == bs + Scan(rest)
  }

  lemma {:induction false} ScanSkips(s: string, rest: string)
    requires 'x' !in s && Closed(rest)
    ensures Scan(s + rest) == Scan(rest)
  {
    if s == "" {
      assert s + rest == rest;
    } else {
      assert (s + rest)[1..] == s[1..] + rest;
      ScanSkips(s[1..], rest);
    }
  }

  lemma PlainYieldsNothing(s: string)
    requires 'x' !in s
    ensures Yields(s, [])
  {
    forall rest | Closed(rest) ensures Scan(s + rest) == [] + Scan(rest) {
      ScanSkips(s, rest);
    }
  }

  lemma ElementYields(b: Octet)
    ensures Yields(Element(b), [b])
  {
    forall rest | Closed(rest) ensures Scan(Element(b) + rest) == [b] + Scan(rest) {
      var s := Element(b) + rest;
      assert s[4..] == "," + rest;
      ScanSkips(",", rest);
      assert 16 * (b / 16) + b % 16 == b;
    }
  }

  lemma YieldsAppend(s: string, bs: seq<Octet>, t: string, cs: seq<Octet>)
    requires Yields(s, bs) && Yields(t, cs) && s != ""
    ensures Yields(s + t, bs + cs)
  {
    hide Scan;
    forall rest | Closed(rest) ensures Scan(s + t + rest) == bs + cs + Scan(rest) {
      assert s + t + rest == s + (t + rest);
      assert Closed(t + rest);
      assert bs + cs + Scan(rest) == bs + (cs + Scan(rest));
    }
  }

  /** Lines that yield bytes, joined by text that yields none. */
  lemma {:induction false} JoinYields(sep: string, lines: seq<string>, found: seq<seq<Octet>>)
    requires |lines| == |found| && sep != "" && 'x' !in sep
    requires forall k :: 0 <= k < |lines| ==> Yields(lines[k], found[k])
    ensures Yields(Join(sep, lines), Concat(found))
  {
    hide Yields, Scan;
    if lines == [] {
      PlainYieldsNothing("");
    } else if |lines| == 1 {
      assert found[1..] == [] && found[0] + [] == found[0];
    } else {
      JoinYields(sep, lines[1..], found[1..]);
      PlainYieldsNothing(sep);
      YieldsAppend(sep, [], Join(sep, lines[1..]), Concat(found[1..]));
      YieldsPrepend(lines[0], found[0], sep + Join(sep, lines[1..]), [] + Concat(found[1..]));
      assert Join(sep, lines) == lines[0] + (sep + Join(sep, lines[1..]));
      assert found[0] + ([] + Concat(found[1..])) == Concat(found);
    }
  }

  lemma YieldsPrepend(s: string, bs: seq<Octet>, t: string, cs: seq<Octet>)
    requires Yields(s, bs) && Yields(t, cs)
    ensures Yields(s + t, bs + cs)
  {
    if s == "" {
      assert Scan("" + "") == bs + Scan("");
      assert "" + t == t && [] + cs == cs && bs == [];
      assert s + t == t && bs + cs == cs;
    } else {
      YieldsAppend(s, bs, t, cs);
    }
  }

  function Singles(bs: seq<Octet>): (ss: seq<seq<Octet>>)
    ensures |ss| == |bs| && forall k :: 0 <= k < |bs| ==> ss[k] == [bs[k]]
  {
    seq(|bs|, k requires 0 <= k < |bs| => [bs[k]])
  }

  lemma {:induction false} ConcatSingles(bs: seq<Octet>)
    ensures Concat(Singles(bs)) == bs
  {
    if bs != [] {
      ConcatSingles(bs[1..]);
      assert Singles(bs)[1..] == Singles(bs[1..]);
    }
  }

  lemma {:induction false} ElementAtPlace(bs: seq<Octet>, k: nat)
    requires k < |bs|
    ensures Elements(bs)[k] == Element(bs[k])
  {
    if k < |bs| - 1 {
      ElementAtPlace(bs[..|bs| - 1], k);
    }
  }

  lemma ArrayLineYields(bs: seq<Octet>)
    ensures Yields(ArrayLine(bs), bs)
  {
    forall k | 0 <= k < |bs| ensures Yields(Elements(bs)[k], Singles(bs)[k]) {
      ElementAtPlace(bs, k);
      ElementYields(bs[k]);
    }
    JoinYields(" ", Elements(bs), Singles(bs));
    ConcatSingles(bs);
    PlainYieldsNothing("    ");
    YieldsAppend("    ", [], Join(" ", Elements(bs)), bs);
    assert [] + bs == bs;
  }

  lemma {:induction false} ArrayLinesAt(groups: seq<seq<Octet>>, k: nat)
    requires k < |groups|
    ensures |ArrayLines(groups)| == |groups| && ArrayLines(groups)[k] == ArrayLine(groups[k])
  {
    if k < |groups| - 1 {
      ArrayLinesAt(groups[..|groups| - 1], k);
    } else if |groups| > 1 {
      ArrayLinesAt(groups[..|groups| - 1], 0);
    }
  }

  ghost predicate AllYield(lines: seq<string>, found: seq<seq<Octet>>) {
    |lines| == |found| && forall k :: 0 <= k < |lines| ==> Yields(lines[k], found[k])
  }

  function Nothing(n: nat): (ys: seq<seq<Octet>>)
    ensures |ys| == n && forall k :: 0 <= k < n ==> ys[k] == []
  {
    seq(n, k => [])
  }

  lemma PlainLines(lines: seq<string>)
    requires forall k :: 0 <= k < |lines| ==> 'x' !in lines[k]
    ensures AllYield(lines, Nothing(|lines|))
  {
    forall k | 0 <= k < |lines| ensures Yields(lines[k], Nothing(|lines|)[k]) {
      PlainYieldsNothing(lines[k]);
    }
  }

  lemma PreambleIsPlain()
    ensures AllYield(Preamble(), Nothing(|Preamble()|))
  {
    NoteIsPlain();
    AlignNoteIsPlain();
    OpenIsPlain();
    PlainBlock(NOTE, INCLUDE, ALIGN_NOTE, ALIGN, OPEN);
  }

  lemma NoteIsPlain()
    ensures 'x' !in NOTE
  {
  }

  lemma AlignNoteIsPlain()
    ensures 'x' !in ALIGN_NOTE
  {
  }

  lemma OpenIsPlain()
    ensures 'x' !in OPEN
  {
  }

  lemma PlainBlock(a: string, b: string, c: string, d: string, e: string)
    requires 'x' !in a && 'x' !in b && 'x' !in c && 'x' !in d && 'x' !in e
    ensures AllYield([a, b, "", c, d, e], Nothing(6))
  {
    PlainLines([a, b, "", c, d, e]);
  }

  lemma ArrayLinesYield(groups: seq<seq<Octet>>)
    ensures AllYield(ArrayLines(groups), groups)
  {
    if groups != [] {
      ArrayLinesAt(groups, 0);
    }
    forall k | 0 <= k < |groups| ensures Yields(ArrayLines(groups)[k], groups[k]) {
      ArrayLinesAt(groups, k);
      ArrayLineYields(groups[k]);
    }
  }

  lemma {:induction false} ConcatSplits(xs: seq<seq<Octet>>, ys: seq<seq<Octet>>)
    ensures Concat(xs + ys) == Concat(xs) + Concat(ys)
  {
    if xs == [] {
      assert xs + ys == ys;
    } else {
      assert (xs + ys)[1..] == xs[1..] + ys;
      ConcatSplits(xs[1..], ys);
    }
  }

  lemma {:induction false} ConcatNothing(n: nat)
    ensures Concat(Nothing(n)) == []
  {
    if n > 0 {
      assert Nothing(n)[1..] == Nothing(n - 1);
      ConcatNothing(n - 1);
    }
  }

  /** What each line of the generated text yields: all bytes, in order. */
  function LineYields(data: seq<Octet>): seq<seq<Octet>> {
    Nothing(|Preamble()|) + (Groups(data, PER_LINE)
    + ((if Leftover(data, PER_LINE) == [] then [] else [Leftover(data, PER_LINE)])
    + Nothing(3)))
  }

  lemma LineYieldsAll(data: seq<Octet>)
    ensures Concat(LineYields(data)) == data
  {
    hide Preamble;
    var groups, rest := Groups(data, PER_LINE), Leftover(data, PER_LINE);
    var last := if rest == [] then [] else [rest];
    GroupsCover(data, PER_LINE);
    ConcatNothing(|Preamble()|);
    ConcatNothing(3);
    ConcatSplits(Nothing(|Preamble()|), groups + (last + Nothing(3)));
    ConcatSplits(groups, last + Nothing(3));
    ConcatSplits(last, Nothing(3));
    assert Concat(last) == rest by {
      assert rest != [] ==> Concat([rest]) == rest + Concat([rest][1..]);
    }
  }

  /** Round trip: scanning the generated text gives the embedded bytes back. */
  lemma ScanReadsBack(data: seq<Octet>)
    ensures Scan(Join("\n", Lines(data))) == data
  {
    hide Preamble, ArrayLine, ArrayLines, LengthLine, Yields, Scan, Join, Groups, Leftover;
    var rest := Leftover(data, PER_LINE);
    var last := if rest == [] then [] else [ArrayLine(rest)];
    PreambleIsPlain();
    ArrayLinesYield(Groups(data, PER_LINE));
    ArrayLineYields(rest);
    FooterIsPlain(|data|);
    AllYieldAppend(last, if rest == [] then [] else [rest], ["};", LengthLine(|data|), ""], Nothing(3));
    AllYieldAppend(ArrayLines(Groups(data, PER_LINE)), Groups(data, PER_LINE),
                   last + ["};", LengthLine(|data|), ""], (if rest == [] then [] else [rest]) + Nothing(3));
    AllYieldAppend(Preamble(), Nothing(|Preamble()|),
                   ArrayLines(Groups(data, PER_LINE)) + (last + ["};", LengthLine(|data|), ""]),
                   Groups(data, PER_LINE) + ((if rest == [] then [] else [rest]) + Nothing(3)));
    assert Lines(data) == Preamble() + (ArrayLines(Groups(data, PER_LINE)) + (last + ["};", LengthLine(|data|), ""]));
    LineYieldsAll(data);
    TextYields(Lines(data), LineYields(data));
  }

  lemma AllYieldAppend(lines: seq<string>, found: seq<seq<Octet>>, more: seq<string>, moreFound: seq<seq<Octet>>)
    requires AllYield(lines, found) && AllYield(more, moreFound)
    ensures AllYield(lines + more, found + moreFound)
  {
    hide Yields;
  }

  lemma FooterIsPlain(n: nat)
    ensures AllYield(["};", LengthLine(n), ""], Nothing(3))
  {
    assert 'x' !in LengthLine(n);
    PlainLines(["};", LengthLine(n), ""]);
  }

  lemma TextYields(lines: seq<string>, found: seq<seq<Octet>>)
    requires AllYield(lines, found)
    ensures Scan(Join("\n", lines)) == Concat(found)
  {
    JoinYields("\n", lines, found);
    assert Join("\n", lines) + "" == Join("\n", lines);
    assert Concat(found) + Scan("") == Concat(found);
  }

  /** `--check` on a generated file accepts a model exactly when it is the embedded one. */
  lemma CheckAcceptsOnlyTheModel(embedded: seq<Octet>, model: seq<Octet>)
    ensures InSync(Join("\n", Lines(embedded)), model) <==> embedded == model
  {
    ScanReadsBack(embedded);
  }
}
