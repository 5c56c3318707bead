/** Python's `str.splitlines`, and what it means for a text to be split so. */
module Lines {
  const RETURN_FEED := "\r\n"

  predicate IsLineBreak(c: char) {
    '\n' <= c <= '\r' || '\U{1c}' <= c <= '\U{1e}' || c == '\U{85}' || c == '\U{2028}' || c == '\U{2029}'
  }

  function LineLength(s: string): (n: nat)
    ensures n <= |s|
  {
    if s == "" || IsLineBreak(s[0]) then 0 else 1 + LineLength(s[1..])
  }

  lemma {:induction false} LineUpToBreak(s: string)
    ensures var n := LineLength(s);
            && (forall k :: 0 <= k < n ==> !IsLineBreak(s[k]))
            && (n < |s| ==> IsLineBreak(s[n]))
  {
    hide IsLineBreak;
    if s != "" && !IsLineBreak(s[0]) {
      LineUpToBreak(s[1..]);
      assert forall k :: 0 < k < LineLength(s) ==> s[k] == s[1..][k - 1];
    }
  }

  function BreakLength(s: string): (n: nat)
    requires s != ""
    ensures 0 < n <= |s|
  {
    if RETURN_FEED <= s then 2 else 1
  }

  function FirstLine(s: string): string {
    s[..LineLength(s)]
  }

  /** What follows the first line and its break. */
  function RestAfter(s: string): (rest: string)
    requires s != ""
    ensures |rest| < |s|
  {
    var n := LineLength(s);
    if n == |s| then "" else s[n + BreakLength(s[n..])..]
  }

  function SplitLines(s: string): seq<string>
    decreases |s|
  {
    if s == "" then [] else [FirstLine(s)] + SplitLines(RestAfter(s))
  }

  lemma NoReturnInFirst(s: string)
    ensures '\r' !in FirstLine(s)
  {
    LineUpToBreak(s);
    assert forall k :: 0 <= k < LineLength(s) ==> FirstLine(s)[k] == s[k];
    assert IsLineBreak('\r');
  }

  lemma {:induction false} NoReturnInLine(s: string, k: nat)
    requires k < |SplitLines(s)|
    ensures '\r' !in SplitLines(s)[k]
    decreases |s|
  {
    hide FirstLine, RestAfter;
    if k > 0 {
      NoReturnInLine(RestAfter(s), k - 1);
    } else {
      NoReturnInFirst(s);
    }
  }

  // ---- The meaning of the split ----

  /** The characters that end a line, by their code points. */
  predicate EndsLine(c: char) {
    var n := c as int;
    n == 10 || n == 11 || n == 12 || n == 13 || n == 28 || n == 29 || n == 30 || n == 133 || n == 8232 || n == 8233
  }

  lemma BreaksEndLines(c: char)
    ensures IsLineBreak(c) <==> EndsLine(c)
  {
  }

  /** A line break: one such character, or a carriage return with a line feed. */
  predicate IsBreak(b: string) {
    b == "\r\n" || (|b| == 1 && EndsLine(b[0]))
  }

  predicate Unbroken(line: string) {
    forall k :: 0 <= k < |line| ==> !EndsLine(line[k])
  }

  /** A line and what ends it. */
  datatype Piece = Piece(line: string, end: string)

  /** The text is the lines with a line break behind each, which only the last may lack unless it is
      empty. No line contains a break, and a carriage return that a line feed follows is one with it. */
  predicate IsSplit(s: string, pieces: seq<Piece>) {
    if pieces == [] then s == ""
    else
      var p := pieces[0];
      var n := |p.line| + |p.end|;
      && p.line + p.end <= s && Unbroken(p.line)
      && (if IsBreak(p.end) then true else p.end == "" && p.line != "" && |pieces| == 1)
      && (p.end == "\r" ==> !("\n" <= s[n..]))
      && IsSplit(s[n..], pieces[1..])
  }

  function LinesOf(pieces: seq<Piece>): (lines: seq<string>)
    ensures |lines| == |pieces| && forall k :: 0 <= k < |lines| ==> lines[k] == pieces[k].line
  {
    seq(|pieces|, k requires 0 <= k < |pieces| => pieces[k].line)
  }

  lemma {:induction false} LineLengthIs(s: string, n: nat)
    requires n <= |s| && (n < |s| ==> IsLineBreak(s[n])) && forall k :: 0 <= k < n ==> !IsLineBreak(s[k])
    ensures LineLength(s) == n
  {
    if n > 0 {
      LineLengthIs(s[1..], n - 1);
    }
  }

  /** The first piece of any split is the text's first line with its break. */
  lemma FirstPiece(s: string, pieces: seq<Piece>)
    requires pieces != [] && IsSplit(s, pieces)
    ensures var p := pieces[0];
            && s != "" && p.line == s[..LineLength(s)]
            && p.end == (if LineLength(s) == |s| then "" else s[LineLength(s)..][..BreakLength(s[LineLength(s)..])])
  {
    var p := pieces[0];
    var n := |p.line|;
    assert s[..n] == p.line && s[n..][..|p.end|] == p.end;
    assert p.end == "" ==> pieces[1..] == [] && s[n..] == "";
    hide IsSplit, LineLength, BreakLength;
    forall k | 0 <= k < n ensures !IsLineBreak(s[k]) {
      BreaksEndLines(p.line[k]);
    }
    if p.end != "" {
      BreaksEndLines(p.end[0]);
      BreaksEndLines('\r');
      assert s[n] == p.end[0] && (p.end == "\r" ==> s[n..][1..] == s[n + 1..]);
      BreakTaken(s[n..], p.end);
    }
    LineLengthIs(s, n);
  }

  lemma BreakTaken(t: string, end: string)
    requires IsBreak(end) && end <= t && (end == "\r" ==> !("\n" <= t[1..]))
    ensures BreakLength(t) == |end|
  {
    if |t| > 1 && t[0] == '\r' && t[1] == '\n' {
      assert t[1..][..1] == "\n";
      assert t[..2] == "\r\n";
      assert end[0] == t[0];
    } else {
      NoReturnFeed(t);
    }
  }

  /** `SplitLines` gives the lines of a split. */
  lemma {:induction false} SplitLinesIs(s: string) returns (pieces: seq<Piece>)
    ensures IsSplit(s, pieces) && SplitLines(s) == LinesOf(pieces)
    decreases |s|
  {
    hide *;
    pieces := [];
    if s == "" {
      NoPieces();
    } else {
      SplitUnfolds(s);
      var p := PieceOf(s);
      var rest := SplitLinesIs(RestAfter(s));
      pieces := [p] + rest;
      OneMorePiece(s, p, RestAfter(s), rest);
      assert LinesOf(pieces) == [p.line] + LinesOf(rest);
    }
  }

  lemma NoPieces()
    ensures IsSplit("", []) && SplitLines("") == LinesOf([])
  {
  }

  lemma SplitUnfolds(s: string)
    requires s != ""
    ensures SplitLines(s) == [FirstLine(s)] + SplitLines(RestAfter(s))
  {
  }

  /** The first line with its break, in front of the rest. */
  lemma PieceOf(s: string) returns (p: Piece)
    requires s != ""
    ensures p.line == FirstLine(s) && p.line + p.end + RestAfter(s) == s && Unbroken(p.line)
    ensures IsBreak(p.end) || (p.end == "" && p.line != "" && RestAfter(s) == "")
    ensures p.end == "\r" ==> !("\n" <= RestAfter(s))
  {
    var n := LineLength(s);
    LineIsUnbroken(s);
    if n == |s| {
      p := Piece(s, "");
      assert s[..n] == s && s + "" + "" == s;
    } else {
      BreakIs(s, n);
      hide LineLength, BreakLength, IsBreak, Unbroken;
      var m := n + BreakLength(s[n..]);
      p := Piece(s[..n], s[n..m]);
      assert s == s[..n] + s[n..m] + s[m..];
    }
  }

  lemma LineIsUnbroken(s: string)
    ensures Unbroken(s[..LineLength(s)])
    ensures LineLength(s) < |s| ==> EndsLine(s[LineLength(s)])
  {
    LineUpToBreak(s);
    hide LineLength;
    if LineLength(s) < |s| {
      BreaksEndLines(s[LineLength(s)]);
    }
    forall k | 0 <= k < LineLength(s) ensures !EndsLine(s[k]) {
      BreaksEndLines(s[k]);
    }
  }

  lemma OneMorePiece(s: string, p: Piece, after: string, rest: seq<Piece>)
    requires p.line + p.end + after == s && IsSplit(after, rest) && Unbroken(p.line)
    requires IsBreak(p.end) || (p.end == "" && p.line != "" && after == "")
    requires p.end == "\r" ==> !("\n" <= after)
    ensures IsSplit(s, [p] + rest)
  {
    hide Unbroken, IsBreak;
    var pieces := [p] + rest;
    assert s[|p.line| + |p.end|..] == after && s[..|p.line| + |p.end|] == p.line + p.end && pieces[1..] == rest;
    if after == "" {
      EmptySplit(rest);
    }
  }

  lemma EmptySplit(pieces: seq<Piece>)
    requires IsSplit("", pieces)
    ensures pieces == []
  {
  }

  lemma BreakIs(s: string, n: nat)
    requires n < |s| && EndsLine(s[n])
    ensures var m := n + BreakLength(s[n..]);
            IsBreak(s[n..m]) && (s[n..m] == "\r" ==> !("\n" <= s[m..]))
  {
    var t := s[n..];
    if n + 1 < |s| && s[n] == '\r' && s[n + 1] == '\n' {
      assert t[..2] == "\r\n" && s[n..n + 2] == t[..2];
    } else {
      NoReturnFeed(t);
      assert s[n..n + 1] == [s[n]];
    }
  }

  lemma NoReturnFeed(t: string)
    requires t != "" && !(|t| > 1 && t[0] == '\r' && t[1] == '\n')
    ensures BreakLength(t) == 1
  {
  }

  /** There is only one such split. */
  lemma {:induction false} SplitIsUnique(s: string, xs: seq<Piece>, ys: seq<Piece>)
    requires IsSplit(s, xs) && IsSplit(s, ys)
    ensures xs == ys
    decreases |xs|
  {
    if xs != [] && ys != [] {
      FirstPiece(s, xs);
      FirstPiece(s, ys);
      SplitIsUnique(s[|xs[0].line| + |xs[0].end|..], xs[1..], ys[1..]);
      assert xs == [xs[0]] + xs[1..] && ys == [ys[0]] + ys[1..];
    } else if xs != [] {
      FirstPiece(s, xs);
    } else if ys != [] {
      FirstPiece(s, ys);
    }
  }
}
