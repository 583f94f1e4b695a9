/** The three Python string operations that the PDF conversion applies to OCR text:
    `str.strip()` (only its emptiness is ever tested), `str.splitlines()` and
    `str.replace("\t", ",")`. Whitespace is the set of characters that Python 3's rule for
    `str.isspace` (Unicode general category Zs, or bidirectional class WS, B or S) selects;
    line boundaries are the ones `str.splitlines` documents. */
module PyStr {

  /** Python 3's `str.isspace()`, the characters `str.strip()` removes: tab to carriage
      return, the separators U+001C to U+001F, space, U+0085, U+00A0, U+1680, U+2000 to
      U+200A, U+2028, U+2029, U+202F, U+205F and U+3000. */
  predicate IsSpace(c: char) {
    var n := c as int;
    (0x09 <= n <= 0x0D) || (0x1C <= n <= 0x20) || n == 0x85 || n == 0xA0 || n == 0x1680
    || (0x2000 <= n <= 0x200A) || n == 0x2028 || n == 0x2029 || n == 0x202F || n == 0x205F
    || n == 0x3000
  }

  /** The line boundaries of `str.splitlines()`: line feed to carriage return, U+001C to
      U+001E, U+0085, U+2028 and U+2029; "\r\n" counts as one boundary (see BreakLength). */
  predicate IsLineBreak(c: char) {
    var n := c as int;
    (0x0A <= n <= 0x0D) || (0x1C <= n <= 0x1E) || n == 0x85 || n == 0x2028 || n == 0x2029
  }

  /** `s` holds no line boundary. */
  predicate NoBreak(s: string) {
    forall j :: 0 <= j < |s| ==> !IsLineBreak(s[j])
  }

  /** Every line boundary is whitespace. */
  lemma LineBreakIsSpace(c: char)
    requires IsLineBreak(c)
    ensures IsSpace(c)
  {
  }

  // ---------------------------------------------------------------- strip

  /** `s.lstrip()` */
  function StripStart(s: string): (r: string)
    ensures |r| <= |s| && r == s[|s| - |r|..]
    ensures r == [] || !IsSpace(r[0])
    ensures forall i :: 0 <= i < |s| - |r| ==> IsSpace(s[i])
    decreases |s|
  {
    if |s| > 0 && IsSpace(s[0]) then StripStart(s[1..]) else s
  }

  /** `s.rstrip()` */
  function StripEnd(s: string): (r: string)
    ensures |r| <= |s| && r == s[..|r|]
    ensures r == [] || !IsSpace(r[|r| - 1])
    ensures forall i :: |r| <= i < |s| ==> IsSpace(s[i])
    decreases |s|
  {
    if |s| > 0 && IsSpace(s[|s| - 1]) then StripEnd(s[..|s| - 1]) else s
  }

  /** `s` is all whitespace. */
  predicate IsBlank(s: string) {
    forall i :: 0 <= i < |s| ==> IsSpace(s[i])
  }

  /** `s.strip()`: empty exactly when `s` is blank, so Python's truth test `not s.strip()`
      is `IsBlank(s)`; otherwise it starts and ends with a non-whitespace character. */
  function Strip(s: string): (r: string)
    ensures r == [] <==> IsBlank(s)
    ensures r != [] ==> !IsSpace(r[0]) && !IsSpace(r[|r| - 1])
  {
    var t := StripStart(s);
    assert forall i :: |s| - |t| <= i < |s| ==> s[i] == t[i - (|s| - |t|)];
    StripEnd(t)
  }

  // ---------------------------------------------------------------- splitlines

  /** Index of the first line boundary in `s`, or `|s|` when there is none. */
  function FirstBreak(s: string): (e: nat)
    ensures e <= |s|
    ensures e < |s| ==> IsLineBreak(s[e])
  {
    if s == [] || IsLineBreak(s[0]) then 0 else 1 + FirstBreak(s[1..])
  }

  /** No character before the first boundary is one. */
  lemma {:induction false} FirstBreakNoBreak(s: string)
    ensures forall i :: 0 <= i < FirstBreak(s) ==> !IsLineBreak(s[i])
    decreases |s|
  {
    if s != [] && !IsLineBreak(s[0]) {
      FirstBreakNoBreak(s[1..]);
      assert forall i :: 1 <= i < FirstBreak(s) ==> s[i] == s[1..][i - 1];
    }
  }

  /** The first line holds no boundary. */
  lemma FirstLineNoBreak(s: string)
    ensures NoBreak(s[..FirstBreak(s)])
  {
    FirstBreakNoBreak(s);
    assert forall i :: 0 <= i < FirstBreak(s) ==> s[..FirstBreak(s)][i] == s[i];
  }

  /** Number of characters the boundary at `s[e]` takes: two for "\r\n", one otherwise. */
  function BreakLength(s: string, e: nat): (n: nat)
    requires e < |s| && IsLineBreak(s[e])
    ensures 1 <= n <= |s| - e
    ensures n == 2 ==> s[e] == '\r' && s[e + 1] == '\n'
  {
    if s[e] == '\r' && e + 1 < |s| && s[e + 1] == '\n' then 2 else 1
  }

  /** `s.splitlines()`: the lines of `s` without their boundaries; a final boundary does not
      start an extra empty line, and the empty string has no lines. */
  function SplitLines(s: string): (lines: seq<string>)
    ensures lines == [] <==> s == []
    decreases |s|
  {
    if s == [] then []
    else
      var e := FirstBreak(s);
      if e == |s| then [s]
      else [s[..e]] + SplitLines(s[e + BreakLength(s, e)..])
  }

  // ---------------------------------------------------------------- replace

  /** `s.replace("\t", ",")` */
  function ReplaceTabs(s: string): (r: string)
    ensures |r| == |s|
    ensures forall i :: 0 <= i < |s| ==> r[i] == (if s[i] == '\t' then ',' else s[i])
  {
    if s == [] then [] else [if s[0] == '\t' then ',' else s[0]] + ReplaceTabs(s[1..])
  }

  // ---------------------------------------------------------------- text content

  /** The lines joined with nothing between them. */
  function Concat(lines: seq<string>): string {
    if lines == [] then [] else lines[0] + Concat(lines[1..])
  }

  /** `s` without its line-boundary characters. */
  function RemoveBreaks(s: string): string {
    if s == [] then [] else (if IsLineBreak(s[0]) then [] else [s[0]]) + RemoveBreaks(s[1..])
  }

  /** The visible (non-whitespace) characters of `s`, in order. */
  function Visible(s: string): string {
    if s == [] then [] else (if IsSpace(s[0]) then [] else [s[0]]) + Visible(s[1..])
  }

  lemma {:induction false} ConcatAppend(a: seq<string>, b: seq<string>)
    ensures Concat(a + b) == Concat(a) + Concat(b)
    decreases |a|
  {
    if a == [] {
      assert a + b == b;
    } else {
      assert (a + b)[0] == a[0] && (a + b)[1..] == a[1..] + b;
      ConcatAppend(a[1..], b);
    }
  }

  lemma {:induction false} VisibleAppend(a: string, b: string)
    ensures Visible(a + b) == Visible(a) + Visible(b)
    decreases |a|
  {
    if a == [] {
      assert a + b == b;
    } else {
      assert (a + b)[0] == a[0] && (a + b)[1..] == a[1..] + b;
      VisibleAppend(a[1..], b);
    }
  }

  /** Removing line boundaries leaves a text without boundaries unchanged. */
  lemma {:induction false} RemoveBreaksNone(s: string)
    requires forall i :: 0 <= i < |s| ==> !IsLineBreak(s[i])
    ensures RemoveBreaks(s) == s
    decreases |s|
  {
    if s != [] {
      RemoveBreaksNone(s[1..]);
    }
  }

  /** The boundary at `s[e]` is made of line-boundary characters only. */
  lemma BoundaryChars(s: string, e: nat, n: nat)
    requires e < |s| && IsLineBreak(s[e]) && n == BreakLength(s, e)
    ensures forall i :: e <= i < e + n ==> IsLineBreak(s[i])
  {
    if n == 2 {
      assert s[e + 1] == '\n';
    }
  }

  /** One step of RemoveBreaks over an ordinary first character. */
  lemma RemoveBreaksKeepHead(s: string, e: nat, later: string)
    requires 0 < e <= |s| && !IsLineBreak(s[0])
    requires RemoveBreaks(s[1..]) == s[1..e] + later
    ensures RemoveBreaks(s) == s[..e] + later
  {
    calc {
      RemoveBreaks(s);
      [s[0]] + RemoveBreaks(s[1..]);
      [s[0]] + (s[1..e] + later);
      ([s[0]] + s[1..e]) + later;
      { assert s[..e] == [s[0]] + s[1..e]; }
      s[..e] + later;
    }
  }

  /** One step of RemoveBreaks over a boundary character. */
  lemma RemoveBreaksDropHead(s: string, later: string)
    requires 0 < |s| && IsLineBreak(s[0])
    requires RemoveBreaks(s[1..]) == later
    ensures RemoveBreaks(s) == later
  {
  }

  /** Removing the boundaries of a text that starts with `e` ordinary characters followed by
      `n` boundary characters keeps those `e` characters and then the boundaries removed
      from the rest. */
  lemma {:induction false} RemoveBreaksAround(s: string, e: nat, n: nat)
    requires e + n <= |s|
    requires forall i :: 0 <= i < e ==> !IsLineBreak(s[i])
    requires forall i :: e <= i < e + n ==> IsLineBreak(s[i])
    ensures RemoveBreaks(s) == s[..e] + RemoveBreaks(s[e + n..])
    decreases e + n
  {
    if e > 0 {
      var t := s[1..];
      RemoveBreaksAround(t, e - 1, n);
      assert t[..e - 1] == s[1..e] && t[e - 1 + n..] == s[e + n..];
      RemoveBreaksKeepHead(s, e, RemoveBreaks(s[e + n..]));
    } else if n > 0 {
      var t := s[1..];
      RemoveBreaksAround(t, 0, n - 1);
      assert t[n - 1..] == s[n..];
      RemoveBreaksDropHead(s, RemoveBreaks(s[n..]));
    } else {
      assert s[e + n..] == s;
    }
  }

  /** Nothing but line boundaries is lost by `splitlines()`: the lines, joined, are `s`
      with its boundaries removed. */
  lemma {:induction false} SplitLinesConcat(s: string)
    ensures Concat(SplitLines(s)) == RemoveBreaks(s)
    decreases |s|
  {
    if s != [] {
      var e := FirstBreak(s);
      if e == |s| {
        FirstBreakNoBreak(s);
        RemoveBreaksNone(s);
        assert SplitLines(s) == [s];
        assert Concat([s]) == s + Concat([]);
      } else {
        var n := BreakLength(s, e);
        var rest := s[e + n..];
        SplitLinesStep(s, e, n);
        FirstBreakNoBreak(s);
        BoundaryChars(s, e, n);
        RemoveBreaksAround(s, e, n);
        SplitLinesConcat(rest);
        assert ([s[..e]] + SplitLines(rest))[1..] == SplitLines(rest);
      }
    }
  }

  // ---------------------------------------------------------------- splitlines, boundaries kept

  /** A line boundary as `splitlines()` reads it: "\r\n", or one boundary character. */
  predicate IsBoundary(b: string) {
    b == "\r\n" || (|b| == 1 && IsLineBreak(b[0]))
  }

  /** The lines with their boundaries put back: line 0, boundary 0, line 1, boundary 1, ...
      There is one boundary per line, or one fewer when the text does not end in one. */
  function Rejoin(lines: seq<string>, bounds: seq<string>): string
    requires |bounds| <= |lines| <= |bounds| + 1
    decreases |lines|
  {
    if bounds == [] then (if lines == [] then [] else lines[0])
    else lines[0] + bounds[0] + Rejoin(lines[1..], bounds[1..])
  }

  /** `lines` and `bounds` are a split of a text the way `splitlines()` makes it: no line
      holds a boundary, every boundary is one, a text that does not end in a boundary ends
      in a non-empty line, and a lone "\r" is never followed directly by "\n" (the pair is
      one boundary). */
  predicate LineSplit(lines: seq<string>, bounds: seq<string>) {
    && |bounds| <= |lines| <= |bounds| + 1
    && (forall k :: 0 <= k < |lines| ==> NoBreak(lines[k]))
    && (forall i :: 0 <= i < |bounds| ==> IsBoundary(bounds[i]))
    && (|lines| == |bounds| + 1 ==> lines[|bounds|] != [])
    && (forall i :: 0 <= i < |bounds| - 1 ==>
          !(lines[i + 1] == [] && bounds[i] == "\r" && bounds[i + 1] == "\n"))
  }

  /** The first boundary of `s` is at `e` when `s[e]` is one and nothing before it is. */
  lemma FirstBreakAt(s: string, e: nat)
    requires e < |s| && IsLineBreak(s[e])
    requires forall i :: 0 <= i < e ==> !IsLineBreak(s[i])
    ensures FirstBreak(s) == e
  {
    FirstBreakNoBreak(s);
  }

  /** The first character of a rejoined text: that of the first line, or of the first
      boundary when the first line is empty. */
  lemma RejoinFirst(lines: seq<string>, bounds: seq<string>)
    requires |bounds| <= |lines| <= |bounds| + 1 && lines != []
    requires lines[0] != [] || (bounds != [] && bounds[0] != [])
    ensures Rejoin(lines, bounds) != []
    ensures lines[0] != [] ==> Rejoin(lines, bounds)[0] == lines[0][0]
    ensures lines[0] == [] ==> Rejoin(lines, bounds)[0] == bounds[0][0]
  {
    if bounds != [] {
      var r := Rejoin(lines, bounds);
      assert r == lines[0] + bounds[0] + Rejoin(lines[1..], bounds[1..]);
    }
  }

  /** Dropping the first line and boundary of a split leaves a split. */
  lemma LineSplitTail(lines: seq<string>, bounds: seq<string>)
    requires LineSplit(lines, bounds) && bounds != []
    ensures LineSplit(lines[1..], bounds[1..])
  {
    var ls, bs := lines[1..], bounds[1..];
    forall i | 0 <= i < |bs| - 1
      ensures !(ls[i + 1] == [] && bs[i] == "\r" && bs[i + 1] == "\n")
    {
      assert ls[i + 1] == lines[i + 2] && bs[i] == bounds[i + 1] && bs[i + 1] == bounds[i + 2];
    }
  }

  /** The character after a lone "\r" boundary at the head of a split, if any, is not
      "\n". */
  lemma NoNewlineAfterLoneReturn(lines: seq<string>, bounds: seq<string>)
    requires LineSplit(lines, bounds) && bounds != [] && bounds[0] == "\r"
    ensures var tail := Rejoin(lines[1..], bounds[1..]);
      tail == [] || tail[0] != '\n'
  {
    var ls, bs := lines[1..], bounds[1..];
    if ls == [] {
    } else if ls[0] == [] {
      assert bs != [];
      assert IsBoundary(bs[0]);
      assert bs[0] != "\n";
      assert bs[0][0] != '\n' by {
        if |bs[0]| == 1 {
          assert bs[0] == [bs[0][0]];
        }
      }
      RejoinFirst(ls, bs);
    } else {
      assert NoBreak(ls[0]);
      RejoinFirst(ls, bs);
    }
  }

  /** One step of the uniqueness proof: a split's first line and boundary are where
      `splitlines()` finds them. */
  lemma SplitLinesFirstOfRejoin(lines: seq<string>, bounds: seq<string>)
    requires LineSplit(lines, bounds) && bounds != []
    ensures var s := Rejoin(lines, bounds);
      var e := |lines[0]|;
      && e == FirstBreak(s) < |s|
      && |bounds[0]| == BreakLength(s, e)
      && s[..e] == lines[0]
      && s[e + |bounds[0]|..] == Rejoin(lines[1..], bounds[1..])
  {
    var s := Rejoin(lines, bounds);
    var l, b := lines[0], bounds[0];
    var tail := Rejoin(lines[1..], bounds[1..]);
    assert s == l + b + tail;
    var e := |l|;
    assert IsBoundary(b);
    assert b != [] && s[e] == b[0] && IsLineBreak(b[0]);
    assert NoBreak(l);
    assert forall i :: 0 <= i < e ==> s[i] == l[i];
    FirstBreakAt(s, e);
    if b == "\r\n" {
      assert s[e] == '\r' && s[e + 1] == '\n';
    } else if b == "\r" {
      NoNewlineAfterLoneReturn(lines, bounds);
      assert s[e + 1..] == tail;
    }
    assert s[..e] == l;
    assert s[e + |b|..] == tail;
  }

  /** Rejoining a first line and boundary before a split. */
  lemma RejoinCons(l: string, b: string, lines: seq<string>, bounds: seq<string>)
    requires |bounds| <= |lines| <= |bounds| + 1
    ensures Rejoin([l] + lines, [b] + bounds) == l + b + Rejoin(lines, bounds)
  {
    assert ([l] + lines)[1..] == lines && ([b] + bounds)[1..] == bounds;
  }

  /** A line and a boundary put before a split give a split, unless they would leave a lone
      "\r" right before "\n". */
  lemma LineSplitCons(l: string, b: string, lines: seq<string>, bounds: seq<string>)
    requires LineSplit(lines, bounds) && NoBreak(l) && IsBoundary(b)
    requires !(b == "\r" && bounds != [] && lines[0] == [] && bounds[0] == "\n")
    ensures LineSplit([l] + lines, [b] + bounds)
  {
    var ls, bs := [l] + lines, [b] + bounds;
    assert forall k :: 1 <= k < |ls| ==> ls[k] == lines[k - 1];
    assert forall i :: 1 <= i < |bs| ==> bs[i] == bounds[i - 1];
  }

  /** The boundary `splitlines()` finds at `s[e]` is a boundary in the sense of IsBoundary. */
  lemma BoundaryOf(s: string, e: nat)
    requires e < |s| && IsLineBreak(s[e])
    ensures IsBoundary(s[e..e + BreakLength(s, e)])
  {
    var b := s[e..e + BreakLength(s, e)];
    if |b| == 2 {
      assert b == [s[e], s[e + 1]];
    } else {
      assert b[0] == s[e];
    }
  }

  /** A text is its part before `e`, the `n` characters from `e`, and the rest. */
  lemma SliceAround(s: string, e: nat, n: nat)
    requires e + n <= |s|
    ensures s == s[..e] + s[e..e + n] + s[e + n..]
  {
  }

  /** The boundary `splitlines()` takes at `s[e]` is a lone "\r" only when no "\n"
      follows it. */
  lemma LoneReturnAtEnd(s: string, e: nat, n: nat, sub: seq<string>)
    requires e < |s| && IsLineBreak(s[e]) && n == BreakLength(s, e)
    requires |sub| <= |SplitLines(s[e + n..])| <= |sub| + 1
    requires Rejoin(SplitLines(s[e + n..]), sub) == s[e + n..]
    ensures var later := SplitLines(s[e + n..]);
      !(n == 1 && s[e] == '\r' && sub != [] && later[0] == [] && sub[0] == "\n")
  {
    var later := SplitLines(s[e + n..]);
    if n == 1 && s[e] == '\r' && sub != [] && later[0] == [] && sub[0] == "\n" {
      RejoinFirst(later, sub);
      assert false;
    }
  }

  /** One step of the round trip: the first line and boundary of `s` before the split of
      the rest. */
  lemma RoundTripStep(s: string, e: nat, n: nat, sub: seq<string>)
    requires e == FirstBreak(s) < |s| && n == BreakLength(s, e)
    requires LineSplit(SplitLines(s[e + n..]), sub)
    requires Rejoin(SplitLines(s[e + n..]), sub) == s[e + n..]
    ensures LineSplit(SplitLines(s), [s[e..e + n]] + sub)
    ensures Rejoin(SplitLines(s), [s[e..e + n]] + sub) == s
  {
    var rest := s[e + n..];
    var later := SplitLines(rest);
    var b := s[e..e + n];
    SplitLinesStep(s, e, n);
    BoundaryOf(s, e);
    LoneReturnAtEnd(s, e, n, sub);
    assert b == "\r" ==> n == 1 && s[e] == '\r';
    FirstLineNoBreak(s);
    LineSplitCons(s[..e], b, later, sub);
    RejoinCons(s[..e], b, later, sub);
    SliceAround(s, e, n);
  }

  /** Putting the boundaries back after the lines of `splitlines()` gives the text again,
      and the lines with those boundaries are a split in the sense of LineSplit. */
  lemma {:induction false} SplitLinesRoundTrip(s: string) returns (bounds: seq<string>)
    ensures LineSplit(SplitLines(s), bounds)
    ensures Rejoin(SplitLines(s), bounds) == s
    decreases |s|
  {
    if s == [] {
      bounds := [];
    } else {
      var e := FirstBreak(s);
      if e == |s| {
        bounds := [];
        FirstLineNoBreak(s);
        assert s[..e] == s;
        assert SplitLines(s) == [s];
      } else {
        var n := BreakLength(s, e);
        var sub := SplitLinesRoundTrip(s[e + n..]);
        RoundTripStep(s, e, n, sub);
        bounds := [s[e..e + n]] + sub;
      }
    }
  }

  /** No line of `splitlines()` holds a boundary. */
  lemma SplitLinesNoBreak(s: string)
    ensures forall k :: 0 <= k < |SplitLines(s)| ==> NoBreak(SplitLines(s)[k])
  {
    var bounds := SplitLinesRoundTrip(s);
  }

  /** A non-empty text without a boundary is a single line. */
  lemma SplitLinesOfLine(l: string)
    requires l != [] && NoBreak(l)
    ensures SplitLines(l) == [l]
  {
    assert FirstBreak(l) == |l|;
  }

  /** One step of the uniqueness proof: when the later lines of a split are the
      `splitlines()` of the rest, all its lines are those of the whole text. */
  lemma UniqueStep(lines: seq<string>, bounds: seq<string>)
    requires LineSplit(lines, bounds) && bounds != []
    requires SplitLines(Rejoin(lines[1..], bounds[1..])) == lines[1..]
    ensures SplitLines(Rejoin(lines, bounds)) == lines
  {
    var s := Rejoin(lines, bounds);
    var e, n := |lines[0]|, |bounds[0]|;
    var tail := Rejoin(lines[1..], bounds[1..]);
    SplitLinesFirstOfRejoin(lines, bounds);
    calc {
      SplitLines(s);
      { SplitLinesStep(s, e, n); }
      [s[..e]] + SplitLines(s[e + n..]);
      [lines[0]] + SplitLines(tail);
      [lines[0]] + lines[1..];
      { assert lines != []; }
      lines;
    }
  }

  /** `splitlines()` is the only split of a text: any lines and boundaries in the sense of
      LineSplit that rejoin to a text are its `splitlines()`. */
  lemma {:induction false} SplitLinesUnique(lines: seq<string>, bounds: seq<string>)
    requires LineSplit(lines, bounds)
    ensures SplitLines(Rejoin(lines, bounds)) == lines
    decreases |lines|
  {
    if bounds == [] {
      if lines != [] {
        assert Rejoin(lines, bounds) == lines[0];
        SplitLinesOfLine(lines[0]);
      }
    } else {
      LineSplitTail(lines, bounds);
      SplitLinesUnique(lines[1..], bounds[1..]);
      UniqueStep(lines, bounds);
    }
  }

  /** Line boundaries are whitespace, so removing them keeps every visible character. */
  lemma {:induction false} VisibleRemoveBreaks(s: string)
    ensures Visible(RemoveBreaks(s)) == Visible(s)
    decreases |s|
  {
    if s != [] {
      VisibleRemoveBreaks(s[1..]);
      VisibleAppend(if IsLineBreak(s[0]) then [] else [s[0]], RemoveBreaks(s[1..]));
      if IsLineBreak(s[0]) {
        LineBreakIsSpace(s[0]);
      }
    }
  }

  /** A blank text has no visible characters. */
  lemma {:induction false} VisibleOfBlank(s: string)
    requires IsBlank(s)
    ensures Visible(s) == []
    decreases |s|
  {
    if s != [] {
      assert IsSpace(s[0]);
      assert IsBlank(s[1..]) by {
        assert forall i :: 0 <= i < |s[1..]| ==> s[1..][i] == s[i + 1];
      }
      VisibleOfBlank(s[1..]);
    }
  }

  /** A text with a visible character is not blank. */
  lemma NotBlankAt(s: string, w: nat)
    requires w < |s| && !IsSpace(s[w])
    ensures !IsBlank(s)
  {
  }

  /** One step of `splitlines()`: the first line, then the lines after its boundary. */
  lemma SplitLinesStep(s: string, e: nat, n: nat)
    requires s != [] && e == FirstBreak(s) < |s| && n == BreakLength(s, e)
    ensures SplitLines(s) == [s[..e]] + SplitLines(s[e + n..])
  {
  }

  /** A visible character is never part of a line boundary. */
  lemma VisibleNotInBreak(s: string, e: nat, n: nat, w: nat)
    requires e < |s| && IsLineBreak(s[e]) && n == BreakLength(s, e)
    requires w < |s| && !IsSpace(s[w])
    ensures w < e || e + n <= w
  {
    if w == e {
      LineBreakIsSpace(s[w]);
    }
  }

  /** A visible character before the first boundary lies on the first line. */
  lemma VisibleOnFirstLine(s: string, w: nat)
    requires w < |s| && !IsSpace(s[w]) && w < FirstBreak(s)
    ensures |SplitLines(s)| > 0 && !IsBlank(SplitLines(s)[0])
  {
    var e := FirstBreak(s);
    if e < |s| {
      SplitLinesStep(s, e, BreakLength(s, e));
    }
    assert SplitLines(s)[0] == s[..e];
    assert s[..e][w] == s[w];
    NotBlankAt(s[..e], w);
  }

  /** The lines after the first boundary are the later lines of `s`. */
  lemma LineAfterFirst(s: string, e: nat, n: nat, j: nat)
    requires e == FirstBreak(s) < |s| && n == BreakLength(s, e)
    requires j < |SplitLines(s[e + n..])|
    ensures j + 1 < |SplitLines(s)| && SplitLines(s)[j + 1] == SplitLines(s[e + n..])[j]
  {
    SplitLinesStep(s, e, n);
    IndexAfterHead(s[..e], SplitLines(s[e + n..]), SplitLines(s), j);
  }

  /** The element after the head of `[x] + xs` at `j + 1` is `xs[j]`. */
  lemma IndexAfterHead(x: string, xs: seq<string>, all: seq<string>, j: nat)
    requires all == [x] + xs && j < |xs|
    ensures j + 1 < |all| && all[j + 1] == xs[j]
  {
  }

  /** A visible character at or after the first boundary is a visible character of the
      text after that boundary. */
  lemma VisibleInRest(s: string, e: nat, n: nat, w: nat)
    requires e == FirstBreak(s) <= w < |s| && !IsSpace(s[w])
    requires n == BreakLength(s, e)
    ensures e + n <= w && s[e + n..][w - (e + n)] == s[w]
  {
    VisibleNotInBreak(s, e, n, w);
  }

  /** A visible character of a text lies on a non-blank line of it; `k` is that line. */
  lemma {:induction false} VisibleCharOnLine(s: string, w: nat) returns (k: nat)
    requires w < |s| && !IsSpace(s[w])
    ensures k < |SplitLines(s)| && !IsBlank(SplitLines(s)[k])
    decreases |s|
  {
    var e := FirstBreak(s);
    if w < e {
      VisibleOnFirstLine(s, w);
      k := 0;
    } else {
      var n := BreakLength(s, e);
      VisibleInRest(s, e, n, w);
      var j := VisibleCharOnLine(s[e + n..], w - (e + n));
      LineAfterFirst(s, e, n, j);
      k := j + 1;
    }
  }

  /** A text with some non-whitespace character has a non-blank line. */
  lemma NonBlankHasNonBlankLine(s: string) returns (k: nat)
    requires !IsBlank(s)
    ensures k < |SplitLines(s)| && !IsBlank(SplitLines(s)[k])
  {
    var w :| 0 <= w < |s| && !IsSpace(s[w]);
    k := VisibleCharOnLine(s, w);
  }
}
