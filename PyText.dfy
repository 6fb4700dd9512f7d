// Python's string primitives that the scripts lean on: the whitespace table
// behind str.isspace(), str.strip() and re's \s, and str.splitlines().

module PyText {

  /** str.isspace() for one code point: the 29 code points Python treats as
      whitespace (bidirectional class WS, B or S, or category Zs). The same
      table decides `\s` in a str regular expression and what str.strip()
      with no argument removes. Every line boundary is whitespace; no ASCII
      letter, digit, "_" or "-" is. */
  predicate IsSpace(c: char): (b: bool)
    ensures IsLineBoundary(c) ==> b
    ensures ('a' <= c <= 'z' || 'A' <= c <= 'Z' || '0' <= c <= '9' || c == '_' || c == '-') ==> !b
  {
    if c < '\U{80}' then
      c == ' ' || ('\t' <= c <= '\r') || ('\U{1C}' <= c <= '\U{1F}')
    else
      || c == '\U{85}' || c == '\U{A0}' || c == '\U{1680}'
      || ('\U{2000}' <= c <= '\U{200A}')
      || c == '\U{2028}' || c == '\U{2029}' || c == '\U{202F}' || c == '\U{205F}'
      || c == '\U{3000}'
  }

  /** The code points str.splitlines() breaks at; "\r\n" counts as one break. */
  predicate IsLineBoundary(c: char) {
    || c == '\n' || c == '\r' || c == '\U{0B}' || c == '\U{0C}'
    || ('\U{1C}' <= c <= '\U{1E}')
    || c == '\U{85}' || c == '\U{2028}' || c == '\U{2029}'
  }

  /** The first index at or after `i` that does not hold whitespace (|s| if
      there is none): the end of the whitespace run starting at `i`. */
  function SkipSpace(s: string, i: nat): (j: nat)
    requires i <= |s|
    ensures i <= j <= |s|
    ensures forall k :: i <= k < j ==> IsSpace(s[k])
    ensures j < |s| ==> !IsSpace(s[j])
    decreases |s| - i
  {
    if i < |s| && IsSpace(s[i]) then SkipSpace(s, i + 1) else i
  }

  /** Moving left from `j`, but not past `lo`, the start of the whitespace
      run that ends at `j`. */
  function SkipSpaceBack(s: string, lo: nat, j: nat): (e: nat)
    requires lo <= j <= |s|
    ensures lo <= e <= j
    ensures forall k :: e <= k < j ==> IsSpace(s[k])
    ensures lo < e ==> !IsSpace(s[e - 1])
    decreases j
  {
    if lo < j && IsSpace(s[j - 1]) then SkipSpaceBack(s, lo, j - 1) else j
  }

  /** Where the slice kept by str.strip() starts. */
  function StripStart(s: string): nat {
    SkipSpace(s, 0)
  }

  /** Where the slice kept by str.strip() ends. */
  function StripEnd(s: string): nat {
    SkipSpaceBack(s, StripStart(s), |s|)
  }

  /** str.strip() with no argument: the input without its leading and
      trailing whitespace. What is cut is whitespace, and what is kept
      neither starts nor ends with whitespace. */
  function Strip(s: string): (r: string)
    ensures StripStart(s) <= StripEnd(s) <= |s| && r == s[StripStart(s)..StripEnd(s)]
    ensures forall k :: 0 <= k < StripStart(s) ==> IsSpace(s[k])
    ensures forall k :: StripEnd(s) <= k < |s| ==> IsSpace(s[k])
    ensures r != [] ==> !IsSpace(r[0]) && !IsSpace(r[|r| - 1])
  {
    s[StripStart(s)..StripEnd(s)]
  }

  /** Strip changes nothing in a string that holds no whitespace at all. */
  lemma StripWithoutSpace(s: string)
    requires forall k :: 0 <= k < |s| ==> !IsSpace(s[k])
    ensures Strip(s) == s
  {
    assert StripStart(s) == 0;
    assert StripEnd(s) == |s|;
  }

  /** Strip yields the empty string exactly when the input is all whitespace. */
  lemma StripEmptyIff(s: string)
    ensures Strip(s) == [] <==> forall k :: 0 <= k < |s| ==> IsSpace(s[k])
  {
    if Strip(s) != [] {
      assert !IsSpace(s[StripStart(s)]);
    }
  }

  /** Index of the first line boundary in `s`, or |s| if there is none. */
  function FirstBoundary(s: string): (b: nat)
    ensures b <= |s|
    ensures forall k :: 0 <= k < b ==> !IsLineBoundary(s[k])
    ensures b < |s| ==> IsLineBoundary(s[b])
  {
    if s == [] || IsLineBoundary(s[0]) then 0 else 1 + FirstBoundary(s[1..])
  }

  /** Width of the line break that starts at `b`: 2 for "\r\n", else 1. */
  function BreakWidth(s: string, b: nat): (n: nat)
    requires b < |s|
    ensures 1 <= n <= |s| - b
  {
    if s[b] == '\r' && b + 1 < |s| && s[b + 1] == '\n' then 2 else 1
  }

  /** str.splitlines(): the lines of `s` without their line breaks; a final
      line break does not open another (empty) line. */
  function SplitLines(s: string): (lines: seq<string>)
    ensures forall i, k :: 0 <= i < |lines| && 0 <= k < |lines[i]| ==> !IsLineBoundary(lines[i][k])
    ensures s == [] <==> lines == []
    decreases |s|
  {
    if s == [] then []
    else
      var b := FirstBoundary(s);
      if b == |s| then [s]
      else [s[..b]] + SplitLines(s[b + BreakWidth(s, b)..])
  }

  /** Lines each followed by "\n": the text that print-style writers produce. */
  function Terminated(lines: seq<string>): string {
    if lines == [] then [] else lines[0] + "\n" + Terminated(lines[1..])
  }

  /** splitlines undoes the joining of break-free lines, one "\n" after each. */
  lemma {:induction false} SplitLinesOfTerminated(lines: seq<string>)
    requires forall i, k :: 0 <= i < |lines| && 0 <= k < |lines[i]| ==> !IsLineBoundary(lines[i][k])
    ensures SplitLines(Terminated(lines)) == lines
  {
    if lines != [] {
      var rest := lines[1..];
      forall i, k | 0 <= i < |rest| && 0 <= k < |rest[i]|
        ensures !IsLineBoundary(rest[i][k])
      {
        assert rest[i] == lines[i + 1];
      }
      SplitLinesStepSep(lines[0], "\n", Terminated(rest));
      SplitLinesOfTerminated(rest);
    }
  }

  /** One line break as splitlines() reads it: "\r\n", or a single line
      boundary. */
  predicate IsBreak(sep: string) {
    (|sep| == 2 && sep[0] == '\r' && sep[1] == '\n') || (|sep| == 1 && IsLineBoundary(sep[0]))
  }

  /** The break is a lone "\r", which a following "\n" would extend. */
  predicate IsLoneCr(sep: string) {
    |sep| == 1 && sep[0] == '\r'
  }

  /** The break is a lone "\n". */
  predicate IsLoneLf(sep: string) {
    |sep| == 1 && sep[0] == '\n'
  }

  /** Lines with the break `seps[i]` between `lines[i]` and `lines[i + 1]`,
      the last line unterminated. */
  function Joined(lines: seq<string>, seps: seq<string>): string
    requires lines != [] && |seps| == |lines| - 1
  {
    if |lines| == 1 then lines[0] else lines[0] + seps[0] + Joined(lines[1..], seps[1..])
  }

  /** Break-free lines, the last one not empty, with a line break between
      each two, where no lone "\r" is directly followed by a "\n" break
      (the two would read as one "\r\n"). */
  predicate Rejoinable(lines: seq<string>, seps: seq<string>) {
    && lines != [] && |seps| == |lines| - 1 && lines[|lines| - 1] != []
    && (forall i, k :: 0 <= i < |lines| && 0 <= k < |lines[i]| ==> !IsLineBoundary(lines[i][k]))
    && (forall i :: 0 <= i < |seps| ==> IsBreak(seps[i]))
    && (forall i :: 0 <= i < |seps| - 1 && IsLoneCr(seps[i]) && lines[i + 1] == [] ==> !IsLoneLf(seps[i + 1]))
  }

  /** splitlines undoes the joining of such lines: each break, "\r\n"
      included, ends exactly one line. */
  lemma {:induction false} SplitLinesOfJoined(lines: seq<string>, seps: seq<string>)
    requires Rejoinable(lines, seps)
    ensures SplitLines(Joined(lines, seps)) == lines
  {
    if |lines| == 1 {
      assert FirstBoundary(lines[0]) == |lines[0]|;
      assert SplitLines(lines[0]) == [lines[0]];
    } else {
      RejoinableTail(lines, seps);
      SplitLinesOfJoined(lines[1..], seps[1..]);
      SplitLinesOfJoinedStep(lines, seps);
    }
  }

  /** The step of SplitLinesOfJoined: the first line and break come off. */
  lemma SplitLinesOfJoinedStep(lines: seq<string>, seps: seq<string>)
    requires Rejoinable(lines, seps) && |lines| > 1
    requires SplitLines(Joined(lines[1..], seps[1..])) == lines[1..]
    ensures SplitLines(Joined(lines, seps)) == lines
  {
    var rest, restSeps := lines[1..], seps[1..];
    RejoinableTail(lines, seps);
    if IsLoneCr(seps[0]) {
      JoinedStart(rest, restSeps);
    }
    var tail := Joined(rest, restSeps);
    assert Joined(lines, seps) == lines[0] + seps[0] + tail;
    SplitLinesStepSep(lines[0], seps[0], tail);
    assert lines == [lines[0]] + rest;
  }

  /** Dropping the first line and break keeps the shape. */
  lemma RejoinableTail(lines: seq<string>, seps: seq<string>)
    requires Rejoinable(lines, seps) && |lines| > 1
    ensures Rejoinable(lines[1..], seps[1..])
    ensures forall k :: 0 <= k < |lines[0]| ==> !IsLineBoundary(lines[0][k])
    ensures IsBreak(seps[0])
    ensures IsLoneCr(seps[0]) && lines[1] == [] && |seps| > 1 ==> !IsLoneLf(seps[1])
  {
    var rest, restSeps := lines[1..], seps[1..];
    forall i, k | 0 <= i < |rest| && 0 <= k < |rest[i]|
      ensures !IsLineBoundary(rest[i][k])
    {
      assert rest[i] == lines[i + 1];
    }
    forall i | 0 <= i < |restSeps|
      ensures IsBreak(restSeps[i])
    {
      assert restSeps[i] == seps[i + 1];
    }
    forall i | 0 <= i < |restSeps| - 1 && IsLoneCr(restSeps[i]) && rest[i + 1] == []
      ensures !IsLoneLf(restSeps[i + 1])
    {
      assert restSeps[i] == seps[i + 1] && rest[i + 1] == lines[i + 2];
    }
    assert rest[|rest| - 1] == lines[|lines| - 1];
  }

  /** The line breaks splitlines() drops, in order. */
  function LineBreaks(s: string): (seps: seq<string>)
    ensures forall i :: 0 <= i < |seps| ==> IsBreak(seps[i])
    decreases |s|
  {
    if s == [] then []
    else
      var b := FirstBoundary(s);
      if b == |s| then []
      else
        var w := BreakWidth(s, b);
        [s[b..b + w]] + LineBreaks(s[b + w..])
  }

  /** Every text that does not end in a line break is its lines joined by
      the breaks splitlines() dropped: nothing else is lost. */
  lemma {:induction false} JoinedOfSplitLines(s: string)
    requires s != [] && !IsLineBoundary(s[|s| - 1])
    ensures Rejoinable(SplitLines(s), LineBreaks(s))
    ensures Joined(SplitLines(s), LineBreaks(s)) == s
    decreases |s|
  {
    var b := FirstBoundary(s);
    if b < |s| {
      var w := BreakWidth(s, b);
      BreakNotLast(s, b);
      var rest := s[b + w..];
      JoinedOfSplitLines(rest);
      SplitLinesUnfold(s, b, w);
      LineBreaksUnfold(s, b, w);
      JoinedCons(s[..b], s[b..b + w], SplitLines(rest), LineBreaks(rest));
      SlicesJoin(s, b, b + w);
      if IsLoneCr(s[b..b + w]) && SplitLines(rest)[0] == [] {
        LineBreaksHead(rest);
        assert rest[0] == s[b + 1];
      }
      RejoinableCons(s[..b], s[b..b + w], SplitLines(rest), LineBreaks(rest));
    } else {
      assert SplitLines(s) == [s];
    }
  }

  /** A text whose first line is empty starts with its first break. */
  lemma LineBreaksHead(s: string)
    requires s != [] && SplitLines(s)[0] == []
    ensures LineBreaks(s) != [] && LineBreaks(s)[0][0] == s[0]
  {
    var b := FirstBoundary(s);
    assert b == 0;
    LineBreaksUnfold(s, b, BreakWidth(s, b));
  }

  /** One more break-free line and break in front keep the shape, unless a
      lone "\r" would meet a "\n" break. */
  lemma RejoinableCons(line: string, sep: string, lines: seq<string>, seps: seq<string>)
    requires Rejoinable(lines, seps)
    requires forall k :: 0 <= k < |line| ==> !IsLineBoundary(line[k])
    requires IsBreak(sep)
    requires IsLoneCr(sep) && lines[0] == [] && seps != [] ==> !IsLoneLf(seps[0])
    ensures Rejoinable([line] + lines, [sep] + seps)
  {
    var ls, ss := [line] + lines, [sep] + seps;
    forall i, k | 0 <= i < |ls| && 0 <= k < |ls[i]|
      ensures !IsLineBoundary(ls[i][k])
    {
      if i > 0 {
        assert ls[i] == lines[i - 1];
      }
    }
    forall i | 0 <= i < |ss|
      ensures IsBreak(ss[i])
    {
      if i > 0 {
        assert ss[i] == seps[i - 1];
      }
    }
    forall i | 0 <= i < |ss| - 1 && IsLoneCr(ss[i]) && ls[i + 1] == []
      ensures !IsLoneLf(ss[i + 1])
    {
      assert ss[i + 1] == seps[i] && ls[i + 1] == lines[i];
      if i > 0 {
        assert ss[i] == seps[i - 1];
      }
    }
    assert ls[|ls| - 1] == lines[|lines| - 1];
  }

  /** splitlines takes off the line before the first break. */
  lemma SplitLinesUnfold(s: string, b: nat, w: nat)
    requires b == FirstBoundary(s) < |s| && w == BreakWidth(s, b)
    ensures SplitLines(s) == [s[..b]] + SplitLines(s[b + w..])
  {
  }

  /** LineBreaks takes off the first break. */
  lemma LineBreaksUnfold(s: string, b: nat, w: nat)
    requires b == FirstBoundary(s) < |s| && w == BreakWidth(s, b)
    ensures LineBreaks(s) == [s[b..b + w]] + LineBreaks(s[b + w..])
  {
  }

  /** In a text that does not end in a line break, text follows every
      break, ending as the text does. */
  lemma BreakNotLast(s: string, b: nat)
    requires b < |s| && IsLineBoundary(s[b]) && !IsLineBoundary(s[|s| - 1])
    ensures b + BreakWidth(s, b) < |s|
    ensures s[b + BreakWidth(s, b)..][|s| - b - BreakWidth(s, b) - 1] == s[|s| - 1]
  {
  }

  /** Three consecutive slices make up the text. */
  lemma SlicesJoin(s: string, i: nat, j: nat)
    requires i <= j <= |s|
    ensures s[..i] + s[i..j] + s[j..] == s
  {
    assert s[..i] + s[i..j] == s[..j];
  }

  /** Joined with one more line and break in front. */
  lemma JoinedCons(line: string, sep: string, lines: seq<string>, seps: seq<string>)
    requires lines != [] && |seps| == |lines| - 1
    ensures Joined([line] + lines, [sep] + seps) == line + sep + Joined(lines, seps)
  {
    assert ([line] + lines)[1..] == lines && ([sep] + seps)[1..] == seps;
  }

  /** "a\r\nb\rc" has three lines: "\r\n" is one break, a lone "\r" another. */
  lemma SplitLinesCrLfExample(s: string)
    requires s == "a\r\nb\rc"
    ensures SplitLines(s) == ["a", "b", "c"]
  {
    var lines, seps := ["a", "b", "c"], ["\r\n", "\r"];
    assert Joined(lines, seps) == s;
    SplitLinesOfJoined(lines, seps);
  }

  /** A join whose first line is break-free, and which, if that line is
      empty, does not go on with a "\n" break, does not start with "\n". */
  lemma JoinedStart(lines: seq<string>, seps: seq<string>)
    requires lines != [] && |seps| == |lines| - 1
    requires forall k :: 0 <= k < |lines[0]| ==> !IsLineBoundary(lines[0][k])
    requires seps != [] ==> IsBreak(seps[0])
    requires lines[0] == [] && seps != [] ==> !IsLoneLf(seps[0])
    ensures Joined(lines, seps) == [] || Joined(lines, seps)[0] != '\n'
  {
    if lines[0] != [] {
      assert Joined(lines, seps)[0] == lines[0][0];
    } else if seps != [] {
      assert Joined(lines, seps)[0] == seps[0][0];
    }
  }

  /** A break-free line followed by one line break is split off as the first
      line: "\r\n" counts as one break, and so does a lone "\r" that the
      rest does not continue with "\n". */
  lemma SplitLinesStepSep(line: string, sep: string, rest: string)
    requires forall k :: 0 <= k < |line| ==> !IsLineBoundary(line[k])
    requires IsBreak(sep) && (IsLoneCr(sep) ==> rest == [] || rest[0] != '\n')
    ensures SplitLines(line + sep + rest) == [line] + SplitLines(rest)
  {
    var s := line + sep + rest;
    var b := |line|;
    assert s[b] == sep[0];
    assert forall k :: 0 <= k < b ==> s[k] == line[k];
    FirstBoundaryAt(s, b);
    if IsLoneCr(sep) {
      assert b + 1 < |s| ==> s[b + 1] == rest[0];
    }
    assert BreakWidth(s, b) == |sep|;
    assert s[..b] == line;
    assert s[b + |sep|..] == rest;
  }

  /** A boundary at `b` with none before it is the first boundary. */
  lemma {:induction false} FirstBoundaryAt(s: string, b: nat)
    requires b < |s| && IsLineBoundary(s[b])
    requires forall k :: 0 <= k < b ==> !IsLineBoundary(s[k])
    ensures FirstBoundary(s) == b
  {
    if b > 0 {
      assert !IsLineBoundary(s[0]);
      FirstBoundaryAt(s[1..], b - 1);
    }
  }
}
