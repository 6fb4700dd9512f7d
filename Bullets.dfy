// The bullet post-processing of extract_outline_from_image: the reply text is
// stripped, re.findall(r"[-*•]\s+(.+)", text) collects the bullet texts, and
// text.splitlines() is the fallback when the pattern never matches.

module Bullets {
  import opened Options
  import opened PyText

  /** The character class [-*•]. */
  predicate IsMarker(c: char) {
    c == '-' || c == '*' || c == '\U{2022}'
  }

  /** Where `.` may match: anything but "\n" (the pattern has no DOTALL). */
  predicate IsDot(s: string, p: nat) {
    p < |s| && s[p] != '\n'
  }

  /** The first "\n" at or after `j`, or |s|: where a greedy `.+` from `j` stops. */
  function LineEnd(s: string, j: nat): (e: nat)
    requires j <= |s|
    ensures j <= e <= |s|
    ensures forall p :: j <= p < e ==> s[p] != '\n'
    ensures e < |s| ==> s[e] == '\n'
    decreases |s| - j
  {
    if j < |s| && s[j] != '\n' then LineEnd(s, j + 1) else j
  }

  /** The largest q in [lo, hi] at which `.` matches, if any: the point where
      `(.+)` can start after greedy `\s+` has given back hi - q characters. */
  function Backoff(s: string, lo: nat, hi: nat): (r: Option<nat>)
    requires lo <= hi
    ensures r.Some? ==> lo <= r.value <= hi && IsDot(s, r.value)
    ensures r.Some? ==> forall p :: r.value < p <= hi ==> !IsDot(s, p)
    ensures r.None? ==> forall p :: lo <= p <= hi ==> !IsDot(s, p)
    decreases hi
  {
    if IsDot(s, hi) then Some(hi)
    else if hi == lo then None
    else Backoff(s, lo, hi - 1)
  }

  /** One match of the pattern: it starts at `start`, and the group captures
      s[from..to]. */
  datatype Match = Match(start: nat, from: nat, to: nat)

  /** The pattern matches at `i` with `\s+` covering s[i+1..q] and the group
      covering s[q..e]: a marker, one or more whitespace characters, then one
      or more characters other than "\n". */
  ghost predicate IsMatch(s: string, i: nat, q: nat, e: nat) {
    && i < |s| && IsMarker(s[i])
    && i + 2 <= q < e <= |s|
    && (forall p :: i < p < q ==> IsSpace(s[p]))
    && (forall p :: q <= p < e ==> s[p] != '\n')
  }

  /** The regex engine's attempt at position `i`: greedy `\s+` takes the whole
      whitespace run (which may hold "\n"), then gives back one character at a
      time until `.+` can start; greedy `.+` runs to the end of the line. */
  function MatchAt(s: string, i: nat): (r: Option<Match>)
    requires i < |s|
    ensures r.Some? ==> r.value.start == i < r.value.from < r.value.to <= |s|
  {
    if !IsMarker(s[i]) then None
    else
      var k := SkipSpace(s, i + 1);
      if k < i + 2 then None
      else match Backoff(s, i + 2, k)
        case None => None
        case Some(q) => Some(Match(i, q, LineEnd(s, q)))
  }

  /** What the engine finds at `i` is a match. */
  lemma MatchAtSound(s: string, i: nat)
    requires i < |s| && MatchAt(s, i).Some?
    ensures IsMatch(s, i, MatchAt(s, i).value.from, MatchAt(s, i).value.to)
  {
  }

  /** The engine misses no match at `i`. */
  lemma MatchAtComplete(s: string, i: nat, q: nat, e: nat)
    requires i < |s| && IsMatch(s, i, q, e)
    ensures MatchAt(s, i).Some?
  {
    MatchAtCovers(s, i, q, e);
  }

  /** Of all the ways to match at `i`, the engine takes the one with the
      longest `\s+` and, for that, the longest `.+`. */
  lemma MatchAtPreferred(s: string, i: nat, q: nat, e: nat)
    requires i < |s| && IsMatch(s, i, q, e)
    ensures MatchAt(s, i).Some?
    ensures var m := MatchAt(s, i).value;
      q < m.from || (q == m.from && e <= m.to)
  {
    MatchAtCovers(s, i, q, e);
  }

  /** Any match at `i` starts its group inside the whitespace run the engine
      backs off over, at a point where `.` matches. */
  lemma MatchAtCovers(s: string, i: nat, q: nat, e: nat)
    requires i < |s| && IsMatch(s, i, q, e)
    ensures SkipSpace(s, i + 1) >= q && IsDot(s, q)
  {
  }

  /** The engine's attempt at every position of `s`. */
  function Attempts(s: string): (t: seq<Option<Match>>)
    ensures IsTable(t)
  {
    seq(|s|, p requires 0 <= p < |s| => MatchAt(s, p))
  }

  /** A table of attempts: a match found at position `p` starts at `p` and
      ends further on, inside the text. */
  ghost predicate IsTable(t: seq<Option<Match>>) {
    forall p :: 0 <= p < |t| && t[p].Some? ==> t[p].value.start == p < t[p].value.from < t[p].value.to <= |t|
  }

  /** re.findall's scan from position `i`: take the attempt at each position
      in turn; after a match, resume where it ended. */
  function Scan(t: seq<Option<Match>>, i: nat): (ms: seq<Match>)
    requires IsTable(t) && i <= |t|
    ensures forall k :: 0 <= k < |ms| ==> i <= ms[k].start < ms[k].from < ms[k].to <= |t|
    decreases |t| - i
  {
    if i == |t| then []
    else match t[i]
      case Some(m) => [m] + Scan(t, m.to)
      case None => Scan(t, i + 1)
  }

  /** The attempt at `p` is a match. */
  ghost predicate Hits(t: seq<Option<Match>>, p: nat) {
    p < |t| && t[p].Some?
  }

  /** `ms` is what a leftmost, non-overlapping scan from `i` finds: each
      element is the attempt at its start, the matches come in order without
      overlap, and every position from `i` on where an attempt matches is
      either the start of one of them or inside one. */
  ghost predicate IsScanOf(t: seq<Option<Match>>, i: nat, ms: seq<Match>) {
    && i <= |t|
    && (forall k :: 0 <= k < |ms| ==> i <= ms[k].start < |t| && t[ms[k].start] == Some(ms[k]))
    && (forall j, k :: 0 <= j < k < |ms| ==> ms[j].to <= ms[k].start)
    && (forall p {:trigger Hits(t, p)} :: i <= p && Hits(t, p) ==>
          exists k :: 0 <= k < |ms| && ms[k].start <= p < ms[k].to)
  }

  /** The scan has the leftmost, non-overlapping shape. */
  lemma {:induction false} ScanIsScan(t: seq<Option<Match>>, i: nat)
    requires IsTable(t) && i <= |t|
    ensures IsScanOf(t, i, Scan(t, i))
    decreases |t| - i
  {
    if i < |t| {
      match t[i]
      case Some(m) =>
        ScanIsScan(t, m.to);
        ScanOfMatch(t, i, m, Scan(t, m.to));
      case None =>
        ScanIsScan(t, i + 1);
        ScanOfMiss(t, i, Scan(t, i + 1));
    }
  }

  /** A match at `i` followed by a scan from its end is a scan from `i`. */
  lemma ScanOfMatch(t: seq<Option<Match>>, i: nat, m: Match, ms: seq<Match>)
    requires IsTable(t) && i < |t| && t[i] == Some(m)
    requires IsScanOf(t, m.to, ms)
    ensures IsScanOf(t, i, [m] + ms)
  {
    var all := [m] + ms;
    forall k | 1 <= k < |all|
      ensures all[k] == ms[k - 1]
    {
    }
    forall p | i <= p && Hits(t, p)
      ensures exists k :: 0 <= k < |all| && all[k].start <= p < all[k].to
    {
      if p < m.to {
        assert all[0].start <= p < all[0].to;
      } else {
        var k :| 0 <= k < |ms| && ms[k].start <= p < ms[k].to;
        assert all[k + 1] == ms[k];
      }
    }
  }

  /** A position with no match in front of a scan from the next is a scan
      from that position. */
  lemma ScanOfMiss(t: seq<Option<Match>>, i: nat, ms: seq<Match>)
    requires i < |t| && t[i].None?
    requires IsScanOf(t, i + 1, ms)
    ensures IsScanOf(t, i, ms)
  {
    forall p | i <= p && Hits(t, p)
      ensures exists k :: 0 <= k < |ms| && ms[k].start <= p < ms[k].to
    {
      assert i + 1 <= p;
    }
  }

  /** Only one sequence has the shape: the scan's result is the leftmost,
      non-overlapping sequence of matches. */
  lemma {:induction false} ScanUnique(t: seq<Option<Match>>, i: nat, ms: seq<Match>)
    requires IsTable(t) && IsScanOf(t, i, ms)
    ensures ms == Scan(t, i)
    decreases |t| - i
  {
    if i < |t| {
      match t[i]
      case Some(m) =>
        ScanFirst(t, i, ms);
        ScanTail(t, i, ms);
        ScanUnique(t, m.to, ms[1..]);
        assert Scan(t, i) == [m] + Scan(t, m.to);
        assert ms == [m] + ms[1..];
      case None =>
        ScanStartsLater(t, i, ms);
        ScanUnique(t, i + 1, ms);
        assert Scan(t, i) == Scan(t, i + 1);
    }
  }

  /** When the attempt at `i` matches, a scan from `i` starts with it. */
  lemma ScanFirst(t: seq<Option<Match>>, i: nat, ms: seq<Match>)
    requires IsTable(t) && IsScanOf(t, i, ms) && i < |t| && t[i].Some?
    ensures ms != [] && ms[0] == t[i].value
  {
    assert Hits(t, i);
    var k :| 0 <= k < |ms| && ms[k].start <= i < ms[k].to;
    assert t[ms[0].start] == Some(ms[0]);
  }

  /** Dropping the first match of a scan from `i` leaves a scan from its end. */
  lemma ScanTail(t: seq<Option<Match>>, i: nat, ms: seq<Match>)
    requires IsTable(t) && IsScanOf(t, i, ms) && ms != []
    ensures IsScanOf(t, ms[0].to, ms[1..])
  {
    var rest := ms[1..];
    forall k | 0 <= k < |rest|
      ensures rest[k] == ms[k + 1] && ms[0].to <= rest[k].start
    {
    }
    forall p | ms[0].to <= p && Hits(t, p)
      ensures exists k :: 0 <= k < |rest| && rest[k].start <= p < rest[k].to
    {
      var k :| 0 <= k < |ms| && ms[k].start <= p < ms[k].to;
      assert rest[k - 1] == ms[k];
    }
  }

  /** A scan from `i` whose first match does not start at `i` is a scan from
      `i + 1`. */
  lemma ScanStartsLater(t: seq<Option<Match>>, i: nat, ms: seq<Match>)
    requires IsScanOf(t, i, ms) && i < |t| && t[i].None?
    ensures IsScanOf(t, i + 1, ms)
  {
    forall k | 0 <= k < |ms|
      ensures i + 1 <= ms[k].start
    {
    }
    forall p | i + 1 <= p && Hits(t, p)
      ensures exists k :: 0 <= k < |ms| && ms[k].start <= p < ms[k].to
    {
    }
  }

  /** The text each match captures. */
  function Captures(s: string, ms: seq<Match>): (r: seq<string>)
    requires forall k :: 0 <= k < |ms| ==> ms[k].from <= ms[k].to <= |s|
    ensures |r| == |ms|
  {
    seq(|ms|, k requires 0 <= k < |ms| => s[ms[k].from..ms[k].to])
  }

  /** Each item is a non-empty piece of one line. */
  predicate AreLinePieces(r: seq<string>) {
    forall k :: 0 <= k < |r| ==> r[k] != [] && '\n' !in r[k]
  }

  /** re.findall(r"[-*•]\s+(.+)", s): the group of every match, in order.
      Every bullet text found is a non-empty piece of one line. */
  function FindAll(s: string): (r: seq<string>)
    ensures AreLinePieces(r)
  {
    CapturedItems(s);
    Captures(s, Scan(Attempts(s), 0))
  }

  /** The groups of the scan's matches are non-empty and hold no "\n". */
  lemma CapturedItems(s: string)
    ensures AreLinePieces(Captures(s, Scan(Attempts(s), 0)))
  {
    var t := Attempts(s);
    var ms := Scan(t, 0);
    var r := Captures(s, ms);
    forall k | 0 <= k < |ms|
      ensures r[k] != [] && '\n' !in r[k]
    {
      ScanIsScan(t, 0);
      MatchAtSound(s, ms[k].start);
      assert r[k] == s[ms[k].from..ms[k].to];
    }
  }

  /** findall returns something exactly when the pattern matches somewhere:
      a marker, whitespace, then a non-empty rest of line. */
  lemma FindAllNonEmptyIff(s: string)
    ensures FindAll(s) != [] <==> exists i, q, e :: IsMatch(s, i, q, e)
  {
    var t := Attempts(s);
    var ms := Scan(t, 0);
    if ms != [] {
      ScanIsScan(t, 0);
      MatchAtSound(s, ms[0].start);
      assert IsMatch(s, ms[0].start, ms[0].from, ms[0].to);
    } else if i, q, e :| IsMatch(s, i, q, e) {
      MatchAtComplete(s, i, q, e);
      ScanIsScan(t, 0);
      assert Hits(t, i);
    }
  }

  /** The post-processing of the model's reply: the reply is stripped, the
      bullet texts are returned if the pattern matches anywhere, and the lines
      of the stripped reply otherwise. No reply (the call raised, or the reply
      had no content) yields None, the value returned by the exception path. */
  function ParseOutline(reply: Option<string>): (r: Option<seq<string>>)
    ensures r.None? <==> reply.None?
  {
    match reply
    case None => None
    case Some(content) =>
      var text := Strip(content);
      var bullets := FindAll(text);
      Some(if bullets != [] then bullets else SplitLines(text))
  }

  /** The outcome of a reply, by case: the bullet texts when a bullet is
      present in the stripped reply, its lines otherwise; either way no item
      holds a "\n". */
  lemma ParseOutlineCases(content: string)
    ensures var text := Strip(content);
      && ((exists i, q, e :: IsMatch(text, i, q, e)) ==> ParseOutline(Some(content)) == Some(FindAll(text)))
      && ((forall i, q, e :: !IsMatch(text, i, q, e)) ==> ParseOutline(Some(content)) == Some(SplitLines(text)))
    ensures forall k :: 0 <= k < |ParseOutline(Some(content)).value| ==>
      '\n' !in ParseOutline(Some(content)).value[k]
  {
    var text := Strip(content);
    FindAllNonEmptyIff(text);
    var lines := SplitLines(text);
    forall k | 0 <= k < |lines|
      ensures '\n' !in lines[k]
    {
      assert IsLineBoundary('\n');
    }
  }

  /** Two bullets on two lines give their two texts. */
  lemma FindAllTwoBullets(s: string)
    requires s == "- Point one\n- Point two"
    ensures FindAll(s) == ["Point one", "Point two"]
  {
    var t := Attempts(s);
    TwoBulletsAttempts(s);
    assert Scan(t, 0) == [Match(0, 2, 11), Match(12, 14, 23)] by {
      assert Scan(t, 23) == [];
      assert Scan(t, 11) == Scan(t, 12);
    }
    assert s[2..11] == "Point one" && s[14..23] == "Point two";
  }

  /** The engine's attempts that the scan of the two-bullet example visits. */
  lemma TwoBulletsAttempts(s: string)
    requires s == "- Point one\n- Point two"
    ensures MatchAt(s, 0) == Some(Match(0, 2, 11))
    ensures MatchAt(s, 11) == None
    ensures MatchAt(s, 12) == Some(Match(12, 14, 23))
  {
    assert SkipSpace(s, 1) == 2 by { assert IsSpace(s[1]) && !IsSpace(s[2]); }
    assert IsDot(s, 2);
    assert LineEnd(s, 2) == 11 by { assert s[11] == '\n'; }
    assert !IsMarker(s[11]);
    assert SkipSpace(s, 13) == 14 by { assert IsSpace(s[13]) && !IsSpace(s[14]); }
    assert IsDot(s, 14);
    assert LineEnd(s, 14) == 23;
  }
}
