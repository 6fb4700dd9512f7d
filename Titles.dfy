// clean_title: the sanitiser applied to every slide title before it becomes
// a line of the titles file or a bookmark label.

module Titles {
  import opened PyText

  /** The word characters of ASCII: what `\w` means below U+0080. */
  predicate IsAsciiWord(c: char) {
    ('a' <= c <= 'z') || ('A' <= c <= 'Z') || ('0' <= c <= '9') || c == '_'
  }

  /** What the model relies on about Python's Unicode `\w`: on ASCII it is
      exactly [A-Za-z0-9_], and no whitespace code point is a word character.
      Beyond that the Unicode letter and digit tables are left open. */
  ghost predicate IsWordClass(w: char -> bool) {
    && (forall c: char :: c < '\U{80}' ==> (w(c) <==> IsAsciiWord(c)))
    && (forall c: char :: IsSpace(c) ==> !w(c))
  }

  /** The CJK Unified Ideographs block, U+4E00 to U+9FFF. */
  predicate IsCjk(c: char) {
    '\U{4E00}' <= c <= '\U{9FFF}'
  }

  /** The characters the class [^\w一-鿿\- ] does NOT match. */
  predicate IsKept(w: char -> bool, c: char) {
    w(c) || IsCjk(c) || c == '-' || c == ' '
  }

  /** The characters a cleaned title may consist of. */
  predicate IsTitleChar(w: char -> bool, c: char) {
    w(c) || IsCjk(c) || c == '-' || c == '_'
  }

  /** `b` contains the characters of `a` in the same order (not necessarily
      next to each other). */
  predicate IsSubsequence(a: string, b: string)
    decreases |b|
  {
    if b == [] then a == []
    else (a != [] && a[0] == b[0] && IsSubsequence(a[1..], b[1..])) || IsSubsequence(a, b[1..])
  }

  /** re.sub(r'[^\w一-鿿\- ]+', '', s): every character outside the
      kept class is deleted. */
  function KeepTitleChars(w: char -> bool, s: string): (r: string)
    ensures |r| <= |s|
  {
    if s == [] then []
    else (if IsKept(w, s[0]) then [s[0]] else []) + KeepTitleChars(w, s[1..])
  }

  /** .replace(' ', '_'): no space is left, and every other character stays
      where it was. */
  function SpacesToUnderscores(s: string): (r: string)
    ensures |r| == |s| && ' ' !in r
    ensures forall k :: 0 <= k < |s| && s[k] != ' ' ==> r[k] == s[k]
    ensures forall k :: 0 <= k < |s| && s[k] == ' ' ==> r[k] == '_'
  {
    seq(|s|, k requires 0 <= k < |s| => if s[k] == ' ' then '_' else s[k])
  }

  /** The longest a cleaned title may be, in code points. */
  const MaxTitleLength := 40

  /** What clean_title returns when nothing survives the cleaning. */
  const Fallback := "Untitled"

  /** The string clean_title tests for emptiness: kept characters, stripped,
      spaces turned into underscores. */
  function Cleaned(w: char -> bool, title: string): string {
    SpacesToUnderscores(Strip(KeepTitleChars(w, title)))
  }

  /** clean_title(title), with `w` standing for Python's `\w`: never empty,
      never longer than 40 code points, and the fallback label whenever
      nothing but whitespace survives the filter. */
  function CleanTitle(w: char -> bool, title: string): (r: string)
    ensures 1 <= |r| <= MaxTitleLength
    ensures Strip(KeepTitleChars(w, title)) == [] ==> r == Fallback
  {
    var cleaned := Cleaned(w, title);
    if cleaned != [] then cleaned[..if |cleaned| < MaxTitleLength then |cleaned| else MaxTitleLength]
    else Fallback
  }

  /** Only kept characters survive the filter. */
  lemma {:induction false} KeepTitleCharsSound(w: char -> bool, s: string)
    ensures forall k :: 0 <= k < |KeepTitleChars(w, s)| ==> IsKept(w, KeepTitleChars(w, s)[k])
  {
    if s != [] {
      KeepTitleCharsSound(w, s[1..]);
      var r, tail := KeepTitleChars(w, s), KeepTitleChars(w, s[1..]);
      if IsKept(w, s[0]) {
        assert r == [s[0]] + tail;
      } else {
        assert r == tail;
      }
    }
  }

  /** No kept character is lost: each one of the input is in the result. */
  lemma {:induction false} KeepTitleCharsComplete(w: char -> bool, s: string)
    ensures forall k :: 0 <= k < |s| && IsKept(w, s[k]) ==> s[k] in KeepTitleChars(w, s)
  {
    if s != [] {
      KeepTitleCharsComplete(w, s[1..]);
      var r := KeepTitleChars(w, s);
      forall k | 0 <= k < |s| && IsKept(w, s[k])
        ensures s[k] in r
      {
        if k == 0 {
          assert r[0] == s[0];
        } else {
          assert s[k] == s[1..][k - 1];
          assert s[k] in KeepTitleChars(w, s[1..]);
        }
      }
    }
  }

  /** The surviving characters keep their input order: the kept string is a
      subsequence of the input. */
  lemma {:induction false} KeepTitleCharsIsSubsequence(w: char -> bool, s: string)
    ensures IsSubsequence(KeepTitleChars(w, s), s)
  {
    if s != [] {
      KeepTitleCharsIsSubsequence(w, s[1..]);
      var r := KeepTitleChars(w, s);
      if IsKept(w, s[0]) {
        assert r[0] == s[0] && r[1..] == KeepTitleChars(w, s[1..]);
      } else {
        assert r == KeepTitleChars(w, s[1..]);
      }
    }
  }

  /** A string of kept characters passes the filter unchanged. */
  lemma {:induction false} KeepTitleCharsOfKept(w: char -> bool, s: string)
    requires forall k :: 0 <= k < |s| ==> IsKept(w, s[k])
    ensures KeepTitleChars(w, s) == s
  {
    if s != [] {
      KeepTitleCharsOfKept(w, s[1..]);
    }
  }

  /** The filter works piece by piece. */
  lemma {:induction false} KeepTitleCharsConcat(w: char -> bool, a: string, b: string)
    ensures KeepTitleChars(w, a + b) == KeepTitleChars(w, a) + KeepTitleChars(w, b)
  {
    if a == [] {
      assert a + b == b;
    } else {
      var head := if IsKept(w, a[0]) then [a[0]] else [];
      assert (a + b)[0] == a[0] && (a + b)[1..] == a[1..] + b;
      KeepTitleCharsConcat(w, a[1..], b);
      calc {
        KeepTitleChars(w, a + b);
        head + KeepTitleChars(w, a[1..] + b);
        head + (KeepTitleChars(w, a[1..]) + KeepTitleChars(w, b));
        (head + KeepTitleChars(w, a[1..])) + KeepTitleChars(w, b);
        KeepTitleChars(w, a) + KeepTitleChars(w, b);
      }
    }
  }

  /** Every character of the cleaned string is a title character: a kept
      character other than the space, or an underscore. */
  lemma CleanedChars(w: char -> bool, title: string)
    ensures forall k :: 0 <= k < |Cleaned(w, title)| ==> IsTitleChar(w, Cleaned(w, title)[k])
  {
    var kept := KeepTitleChars(w, title);
    var t := Strip(kept);
    KeepTitleCharsSound(w, title);
    forall k | 0 <= k < |t|
      ensures IsKept(w, t[k])
    {
      assert t[k] == kept[StripStart(kept) + k];
    }
  }

  /** The fallback label consists of word characters only. */
  lemma FallbackChars(w: char -> bool)
    requires IsWordClass(w)
    ensures forall k :: 0 <= k < |Fallback| ==> w(Fallback[k])
  {
    assert IsAsciiWord('U') && IsAsciiWord('n') && IsAsciiWord('t') && IsAsciiWord('i');
    assert IsAsciiWord('l') && IsAsciiWord('e') && IsAsciiWord('d');
  }

  /** A cleaned title consists of word characters, CJK ideographs, hyphens
      and underscores only. */
  lemma CleanTitleChars(w: char -> bool, title: string)
    requires IsWordClass(w)
    ensures forall k :: 0 <= k < |CleanTitle(w, title)| ==> IsTitleChar(w, CleanTitle(w, title)[k])
  {
    CleanedChars(w, title);
    FallbackChars(w);
  }

  /** No title character is whitespace. */
  lemma TitleCharIsNotSpace(w: char -> bool, c: char)
    requires IsWordClass(w)
    requires IsTitleChar(w, c)
    ensures !IsSpace(c)
  {
    if !w(c) {
      assert c == '-' || c == '_' || IsCjk(c);
    }
  }

  /** The cleaned title holds neither spaces nor any other whitespace, in
      particular no line break. */
  lemma CleanTitleHasNoSpace(w: char -> bool, title: string)
    requires IsWordClass(w)
    ensures forall k :: 0 <= k < |CleanTitle(w, title)| ==> !IsSpace(CleanTitle(w, title)[k])
    ensures ' ' !in CleanTitle(w, title) && '\n' !in CleanTitle(w, title)
  {
    var r := CleanTitle(w, title);
    CleanTitleChars(w, title);
    forall k | 0 <= k < |r|
      ensures !IsSpace(r[k])
    {
      TitleCharIsNotSpace(w, r[k]);
    }
    assert IsSpace(' ') && IsSpace('\n');
  }

  /** The fallback is chosen exactly when the cleaned string is empty;
      otherwise the result is the first 40 code points of the cleaned string. */
  lemma CleanTitleIsPrefix(w: char -> bool, title: string)
    ensures var r, cleaned := CleanTitle(w, title), Cleaned(w, title);
      && (cleaned == [] <==> Strip(KeepTitleChars(w, title)) == [])
      && (cleaned == [] ==> r == Fallback)
      && (cleaned != [] ==> r <= cleaned && |r| == if |cleaned| < MaxTitleLength then |cleaned| else MaxTitleLength)
  {
  }

  /** Cleaning a cleaned title changes nothing. */
  lemma CleanTitleIdempotent(w: char -> bool, title: string)
    requires IsWordClass(w)
    ensures CleanTitle(w, CleanTitle(w, title)) == CleanTitle(w, title)
  {
    CleanTitleChars(w, title);
    CleanTitleHasNoSpace(w, title);
    assert w('_') by { assert IsAsciiWord('_'); }
    CleanTitleOfClean(w, CleanTitle(w, title));
  }

  /** A non-empty string of at most 40 title characters without whitespace
      is its own cleaned title. */
  lemma CleanTitleOfClean(w: char -> bool, r: string)
    requires w('_')
    requires 1 <= |r| <= MaxTitleLength
    requires forall k :: 0 <= k < |r| ==> IsTitleChar(w, r[k]) && !IsSpace(r[k])
    ensures CleanTitle(w, r) == r
  {
    assert Cleaned(w, r) == r by {
      assert forall k :: 0 <= k < |r| ==> IsKept(w, r[k]);
      KeepTitleCharsOfKept(w, r);
      StripWithoutSpace(r);
      assert IsSpace(' ');
      UnderscoresWithoutSpace(r);
    }
    assert r[..|r|] == r;
  }

  /** Replacing spaces changes nothing in a string without spaces. */
  lemma UnderscoresWithoutSpace(s: string)
    requires forall k :: 0 <= k < |s| ==> s[k] != ' '
    ensures SpacesToUnderscores(s) == s
  {
  }

  /** "???" keeps nothing and falls back to "Untitled". */
  lemma CleanTitleFallbackExample(w: char -> bool)
    requires IsWordClass(w)
    ensures CleanTitle(w, "???") == Fallback
  {
    assert !w('?') by { assert !IsAsciiWord('?'); }
    assert KeepTitleChars(w, "?") == [];
    KeepTitleCharsConcat(w, "?", "?");
    KeepTitleCharsConcat(w, "??", "?");
    assert "??" + "?" == "???" && "?" + "?" == "??";
    assert KeepTitleChars(w, "???") == [];
  }
}
