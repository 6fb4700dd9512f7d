// The image files both entry points work on: the directory listing filtered
// by extension, case-insensitively, then sorted by code point.

module Images {

  /** str.lower() on one code point, for the code points that matter to the
      extension test: A-Z become a-z, everything else is left alone. */
  function LowerAscii(c: char): (l: char)
    ensures !('A' <= l <= 'Z')
    ensures 'A' <= c <= 'Z' || l == c
  {
    if 'A' <= c <= 'Z' then c - 'A' + 'a' else c
  }

  /** The name with every ASCII capital lowered. */
  function Lower(s: string): (r: string)
    ensures |r| == |s|
  {
    seq(|s|, k requires 0 <= k < |s| => LowerAscii(s[k]))
  }

  /** str.endswith(suffix) */
  predicate EndsWith(s: string, suffix: string) {
    |suffix| <= |s| && s[|s| - |suffix|..] == suffix
  }

  /** The IMG_EXT tuple. */
  const ImageExtensions: seq<string> := [".jpg", ".jpeg", ".png"]

  /** f.lower().endswith(('.jpg', '.jpeg', '.png')): endswith with a tuple
      holds when the name ends with any of its members, so an image name is
      at least four code points long. */
  predicate IsImageName(f: string): (b: bool)
    ensures b <==> exists k :: 0 <= k < |ImageExtensions| && EndsWith(Lower(f), ImageExtensions[k])
    ensures b ==> 4 <= |f|
  {
    var l := Lower(f);
    assert ImageExtensions[0] == ".jpg" && ImageExtensions[1] == ".jpeg" && ImageExtensions[2] == ".png";
    EndsWith(l, ".jpg") || EndsWith(l, ".jpeg") || EndsWith(l, ".png")
  }

  /** [f for f in names if IsImageName(f)]: the image names in listing order. */
  function ImageFiles(names: seq<string>): (r: seq<string>)
    ensures forall k :: 0 <= k < |r| ==> IsImageName(r[k])
  {
    if names == [] then []
    else (if IsImageName(names[0]) then [names[0]] else []) + ImageFiles(names[1..])
  }

  /** Python's order on str: lexicographic by code point, a proper prefix
      first. `LessEq(a, b)` is `a <= b`. */
  predicate LessEq(a: string, b: string)
    decreases |a|
  {
    a == [] || (b != [] && (a[0] < b[0] || (a[0] == b[0] && LessEq(a[1..], b[1..]))))
  }

  /** Ascending in that order. */
  predicate Sorted(s: seq<string>) {
    forall i, j :: 0 <= i < j < |s| ==> LessEq(s[i], s[j])
  }

  /** `x` placed into the sorted `s` before the first element not below it. */
  function Insert(x: string, s: seq<string>): (r: seq<string>)
    requires Sorted(s)
    ensures Sorted(r)
    ensures multiset(r) == multiset(s) + multiset{x}
  {
    if s == [] then [x]
    else if LessEq(x, s[0]) then
      InsertFront(x, s);
      [x] + s
    else
      var rest := Insert(x, s[1..]);
      InsertBehind(x, s, rest);
      assert multiset(s) == multiset{s[0]} + multiset(s[1..]) by {
        assert s == [s[0]] + s[1..];
      }
      [s[0]] + rest
  }

  /** sorted(names): insertion sort, which yields the one ascending
      arrangement of the names (see SortedUnique). */
  function Sort(s: seq<string>): (r: seq<string>)
    ensures Sorted(r)
    ensures multiset(r) == multiset(s)
  {
    if s == [] then []
    else
      var r := Insert(s[0], Sort(s[1..]));
      assert s == [s[0]] + s[1..];
      r
  }

  /** sorted([f for f in os.listdir(d) if f.lower().endswith(IMG_EXT)]),
      with the listing given: the selection is ascending, and holds each
      image name of the listing as often as the listing does and nothing
      else. */
  function SelectImages(listing: seq<string>): (r: seq<string>)
    ensures Sorted(r)
    ensures forall f :: multiset(r)[f] == if IsImageName(f) then multiset(listing)[f] else 0
  {
    ImageFilesCounts(listing);
    Sort(ImageFiles(listing))
  }

  /** `x` in front of a sorted list it does not exceed stays sorted. */
  lemma InsertFront(x: string, s: seq<string>)
    requires Sorted(s) && s != [] && LessEq(x, s[0])
    ensures Sorted([x] + s)
  {
    forall j | 0 < j < |s|
      ensures LessEq(x, s[j])
    {
      LessEqTrans(x, s[0], s[j]);
    }
  }

  /** The head of a sorted list, followed by a sorted arrangement of the rest
      and a larger `x`, is sorted. */
  lemma InsertBehind(x: string, s: seq<string>, rest: seq<string>)
    requires Sorted(s) && s != [] && !LessEq(x, s[0])
    requires Sorted(rest) && multiset(rest) == multiset(s[1..]) + multiset{x}
    ensures Sorted([s[0]] + rest)
  {
    LessEqTotal(x, s[0]);
    forall j | 0 <= j < |rest|
      ensures LessEq(s[0], rest[j])
    {
      assert rest[j] in multiset(rest);
      if rest[j] != x {
        assert rest[j] in multiset(s[1..]);
        var k :| 0 <= k < |s[1..]| && s[1..][k] == rest[j];
        assert s[k + 1] == rest[j];
      }
    }
  }

  /** The order is total. */
  lemma {:induction false} LessEqTotal(a: string, b: string)
    ensures LessEq(a, b) || LessEq(b, a)
    decreases |a|
  {
    if a != [] && b != [] && a[0] == b[0] {
      LessEqTotal(a[1..], b[1..]);
    }
  }

  /** The order is reflexive. */
  lemma {:induction false} LessEqRefl(a: string)
    ensures LessEq(a, a)
    decreases |a|
  {
    if a != [] {
      LessEqRefl(a[1..]);
    }
  }

  /** The order is transitive. */
  lemma {:induction false} LessEqTrans(a: string, b: string, c: string)
    requires LessEq(a, b) && LessEq(b, c)
    ensures LessEq(a, c)
    decreases |a|
  {
    if a != [] && a[0] == b[0] && b[0] == c[0] {
      LessEqTrans(a[1..], b[1..], c[1..]);
    }
  }

  /** The order is antisymmetric: two names each not above the other are
      the same name. */
  lemma {:induction false} LessEqAntisymmetric(a: string, b: string)
    requires LessEq(a, b) && LessEq(b, a)
    ensures a == b
    decreases |a|
  {
    if a != [] {
      LessEqAntisymmetric(a[1..], b[1..]);
      assert a == [a[0]] + a[1..] && b == [b[0]] + b[1..];
    }
  }

  /** Two sorted lists holding the same names as often are the same list:
      whatever algorithm sorts, the sorted order is determined. */
  lemma {:induction false} SortedUnique(a: seq<string>, b: seq<string>)
    requires Sorted(a) && Sorted(b) && multiset(a) == multiset(b)
    ensures a == b
    decreases |a|
  {
    if a != [] {
      SortedHeadsEqual(a, b);
      MultisetTail(a);
      MultisetTail(b);
      SortedTail(a);
      SortedTail(b);
      SortedUnique(a[1..], b[1..]);
      HeadTailEqual(a, b);
    }
  }

  /** Two sorted lists with the same non-empty multiset start alike. */
  lemma SortedHeadsEqual(a: seq<string>, b: seq<string>)
    requires Sorted(a) && Sorted(b) && multiset(a) == multiset(b) && a != []
    ensures b != [] && a[0] == b[0]
  {
    assert a[0] in multiset(b);
    assert b != [];
    assert b[0] in multiset(a);
    SortedHeadLeast(b, a[0]);
    SortedHeadLeast(a, b[0]);
    LessEqAntisymmetric(a[0], b[0]);
  }

  /** Lists with equal heads and equal tails are equal. */
  lemma HeadTailEqual(a: seq<string>, b: seq<string>)
    requires a != [] && b != [] && a[0] == b[0] && a[1..] == b[1..]
    ensures a == b
  {
    assert a == [a[0]] + a[1..] && b == [b[0]] + b[1..];
  }

  /** The head of a sorted list is not above any of its elements. */
  lemma SortedHeadLeast(a: seq<string>, x: string)
    requires Sorted(a) && x in multiset(a)
    ensures a != [] && LessEq(a[0], x)
  {
    var i :| 0 <= i < |a| && a[i] == x;
    if i == 0 {
      LessEqRefl(x);
    }
  }

  /** Dropping the head keeps a list sorted. */
  lemma SortedTail(a: seq<string>)
    requires Sorted(a) && a != []
    ensures Sorted(a[1..])
  {
    forall i, j | 0 <= i < j < |a| - 1
      ensures LessEq(a[1..][i], a[1..][j])
    {
      assert a[1..][i] == a[i + 1] && a[1..][j] == a[j + 1];
    }
  }

  /** The multiset of a list is its head and the multiset of its tail. */
  lemma MultisetTail(a: seq<string>)
    requires a != []
    ensures multiset(a) == multiset{a[0]} + multiset(a[1..])
    ensures multiset(a[1..]) == multiset(a) - multiset{a[0]}
  {
    assert a == [a[0]] + a[1..];
  }

  /** Every name in the listing is kept exactly as often as it occurs when
      it is an image name, and never otherwise. */
  lemma {:induction false} ImageFilesCount(names: seq<string>, f: string)
    ensures multiset(ImageFiles(names))[f] == if IsImageName(f) then multiset(names)[f] else 0
  {
    if names != [] {
      ImageFilesCount(names[1..], f);
      var head := if IsImageName(names[0]) then [names[0]] else [];
      assert multiset(ImageFiles(names)) == multiset(head) + multiset(ImageFiles(names[1..]));
      assert multiset(names) == multiset{names[0]} + multiset(names[1..]) by {
        assert names == [names[0]] + names[1..];
      }
    }
  }

  /** ImageFilesCount for every name at once. */
  lemma ImageFilesCounts(names: seq<string>)
    ensures forall f :: multiset(ImageFiles(names))[f] == if IsImageName(f) then multiset(names)[f] else 0
  {
    forall f
      ensures multiset(ImageFiles(names))[f] == if IsImageName(f) then multiset(names)[f] else 0
    {
      ImageFilesCount(names, f);
    }
  }

  /** Conversely the selection is the only list with those two properties. */
  lemma SelectImagesUnique(listing: seq<string>, r: seq<string>)
    requires Sorted(r)
    requires forall f :: multiset(r)[f] == if IsImageName(f) then multiset(listing)[f] else 0
    ensures r == SelectImages(listing)
  {
    assert multiset(r) == multiset(SelectImages(listing));
    SortedUnique(r, SelectImages(listing));
  }

  /** The selection is empty exactly when no name of the listing is an
      image name. */
  lemma SelectImagesEmptyIff(listing: seq<string>)
    ensures SelectImages(listing) == [] <==> forall k :: 0 <= k < |listing| ==> !IsImageName(listing[k])
  {
    if SelectImages(listing) == [] {
      forall k | 0 <= k < |listing|
        ensures !IsImageName(listing[k])
      {
        ImageFilesCount(listing, listing[k]);
        assert listing[k] in multiset(listing);
      }
    } else {
      var f := SelectImages(listing)[0];
      assert f in multiset(SelectImages(listing));
      assert f in multiset(listing);
      assert f in listing;
    }
  }

  /** The extension test ignores case: "Slide1.PNG" and "slide2.JpEg" are
      images, "notes.txt" and "png" are not. */
  lemma ImageNameExamples(a: string, b: string, c: string, d: string)
    requires a == "Slide1.PNG" && b == "slide2.JpEg" && c == "notes.txt" && d == "png"
    ensures IsImageName(a) && IsImageName(b) && !IsImageName(c) && !IsImageName(d)
  {
    assert Lower(a)[|a| - 4..] == ".png";
    assert Lower(b)[|b| - 5..] == ".jpeg";
    assert Lower(c)[|c| - 4..] == ".txt";
    assert Lower(c)[|c| - 5..] == "s.txt";
    assert !IsImageName(c);
  }
}
