// add_outline_items: the nested bookmarks of the PDF. The writer is modelled
// by the pages it holds and the outline entries added to it; each call to
// AddOutlineItem appends one entry and hands back its index, which later
// entries may name as their parent.

module Outline {
  /** The parent argument of add_outline_item: None, or the handle of an
      item already in the outline. */
  datatype Parent = NoParent | Item(handle: nat)

  /** One chapter dictionary: a title, a 1-based page number and, when the
      "children" key is present, the nested chapters. */
  datatype Chapter = Chapter(title: string, page: int, children: Children)

  /** The optional "children" key of a chapter dictionary. */
  datatype Children = Absent | Present(list: seq<Chapter>)

  /** One outline item in the writer: its title, the 0-based index of the page
      it points at, and the index of its parent item, if any. */
  datatype OutlineEntry = OutlineEntry(title: string, pageIndex: int, parent: Parent)

  /** The PDF writer, seen through its pages and its outline items. */
  class OutlineWriter {
    var pages: seq<string>
    var entries: seq<OutlineEntry>

    /** Every item points at an existing page, and a parent is always an
        item added before its child. */
    ghost predicate Valid()
      reads this
    {
      forall k :: 0 <= k < |entries| ==>
        0 <= entries[k].pageIndex < |pages| && (entries[k].parent.Item? ==> entries[k].parent.handle < k)
    }

    /** A writer with no pages and no outline. */
    constructor ()
      ensures pages == [] && entries == []
      ensures Valid()
    {
      pages := [];
      entries := [];
    }

    /** writer.add_page: one more page at the end; the outline is untouched. */
    method AddPage(page: string)
      requires Valid()
      modifies this
      ensures pages == old(pages) + [page]
      ensures entries == old(entries)
      ensures Valid()
    {
      pages := pages + [page];
    }

    /** writer.add_outline_item: append an item for page `pageIndex` under
        `parent` and return the handle of the new item, its index. */
    method AddOutlineItem(title: string, pageIndex: int, parent: Parent) returns (handle: nat)
      requires Valid()
      requires 0 <= pageIndex < |pages|
      requires parent.Item? ==> parent.handle < |entries|
      modifies this
      ensures handle == old(|entries|)
      ensures entries == old(entries) + [OutlineEntry(title, pageIndex, parent)]
      ensures pages == old(pages)
      ensures Valid()
    {
      handle := |entries|;
      entries := entries + [OutlineEntry(title, pageIndex, parent)];
    }
  }

  /** The entries add_outline_items appends for the first `n` chapters of
      `chs` under `parent` when the writer already holds `base` entries: the
      loop over `chs` after `n` rounds. */
  function FlattenFirst(chs: seq<Chapter>, n: nat, parent: Parent, base: nat): seq<OutlineEntry>
    requires n <= |chs|
    decreases chs, n
  {
    if n == 0 then []
    else
      var front := FlattenFirst(chs, n - 1, parent, base);
      front + NodeEntries(chs[n - 1], parent, base + |front|)
  }

  /** The entries for one chapter whose item lands at index `at`: its own
      item, then its children's under it. */
  function NodeEntries(ch: Chapter, parent: Parent, at: nat): seq<OutlineEntry>
    decreases ch
  {
    [OutlineEntry(ch.title, ch.page - 1, parent)]
      + match ch.children
        case Absent => []
        case Present(kids) => FlattenFirst(kids, |kids|, Item(at), at + 1)
  }

  /** The entries add_outline_items appends for all of `chs`. */
  function Flatten(chs: seq<Chapter>, parent: Parent, base: nat): seq<OutlineEntry> {
    FlattenFirst(chs, |chs|, parent, base)
  }

  /** Every chapter in the tree names a page between 1 and `n`. */
  predicate ChaptersFit(chs: seq<Chapter>, n: nat) {
    forall k :: 0 <= k < |chs| ==> ChapterFits(chs[k], n)
  }

  /** The chapter and all its descendants name a page between 1 and `n`. */
  predicate ChapterFits(ch: Chapter, n: nat) {
    1 <= ch.page <= n && (ch.children.Present? ==> ChaptersFit(ch.children.list, n))
  }

  /** add_outline_items(writer, chapters, parent): for each chapter in order,
      add its item under `parent`, then add its children under that item. */
  method AddOutlineItems(writer: OutlineWriter, chapters: seq<Chapter>, parent: Parent)
    requires writer.Valid()
    requires ChaptersFit(chapters, |writer.pages|)
    requires parent.Item? ==> parent.handle < |writer.entries|
    modifies writer
    ensures writer.pages == old(writer.pages)
    ensures writer.entries == old(writer.entries) + Flatten(chapters, parent, old(|writer.entries|))
    ensures writer.Valid()
    decreases chapters
  {
    ghost var start := writer.entries;
    for i := 0 to |chapters|
      invariant writer.pages == old(writer.pages)
      invariant writer.entries == start + FlattenFirst(chapters, i, parent, |start|)
      invariant writer.Valid()
    {
      var ch := chapters[i];
      ghost var before := writer.entries;
      assert ChapterFits(ch, |writer.pages|);
      var node := writer.AddOutlineItem(ch.title, ch.page - 1, parent);
      ghost var mid := writer.entries;
      if ch.children.Present? {
        AddOutlineItems(writer, ch.children.list, Item(node));
      }
      NodeStep(ch, parent, before, mid, writer.entries);
      LoopStep(start, chapters, i, parent, before, writer.entries);
    }
  }

  /** After one chapter's item and then its children are appended, the
      writer holds that chapter's entries on top of what it held before. */
  lemma NodeStep(ch: Chapter, parent: Parent, before: seq<OutlineEntry>, mid: seq<OutlineEntry>, after: seq<OutlineEntry>)
    requires mid == before + [OutlineEntry(ch.title, ch.page - 1, parent)]
    requires ch.children.Absent? ==> after == mid
    requires ch.children.Present? ==> after == mid + Flatten(ch.children.list, Item(|before|), |mid|)
    ensures after == before + NodeEntries(ch, parent, |before|)
  {
    if ch.children.Present? {
      AppendAssoc(before, [OutlineEntry(ch.title, ch.page - 1, parent)], Flatten(ch.children.list, Item(|before|), |mid|));
    }
  }

  /** One round of the loop over the chapters: once chapter i's entries
      follow those of the first i chapters, the writer holds those of the
      first i + 1. */
  lemma LoopStep(start: seq<OutlineEntry>, chs: seq<Chapter>, i: nat, parent: Parent,
                 before: seq<OutlineEntry>, after: seq<OutlineEntry>)
    requires i < |chs|
    requires before == start + FlattenFirst(chs, i, parent, |start|)
    requires after == before + NodeEntries(chs[i], parent, |before|)
    ensures after == start + FlattenFirst(chs, i + 1, parent, |start|)
  {
    var front := FlattenFirst(chs, i, parent, |start|);
    var node := NodeEntries(chs[i], parent, |before|);
    assert FlattenFirst(chs, i + 1, parent, |start|) == front + node by {
      assert |before| == |start| + |front|;
    }
    AppendAssoc(start, front, node);
  }

  /** Concatenation of entry lists is associative. */
  lemma AppendAssoc(a: seq<OutlineEntry>, b: seq<OutlineEntry>, c: seq<OutlineEntry>)
    ensures (a + b) + c == a + (b + c)
  {
  }

  // ---- What the appended entries mean ----

  /** A chapter tree in preorder, siblings in list order: each chapter's
      title and 0-based page index, followed by its descendants'. */
  function Preorder(chs: seq<Chapter>): seq<(string, int)>
    decreases chs
  {
    if chs == [] then [] else NodeLabels(chs[0]) + Preorder(chs[1..])
  }

  /** A chapter and its descendants in preorder. */
  function NodeLabels(ch: Chapter): seq<(string, int)>
    decreases ch
  {
    [(ch.title, ch.page - 1)]
      + match ch.children
        case Absent => []
        case Present(kids) => Preorder(kids)
  }

  /** The title and page index of each entry. */
  function Labels(entries: seq<OutlineEntry>): (r: seq<(string, int)>)
    ensures |r| == |entries|
  {
    seq(|entries|, k requires 0 <= k < |entries| => (entries[k].title, entries[k].pageIndex))
  }

  /** Labels of two lists appended are the labels of each. */
  lemma LabelsAppend(a: seq<OutlineEntry>, b: seq<OutlineEntry>)
    ensures Labels(a + b) == Labels(a) + Labels(b)
  {
  }

  /** Preorder of a list with one more chapter at the end. */
  lemma {:induction false} PreorderSnoc(chs: seq<Chapter>, c: Chapter)
    ensures Preorder(chs + [c]) == Preorder(chs) + NodeLabels(c)
  {
    if chs != [] {
      assert (chs + [c])[1..] == chs[1..] + [c];
      PreorderSnoc(chs[1..], c);
    } else {
      assert ([] + [c])[1..] == [];
    }
  }

  /** add_outline_items writes one entry per chapter of the tree, in
      preorder, each with the title of its chapter and the index of the page
      before the one the chapter names. */
  lemma FlattenIsPreorder(chs: seq<Chapter>, parent: Parent, base: nat)
    ensures Labels(Flatten(chs, parent, base)) == Preorder(chs)
    ensures |Flatten(chs, parent, base)| == |Preorder(chs)|
  {
    LabelsFlattenFirst(chs, |chs|, parent, base);
    assert chs[..|chs|] == chs;
  }

  /** The entries for the first n chapters label the preorder of those
      chapters. */
  lemma {:induction false} LabelsFlattenFirst(chs: seq<Chapter>, n: nat, parent: Parent, base: nat)
    requires n <= |chs|
    ensures Labels(FlattenFirst(chs, n, parent, base)) == Preorder(chs[..n])
    decreases chs, n
  {
    if n > 0 {
      var front := FlattenFirst(chs, n - 1, parent, base);
      var node := NodeEntries(chs[n - 1], parent, base + |front|);
      assert FlattenFirst(chs, n, parent, base) == front + node;
      LabelsFlattenFirst(chs, n - 1, parent, base);
      LabelsNode(chs[n - 1], parent, base + |front|);
      LabelsAppend(front, node);
      PreorderSnoc(chs[..n - 1], chs[n - 1]);
      assert chs[..n - 1] + [chs[n - 1]] == chs[..n];
    }
  }

  /** One chapter's entries label its preorder. */
  lemma {:induction false} LabelsNode(ch: Chapter, parent: Parent, at: nat)
    ensures Labels(NodeEntries(ch, parent, at)) == NodeLabels(ch)
    decreases ch
  {
    var item := [OutlineEntry(ch.title, ch.page - 1, parent)];
    match ch.children
    case Absent =>
      assert NodeEntries(ch, parent, at) == item;
    case Present(kids) =>
      LabelsFlattenFirst(kids, |kids|, Item(at), at + 1);
      assert kids[..|kids|] == kids;
      LabelsAppend(item, FlattenFirst(kids, |kids|, Item(at), at + 1));
  }

  /** Every entry of `es`, which starts at index `base` of the outline,
      names as parent either `parent` or an entry of `es` before itself. */
  ghost predicate ParentsWithin(es: seq<OutlineEntry>, parent: Parent, base: nat) {
    forall k :: 0 <= k < |es| ==>
      es[k].parent == parent || (es[k].parent.Item? && base <= es[k].parent.handle < base + k)
  }

  /** The parent of every entry written for `chs` is either the caller's
      `parent` or an entry written earlier by the same call. */
  lemma {:induction false} FlattenParents(chs: seq<Chapter>, n: nat, parent: Parent, base: nat)
    requires n <= |chs|
    ensures ParentsWithin(FlattenFirst(chs, n, parent, base), parent, base)
    decreases chs, n
  {
    if n > 0 {
      var front := FlattenFirst(chs, n - 1, parent, base);
      var at := base + |front|;
      var node := NodeEntries(chs[n - 1], parent, at);
      FlattenParents(chs, n - 1, parent, base);
      NodeParents(chs[n - 1], parent, at);
      var es := front + node;
      assert FlattenFirst(chs, n, parent, base) == es;
      forall k | 0 <= k < |es|
        ensures es[k].parent == parent || (es[k].parent.Item? && base <= es[k].parent.handle < base + k)
      {
        if k < |front| {
          assert es[k] == front[k];
        } else {
          assert es[k] == node[k - |front|];
        }
      }
    }
  }

  /** Every entry of `es` after the first names as parent an entry at index
      `at` or later (the first entry sits at `at`), and before itself. */
  ghost predicate NestedUnder(es: seq<OutlineEntry>, at: nat) {
    forall k :: 1 <= k < |es| ==> es[k].parent.Item? && at <= es[k].parent.handle < at + k
  }

  /** A chapter's own entry carries the caller's parent; every entry below
      it names as parent an entry at or after the chapter's own, and before
      itself. */
  lemma {:induction false} NodeParents(ch: Chapter, parent: Parent, at: nat)
    ensures NodeEntries(ch, parent, at)[0].parent == parent
    ensures NestedUnder(NodeEntries(ch, parent, at), at)
    decreases ch
  {
    match ch.children
    case Absent =>
    case Present(kids) =>
      var below := FlattenFirst(kids, |kids|, Item(at), at + 1);
      FlattenParents(kids, |kids|, Item(at), at + 1);
      var es := [OutlineEntry(ch.title, ch.page - 1, parent)] + below;
      assert NodeEntries(ch, parent, at) == es;
      forall k | 1 <= k < |es|
        ensures es[k].parent.Item? && at <= es[k].parent.handle < at + k
      {
        assert es[k] == below[k - 1];
      }
  }

  /** The entries whose parent is `parent`, in order. */
  function Under(entries: seq<OutlineEntry>, parent: Parent): seq<OutlineEntry>
  {
    if entries == [] then []
    else (if entries[0].parent == parent then [entries[0]] else []) + Under(entries[1..], parent)
  }

  /** Filtering distributes over appending. */
  lemma {:induction false} UnderAppend(a: seq<OutlineEntry>, b: seq<OutlineEntry>, parent: Parent)
    ensures Under(a + b, parent) == Under(a, parent) + Under(b, parent)
  {
    if a == [] {
      assert a + b == b;
    } else {
      var head := if a[0].parent == parent then [a[0]] else [];
      assert (a + b)[0] == a[0];
      assert (a + b)[1..] == a[1..] + b;
      calc {
        Under(a + b, parent);
        head + Under(a[1..] + b, parent);
        { UnderAppend(a[1..], b, parent); }
        head + (Under(a[1..], parent) + Under(b, parent));
        { AppendAssoc(head, Under(a[1..], parent), Under(b, parent)); }
        (head + Under(a[1..], parent)) + Under(b, parent);
        Under(a, parent) + Under(b, parent);
      }
    }
  }

  /** No entry of a list has the parent: filtering leaves nothing. */
  lemma {:induction false} UnderNone(entries: seq<OutlineEntry>, parent: Parent)
    requires forall k :: 0 <= k < |entries| ==> entries[k].parent != parent
    ensures Under(entries, parent) == []
  {
    if entries != [] {
      UnderNone(entries[1..], parent);
    }
  }

  /** The title and page index of each chapter of a list, without descending. */
  function Heads(chs: seq<Chapter>): (r: seq<(string, int)>)
    ensures |r| == |chs|
  {
    seq(|chs|, j requires 0 <= j < |chs| => (chs[j].title, chs[j].page - 1))
  }

  /** When `parent` is not an entry written by this call, the entries that
      carry it are exactly those of the top-level chapters, in order. */
  lemma FlattenTopLevel(chs: seq<Chapter>, parent: Parent, base: nat)
    requires parent.Item? ==> parent.handle < base
    ensures Labels(Under(Flatten(chs, parent, base), parent)) == Heads(chs)
  {
    TopLevelFirst(chs, |chs|, parent, base);
    assert chs[..|chs|] == chs;
  }

  /** The children of a chapter hang off the chapter's own entry: among the
      entries written below it, those naming that entry as parent are its
      direct children, in list order. */
  lemma ChildrenUnderNode(ch: Chapter, parent: Parent, at: nat)
    requires ch.children.Present?
    ensures Labels(Under(NodeEntries(ch, parent, at)[1..], Item(at))) == Heads(ch.children.list)
  {
    var kids := ch.children.list;
    assert NodeEntries(ch, parent, at)[1..] == Flatten(kids, Item(at), at + 1);
    FlattenTopLevel(kids, Item(at), at + 1);
  }

  /** The same for the first n chapters. */
  lemma {:induction false} TopLevelFirst(chs: seq<Chapter>, n: nat, parent: Parent, base: nat)
    requires n <= |chs|
    requires parent.Item? ==> parent.handle < base
    ensures Labels(Under(FlattenFirst(chs, n, parent, base), parent)) == Heads(chs[..n])
  {
    if n > 0 {
      var front := FlattenFirst(chs, n - 1, parent, base);
      var at := base + |front|;
      var node := NodeEntries(chs[n - 1], parent, at);
      TopLevelFirst(chs, n - 1, parent, base);
      UnderAppend(front, node, parent);
      NodeUnder(chs[n - 1], parent, at);
      LabelsAppend(Under(front, parent), Under(node, parent));
      HeadsSnoc(chs, n);
    }
  }

  /** Of one chapter's entries, only its own carries a parent that is not
      among them. */
  lemma NodeUnder(ch: Chapter, parent: Parent, at: nat)
    requires parent.Item? ==> parent.handle < at
    ensures Labels(Under(NodeEntries(ch, parent, at), parent)) == [(ch.title, ch.page - 1)]
  {
    var node := NodeEntries(ch, parent, at);
    NodeParents(ch, parent, at);
    assert node == [node[0]] + node[1..];
    UnderAppend([node[0]], node[1..], parent);
    UnderNone(node[1..], parent);
    assert Under([node[0]], parent) == [node[0]];
  }

  /** The heads of the first n chapters extend those of the first n - 1. */
  lemma HeadsSnoc(chs: seq<Chapter>, n: nat)
    requires 0 < n <= |chs|
    ensures Heads(chs[..n]) == Heads(chs[..n - 1]) + [(chs[n - 1].title, chs[n - 1].page - 1)]
  {
  }

  /** The chapter tree of the usage example next to the composer: two
      top-level chapters without children around one with two. */
  function SampleChapters(): seq<Chapter> {
    [ Chapter("前言", 1, Absent),
      Chapter("方法", 4, Present([Chapter("數據收集", 5, Absent), Chapter("建模流程", 7, Absent)])),
      Chapter("結果", 10, Absent) ]
  }

  /** Added at the top level of an empty outline, the example tree yields
      five entries; both sub-chapters hang off entry 1, their chapter's. */
  lemma SampleOutline()
    ensures Flatten(SampleChapters(), NoParent, 0) ==
      [ OutlineEntry("前言", 0, NoParent),
        OutlineEntry("方法", 3, NoParent),
        OutlineEntry("數據收集", 4, Item(1)),
        OutlineEntry("建模流程", 6, Item(1)),
        OutlineEntry("結果", 9, NoParent) ]
  {
    var chs := SampleChapters();
    var kids := chs[1].children.list;
    assert FlattenFirst(kids, 2, Item(1), 2) ==
      [OutlineEntry("數據收集", 4, Item(1)), OutlineEntry("建模流程", 6, Item(1))];
    assert FlattenFirst(chs, 1, NoParent, 0) == [OutlineEntry("前言", 0, NoParent)];
    assert FlattenFirst(chs, 2, NoParent, 0) ==
      [ OutlineEntry("前言", 0, NoParent),
        OutlineEntry("方法", 3, NoParent),
        OutlineEntry("數據收集", 4, Item(1)),
        OutlineEntry("建模流程", 6, Item(1)) ];
  }
}
