// The two image-folder entry points with their I/O abstracted: the folder is
// its listing, each vision-model reply is an input string, and the PDF under
// construction is an OutlineWriter.

module Scripts {
  import opened PyText
  import opened Titles
  import opened Images
  import opened Outline

  /** The message of the ValueError raised for a folder without images. */
  const NoImagesMessage := "No images found in folder!"

  /** How images_to_pdf_with_nested_bookmarks ends: raising, or with the
      writer that is then serialised. */
  datatype Outcome = Raised(message: string) | Saved(writer: OutlineWriter)

  /** images_to_pdf_with_nested_bookmarks(img_dir, chapters): one page per
      selected image, in selection order, then the chapter tree as outline
      entries at the top level. A folder without images raises. Page numbers
      must lie within the pages the folder yields. */
  method ImagesToPdfWithNestedBookmarks(listing: seq<string>, chapters: seq<Chapter>) returns (result: Outcome)
    requires SelectImages(listing) != [] ==> ChaptersFit(chapters, |SelectImages(listing)|)
    ensures result.Raised? <==> SelectImages(listing) == []
    ensures result.Raised? ==> result.message == NoImagesMessage
    ensures result.Saved? ==>
      && fresh(result.writer)
      && result.writer.Valid()
      && result.writer.pages == SelectImages(listing)
      && result.writer.entries == Flatten(chapters, NoParent, 0)
  {
    var files := SelectImages(listing);
    if files == [] {
      return Raised(NoImagesMessage);
    }
    var writer := new OutlineWriter();
    for i := 0 to |files|
      invariant writer.pages == files[..i]
      invariant writer.entries == []
      invariant writer.Valid()
    {
      writer.AddPage(files[i]);
    }
    assert files[..|files|] == files;
    AddOutlineItems(writer, chapters, NoParent);
    return Saved(writer);
  }

  /** The title kept for one reply: the reply text stripped, then cleaned. */
  function ReplyTitle(w: char -> bool, reply: string): (t: string)
    ensures 1 <= |t| <= MaxTitleLength
  {
    CleanTitle(w, Strip(reply))
  }

  /** `title` applied to each reply, in order. */
  function MapReplies(title: string -> string, replies: seq<string>): (ts: seq<string>)
    ensures |ts| == |replies|
  {
    if replies == [] then []
    else MapReplies(title, replies[..|replies| - 1]) + [title(replies[|replies| - 1])]
  }

  /** The k-th result is `title` of the k-th reply. */
  lemma {:induction false} MapRepliesAt(title: string -> string, replies: seq<string>)
    ensures forall k :: 0 <= k < |replies| ==> MapReplies(title, replies)[k] == title(replies[k])
  {
    if replies != [] {
      var front := replies[..|replies| - 1];
      MapRepliesAt(title, front);
      assert forall k :: 0 <= k < |front| ==> front[k] == replies[k];
    }
  }

  /** The titles collected by extract_titles_from_images: `replies[k]` is
      the reply for the k-th selected image, and the k-th title is its
      ReplyTitle. Each title is non-empty and at most 40 code points long
      (TitlesAreLines adds that each fits on one line). */
  method ExtractTitlesFromImages(w: char -> bool, listing: seq<string>, replies: seq<string>)
    returns (titles: seq<string>)
    requires |replies| == |SelectImages(listing)|
    ensures |titles| == |replies|
    ensures forall k :: 0 <= k < |titles| ==> titles[k] == ReplyTitle(w, replies[k])
    ensures forall k :: 0 <= k < |titles| ==> 1 <= |titles[k]| <= MaxTitleLength
  {
    var title := (reply: string) => ReplyTitle(w, reply);
    titles := [];
    for idx := 0 to |replies|
      invariant titles == MapReplies(title, replies[..idx])
    {
      assert replies[..idx + 1][..idx] == replies[..idx];
      titles := titles + [title(replies[idx])];
    }
    assert replies[..|replies|] == replies;
    MapRepliesAt(title, replies);
  }

  /** No extracted title holds a line boundary: written one per line, the
      titles read back with splitlines() are the titles. */
  lemma TitlesAreLines(w: char -> bool, replies: seq<string>, titles: seq<string>)
    requires IsWordClass(w)
    requires |titles| == |replies|
    requires forall k :: 0 <= k < |titles| ==> titles[k] == ReplyTitle(w, replies[k])
    ensures SplitLines(Terminated(titles)) == titles
  {
    forall k, i | 0 <= k < |titles| && 0 <= i < |titles[k]|
      ensures !IsLineBoundary(titles[k][i])
    {
      CleanTitleHasNoSpace(w, Strip(replies[k]));
      assert !IsSpace(titles[k][i]);
    }
    SplitLinesOfTerminated(titles);
  }
}
