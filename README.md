# pdf_tools scripts, modelled in Dafny

`pdf_tools/scripts.py` turns a folder of slide images into a PDF with nested
bookmarks, and uses a vision model to read slide titles and outlines. The
only logic the script owns is modelled here:

- **Title cleaning** (`clean_title`), module `Titles`. Python's `\w` is a
  parameter `w: char -> bool`. Every property that needs it is stated for
  any `w` meeting `IsWordClass`: `w` agrees with `[A-Za-z0-9_]` on ASCII
  and is false on all whitespace.
- **Bullet parsing** of an outline reply, module `Bullets`. It covers
  `re.findall(r"[-*•]\s+(.+)", text)` with `text.splitlines()` as the
  fallback.
  - The regex engine is modelled step by step: the marker, then greedy
    `\s+` that gives back characters when `.+` needs them, then `.+` up
    to the next `"\n"`.
  - The scan is leftmost-first and non-overlapping, and resumes after each
    match.
  - The pattern is not anchored: a marker anywhere, even mid-line, starts
    a match.
- **Outline attachment** (`add_outline_items`), module `Outline`.
  - The PDF writer is a class `OutlineWriter` with its `pages` and an
    `entries` sequence that is only ever appended to.
  - `AddOutlineItem` returns the new entry's index, which serves as the
    handle.
  - The recursive walk is a method with a `for` loop over the chapters,
    proved against the pure preorder flattening `Flatten`.
- **Image selection**, module `Images`. It models
  `sorted([f for f in listing if f.lower().endswith(('.jpg', '.jpeg', '.png'))])`.
  - Lower-casing is modelled on ASCII only. That is exact for this test:
    Python's `str.lower()` maps no non-ASCII code point to any of
    `. j p g e n`.
  - Python's order on `str` is lexicographic by code point.
  - `Sort` is an insertion sort. `SortedUnique` shows that any sorted
    permutation is the same list, so the result is what `sorted` returns.
- **The two entry points**, module `Scripts`. The folder is given as its
  listing and each model reply as a string. `images_to_pdf_with_nested_bookmarks`
  raises `"No images found in folder!"` exactly when the selection is
  empty; otherwise it builds one page per image and attaches the outline
  at the top level.
- Python's whitespace (`str.isspace`, `\s`, `str.strip()`) and
  `str.splitlines()` are modelled exactly in `PyText`.

`"Untitled"` is returned whenever nothing but whitespace survives the
filter. The converse does not hold: the input `"Untitled"` cleans to the
same string. So `CleanTitle` states the implication, and `CleanTitleIsPrefix`
gives the full characterisation.

## Model

| member | source | states |
|---|---|---|
| PyText.IsSpace | pdf_tools/scripts.py:96 | `str.isspace()` and `\s`: Python's 29 whitespace code points; every line boundary is whitespace, and no ASCII letter, digit, `_` or `-` is |
| PyText.Strip | pdf_tools/scripts.py:12 | `str.strip()`: the result is the slice between the leading and the trailing whitespace run, everything cut is whitespace, and a non-empty result neither starts nor ends with whitespace |
| PyText.StripEmptyIff | pdf_tools/scripts.py:12-13 | stripping leaves the empty string exactly when every character is whitespace |
| PyText.StripWithoutSpace | pdf_tools/scripts.py:12 | a string with no whitespace is stripped to itself |
| PyText.SkipSpace | pdf_tools/scripts.py:96 | the end of the whitespace run starting at `i`: everything skipped is whitespace, and the character stopped at is not |
| PyText.SkipSpaceBack | pdf_tools/scripts.py:12 | the start of the whitespace run ending at `j`: everything skipped is whitespace, and the character before it is not |
| PyText.SplitLines | pdf_tools/scripts.py:97 | `str.splitlines()`: no line holds a line boundary (any of Python's ten), and only the empty text has no lines; `SplitLinesOfJoined` and `JoinedOfSplitLines` show how each break, `"\r\n"` as one, ends a line |
| PyText.SplitLinesOfTerminated | pdf_tools/scripts.py:97 | `splitlines()` undoes writing boundary-free lines each followed by `"\n"` |
| PyText.SplitLinesOfJoined | pdf_tools/scripts.py:97 | `splitlines()` undoes joining boundary-free lines, the last one non-empty, with any line breaks between them (`"\r\n"` or one boundary each), unless a lone `"\r"` is directly followed by a `"\n"` break, which would read as one `"\r\n"` |
| PyText.LineBreaks | pdf_tools/scripts.py:97 | the breaks `splitlines()` drops are each `"\r\n"` or one line boundary |
| PyText.JoinedOfSplitLines | pdf_tools/scripts.py:97 | conversely every text not ending in a break, such as a stripped reply, has that shape: it is its lines rejoined with the breaks dropped, so `splitlines()` loses nothing else |
| PyText.SplitLinesCrLfExample | pdf_tools/scripts.py:97 | `"a\r\nb\rc"` splits into `["a", "b", "c"]` |
| PyText.FirstBoundaryAt | pdf_tools/scripts.py:97 | a boundary with none before it is where `splitlines()` cuts the first line |
| PyText.SplitLinesStepSep | pdf_tools/scripts.py:97 | a boundary-free line followed by one break comes off as the first line; `"\r\n"` is one break, and so is a lone `"\r"` not followed by `"\n"` |
| Titles.CleanTitle | pdf_tools/scripts.py:10-13 | the cleaned title is 1 to 40 code points long, and is `"Untitled"` whenever filtering and stripping leave nothing |
| Titles.KeepTitleChars | pdf_tools/scripts.py:11 | the substitution never lengthens the string |
| Titles.SpacesToUnderscores | pdf_tools/scripts.py:12 | `replace(' ', '_')`: same length, no space left, every space becomes `_` and every other character stays in place |
| Titles.KeepTitleCharsSound | pdf_tools/scripts.py:11 | only word characters, U+4E00–U+9FFF ideographs, `-` and space survive the substitution |
| Titles.KeepTitleCharsComplete | pdf_tools/scripts.py:11 | every such character of the input survives it |
| Titles.KeepTitleCharsIsSubsequence | pdf_tools/scripts.py:11 | the survivors keep their input order |
| Titles.KeepTitleCharsOfKept | pdf_tools/scripts.py:11 | a string of kept characters passes unchanged |
| Titles.KeepTitleCharsConcat | pdf_tools/scripts.py:11 | the substitution distributes over concatenation |
| Titles.CleanedChars | pdf_tools/scripts.py:11-12 | after strip and space-to-underscore, only word characters, ideographs, `-` and `_` remain |
| Titles.FallbackChars | pdf_tools/scripts.py:13 | `"Untitled"` consists of word characters |
| Titles.CleanTitleChars | pdf_tools/scripts.py:10-13 | every character of any cleaned title is a word character, an ideograph, `-` or `_` |
| Titles.TitleCharIsNotSpace | pdf_tools/scripts.py:11-12 | none of those characters is whitespace |
| Titles.CleanTitleHasNoSpace | pdf_tools/scripts.py:10-13 | a cleaned title holds no whitespace, in particular no space and no `"\n"` |
| Titles.CleanTitleIsPrefix | pdf_tools/scripts.py:11-13 | the fallback is used exactly when the cleaned string is empty; otherwise the result is its prefix of length min(len, 40) |
| Titles.CleanTitleIdempotent | pdf_tools/scripts.py:10-13 | cleaning a cleaned title changes nothing |
| Titles.CleanTitleOfClean | pdf_tools/scripts.py:10-13 | a 1-to-40-character string of title characters without whitespace is its own cleaned title |
| Titles.UnderscoresWithoutSpace | pdf_tools/scripts.py:12 | `replace(' ', '_')` leaves a space-free string alone |
| Titles.CleanTitleFallbackExample | pdf_tools/scripts.py:11-13 | `"???"` cleans to `"Untitled"` |
| Bullets.LineEnd | pdf_tools/scripts.py:96 | greedy `.+` runs to the first `"\n"` or the end of the text |
| Bullets.Backoff | pdf_tools/scripts.py:96 | the backtracking of `\s+`: the last position in range where `.` can match, or none if there is none |
| Bullets.MatchAt | pdf_tools/scripts.py:96 | a match attempted at `i` starts at `i`, and its group is non-empty and inside the text |
| Bullets.MatchAtSound | pdf_tools/scripts.py:96 | what the engine finds at `i` is a match of the pattern: marker, one or more whitespace, then one or more non-`"\n"` |
| Bullets.MatchAtComplete | pdf_tools/scripts.py:96 | if the pattern matches at `i` in any way, the engine finds a match there |
| Bullets.MatchAtPreferred | pdf_tools/scripts.py:96 | the engine's match is the greedy one: longest `\s+`, then longest `.+` |
| Bullets.MatchAtCovers | pdf_tools/scripts.py:96 | any match at `i` starts its group inside the whitespace run after the marker |
| Bullets.Attempts | pdf_tools/scripts.py:96 | the attempts at every position form a table of in-range matches |
| Bullets.Scan | pdf_tools/scripts.py:96 | the scan finds matches from position `i` on, each inside the text |
| Bullets.ScanIsScan | pdf_tools/scripts.py:96 | the scan is leftmost and non-overlapping: matches in order, none overlapping, and every position where the pattern matches lies inside a reported match |
| Bullets.ScanUnique | pdf_tools/scripts.py:96 | that shape determines the scan: any sequence with it is the scan |
| Bullets.ScanOfMatch | pdf_tools/scripts.py:96 | a match at `i` followed by a scan from its end is a scan from `i` |
| Bullets.ScanOfMiss | pdf_tools/scripts.py:96 | a miss at `i` followed by a scan from `i + 1` is a scan from `i` |
| Bullets.ScanFirst | pdf_tools/scripts.py:96 | a scan from a matching position starts with that match |
| Bullets.ScanTail | pdf_tools/scripts.py:96 | after its first match a scan continues as a scan from that match's end |
| Bullets.ScanStartsLater | pdf_tools/scripts.py:96 | a scan from a missing position is a scan from the next one |
| Bullets.Captures | pdf_tools/scripts.py:96 | findall returns one group per match |
| Bullets.FindAll | pdf_tools/scripts.py:96 | `re.findall`: the groups of the scan's matches in order, each a non-empty piece of one line (no `"\n"`) |
| Bullets.FindAllNonEmptyIff | pdf_tools/scripts.py:96-97 | findall returns something exactly when a marker followed by whitespace and a non-empty rest of line occurs somewhere |
| Bullets.ParseOutline | pdf_tools/scripts.py:94-100 | the outline is absent exactly when the reply is absent, which is the exception path |
| Bullets.ParseOutlineCases | pdf_tools/scripts.py:94-97 | the stripped reply gives its bullet texts if the pattern matches anywhere and its lines otherwise; no item holds `"\n"` |
| Bullets.FindAllTwoBullets | pdf_tools/scripts.py:96 | `"- Point one\n- Point two"` gives `["Point one", "Point two"]` |
| Bullets.TwoBulletsAttempts | pdf_tools/scripts.py:96 | in that text the attempts at 0 and 12 match up to each line end, and the one at 11 (the `"\n"`) fails |
| Outline.OutlineWriter.constructor | pdf_tools/scripts.py:121 | a new writer has no pages and no outline |
| Outline.OutlineWriter.AddPage | pdf_tools/scripts.py:122-123 | a page is appended, and the outline is unchanged |
| Outline.OutlineWriter.AddOutlineItem | pdf_tools/scripts.py:104 | one entry (title, page index, parent) is appended and its index returned, and the pages are unchanged |
| Outline.AddOutlineItems | pdf_tools/scripts.py:102-106 | the writer's entries become the old entries followed by `Flatten(chapters, parent, old length)`; pages and earlier entries are unchanged, and every entry keeps pointing at an existing page and an earlier parent |
| Outline.FlattenIsPreorder | pdf_tools/scripts.py:102-106 | the appended entries are one per tree node, in preorder with siblings in list order, each with page index `page - 1` |
| Outline.LabelsFlattenFirst | pdf_tools/scripts.py:103-106 | the same for the first `n` chapters, the loop after `n` rounds |
| Outline.LabelsNode | pdf_tools/scripts.py:104-106 | one chapter yields its own entry and then its subtree's, in preorder |
| Outline.FlattenParents | pdf_tools/scripts.py:104-106 | every appended entry's parent is the caller's `parent` or an entry appended earlier by the same call |
| Outline.NodeParents | pdf_tools/scripts.py:104-106 | a chapter's own entry carries the caller's parent, and every entry below it has a parent at or after that entry and before itself |
| Outline.FlattenTopLevel | pdf_tools/scripts.py:103-104 | the entries carrying the caller's parent are exactly the top-level chapters, in order, with their titles and page indices |
| Outline.TopLevelFirst | pdf_tools/scripts.py:103-104 | the same for the first `n` chapters |
| Outline.NodeUnder | pdf_tools/scripts.py:104-106 | of one chapter's entries, only its own carries the caller's parent |
| Outline.ChildrenUnderNode | pdf_tools/scripts.py:105-106 | the entries naming a chapter's own entry as parent are exactly its direct children, in order |
| Outline.SampleOutline | pdf_tools/scripts.py:131-140 | the usage example's tree gives five entries, and both sub-chapters hang off entry 1 |
| Images.LowerAscii | pdf_tools/scripts.py:113 | lower-casing leaves no capital and changes only capitals |
| Images.Lower | pdf_tools/scripts.py:113 | lower-casing keeps the length |
| Images.IsImageName | pdf_tools/scripts.py:113 | `f.lower().endswith(IMG_EXT)`: the lowered name ends with one of `.jpg`, `.jpeg`, `.png`, so an image name has at least four code points |
| Images.ImageFiles | pdf_tools/scripts.py:113 | the filter keeps only image names |
| Images.ImageFilesCount | pdf_tools/scripts.py:113 | the filter keeps each image name as often as the listing has it, and drops every other name |
| Images.Insert | pdf_tools/scripts.py:113 | inserting into a sorted list keeps it sorted and adds exactly one copy of the name |
| Images.Sort | pdf_tools/scripts.py:113 | `sorted`: the result is ascending in code-point order and a permutation of the input |
| Images.LessEqTotal | pdf_tools/scripts.py:113 | string order is total |
| Images.LessEqRefl | pdf_tools/scripts.py:113 | string order is reflexive |
| Images.LessEqTrans | pdf_tools/scripts.py:113 | string order is transitive |
| Images.LessEqAntisymmetric | pdf_tools/scripts.py:113 | string order is antisymmetric |
| Images.SortedUnique | pdf_tools/scripts.py:113 | two sorted lists with the same multiset of names are equal |
| Images.SelectImages | pdf_tools/scripts.py:113 | the selection is ascending and holds each image name of the listing as often as the listing does, and nothing else |
| Images.SelectImagesUnique | pdf_tools/scripts.py:113 | the selection is the only list with those properties |
| Images.SelectImagesEmptyIff | pdf_tools/scripts.py:113-116 | the selection is empty exactly when no name in the listing has an image extension |
| Images.ImageNameExamples | pdf_tools/scripts.py:112-113 | the extension test ignores case (`Slide1.PNG`, `slide2.JpEg`) and needs the dot (`png` is not an image name) |
| Scripts.ImagesToPdfWithNestedBookmarks | pdf_tools/scripts.py:108-129 | raises `"No images found in folder!"` exactly when the selection is empty; otherwise a new writer holds one page per selected image in sorted order and, as outline, the chapter tree attached at the top level |
| Scripts.ReplyTitle | pdf_tools/scripts.py:48-50 | the title kept for a reply is 1 to 40 code points long |
| Scripts.ExtractTitlesFromImages | pdf_tools/scripts.py:30-52 | one title per reply, in order, each being the reply stripped and cleaned |
| Scripts.TitlesAreLines | pdf_tools/scripts.py:50-56 | no title holds a line boundary, so written one per line they read back as the same titles |

## Left out

- OpenAI calls, `load_dotenv` and the API key lookup (lines 26-28, 36-47, 67-69, 82-93): network and a foreign client. Each reply is an input string; an absent reply stands for the raised-and-caught path of `extract_outline_from_image`.
- Base64 data-URL encoding (lines 15-19, 71-74): library code plus file reads.
- PIL decoding, RGB conversion and multi-page save (lines 114, 118): image codec. A page is represented by its image's file name.
- PdfReader/PdfWriter serialisation, the temporary file and its removal (lines 117-128): PDF library code. Only the writer's page list and outline entries are kept.
- `merge_pdfs` (lines 142-156): bookmark placement is done inside PyPDF2's merger, and the rest is OS path handling.
- Writing `slide_titles.txt` with its `"i. title"` prefix, `print` and `time.sleep` (lines 49, 52, 54-58, 99, 129): I/O and timing. `TitlesAreLines` covers the one-title-per-line property only.
- Outline.AddOutlineItems: page numbers out of range are excluded by a precondition (`ChaptersFit`), because the source does not check them and PyPDF2 then fails or, for non-positive numbers, wraps around with Python's negative indexing.
- Scripts.ImagesToPdfWithNestedBookmarks: requires the chapter pages to fit the number of images, for the same reason. Images are opened before the emptiness check in the source; opening can fail, and that failure is not modelled.
- Titles.CleanTitle: Python's Unicode `\w` beyond ASCII is left open (a parameter), so claims about non-ASCII letters and digits hold for whatever that table is.
- Images.LowerAscii: only ASCII capitals are lowered; non-ASCII case mappings are not modelled, as they cannot change the result of the extension test.
- Images.Lower: "keeps the length" holds of the model only; Python lowers U+0130 to two code points, which cannot change the extension test either.
- Bullets.ParseOutline: the rare `None` content of a successful reply (which makes `.strip()` raise and so returns `None`) is folded into the absent reply.
- The example `" Hello, World! 2024 "` → `"Hello_World_2024"` is not proved as a lemma.
- Outline.Chapter: chapter dictionaries are modelled as a datatype, so failures of the source on malformed dictionaries cannot arise: a missing "title" or "page" key (KeyError at line 104), `"children": None` (TypeError from `for ch in None` at line 103), and a non-integer "page" (TypeError from `ch["page"] - 1` at line 104).
