/** `process_file`: choose an extractor by file type, cut the extracted text
    into pages at form feeds, segment every page and stamp each passage with
    its 1-based page number. */
module Ingest {
  import opened Wrappers
  import opened Text
  import opened Segmenter

  newtype byte = x: int | 0 <= x < 256

  /** The four extraction routes: PDF text, EPUB document bodies, DOCX
      paragraphs and OCR of an image. */
  datatype Format = Pdf | Epub | Docx | Image

  /** One element of the ingestion output: a passage dictionary after
      `page_number` has been added to it. `isSectionHeading` false stands for
      the key being absent. */
  datatype Chunk = Chunk(pageNumber: nat, paragraphNumber: nat, text: string, embedding: Vector, isSectionHeading: bool)

  /** The file types `process_file` accepts. */
  const SupportedTypes: set<string> := {"pdf", "epub", "docx", "jpg", "jpeg", "png"}

  /** The three image types share one route. */
  const ImageTypes: set<string> := {"jpg", "jpeg", "png"}

  /** The message of the `ValueError` raised for any other file type; it does
      not name the type. */
  const UnsupportedMessage: string := "Unsupported file type"

  /** The page-break marker, the form feed U+000C. */
  const FormFeed: char := 12 as char

  /** The `if`/`elif` chain of `process_file` on the file type. */
  function FormatOf(fileType: string): (f: Option<Format>)
    ensures f.Some? <==> fileType in SupportedTypes
    ensures f == Some(Image) <==> fileType in ImageTypes
    ensures f == Some(Pdf) <==> fileType == "pdf"
    ensures f == Some(Epub) <==> fileType == "epub"
    ensures f == Some(Docx) <==> fileType == "docx"
  {
    if fileType == "pdf" then Some(Pdf)
    else if fileType == "epub" then Some(Epub)
    else if fileType == "docx" then Some(Docx)
    else if fileType == "jpg" || fileType == "jpeg" || fileType == "png" then Some(Image)
    else None
  }

  /** `text.split('\f')`: the pages of the extracted text. There is one more
      page than there are form feeds, no page contains one, and joining the
      pages with form feeds gives the text back. */
  function SplitPages(text: string): (pages: seq<string>)
    ensures |pages| == Count(text, FormFeed) + 1
    ensures forall k :: 0 <= k < |pages| ==> FormFeed !in pages[k]
    ensures Join(pages, [FormFeed]) == text
  {
    SplitCharCount(text, FormFeed);
    JoinSplit(text, [FormFeed]);
    Split(text, [FormFeed])
  }

  /** The empty text is one empty page. */
  lemma EmptyTextIsOnePage()
    ensures SplitPages("") == [""]
  {
    var pages := SplitPages("");
    assert |pages| == 1;
    assert pages[0] == Join(pages, [FormFeed]);
  }

  /** `para["page_number"] = page_num` on one passage. */
  function Stamp(p: Passage, page: nat): (c: Chunk) {
    Chunk(page, p.paragraphNumber, p.text, p.embedding, p.isSectionHeading)
  }

  /** The text of the one passage a page can yield: the page with newline
      runs collapsed, then stripped. Empty for a blank page. */
  function PageText(page: string): (t: string)
    ensures IsStripped(t)
    ensures t == "" <==> AllSpace(CollapseNewlines(page))
  {
    Strip(CollapseNewlines(page))
  }

  /** The chunk page number `n` yields when its text is not blank. */
  function PageChunk(page: string, n: nat, embed: string -> Vector): (c: Chunk) {
    var t := PageText(page);
    Chunk(n, 1, t, embed(t), |t| >= ShortThreshold && HasHeadingPrefix(t))
  }

  /** The chunks of one page: nothing for a blank page, otherwise its single
      passage stamped with the page number. */
  function PageChunks(page: string, pageNumber: nat, embed: string -> Vector): (r: seq<Chunk>)
    ensures PageText(page) == "" ==> r == []
    ensures PageText(page) != "" ==> r == [PageChunk(page, pageNumber, embed)]
  {
    StampAll(SplitIntoParagraphs(page, embed), pageNumber)
  }

  /** The loop that stamps every passage of a page with its page number. */
  function StampAll(ps: seq<Passage>, page: nat): (r: seq<Chunk>)
    ensures |r| == |ps|
    ensures forall k :: 0 <= k < |ps| ==> r[k].pageNumber == page && r[k].text == ps[k].text
    ensures forall k :: 0 <= k < |ps| ==> r[k].paragraphNumber == ps[k].paragraphNumber
    ensures forall k :: 0 <= k < |ps| ==> r[k].isSectionHeading == ps[k].isSectionHeading
    ensures forall k :: 0 <= k < |ps| ==> r[k].embedding == ps[k].embedding
  {
    if ps == [] then [] else [Stamp(ps[0], page)] + StampAll(ps[1..], page)
  }

  /** The chunks of every page, in page order, the first page numbered
      `first`: `paragraphs` for each `page_num` after stamping. */
  function PageGroups(pages: seq<string>, first: nat, embed: string -> Vector): (groups: seq<seq<Chunk>>)
    ensures |groups| == |pages|
    ensures Grouped(groups, first)
    ensures forall i :: 0 <= i < |groups| ==> (groups[i] != [] <==> PageText(pages[i]) != "")
    ensures forall i, c :: 0 <= i < |groups| && c in groups[i] ==> c == PageChunk(pages[i], first + i, embed)
  {
    var groups := seq(|pages|, i requires 0 <= i < |pages| => GroupOf(pages, first, embed, i));
    PageGroupsShape(pages, first, embed, groups);
    groups
  }

  /** The group of page `i`, numbered from `first`. */
  function GroupOf(pages: seq<string>, first: nat, embed: string -> Vector, i: nat): seq<Chunk>
    requires i < |pages|
  {
    PageChunks(pages[i], first + i, embed)
  }

  lemma PageGroupsShape(pages: seq<string>, first: nat, embed: string -> Vector, groups: seq<seq<Chunk>>)
    requires |groups| == |pages|
    requires forall i :: 0 <= i < |pages| ==> groups[i] == GroupOf(pages, first, embed, i)
    ensures Grouped(groups, first)
    ensures forall i :: 0 <= i < |groups| ==> (groups[i] != [] <==> PageText(pages[i]) != "")
    ensures forall i, c :: 0 <= i < |groups| && c in groups[i] ==> c == PageChunk(pages[i], first + i, embed)
  {
  }

  /** Every group holds at most one chunk, stamped with the group's page
      number. */
  ghost predicate Grouped(groups: seq<seq<Chunk>>, first: nat) {
    forall i :: 0 <= i < |groups| ==>
      |groups[i]| <= 1 && forall c :: c in groups[i] ==> c.pageNumber == first + i
  }

  /** Page numbers in `[first, first + count)`. */
  ghost predicate NumberedFrom(r: seq<Chunk>, first: nat, count: nat) {
    forall k :: 0 <= k < |r| ==> first <= r[k].pageNumber < first + count
  }

  /** Page numbers strictly increasing along the sequence. */
  ghost predicate Increasing(r: seq<Chunk>) {
    forall i, j :: 0 <= i < j < |r| ==> r[i].pageNumber < r[j].pageNumber
  }

  /** The page numbers that occur in the chunks. */
  ghost function PageNumbers(r: seq<Chunk>): set<nat> {
    set k | 0 <= k < |r| :: r[k].pageNumber
  }

  /** The numbers of the pages whose group is not empty. */
  ghost function NonEmptyGroups(groups: seq<seq<Chunk>>, first: nat): set<nat> {
    set i | 0 <= i < |groups| && groups[i] != [] :: first + i
  }

  lemma PageNumbersAppend(head: seq<Chunk>, tail: seq<Chunk>)
    ensures PageNumbers(head + tail) == PageNumbers(head) + PageNumbers(tail)
  {
    var r := head + tail;
    forall n | n in PageNumbers(r) ensures n in PageNumbers(head) + PageNumbers(tail) {
      var k :| 0 <= k < |r| && r[k].pageNumber == n;
      if k < |head| {
        assert r[k] == head[k];
      } else {
        assert r[k] == tail[k - |head|];
      }
    }
    forall n | n in PageNumbers(head) + PageNumbers(tail) ensures n in PageNumbers(r) {
      if n in PageNumbers(head) {
        var k :| 0 <= k < |head| && head[k].pageNumber == n;
        assert r[k] == head[k];
      } else {
        var k :| 0 <= k < |tail| && tail[k].pageNumber == n;
        assert r[|head| + k] == tail[k];
      }
    }
  }

  lemma NonEmptyGroupsCons(groups: seq<seq<Chunk>>, first: nat)
    requires |groups| > 0
    ensures NonEmptyGroups(groups, first)
            == (if groups[0] != [] then {first} else {}) + NonEmptyGroups(groups[1..], first + 1)
  {
    var rest := groups[1..];
    forall n | n in NonEmptyGroups(groups, first)
      ensures n in (if groups[0] != [] then {first} else {}) + NonEmptyGroups(rest, first + 1)
    {
      var i :| 0 <= i < |groups| && groups[i] != [] && n == first + i;
      if i > 0 {
        assert rest[i - 1] == groups[i];
      }
    }
    forall n | n in (if groups[0] != [] then {first} else {}) + NonEmptyGroups(rest, first + 1)
      ensures n in NonEmptyGroups(groups, first)
    {
      if n !in NonEmptyGroups(rest, first + 1) {
        assert n == first && groups[0] != [];
      } else {
        var i :| 0 <= i < |rest| && rest[i] != [] && n == first + 1 + i;
        assert groups[i + 1] == rest[i];
      }
    }
  }

  lemma AppendIncreasing(head: seq<Chunk>, tail: seq<Chunk>, first: nat, count: nat)
    requires |head| <= 1 && (head == [] || head[0].pageNumber == first)
    requires NumberedFrom(tail, first + 1, count) && Increasing(tail)
    ensures Increasing(head + tail)
  {
    var r := head + tail;
    forall i, j | 0 <= i < j < |r| ensures r[i].pageNumber < r[j].pageNumber {
      assert r[j] == tail[j - |head|];
      if i >= |head| {
        assert r[i] == tail[i - |head|];
      }
    }
  }

  lemma AppendInGroups(groups: seq<seq<Chunk>>, tail: seq<Chunk>, first: nat)
    requires |groups| > 0 && Grouped(groups, first)
    requires NumberedFrom(tail, first + 1, |groups| - 1)
    requires forall k :: 0 <= k < |tail| ==> tail[k] in groups[1..][tail[k].pageNumber - (first + 1)]
    ensures NumberedFrom(groups[0] + tail, first, |groups|)
    ensures forall k :: 0 <= k < |groups[0] + tail| ==>
              (groups[0] + tail)[k] in groups[(groups[0] + tail)[k].pageNumber - first]
  {
    var head := groups[0];
    var r := head + tail;
    forall k | 0 <= k < |r|
      ensures first <= r[k].pageNumber < first + |groups|
      ensures r[k] in groups[r[k].pageNumber - first]
    {
      if k < |head| {
        assert r[k] == head[k] && head[k] in groups[0];
      } else {
        var c := tail[k - |head|];
        assert r[k] == c;
        assert groups[1..][c.pageNumber - (first + 1)] == groups[c.pageNumber - first];
      }
    }
  }

  /** The page loop of `process_file`: the groups concatenated in page
      order. At most one chunk per page, page numbers strictly increasing,
      every chunk taken from the group of its own page, and exactly the pages
      with a non-empty group represented. */
  function Flatten(groups: seq<seq<Chunk>>, first: nat): (r: seq<Chunk>)
    requires Grouped(groups, first)
    decreases |groups|
    ensures |r| <= |groups|
    ensures NumberedFrom(r, first, |groups|)
    ensures Increasing(r)
    ensures forall k :: 0 <= k < |r| ==> r[k] in groups[r[k].pageNumber - first]
    ensures PageNumbers(r) == NonEmptyGroups(groups, first)
  {
    if |groups| == 0 then []
    else
      var head := groups[0];
      assert Grouped(groups[1..], first + 1) by {
        forall i | 0 <= i < |groups[1..]|
          ensures |groups[1..][i]| <= 1 && forall c :: c in groups[1..][i] ==> c.pageNumber == first + 1 + i
        {
          assert groups[1..][i] == groups[i + 1];
        }
      }
      var tail := Flatten(groups[1..], first + 1);
      assert head == [] || head == [head[0]];
      AppendInGroups(groups, tail, first);
      AppendIncreasing(head, tail, first, |groups| - 1);
      PageNumbersAppend(head, tail);
      NonEmptyGroupsCons(groups, first);
      assert PageNumbers(head) == if head != [] then {first} else {} by {
        if head != [] { assert head[0] in groups[0]; }
      }
      head + tail
  }

  /** The chunks of a document whose pages are `pages`: each numbered with
      a page, each the passage of its own page, page numbers strictly
      increasing, and a page represented exactly when its text is not
      blank. */
  ghost predicate ChunksOfDocument(r: seq<Chunk>, pages: seq<string>, embed: string -> Vector) {
    NumberedFrom(r, 1, |pages|) && FromOwnPages(r, pages, embed) && Increasing(r) && VisiblePagesRepresented(r, pages)
  }

  /** Every chunk numbered with a page is the passage of that page. */
  ghost predicate FromOwnPages(r: seq<Chunk>, pages: seq<string>, embed: string -> Vector) {
    forall k :: 0 <= k < |r| && 1 <= r[k].pageNumber <= |pages| ==>
      r[k] == PageChunk(pages[r[k].pageNumber - 1], r[k].pageNumber, embed)
  }

  /** A page number occurs exactly when that page's text is not blank. */
  ghost predicate VisiblePagesRepresented(r: seq<Chunk>, pages: seq<string>) {
    forall n :: n in PageNumbers(r) <==> 1 <= n <= |pages| && PageText(pages[n - 1]) != ""
  }

  /** Everything after extraction: split into pages, segment each page, stamp
      its passages with its number counting from 1, and concatenate. */
  function ProcessText(text: string, embed: string -> Vector): (r: seq<Chunk>)
    ensures |r| <= |SplitPages(text)|
    ensures ChunksOfDocument(r, SplitPages(text), embed)
  {
    var pages := SplitPages(text);
    var groups := PageGroups(pages, 1, embed);
    var r := Flatten(groups, 1);
    ChunksOfPages(pages, groups, r, embed);
    r
  }

  /** The flattened page groups, stated against the pages themselves. */
  lemma ChunksOfPages(pages: seq<string>, groups: seq<seq<Chunk>>, r: seq<Chunk>, embed: string -> Vector)
    requires |groups| == |pages|
    requires forall i :: 0 <= i < |groups| ==> (groups[i] != [] <==> PageText(pages[i]) != "")
    requires forall i, c :: 0 <= i < |groups| && c in groups[i] ==> c == PageChunk(pages[i], 1 + i, embed)
    requires |r| <= |groups| && NumberedFrom(r, 1, |groups|) && Increasing(r)
    requires forall k :: 0 <= k < |r| ==> r[k] in groups[r[k].pageNumber - 1]
    requires PageNumbers(r) == NonEmptyGroups(groups, 1)
    ensures ChunksOfDocument(r, pages, embed)
  {
    ChunksFromOwnPage(pages, groups, r, embed);
    PagesRepresented(pages, groups, r);
  }

  /** A chunk found in its page's group is that page's passage. */
  lemma ChunksFromOwnPage(pages: seq<string>, groups: seq<seq<Chunk>>, r: seq<Chunk>, embed: string -> Vector)
    requires |groups| == |pages| && NumberedFrom(r, 1, |groups|)
    requires forall i, c :: 0 <= i < |groups| && c in groups[i] ==> c == PageChunk(pages[i], 1 + i, embed)
    requires forall k :: 0 <= k < |r| ==> r[k] in groups[r[k].pageNumber - 1]
    ensures FromOwnPages(r, pages, embed)
  {
  }

  /** The pages with a chunk are the pages with visible text. */
  lemma PagesRepresented(pages: seq<string>, groups: seq<seq<Chunk>>, r: seq<Chunk>)
    requires |groups| == |pages|
    requires forall i :: 0 <= i < |groups| ==> (groups[i] != [] <==> PageText(pages[i]) != "")
    requires PageNumbers(r) == NonEmptyGroups(groups, 1)
    ensures VisiblePagesRepresented(r, pages)
  {
    NonBlankGroups(groups, pages);
  }

  /** The pages with a non-empty group are the pages whose text is not blank. */
  lemma NonBlankGroups(groups: seq<seq<Chunk>>, pages: seq<string>)
    requires |groups| == |pages|
    requires forall i :: 0 <= i < |groups| ==> (groups[i] != [] <==> PageText(pages[i]) != "")
    ensures forall n :: n in NonEmptyGroups(groups, 1) <==> 1 <= n <= |pages| && PageText(pages[n - 1]) != ""
  {
    forall n ensures n in NonEmptyGroups(groups, 1) <==> 1 <= n <= |pages| && PageText(pages[n - 1]) != "" {
      assert n in NonEmptyGroups(groups, 1) <==> 1 <= n <= |pages| && groups[n - 1] != [];
    }
  }
  /** `process_file(file_stream, file_type)`: the unsupported-type error, or
      the chunks of the text the chosen extractor returns. The extractors
      themselves are the parameter `extract`. */
  function ProcessFile(content: seq<byte>, fileType: string, extract: (seq<byte>, Format) -> string,
                       embed: string -> Vector): (r: Result<seq<Chunk>, string>)
    ensures r.Failure? <==> fileType !in SupportedTypes
    ensures r.Failure? ==> r.error == UnsupportedMessage
    ensures r.Success? ==> exists f :: FormatOf(fileType) == Some(f) && r.value == ProcessText(extract(content, f), embed)
  {
    match FormatOf(fileType)
    case None => Failure(UnsupportedMessage)
    case Some(f) => Success(ProcessText(extract(content, f), embed))
  }
}
