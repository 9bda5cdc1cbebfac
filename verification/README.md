# bookmuncha backend core in Dafny

This project models the text-processing and ranking core of the bookmuncha
backend (`backend/app.py`), a FastAPI service that cuts uploaded books into
passages and answers questions by similarity ranking.

- **`split_into_paragraphs`** (module `Segmenter`) turns one page of text
  into passage records. It collapses newline runs, splits on blank lines,
  strips every candidate, re-splits short candidates and flags long ones
  that open with `Chapter <digits>` or `Section <digits>`.
- **`process_file`** (module `Ingest`) chooses an extractor by file type
  and cuts the text into pages at form feeds. It segments every page,
  stamps each passage with its 1-based page number and concatenates the
  results in page order.
- **`upload_file`** and **`get_answers`** (module `Api`) handle requests.
  `upload_file` derives the file type from the name and turns the
  unsupported-type `ValueError` into status 400. `get_answers` rejects an
  empty question, then empty chunks. It scores every chunk, sorts by score
  (highest first, stable), cuts the list to `limit` and returns
  `(page_number, text)` pairs.

Supporting modules:
- `Text` holds the Python string primitives these rely on: `strip`,
  `split`, `rsplit(sep, 1)`, `lower` and `re.sub(r'\n+', '\n', s)`.
- `Ranking` holds the stable descending sort, Python slicing and the
  scoring loop.
- `Wrappers` holds `Option` and `Result`, which stand for `None`, missing
  keys and raised exceptions.

The central result is the contract of `Segmenter.SplitIntoParagraphs`: because the newline collapse leaves no blank line behind, a page yields at most one passage, numbered 1, holding the whole page with newline runs collapsed, then stripped.

- Line 37 rewrites every run of newlines as a single newline before line
  40 splits on `"\n\n"`, so that split always returns the page whole.
- The re-split on line 52 could not cut anything even without the
  collapse. It splits a stripped piece of the line-40 split on the same
  separator, and no such piece contains it (`Segmenter.ResplitNeverCuts`).
- As a result, a page yields at most one passage. That passage is numbered 1
  and holds the whole page with newline runs collapsed, then stripped,
  whichever branch emits it.
- The comment on line 39 says the split on `"\n\n"` creates a rough
  paragraph structure; the collapse on line 37 defeats it. The comment on
  line 51 says a short paragraph is split further; line 52 cannot do so,
  because line 40 already split on the same separator.
  `Segmenter.HeadingScenario` shows the effect on a page of a heading line,
  a long line, a blank line and a short line. It yields one heading-flagged
  passage holding the three lines joined by single newlines, not a heading
  passage followed by a separate short one.

## Model

| member | source | states |
|---|---|---|
| Text.Strip | backend/app.py:46 | the result has no whitespace at either end, is no longer than the input, and is empty exactly when the input is all whitespace |
| Text.StripIsSlice | backend/app.py:46 | strip keeps one contiguous slice of its input and removes only whitespace before and after it |
| Text.StripOfStripped | backend/app.py:54 | stripping an already stripped text changes nothing, so the second strip of a sub-paragraph is idempotent |
| Text.FindFrom | backend/app.py:40 | returns the first occurrence of the separator at or after the start position, or None when there is none |
| Text.Split | backend/app.py:40 | `str.split(sep)` yields at least one piece; every piece is no longer than the input and contains no separator |
| Text.JoinSplit | backend/app.py:88 | joining the pieces of a split with the same separator restores the input |
| Text.SplitCharCount | backend/app.py:88 | splitting on one character gives one more piece than there are occurrences of it, and no piece contains it |
| Text.SplitCharUnique | backend/app.py:88 | any non-empty list of pieces free of the character that joins back to the input is that input's split |
| Text.CollapseNewlines | backend/app.py:37 | the result has no blank line (`"\n\n"`), is no longer than the input, keeps the first character and uses only input characters |
| Text.CollapseNoBlankLine | backend/app.py:37 | a text without a blank line is a fixed point of the collapse, so the collapse is idempotent |
| Text.CollapseKeepsText | backend/app.py:37 | the collapse removes only newlines; every other character survives in order |
| Text.NoBlankLineNoParagraphBreak | backend/app.py:37-40 | a text without a blank line does not contain the `"\n\n"` separator |
| Text.AfterLast | backend/app.py:125 | the text after the last occurrence of the character, which contains none; the whole text when the character is absent |
| Text.RSplitOnce | backend/app.py:125 | `rsplit(c, 1)` gives one piece exactly when `c` is absent, otherwise two; joining them with `c` restores the input and the last piece has no `c` |
| Text.AfterLastOf | backend/app.py:125 | for `a + c + b` with no `c` in `b`, the part after the last `c` is `b` whatever `a` contains |
| Text.Lower | backend/app.py:125 | lower-casing keeps the length, maps each character on its own and leaves no upper-case ASCII letter |
| Segmenter.DigitRun | backend/app.py:63 | the length of the leading digit run: all counted characters are digits and the next one is not |
| Segmenter.MatchHeading | backend/app.py:63 | the anchored heading pattern matches exactly when the text starts with `Chapter ` or `Section ` and a digit; the match ends after the whole digit run |
| Segmenter.SubPassages | backend/app.py:52-60 | the short branch emits, in order, one unflagged passage under the parent's number for each piece whose stripped text is not empty, holding that stripped text and its embedding |
| Segmenter.KeptTextsMember | backend/app.py:53-56 | a text is kept by the short branch exactly when it is the non-empty strip of some piece |
| Segmenter.ResplitNeverCuts | backend/app.py:40-52 | re-splitting a stripped piece of the split on `"\n\n"` on the same separator returns that piece whole |
| Segmenter.Candidate | backend/app.py:45-78 | a candidate of 50 or more stripped characters is emitted whole as its stripped text, flagged exactly when it matches the heading pattern; a candidate without a blank line is emitted whole, or not at all when blank; every passage carries the candidate's number and is well formed |
| Segmenter.ShortBranch | backend/app.py:49-60 | a short candidate yields, in order, one unflagged passage under its number for each non-empty stripped piece of its split on blank lines; every passage is well formed, and a short candidate without a blank line yields itself or nothing |
| Segmenter.Candidates | backend/app.py:44-78 | the passages numbered `first + i` are exactly those of candidate `i`, in order; every passage is numbered within the candidate range and well formed, and numbers never decrease |
| Segmenter.SplitIntoParagraphs | backend/app.py:35-80 | the whole segmenter yields nothing for a page that is blank after collapsing, otherwise exactly one passage numbered 1 holding the stripped collapsed page, flagged as a heading exactly when at least 50 long and matching the heading pattern; every passage is well formed and paragraph numbers never decrease |
| Segmenter.CandidatesCollapse | backend/app.py:37-80 | on a collapsed page both paragraph splits return the page whole, so the candidate loop emits exactly the one passage of its stripped text or nothing |
| Segmenter.AtMostOnePassagePerPage | backend/app.py:37-52 | a page yields at most one passage and every passage is numbered 1 |
| Segmenter.BlankPageYieldsNothing | backend/app.py:46-73 | a whitespace-only page yields no passage |
| Segmenter.VisiblePageYieldsOne | backend/app.py:37-76 | a page with visible text yields exactly one passage whose text is the stripped collapsed page |
| Segmenter.CollapseBlankLine | backend/app.py:37 | the blank line between two lines collapses to one newline and the lines are kept |
| Segmenter.BlankLineDoesNotSeparate | backend/app.py:37-40 | a page `a + "\n\n" + b` segments exactly like `a + "\n" + b`: the blank line never separates passages |
| Segmenter.HeadingScenario | backend/app.py:35-80 | a heading line, a long line, a blank line and a short line yield one heading-flagged passage numbered 1 holding the three lines joined by single newlines |
| Ingest.FormatOf | backend/app.py:85-108 | a type is handled exactly when it is one of the six supported types; the image route serves exactly jpg, jpeg and png, and the PDF, EPUB and DOCX routes exactly pdf, epub and docx |
| Ingest.SplitPages | backend/app.py:88 | there is one more page than form feeds, no page contains one, and joining the pages with form feeds restores the text |
| Ingest.EmptyTextIsOnePage | backend/app.py:88 | the empty text is a single empty page |
| Ingest.PageText | backend/app.py:37-46 | a page's passage text is stripped, and empty exactly when the collapsed page is all whitespace |
| Ingest.PageChunks | backend/app.py:113-116 | a page yields nothing when its text is blank, otherwise the single passage of its text stamped with the page number |
| Ingest.StampAll | backend/app.py:113-115 | stamping keeps every passage, in order, with its text, paragraph number, embedding and heading flag, and sets its page number |
| Ingest.PageGroups | backend/app.py:112-116 | per page at most one chunk, stamped with that page's number; the group is non-empty exactly when the page text is not blank |
| Ingest.Flatten | backend/app.py:111-118 | the concatenation has at most one chunk per page, page numbers in range and strictly increasing, each chunk from its own page's group, and exactly the pages with a chunk represented |
| Ingest.NonBlankGroups | backend/app.py:112-113 | the pages with a chunk are exactly the pages whose collapsed, stripped text is not empty |
| Ingest.ProcessText | backend/app.py:88-118 | at most one chunk per page; each chunk's page number is the 1-based index of its page and the chunk is that page's passage; page numbers strictly increase; a page number occurs exactly when that page's text is not blank |
| Ingest.ProcessFile | backend/app.py:82-118 | fails exactly for unsupported types, with the message "Unsupported file type"; otherwise gives the chunks of the text extracted by the route for the type |
| Ranking.WithScoreIn | backend/app.py:159 | everything in the class of a score is an input element with that score |
| Ranking.WithScoreHas | backend/app.py:159 | every input element with a score is in that score's class |
| Ranking.Insert | backend/app.py:159 | insertion adds exactly the new element and puts either it or the old head first |
| Ranking.InsertSorted | backend/app.py:159 | inserting into a sorted sequence keeps it sorted |
| Ranking.InsertClasses | backend/app.py:159 | inserting into a sorted sequence puts the new element after every element of equal score and changes no other score class |
| Ranking.StableSort | backend/app.py:159 | `sort(key=score, reverse=True)` is sorted highest first, is a permutation of its input, and keeps the input order of equal scores |
| Ranking.SortedWithSameClassesEqual | backend/app.py:159 | two sorted sequences whose equal-score runs agree are equal |
| Ranking.StableSortUnique | backend/app.py:159 | any sorted sequence that keeps every equal-score run in input order is the stable sort: the sort has exactly one possible result |
| Ranking.Slice | backend/app.py:160 | `s[:limit]` is a prefix of `s`; for a non-negative limit it has at most `limit` elements and is all of `s` when shorter than `limit`; for a negative limit it drops at most `-limit` elements from the end, and exactly that many unless nothing is left |
| Ranking.Rank | backend/app.py:159-160 | the ranked list has the sliced length, is sorted highest first and takes each input element at most as often as it occurs; nothing left out scores higher than anything kept; among equal scores the kept elements are the first of them in input order |
| Ranking.ScoreChunks | backend/app.py:148-157 | succeeds exactly when every similarity succeeds, and then pairs each chunk with its similarity in input order; otherwise fails with the message of the first failing chunk |
| Api.FileExtension | backend/app.py:125 | the file type has no dot and no upper-case ASCII letter, is no longer than the name, and is the whole lower-cased name when there is no dot |
| Api.ExtensionAfterLastDot | backend/app.py:125 | the file type of `stem.ext` is the lower-cased `ext` whatever the stem contains |
| Api.Upload | backend/app.py:121-133 | fails exactly when the file type is not supported, with status 400 and "Unsupported file type"; otherwise returns the chunks of the text extracted for the type |
| Api.UpperCasePdfAccepted | backend/app.py:125-131 | a name ending in `.PDF` is processed as a PDF |
| Api.DoubleExtensionRefused | backend/app.py:125-131 | a name ending in `.pdf.gz` has type `gz` and is refused with 400 |
| Api.Answer | backend/app.py:137-168 | 400 "Question is required" exactly when the question is missing or empty; 400 "Chunks are required" exactly when the question is present and the chunks missing or empty; 500 exactly when both are present and some similarity fails, with the message of the first failing similarity as detail; otherwise as many answers as the limit leaves |
| Api.AnswerIsRanked | backend/app.py:148-163 | with a question, a non-empty chunk list and every similarity computable, the request succeeds and its answers are the projection of all chunks ranked by similarity and cut to the limit |
| Api.AnswerIsBestFirst | backend/app.py:148-163 | under the same conditions the request succeeds and its answer is the `(page_number, text)` projection of a selection of the scored chunks that is sorted highest first, leaves out nothing better than it keeps, and keeps equal scores in input order |

## Left out

- Text extraction (pdfminer, ebooklib, python-docx, PIL and pytesseract, lines 86-106) is foreign library code. It is the parameter `extract: (seq<byte>, Format) -> string`. Also outside the model: the EPUB document concatenation and UTF-8 decoding, the DOCX `"\n".join` of paragraphs, and the exceptions the extractors raise.
- The sentence embedding model (lines 33, 59, 68, 77, 149) is a neural network. It is the parameter `embed: string -> Vector`.
- Cosine similarity with numpy (lines 153-156) is floating-point work. It is the parameter `similarity: (Vector, Vector) -> Result<real, string>`, whose failure stands for a numpy exception such as mismatched shapes. A zero norm gives NaN in numpy rather than an exception, and NaN makes the sort order unspecified. Scores are exact reals here, so NaN is not modelled.
- Ranking.ScoreChunks: the question is embedded inside the `try` block. An exception from the embedding model would also give status 500, but `embed` is total here.
- Api.Answer: `int(data.get("limit", 5))` coercion of non-integer values is not modelled. The limit is an optional integer defaulting to 5, and negative limits follow Python slicing. An explicit JSON `null` question or chunk list counts as missing, like Python's falsy `None`.
- Api.Answer: chunk dictionaries are well-typed `Chunk` values, so the `KeyError` of a chunk without `embedding` is not modelled.
- FastAPI routing, CORS, JSON marshalling and uvicorn startup (lines 16-29, 170-172), the async file read on line 128 and the `JSONResponse` wrapping on line 133 are transport and I/O. Requests and responses are reduced to the values the handlers read and return.
- Text.Strip: whitespace is the ASCII part of `str.isspace` (code points 9-13, 28-31 and 32). The Unicode spaces Python also strips are not modelled.
- Text.Lower: only ASCII letters are lower-cased, not the full Unicode case mapping.
- Segmenter.MatchHeading: `\d` matches only the ASCII digits 0-9, not every Unicode decimal digit.
- The `is_section_heading` key is present only when true in the source. Here it is a boolean field that is false when the key is absent.
