/** The two HTTP endpoints: `/api/upload` and `/api/answer`, with the
    request reduced to the values the handlers read and the response to
    either a result or the `HTTPException` raised. */
module Api {
  import opened Wrappers
  import opened Text
  import opened Segmenter
  import opened Ingest
  import opened Ranking

  /** An `HTTPException`: status code and detail text. */
  datatype ApiError = ApiError(status: int, detail: string)

  /** The fields of the `/api/answer` body; `None` is a missing key. */
  datatype AnswerRequest = AnswerRequest(question: Option<string>, chunks: Option<seq<Chunk>>, limit: Option<int>)

  /** One entry of the `answers` list. */
  datatype AnswerItem = AnswerItem(pageNumber: nat, text: string)

  const BadRequest: int := 400
  const ServerError: int := 500
  const QuestionRequired: string := "Question is required"
  const ChunksRequired: string := "Chunks are required"

  /** The number of answers when the request gives no limit. */
  const DefaultLimit: int := 5

  /** `file.filename.rsplit('.', 1)[-1].lower()`: the lower-cased text after
      the last dot, or the whole lower-cased name when there is no dot. */
  function FileExtension(filename: string): (ext: string)
    ensures |ext| <= |filename|
    ensures '.' !in ext
    ensures forall k :: 0 <= k < |ext| ==> !('A' <= ext[k] <= 'Z')
    ensures '.' !in filename ==> ext == Lower(filename)
  {
    var parts := RSplitOnce(filename, '.');
    var last := parts[|parts| - 1];
    assert |last| <= |filename| by {
      if |parts| == 2 {
        assert filename == parts[0] + "." + last;
      }
    }
    var ext := Lower(last);
    assert '.' !in ext by {
      forall k | 0 <= k < |ext| ensures ext[k] != '.' {
        assert last[k] != '.';
      }
    }
    ext
  }

  /** Whatever comes before the last dot, the extension is the lower-cased
      text after it. */
  lemma ExtensionAfterLastDot(stem: string, ext: string)
    requires '.' !in ext
    ensures FileExtension(stem + "." + ext) == Lower(ext)
  {
    AfterLastOf(stem, '.', ext);
  }

  /** `upload_file`: the chunks of the uploaded file, or 400 with the
      `ValueError` message when the extension is not a supported type. */
  function Upload(filename: string, content: seq<byte>, extract: (seq<byte>, Format) -> string,
                  embed: string -> Vector): (r: Result<seq<Chunk>, ApiError>)
    ensures r.Failure? <==> FileExtension(filename) !in SupportedTypes
    ensures r.Failure? ==> r.error == ApiError(BadRequest, UnsupportedMessage)
    ensures r.Success? ==> FormatOf(FileExtension(filename)).Some?
    ensures r.Success? ==> r.value == ProcessText(extract(content, FormatOf(FileExtension(filename)).value), embed)
  {
    match ProcessFile(content, FileExtension(filename), extract, embed)
    case Failure(message) => Failure(ApiError(BadRequest, message))
    case Success(chunks) => Success(chunks)
  }

  /** Upper-case extensions are accepted like their lower-case forms. */
  lemma UpperCasePdfAccepted(stem: string, content: seq<byte>, extract: (seq<byte>, Format) -> string,
                             embed: string -> Vector)
    ensures Upload(stem + ".PDF", content, extract, embed) == Success(ProcessText(extract(content, Pdf), embed))
  {
    UpperCasePdfExtension(stem);
    PdfUpload(stem + ".PDF", content, extract, embed);
  }

  lemma UpperCasePdfExtension(stem: string)
    ensures FileExtension(stem + ".PDF") == "pdf"
  {
    assert stem + ".PDF" == stem + "." + "PDF";
    ExtensionAfterLastDot(stem, "PDF");
    assert LowerChar('P') == 'p' && LowerChar('D') == 'd' && LowerChar('F') == 'f';
  }

  /** A file whose extension is `pdf` takes the PDF route. */
  lemma PdfUpload(filename: string, content: seq<byte>, extract: (seq<byte>, Format) -> string,
                  embed: string -> Vector)
    requires FileExtension(filename) == "pdf"
    ensures Upload(filename, content, extract, embed) == Success(ProcessText(extract(content, Pdf), embed))
  {
    assert FormatOf("pdf") == Some(Pdf);
  }

  /** Only the text after the last dot counts: a `.pdf.gz` name is type
      `gz` and is refused. */
  lemma DoubleExtensionRefused(stem: string, content: seq<byte>, extract: (seq<byte>, Format) -> string,
                               embed: string -> Vector)
    ensures Upload(stem + ".pdf.gz", content, extract, embed) == Failure(ApiError(BadRequest, UnsupportedMessage))
  {
    DoubleExtensionIsGz(stem);
    assert "gz" !in SupportedTypes;
  }

  lemma DoubleExtensionIsGz(stem: string)
    ensures FileExtension(stem + ".pdf.gz") == "gz"
  {
    assert stem + ".pdf.gz" == (stem + ".pdf") + "." + "gz";
    ExtensionAfterLastDot(stem + ".pdf", "gz");
    assert LowerChar('g') == 'g' && LowerChar('z') == 'z';
  }

  /** The `page_number` and `text` of a chunk. */
  function Project(c: Chunk): AnswerItem {
    AnswerItem(c.pageNumber, c.text)
  }

  /** The `answers` list of the ranked chunks. */
  function Answers(ranked: seq<Scored>): seq<AnswerItem> {
    seq(|ranked|, k requires 0 <= k < |ranked| => Project(ranked[k].chunk))
  }

  /** Every chunk paired with its similarity to the question, in input order,
      when no similarity computation fails. */
  ghost function Similarities(question: Vector, chunks: seq<Chunk>,
                              similarity: (Vector, Vector) -> Result<real, string>): seq<Scored>
    requires forall k :: 0 <= k < |chunks| ==> similarity(question, chunks[k].embedding).Success?
  {
    seq(|chunks|, k requires 0 <= k < |chunks| => Scored(chunks[k], similarity(question, chunks[k].embedding).value))
  }

  /** Some chunk's similarity computation fails. */
  ghost predicate SomeSimilarityFails(question: Vector, chunks: seq<Chunk>,
                                      similarity: (Vector, Vector) -> Result<real, string>) {
    exists k :: 0 <= k < |chunks| && similarity(question, chunks[k].embedding).Failure?
  }

  /** `get_answers`: 400 for a missing or empty question, then 400 for a
      missing or empty chunk list, 500 when a similarity cannot be computed,
      and otherwise the page number and text of the best-scoring chunks. */
  function Answer(request: AnswerRequest, embed: string -> Vector,
                  similarity: (Vector, Vector) -> Result<real, string>): (r: Result<seq<AnswerItem>, ApiError>)
    ensures var question := request.question.GetOr("");
            r == Failure(ApiError(BadRequest, QuestionRequired)) <==> question == ""
    ensures var question, chunks := request.question.GetOr(""), request.chunks.GetOr([]);
            r == Failure(ApiError(BadRequest, ChunksRequired)) <==> question != "" && chunks == []
    ensures var question, chunks := request.question.GetOr(""), request.chunks.GetOr([]);
            r.Failure? && r.error.status == ServerError <==>
              question != "" && chunks != [] && SomeSimilarityFails(embed(question), chunks, similarity)
    ensures var question, chunks := request.question.GetOr(""), request.chunks.GetOr([]);
            r.Failure? && r.error.status == ServerError ==>
              exists k :: FirstFailure(embed(question), chunks, similarity, k, r.error.detail)
    ensures r.Success? ==> |r.value| == SliceLength(|request.chunks.GetOr([])|, request.limit.GetOr(DefaultLimit))
  {
    var question := request.question.GetOr("");
    var chunks := request.chunks.GetOr([]);
    var limit := request.limit.GetOr(DefaultLimit);
    if question == "" then Failure(ApiError(BadRequest, QuestionRequired))
    else if chunks == [] then Failure(ApiError(BadRequest, ChunksRequired))
    else
      match ScoreChunks(embed(question), chunks, similarity)
      case Failure(e) => Failure(ApiError(ServerError, e))
      case Success(scored) =>
        Success(Answers(Rank(scored, limit)))
  }

  /** When the question and the chunk list are present and every similarity
      can be computed, the answer succeeds and is the ranking of every chunk
      by its similarity to the question, cut to the limit. */
  lemma AnswerIsRanked(request: AnswerRequest, embed: string -> Vector,
                       similarity: (Vector, Vector) -> Result<real, string>)
    requires request.question.GetOr("") != "" && request.chunks.GetOr([]) != []
    requires var question, chunks := request.question.GetOr(""), request.chunks.GetOr([]);
             forall k :: 0 <= k < |chunks| ==> similarity(embed(question), chunks[k].embedding).Success?
    ensures var question, chunks := request.question.GetOr(""), request.chunks.GetOr([]);
            Answer(request, embed, similarity)
              == Success(Answers(Rank(Similarities(embed(question), chunks, similarity), request.limit.GetOr(DefaultLimit))))
  {
    var question := request.question.GetOr("");
    var chunks := request.chunks.GetOr([]);
    var r := ScoreChunks(embed(question), chunks, similarity);
    assert r.Success?;
    assert r.value == Similarities(embed(question), chunks, similarity);
  }

  /** Such an answer lists the best chunks first: it is the projection of a
      sorted selection of the scored chunks, nothing left out scores higher
      than anything kept, and chunks of equal score keep their input order. */
  lemma AnswerIsBestFirst(request: AnswerRequest, embed: string -> Vector,
                          similarity: (Vector, Vector) -> Result<real, string>) returns (ranked: seq<Scored>)
    requires request.question.GetOr("") != "" && request.chunks.GetOr([]) != []
    requires var question, chunks := request.question.GetOr(""), request.chunks.GetOr([]);
             forall k :: 0 <= k < |chunks| ==> similarity(embed(question), chunks[k].embedding).Success?
    ensures var question, chunks := request.question.GetOr(""), request.chunks.GetOr([]);
            var all := Similarities(embed(question), chunks, similarity);
            && NonIncreasing(ranked)
            && multiset(ranked) <= multiset(all)
            && (forall x, y :: x in ranked && y in multiset(all) - multiset(ranked) ==> y.score <= x.score)
            && (forall v :: WithScore(ranked, v) <= WithScore(all, v))
    ensures Answer(request, embed, similarity).Success?
    ensures var answers := Answer(request, embed, similarity).value;
            |ranked| == |answers| && forall i :: 0 <= i < |ranked| ==> answers[i] == Project(ranked[i].chunk)
  {
    AnswerIsRanked(request, embed, similarity);
    var question := request.question.GetOr("");
    var chunks := request.chunks.GetOr([]);
    var all := Similarities(embed(question), chunks, similarity);
    ranked := Rank(all, request.limit.GetOr(DefaultLimit));
  }
}
