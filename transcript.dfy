/**
 * The transcript endpoint (`get_transcript`): request validation, the call to the upstream
 * provider with a language priority list, the two output formats with their metrics, and
 * the classification of upstream failures by the text of their message.
 *
 * The upstream provider is a parameter: `fetch(videoId, languages)` is what its
 * `get_transcript` returns or the message of the exception it raises. The library's text
 * formatter is a parameter too, since its body is not part of this model.
 */
module Transcript {
  import opened Wrappers
  import opened Words
  import opened Api
  import VideoId

  datatype UpstreamResult = Fetched(segments: seq<Segment>) | Failed(message: string)

  type Fetcher = (string, seq<string>) -> UpstreamResult
  type TextFormatter = seq<Segment> -> string

  // ---------------------------------------------------------------------------
  // Metrics

  /** `duration_seconds`: where the last segment ends, or 0 for no segments. */
  function Duration(segments: seq<Segment>): real {
    if segments == [] then 0.0
    else segments[|segments| - 1].start + segments[|segments| - 1].duration
  }

  /** Only the last segment counts: appending one makes the duration its end. */
  lemma DurationOfAppend(segments: seq<Segment>, last: Segment)
    ensures Duration(segments + [last]) == last.start + last.duration
  {
  }

  /** Segments before a non-empty tail never change the duration. */
  lemma DurationIgnoresEarlier(earlier: seq<Segment>, segments: seq<Segment>)
    requires segments != []
    ensures Duration(earlier + segments) == Duration(segments)
  {
    assert (earlier + segments)[|earlier + segments| - 1] == segments[|segments| - 1];
  }

  /** The `text` of every segment, in order. */
  function Texts(segments: seq<Segment>): (texts: seq<string>)
    ensures |texts| == |segments|
    ensures forall i :: 0 <= i < |segments| ==> texts[i] == segments[i].text
  {
    if segments == [] then [] else [segments[0].text] + Texts(segments[1..])
  }

  /** `sum(len(item['text'].split()) for item in transcript_list)`. */
  function JsonWordCount(segments: seq<Segment>): nat {
    if segments == [] then 0 else WordCount(segments[0].text) + JsonWordCount(segments[1..])
  }

  /** The json word count is the sum of the word counts of the segment texts. */
  lemma {:induction false} JsonWordCountIsSum(segments: seq<Segment>)
    ensures JsonWordCount(segments) == SumOfCounts(Texts(segments))
  {
    if segments != [] {
      JsonWordCountIsSum(segments[1..]);
      assert Texts(segments)[1..] == Texts(segments[1..]);
    }
  }

  /** The json word count adds up over consecutive runs of segments. */
  lemma {:induction false} JsonWordCountAppend(a: seq<Segment>, b: seq<Segment>)
    ensures JsonWordCount(a + b) == JsonWordCount(a) + JsonWordCount(b)
  {
    if a == [] {
      assert a + b == b;
    } else {
      assert (a + b)[1..] == a[1..] + b;
      JsonWordCountAppend(a[1..], b);
    }
  }

  /**
   * A text formatter that joins the segment texts with line feeds. The model assumes
   * nothing about the library's formatter; this one is named only to state what word
   * counts a formatter of that kind gives.
   */
  function NewlineFormatter(segments: seq<Segment>): string {
    Join('\n', Texts(segments))
  }

  /** With a line-feed-joining formatter, the text word count equals the json word count. */
  lemma NewlineJoinKeepsWordCount(segments: seq<Segment>)
    ensures WordCount(NewlineFormatter(segments)) == JsonWordCount(segments)
  {
    CountAcrossJoin('\n', Texts(segments));
    JsonWordCountIsSum(segments);
  }

  // ---------------------------------------------------------------------------
  // Failure classification

  const NoTranscriptsMarker := "No transcripts were found"
  const UnavailableMarker := "Video unavailable"

  /** Python's `needle in s` for strings. */
  function Contains(s: string, needle: string): (r: bool)
    ensures r ==> |needle| <= |s|
    ensures needle == [] ==> r
    decreases |s|
  {
    if |s| < |needle| then false
    else s[..|needle|] == needle || Contains(s[1..], needle)
  }

  /** `needle` occurs in `s` starting at position `i`. */
  predicate OccursAt(s: string, needle: string, i: int) {
    0 <= i <= |s| - |needle| && s[i..i + |needle|] == needle
  }

  /** `needle` occurs in `s` at some position. */
  ghost predicate Occurs(s: string, needle: string) {
    exists i :: OccursAt(s, needle, i)
  }

  /** A slice of `s[1..]` is the slice of `s` one position further on. */
  lemma TailSlice(s: string, i: nat, n: nat)
    requires i + n < |s|
    ensures s[1..][i..i + n] == s[i + 1..i + 1 + n]
  {
  }

  lemma {:induction false} ContainsIffOccurs(s: string, needle: string)
    ensures Contains(s, needle) <==> Occurs(s, needle)
    decreases |s|
  {
    if |s| < |needle| {
    } else if s[..|needle|] == needle {
      assert OccursAt(s, needle, 0);
    } else {
      ContainsIffOccurs(s[1..], needle);
      if Occurs(s[1..], needle) {
        var i :| OccursAt(s[1..], needle, i);
        TailSlice(s, i, |needle|);
        assert OccursAt(s, needle, i + 1);
      }
      if Occurs(s, needle) {
        var i :| OccursAt(s, needle, i);
        assert i != 0;
        TailSlice(s, i - 1, |needle|);
        assert OccursAt(s[1..], needle, i - 1);
      }
    }
  }

  datatype FailureKind = NoTranscript | Unavailable | Unknown

  /** The ordered substring tests of the `except` block. */
  function Classify(message: string): FailureKind {
    if Contains(message, NoTranscriptsMarker) then NoTranscript
    else if Contains(message, UnavailableMarker) then Unavailable
    else Unknown
  }

  /**
   * The classification by where the markers occur: "No transcripts were found" anywhere
   * wins, even when "Video unavailable" occurs too; "Video unavailable" alone gives
   * `Unavailable`; neither gives `Unknown`.
   */
  lemma ClassifyByOccurrence(message: string)
    ensures Classify(message) == NoTranscript <==> Occurs(message, NoTranscriptsMarker)
    ensures Classify(message) == Unavailable
            <==> !Occurs(message, NoTranscriptsMarker) && Occurs(message, UnavailableMarker)
    ensures Classify(message) == Unknown
            <==> !Occurs(message, NoTranscriptsMarker) && !Occurs(message, UnavailableMarker)
  {
    ContainsIffOccurs(message, NoTranscriptsMarker);
    ContainsIffOccurs(message, UnavailableMarker);
  }

  /** A message with no `N` cannot hold the first marker; one with no `V` cannot hold the second. */
  lemma AbsentInitial(message: string, needle: string)
    requires needle != [] && forall k :: 0 <= k < |message| ==> message[k] != needle[0]
    ensures !Occurs(message, needle)
  {
    forall i | 0 <= i <= |message| - |needle| ensures !OccursAt(message, needle, i) {
      assert message[i..i + |needle|][0] == message[i];
    }
  }

  /** The message of a region-blocked video is classified as unavailable. */
  lemma RegionBlockedIsUnavailable()
    ensures Classify("Video unavailable in your country") == Unavailable
  {
    var message := "Video unavailable in your country";
    AbsentInitial(message, NoTranscriptsMarker);
    assert OccursAt(message, UnavailableMarker, 0);
    ClassifyByOccurrence(message);
  }

  /** The response for an upstream failure with message `message`. */
  function FailureResponse(message: string, videoId: Option<string>): (r: Response)
    ensures r.status == NotFound <==> Classify(message) != Unknown
    ensures r.status == ServerError <==> Classify(message) == Unknown
    ensures r.status == NotFound ==> r.body.TranscriptNotFound? && r.body.knownVideoId == videoId
    ensures r.status == ServerError ==> r.body == TranscriptFailure(message, "unknown")
  {
    match Classify(message)
    case NoTranscript =>
      Response(NotFound, TranscriptNotFound("No transcripts available for this video", "no_transcript", videoId))
    case Unavailable =>
      Response(NotFound, TranscriptNotFound("Video is unavailable or private", "unavailable", videoId))
    case Unknown =>
      Response(ServerError, TranscriptFailure(message, "unknown"))
  }

  /** Each kind maps to its own fixed error text and error type. */
  lemma FailureBodies(message: string, videoId: Option<string>)
    ensures Classify(message) == NoTranscript ==>
      FailureResponse(message, videoId).body
        == TranscriptNotFound("No transcripts available for this video", "no_transcript", videoId)
    ensures Classify(message) == Unavailable ==>
      FailureResponse(message, videoId).body
        == TranscriptNotFound("Video is unavailable or private", "unavailable", videoId)
  {
  }

  // ---------------------------------------------------------------------------
  // The endpoint

  /** `request.args.get('language', 'en')`. */
  function Language(q: Query): string {
    q.language.GetOr("en")
  }

  /** `format_type == 'text'`, where `format_type` defaults to `'json'`. */
  predicate TextMode(q: Query) {
    q.format == Some("text")
  }

  /** The success response for the segments the upstream provider returned. */
  function Render(videoId: string, language: string, text: bool, segments: seq<Segment>,
                  formatText: TextFormatter): (r: Response)
    ensures r.status == Ok && r.body.Success()
    ensures r.body.TextTranscript? <==> text
    ensures (r.body.JsonTranscript? || r.body.TextTranscript?) && r.body.videoId == videoId && r.body.language == language
    ensures r.body.durationSeconds == Duration(segments)
  {
    if text then
      var flat := formatText(segments);
      Response(Ok, TextTranscript(videoId, language, flat, WordCount(flat), Duration(segments)))
    else
      Response(Ok, JsonTranscript(videoId, language, segments, JsonWordCount(segments),
                                  Duration(segments), |segments|))
  }

  /** `get_transcript` for query `q`, upstream provider `fetch` and text formatter `formatText`. */
  function GetTranscript(q: Query, fetch: Fetcher, formatText: TextFormatter): (r: Response)
    ensures r.status in {Ok, BadRequest, NotFound, ServerError}
    ensures r.status == Ok <==> r.body.Success()
  {
    if UrlMissing(q) then
      Response(BadRequest, MissingUrl(UrlRequired, TranscriptExample))
    else
      match VideoId.Extract(q.url.value)
      case None => Response(BadRequest, InvalidUrl(InvalidUrlFormat, q.url.value))
      case Some(id) =>
        var language := Language(q);
        match fetch(id, [language, "en"])
        case Fetched(segments) => Render(id, language, TextMode(q), segments, formatText)
        case Failed(message) => FailureResponse(message, Some(id))
  }

  /** The video id the upstream provider is asked for, when the `url` parameter yields one. */
  ghost predicate Accepted(q: Query, id: string) {
    !UrlMissing(q) && VideoId.Extract(q.url.value) == Some(id)
  }

  /** An absent or empty `url` is refused with 400 before the upstream provider is asked. */
  lemma MissingUrlRefused(q: Query, fetch: Fetcher, formatText: TextFormatter)
    requires UrlMissing(q)
    ensures GetTranscript(q, fetch, formatText) == Response(BadRequest, MissingUrl(UrlRequired, TranscriptExample))
  {
  }

  /** A `url` with no video id is refused with 400, echoing the URL. */
  lemma InvalidUrlRefused(q: Query, fetch: Fetcher, formatText: TextFormatter)
    requires !UrlMissing(q) && VideoId.Extract(q.url.value).None?
    ensures GetTranscript(q, fetch, formatText) == Response(BadRequest, InvalidUrl(InvalidUrlFormat, q.url.value))
  {
  }

  /** A refused request does not depend on the upstream provider or the formatter: neither is consulted. */
  lemma RefusalIgnoresUpstream(q: Query, fetch1: Fetcher, fetch2: Fetcher, format1: TextFormatter, format2: TextFormatter)
    requires UrlMissing(q) || VideoId.Extract(q.url.value).None?
    ensures GetTranscript(q, fetch1, format1) == GetTranscript(q, fetch2, format2)
    ensures GetTranscript(q, fetch1, format1).status == BadRequest
  {
  }

  /**
   * The upstream provider is asked once, for the extracted id and the priority list
   * `[language, "en"]`: two providers that agree on that one question give the same response.
   */
  lemma UpstreamAskedWithPriorityList(q: Query, id: string, fetch1: Fetcher, fetch2: Fetcher, formatText: TextFormatter)
    requires Accepted(q, id)
    requires fetch1(id, [Language(q), "en"]) == fetch2(id, [Language(q), "en"])
    ensures GetTranscript(q, fetch1, formatText) == GetTranscript(q, fetch2, formatText)
  {
  }

  /** A missing `language` behaves exactly like `language=en`. */
  lemma LanguageDefaultsToEnglish(q: Query, fetch: Fetcher, formatText: TextFormatter)
    requires q.language.None?
    ensures GetTranscript(q, fetch, formatText) == GetTranscript(q.(language := Some("en")), fetch, formatText)
  {
  }

  /** Every `format` other than exactly `text`, including none, gives the json response. */
  lemma NonTextFormatIsJson(q: Query, fetch: Fetcher, formatText: TextFormatter)
    requires q.format != Some("text")
    ensures GetTranscript(q, fetch, formatText) == GetTranscript(q.(format := None), fetch, formatText)
    ensures !GetTranscript(q, fetch, formatText).body.TextTranscript?
  {
  }

  /**
   * On success the response is 200; json mode passes the upstream segments through
   * unchanged with their summed word count, their number and the end of the last one;
   * text mode gives the formatter's text with its own word count and the same duration.
   */
  lemma SuccessResponse(q: Query, id: string, fetch: Fetcher, formatText: TextFormatter, segments: seq<Segment>)
    requires Accepted(q, id)
    requires fetch(id, [Language(q), "en"]) == Fetched(segments)
    ensures var r := GetTranscript(q, fetch, formatText);
      && r.status == Ok && r.body.Success()
      && (r.body.TextTranscript? <==> TextMode(q))
      && r.body.videoId == id && r.body.language == Language(q)
      && r.body.durationSeconds == Duration(segments)
      && (r.body.JsonTranscript? ==>
            && r.body.segments == segments
            && r.body.wordCount == SumOfCounts(Texts(segments))
            && r.body.segmentsCount == |segments|)
      && (r.body.TextTranscript? ==>
            r.body.text == formatText(segments) && r.body.wordCount == |Split(formatText(segments))|)
  {
    JsonWordCountIsSum(segments);
  }

  /** An empty transcript is not an error: 200 with zero duration, and zero words and segments in json mode. */
  lemma EmptyTranscript(q: Query, id: string, fetch: Fetcher, formatText: TextFormatter)
    requires Accepted(q, id)
    requires fetch(id, [Language(q), "en"]) == Fetched([])
    ensures var r := GetTranscript(q, fetch, formatText);
      && r.status == Ok && r.body.durationSeconds == 0.0
      && (r.body.JsonTranscript? ==> r.body.wordCount == 0 && r.body.segmentsCount == 0 && r.body.segments == [])
  {
  }

  /**
   * An upstream failure is classified by its message: 404 with the video id for the two
   * known markers, otherwise 500 with the raw message and no video id.
   */
  lemma FailureResponseFor(q: Query, id: string, fetch: Fetcher, formatText: TextFormatter, message: string)
    requires Accepted(q, id)
    requires fetch(id, [Language(q), "en"]) == Failed(message)
    ensures var r := GetTranscript(q, fetch, formatText);
      && (r.status == NotFound <==> Occurs(message, NoTranscriptsMarker) || Occurs(message, UnavailableMarker))
      && (r.status == NotFound ==> r.body.TranscriptNotFound? && r.body.knownVideoId == Some(id))
      && (r.status != NotFound ==> r == Response(ServerError, TranscriptFailure(message, "unknown")))
  {
    ClassifyByOccurrence(message);
  }

  /** The status code says which path a request took. */
  lemma StatusSummary(q: Query, fetch: Fetcher, formatText: TextFormatter)
    ensures var r := GetTranscript(q, fetch, formatText);
      && (r.status == BadRequest <==> UrlMissing(q) || VideoId.Extract(q.url.value).None?)
      && (r.status == Ok <==>
            && !UrlMissing(q) && VideoId.Extract(q.url.value).Some?
            && fetch(VideoId.Extract(q.url.value).value, [Language(q), "en"]).Fetched?)
  {
  }

  /** With a formatter that joins texts with line feeds, both modes report the same word count. */
  lemma ModesAgreeOnNewlineFormatter(videoId: string, language: string, segments: seq<Segment>)
    ensures Render(videoId, language, true, segments, NewlineFormatter).body.wordCount
         == Render(videoId, language, false, segments, NewlineFormatter).body.wordCount
  {
    NewlineJoinKeepsWordCount(segments);
  }
}

/** Worked end-to-end examples with a stubbed upstream provider. */
module TranscriptExamples {
  import opened Wrappers
  import opened Words
  import opened Api
  import opened Transcript
  import VideoId
  import VideoIdExamples

  /**
   * A watch URL with `format=text` and two one-word segments gives 200, the default
   * language, the flattened text, two words and a duration of two seconds.
   */
  lemma TextModeExample(id: string, fetch: Fetcher)
    requires VideoId.IsVideoId(id)
    requires fetch(id, ["en", "en"]) == Fetched([Segment("Hello", 0.0, 1.0), Segment("world", 1.0, 1.0)])
    ensures GetTranscript(Query(Some("https://www.youtube.com/watch?v=" + id), None, Some("text")), fetch, NewlineFormatter)
         == Response(Ok, TextTranscript(id, "en", "Hello\nworld", 2, 2.0))
  {
    var url := "https://www.youtube.com/watch?v=" + id;
    assert url == "https://www.youtube.com/watch?v=" + id + "";
    VideoIdExamples.WatchUrl(id, "");
    TwoLines();
  }

  /** The two segments flatten to two lines holding two words. */
  lemma TwoLines()
    ensures NewlineFormatter([Segment("Hello", 0.0, 1.0), Segment("world", 1.0, 1.0)]) == "Hello\nworld"
    ensures WordCount("Hello\nworld") == 2
  {
    var segments := [Segment("Hello", 0.0, 1.0), Segment("world", 1.0, 1.0)];
    assert Texts(segments) == ["Hello", "world"];
    assert "Hello" + ['\n'] + "world" == "Hello\nworld";
    HelloWorld('\n');
  }

  /** The same request without `format` gives the json body with both segments. */
  lemma JsonModeExample(id: string, fetch: Fetcher, formatText: TextFormatter)
    requires VideoId.IsVideoId(id)
    requires fetch(id, ["en", "en"]) == Fetched([Segment("Hello", 0.0, 1.0), Segment("world", 1.0, 1.0)])
    ensures GetTranscript(Query(Some("https://www.youtube.com/watch?v=" + id), None, None), fetch, formatText)
         == Response(Ok, JsonTranscript(id, "en", [Segment("Hello", 0.0, 1.0), Segment("world", 1.0, 1.0)], 2, 2.0, 2))
  {
    var url := "https://www.youtube.com/watch?v=" + id;
    assert url == "https://www.youtube.com/watch?v=" + id + "";
    VideoIdExamples.WatchUrl(id, "");
    TwoSegments();
  }

  /** The two example segments hold two words and end at two seconds. */
  lemma TwoSegments()
    ensures JsonWordCount([Segment("Hello", 0.0, 1.0), Segment("world", 1.0, 1.0)]) == 2
    ensures Duration([Segment("Hello", 0.0, 1.0), Segment("world", 1.0, 1.0)]) == 2.0
  {
    var segments := [Segment("Hello", 0.0, 1.0), Segment("world", 1.0, 1.0)];
    PrintableWord("Hello");
    PrintableWord("world");
    assert segments[1..] == [Segment("world", 1.0, 1.0)];
    assert segments[1..][1..] == [];
  }

  /** An upstream failure "Video unavailable in your country" gives 404 `unavailable`. */
  lemma UnavailableExample(q: Query, id: string, fetch: Fetcher, formatText: TextFormatter)
    requires Accepted(q, id)
    requires fetch(id, [Language(q), "en"]) == Failed("Video unavailable in your country")
    ensures GetTranscript(q, fetch, formatText)
         == Response(NotFound, TranscriptNotFound("Video is unavailable or private", "unavailable", Some(id)))
  {
    RegionBlockedIsUnavailable();
  }
}
