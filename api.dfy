/**
 * The request and response shapes shared by the two endpoints: the query string a request
 * carries, the transcript segment the upstream provider returns, and the JSON bodies with
 * their HTTP status codes.
 */
module Api {
  import opened Wrappers

  /**
   * The query parameters an endpoint reads (`request.args.get`): each is absent (`None`) or
   * the string given. The languages endpoint reads only `url`.
   */
  datatype Query = Query(url: Option<string>, language: Option<string>, format: Option<string>)

  /** One timed unit of transcript text. Seconds are modelled as reals. */
  datatype Segment = Segment(text: string, start: real, duration: real)

  /** One caption track as the languages endpoint reports it. */
  datatype LanguageEntry = LanguageEntry(language: string, languageCode: string, isGenerated: bool, isTranslatable: bool)

  /**
   * The JSON body of a response, one constructor per key set the service produces. A body
   * with `success: true` is one of `JsonTranscript`, `TextTranscript` and `LanguageList`;
   * every other constructor carries `success: false` and an `error`.
   */
  datatype Body =
    | MissingUrl(error: string, example: string)
    | InvalidUrl(error: string, providedUrl: string)
    | JsonTranscript(videoId: string, language: string, segments: seq<Segment>,
                     wordCount: nat, durationSeconds: real, segmentsCount: nat)
    | TextTranscript(videoId: string, language: string, text: string,
                     wordCount: nat, durationSeconds: real)
    | TranscriptNotFound(error: string, errorType: string, knownVideoId: Option<string>)
    | TranscriptFailure(error: string, errorType: string)
    | LanguageList(videoId: string, availableLanguages: seq<LanguageEntry>, totalLanguages: nat)
    | LanguageFailure(error: string, errorType: string)
  {
    predicate Success() {
      JsonTranscript? || TextTranscript? || LanguageList?
    }
  }

  datatype Response = Response(status: nat, body: Body)

  const Ok: nat := 200
  const BadRequest: nat := 400
  const NotFound: nat := 404
  const ServerError: nat := 500

  const UrlRequired := "URL parameter is required"
  const InvalidUrlFormat := "Invalid YouTube URL format"
  const TranscriptExample := "/transcript?url=https://www.youtube.com/watch?v=VIDEO_ID"
  const LanguagesExample := "/transcript/languages?url=https://www.youtube.com/watch?v=VIDEO_ID"

  /** `if not video_url`: an absent or empty `url` parameter. */
  predicate UrlMissing(q: Query) {
    q.url.None? || q.url.value == ""
  }
}
