/**
 * The languages endpoint (`get_available_languages`): the same `url` validation as the
 * transcript endpoint, then one entry per caption track the upstream provider lists, in
 * its order. Any failure of the listing is reported as 500 `language_fetch_error`, with no
 * classification of its message.
 */
module Languages {
  import opened Wrappers
  import opened Api
  import VideoId

  /** The attributes of an upstream track object that the endpoint reads. */
  datatype Track = Track(language: string, languageCode: string, isGenerated: bool, isTranslatable: bool)

  /** What the upstream `list_transcripts` returns, or the message of the exception it raises. */
  datatype ListResult = Listed(tracks: seq<Track>) | ListFailed(message: string)

  type Lister = string -> ListResult

  /** The dictionary appended for one track. */
  function Describe(t: Track): (e: LanguageEntry)
    ensures e.language == t.language && e.languageCode == t.languageCode
    ensures e.isGenerated == t.isGenerated && e.isTranslatable == t.isTranslatable
  {
    LanguageEntry(t.language, t.languageCode, t.isGenerated, t.isTranslatable)
  }

  /** `get_available_languages` for query `q` and upstream listing `list`. */
  method GetAvailableLanguages(q: Query, list: Lister) returns (r: Response)
    ensures UrlMissing(q) ==> r == Response(BadRequest, MissingUrl(UrlRequired, LanguagesExample))
    ensures !UrlMissing(q) && VideoId.Extract(q.url.value).None? ==>
              r == Response(BadRequest, InvalidUrl(InvalidUrlFormat, q.url.value))
    ensures !UrlMissing(q) && VideoId.Extract(q.url.value).Some? ==>
              var id := VideoId.Extract(q.url.value).value;
              match list(id)
              case ListFailed(message) =>
                r == Response(ServerError, LanguageFailure(message, "language_fetch_error"))
              case Listed(tracks) =>
                && r.status == Ok && r.body.LanguageList? && r.body.videoId == id
                && |r.body.availableLanguages| == |tracks|
                && (forall i :: 0 <= i < |tracks| ==> r.body.availableLanguages[i] == Describe(tracks[i]))
                && r.body.totalLanguages == |r.body.availableLanguages|
  {
    if q.url.None? || q.url.value == "" {
      return Response(BadRequest, MissingUrl(UrlRequired, LanguagesExample));
    }
    var url := q.url.value;
    var found := VideoId.ExtractVideoId(url);
    if found.None? {
      return Response(BadRequest, InvalidUrl(InvalidUrlFormat, url));
    }
    var id := found.value;
    match list(id)
    case ListFailed(message) =>
      return Response(ServerError, LanguageFailure(message, "language_fetch_error"));
    case Listed(tracks) =>
      var languages: seq<LanguageEntry> := [];
      for k := 0 to |tracks|
        invariant |languages| == k
        invariant forall i :: 0 <= i < k ==> languages[i] == Describe(tracks[i])
      {
        languages := languages + [Describe(tracks[k])];
      }
      return Response(Ok, LanguageList(id, languages, |languages|));
  }
}
