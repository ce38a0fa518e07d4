# YouTube transcript service: a Dafny model

This project models the core of a small HTTP service. Given a YouTube URL, it gets the
video's transcript from an upstream captioning library. It returns the transcript either as
json (timestamped segments) or as plain text, together with word and duration metrics. A
second endpoint lists the caption tracks a video has. All of the modelled logic is in
`app.py`:

- `extract_video_id` turns a free-form URL into an 11-character video id, or `None`.
- `get_transcript` validates the `url`, `language` and `format` query parameters. It asks the
  upstream library for a transcript with the language priority list `[language, 'en']`. It
  builds the json or text response with its metrics. Upstream failures are classified by
  substring tests on the exception message.
- `get_available_languages` validates `url` the same way. It projects each upstream caption
  track into a four-field record. Any upstream failure becomes a 500.

The upstream library is not modelled. It enters as function-valued parameters:

- a `Fetcher` `(videoId, languages) -> Fetched(segments) | Failed(message)`;
- a `Lister` `videoId -> Listed(tracks) | ListFailed(message)`;
- a `TextFormatter` `segments -> string`.

A handler's result is a `Response(status, body)`. `Body` has one constructor per kind of
response the service produces. `TranscriptFailure` and `LanguageFailure` have the same JSON
keys (`success`, `error`, `error_type`) but belong to different endpoints.

Files and modules:

- `wrappers.dfy` (`Wrappers`): `Option`.
- `video_id.dfy` (`VideoId`, `VideoIdExamples`): the five patterns and `re.search`. There
  is a method with loops for `extract_video_id` and a specification function `Extract`. The
  lemmas show that the result is the leftmost match and that patterns 2 to 5 never matter.
  There are lemmas about the URL shapes the service is meant to accept.
- `words.dfy` (`Words`): Python's `str.split()` with its Unicode whitespace set. It covers
  word counts, splitting around whitespace, and the join/split round trip.
- `api.dfy` (`Api`): the query, segment, language-entry, body and response datatypes, the
  status codes, and the fixed texts of the two 400 responses. The fixed texts of the two
  404 responses are in `Transcript.FailureResponse`.
- `transcript.dfy` (`Transcript`, `TranscriptExamples`): the transcript endpoint as a pure
  function, with its metrics, failure classification and dispatch properties.
- `languages.dfy` (`Languages`): the languages endpoint as a method whose loop builds the
  list.

Some of what the code does may surprise a reader who expects the service to validate its
input more strictly:

- The code has no "Subtitles are disabled" classification. Only "No transcripts were found"
  (checked first) and "Video unavailable" give 404. Everything else gives 500 `unknown`.
- A run of more than 11 id characters is not rejected. Its first 11 characters are returned
  (`VideoIdExamples.LongRunTruncated`).
- The id is stable under whatever FOLLOWS it, but not under what precedes it. The first
  `/` or `v=` followed by 11 id characters wins, even in the path
  (`VideoIdExamples.FirstPathSegmentWins`: `/attribution_link?...` yields `attribution`).
- The 404 bodies carry fixed error texts. Only the 500 bodies carry the raw upstream message.
- The text of `format=text` is whatever the library's formatter produces, not the segment
  texts joined with spaces. Under `Transcript.NewlineFormatter`, which joins them with line
  feeds, the segments "Hello" and "world" give "Hello\nworld", not "Hello world"
  (`TranscriptExamples.TextModeExample`). The word count is 2 either way.

## Model

| member | source | states |
|---|---|---|
| `VideoId.ExtractVideoId` | app.py:173-185 | Trying the five patterns in order and returning the first captured group gives `Extract(url)`; the result is `None` or 11 characters from `[0-9A-Za-z_-]` |
| `VideoId.SearchPattern` | app.py:182 | `re.search` scans the start positions 0..len(url) left to right and returns the first match's group, which is 11 id characters |
| `VideoId.IsIdChar` | app.py:176-179 | The character class `[0-9A-Za-z_-]`: ASCII digits, upper- and lower-case letters, `_` and `-` |
| `VideoId.Patterns` | app.py:175-180 | The five patterns in the order they are tried: `v=` or `/` (first pattern), `embed/`, `watch?v=`, `youtu.be/`, `youtube.com/shorts/`, each followed by the 11-character id group |
| `VideoId.MatchAt` | app.py:175-179 | The group a pattern captures at a position is always 11 id characters |
| `VideoId.Extract` | app.py:173-185 | `extract_video_id(url)`: the first of the five patterns that finds a match decides. The result is `None` or an 11-character id |
| `VideoId.SearchFrom` | app.py:182 | `re.search` from start position `i` on: the match at the first position from `i` that matches, which is always an 11-character id. `SearchFromNone` and `SearchFromWitness` state its meaning |
| `VideoId.Search` | app.py:182 | `re.search(pattern, url)`: the scan from position 0. `SearchPattern` computes it with a loop |
| `VideoId.FirstMatch` | app.py:181-185 | The first pattern that finds anything decides the result, which is `None` or an 11-character id |
| `VideoId.ExtractIsLeftmost` | app.py:176 | A returned id sits right after a `v=` or `/` at some position, and no earlier position has `v=` or `/` followed by 11 id characters; `None` exactly when no position has one, the empty URL included |
| `VideoId.ExtractAtLeftmost` | app.py:176 | Conversely, the leftmost `v=`/`/` followed by 11 id characters determines the returned id |
| `VideoId.LaterPatternsSubsumed` | app.py:175-184 | The embed, watch, youtu.be and shorts patterns never change the result: `Extract(url)` equals the first pattern's search on every input |
| `VideoId.NarrowMatchMarked` | app.py:177-179 | Wherever a pattern ending in `/` or `v=` matches at `i`, the first pattern matches where that ending starts (`i + len - 2` for `v=`, `i + len - 1` for `/`) and captures the same 11 characters |
| `VideoId.SearchFromNone` | app.py:182 | `re.search` finds nothing exactly when no start position matches |
| `VideoId.SearchFromWitness` | app.py:182 | What `re.search` finds is the match at some position, with no match at any earlier one |
| `VideoIdExamples.WatchUrl` | app.py:176-177 | `https://www.youtube.com/watch?v=<id><anything>` yields `<id>` |
| `VideoIdExamples.ShortLinkUrl` | app.py:178 | `https://youtu.be/<id><anything>` yields `<id>` |
| `VideoIdExamples.EmbedUrl` | app.py:177 | `https://www.youtube.com/embed/<id><anything>` yields `<id>` |
| `VideoIdExamples.ShortsUrl` | app.py:179 | `https://www.youtube.com/shorts/<id><anything>` yields `<id>` |
| `VideoIdExamples.LongRunTruncated` | app.py:176 | A short link `https://youtu.be/` followed by a run of more than 11 id characters yields the run's first 11 characters |
| `VideoIdExamples.FirstPathSegmentWins` | app.py:176 | A path segment of 11 id characters right after the host wins over any later `v=` |
| `VideoIdExamples.EmptyUrl` | app.py:185 | The empty string yields `None` |
| `VideoIdExamples.ShortCandidate` | app.py:185 | A short link with a 3-character id yields `None` |
| `VideoIdExamples.ForeignUrl` | app.py:185 | `https://example.com` yields `None` |
| `Words.IsSpace` | app.py:78-84 | The characters `str.isspace()` accepts and `split()` separates on: U+0009-U+000D, U+001C-U+001F, U+0020, U+0085, U+00A0, U+1680, U+2000-U+200A, U+2028, U+2029, U+202F, U+205F, U+3000 |
| `Words.LeadingWord` | app.py:78 | The first word `split()` takes is a maximal non-empty run of non-whitespace characters |
| `Words.Split` | app.py:78 | Every word `str.split()` returns is non-empty and free of whitespace |
| `Words.WordCount` | app.py:78-84 | `len(s.split())`. `CountAcrossJoin` states how it adds up over a join |
| `Words.SplitAroundSpace` | app.py:78 | Splitting `a + c + b`, where `c` is whitespace, gives the words of `a` followed by those of `b` |
| `Words.SplitWord` | app.py:84 | A single word splits into itself |
| `Words.SplitJoin` | app.py:78 | Joining words with a whitespace separator and splitting again gives the words back |
| `Words.SplitNormalises` | app.py:78 | Splitting, re-joining with spaces and splitting again changes nothing |
| `Words.CountAcrossJoin` | app.py:78 | The word count of texts joined by a whitespace character is the sum of their word counts |
| `Words.HelloWorld` | app.py:78 | Two words separated by any whitespace character split into exactly those two words |
| `Transcript.Duration` | app.py:79-83 | `duration_seconds`: 0 for no segments, otherwise the last segment's start plus its duration. Its properties are stated by `DurationOfAppend` and `DurationIgnoresEarlier` |
| `Transcript.Texts` | app.py:84 | `item['text'] for item in transcript_list`: one text per segment, the `i`-th being segment `i`'s text |
| `Transcript.JsonWordCount` | app.py:84 | The json `word_count`: `len(text.split())` summed over the segments. Its properties are stated by `JsonWordCountIsSum` and `JsonWordCountAppend` |
| `Transcript.DurationOfAppend` | app.py:79 | `duration_seconds` is the start plus the duration of the last segment |
| `Transcript.DurationIgnoresEarlier` | app.py:83 | Segments before the last never change `duration_seconds` |
| `Transcript.JsonWordCountIsSum` | app.py:84 | The json `word_count` is the sum over segments of `len(text.split())` |
| `Transcript.JsonWordCountAppend` | app.py:84 | The json word count adds up over consecutive runs of segments |
| `Transcript.NewlineJoinKeepsWordCount` | app.py:70-84 | If the text formatter joins segment texts with line feeds (an assumption, see Left out), the text word count equals the json word count |
| `Transcript.Contains` | app.py:105-112 | Python's `needle in message`: it holds only when the needle is no longer than the message, and always for the empty needle |
| `Transcript.ContainsIffOccurs` | app.py:105 | Python's substring test `needle in message` holds exactly when the needle occurs at some position |
| `Transcript.Classify` | app.py:105-124 | The ordered `if`/`elif`/`else` substring tests of the `except` block. Their meaning by occurrence is stated by `ClassifyByOccurrence` |
| `Transcript.ClassifyByOccurrence` | app.py:105-124 | "No transcripts were found" wins even with "Video unavailable" present; "Video unavailable" alone gives unavailable; neither gives unknown |
| `Transcript.AbsentInitial` | app.py:105 | A needle cannot occur in a message that lacks the needle's first character |
| `Transcript.RegionBlockedIsUnavailable` | app.py:112 | "Video unavailable in your country" is classified as unavailable |
| `Transcript.FailureResponse` | app.py:104-124 | 404 exactly for the two known markers, with the video id; otherwise 500 `unknown` carrying the raw message and no video id |
| `Transcript.FailureBodies` | app.py:106-118 | The fixed error text and `error_type` of each 404 kind |
| `Api.UrlMissing` | app.py:43 | `not video_url`: the `url` parameter is absent or empty. The languages endpoint tests it the same way (app.py:131) |
| `Transcript.Language` | app.py:39 | `request.args.get('language', 'en')` |
| `Transcript.TextMode` | app.py:40-68 | `format_type == 'text'`, where `format_type` defaults to `'json'` |
| `Transcript.Render` | app.py:68-95 | The 200 success body: text mode exactly when asked for, with the video id, the requested language and the last segment's end |
| `Transcript.GetTranscript` | app.py:34-124 | The endpoint. The status is always 200, 400, 404 or 500, and it is 200 exactly when the body is a success body |
| `Transcript.MissingUrlRefused` | app.py:43-48 | An absent or empty `url` gives 400 "URL parameter is required" with the example |
| `Transcript.InvalidUrlRefused` | app.py:50-57 | A `url` with no id gives 400 "Invalid YouTube URL format" and echoes `provided_url` |
| `Transcript.RefusalIgnoresUpstream` | app.py:43-62 | Refused requests get 400 whatever the upstream provider and formatter do, because neither is called |
| `Transcript.UpstreamAskedWithPriorityList` | app.py:62-65 | The upstream call gets the extracted id and exactly `[language, 'en']`: providers that agree on that call give the same response |
| `Transcript.LanguageDefaultsToEnglish` | app.py:39 | A missing `language` behaves as `language=en` |
| `Transcript.NonTextFormatIsJson` | app.py:40-95 | Any `format` other than exactly `text`, or none, gives the json response |
| `Transcript.SuccessResponse` | app.py:68-98 | Upstream success gives 200 with the id and requested language; text exactly for `format=text`; json passes the segments unchanged with summed word count and segment count; both modes report the last segment's end |
| `Transcript.EmptyTranscript` | app.py:79-94 | No segments is not an error: 200, duration 0, and in json mode 0 words and 0 segments |
| `Transcript.FailureResponseFor` | app.py:100-124 | An upstream failure gives 404 with the video id exactly when a known marker occurs in the message, otherwise 500 `unknown` with the raw message |
| `Transcript.StatusSummary` | app.py:34-124 | The status says which path a request took: 400 exactly for a missing or unparsable `url`, 200 exactly when the `url` yields an id and the upstream fetch for it succeeded |
| `Transcript.ModesAgreeOnNewlineFormatter` | app.py:68-95 | With a line-feed-joining formatter, text and json modes report the same word count |
| `TranscriptExamples.TextModeExample` | app.py:68-80 | A watch URL with `format=text` and segments "Hello" (0+1) and "world" (1+1) gives 200, language `en`, text "Hello\nworld", 2 words, 2 seconds |
| `TranscriptExamples.TwoLines` | app.py:71-78 | The two example segments flatten to two lines holding two words |
| `TranscriptExamples.TwoSegments` | app.py:83-84 | The two example segments hold two words and end at two seconds |
| `TranscriptExamples.JsonModeExample` | app.py:81-95 | The same request without `format` gives the json body with both segments, 2 words, 2 seconds, 2 segments |
| `TranscriptExamples.UnavailableExample` | app.py:112-118 | Upstream failure "Video unavailable in your country" gives 404 `unavailable` |
| `Languages.Describe` | app.py:151-156 | The entry for one track carries the track's name, code, generated flag and translatable flag, unchanged |
| `Languages.GetAvailableLanguages` | app.py:126-171 | Missing or unparsable `url`: the same two 400 errors as the transcript endpoint, with the languages endpoint's own `example` (`/transcript/languages?url=...`). Listing failure: 500 `language_fetch_error` with the raw message, never a 404. Success: 200 with one entry per track, in upstream order, and `total_languages` equal to the entry count |

## Left out

- Flask routing, `request.args` parsing, `jsonify`, CORS, logging and the `__main__` port and
  debug setup (app.py:1-14, 187-190): framework and process plumbing. A query is modelled as
  three optional strings. Repeated query keys are not modelled.
- The static health endpoints (app.py:17-32): they contain no logic.
- The network calls `YouTubeTranscriptApi.get_transcript` and `list_transcripts`: foreign
  calls, modelled as the `Fetcher` and `Lister` parameters. Transport headers, timeouts and
  retries belong to the library.
- `TextFormatter.format_transcript`: library code that is not part of this model. It is the
  `TextFormatter` parameter, and the text-mode word count is stated relative to its output.
  `NewlineFormatter` stands for the assumption that it joins segment texts with line feeds,
  and only `NewlineJoinKeepsWordCount`, `ModesAgreeOnNewlineFormatter`, `TextModeExample` and
  `TwoLines` rely on it.
- Floating-point `start` and `duration` are modelled as `real`. Only one addition is
  involved. The integer `0` for an empty transcript is the real `0.0`.
- Python's general regular expression engine: only these five patterns of the form
  `(?:literal|...)` followed by 11 id characters are modelled. The first pattern's trailing
  `.*` always matches and is not captured, so it is dropped.
- Exceptions raised anywhere other than the upstream call (in the formatter, or while
  iterating an upstream track list part way) are not modelled. The listing either succeeds
  as a whole or fails with one message.
- `video_id if 'video_id' in locals() else None`: in the model an upstream failure can only
  happen after the id was extracted, so the 404 bodies always carry `Some(id)`.
- Upstream track objects are modelled by the four attributes the endpoint reads.
- `Transcript.GetTranscript` is a function that uses `VideoId.Extract`, the specification
  function of the `VideoId.ExtractVideoId` method. Only `Languages.GetAvailableLanguages`,
  which has the source's loop, calls the method.
