/**
 * The identifier extractor (`extract_video_id`).
 *
 * Each of the five regular expressions has the shape `(?:lit1|lit2|...)([0-9A-Za-z_-]{11})`:
 * a choice of literal markers, tried in order, followed by an eleven-character id, which is
 * the captured group. `re.search` tries the start positions 0, 1, ..., |url| in turn and
 * reports the first one at which the pattern matches. The first pattern's trailing `.*`
 * always matches (possibly the empty string) and is not captured, so it is not modelled.
 */
module VideoId {
  import opened Wrappers

  /** The `{11}` of every pattern. */
  const IdLength: nat := 11

  /** The character class `[0-9A-Za-z_-]`. */
  predicate IsIdChar(c: char) {
    ('0' <= c <= '9') || ('A' <= c <= 'Z') || ('a' <= c <= 'z') || c == '_' || c == '-'
  }

  predicate IsVideoId(s: string) {
    |s| == IdLength && forall k :: 0 <= k < |s| ==> IsIdChar(s[k])
  }

  /** The literal markers of one pattern, in the order the alternation tries them. */
  type Pattern = seq<string>

  /** `(?:v=|\/)([0-9A-Za-z_-]{11}).*` */
  const VOrSlash: Pattern := ["v=", "/"]

  /** The pattern list, in the order `extract_video_id` tries it. */
  const Patterns: seq<Pattern> :=
    [VOrSlash, ["embed/"], ["watch?v="], ["youtu.be/"], ["youtube.com/shorts/"]]

  predicate LiteralAt(url: string, lit: string, i: nat) {
    i + |lit| <= |url| && url[i..i + |lit|] == lit
  }

  /** Eleven id characters start at position `j` of `url`. */
  predicate IdRunAt(url: string, j: nat) {
    j + IdLength <= |url| && IsVideoId(url[j..j + IdLength])
  }

  /** The group a pattern captures when its match starts at position `i`, if it matches there. */
  function MatchAt(alts: Pattern, url: string, i: nat): (m: Option<string>)
    ensures m.Some? ==> IsVideoId(m.value)
  {
    if alts == [] then None
    else if LiteralAt(url, alts[0], i) && IdRunAt(url, i + |alts[0]|) then
      Some(url[i + |alts[0]|..i + |alts[0]| + IdLength])
    else MatchAt(alts[1..], url, i)
  }

  /** `re.search` restricted to the start positions `i`, `i + 1`, ..., `|url|`. */
  function SearchFrom(alts: Pattern, url: string, i: nat): (m: Option<string>)
    decreases |url| + 1 - i
    ensures m.Some? ==> IsVideoId(m.value)
  {
    if i > |url| then None
    else if MatchAt(alts, url, i).Some? then MatchAt(alts, url, i)
    else SearchFrom(alts, url, i + 1)
  }

  function Search(alts: Pattern, url: string): Option<string> {
    SearchFrom(alts, url, 0)
  }

  /** The first pattern of `pats` that `re.search` finds in `url` decides the result. */
  function FirstMatch(pats: seq<Pattern>, url: string): (m: Option<string>)
    ensures m.Some? ==> IsVideoId(m.value)
  {
    if pats == [] then None
    else if Search(pats[0], url).Some? then Search(pats[0], url)
    else FirstMatch(pats[1..], url)
  }

  /** What `extract_video_id(url)` returns. */
  function Extract(url: string): (r: Option<string>)
    ensures r.Some? ==> IsVideoId(r.value)
  {
    FirstMatch(Patterns, url)
  }

  /** `re.search(pattern, url)` as the source's regular expression engine runs it: a scan over start positions. */
  method SearchPattern(alts: Pattern, url: string) returns (m: Option<string>)
    ensures m == Search(alts, url)
    ensures m.Some? ==> IsVideoId(m.value)
  {
    var i := 0;
    while i <= |url|
      invariant 0 <= i <= |url| + 1
      invariant SearchFrom(alts, url, i) == Search(alts, url)
    {
      var here := MatchAt(alts, url, i);
      if here.Some? {
        return here;
      }
      i := i + 1;
    }
    return None;
  }

  /** `extract_video_id`: try the patterns in order and return the first captured group. */
  method ExtractVideoId(url: string) returns (id: Option<string>)
    ensures id == Extract(url)
    ensures id.Some? ==> IsVideoId(id.value)
  {
    for k := 0 to |Patterns|
      invariant FirstMatch(Patterns[k..], url) == Extract(url)
    {
      var found := SearchPattern(Patterns[k], url);
      if found.Some? {
        return found;
      }
    }
    return None;
  }

  // ---------------------------------------------------------------------------
  // The leftmost-match characterisation of the first pattern.

  /** Pattern `(?:v=|\/)` plus eleven id characters matches at position `i`. */
  predicate MarkedAt(url: string, i: nat) {
    (LiteralAt(url, "v=", i) && IdRunAt(url, i + 2)) || (LiteralAt(url, "/", i) && IdRunAt(url, i + 1))
  }

  /** `id` is the eleven characters right after a `v=` or a `/` at position `i`. */
  predicate MarkedIdAt(url: string, i: nat, id: string) {
    || (LiteralAt(url, "v=", i) && IdRunAt(url, i + 2) && id == url[i + 2..i + 2 + IdLength])
    || (LiteralAt(url, "/", i) && IdRunAt(url, i + 1) && id == url[i + 1..i + 1 + IdLength])
  }

  lemma MatchAtVOrSlash(url: string, i: nat)
    ensures MatchAt(VOrSlash, url, i).Some? <==> MarkedAt(url, i)
    ensures MatchAt(VOrSlash, url, i).Some? ==> MarkedIdAt(url, i, MatchAt(VOrSlash, url, i).value)
  {
    assert VOrSlash[0] == "v=" && VOrSlash[1..] == ["/"];
    assert ["/"][0] == "/" && ["/"][1..] == [];
    assert MatchAt([], url, i).None?;
  }

  /** Positions `i .. k-1` do not match, so the scan from `i` is the scan from `k`. */
  lemma {:induction false} SearchFromSkips(alts: Pattern, url: string, i: nat, k: nat)
    requires i <= k <= |url| + 1
    requires forall j :: i <= j < k ==> MatchAt(alts, url, j).None?
    ensures SearchFrom(alts, url, i) == SearchFrom(alts, url, k)
    decreases k - i
  {
    if i < k {
      SearchFromSkips(alts, url, i + 1, k);
    }
  }

  /** The scan from `i` finds nothing exactly when no position from `i` on matches. */
  lemma {:induction false} SearchFromNone(alts: Pattern, url: string, i: nat)
    requires i <= |url| + 1
    ensures SearchFrom(alts, url, i).None? <==> (forall j :: i <= j <= |url| ==> MatchAt(alts, url, j).None?)
    decreases |url| + 1 - i
  {
    if i <= |url| {
      SearchFromNone(alts, url, i + 1);
      if MatchAt(alts, url, i).None? {
        assert SearchFrom(alts, url, i) == SearchFrom(alts, url, i + 1);
        assert (forall j :: i <= j <= |url| ==> MatchAt(alts, url, j).None?)
           <==> (forall j :: i + 1 <= j <= |url| ==> MatchAt(alts, url, j).None?);
      } else {
        assert SearchFrom(alts, url, i) == MatchAt(alts, url, i);
        assert !(forall j :: i <= j <= |url| ==> MatchAt(alts, url, j).None?);
        assert !SearchFrom(alts, url, i).None?;
      }
    }
  }

  /** What the scan from `i` finds is the match at a position `k`, and no position in between matches. */
  lemma {:induction false} SearchFromWitness(alts: Pattern, url: string, i: nat) returns (k: nat)
    requires i <= |url| + 1
    requires SearchFrom(alts, url, i).Some?
    ensures i <= k <= |url| && MatchAt(alts, url, k) == SearchFrom(alts, url, i)
    ensures forall j :: i <= j < k ==> MatchAt(alts, url, j).None?
    decreases |url| + 1 - i
  {
    if MatchAt(alts, url, i).Some? {
      k := i;
    } else {
      k := SearchFromWitness(alts, url, i + 1);
    }
  }

  /** A literal that ends with `suffix` puts `suffix` at the corresponding later position. */
  lemma LiteralSuffix(url: string, lit: string, suffix: string, i: nat)
    requires LiteralAt(url, lit, i)
    requires |suffix| <= |lit| && lit[|lit| - |suffix|..] == suffix
    ensures LiteralAt(url, suffix, i + |lit| - |suffix|)
  {
    assert url[i + |lit| - |suffix|..i + |lit|] == url[i..i + |lit|][|lit| - |suffix|..];
  }

  /**
   * Where a one-literal pattern ending in `v=` or `/` matches at `i`, `(?:v=|\/)` matches at
   * position `p`, where that ending starts, and captures the same eleven characters.
   */
  lemma NarrowMatchMarked(lit: string, url: string, i: nat) returns (p: nat)
    requires |lit| >= 2 && (lit[|lit| - 2..] == "v=" || lit[|lit| - 1..] == "/")
    ensures p == if lit[|lit| - 2..] == "v=" then i + |lit| - 2 else i + |lit| - 1
    ensures MatchAt([lit], url, i).Some? ==> p <= |url| && MatchAt(VOrSlash, url, p) == MatchAt([lit], url, i)
  {
    assert [lit][0] == lit && [lit][1..] == [];
    assert MatchAt([], url, i).None?;
    assert VOrSlash[0] == "v=" && VOrSlash[1..] == ["/"];
    assert ["/"][0] == "/" && ["/"][1..] == [];
    assert MatchAt([], url, i + |lit| - 1).None?;
    if lit[|lit| - 2..] == "v=" {
      p := i + |lit| - 2;
      if LiteralAt(url, lit, i) {
        LiteralSuffix(url, lit, "v=", i);
      }
    } else {
      p := i + |lit| - 1;
      if LiteralAt(url, lit, i) {
        LiteralSuffix(url, lit, "/", i);
        assert url[p] == url[p..p + 1][0] == '/';
        if p + 2 <= |url| {
          assert url[p..p + 2][0] == url[p];
        }
        assert !LiteralAt(url, "v=", p);
      }
    }
  }

  /** A one-literal pattern whose literal ends with `v=` or `/` finds nothing where `(?:v=|\/)` finds nothing. */
  lemma {:induction false} NarrowPatternSubsumed(lit: string, url: string)
    requires |lit| >= 2 && (lit[|lit| - 2..] == "v=" || lit[|lit| - 1..] == "/")
    requires Search(VOrSlash, url).None?
    ensures Search([lit], url).None?
  {
    SearchFromNone(VOrSlash, url, 0);
    forall i | 0 <= i <= |url|
      ensures MatchAt([lit], url, i).None?
    {
      var p := NarrowMatchMarked(lit, url, i);
    }
    SearchFromNone([lit], url, 0);
  }

  /**
   * The four more specific patterns never change the result: each ends in `/` or `v=` just
   * before the id group, so wherever one of them matches the first pattern matches too.
   */
  lemma LaterPatternsSubsumed(url: string)
    ensures Extract(url) == Search(VOrSlash, url)
  {
    if Search(VOrSlash, url).None? {
      NarrowPatternSubsumed("embed/", url);
      NarrowPatternSubsumed("watch?v=", url);
      NarrowPatternSubsumed("youtu.be/", url);
      NarrowPatternSubsumed("youtube.com/shorts/", url);
      var rest := Patterns[1..];
      assert rest == [["embed/"], ["watch?v="], ["youtu.be/"], ["youtube.com/shorts/"]];
      assert FirstMatch(rest[3..], url) == None by {
        assert rest[3..][1..] == [];
      }
      assert FirstMatch(rest[2..], url) == None by {
        assert rest[2..][1..] == rest[3..];
      }
      assert FirstMatch(rest[1..], url) == None by {
        assert rest[1..][1..] == rest[2..];
      }
      assert FirstMatch(rest, url) == None;
    }
  }

  /**
   * The extracted id is the leftmost one: it is the eleven characters right after a `v=` or
   * a `/` at some position, and no earlier position has a `v=` or `/` followed by eleven id
   * characters. No such position at all, which includes the empty URL, gives `None`.
   */
  lemma ExtractIsLeftmost(url: string)
    ensures Extract(url).Some? ==>
      exists i :: 0 <= i < |url| && MarkedIdAt(url, i, Extract(url).value)
                  && forall j :: 0 <= j < i ==> !MarkedAt(url, j)
    ensures Extract(url).None? <==> forall i :: 0 <= i <= |url| ==> !MarkedAt(url, i)
  {
    LaterPatternsSubsumed(url);
    SearchFromNone(VOrSlash, url, 0);
    assert Extract(url) == SearchFrom(VOrSlash, url, 0);
    forall i | 0 <= i <= |url| ensures MatchAt(VOrSlash, url, i).None? <==> !MarkedAt(url, i) {
      MatchAtVOrSlash(url, i);
      assert MatchAt(VOrSlash, url, i).None? <==> !MatchAt(VOrSlash, url, i).Some?;
    }
    if Extract(url).Some? {
      var k := SearchFromWitness(VOrSlash, url, 0);
      MatchAtVOrSlash(url, k);
      assert k < |url|;
      assert MarkedAt(url, k) && !Extract(url).None?;
      forall j | 0 <= j < k ensures !MarkedAt(url, j) {
        MatchAtVOrSlash(url, j);
      }
    } else {
      assert Search(VOrSlash, url).None?;
      assert forall i :: 0 <= i <= |url| ==> MatchAt(VOrSlash, url, i).None?;
    }
  }

  /** Conversely, the leftmost marked position determines the result. */
  lemma ExtractAtLeftmost(url: string, i: nat)
    requires MarkedAt(url, i)
    requires forall j :: 0 <= j < i ==> !MarkedAt(url, j)
    ensures Extract(url).Some? && MarkedIdAt(url, i, Extract(url).value)
  {
    LaterPatternsSubsumed(url);
    forall j | 0 <= j < i ensures MatchAt(VOrSlash, url, j).None? {
      MatchAtVOrSlash(url, j);
    }
    SearchFromSkips(VOrSlash, url, 0, i);
    MatchAtVOrSlash(url, i);
  }
}

/** What `extract_video_id` returns on the URL shapes the service is meant to accept. */
module VideoIdExamples {
  import opened Wrappers
  import opened VideoId

  /** A character that is neither `v` nor `/` cannot start a match. */
  lemma NoMarkerChar(url: string, j: nat)
    requires j < |url| && url[j] != 'v' && url[j] != '/'
    ensures !MarkedAt(url, j)
  {
  }

  /** A `/` followed, within eleven characters, by one that is not an id character cannot start a match. */
  lemma SlashBeforeNonId(url: string, j: nat, k: nat)
    requires j < k <= j + IdLength && k < |url|
    requires url[j] == '/' && !IsIdChar(url[k])
    ensures !MarkedAt(url, j)
  {
  }

  /** The id after `v=` in a watch URL is returned, whatever query parameters follow it. */
  lemma WatchUrl(id: string, rest: string)
    requires IsVideoId(id)
    ensures Extract("https://www.youtube.com/watch?v=" + id + rest) == Some(id)
  {
    var p := "https://www.youtube.com/watch?v=";
    var url := p + id + rest;
    assert url == p + (id + rest);
    forall j | 0 <= j < 30 ensures !MarkedAt(url, j) {
      if j == 6 { SlashBeforeNonId(url, 6, 7); }
      else if j == 7 { SlashBeforeNonId(url, 7, 11); }
      else if j == 23 { SlashBeforeNonId(url, 23, 29); }
      else { NoMarkerChar(url, j); }
    }
    assert url[30..32] == "v=";
    assert url[32..32 + IdLength] == id;
    assert MarkedAt(url, 30);
    ExtractAtLeftmost(url, 30);
    assert url[30..31][0] == url[30] == 'v';
  }

  /** The id after the short-link host is returned, whatever follows it. */
  lemma ShortLinkUrl(id: string, rest: string)
    requires IsVideoId(id)
    ensures Extract("https://youtu.be/" + id + rest) == Some(id)
  {
    var p := "https://youtu.be/";
    var url := p + id + rest;
    assert url == p + (id + rest);
    forall j | 0 <= j < 16 ensures !MarkedAt(url, j) {
      if j == 6 { SlashBeforeNonId(url, 6, 7); }
      else if j == 7 { SlashBeforeNonId(url, 7, 13); }
      else { NoMarkerChar(url, j); }
    }
    assert url[16..17] == "/";
    assert url[17..17 + IdLength] == id;
    assert MarkedAt(url, 16);
    ExtractAtLeftmost(url, 16);
    assert url[16..18][0] == url[16] == '/';
  }

  /** The id after `/embed/` is returned, whatever follows it. */
  lemma EmbedUrl(id: string, rest: string)
    requires IsVideoId(id)
    ensures Extract("https://www.youtube.com/embed/" + id + rest) == Some(id)
  {
    var p := "https://www.youtube.com/embed/";
    var url := p + id + rest;
    assert url == p + (id + rest);
    forall j | 0 <= j < 29 ensures !MarkedAt(url, j) {
      if j == 6 { SlashBeforeNonId(url, 6, 7); }
      else if j == 7 { SlashBeforeNonId(url, 7, 11); }
      else if j == 23 { SlashBeforeNonId(url, 23, 29); }
      else { NoMarkerChar(url, j); }
    }
    assert url[29..30] == "/";
    assert url[30..30 + IdLength] == id;
    assert MarkedAt(url, 29);
    ExtractAtLeftmost(url, 29);
    assert url[29..31][0] == url[29] == '/';
  }

  /** The id after `/shorts/` is returned, whatever follows it. */
  lemma ShortsUrl(id: string, rest: string)
    requires IsVideoId(id)
    ensures Extract("https://www.youtube.com/shorts/" + id + rest) == Some(id)
  {
    var p := "https://www.youtube.com/shorts/";
    var url := p + id + rest;
    assert url == p + (id + rest);
    forall j | 0 <= j < 30 ensures !MarkedAt(url, j) {
      if j == 6 { SlashBeforeNonId(url, 6, 7); }
      else if j == 7 { SlashBeforeNonId(url, 7, 11); }
      else if j == 23 { SlashBeforeNonId(url, 23, 30); }
      else { NoMarkerChar(url, j); }
    }
    assert url[30..31] == "/";
    assert url[31..31 + IdLength] == id;
    assert MarkedAt(url, 30);
    ExtractAtLeftmost(url, 30);
    assert url[30..32][0] == url[30] == '/';
  }

  /** A run of more than eleven id characters gives its first eleven. */
  lemma LongRunTruncated(run: string)
    requires |run| >= IdLength && forall k :: 0 <= k < |run| ==> IsIdChar(run[k])
    ensures Extract("https://youtu.be/" + run) == Some(run[..IdLength])
  {
    assert "https://youtu.be/" + run == "https://youtu.be/" + run[..IdLength] + run[IdLength..];
    ShortLinkUrl(run[..IdLength], run[IdLength..]);
  }

  /**
   * The first `/` followed by eleven id characters wins even when it is not the video's:
   * a path segment of eleven or more id characters right after the host is returned, cut
   * to eleven, and a `v=` parameter later in the URL is never reached. For instance
   * `https://www.youtube.com/attribution_link?u=/watch?v=...` yields `attribution`.
   */
  lemma FirstPathSegmentWins(segment: string, rest: string)
    requires IsVideoId(segment)
    ensures Extract("https://www.youtube.com/" + segment + rest) == Some(segment)
  {
    var p := "https://www.youtube.com/";
    var url := p + segment + rest;
    assert url == p + (segment + rest);
    forall j | 0 <= j < 23 ensures !MarkedAt(url, j) {
      if j == 6 { SlashBeforeNonId(url, 6, 7); }
      else if j == 7 { SlashBeforeNonId(url, 7, 11); }
      else { NoMarkerChar(url, j); }
    }
    assert url[23..24] == "/";
    assert url[24..24 + IdLength] == segment;
    assert MarkedAt(url, 23);
    ExtractAtLeftmost(url, 23);
    assert url[23..25][0] == url[23] == '/';
  }

  /** The empty URL has no id. */
  lemma EmptyUrl()
    ensures Extract("") == None
  {
    ExtractIsLeftmost("");
  }

  /** A short link whose id is shorter than eleven characters has no id. */
  lemma ShortCandidate()
    ensures Extract("https://youtu.be/abc") == None
  {
    var url := "https://youtu.be/abc";
    forall j | 0 <= j <= |url| ensures !MarkedAt(url, j) {
      if j == 6 { SlashBeforeNonId(url, 6, 7); }
      else if j == 7 { SlashBeforeNonId(url, 7, 13); }
      else if j < |url| && j != 16 { NoMarkerChar(url, j); }
    }
    ExtractIsLeftmost(url);
  }

  /** A URL with neither a `v=` nor a `/` followed by eleven id characters has no id. */
  lemma ForeignUrl()
    ensures Extract("https://example.com") == None
  {
    var url := "https://example.com";
    forall j | 0 <= j <= |url| ensures !MarkedAt(url, j) {
      if j == 6 { SlashBeforeNonId(url, 6, 7); }
      else if j == 7 { SlashBeforeNonId(url, 7, 15); }
      else if j < |url| { NoMarkerChar(url, j); }
    }
    ExtractIsLeftmost(url);
  }
}
