/**
 * The two template filters that turn a lesson's video link into something a
 * player can embed: youtube_id pulls the video id out of a YouTube URL, and
 * extract_embed_url accepts an iframe snippet, an embed URL or a watch URL.
 * The regular expressions are modelled by what a leftmost, backtracking
 * search finds.
 */
module YoutubeFilters {
  import opened Wrappers
  import opened Text

  const EmbedPrefix := "https://www.youtube.com/embed/"

  // ---------------------------------------------------------------------
  // marker([^stop]+)

  /** The longest run of characters other than stop starting at k. */
  function RunFrom(s: string, k: nat, stop: char): (r: string)
    requires k <= |s|
    decreases |s| - k
    ensures k + |r| <= |s| && r == s[k..k + |r|]
    ensures stop !in r
    ensures k + |r| == |s| || s[k + |r|] == stop
  {
    if k < |s| && s[k] != stop then [s[k]] + RunFrom(s, k + 1, stop) else []
  }

  /** The pattern marker([^stop]+) matches starting at j. */
  predicate RunMatchAt(s: string, marker: string, stop: char, j: nat)
  {
    OccursAt(s, marker, j) && j + |marker| < |s| && s[j + |marker|] != stop
  }

  /** The leftmost match at or after k. */
  function RunSearchFrom(s: string, marker: string, stop: char, k: nat): (r: Option<nat>)
    requires k <= |s|
    decreases |s| - k
    ensures r.Some? ==> k <= r.value && RunMatchAt(s, marker, stop, r.value)
                        && forall j :: k <= j < r.value ==> !RunMatchAt(s, marker, stop, j)
    ensures r.None? ==> forall j :: k <= j <= |s| ==> !RunMatchAt(s, marker, stop, j)
  {
    if RunMatchAt(s, marker, stop, k) then Some(k)
    else if k == |s| then None
    else RunSearchFrom(s, marker, stop, k + 1)
  }

  /** re.search(marker + '([^stop]+)', s).group(1), or '' without a match: the
      non-empty run after the leftmost marker that is followed by a character
      other than stop, running up to the next stop or the end. */
  function SearchRun(s: string, marker: string, stop: char): (r: string)
    ensures (r != "") <==> exists j :: 0 <= j <= |s| && RunMatchAt(s, marker, stop, j)
    ensures stop !in r
    ensures match RunSearchFrom(s, marker, stop, 0)
            case None => r == ""
            case Some(j) =>
              var k := j + |marker|;
              k + |r| <= |s| && r == s[k..k + |r|] && (k + |r| == |s| || s[k + |r|] == stop)
  {
    match RunSearchFrom(s, marker, stop, 0)
    case None => ""
    case Some(j) => RunFrom(s, j + |marker|, stop)
  }

  /** youtube_id: for a watch URL the run after the first usable "v=" up to
      '&'; otherwise for a short URL the run after "youtu.be/" up to '?';
      otherwise ''. */
  function YoutubeId(url: string): (r: string)
    ensures Contains(url, "youtube.com/watch?v=") ==> r == SearchRun(url, "v=", '&') && '&' !in r
    ensures !Contains(url, "youtube.com/watch?v=") && Contains(url, "youtu.be/") ==>
      r == SearchRun(url, "youtu.be/", '?') && '?' !in r
    ensures !Contains(url, "youtube.com/watch?v=") && !Contains(url, "youtu.be/") ==> r == ""
  {
    if Contains(url, "youtube.com/watch?v=") then SearchRun(url, "v=", '&')
    else if Contains(url, "youtu.be/") then SearchRun(url, "youtu.be/", '?')
    else ""
  }

  /** A watch URL whose "v=" is followed by something other than '&' has an
      id. */
  lemma WatchUrlHasId(url: string, k: nat)
    requires OccursAt(url, "youtube.com/watch?v=", k) && k + 20 < |url| && url[k + 20] != '&'
    ensures YoutubeId(url) != ""
  {
    assert url[k + 18..k + 20] == url[k..k + 20][18..20];
    assert RunMatchAt(url, "v=", '&', k + 18);
  }

  /** A short URL without a watch marker, whose "youtu.be/" is followed by
      something other than '?', has an id. */
  lemma ShortUrlHasId(url: string, k: nat)
    requires !Contains(url, "youtube.com/watch?v=")
    requires OccursAt(url, "youtu.be/", k) && k + 9 < |url| && url[k + 9] != '?'
    ensures YoutubeId(url) != ""
  {
    assert RunMatchAt(url, "youtu.be/", '?', k);
  }

  // ---------------------------------------------------------------------
  // <iframe[^>]*src=["']([^"']*)["'][^>]*>  (ignoring case)

  /** p occurs at j when s is lower-cased (p is lower case). */
  predicate OccursAtIgnoringCase(s: string, p: string, j: nat)
  {
    j + |p| <= |s| && Lower(s[j..j + |p|]) == p
  }

  predicate IsQuote(c: char)
  {
    c == '"' || c == '\''
  }

  /** The first quote at or after k, or the end of s. */
  function QuoteFrom(s: string, k: nat): (q: nat)
    requires k <= |s|
    decreases |s| - k
    ensures k <= q <= |s| && (q < |s| ==> IsQuote(s[q]))
    ensures forall m :: k <= m < q ==> !IsQuote(s[m])
  {
    if k == |s| || IsQuote(s[k]) then k else QuoteFrom(s, k + 1)
  }

  /** The pattern matches with its "<iframe" at i and its "src=" at p: no '>'
      between them, a quote right after "src=", a closing quote after the
      run of non-quotes, and a '>' somewhere after that. */
  predicate IframeAt(s: string, i: nat, p: nat)
  {
    && OccursAtIgnoringCase(s, "<iframe", i)
    && i + 7 <= p && p + 4 < |s|
    && (forall m :: i + 7 <= m < p ==> s[m] != '>')
    && OccursAtIgnoringCase(s, "src=", p)
    && IsQuote(s[p + 4])
    && var q := QuoteFrom(s, p + 5);
       q < |s| && '>' in s[q + 1..]
  }

  /** The captured src of a match whose "src=" is at p. */
  function SrcAt(s: string, p: nat): string
    requires p + 5 <= |s|
  {
    s[p + 5..QuoteFrom(s, p + 5)]
  }

  /** The largest p <= hi at which a match starting at i has its "src=". */
  function LastSrc(s: string, i: nat, hi: nat): (r: Option<nat>)
    decreases hi
    ensures r.Some? ==> r.value <= hi && IframeAt(s, i, r.value)
                        && forall p: nat :: r.value < p <= hi ==> !IframeAt(s, i, p)
    ensures r.None? ==> forall p: nat :: p <= hi ==> !IframeAt(s, i, p)
  {
    if IframeAt(s, i, hi) then Some(hi)
    else if hi == 0 then None
    else LastSrc(s, i, hi - 1)
  }

  /** The match a leftmost backtracking search finds, from start k on: the
      first start with any match, and there the last "src=" (the greedy
      [^>]* gives up characters from the right). */
  function IframeSearchFrom(s: string, k: nat): (r: Option<(nat, nat)>)
    requires k <= |s|
    decreases |s| - k
    ensures r.Some? ==>
      && k <= r.value.0 && IframeAt(s, r.value.0, r.value.1)
      && (forall i: nat, p: nat :: k <= i < r.value.0 ==> !IframeAt(s, i, p))
      && (forall p: nat :: r.value.1 < p ==> !IframeAt(s, r.value.0, p))
    ensures r.None? ==> forall i: nat, p: nat :: k <= i ==> !IframeAt(s, i, p)
  {
    IframeInside(s);
    var here := LastSrc(s, k, |s|);
    if here.Some? then Some((k, here.value))
    else
      NoneStartsAt(s, k);
      if k == |s| then None
      else IframeSearchFrom(s, k + 1)
  }

  /** When no "src=" up to the end works for start k, no match starts at k. */
  lemma NoneStartsAt(s: string, k: nat)
    requires LastSrc(s, k, |s|).None?
    ensures forall p: nat :: !IframeAt(s, k, p)
    ensures k == |s| ==> forall i: nat, p: nat :: k <= i ==> !IframeAt(s, i, p)
  {
    IframeInside(s);
  }

  /** A match lies inside s: its "src=" comes after its "<iframe" and
      before the end. */
  lemma IframeInside(s: string)
    ensures forall i: nat, p: nat :: IframeAt(s, i, p) ==> i + 7 <= p && p + 4 < |s|
  {
  }

  /** (i, p) is the match re.search returns: no match starts before i, and
      none starting at i has its "src=" after p. */
  ghost predicate LeftmostGreedy(s: string, i: nat, p: nat)
  {
    && IframeAt(s, i, p)
    && forall j: nat, q: nat :: IframeAt(s, j, q) ==> i <= j && (j == i ==> q <= p)
  }

  /** The src captured from the first iframe tag, if any. */
  function IframeSrc(s: string): (r: Option<string>)
    ensures r.Some? <==> exists i: nat, p: nat :: IframeAt(s, i, p)
    ensures r.Some? ==> exists i: nat, p: nat :: LeftmostGreedy(s, i, p) && p + 5 <= |s| && r.value == SrcAt(s, p)
    ensures r.Some? ==> '"' !in r.value && '\'' !in r.value
  {
    match IframeSearchFrom(s, 0)
    case None => None
    case Some((i, p)) =>
      var src := SrcAt(s, p);
      assert forall m :: 0 <= m < |src| ==> src[m] == s[p + 5 + m];
      assert LeftmostGreedy(s, i, p);
      Some(src)
  }

  // ---------------------------------------------------------------------
  // extract_embed_url

  /** A value the filter passes through as an embed URL. */
  predicate LooksEmbedded(v: string)
  {
    Contains(v, "/embed/") || Contains(v, "/video/")
  }

  /** A value the filter converts as a YouTube URL. */
  predicate LooksYouTube(v: string)
  {
    Contains(v, "youtube.com/watch?v=") || Contains(v, "youtu.be/")
  }

  /** extract_embed_url: '' for an empty value; the iframe's src when the
      value holds an iframe tag; the value itself when it already is an embed
      URL; the embed URL of a YouTube link with an id; the value itself
      otherwise. */
  function ExtractEmbedUrl(value: string): (r: string)
    ensures value == "" ==> r == ""
    ensures value != "" && IframeSrc(value).Some? ==> r == IframeSrc(value).value
    ensures value != "" && IframeSrc(value).None? && LooksEmbedded(value) ==> r == value
    ensures value != "" && IframeSrc(value).None? && !LooksEmbedded(value) ==>
      if LooksYouTube(value) && YoutubeId(value) != ""
      then r == EmbedPrefix + YoutubeId(value) && LooksEmbedded(r)
      else r == value
  {
    if value == "" then ""
    else match IframeSrc(value)
      case Some(src) => src
      case None =>
        if LooksEmbedded(value) then value
        else if LooksYouTube(value) && YoutubeId(value) != "" then
          EmbedWithPrefix(YoutubeId(value));
          EmbedPrefix + YoutubeId(value)
        else value
  }

  /** Every embed URL built from an id contains "/embed/". */
  lemma EmbedWithPrefix(id: string)
    ensures LooksEmbedded(EmbedPrefix + id)
  {
    assert OccursAt(EmbedPrefix + id, "/embed/", 23);
  }

  /** Applying the filter to its own result changes nothing, as long as
      neither the value nor the result holds an iframe tag. */
  lemma ExtractEmbedUrlIdempotent(value: string)
    requires IframeSrc(value).None?
    requires IframeSrc(ExtractEmbedUrl(value)).None?
    ensures ExtractEmbedUrl(ExtractEmbedUrl(value)) == ExtractEmbedUrl(value)
  {
  }
}
