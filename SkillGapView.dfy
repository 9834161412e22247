/**
 * The career skill-gap page: the comma-separated skills a student types are
 * matched by substring against a fixed table of career requirements, the
 * required skills are split into acquired and gap lists (each sorted), every
 * gap gets a YouTube search link, and the first lessons of the recommended
 * courses become embeddable videos.
 */
module SkillGapView {
  import opened Wrappers
  import opened Text
  import opened Sets
  import YoutubeFilters

  /** The skills each career requires, as the view lists them. */
  const CareerTable: map<string, seq<string>> := map[
    "Frontend Developer" := ["HTML", "CSS", "JavaScript", "React", "TypeScript", "UI/UX"],
    "Backend Developer" := ["Python", "Node.js", "SQL", "REST API", "Docker", "Database Design"],
    "Full Stack Developer" := ["HTML", "CSS", "JavaScript", "React", "Node.js", "SQL", "Python"],
    "Data Scientist" := ["Python", "SQL", "Statistics", "Machine Learning", "TensorFlow", "Pandas"],
    "DevOps Engineer" := ["Docker", "Kubernetes", "AWS", "CI/CD", "Linux", "Jenkins"],
    "Mobile Developer" := ["React Native", "Swift", "Kotlin", "Mobile UI", "Firebase"],
    "UI/UX Designer" := ["Figma", "UI Design", "UX Research", "Prototyping", "CSS"],
    "Cloud Architect" := ["AWS", "Azure", "GCP", "Architecture", "Security"]
  ]

  /** set(career_skills.get(career, [])): empty for a career not in the table. */
  function RequiredSkills(career: string): (r: set<string>)
    ensures career !in CareerTable ==> r == {}
  {
    if career in CareerTable then Elems(CareerTable[career]) else {}
  }

  // ---------------------------------------------------------------------
  // Parsing the typed skills

  /** The pieces of a split, stripped and lower-cased, blank ones dropped. */
  function TokensOf(parts: seq<string>): (r: seq<string>)
    ensures |r| <= |parts|
    ensures forall k | 0 <= k < |r| :: r[k] != ""
  {
    if parts == [] then []
    else
      var piece := PyStrip(parts[|parts| - 1]);
      TokensOf(parts[..|parts| - 1]) + (if piece != "" then [Lower(piece)] else [])
  }

  /** [s.strip().lower() for s in text.split(',') if s.strip()] */
  function Tokens(text: string): seq<string>
  {
    TokensOf(Split(text, ','))
  }

  /** The typed token is a substring of the lower-cased skill name. */
  predicate Matches(token: string, skill: string)
  {
    Contains(Lower(skill), token)
  }

  /** What one token claims: a required skill it matches, and nothing
      exactly when it matches none. */
  predicate ClaimOf(token: string, required: set<string>, claim: Option<string>)
  {
    && (claim.Some? <==> MatchesAny(token, required))
    && (claim.Some? ==> claim.value in required && Matches(token, claim.value))
  }

  /** claims[j] is what tokens[j] claimed: one claim, at most one skill, per
      token. */
  predicate OneClaimEach(tokens: seq<string>, required: set<string>, claims: seq<Option<string>>)
  {
    |claims| == |tokens| && forall j | 0 <= j < |tokens| :: ClaimOf(tokens[j], required, claims[j])
  }

  /** The skills some claim names. */
  function Claimed(claims: seq<Option<string>>): (r: set<string>)
    ensures |r| <= |claims|
    ensures forall a :: a in r <==> Some(a) in claims
  {
    if claims == [] then {}
    else
      var init, last := claims[..|claims| - 1], claims[|claims| - 1];
      assert claims == init + [last];
      Claimed(init) + (if last.Some? then {last.value} else {})
  }

  /** The matching loop. Each token claims the first required skill it
      matches, in the set's iteration order, which this model leaves open:
      claims records what each token claimed (at most one skill, and one
      exactly when the token matches any), and the acquired skills are the
      claimed ones. Hence every acquired skill is matched by some token and
      every token that matches a required skill has claimed one. */
  method MatchSkills(tokens: seq<string>, required: set<string>)
    returns (acquired: set<string>, ghost claims: seq<Option<string>>)
    ensures OneClaimEach(tokens, required, claims) && acquired == Claimed(claims)
    ensures acquired <= required
    ensures |acquired| <= |tokens|
    ensures forall a | a in acquired :: exists t | t in tokens :: Matches(t, a)
    ensures forall t | t in tokens && (exists s | s in required :: Matches(t, s)) ::
      exists a | a in acquired :: Matches(t, a)
  {
    acquired := {};
    claims := [];
    for i := 0 to |tokens|
      invariant |claims| == i && forall j | 0 <= j < i :: ClaimOf(tokens[j], required, claims[j])
      invariant acquired == Claimed(claims)
    {
      var claimed := FirstMatch(tokens[i], required);
      if claimed.Some? {
        acquired := acquired + {claimed.value};
      }
      ClaimsStep(tokens, required, claims, claimed);
      claims := claims + [claimed];
    }
    ClaimsConclusion(tokens, required, claims);
  }

  /** The next token's claim extends the record of claims, and adds its
      skill, if any, to the claimed set. */
  lemma ClaimsStep(tokens: seq<string>, required: set<string>, claims: seq<Option<string>>, claim: Option<string>)
    requires |claims| < |tokens| && forall j | 0 <= j < |claims| :: ClaimOf(tokens[j], required, claims[j])
    requires ClaimOf(tokens[|claims|], required, claim)
    ensures forall j | 0 <= j < |claims| + 1 :: ClaimOf(tokens[j], required, (claims + [claim])[j])
    ensures Claimed(claims + [claim]) == Claimed(claims) + (if claim.Some? then {claim.value} else {})
  {
    var next := claims + [claim];
    forall j | 0 <= j < |claims| + 1 ensures ClaimOf(tokens[j], required, next[j]) {
      if j < |claims| {
        assert next[j] == claims[j];
      }
    }
    ClaimedSnoc(claims, claim);
  }

  /** One more claim adds its skill, if any, to the claimed set. */
  lemma ClaimedSnoc(claims: seq<Option<string>>, claim: Option<string>)
    ensures Claimed(claims + [claim]) == Claimed(claims) + (if claim.Some? then {claim.value} else {})
  {
    assert (claims + [claim])[..|claims|] == claims;
  }


  /** What one claim per token gives: the claimed skills are required
      ones, no more of them than tokens, each matched by some token, and
      every token that matches a required skill matches a claimed one. */
  lemma ClaimsConclusion(tokens: seq<string>, required: set<string>, claims: seq<Option<string>>)
    requires OneClaimEach(tokens, required, claims)
    ensures Claimed(claims) <= required
    ensures |Claimed(claims)| <= |tokens|
    ensures forall a | a in Claimed(claims) :: exists t | t in tokens :: Matches(t, a)
    ensures forall t | t in tokens && (exists s | s in required :: Matches(t, s)) ::
      exists a | a in Claimed(claims) :: Matches(t, a)
  {
    forall a | a in Claimed(claims) ensures a in required && exists t | t in tokens :: Matches(t, a) {
      var j :| 0 <= j < |claims| && claims[j] == Some(a);
      assert ClaimOf(tokens[j], required, claims[j]);
      assert tokens[j] in tokens;
    }
    forall t | t in tokens && (exists s | s in required :: Matches(t, s))
      ensures exists a | a in Claimed(claims) :: Matches(t, a)
    {
      var j :| 0 <= j < |tokens| && tokens[j] == t;
      assert ClaimOf(tokens[j], required, claims[j]);
      assert claims[j].value in Claimed(claims);
    }
  }

  /** Some skill of the set is matched by the token. */
  predicate MatchesAny(token: string, skills: set<string>)
  {
    exists s | s in skills :: Matches(token, s)
  }

  /** The inner loop for one token: the first required skill, in the set's
      iteration order, that the token matches; none when it matches no
      skill. */
  method FirstMatch(token: string, required: set<string>) returns (claimed: Option<string>)
    ensures claimed.Some? ==> claimed.value in required && Matches(token, claimed.value)
    ensures claimed.None? <==> forall s | s in required :: !Matches(token, s)
    ensures ClaimOf(token, required, claimed)
  {
    var unvisited := required;
    while unvisited != {}
      invariant unvisited <= required
      invariant forall s | s in required - unvisited :: !Matches(token, s)
      decreases unvisited
    {
      var skill :| skill in unvisited;
      if Matches(token, skill) {
        return Some(skill);
      }
      unvisited := unvisited - {skill};
    }
    return None;
  }

  /** sorted(list(s)): every element once, in increasing code-point order. */
  method SortedList(s: set<string>) returns (r: seq<string>)
    ensures StrictlySorted(r) && Elems(r) == s && |r| == |s|
  {
    r := [];
    var rest := s;
    while rest != {}
      invariant rest <= s && StrictlySorted(r)
      invariant Elems(r) == s - rest && |r| + |rest| == |s|
      decreases rest
    {
      var x :| x in rest;
      r := InsertSorted(r, x);
      rest := rest - {x};
    }
  }

  // ---------------------------------------------------------------------
  // Search links for the gaps

  const SearchPrefix := "https://www.youtube.com/results?search_query=learn+"

  /** The search link of a gap skill: the prefix, then the name with every
      space replaced by '+'. */
  function GapLink(skill: string): (r: string)
    ensures |r| == |SearchPrefix| + |skill| && r[..|SearchPrefix|] == SearchPrefix
    ensures ' ' !in r[|SearchPrefix|..]
  {
    SearchPrefix + ReplaceChar(skill, ' ', '+')
  }

  /** The skill name is recoverable from its link when it has no '+' of its
      own. */
  lemma GapLinkRecoversSkill(skill: string)
    requires '+' !in skill
    ensures ReplaceChar(GapLink(skill)[|SearchPrefix|..], '+', ' ') == skill
  {
    var encoded := GapLink(skill)[|SearchPrefix|..];
    assert encoded == ReplaceChar(skill, ' ', '+');
    assert forall k | 0 <= k < |skill| :: ReplaceChar(encoded, '+', ' ')[k] == skill[k];
  }

  datatype GapEntry = GapEntry(name: string, youtubeUrl: string)

  function Names(gaps: seq<GapEntry>): (r: seq<string>)
    ensures |r| == |gaps| && forall i | 0 <= i < |gaps| :: r[i] == gaps[i].name
  {
    seq(|gaps|, i requires 0 <= i < |gaps| => gaps[i].name)
  }

  // ---------------------------------------------------------------------
  // Videos from the recommended courses' first lessons

  /** A link the view treats as YouTube. */
  predicate IsYouTubeLink(v: string)
  {
    Contains(v, "youtube.com/watch") || Contains(v, "youtu.be/")
  }

  /** The video id cut out of a link: after the first "v=", up to the next
      '&' or "v="; otherwise after the first "youtu.be/", up to the next '?' or
      "youtu.be/"; no id when the link has neither. */
  function VideoId(v: string): (r: Option<string>)
    ensures Contains(v, "v=") ==>
      && r.Some? && '&' !in r.value && !Contains(r.value, "v=")
      && var after := v[IndexOf(v, "v=").value + 2..];
         r.value <= after && (r.value == after || after[|r.value|] == '&' || OccursAt(after, "v=", |r.value|))
    ensures !Contains(v, "v=") && Contains(v, "youtu.be/") ==>
      && r.Some? && '?' !in r.value && !Contains(r.value, "youtu.be/")
      && var after := v[IndexOf(v, "youtu.be/").value + 9..];
         r.value <= after && (r.value == after || after[|r.value|] == '?' || OccursAt(after, "youtu.be/", |r.value|))
    ensures !Contains(v, "v=") && !Contains(v, "youtu.be/") ==> r.None?
  {
    if Contains(v, "v=") then Some(Cut(v, "v=", '&'))
    else if Contains(v, "youtu.be/") then Some(Cut(v, "youtu.be/", '?'))
    else None
  }

  /** s.split(marker)[1].split(stop)[0] */
  function Cut(s: string, marker: string, stop: char): (r: string)
    requires marker != [] && Contains(s, marker)
    ensures stop !in r && !Contains(r, marker)
    ensures var after := s[IndexOf(s, marker).value + |marker|..];
            r <= after && (r == after || after[|r|] == stop || OccursAt(after, marker, |r|))
  {
    CutProperties(s, marker, stop);
    SplitHead(SplitSecond(s, marker), [stop])
  }

  lemma CutProperties(s: string, marker: string, stop: char)
    requires marker != [] && Contains(s, marker)
    ensures var r := SplitHead(SplitSecond(s, marker), [stop]);
            var after := s[IndexOf(s, marker).value + |marker|..];
            && stop !in r && !Contains(r, marker)
            && r <= after && (r == after || after[|r|] == stop || OccursAt(after, marker, |r|))
  {
    var between := SplitSecond(s, marker);
    var r := SplitHead(between, [stop]);
    ContainsChar(r, stop);
    if Contains(r, marker) {
      ContainsInPrefix(r, between, marker);
    }
    if r != between {
      assert between[|r|..|r| + 1] == [stop];
    }
  }

  datatype EmbedKind = YouTube | VideoFile

  datatype Embedded = Embedded(src: string, kind: EmbedKind)

  /** The embed source for a lesson's video URL, once stripped: a YouTube
      embed URL when the link is YouTube's and yields a non-empty id, the URL
      itself for any other non-empty link, and nothing otherwise. */
  function Embed(url: string): (r: Option<Embedded>)
    ensures r.Some? ==> r.value.src != ""
    ensures var v := PyStrip(url);
            !IsYouTubeLink(v) ==> r == if v != "" then Some(Embedded(v, VideoFile)) else None
    ensures var v := PyStrip(url);
            IsYouTubeLink(v) ==>
              (r.Some? <==> VideoId(v).Some? && VideoId(v).value != "")
              && (r.Some? ==> r.value == Embedded(YoutubeFilters.EmbedPrefix + VideoId(v).value, YouTube))
  {
    var v := PyStrip(url);
    if IsYouTubeLink(v) then
      match VideoId(v)
      case Some(id) => if id != "" then Some(Embedded(YoutubeFilters.EmbedPrefix + id, YouTube)) else None
      case None => None
    else if v != "" then Some(Embedded(v, VideoFile))
    else None
  }

  /** A recommended course with the video URL of its first lesson (None when
      the course has no lesson or the lesson no URL). */
  datatype CourseVideo = CourseVideo(title: string, firstLessonUrl: Option<string>)

  datatype VideoEntry = VideoEntry(title: string, embedSrc: string, kind: EmbedKind)

  /** The entry a course contributes: one when its first lesson has a URL that
      embeds, none otherwise. */
  function VideoFor(course: CourseVideo): (r: seq<VideoEntry>)
    ensures |r| <= 1
    ensures forall e | e in r :: e.title == course.title && e.embedSrc != ""
  {
    match course.firstLessonUrl
    case None => []
    case Some(url) =>
      if url == "" then []
      else match Embed(url)
        case None => []
        case Some(e) => [VideoEntry(course.title, e.src, e.kind)]
  }

  /** The entries of the courses, in course order. */
  function VideosOf(courses: seq<CourseVideo>): (r: seq<VideoEntry>)
    ensures |r| <= |courses|
    ensures forall e | e in r :: e.embedSrc != ""
  {
    if courses == [] then []
    else VideosOf(courses[..|courses| - 1]) + VideoFor(courses[|courses| - 1])
  }

  /** The loop building recommended_videos. */
  method RecommendedVideos(courses: seq<CourseVideo>) returns (videos: seq<VideoEntry>)
    ensures videos == VideosOf(courses)
  {
    videos := [];
    for i := 0 to |courses|
      invariant videos == VideosOf(courses[..i])
    {
      var course := courses[i];
      match course.firstLessonUrl {
        case Some(url) =>
          if url != "" {
            var embed := Embed(url);
            if embed.Some? {
              videos := videos + [VideoEntry(course.title, embed.value.src, embed.value.kind)];
            }
          }
        case None =>
      }
      assert courses[..i + 1][..i] == courses[..i];
    }
    assert courses[..|courses|] == courses;
  }

  // ---------------------------------------------------------------------
  // The page

  /** What the page shows: whether the analysis ran, the acquired skills, the
      gaps with their links and the videos. */
  datatype GapReport = GapReport(analysed: bool, acquired: seq<string>, gaps: seq<GapEntry>, videos: seq<VideoEntry>)

  /** The acquired and gap lists: both sorted, together the required skills,
      with no skill in both; the acquired skills are those the tokens
      claimed. */
  method Partition(tokens: seq<string>, required: set<string>)
    returns (acquiredSkills: seq<string>, gapSkills: seq<string>)
    ensures StrictlySorted(acquiredSkills) && StrictlySorted(gapSkills)
    ensures Elems(acquiredSkills) !! Elems(gapSkills)
    ensures Elems(acquiredSkills) + Elems(gapSkills) == required
    ensures exists claims :: OneClaimEach(tokens, required, claims) && Elems(acquiredSkills) == Claimed(claims)
    ensures |acquiredSkills| <= |tokens|
    ensures forall a | a in acquiredSkills :: exists t | t in tokens :: Matches(t, a)
    ensures forall t | t in tokens && (exists s | s in required :: Matches(t, s)) ::
      exists a | a in acquiredSkills :: Matches(t, a)
  {
    var acquired;
    ghost var claims;
    acquired, claims := MatchSkills(tokens, required);
    var gap := required - acquired;
    acquiredSkills := SortedList(acquired);
    gapSkills := SortedList(gap);
    assert OneClaimEach(tokens, required, claims) && Elems(acquiredSkills) == Claimed(claims);
    forall a | a in acquiredSkills ensures exists t | t in tokens :: Matches(t, a) {
      assert a in Elems(acquiredSkills);
    }
    forall t | t in tokens && (exists s | s in required :: Matches(t, s))
      ensures exists a | a in acquiredSkills :: Matches(t, a)
    {
      var a :| a in acquired && Matches(t, a);
      assert a in Elems(acquiredSkills);
    }
  }

  /** The gap entries, one per gap skill in order, each with its link. */
  function GapEntries(gapSkills: seq<string>): (r: seq<GapEntry>)
    ensures Names(r) == gapSkills
    ensures forall g | g in r :: g.youtubeUrl == GapLink(g.name)
  {
    seq(|gapSkills|, i requires 0 <= i < |gapSkills| => GapEntry(gapSkills[i], GapLink(gapSkills[i])))
  }

  /** The analysis proper, for the parsed tokens and the career's required
      skills: the sorted partition, each gap with its search link, and the
      videos of the courses recommended for the first gap (none without a
      gap). */
  method Analyse(tokens: seq<string>, required: set<string>, coursesForFirstGap: seq<CourseVideo>)
    returns (report: GapReport)
    ensures report.analysed
    ensures StrictlySorted(report.acquired) && StrictlySorted(Names(report.gaps))
    ensures Elems(report.acquired) !! Elems(Names(report.gaps))
    ensures Elems(report.acquired) + Elems(Names(report.gaps)) == required
    ensures exists claims :: OneClaimEach(tokens, required, claims) && Elems(report.acquired) == Claimed(claims)
    ensures |report.acquired| <= |tokens|
    ensures forall a | a in report.acquired :: exists t | t in tokens :: Matches(t, a)
    ensures forall t | t in tokens && (exists s | s in required :: Matches(t, s)) ::
      exists a | a in report.acquired :: Matches(t, a)
    ensures forall g | g in report.gaps :: g.youtubeUrl == GapLink(g.name)
    ensures report.videos == if report.gaps == [] then [] else VideosOf(coursesForFirstGap)
  {
    var acquiredSkills, gapSkills := Partition(tokens, required);
    var gaps := GapEntries(gapSkills);
    var videos: seq<VideoEntry> := [];
    if gapSkills != [] {
      videos := RecommendedVideos(coursesForFirstGap);
    }
    report := GapReport(true, acquiredSkills, gaps, videos);
  }

  /** The POST of skill_gap: nothing is analysed unless both fields are
      non-empty, and a career missing from the table has no required skills,
      so both lists are then empty. coursesForFirstGap stands for the result
      of the course query. */
  method SkillGap(career: string, userSkills: string, coursesForFirstGap: seq<CourseVideo>)
    returns (report: GapReport)
    ensures career == "" || userSkills == "" ==> report == GapReport(false, [], [], [])
    ensures career != "" && userSkills != "" ==>
      && report.analysed
      && Elems(report.acquired) + Elems(Names(report.gaps)) == RequiredSkills(career)
      && |report.acquired| <= |Tokens(userSkills)|
    ensures career !in CareerTable ==> report.acquired == [] && report.gaps == []
  {
    if career == "" || userSkills == "" {
      return GapReport(false, [], [], []);
    }
    report := Analyse(Tokens(userSkills), RequiredSkills(career), coursesForFirstGap);
    ElemsEmpty(report.acquired);
    ElemsEmpty(Names(report.gaps));
  }
}
