# SkillNest rules, modelled in Dafny

SkillNest is a Django learning platform. Students enrol in courses, watch lessons and earn skills and certificates. Teachers publish courses, and the site recommends jobs and careers from a student's skills. A small browser script offers its own career suggester.

This project models the decision logic inside that application. The database is a set of maps keyed by the `unique_together` pairs. A view's outcome is a datatype. Objects whose fields the code updates in place (`Enrollment`, `ContactMessage`, the recommendation table, the enrollment/skill/certificate tables) are classes.

Modules:

- `Recommendations`: match scoring, the job recommendation list, the stored recommendation upserts and the career-path gap analysis.
- `Models`: `Enrollment` (progress), `ContactMessage` (resolution) and the enrolled count.
- `LearningViews`: enrolling and completing lessons over the enrollment, student-skill and certificate tables.
- `SkillGapView`: the career skill-gap page, including its video-embed conversion.
- `AccountViews`: signup validation, lesson navigation and the initial lesson of a new course.
- `YoutubeFilters`: the `youtube_id` and `extract_embed_url` template filters.
- `SkillNestJs`: `normalizeSkill`, `skillGap` and `suggestCareers` from the browser script.
- `SocialLinks`: `SocialLinkForm.clean` and the add/edit/delete views it guards.
- `AccessGates`: the `teacher_required` / `admin_required` decorators and the instructor checks of the teacher views.
- Shared support: `Text` (strip, case, search, split, code-point order), `Ranking` (the stable sort behind `list.sort` and `Array.prototype.sort`), `Percent`, `Sets` and `Wrappers`.

Python's and JavaScript's library sorts are specified by a stable insertion sort (`Ranking.StableSort`). Floats are exact reals, and `int(x)` of a non-negative ratio is integer division.

## Model

| member | source | states |
|---|---|---|
| Recommendations.CalculateMatchScore | skillnest_app/recommendations.py:24-35 | (0, 0, 0) for a job with no skills. Otherwise `matched = |U ∩ J|` and `required = |J|` over the distinct ids, with `score * required = matched`. The score lies in 0..1, and is positive exactly when the student holds one of the job's skills. |
| Recommendations.MatchScoreIgnoresRepeats | skillnest_app/recommendations.py:24-25 | Repeating ids in either list does not change the result. |
| Recommendations.Entry | skillnest_app/recommendations.py:71-85 | The score, matched count and required count are those of `calculate_match_score` for the job. The missing ids are disjoint from the user's skills and together with them cover the job's skills. `missing_skills_count = required − matched`. `match_percent` is the truncated percentage, lies in 0..100, and is 100 exactly when every required skill is held. |
| Recommendations.KeptExactly | skillnest_app/recommendations.py:63-92 | A job gets an entry if and only if the student shares a skill with it, and that entry is the one built for it. |
| Recommendations.GetJobRecommendations | skillnest_app/recommendations.py:38-98 | The loop's result is the kept entries, stably sorted by (score, posted date) descending and cut to `limit`. |
| Recommendations.RecommendIsTopRanked | skillnest_app/recommendations.py:94-98 | At most `limit` entries, ordered, and a prefix of the fully sorted kept list, which is a permutation of the kept entries. Nothing left out ranks ahead of anything kept. Everything is kept when it fits. Equal keys keep their job order. |
| Recommendations.UpsertAllRows | skillnest_app/recommendations.py:119-129 | After the upserts there is one row per (user, job) of the list, scored from the last entry for that job. `recommended_at` is kept when the row already existed. Every other row is untouched. |
| Recommendations.UpsertAllIdempotent | skillnest_app/recommendations.py:119-129 | Upserting the same list again leaves the table as it was. |
| Recommendations.StoreAll | skillnest_app/recommendations.py:119-131 | The loop leaves the table as the upsert of every entry, in list order. It returns one stored row per entry, with that entry's match score, matched count and required count. |
| Recommendations.RecommendationStore.GenerateForUser | skillnest_app/recommendations.py:101-132 | For a student with no skills: returns nothing and leaves the table unchanged. Otherwise: the table becomes the upserts of the top-50 list, and the returned rows carry that list's scores in its order. |
| Recommendations.SkillGapAnalysis | skillnest_app/recommendations.py:146-168 | missing = R \ U and acquired + missing = total. Completion lies in 0..100 and is 100 exactly when R ⊆ U (including R empty). |
| Percent.TruncatedPercent | skillnest_app/recommendations.py:156-166 | 100 for an empty whole. Otherwise the integer percentage lies in 0..100 and is 100 exactly when part = whole. |
| Percent.Ratio | skillnest_app/recommendations.py:33 | The share of matched skills is a fraction in 0..1 that gives the matched count back when multiplied by the total. It is 0 exactly when nothing matched and 1 exactly when everything did. |
| Percent.RatioPercentIsTruncated | skillnest_app/models.py:147-148 | `int(completed / total * 100)` over exact rationals equals `completed * 100 div total`. |
| Ranking.StableSortRanked | skillnest_app/recommendations.py:95 | The sorted list has no element ranked strictly ahead of an earlier one. |
| Ranking.StableSortStable | skillnest_app/recommendations.py:95 | The sort is stable: the elements sharing a key keep their input order. |
| Models.Progress | skillnest_app/models.py:141-149 | 100 for a course without lessons. With completed ⊆ lessons, progress lies in 0..100 and is 100 exactly when every lesson is completed. |
| Models.Enrollment.constructor | skillnest_app/models.py:126-132 | A new enrollment is `in_progress` with progress 0, no completed lessons and no completion date. |
| Models.Enrollment.UpdateProgress | skillnest_app/models.py:141-149 | Only `progress_percent` changes. It becomes the truncated completed/total percentage (100 without lessons), within 0..100 for completed ⊆ lessons. |
| Models.EnrolledCount | skillnest_app/models.py:93-94 | Counts the course's enrollments whose status is `in_progress`; never more than its enrollments. |
| Models.ContactMessage.constructor | skillnest_app/models.py:408-410 | A new message is unresolved with no resolution time. |
| Models.ContactMessage.MarkResolved | skillnest_app/models.py:418-423 | Afterwards the message is resolved at the given time, whatever its state before, so a second call keeps the flag set. |
| LearningViews.CourseRecords.Enroll | skillnest_app/views.py:628-643 | 404 for an unknown course. A repeat leaves the tables unchanged. A first enrollment adds exactly one fresh `in_progress` enrollment under (user, course). The enrolled count grows by one exactly when an enrollment is created. |
| LearningViews.CourseRecords.RecordCompletion | skillnest_app/views.py:655-674 | Corrected step. Adds the lesson and recomputes progress. Below 100 nothing else changes. At 100: status `completed`, the course's skills granted without duplicates, and one certificate per (user, course) kept or issued. A fresh code that collides gives IntegrityError. |
| LearningViews.CourseRecords.RecordCompletionAsWritten | skillnest_app/views.py:655-674 | The step as written: at 100 it always creates a certificate. This raises IntegrityError when (user, course) already has one or the code is taken. |
| LearningViews.CourseRecords.MarkLessonComplete | skillnest_app/views.py:646-680 | 404 unless the lesson exists and the user is enrolled in its course; then nothing changes. Otherwise only that enrollment may change: the lesson joins its completed set and progress is recomputed. Below 100, status, completion date, skills and certificates stay as they were. At 100: status `completed` with the completion date, the course's skills granted, and one certificate per (user, course) kept or issued. A taken code gives IntegrityError and leaves the certificates unchanged. |
| LearningViews.CourseRecords.MarkLessonCompleteAsWritten | skillnest_app/views.py:646-680 | The view as written, with the same whole-state contract. At 100 it grants the skills, and the result is IntegrityError (certificates unchanged) exactly when (user, course) already has a certificate or the code is taken. |
| LearningViews.CourseRecords.WatchLessonMarkComplete | skillnest_app/views.py:554-586 | 404 for an unknown course or a lesson of another course. A user without an enrollment is redirected to the course page (`NotEnrolled`). An already completed lesson changes nothing. Otherwise only the user's enrollment may change, by the corrected completion step, with the same whole-state contract as `MarkLessonComplete`. |
| LearningViews.CourseRecords.WatchLessonMarkCompleteAsWritten | skillnest_app/views.py:554-586 | The view as written: the same guards, then the step that always creates a certificate at 100. |
| LearningViews.DoubleMarkAsWritten | skillnest_app/views.py:669-674 | Marking a one-lesson course's lesson twice as written: the first call completes the course and the second raises IntegrityError. |
| LearningViews.DoubleMark | skillnest_app/views.py:669-674 | The same two calls with the corrected step both complete, leaving exactly one certificate. |
| LearningViews.LessonsOfAdded | skillnest_app/models.py:143 | Adding a lesson to a course adds exactly that lesson to the course's lessons and leaves other courses' lessons unchanged. |
| LearningViews.CompletedOneLessonCourse | skillnest_app/views.py:565-581 | Watching the only lesson of a one-lesson course completes it and issues one certificate. |
| LearningViews.NewLessonWatchAsWritten | skillnest_app/views.py:580-581 | After a lesson is added to a completed course, watching it with `watch_lesson` as written raises IntegrityError. |
| LearningViews.NewLessonWatch | skillnest_app/views.py:580-581 | The same watch with the corrected step completes the course again and keeps the first certificate. |
| SkillGapView.RequiredSkills | skillnest_app/views.py:854-865 | The career's skills from the fixed table, or none for an unknown career. |
| SkillGapView.TokensOf | skillnest_app/views.py:851 | At most one token per comma-separated piece, and no token is empty. |
| SkillGapView.MatchSkills | skillnest_app/views.py:866-873 | The loop gives each token at most one claim. A token claims a skill exactly when it matches some required skill. The claimed skill is required and matched by that token. The acquired skills are exactly the claimed ones. Hence acquired skills are required, no more numerous than the tokens, and each is a skill whose lower-cased name contains some token. |
| SkillGapView.ClaimsConclusion | skillnest_app/views.py:866-873 | From one claim per token: the claimed skills are required ones, no more than the tokens, each matched by a token, and every token that matches a required skill matches a claimed one. |
| SkillGapView.FirstMatch | skillnest_app/views.py:868-871 | The inner loop claims a required skill whose lower-cased name contains the token. It claims nothing exactly when no required skill matches. |
| SkillGapView.SortedList | skillnest_app/views.py:877-878 | `sorted(list(s))`: strictly ascending in code-point order, with exactly the elements of the set. |
| SkillGapView.GapLink | skillnest_app/views.py:884 | The search prefix followed by the skill with no space left in it. |
| SkillGapView.GapLinkRecoversSkill | skillnest_app/views.py:884 | For a skill without '+', turning '+' back into spaces in the link's tail gives the skill back. |
| SkillGapView.GapEntries | skillnest_app/views.py:881-887 | One entry per gap skill in the same order, each with its search link. |
| SkillGapView.VideoId | skillnest_app/views.py:904-916 | The id is the text after the first `v=` (else after the first `youtu.be/`), up to the next `&` (`?`) or the next marker. None when neither marker is present. |
| SkillGapView.CutProperties | skillnest_app/views.py:909-914 | `split(marker)[1].split(stop)[0]` is a prefix of the text after the first marker, free of the stop character and the marker, and it ends where the text, a stop or a marker does. |
| SkillGapView.Embed | skillnest_app/views.py:899-921 | A YouTube link becomes an embed URL exactly when its id is non-empty. Any other non-empty stripped link is used as a video file. No entry has an empty source. |
| SkillGapView.VideoFor | skillnest_app/views.py:897-929 | At most one video per course, titled with the course's title, with a non-empty source. |
| SkillGapView.VideosOf | skillnest_app/views.py:896-929 | At most one video per recommended course, all with a non-empty source. |
| SkillGapView.RecommendedVideos | skillnest_app/views.py:896-929 | The loop over the courses builds exactly the videos of VideosOf. |
| SkillGapView.Partition | skillnest_app/views.py:865-878 | Acquired and gap lists are strictly sorted, disjoint and together the required set. The acquired list is no longer than the token list, and the matching guarantees of MatchSkills hold. Its elements are the claims of a record giving each token at most one skill. |
| SkillGapView.Analyse | skillnest_app/views.py:865-930 | The partition, the links, and videos only when a gap exists. The acquired skills are those claimed with at most one skill per token. |
| SkillGapView.SkillGap | skillnest_app/views.py:845-930 | Nothing analysed without a career and skills text. Otherwise acquired and gap skills cover the career's required skills. An unknown career gives two empty lists. |
| AccountViews.Signup | skillnest_app/views.py:55-88 | Checks run in order: missing field, password mismatch, password under 6, username taken, e-mail taken. Each error is returned exactly when it is the first failing check. A user with the stripped names and the posted role is created exactly when all pass. |
| AccountViews.SignupTwiceRejected | skillnest_app/views.py:75-84 | Repeating a successful signup finds the username taken. |
| AccountViews.SignupGrantsPostedAdmin | skillnest_app/views.py:60-95 | As written, a POST with role `admin` creates an admin account. |
| AccountViews.SignupRestricted | skillnest_app/views.py:94-95 | Corrected signup: the same checks and the same accounts, but a created account's role is always `student` or `teacher`. |
| AccountViews.IndexIn | skillnest_app/views.py:604 | `list.index`: the first position holding the lesson. |
| AccountViews.Navigate | skillnest_app/views.py:597-606 | Number = index + 1. The previous lesson is absent exactly at the first position, the next exactly at the last, and otherwise they are the neighbours. |
| AccountViews.NextThenPrevious | skillnest_app/views.py:603-606 | With distinct lessons, the next lesson's number is one more and its previous lesson is the current one. |
| AccountViews.InitialLesson | skillnest_app/views.py:277-286 | A lesson is created exactly when a title, file or URL is given. The title defaults to `Introduction`. A given file wins and drops the URL; otherwise the URL is kept. |
| YoutubeFilters.SearchRun | skillnest_app/templatetags/youtube_filters.py:10-14 | `re.search(marker([^stop]+))`: non-empty exactly when some marker is followed by a non-stop character. The leftmost such run has no stop in it and ends at a stop or at the end. |
| YoutubeFilters.YoutubeId | skillnest_app/templatetags/youtube_filters.py:7-15 | The watch branch takes priority (a run after `v=`, free of `&`). Then the short-link branch (a run after `youtu.be/`, free of `?`). Otherwise ''. |
| YoutubeFilters.WatchUrlHasId | skillnest_app/templatetags/youtube_filters.py:9-11 | A watch URL whose `v=` is followed by a non-`&` character has a non-empty id. |
| YoutubeFilters.ShortUrlHasId | skillnest_app/templatetags/youtube_filters.py:12-14 | A short link (no watch marker) whose `youtu.be/` is followed by a non-`?` character has a non-empty id. |
| YoutubeFilters.IframeSearchFrom | skillnest_app/templatetags/youtube_filters.py:24 | The regex's match: the leftmost `<iframe` with a match, and there the last `src=`. No earlier start and no later `src=` matches. |
| YoutubeFilters.IframeSrc | skillnest_app/templatetags/youtube_filters.py:24-26 | A src is found exactly when the iframe pattern matches somewhere. It is the quoted text of the match `re.search` returns: no match starts earlier, and none at the same start has a later `src=`. It contains no quote. |
| YoutubeFilters.ExtractEmbedUrl | skillnest_app/templatetags/youtube_filters.py:18-39 | '' for empty input. Then in order: the iframe src; the value itself for `/embed/` or `/video/`; the embed URL (which contains `/embed/`) for a YouTube link with an id; the value itself otherwise. |
| YoutubeFilters.EmbedWithPrefix | skillnest_app/templatetags/youtube_filters.py:36 | Every built embed URL contains `/embed/`. |
| YoutubeFilters.ExtractEmbedUrlIdempotent | skillnest_app/templatetags/youtube_filters.py:29-36 | Applying the filter to its own result returns it unchanged, when neither holds an iframe tag. |
| SkillNestJs.SkillsOf | static/js/skillnest.js:22 | `CAREER_SKILLS[key] || []`: the table's list for a known key, [] for an unknown one. |
| SkillNestJs.NormalizeSkill | static/js/skillnest.js:17-19 | No whitespace at either end and no upper-case ASCII letter. The result is the lower-cased form of a slice of the input, and every character outside that slice is JavaScript whitespace. |
| SkillNestJs.NormalizeSkillIdempotent | static/js/skillnest.js:17-19 | Normalising twice equals normalising once. |
| SkillNestJs.Filter | static/js/skillnest.js:26-29 | A skill is in `have` (`missing`) exactly when its lower-cased form is (is not) a normalised user skill: exact membership. |
| SkillNestJs.FilterKeepsOrder | static/js/skillnest.js:26-29 | `have` (`missing`) is the career's list read at strictly increasing positions, and those are exactly the positions of the skills the user has (lacks): the push loop keeps list order. |
| SkillNestJs.FilterPartition | static/js/skillnest.js:24-30 | `have` and `missing` together are the career's list, with repeats; their lengths add up. |
| SkillNestJs.SkillGap | static/js/skillnest.js:21-31 | The forEach builds exactly the two order-preserving filters. An unknown career gives two empty lists. |
| SkillNestJs.Title | static/js/skillnest.js:43 | Same length, no `_` left. Equal to the id up to case, with `_` read as a space. No word starts with a lower-case letter. A character inside a word, after a word character that is not `_`, is copied from the id unchanged. |
| SkillNestJs.Score | static/js/skillnest.js:41 | 0 for an empty list, otherwise matched / length. Lies in 0..1; is 0 exactly without a match and 1 exactly when all match. |
| SkillNestJs.Suggest | static/js/skillnest.js:37-44 | The missing skills are the lacking filter, and `score = (needed − missing) / needed` (0 when nothing is needed). Score 1 exactly when nothing is missing; 0 exactly when no skill matches. |
| SkillNestJs.CountMatched | static/js/skillnest.js:37-40 | The counting loop yields the number of needed skills the user has. |
| SkillNestJs.SuggestOne | static/js/skillnest.js:37-44 | The body of the per-career forEach builds that career's suggestion. |
| SkillNestJs.SuggestAll | static/js/skillnest.js:36-45 | One suggestion per table entry, in table order. |
| SkillNestJs.SuggestCareers | static/js/skillnest.js:33-48 | The stable sort of one suggestion per career. The result is a permutation of them, ordered by non-increasing score, with equal scores in table order. |
| SocialLinks.Clean | skillnest_app/forms.py:72-81 | With a user and a platform, an error (with the platform's display name) exactly when the user has another link on that platform. The edited instance does not count. Without a user or platform, no check. On success, the data unchanged. |
| SocialLinks.OthersEmpty | skillnest_app/forms.py:76-79 | The filtered queryset is empty exactly when every link of the user on the platform is the edited instance. |
| SocialLinks.ResaveOwnPlatform | skillnest_app/forms.py:77-78 | Re-saving a link with its own platform passes. |
| SocialLinks.AddLink | skillnest_app/views.py:1690-1706 | Saved exactly when the user has no link on the platform, under the new key. Otherwise the duplicate message. |
| SocialLinks.EditLink | skillnest_app/views.py:1709-1725 | 404 exactly when the link is not the user's. Otherwise updated in place exactly when no other link of the user is on the platform. |
| SocialLinks.DeleteLink | skillnest_app/views.py:1728-1737 | Removed exactly when the link is the user's, 404 otherwise. |
| SocialLinks.ApplyKeepsUnique | skillnest_app/models.py:331 | Each add, edit or delete keeps at most one link per user and platform. |
| SocialLinks.ApplyAllKeepsUnique | skillnest_app/forms.py:72-81 | After any sequence of requests each user still has at most one link per platform. |
| AccessGates.RoleRequired | skillnest_app/decorators.py:12-19 | Anonymous requests go to `login`. Signed-in users without a profile or with another role go to `dashboard`. The view runs, with the same request and arguments and its result returned, exactly for the required role. |
| AccessGates.NoRequesterPassesBoth | skillnest_app/decorators.py:17-36 | No request passes both `teacher_required` and `admin_required`. |
| AccessGates.CourseOwnership | skillnest_app/views.py:298-300 | 404 exactly for an unknown course; proceeds exactly for the course's instructor. |
| AccessGates.LessonOwnership | skillnest_app/views.py:352-354 | 404 exactly for an unknown lesson; proceeds exactly for the instructor of the lesson's course. |
| AccessGates.TeacherCourseView | skillnest_app/views.py:296-300 | With the gate and the check together, the inner view runs exactly for a signed-in teacher who is the course's instructor. A teacher asking for an unknown course gets 404; anonymous users get `login`. |

## Left out

- The ORM, HTTP, templates, `messages`, authentication, password hashing and file uploads are framework I/O. Tables are maps and sets keyed by their unique pairs, and view outcomes are datatypes.
- Timestamps (`datetime.now`, `timezone.now`) are parameters. Certificate codes from `uuid4` are a `code` parameter, and a code already in use models the unique-code violation.
- Floats are exact reals. `int(score * 100)` can differ from exact truncation for some values (29/100 as a float), and the model states the exact result. `progress_stroke_dasharray` and the jobs page's `match_percent` (views.py 609, 767) are display floats and are not modelled.
- Models.Enrollment.UpdateProgress: the value assigned in memory is a float and the stored column is its integer part. The model keeps the integer part; the `>= 100` test gives the same answer on both.
- Case mapping is ASCII only. `str.lower`, `toLowerCase`, `toUpperCase` and the iframe pattern's IGNORECASE on other letters are not modelled.
- SkillGapView.MatchSkills: which required skill a token claims depends on set iteration order. The contract allows any matching skill.
- SkillGapView.TokensOf: does not state that each token is a stripped, lower-cased piece of the input, only that tokens are non-empty and no more numerous than the pieces.
- The `recommended_courses` query (views.py 891-893) is the `coursesForFirstGap` parameter.
- The `courses` page fallback images depend on `hash` and `id` per process and are not modelled. The unreachable code after `return` in `course_detail` is not modelled either.
- Active jobs arrive as a sequence in query order. Inactive jobs are filtered by the caller.
- SocialLinks.AddLink: the new key is a parameter that is not yet in the table, as the database's auto-increment provides. Field-level validation (URL format, lengths) is taken as passed.
- SkillNestJs.SkillsOf: a key inherited from `Object.prototype` (such as `constructor`, `toString` or `__proto__`) is not modelled. In the script, `CAREER_SKILLS[key]` is then a function or an object, not `undefined`, so `|| []` does not replace it. `skillGap` then throws a TypeError when it calls `universe.forEach`. The model gives [] for such a key, as for any key the table does not have. `suggestCareers` is not affected, because `Object.entries` lists only the table's own keys.
- The browser script's DOM rendering and localStorage portfolio (skillnest.js 53-137), the helper scripts, URL routing, admin registration and migrations have no rules to model.
- Lessons are ordered by id by the caller of AccountViews.Navigate.
- LearningViews.CourseRecords.RecordCompletionAsWritten, MarkLessonCompleteAsWritten and WatchLessonMarkCompleteAsWritten: on the IntegrityError path the model keeps the writes made before the failing `Certificate.objects.create`. These are the new progress and status, the completion date and the granted skills. That holds under Django's default autocommit without `ATOMIC_REQUESTS`. The project's settings module is not part of this model, so a rollback of the whole request is not modelled.

## Findings

| source | as written | input that shows it | evidently intended | confidence | as-written member | corrected member |
|---|---|---|---|---|---|---|
| skillnest_app/views.py:669-674 | `mark_lesson_complete` always calls `Certificate.objects.create` once progress reaches 100. | Mark the only lesson of a course complete, then mark it again. The second call creates a second certificate for the same (user, course), which violates models.py:182 and raises IntegrityError. | One certificate per completed course, issued only when none exists (as `get_or_create` does for the skills just above). | high, not executed | LearningViews.DoubleMarkAsWritten | LearningViews.DoubleMark |
| skillnest_app/views.py:580-581 | `watch_lesson` also calls `Certificate.objects.create` whenever progress reaches 100, after checking only that the watched lesson is new. | Complete a one-lesson course, add a second lesson to it, then watch that lesson. Progress reaches 100 again, and the second certificate for the same (user, course) raises IntegrityError. | As for `mark_lesson_complete`: keep the existing certificate. | high, not executed | LearningViews.NewLessonWatchAsWritten | LearningViews.NewLessonWatch |
| skillnest_app/views.py:60-95 | The POSTed `role` is stored as given. The filter at line 95 only removes `admin` from the choices shown on the form. | POST a signup with `role=admin`, and the account is created with the admin role. | Self-signup offers only `student` and `teacher`; any other role falls back to `student`. | medium, not executed | AccountViews.SignupGrantsPostedAdmin | AccountViews.SignupRestricted |
