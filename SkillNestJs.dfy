/**
 * The browser-side career helper: a fixed table of careers and their skills,
 * the gap between a career's skills and the skills a user typed, and the
 * list of careers ranked by how much of each the user already covers.
 */
module SkillNestJs {
  import opened Text
  import Ranking
  import Percent

  /** CAREER_SKILLS, in the order Object.entries lists its keys. */
  const CareerSkills: seq<(string, seq<string>)> := [
    ("frontend", ["html", "css", "javascript", "react", "git", "responsive design"]),
    ("backend", ["javascript", "node.js", "express", "sql", "apis", "git"]),
    ("data_scientist", ["python", "statistics", "pandas", "numpy", "sql", "machine learning"]),
    ("ui_ux", ["figma", "wireframing", "prototyping", "user research", "visual design"]),
    ("devops", ["linux", "docker", "ci/cd", "git", "cloud", "kubernetes"]),
    ("ai_engineer", ["python", "deep learning", "pytorch", "tensorflow", "mlops"]),
    ("mobile_dev", ["java", "kotlin", "android", "swift", "ios", "git"]),
    ("cybersec", ["networking", "linux", "security", "owasp", "siem"]),
    ("cloud_architect", ["aws", "azure", "gcp", "networking", "security", "terraform"])
  ]

  /** CAREER_SKILLS[key] || []: the skills of the first entry named key, or
      none for a key the table does not have. */
  function SkillsOf(table: seq<(string, seq<string>)>, key: string): (r: seq<string>)
    ensures (forall i :: 0 <= i < |table| ==> table[i].0 != key) ==> r == []
    ensures forall i :: 0 <= i < |table| && table[i].0 == key && (forall j :: 0 <= j < i ==> table[j].0 != key)
                        ==> r == table[i].1
  {
    if table == [] then []
    else if table[0].0 == key then table[0].1
    else SkillsOf(table[1..], key)
  }

  // ---------------------------------------------------------------------
  // The user's skills

  /** normalizeSkill: trimmed and lower-cased. The result is the
      lower-cased form of a slice of s, and everything outside the slice is
      whitespace. */
  function NormalizeSkill(s: string): (r: string)
    ensures r != [] ==> !IsJsSpace(r[0]) && !IsJsSpace(r[|r| - 1])
    ensures forall k :: 0 <= k < |r| ==> !IsAsciiUpper(r[k])
    ensures exists i :: NormalizedAt(s, r, i)
  {
    var t := JsTrim(s);
    LowerKeepsSpace(t);
    TrimNormalized(s, t);
    Lower(t)
  }

  /** r is the lower-cased form of the slice of s that starts at i, and
      every character of s outside that slice is whitespace. */
  predicate NormalizedAt(s: string, r: string, i: int)
  {
    && 0 <= i <= |s| - |r|
    && r == Lower(s[i..i + |r|])
    && (forall k | 0 <= k < |s| :: k < i || i + |r| <= k ==> IsJsSpace(s[k]))
  }

  /** The trim of s, lower-cased, is normalised at the offset the trim
      starts at. */
  lemma TrimNormalized(s: string, t: string)
    requires exists i :: StrippedAt(s, t, i, IsJsSpace)
    ensures exists i :: NormalizedAt(s, Lower(t), i)
  {
    var i :| StrippedAt(s, t, i, IsJsSpace);
    assert NormalizedAt(s, Lower(t), i);
  }

  /** Lower-casing neither creates nor removes whitespace. */
  lemma LowerKeepsSpace(s: string)
    ensures forall k :: 0 <= k < |s| ==> (IsJsSpace(Lower(s)[k]) <==> IsJsSpace(s[k]))
  {
  }

  /** Normalising a normalised skill changes nothing. */
  lemma NormalizeSkillIdempotent(s: string)
    ensures NormalizeSkill(NormalizeSkill(s)) == NormalizeSkill(s)
  {
    var r := NormalizeSkill(s);
    calc {
      NormalizeSkill(r);
      Lower(JsTrim(r));
      { JsTrimUnchanged(r); }
      Lower(r);
      { LowerUnchanged(r); }
      r;
    }
  }

  /** new Set(userSkillsRaw.map(normalizeSkill)). */
  function UserSet(raw: seq<string>): set<string>
  {
    set s | s in raw :: NormalizeSkill(s)
  }

  /** A user has a career skill when its lower-cased form is in the set. */
  predicate Has(userSet: set<string>, skill: string)
  {
    Lower(skill) in userSet
  }

  /** The skills of s the user has (has = true) or lacks (has = false), in
      their order in s. */
  function Filter(s: seq<string>, userSet: set<string>, has: bool): (r: seq<string>)
    ensures |r| <= |s|
    ensures forall x :: x in r <==> x in s && Has(userSet, x) == has
  {
    if s == [] then []
    else
      var last := s[|s| - 1];
      Filter(s[..|s| - 1], userSet, has) + (if Has(userSet, last) == has then [last] else [])
  }

  /** The positions in s of the skills the user has (has = true) or lacks
      (has = false), in increasing order. */
  function Positions(s: seq<string>, userSet: set<string>, has: bool): (idx: seq<nat>)
    ensures forall k | 0 <= k < |idx| :: idx[k] < |s|
  {
    if s == [] then []
    else Positions(s[..|s| - 1], userSet, has) + (if Has(userSet, s[|s| - 1]) == has then [|s| - 1] else [])
  }

  /** Filter keeps order: its result is s read at strictly increasing
      positions, and those are exactly the positions whose skill goes to that
      side. */
  lemma {:induction false} FilterKeepsOrder(s: seq<string>, userSet: set<string>, has: bool)
    ensures KeptInOrder(s, userSet, has, Positions(s, userSet, has), Filter(s, userSet, has))
  {
    if s != [] {
      var init := s[..|s| - 1];
      FilterKeepsOrder(init, userSet, has);
      OrderStep(s, init, userSet, has, Positions(init, userSet, has), Filter(init, userSet, has));
    }
  }

  /** r is s read at the strictly increasing positions idx, and idx holds
      exactly the positions whose skill the user has (has = true) or lacks. */
  predicate KeptInOrder(s: seq<string>, userSet: set<string>, has: bool, idx: seq<nat>, r: seq<string>)
  {
    && |idx| == |r|
    && (forall k | 0 <= k < |idx| :: idx[k] < |s| && r[k] == s[idx[k]])
    && (forall k, l | 0 <= k < l < |idx| :: idx[k] < idx[l])
    && (forall j | 0 <= j < |s| :: j in idx <==> Has(userSet, s[j]) == has)
  }

  /** The step of FilterKeepsOrder: the last position is appended exactly
      when its skill goes to that side. */
  lemma OrderStep(s: seq<string>, init: seq<string>, userSet: set<string>, has: bool, idx: seq<nat>, r: seq<string>)
    requires s != [] && init == s[..|s| - 1]
    requires KeptInOrder(init, userSet, has, idx, r)
    ensures var keep := Has(userSet, s[|s| - 1]) == has;
            KeptInOrder(s, userSet, has, idx + (if keep then [|s| - 1] else []), r + (if keep then [s[|s| - 1]] else []))
  {
    var keep := Has(userSet, s[|s| - 1]) == has;
    var idx' := idx + (if keep then [|s| - 1] else []);
    var r' := r + (if keep then [s[|s| - 1]] else []);
    forall k | 0 <= k < |idx'| ensures idx'[k] < |s| && r'[k] == s[idx'[k]] {
      if k < |idx| {
        assert init[idx[k]] == s[idx[k]];
      }
    }
    forall j | 0 <= j < |s| ensures j in idx' <==> Has(userSet, s[j]) == has {
      if j < |init| {
        assert init[j] == s[j];
        assert j in idx' <==> j in idx;
      } else {
        assert forall k | 0 <= k < |idx| :: idx[k] != j;
      }
    }
  }

  /** The skills a user has and the skills they lack split the list between
      them: together they are all of it, counted with repeats. */
  lemma {:induction false} FilterPartition(s: seq<string>, userSet: set<string>)
    ensures |Filter(s, userSet, true)| + |Filter(s, userSet, false)| == |s|
    ensures multiset(Filter(s, userSet, true)) + multiset(Filter(s, userSet, false)) == multiset(s)
  {
    if s != [] {
      var init, last := s[..|s| - 1], s[|s| - 1];
      FilterPartition(init, userSet);
      assert s == init + [last];
      SplitStep(Filter(init, userSet, true), Filter(init, userSet, false), init, last, Has(userSet, last));
    }
  }

  /** One more element goes to exactly one side of a split. */
  lemma SplitStep(yes: seq<string>, no: seq<string>, init: seq<string>, x: string, b: bool)
    requires multiset(yes) + multiset(no) == multiset(init)
    ensures multiset(yes + (if b then [x] else [])) + multiset(no + (if b then [] else [x]))
            == multiset(init + [x])
  {
    if b {
      assert multiset(yes + [x]) == multiset(yes) + multiset{x};
      assert no + [] == no;
    } else {
      assert multiset(no + [x]) == multiset(no) + multiset{x};
      assert yes + [] == yes;
    }
    assert multiset(init + [x]) == multiset(init) + multiset{x};
  }

  // ---------------------------------------------------------------------
  // skillGap

  /** skillGap: walks the career's skills in order, pushing each onto have
      when the user has it and onto missing otherwise; an unknown career
      gives two empty lists. */
  method SkillGap(careerKey: string, userSkillsRaw: seq<string>) returns (have: seq<string>, missing: seq<string>)
    ensures var universe := SkillsOf(CareerSkills, careerKey);
            have == Filter(universe, UserSet(userSkillsRaw), true)
            && missing == Filter(universe, UserSet(userSkillsRaw), false)
    ensures SkillsOf(CareerSkills, careerKey) == [] ==> have == [] && missing == []
  {
    var universe := SkillsOf(CareerSkills, careerKey);
    var userSet := UserSet(userSkillsRaw);
    have, missing := [], [];
    for i := 0 to |universe|
      invariant have == Filter(universe[..i], userSet, true)
      invariant missing == Filter(universe[..i], userSet, false)
    {
      assert universe[..i + 1][..i] == universe[..i];
      if Lower(universe[i]) in userSet {
        have := have + [universe[i]];
      } else {
        missing := missing + [universe[i]];
      }
    }
    assert universe[..|universe|] == universe;
  }

  // ---------------------------------------------------------------------
  // suggestCareers

  /** One entry of the suggestion list. */
  datatype Suggestion = Suggestion(careerId: string, title: string, score: real, missingSkills: seq<string>)

  predicate IsWordChar(c: char)
  {
    IsAsciiLower(c) || IsAsciiUpper(c) || ('0' <= c <= '9') || c == '_'
  }

  /** A career id as a title: underscores become spaces, then every word
      character that starts a word is upper-cased. */
  function Title(careerId: string): (r: string)
    ensures |r| == |careerId| && '_' !in r
    ensures forall k :: 0 <= k < |r| ==>
      LowerChar(r[k]) == LowerChar(if careerId[k] == '_' then ' ' else careerId[k])
    ensures forall k :: 0 <= k < |r| && (k == 0 || r[k - 1] == ' ') ==> !IsAsciiLower(r[k])
    ensures forall k :: (0 < k < |r| && careerId[k] != '_' && careerId[k - 1] != '_' &&
                         IsWordChar(careerId[k - 1])) ==> r[k] == careerId[k]
  {
    var spaced := ReplaceChar(careerId, '_', ' ');
    var r := seq(|spaced|, k requires 0 <= k < |spaced| => CapitalizeAt(spaced, k));
    forall k | 0 <= k < |r| && (k == 0 || r[k - 1] == ' ') ensures !IsAsciiLower(r[k]) {
      if k > 0 {
        assert spaced[k - 1] == ' ';
      }
    }
    r
  }

  /** The character at k of the title: upper-cased when it is a word
      character that starts a word, unchanged otherwise. */
  function CapitalizeAt(s: string, k: nat): (d: char)
    requires k < |s|
    ensures LowerChar(d) == LowerChar(s[k])
    ensures (k == 0 || !IsWordChar(s[k - 1])) ==> !IsAsciiLower(d)
    ensures d == ' ' <==> s[k] == ' '
    ensures d == '_' <==> s[k] == '_'
  {
    if IsWordChar(s[k]) && (k == 0 || !IsWordChar(s[k - 1])) then UpperChar(s[k]) else s[k]
  }

  /** needed.length ? matched / needed.length : 0 */
  function Score(matched: nat, n: nat): (q: real)
    requires matched <= n
    ensures 0.0 <= q <= 1.0
    ensures n > 0 ==> q * n as real == matched as real && q == matched as real / n as real
    ensures q == 0.0 <==> n == 0 || matched == 0
    ensures q == 1.0 <==> n > 0 && matched == n
  {
    if n > 0 then Percent.Ratio(matched, n) else 0.0
  }

  /** The suggestion for one career: the fraction of its skills the user
      has (0 for a career without skills) and the skills they lack. */
  function Suggest(careerId: string, needed: seq<string>, userSet: set<string>): (r: Suggestion)
    ensures r.careerId == careerId && r.title == Title(careerId)
    ensures r.missingSkills == Filter(needed, userSet, false)
    ensures 0.0 <= r.score <= 1.0
    ensures needed == [] ==> r.score == 0.0
    ensures needed != [] ==> r.score == (|needed| - |r.missingSkills|) as real / |needed| as real
    ensures needed != [] ==> (r.score == 1.0 <==> r.missingSkills == [])
    ensures r.score == 0.0 <==> forall s :: s in needed ==> !Has(userSet, s)
  {
    FilterPartition(needed, userSet);
    NoneHad(needed, userSet);
    var missing := Filter(needed, userSet, false);
    Suggestion(careerId, Title(careerId), Score(|needed| - |missing|, |needed|), missing)
  }

  /** The user has none of the skills exactly when the kept list is empty. */
  lemma NoneHad(needed: seq<string>, userSet: set<string>)
    ensures |Filter(needed, userSet, true)| == 0 <==> forall s :: s in needed ==> !Has(userSet, s)
  {
    var have := Filter(needed, userSet, true);
    if |have| > 0 {
      assert have[0] in have;
    }
  }

  /** The suggestions in table order, before sorting. */
  function Suggestions(table: seq<(string, seq<string>)>, userSet: set<string>): seq<Suggestion>
  {
    seq(|table|, i requires 0 <= i < |table| => Suggest(table[i].0, table[i].1, userSet))
  }

  /** Higher score first; equal scores keep their order. */
  function ScoreKey(s: Suggestion): Ranking.Key
  {
    Ranking.Key(s.score, 0)
  }

  /** matched: how many of the needed skills the user has. */
  method CountMatched(needed: seq<string>, userSet: set<string>) returns (matched: nat)
    ensures matched == |Filter(needed, userSet, true)|
  {
    matched := 0;
    for j := 0 to |needed|
      invariant matched == |Filter(needed[..j], userSet, true)|
    {
      assert needed[..j + 1][..j] == needed[..j];
      if Lower(needed[j]) in userSet {
        matched := matched + 1;
      }
    }
    assert needed[..|needed|] == needed;
  }

  /** suggestCareers: one suggestion per career, then a stable sort by score,
      highest first. The result holds every career once, no suggestion is
      placed after one with a lower score, and careers with equal scores
      stay in table order. */
  method SuggestCareers(userSkillsRaw: seq<string>) returns (results: seq<Suggestion>)
    ensures var unsorted := Suggestions(CareerSkills, UserSet(userSkillsRaw));
            && results == Ranking.StableSort(unsorted, ScoreKey)
            && multiset(results) == multiset(unsorted)
            && Ranking.Ranked(results, ScoreKey)
            && forall k :: Ranking.WithKey(results, ScoreKey, k) == Ranking.WithKey(unsorted, ScoreKey, k)
  {
    var unsorted := SuggestAll(CareerSkills, UserSet(userSkillsRaw));
    results := Ranking.StableSort(unsorted, ScoreKey);
    Ranking.StableSortRanked(unsorted, ScoreKey);
    forall k {
      Ranking.StableSortStable(unsorted, ScoreKey, k);
    }
  }

  /** The forEach over the table's entries, pushing one suggestion each. */
  method SuggestAll(table: seq<(string, seq<string>)>, userSet: set<string>) returns (unsorted: seq<Suggestion>)
    ensures unsorted == Suggestions(table, userSet)
  {
    unsorted := [];
    for i := 0 to |table|
      invariant |unsorted| == i
      invariant forall j :: 0 <= j < i ==> unsorted[j] == Suggest(table[j].0, table[j].1, userSet)
    {
      var suggestion := SuggestOne(table[i].0, table[i].1, userSet);
      unsorted := unsorted + [suggestion];
    }
  }

  /** The body of the forEach for one career. */
  method SuggestOne(careerId: string, needed: seq<string>, userSet: set<string>) returns (s: Suggestion)
    ensures s == Suggest(careerId, needed, userSet)
  {
    var matched := CountMatched(needed, userSet);
    FilterPartition(needed, userSet);
    var score := Score(matched, |needed|);
    var missingSkills := Filter(needed, userSet, false);
    s := Suggestion(careerId, Title(careerId), score, missingSkills);
  }
}
