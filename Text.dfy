/**
 * String operations used by the Python views and filters and by the
 * browser script: whitespace stripping, ASCII case folding, substring search,
 * splitting on a separator and the code-point order used by Python's sorted().
 */
module Text {
  import opened Wrappers

  // ---------------------------------------------------------------------
  // Whitespace

  /** The characters Python's str.strip() removes (str.isspace()). */
  predicate IsPySpace(c: char)
  {
    c == ' ' || ('\t' <= c <= '\r') || ('\U{1C}' <= c <= '\U{1F}') || c == '\U{85}' || c == '\U{A0}'
    || c == '\U{1680}' || ('\U{2000}' <= c <= '\U{200A}') || c == '\U{2028}' || c == '\U{2029}'
    || c == '\U{202F}' || c == '\U{205F}' || c == '\U{3000}'
  }

  /** The characters JavaScript's String.prototype.trim() removes. */
  predicate IsJsSpace(c: char)
  {
    c == ' ' || ('\t' <= c <= '\r') || c == '\U{A0}' || c == '\U{FEFF}'
    || c == '\U{1680}' || ('\U{2000}' <= c <= '\U{200A}') || c == '\U{2028}' || c == '\U{2029}'
    || c == '\U{202F}' || c == '\U{205F}' || c == '\U{3000}'
  }

  /** r is s with the first i characters and everything after i + |r|
      removed, and every removed character is whitespace. */
  predicate StrippedAt(s: string, r: string, i: int, isSpace: char -> bool)
  {
    && 0 <= i <= |s| - |r|
    && r == s[i..i + |r|]
    && (forall k :: 0 <= k < i ==> isSpace(s[k]))
    && (forall k :: i + |r| <= k < |s| ==> isSpace(s[k]))
  }

  /** Removes whitespace at both ends: the result is the slice of s between
      the first and the last character that is not whitespace. */
  function Strip(s: string, isSpace: char -> bool): (r: string)
    decreases |s|
    ensures r != [] ==> !isSpace(r[0]) && !isSpace(r[|r| - 1])
    ensures exists i :: StrippedAt(s, r, i, isSpace)
    ensures r == [] <==> forall k :: 0 <= k < |s| ==> isSpace(s[k])
  {
    if s == [] then
      assert StrippedAt(s, [], 0, isSpace);
      []
    else if isSpace(s[0]) then
      var r := Strip(s[1..], isSpace);
      StrippedFront(s, r, isSpace);
      r
    else if isSpace(s[|s| - 1]) then
      var r := Strip(s[..|s| - 1], isSpace);
      StrippedBack(s, s[..|s| - 1], r, isSpace);
      r
    else
      assert StrippedAt(s, s, 0, isSpace);
      s
  }

  /** Stripping what follows a leading space strips the whole. */
  lemma StrippedFront(s: string, r: string, isSpace: char -> bool)
    requires s != [] && isSpace(s[0])
    requires exists i :: StrippedAt(s[1..], r, i, isSpace)
    requires r == [] <==> forall k :: 0 <= k < |s| - 1 ==> isSpace(s[1..][k])
    ensures exists i :: StrippedAt(s, r, i, isSpace)
    ensures r == [] <==> forall k :: 0 <= k < |s| ==> isSpace(s[k])
  {
    var i :| StrippedAt(s[1..], r, i, isSpace);
    assert r == s[i + 1..i + 1 + |r|];
    forall k | 0 <= k < i + 1 ensures isSpace(s[k]) {
      if k > 0 {
        assert s[k] == s[1..][k - 1];
      }
    }
    forall k | i + 1 + |r| <= k < |s| ensures isSpace(s[k]) {
      assert s[k] == s[1..][k - 1];
    }
    assert StrippedAt(s, r, i + 1, isSpace);
    if r != [] {
      assert s[1..][0] == s[1];
    }
    if forall k :: 0 <= k < |s| ==> isSpace(s[k]) {
      forall k | 0 <= k < |s| - 1 ensures isSpace(s[1..][k]) {
        assert s[1..][k] == s[k + 1];
      }
    }
  }

  /** Stripping what precedes a trailing space strips the whole. */
  lemma StrippedBack(s: string, init: string, r: string, isSpace: char -> bool)
    requires s != [] && isSpace(s[|s| - 1]) && init == s[..|s| - 1]
    requires exists i :: StrippedAt(init, r, i, isSpace)
    requires r == [] <==> forall k :: 0 <= k < |init| ==> isSpace(init[k])
    ensures exists i :: StrippedAt(s, r, i, isSpace)
    ensures r == [] <==> forall k :: 0 <= k < |s| ==> isSpace(s[k])
  {
    var i :| StrippedAt(init, r, i, isSpace);
    assert r == s[i..i + |r|];
    forall k | 0 <= k < i ensures isSpace(s[k]) {
      assert s[k] == init[k];
    }
    forall k | i + |r| <= k < |s| ensures isSpace(s[k]) {
      if k < |s| - 1 {
        assert s[k] == init[k];
      }
    }
    assert StrippedAt(s, r, i, isSpace);
    if forall k :: 0 <= k < |s| ==> isSpace(s[k]) {
      forall k | 0 <= k < |init| ensures isSpace(init[k]) {
        assert init[k] == s[k];
      }
    }
  }

  /** Stripping twice is stripping once. */
  lemma StripIdempotent(s: string, isSpace: char -> bool)
    ensures Strip(Strip(s, isSpace), isSpace) == Strip(s, isSpace)
  {
    var r := Strip(s, isSpace);
    var r2 := Strip(r, isSpace);
    if r != [] {
      assert !isSpace(r[0]) && !isSpace(r[|r| - 1]);
      var i :| StrippedAt(r, r2, i, isSpace);
    }
  }

  /** A string with no whitespace at either end is its own strip. */
  lemma StripUnchanged(s: string, isSpace: char -> bool)
    requires s != [] ==> !isSpace(s[0]) && !isSpace(s[|s| - 1])
    ensures Strip(s, isSpace) == s
  {
    var r := Strip(s, isSpace);
    var i :| StrippedAt(s, r, i, isSpace);
  }

  /** Python's str.strip() with no argument. */
  function PyStrip(s: string): string
  {
    Strip(s, IsPySpace)
  }

  /** A string with no Python whitespace at either end is its own strip. */
  lemma PyStripUnchanged(s: string)
    requires s != [] ==> !IsPySpace(s[0]) && !IsPySpace(s[|s| - 1])
    ensures PyStrip(s) == s
  {
    StripUnchanged(s, IsPySpace);
  }

  /** JavaScript's String.prototype.trim(). */
  function JsTrim(s: string): string
  {
    Strip(s, IsJsSpace)
  }

  /** A string with no JavaScript whitespace at either end is its own trim. */
  lemma JsTrimUnchanged(s: string)
    requires s != [] ==> !IsJsSpace(s[0]) && !IsJsSpace(s[|s| - 1])
    ensures JsTrim(s) == s
  {
    StripUnchanged(s, IsJsSpace);
  }

  // ---------------------------------------------------------------------
  // Case

  predicate IsAsciiUpper(c: char)
  {
    'A' <= c <= 'Z'
  }

  predicate IsAsciiLower(c: char)
  {
    'a' <= c <= 'z'
  }

  function LowerChar(c: char): (d: char)
    ensures !IsAsciiUpper(d)
    ensures IsAsciiUpper(c) ==> d as int == c as int + 32
    ensures !IsAsciiUpper(c) ==> d == c
  {
    if IsAsciiUpper(c) then (c as int + 32) as char else c
  }

  function UpperChar(c: char): (d: char)
    ensures !IsAsciiLower(d)
    ensures IsAsciiLower(c) ==> d as int == c as int - 32
    ensures !IsAsciiLower(c) ==> d == c
  {
    if IsAsciiLower(c) then (c as int - 32) as char else c
  }

  /** str.lower() / String.prototype.toLowerCase() on the ASCII letters. */
  function Lower(s: string): (r: string)
    ensures |r| == |s|
    ensures forall k :: 0 <= k < |s| ==> r[k] == LowerChar(s[k])
  {
    seq(|s|, k requires 0 <= k < |s| => LowerChar(s[k]))
  }

  /** A string without upper-case ASCII letters is its own lower-case form. */
  lemma LowerUnchanged(s: string)
    requires forall k :: 0 <= k < |s| ==> !IsAsciiUpper(s[k])
    ensures Lower(s) == s
  {
  }

  // ---------------------------------------------------------------------
  // Substrings

  /** p occurs in s starting at index j. */
  predicate OccursAt(s: string, p: string, j: nat)
  {
    j + |p| <= |s| && s[j..j + |p|] == p
  }

  /** Python's `p in s`. */
  predicate Contains(s: string, p: string)
  {
    exists j :: 0 <= j <= |s| && OccursAt(s, p, j)
  }

  /** A one-character pattern occurs exactly when the character does. */
  lemma ContainsChar(s: string, c: char)
    ensures Contains(s, [c]) <==> c in s
  {
    if c in s {
      var k :| 0 <= k < |s| && s[k] == c;
      assert OccursAt(s, [c], k);
    }
    if Contains(s, [c]) {
      var j :| 0 <= j <= |s| && OccursAt(s, [c], j);
      assert s[j] == s[j..j + 1][0];
    }
  }

  /** An occurrence in a prefix is an occurrence in the whole. */
  lemma ContainsInPrefix(s: string, t: string, p: string)
    requires s <= t && Contains(s, p)
    ensures Contains(t, p)
  {
    var j :| 0 <= j <= |s| && OccursAt(s, p, j);
    assert s == t[..|s|];
    assert t[j..j + |p|] == s[j..j + |p|];
    assert OccursAt(t, p, j);
  }

  /** The first occurrence of p in s at or after index k. */
  function IndexFrom(s: string, p: string, k: nat): (r: Option<nat>)
    requires k <= |s|
    decreases |s| - k
    ensures r.Some? ==> k <= r.value && OccursAt(s, p, r.value)
                        && forall j :: k <= j < r.value ==> !OccursAt(s, p, j)
    ensures r.None? ==> forall j :: k <= j <= |s| ==> !OccursAt(s, p, j)
  {
    if k + |p| > |s| then None
    else if s[k..k + |p|] == p then Some(k)
    else IndexFrom(s, p, k + 1)
  }

  /** The first occurrence of p in s, as str.find() gives it. */
  function IndexOf(s: string, p: string): (r: Option<nat>)
    ensures r.Some? <==> Contains(s, p)
    ensures r.Some? ==> OccursAt(s, p, r.value) && forall j :: 0 <= j < r.value ==> !OccursAt(s, p, j)
  {
    IndexFrom(s, p, 0)
  }

  /** `s.split(sep)[0]`: the text before the first occurrence of sep, or all of s. */
  function SplitHead(s: string, sep: string): (r: string)
    requires sep != []
    ensures r <= s
    ensures Contains(s, sep) ==> OccursAt(s, sep, |r|)
    ensures !Contains(s, sep) ==> r == s
    ensures !Contains(r, sep)
  {
    match IndexOf(s, sep)
    case None => s
    case Some(i) =>
      assert forall j :: 0 <= j <= i && OccursAt(s[..i], sep, j) ==> OccursAt(s, sep, j) by {
        forall j | 0 <= j <= i && OccursAt(s[..i], sep, j) ensures OccursAt(s, sep, j) {
          assert s[..i][j..j + |sep|] == s[j..j + |sep|];
        }
      }
      s[..i]
  }

  /** The text after the first occurrence of sep. */
  function SplitTail(s: string, sep: string): (r: string)
    requires Contains(s, sep)
    ensures exists i: nat :: OccursAt(s, sep, i) && r == s[i + |sep|..]
                             && forall j :: 0 <= j < i ==> !OccursAt(s, sep, j)
  {
    var i := IndexOf(s, sep).value;
    s[i + |sep|..]
  }

  /** `s.split(sep)[1]`: the text between the first and the second occurrence
      of sep (or to the end of s when sep occurs once). */
  function SplitSecond(s: string, sep: string): (r: string)
    requires sep != [] && Contains(s, sep)
    ensures !Contains(r, sep)
    ensures var after := s[IndexOf(s, sep).value + |sep|..];
            r <= after && (r == after || OccursAt(after, sep, |r|))
  {
    SplitHead(SplitTail(s, sep), sep)
  }

  /** Python's `s.split(sep)` for a one-character separator. */
  function Split(s: string, sep: char): (parts: seq<string>)
    ensures |parts| >= 1
    ensures forall k :: 0 <= k < |parts| ==> sep !in parts[k]
  {
    if s == [] then [""]
    else
      var rest := Split(s[1..], sep);
      if s[0] == sep then [""] + rest
      else [[s[0]] + rest[0]] + rest[1..]
  }

  /** `sep.join(parts)`. */
  function Join(parts: seq<string>, sep: char): string
  {
    if parts == [] then ""
    else if |parts| == 1 then parts[0]
    else parts[0] + [sep] + Join(parts[1..], sep)
  }

  /** Splitting loses nothing: joining the parts with the separator gives back s. */
  lemma {:induction false} JoinSplit(s: string, sep: char)
    ensures Join(Split(s, sep), sep) == s
  {
    if s != [] {
      var rest := Split(s[1..], sep);
      JoinSplit(s[1..], sep);
      if s[0] == sep {
        assert Split(s, sep) == [""] + rest;
        assert ([""] + rest)[1..] == rest;
      } else {
        var parts := Split(s, sep);
        assert parts == [[s[0]] + rest[0]] + rest[1..];
        if |rest| == 1 {
          assert parts == [[s[0]] + rest[0]];
        } else {
          assert parts[1..] == rest[1..];
          assert Join(rest, sep) == rest[0] + [sep] + Join(rest[1..], sep);
        }
        assert s == [s[0]] + s[1..];
      }
    }
  }

  /** Every occurrence of character a replaced by b. */
  function ReplaceChar(s: string, a: char, b: char): (r: string)
    ensures |r| == |s|
    ensures forall k :: 0 <= k < |s| ==> r[k] == if s[k] == a then b else s[k]
  {
    seq(|s|, k requires 0 <= k < |s| => if s[k] == a then b else s[k])
  }

  // ---------------------------------------------------------------------
  // The order of Python's sorted() on str: lexicographic on code points

  predicate StrLess(a: string, b: string)
  {
    if a == [] then b != []
    else if b == [] then false
    else a[0] < b[0] || (a[0] == b[0] && StrLess(a[1..], b[1..]))
  }

  lemma {:induction false} StrLessIrreflexive(a: string)
    ensures !StrLess(a, a)
  {
    if a != [] {
      StrLessIrreflexive(a[1..]);
    }
  }

  lemma {:induction false} StrLessTransitive(a: string, b: string, c: string)
    requires StrLess(a, b) && StrLess(b, c)
    ensures StrLess(a, c)
  {
    if a != [] && b != [] && c != [] && a[0] == b[0] == c[0] {
      StrLessTransitive(a[1..], b[1..], c[1..]);
    }
  }

  lemma {:induction false} StrLessTotal(a: string, b: string)
    ensures a == b || StrLess(a, b) || StrLess(b, a)
  {
    if a != [] && b != [] && a[0] == b[0] {
      StrLessTotal(a[1..], b[1..]);
      if a[1..] == b[1..] {
        assert a == [a[0]] + a[1..] && b == [b[0]] + b[1..];
      }
    }
  }

  /** Strictly increasing in the order of sorted(): each element once. */
  predicate StrictlySorted(s: seq<string>)
  {
    forall i, j :: 0 <= i < j < |s| ==> StrLess(s[i], s[j])
  }

  /** Places x in its position in an already sorted sequence (no duplicate). */
  function InsertSorted(s: seq<string>, x: string): (r: seq<string>)
    requires StrictlySorted(s)
    ensures StrictlySorted(r)
    ensures (set y | y in r) == (set y | y in s) + {x}
    ensures |r| == if x in s then |s| else |s| + 1
  {
    if s == [] then [x]
    else if x == s[0] then s
    else if StrLess(x, s[0]) then
      assert forall j :: 0 <= j < |s| ==> StrLess(x, s[j]) by {
        forall j | 0 <= j < |s| ensures StrLess(x, s[j]) {
          if j > 0 { StrLessTransitive(x, s[0], s[j]); }
        }
      }
      assert x !in s by {
        forall j | 0 <= j < |s| ensures s[j] != x {
          if s[j] == x { StrLessIrreflexive(x); }
        }
      }
      [x] + s
    else
      StrLessTotal(x, s[0]);
      var rest := InsertSorted(s[1..], x);
      InsertBehindHead(s, x, rest);
      [s[0]] + rest
  }

  /** The step of InsertSorted when x goes after the head: the head, then x
      inserted into the tail. */
  lemma InsertBehindHead(s: seq<string>, x: string, rest: seq<string>)
    requires StrictlySorted(s) && s != [] && StrLess(s[0], x)
    requires StrictlySorted(rest) && (set y | y in rest) == (set y | y in s[1..]) + {x}
    requires |rest| == if x in s[1..] then |s| - 1 else |s|
    ensures StrictlySorted([s[0]] + rest)
    ensures (set y | y in [s[0]] + rest) == (set y | y in s) + {x}
    ensures |[s[0]] + rest| == if x in s then |s| else |s| + 1
  {
    forall j | 0 <= j < |rest| ensures StrLess(s[0], rest[j]) {
      HeadBelowTail(s, x, rest, rest[j]);
    }
    SortedCons(s[0], rest);
    var restSet := set z | z in rest;
    var tailSet := set z | z in s[1..];
    assert s == [s[0]] + s[1..];
    assert (set y | y in s) == {s[0]} + tailSet;
    assert (set y | y in [s[0]] + rest) == {s[0]} + restSet;
    assert x != s[0] by {
      StrLessIrreflexive(x);
    }
    assert x in s <==> x in s[1..];
  }

  /** Every element of the tail with x inserted comes after the head. */
  lemma HeadBelowTail(s: seq<string>, x: string, rest: seq<string>, y: string)
    requires StrictlySorted(s) && s != [] && StrLess(s[0], x)
    requires (set z | z in rest) == (set z | z in s[1..]) + {x}
    requires y in rest
    ensures StrLess(s[0], y)
  {
    var restSet := set z | z in rest;
    var tailSet := set z | z in s[1..];
    assert restSet == tailSet + {x};
    assert y in restSet;
    if y != x {
      assert y in tailSet;
      var m :| 0 <= m < |s[1..]| && s[1..][m] == y;
      assert s[m + 1] == y;
    }
  }

  /** A head below every element of a sorted sequence keeps it sorted. */
  lemma SortedCons(h: string, rest: seq<string>)
    requires StrictlySorted(rest) && forall j :: 0 <= j < |rest| ==> StrLess(h, rest[j])
    ensures StrictlySorted([h] + rest)
  {
    var r := [h] + rest;
    forall i, j | 0 <= i < j < |r| ensures StrLess(r[i], r[j]) {
      assert r[j] == rest[j - 1];
      if i > 0 {
        assert r[i] == rest[i - 1];
      }
    }
  }
}
