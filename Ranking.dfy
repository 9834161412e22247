/**
 * The stable sort behind Python's list.sort(key=...) and JavaScript's
 * Array.prototype.sort, for keys ordered "higher first". A key has a primary
 * and a secondary component; the job recommendations rank by (match score,
 * posted date) and the career suggestions by score alone (secondary 0).
 */
module Ranking {

  datatype Key = Key(primary: real, secondary: int)

  /** a ranks strictly ahead of b: higher primary, or the same primary and a
      higher secondary. Equal keys rank neither way. */
  predicate Ahead(a: Key, b: Key)
  {
    a.primary > b.primary || (a.primary == b.primary && a.secondary > b.secondary)
  }

  /** No element ranks strictly ahead of one placed before it. */
  predicate Ranked<T>(s: seq<T>, key: T -> Key)
  {
    forall i, j :: 0 <= i < j < |s| ==> !Ahead(key(s[j]), key(s[i]))
  }

  /** The elements of s whose key is k, in their order in s. */
  function WithKey<T>(s: seq<T>, key: T -> Key, k: Key): seq<T>
  {
    if s == [] then []
    else (if key(s[0]) == k then [s[0]] else []) + WithKey(s[1..], key, k)
  }

  /** Inserts x after every element that x does not rank strictly ahead of. */
  function Insert<T>(s: seq<T>, x: T, key: T -> Key): (r: seq<T>)
    ensures |r| == |s| + 1
    ensures multiset(r) == multiset(s) + multiset{x}
  {
    if s == [] then [x]
    else if Ahead(key(x), key(s[0])) then [x] + s
    else
      assert s == [s[0]] + s[1..];
      [s[0]] + Insert(s[1..], x, key)
  }

  /** Insertion sort, taking the elements in input order: the stable sort. */
  function StableSort<T>(s: seq<T>, key: T -> Key): (r: seq<T>)
    ensures |r| == |s|
    ensures multiset(r) == multiset(s)
  {
    if s == [] then []
    else
      assert s == s[..|s| - 1] + [s[|s| - 1]];
      Insert(StableSort(s[..|s| - 1], key), s[|s| - 1], key)
  }

  lemma {:induction false} InsertRanked<T>(s: seq<T>, x: T, key: T -> Key)
    requires Ranked(s, key)
    ensures Ranked(Insert(s, x, key), key)
  {
    if s != [] && !Ahead(key(x), key(s[0])) {
      InsertRanked(s[1..], x, key);
      var rest := Insert(s[1..], x, key);
      forall y | y in rest ensures !Ahead(key(y), key(s[0])) {
        assert y in multiset(rest);
        if y != x {
          assert y in multiset(s[1..]);
          var j :| 0 <= j < |s[1..]| && s[1..][j] == y;
          assert s[j + 1] == y;
        }
      }
    }
  }

  /** The sort's result is ranked. */
  lemma {:induction false} StableSortRanked<T>(s: seq<T>, key: T -> Key)
    ensures Ranked(StableSort(s, key), key)
  {
    if s != [] {
      StableSortRanked(s[..|s| - 1], key);
      InsertRanked(StableSort(s[..|s| - 1], key), s[|s| - 1], key);
    }
  }

  lemma {:induction false} WithKeyAppend<T>(s: seq<T>, x: T, key: T -> Key, k: Key)
    ensures WithKey(s + [x], key, k) == WithKey(s, key, k) + (if key(x) == k then [x] else [])
  {
    if s != [] {
      assert (s + [x])[1..] == s[1..] + [x];
      WithKeyAppend(s[1..], x, key, k);
    }
  }

  lemma {:induction false} WithKeyNone<T>(s: seq<T>, key: T -> Key, k: Key)
    requires forall i :: 0 <= i < |s| ==> key(s[i]) != k
    ensures WithKey(s, key, k) == []
  {
    if s != [] {
      WithKeyNone(s[1..], key, k);
    }
  }

  lemma WithKeyCons<T>(x: T, s: seq<T>, key: T -> Key, k: Key)
    ensures WithKey([x] + s, key, k) == (if key(x) == k then [x] else []) + WithKey(s, key, k)
  {
    assert ([x] + s)[1..] == s;
  }

  /** When x ranks strictly ahead of the head of a ranked sequence, no element
      of it shares x's key. */
  lemma AheadOfAll<T>(s: seq<T>, x: T, key: T -> Key)
    requires Ranked(s, key) && s != [] && Ahead(key(x), key(s[0]))
    ensures WithKey(s, key, key(x)) == []
  {
    forall i | 0 <= i < |s| ensures key(s[i]) != key(x) {
      if i > 0 {
        assert !Ahead(key(s[i]), key(s[0]));
      }
    }
    WithKeyNone(s, key, key(x));
  }

  lemma RankedTail<T>(s: seq<T>, key: T -> Key)
    requires Ranked(s, key) && s != []
    ensures Ranked(s[1..], key)
  {
    forall i, j | 0 <= i < j < |s| - 1 ensures !Ahead(key(s[1..][j]), key(s[1..][i])) {
      assert s[1..][j] == s[j + 1] && s[1..][i] == s[i + 1];
    }
  }

  lemma {:induction false} InsertWithKey<T>(s: seq<T>, x: T, key: T -> Key, k: Key)
    requires Ranked(s, key)
    ensures WithKey(Insert(s, x, key), key, k) == WithKey(s, key, k) + (if key(x) == k then [x] else [])
  {
    if s == [] {
    } else if Ahead(key(x), key(s[0])) {
      assert Insert(s, x, key) == [x] + s;
      InsertAheadWithKey(s, x, key, k);
    } else {
      var rest := Insert(s[1..], x, key);
      RankedTail(s, key);
      InsertWithKey(s[1..], x, key, k);
      assert Insert(s, x, key) == [s[0]] + rest;
      WithKeyBehindHead(s, rest, if key(x) == k then [x] else [], key, k);
    }
  }

  /** The head stays in front of a tail whose matching elements are those of
      the old tail followed by extra. */
  lemma WithKeyBehindHead<T>(s: seq<T>, rest: seq<T>, extra: seq<T>, key: T -> Key, k: Key)
    requires s != [] && WithKey(rest, key, k) == WithKey(s[1..], key, k) + extra
    ensures WithKey([s[0]] + rest, key, k) == WithKey(s, key, k) + extra
  {
    WithKeyCons(s[0], rest, key, k);
  }

  /** x goes in front when it ranks ahead of the head; nothing behind it
      shares its key. */
  lemma InsertAheadWithKey<T>(s: seq<T>, x: T, key: T -> Key, k: Key)
    requires Ranked(s, key) && s != [] && Ahead(key(x), key(s[0]))
    ensures WithKey([x] + s, key, k) == WithKey(s, key, k) + (if key(x) == k then [x] else [])
  {
    WithKeyCons(x, s, key, k);
    if key(x) == k {
      AheadOfAll(s, x, key);
      assert WithKey([x] + s, key, k) == [x];
    } else {
      assert WithKey([x] + s, key, k) == WithKey(s, key, k);
    }
  }

  /** Stability: the elements sharing a key keep their input order. */
  lemma {:induction false} StableSortStable<T>(s: seq<T>, key: T -> Key, k: Key)
    ensures WithKey(StableSort(s, key), key, k) == WithKey(s, key, k)
  {
    if s != [] {
      var init, last := s[..|s| - 1], s[|s| - 1];
      var sorted := StableSort(init, key);
      calc {
        WithKey(StableSort(s, key), key, k);
        WithKey(Insert(sorted, last, key), key, k);
        { StableSortRanked(init, key);
          InsertWithKey(sorted, last, key, k); }
        WithKey(sorted, key, k) + (if key(last) == k then [last] else []);
        { StableSortStable(init, key, k); }
        WithKey(init, key, k) + (if key(last) == k then [last] else []);
        { WithKeyAppend(init, last, key, k);
          assert s == init + [last]; }
        WithKey(s, key, k);
      }
    }
  }

  /** A prefix of a ranked sequence is ranked, and nothing after the prefix
      ranks strictly ahead of anything in it. */
  lemma RankedPrefix<T>(s: seq<T>, key: T -> Key, n: nat)
    requires Ranked(s, key) && n <= |s|
    ensures Ranked(s[..n], key)
    ensures forall i, j :: 0 <= i < n <= j < |s| ==> !Ahead(key(s[j]), key(s[..n][i]))
  {
    forall i, j | 0 <= i < j < n ensures !Ahead(key(s[..n][j]), key(s[..n][i])) {
      assert s[..n][j] == s[j] && s[..n][i] == s[i];
    }
    forall i, j | 0 <= i < n <= j < |s| ensures !Ahead(key(s[j]), key(s[..n][i])) {
      assert s[..n][i] == s[i];
    }
  }
}
