/**
 The relational-store operations the listing handlers rely on: `ORDER BY` an integer key,
 `ORDER BY` a text column (binary collation), `LIMIT ? OFFSET ?`, `lower(...)` and
 `LIKE '%term%'` substring search.
 */
module Listing {

  // ---------------------------------------------------------------------------------------
  // Sets of integer keys in ascending order
  // ---------------------------------------------------------------------------------------

  predicate StrictlyIncreasing(s: seq<int>) {
    forall i, j :: 0 <= i < j < |s| ==> s[i] < s[j]
  }

  predicate IsMin(s: set<int>, m: int) {
    m in s && forall x :: x in s ==> m <= x
  }

  /** Some element of a non-empty set. */
  lemma Pick<T>(s: set<T>) returns (y: T)
    requires s != {}
    ensures y in s
  {
    if forall z :: z !in s { assert false; }
    y :| y in s;
  }

  lemma {:induction false} MinExists(s: set<int>)
    requires s != {}
    ensures exists m :: IsMin(s, m)
    decreases |s|
  {
    var y := Pick(s);
    if s != {y} {
      MinExists(s - {y});
      var m' :| IsMin(s - {y}, m');
      var m := if y < m' then y else m';
      forall x | x in s ensures m <= x {
        if x != y { assert x in s - {y}; }
      }
      assert IsMin(s, m);
    } else {
      assert IsMin(s, y);
    }
  }

  /** The keys of a table as `ORDER BY key` returns them. */
  function SortedKeys(s: set<int>): (r: seq<int>)
    ensures StrictlyIncreasing(r)
    ensures forall x :: x in r <==> x in s
    ensures |r| == |s|
    decreases |s|
  {
    if s == {} then []
    else
      MinExists(s);
      var m :| IsMin(s, m);
      [m] + SortedKeys(s - {m})
  }

  /** The number of keys of `s` that sort before `x`: the position of `x` in ascending order. */
  function Rank(s: set<int>, x: int): nat {
    |set y | y in s && y < x|
  }

  lemma {:induction false} IncreasingCardinality(t: seq<int>)
    requires StrictlyIncreasing(t)
    ensures |set x | x in t| == |t|
  {
    if t != [] {
      IncreasingCardinality(t[1..]);
      var rest := set x | x in t[1..];
      assert t[0] !in rest;
      assert (set x | x in t) == {t[0]} + rest;
    }
  }

  /** The key at position `k` of the ascending order has exactly `k` keys before it. */
  lemma {:induction false} SortedKeysRank(s: set<int>, k: nat)
    requires k < |s|
    ensures Rank(s, SortedKeys(s)[k]) == k
  {
    var r := SortedKeys(s);
    var before := set y | y in s && y < r[k];
    var prefix := r[..k];
    forall y | y in before ensures y in prefix {
      assert y in r;
      var j :| 0 <= j < |r| && r[j] == y;
      assert j < k;
      assert prefix[j] == y;
    }
    forall y | y in prefix ensures y in before {
      var j :| 0 <= j < k && prefix[j] == y;
      assert r[j] == y;
    }
    assert before == set y | y in prefix;
    IncreasingCardinality(prefix);
  }

  /** A key of `s` sorts before at most all the others. */
  lemma RankBelowSize(s: set<int>, x: int)
    requires x in s
    ensures Rank(s, x) < |s|
  {
    var r := SortedKeys(s);
    var k :| 0 <= k < |r| && r[k] == x;
    SortedKeysRank(s, k);
  }

  // ---------------------------------------------------------------------------------------
  // LIMIT ? OFFSET ?
  // ---------------------------------------------------------------------------------------

  /** How many rows `LIMIT limit OFFSET skip` keeps of `n` rows. */
  function PageSize(n: nat, skip: nat, limit: nat): nat {
    if skip >= n then 0 else if limit < n - skip then limit else n - skip
  }

  /** The rows `LIMIT limit OFFSET skip` keeps: skip `skip` rows, then at most `limit`. */
  function Page<T>(s: seq<T>, skip: nat, limit: nat): (r: seq<T>)
    ensures |r| == PageSize(|s|, skip, limit) <= limit
    ensures forall i :: 0 <= i < |r| ==> skip + i < |s| && r[i] == s[skip + i]
  {
    if skip >= |s| then []
    else if limit < |s| - skip then s[skip..skip + limit]
    else s[skip..]
  }

  /** Two consecutive pages make up the page that spans both. */
  lemma PageConcatenation<T>(s: seq<T>, skip: nat, a: nat, b: nat)
    ensures Page(s, skip, a) + Page(s, skip + a, b) == Page(s, skip, a + b)
  {
    var left, right, whole := Page(s, skip, a), Page(s, skip + a, b), Page(s, skip, a + b);
    assert |left + right| == |whole|;
    forall i | 0 <= i < |whole| ensures (left + right)[i] == whole[i] {
      if i >= |left| {
        assert right[i - |left|] == s[skip + a + (i - |left|)];
      }
    }
  }

  /**
   The keys `ORDER BY key LIMIT limit OFFSET skip` returns from the key set `s`: ascending,
   exactly the keys whose rank lies in the window [skip, skip + limit).
   */
  function Window(s: set<int>, skip: nat, limit: nat): (r: seq<int>)
    ensures |r| == PageSize(|s|, skip, limit) <= limit
    ensures StrictlyIncreasing(r)
    ensures forall i :: 0 <= i < |r| ==> r[i] in s && Rank(s, r[i]) == skip + i
    ensures forall x :: x in s && skip <= Rank(s, x) < skip + limit ==> x in r
  {
    var sorted := SortedKeys(s);
    var r := Page(sorted, skip, limit);
    forall i | 0 <= i < |r| ensures r[i] in s && Rank(s, r[i]) == skip + i {
      SortedKeysRank(s, skip + i);
    }
    forall x | x in s && skip <= Rank(s, x) < skip + limit ensures x in r {
      assert x in sorted;
      var k :| 0 <= k < |sorted| && sorted[k] == x;
      SortedKeysRank(s, k);
      assert r[k - skip] == x;
    }
    r
  }

  // ---------------------------------------------------------------------------------------
  // lower(...) and LIKE '%term%'
  // ---------------------------------------------------------------------------------------

  /** ASCII case folding, as SQLite's built-in `lower` does. */
  function LowerChar(c: char): char {
    if 'A' <= c <= 'Z' then (c as int + 32) as char else c
  }

  function Lower(s: string): (r: string)
    ensures |r| == |s|
    ensures forall i :: 0 <= i < |r| ==> r[i] == LowerChar(s[i])
  {
    seq(|s|, i requires 0 <= i < |s| => LowerChar(s[i]))
  }

  /** Folding twice is folding once: a lowered string has no upper-case letter left. */
  lemma LowerIdempotent(s: string)
    ensures Lower(Lower(s)) == Lower(s)
  {
    var once := Lower(s);
    forall i | 0 <= i < |once| ensures Lower(once)[i] == once[i] {
      assert once[i] == LowerChar(s[i]);
    }
  }

  predicate OccursAt(haystack: string, needle: string, i: int)
    requires 0 <= i <= |haystack| - |needle|
  {
    haystack[i..i + |needle|] == needle
  }

  /** `haystack LIKE '%needle%'` for a needle without wildcard characters. */
  predicate Contains(haystack: string, needle: string) {
    exists i :: 0 <= i <= |haystack| - |needle| && OccursAt(haystack, needle, i)
  }

  // ---------------------------------------------------------------------------------------
  // ORDER BY a text column: binary collation, character by character
  // ---------------------------------------------------------------------------------------

  /** `a <= b` in the lexicographic order SQLite uses for TEXT under the BINARY collation. */
  predicate TextLe(a: string, b: string) {
    a == [] || (b != [] && (a[0] < b[0] || (a[0] == b[0] && TextLe(a[1..], b[1..]))))
  }

  lemma {:induction false} TextLeTotal(a: string, b: string)
    ensures TextLe(a, b) || TextLe(b, a)
  {
    if a != [] && b != [] && a[0] == b[0] {
      TextLeTotal(a[1..], b[1..]);
    }
  }

  lemma {:induction false} TextLeTransitive(a: string, b: string, c: string)
    requires TextLe(a, b) && TextLe(b, c)
    ensures TextLe(a, c)
  {
    if a != [] && a[0] == b[0] && b[0] == c[0] {
      TextLeTransitive(a[1..], b[1..], c[1..]);
    }
  }
}
