/** `sorted(xs, key=...)` on string keys: a stable sort in Python's string
    order. */
module NameSort {
  import opened Text

  /** No later key is smaller than an earlier one. */
  predicate SortedBy<T>(s: seq<T>, key: T -> string) {
    forall i, j :: 0 <= i < j < |s| ==> !LexLess(key(s[j]), key(s[i]))
  }

  predicate StrictlySortedBy<T>(s: seq<T>, key: T -> string) {
    forall i, j :: 0 <= i < j < |s| ==> LexLess(key(s[i]), key(s[j]))
  }

  predicate DistinctKeys<T>(s: seq<T>, key: T -> string) {
    forall i, j :: 0 <= i < j < |s| ==> key(s[i]) != key(s[j])
  }

  /** Inserts `x` after every element whose key is not larger than its own. */
  function InsertBy<T(==,!new)>(x: T, s: seq<T>, key: T -> string): (r: seq<T>)
    ensures multiset(r) == multiset(s) + multiset{x}
    ensures forall e :: e in r <==> e in s || e == x
  {
    if |s| == 0 then [x]
    else if LexLess(key(x), key(s[0])) then [x] + s
    else
      assert s == [s[0]] + s[1..];
      [s[0]] + InsertBy(x, s[1..], key)
  }

  /** Insertion sort, each element inserted after the ones before it. */
  function SortBy<T(==,!new)>(xs: seq<T>, key: T -> string): (r: seq<T>)
    ensures multiset(r) == multiset(xs)
    ensures forall e :: e in r <==> e in xs
  {
    if |xs| == 0 then []
    else
      assert xs == xs[..|xs| - 1] + [xs[|xs| - 1]];
      InsertBy(xs[|xs| - 1], SortBy(xs[..|xs| - 1], key), key)
  }

  lemma {:induction false} InsertSorted<T(!new)>(x: T, s: seq<T>, key: T -> string)
    requires SortedBy(s, key)
    ensures SortedBy(InsertBy(x, s, key), key)
  {
    if |s| > 0 {
      if LexLess(key(x), key(s[0])) {
        forall j | 0 <= j < |s|
          ensures !LexLess(key(s[j]), key(x))
        {
          if LexLess(key(s[j]), key(x)) {
            LexTransitive(key(s[j]), key(x), key(s[0]));
            if j == 0 {
              LexIrreflexive(key(s[0]));
            }
          }
        }
      } else {
        InsertSorted(x, s[1..], key);
        forall e | e in InsertBy(x, s[1..], key)
          ensures !LexLess(key(e), key(s[0]))
        {
          if e != x {
            var k :| 0 <= k < |s[1..]| && s[1..][k] == e;
            assert s[k + 1] == e;
          }
        }
      }
    }
  }

  /** The sort returns its input rearranged into key order. */
  lemma {:induction false} SortBySorted<T(!new)>(xs: seq<T>, key: T -> string)
    ensures SortedBy(SortBy(xs, key), key)
  {
    if |xs| > 0 {
      SortBySorted(xs[..|xs| - 1], key);
      InsertSorted(xs[|xs| - 1], SortBy(xs[..|xs| - 1], key), key);
    }
  }

  lemma {:induction false} InsertStrict<T(!new)>(x: T, s: seq<T>, key: T -> string)
    requires StrictlySortedBy(s, key)
    requires forall e :: e in s ==> key(e) != key(x)
    ensures StrictlySortedBy(InsertBy(x, s, key), key)
  {
    if |s| > 0 {
      if LexLess(key(x), key(s[0])) {
        forall j | 0 < j < |s|
          ensures LexLess(key(x), key(s[j]))
        {
          LexTransitive(key(x), key(s[0]), key(s[j]));
        }
      } else {
        LexTrichotomy(key(x), key(s[0]));
        InsertStrict(x, s[1..], key);
        forall e | e in InsertBy(x, s[1..], key)
          ensures LexLess(key(s[0]), key(e))
        {
          if e != x {
            var k :| 0 <= k < |s[1..]| && s[1..][k] == e;
            assert s[k + 1] == e;
          }
        }
      }
    }
  }

  /** With pairwise distinct keys the sorted output is strictly increasing. */
  lemma {:induction false} SortByStrict<T(!new)>(xs: seq<T>, key: T -> string)
    requires DistinctKeys(xs, key)
    ensures StrictlySortedBy(SortBy(xs, key), key)
  {
    if |xs| > 0 {
      var prefix := xs[..|xs| - 1];
      var x := xs[|xs| - 1];
      SortByStrict(prefix, key);
      forall e | e in SortBy(prefix, key)
        ensures key(e) != key(x)
      {
        var k :| 0 <= k < |prefix| && prefix[k] == e;
      }
      InsertStrict(x, SortBy(prefix, key), key);
    }
  }
}
