/** Class ranking and colour assignment: classes ordered by descending count
    and zipped against a fixed palette into a class-to-colour dictionary. */
module ColorRanking {
  import opened ClassCounts

  /** The strict order the ranking follows: a larger count first, and equal
      counts by the position of the class's first detection. */
  predicate RanksBefore(xs: seq<string>, a: string, b: string)
    requires a in xs && b in xs
  {
    || Count(xs, a) > Count(xs, b)
    || (Count(xs, a) == Count(xs, b) && FirstIndex(xs, a) < FirstIndex(xs, b))
  }

  /** Every earlier element of `r` ranks before every later one. */
  predicate Ranked(xs: seq<string>, r: seq<string>)
    requires forall k :: 0 <= k < |r| ==> r[k] in xs
  {
    forall i, j :: 0 <= i < j < |r| ==> RanksBefore(xs, r[i], r[j])
  }

  /** Inserts `x` after every element whose count is at least its own. */
  function InsertByCount(cnt: map<string, nat>, x: string, s: seq<string>): (r: seq<string>)
    requires x in cnt && forall e :: e in s ==> e in cnt
    ensures multiset(r) == multiset(s) + multiset{x}
    ensures forall e :: e in r <==> e in s || e == x
  {
    if |s| == 0 then [x]
    else if cnt[s[0]] >= cnt[x] then
      assert s == [s[0]] + s[1..];
      [s[0]] + InsertByCount(cnt, x, s[1..])
    else [x] + s
  }

  /** `sorted(keys, key=cnt.get, reverse=True)`: a stable sort by descending
      count, by insertion of each key in turn. */
  function SortByCountDesc(cnt: map<string, nat>, keys: seq<string>): (r: seq<string>)
    requires forall k :: k in keys ==> k in cnt
    ensures multiset(r) == multiset(keys)
    ensures forall e :: e in r <==> e in keys
  {
    if |keys| == 0 then []
    else
      assert keys == keys[..|keys| - 1] + [keys[|keys| - 1]];
      InsertByCount(cnt, keys[|keys| - 1], SortByCountDesc(cnt, keys[..|keys| - 1]))
  }

  /** The class ranking `sorted(counts, key=counts.get, reverse=True)`:
      the Counter's keys sorted by their counts. */
  function Rank(xs: seq<string>): seq<string> {
    SortByCountDesc(Counts(xs), FirstSeen(xs))
  }

  /** Inserting a class that appeared later than every class already ranked
      keeps the ranking in RanksBefore order. */
  lemma {:induction false} InsertKeepsRanked(xs: seq<string>, x: string, s: seq<string>)
    requires x in xs && forall e :: e in s ==> e in xs
    requires Ranked(xs, s)
    requires forall e :: e in s ==> FirstIndex(xs, e) < FirstIndex(xs, x)
    ensures Ranked(xs, InsertByCount(Counts(xs), x, s))
  {
    var cnt := Counts(xs);
    if |s| > 0 {
      if cnt[s[0]] >= cnt[x] {
        InsertKeepsRanked(xs, x, s[1..]);
        HeadRanksFirst(xs, x, s);
      } else {
        assert RanksBefore(xs, x, s[0]);
        forall j | 0 < j < |s|
          ensures RanksBefore(xs, x, s[j])
        {
          assert RanksBefore(xs, s[0], s[j]);
        }
      }
    }
  }

  /** When `s[0]` stays in front, it ranks before everything inserted after it. */
  lemma HeadRanksFirst(xs: seq<string>, x: string, s: seq<string>)
    requires x in xs && forall e :: e in s ==> e in xs
    requires |s| > 0 && Counts(xs)[s[0]] >= Counts(xs)[x]
    requires Ranked(xs, s)
    requires forall e :: e in s ==> FirstIndex(xs, e) < FirstIndex(xs, x)
    ensures forall e :: e in InsertByCount(Counts(xs), x, s[1..]) ==> RanksBefore(xs, s[0], e)
  {
    forall e | e in InsertByCount(Counts(xs), x, s[1..])
      ensures RanksBefore(xs, s[0], e)
    {
      if e != x {
        var k :| 0 <= k < |s[1..]| && s[1..][k] == e;
        assert s[k + 1] == e;
      }
    }
  }

  /** Sorting keys listed in order of first appearance yields the ranking. */
  lemma {:induction false} SortRanked(xs: seq<string>, keys: seq<string>)
    requires forall e :: e in keys ==> e in xs
    requires forall i, j :: 0 <= i < j < |keys| ==> FirstIndex(xs, keys[i]) < FirstIndex(xs, keys[j])
    ensures Ranked(xs, SortByCountDesc(Counts(xs), keys))
  {
    if |keys| > 0 {
      var prefix := keys[..|keys| - 1];
      var x := keys[|keys| - 1];
      SortRanked(xs, prefix);
      var s := SortByCountDesc(Counts(xs), prefix);
      forall e | e in s
        ensures FirstIndex(xs, e) < FirstIndex(xs, x)
      {
        var k :| 0 <= k < |prefix| && prefix[k] == e;
      }
      InsertKeepsRanked(xs, x, s);
    }
  }

  /** The ranking lists every class exactly once, by descending count, ties
      in order of first appearance. */
  lemma RankSpec(xs: seq<string>)
    ensures forall n :: n in Rank(xs) <==> n in xs
    ensures NoDuplicates(Rank(xs))
    ensures |Rank(xs)| == |FirstSeen(xs)|
    ensures Ranked(xs, Rank(xs))
  {
    var r := Rank(xs);
    var ks := FirstSeen(xs);
    assert |r| == |multiset(r)| == |multiset(ks)| == |ks|;
    FirstSeenOrder(xs);
    SortRanked(xs, ks);
  }

  function Min(a: nat, b: nat): nat {
    if a <= b then a else b
  }

  /** `dict(zip(ks, vs))`: pairs up to the shorter length; a repeated key
      keeps its last value. */
  function DictZip<V>(ks: seq<string>, vs: seq<V>): (m: map<string, V>)
    ensures forall k :: k in m <==> k in ks[..Min(|ks|, |vs|)]
    ensures NoDuplicates(ks) ==> forall i :: 0 <= i < Min(|ks|, |vs|) ==> ks[i] in m && m[ks[i]] == vs[i]
  {
    if |ks| == 0 || |vs| == 0 then map[]
    else
      var rest := DictZip(ks[1..], vs[1..]);
      assert ks[..Min(|ks|, |vs|)] == [ks[0]] + ks[1..][..Min(|ks| - 1, |vs| - 1)];
      map[ks[0] := vs[0]] + rest
  }

  /** The class-to-colour dictionary `dict(zip(names, palette))`. */
  function ColorMap<C>(xs: seq<string>, palette: seq<C>): map<string, C> {
    DictZip(Rank(xs), palette)
  }

  /** The i-th ranked class gets the i-th palette entry; only the first
      `|palette|` ranked classes get a colour at all. */
  lemma ColorMapSpec<C>(xs: seq<string>, palette: seq<C>)
    ensures forall i :: 0 <= i < |Rank(xs)| && i < |palette| ==>
              Rank(xs)[i] in ColorMap(xs, palette) && ColorMap(xs, palette)[Rank(xs)[i]] == palette[i]
    ensures forall n :: n in ColorMap(xs, palette) <==> n in Rank(xs)[..Min(|Rank(xs)|, |palette|)]
    ensures forall n :: n in ColorMap(xs, palette) ==> n in xs
  {
    RankSpec(xs);
  }

  /** With a palette of distinct colours, distinct classes get distinct colours. */
  lemma ColorsDistinct<C>(xs: seq<string>, palette: seq<C>, a: string, b: string)
    requires NoDuplicates(palette)
    requires a in ColorMap(xs, palette) && b in ColorMap(xs, palette) && a != b
    ensures ColorMap(xs, palette)[a] != ColorMap(xs, palette)[b]
  {
    RankSpec(xs);
    var r := Rank(xs);
    var m := Min(|r|, |palette|);
    assert a in r[..m] && b in r[..m];
    var i :| 0 <= i < m && r[..m][i] == a;
    var j :| 0 <= j < m && r[..m][j] == b;
    assert palette[i] != palette[j];
  }

  /** More classes than palette entries leaves some detected class with no
      colour. */
  lemma PaletteExhausted<C>(xs: seq<string>, palette: seq<C>)
    requires |FirstSeen(xs)| > |palette|
    ensures exists n :: n in xs && n !in ColorMap(xs, palette)
  {
    RankSpec(xs);
    var r := Rank(xs);
    var n := r[|palette|];
    assert n in r;
    assert n !in r[..|palette|];
  }

  /** With at least as many palette entries as classes, every class gets a
      colour. */
  lemma PaletteSuffices<C>(xs: seq<string>, palette: seq<C>)
    requires |FirstSeen(xs)| <= |palette|
    ensures forall n :: n in xs ==> n in ColorMap(xs, palette)
  {
    RankSpec(xs);
    var r := Rank(xs);
    assert r[..Min(|r|, |palette|)] == r;
  }
}
