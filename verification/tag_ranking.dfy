/** The recommendation ranking of the interest quiz (`getTopRoadmaps`):
    count how often each tag was picked, sort the tags by count with a
    stable descending sort, keep the first three, and collect up to three
    roadmaps with distinct titles from the catalog of those tags. */
module TagRanking {
  import opened Common

  type Tag = string

  /** One entry of the `tagCounts` object. */
  datatype TagCount = TagCount(tag: Tag, count: nat)

  /** A catalog roadmap and a recommended one labelled with its tag. */
  datatype Roadmap = Roadmap(title: string, description: string)
  datatype Recommendation = Recommendation(title: string, description: string, category: Tag)

  /** The `recommendedRoadmaps` table: tag to its roadmaps, in order. */
  type Catalog = map<Tag, seq<Roadmap>>

  /** At most this many tags are kept and this many roadmaps returned. */
  const TopCount: nat := 3

  predicate Distinct<T(==)>(s: seq<T>) {
    forall i, j :: 0 <= i < j < |s| ==> s[i] != s[j]
  }

  // ---------------------------------------------------------------------
  // Counting.
  // ---------------------------------------------------------------------

  /** `answers.flat()`. */
  function Flatten(answers: seq<seq<Tag>>): (r: seq<Tag>)
    ensures forall t :: t in r <==> exists i :: 0 <= i < |answers| && t in answers[i]
  {
    if |answers| == 0 then []
    else
      var rest := Flatten(answers[1..]);
      assert forall i :: 1 <= i < |answers| ==> answers[i] == answers[1..][i - 1];
      answers[0] + rest
  }

  /** Flattening keeps the order of the answers: it distributes over
      concatenation, and one answer flattens to its own tags. */
  lemma {:induction false} FlattenConcat(a: seq<seq<Tag>>, b: seq<seq<Tag>>)
    ensures Flatten(a + b) == Flatten(a) + Flatten(b)
    ensures |a| == 1 ==> Flatten(a) == a[0]
    decreases |a|
  {
    if |a| == 0 {
      assert a + b == b;
    } else {
      assert (a + b)[1..] == a[1..] + b;
      FlattenConcat(a[1..], b);
      if |a| == 1 {
        assert Flatten(a[1..]) == [];
      }
    }
  }

  /** The distinct elements of `s` in order of first appearance; a JavaScript
      object enumerates its (non-numeric) keys in this order. */
  function FirstAppearances(s: seq<Tag>): (d: seq<Tag>)
    ensures Distinct(d)
    ensures forall t :: t in d <==> t in s
    ensures forall t, u :: t in s && u in s ==> (Rank(d, t) < Rank(d, u) <==> Rank(s, t) < Rank(s, u))
    decreases |s|
  {
    if |s| == 0 then []
    else
      var p := s[..|s| - 1];
      var x := s[|s| - 1];
      var d := FirstAppearances(p);
      assert s == p + [x];
      AppearanceStep(p, x, d);
      if x in d then d else d + [x]
  }

  /** Adding one element to the seen list keeps the order of first
      appearances in step with the input. */
  lemma AppearanceStep(p: seq<Tag>, x: Tag, d: seq<Tag>)
    requires forall t :: t in d <==> t in p
    requires forall t, u :: t in p && u in p ==> (Rank(d, t) < Rank(d, u) <==> Rank(p, t) < Rank(p, u))
    ensures var r := if x in d then d else d + [x];
      forall t, u :: t in p + [x] && u in p + [x] ==> (Rank(r, t) < Rank(r, u) <==> Rank(p + [x], t) < Rank(p + [x], u))
  {
    var r := if x in d then d else d + [x];
    forall t | t in p + [x] ensures Rank(p + [x], t) == (if t in p then Rank(p, t) else |p|)
                              && Rank(r, t) == (if t in d then Rank(d, t) else |d|) {
      RankAppend(p, x, t);
      if x !in d {
        RankAppend(d, x, t);
      }
    }
  }

  /** Appending leaves the first position of every element already present
      alone, and puts a new element at the end. */
  lemma {:induction false} RankAppend(p: seq<Tag>, x: Tag, t: Tag)
    ensures t in p ==> Rank(p + [x], t) == Rank(p, t)
    ensures t !in p && t == x ==> Rank(p + [x], t) == |p|
    decreases |p|
  {
    if |p| > 0 {
      assert (p + [x])[0] == p[0];
      assert (p + [x])[1..] == p[1..] + [x];
      assert t in p && t != p[0] ==> t in p[1..];
      RankAppend(p[1..], x, t);
    } else {
      assert p + [x] == [x];
    }
  }

  function Tags(entries: seq<TagCount>): (r: seq<Tag>)
    ensures |r| == |entries|
    ensures forall i :: 0 <= i < |r| ==> r[i] == entries[i].tag
  {
    seq(|entries|, i requires 0 <= i < |entries| => entries[i].tag)
  }

  /** `tagCounts[t] || 0`: the count of the first entry for `t`, or zero. */
  function CountOf(entries: seq<TagCount>, t: Tag): (c: nat)
    ensures t !in Tags(entries) ==> c == 0
    ensures c != 0 ==> TagCount(t, c) in entries
  {
    if |entries| == 0 then 0
    else if entries[0].tag == t then entries[0].count
    else
      var c := CountOf(entries[1..], t);
      assert t !in Tags(entries) ==> t !in Tags(entries[1..]) by {
        if t in Tags(entries[1..]) {
          TagInTail(entries, t);
        }
      }
      assert entries == [entries[0]] + entries[1..];
      c
  }

  lemma TagInTail(entries: seq<TagCount>, t: Tag)
    requires |entries| > 0 && t in Tags(entries[1..])
    ensures t in Tags(entries)
  {
    var k :| 0 <= k < |entries[1..]| && Tags(entries[1..])[k] == t;
    assert Tags(entries)[k + 1] == t;
  }

  /** With distinct tags, each entry holds the count the lookup finds. */
  lemma {:induction false} CountOfEntry(entries: seq<TagCount>, i: nat)
    requires Distinct(Tags(entries))
    requires i < |entries|
    ensures CountOf(entries, entries[i].tag) == entries[i].count
    decreases i
  {
    if i > 0 {
      assert Tags(entries)[0] != Tags(entries)[i];
      assert Distinct(Tags(entries[1..])) by {
        forall a, b | 0 <= a < b < |entries| - 1
          ensures Tags(entries[1..])[a] != Tags(entries[1..])[b]
        {
          assert Tags(entries)[a + 1] != Tags(entries)[b + 1];
        }
      }
      CountOfEntry(entries[1..], i - 1);
    }
  }

  /** `tagCounts[t] = (tagCounts[t] || 0) + 1`. */
  function Bump(entries: seq<TagCount>, t: Tag): (r: seq<TagCount>)
    ensures Tags(r) == if t in Tags(entries) then Tags(entries) else Tags(entries) + [t]
  {
    if |entries| == 0 then [TagCount(t, 1)]
    else if entries[0].tag == t then
      var r := [TagCount(t, entries[0].count + 1)] + entries[1..];
      assert Tags(entries)[0] == t;
      assert Tags(r) == Tags(entries);
      r
    else
      var rest := Bump(entries[1..], t);
      var r := [entries[0]] + rest;
      TagsCons(entries);
      TagsCons(r);
      assert r[1..] == rest;
      assert t in Tags(entries) <==> t in Tags(entries[1..]);
      r
  }

  lemma TagsCons(entries: seq<TagCount>)
    requires |entries| > 0
    ensures Tags(entries) == [entries[0].tag] + Tags(entries[1..])
  {
  }

  /** Bumping adds one to the count of `t` and to no other count. */
  lemma {:induction false} BumpCounts(entries: seq<TagCount>, t: Tag, u: Tag)
    ensures CountOf(Bump(entries, t), u) == CountOf(entries, u) + (if u == t then 1 else 0)
    decreases |entries|
  {
    if |entries| > 0 && entries[0].tag != t {
      var r := Bump(entries, t);
      assert r[1..] == Bump(entries[1..], t);
      BumpCounts(entries[1..], t, u);
    } else if |entries| > 0 {
      var r := Bump(entries, t);
      assert r[1..] == entries[1..];
    }
  }

  /** The `forEach` that fills `tagCounts`, one tag at a time in order. */
  function CountTags(s: seq<Tag>): (r: seq<TagCount>)
    ensures Tags(r) == FirstAppearances(s)
    ensures forall u :: CountOf(r, u) == multiset(s)[u]
    decreases |s|
  {
    if |s| == 0 then []
    else
      var prefix := CountTags(s[..|s| - 1]);
      assert s == s[..|s| - 1] + [s[|s| - 1]];
      assert forall u :: CountOf(Bump(prefix, s[|s| - 1]), u) == multiset(s)[u] by {
        forall u ensures CountOf(Bump(prefix, s[|s| - 1]), u) == multiset(s)[u] {
          BumpCounts(prefix, s[|s| - 1], u);
        }
      }
      Bump(prefix, s[|s| - 1])
  }

  /** Every counted tag carries exactly its number of occurrences. */
  lemma CountTagsExact(s: seq<Tag>)
    ensures forall i :: 0 <= i < |CountTags(s)| ==>
              CountTags(s)[i].count == multiset(s)[CountTags(s)[i].tag]
  {
    var r := CountTags(s);
    forall i | 0 <= i < |r| ensures r[i].count == multiset(s)[r[i].tag] {
      CountOfEntry(r, i);
    }
  }

  // ---------------------------------------------------------------------
  // Stable descending sort (`sort((a, b) => b[1] - a[1])`).
  // ---------------------------------------------------------------------

  predicate SortedDesc(l: seq<TagCount>) {
    forall i, j :: 0 <= i < j < |l| ==> l[i].count >= l[j].count
  }

  /** The entries with count `c`, in list order. */
  function WithCount(l: seq<TagCount>, c: nat): seq<TagCount>
  {
    if |l| == 0 then []
    else (if l[0].count == c then [l[0]] else []) + WithCount(l[1..], c)
  }

  /** Insert `x` in front of the first entry whose count is not larger. */
  function InsertDesc(x: TagCount, l: seq<TagCount>): (r: seq<TagCount>)
    ensures |r| == |l| + 1
    ensures multiset(r) == multiset(l) + multiset{x}
  {
    if |l| == 0 || x.count >= l[0].count then [x] + l
    else
      assert l == [l[0]] + l[1..];
      [l[0]] + InsertDesc(x, l[1..])
  }

  lemma {:induction false} InsertSorted(x: TagCount, l: seq<TagCount>)
    requires SortedDesc(l)
    ensures SortedDesc(InsertDesc(x, l))
    decreases |l|
  {
    if |l| > 0 && x.count < l[0].count {
      InsertSorted(x, l[1..]);
      InsertBelowHead(x, l);
      ConsSorted(l[0], InsertDesc(x, l[1..]));
    }
  }

  /** Putting an entry in front of a sorted list whose counts do not exceed
      its own keeps the list sorted. */
  lemma ConsSorted(h: TagCount, l: seq<TagCount>)
    requires SortedDesc(l)
    requires forall e :: e in l ==> e.count <= h.count
    ensures SortedDesc([h] + l)
  {
    var r := [h] + l;
    assert forall j :: 0 < j < |r| ==> r[j] == l[j - 1] && r[j] in l;
    assert forall i, j :: 0 < i < j < |r| ==> r[i] == l[i - 1] && r[j] == l[j - 1];
  }

  /** Whatever is inserted behind the head of a sorted list counts no more
      than the head. */
  lemma InsertBelowHead(x: TagCount, l: seq<TagCount>)
    requires SortedDesc(l)
    requires |l| > 0 && x.count < l[0].count
    ensures forall e :: e in InsertDesc(x, l[1..]) ==> e.count <= l[0].count
  {
    var ins := InsertDesc(x, l[1..]);
    forall e | e in ins ensures e.count <= l[0].count {
      assert e in multiset(ins);
      assert e in multiset(l[1..]) || e == x;
      if e != x {
        var k :| 0 <= k < |l[1..]| && l[1..][k] == e;
        assert l[k + 1] == e;
      }
    }
  }

  function SortDesc(l: seq<TagCount>): (r: seq<TagCount>)
    ensures |r| == |l|
    ensures multiset(r) == multiset(l)
    ensures SortedDesc(r)
  {
    if |l| == 0 then []
    else
      assert l == [l[0]] + l[1..];
      InsertSorted(l[0], SortDesc(l[1..]));
      InsertDesc(l[0], SortDesc(l[1..]))
  }

  /** Inserting `x` puts it ahead of every entry with its own count and
      leaves the other entries of each count in their order. */
  lemma {:induction false} InsertKeepsTies(x: TagCount, l: seq<TagCount>, c: nat)
    ensures WithCount(InsertDesc(x, l), c)
            == if x.count == c then [x] + WithCount(l, c) else WithCount(l, c)
    decreases |l|
  {
    if |l| == 0 || x.count >= l[0].count {
      var r := [x] + l;
      assert r[1..] == l;
    } else {
      var r := [l[0]] + InsertDesc(x, l[1..]);
      assert r[1..] == InsertDesc(x, l[1..]);
      InsertKeepsTies(x, l[1..], c);
    }
  }

  /** Stability: for every count, the entries with that count come out in
      the order they went in. */
  lemma {:induction false} SortIsStable(l: seq<TagCount>, c: nat)
    ensures WithCount(SortDesc(l), c) == WithCount(l, c)
    decreases |l|
  {
    if |l| > 0 {
      SortIsStable(l[1..], c);
      InsertKeepsTies(l[0], SortDesc(l[1..]), c);
    }
  }

  // ---------------------------------------------------------------------
  // Ranking: count first, then first appearance.
  // ---------------------------------------------------------------------

  /** Position of the first `t` in `d`, or `|d|` when absent. */
  function Rank(d: seq<Tag>, t: Tag): (k: nat)
    ensures k <= |d|
    ensures k < |d| ==> d[k] == t
    ensures t in d <==> k < |d|
  {
    if |d| == 0 then 0
    else if d[0] == t then 0
    else
      var k := Rank(d[1..], t);
      assert t in d <==> t in d[1..];
      1 + k
  }

  /** `x` goes before `y` in the ranking: a larger count, or an equal
      count and an earlier first appearance in `d`. */
  predicate Beats(d: seq<Tag>, x: TagCount, y: TagCount) {
    || x.count > y.count
    || (x.count == y.count && Rank(d, x.tag) < Rank(d, y.tag))
  }

  predicate RankedBy(d: seq<Tag>, l: seq<TagCount>) {
    forall i, j :: 0 <= i < j < |l| ==> Beats(d, l[i], l[j])
  }

  /** Placing `x` in front of a ranked list whose counts do not exceed its
      own, and whose ranks all come after its own, keeps it ranked. */
  lemma PrependRanked(d: seq<Tag>, x: TagCount, l: seq<TagCount>)
    requires RankedBy(d, l)
    requires forall y :: y in l ==> Rank(d, x.tag) < Rank(d, y.tag)
    requires |l| == 0 || x.count >= l[0].count
    ensures RankedBy(d, [x] + l)
  {
    var r := [x] + l;
    forall j | 0 < j < |r| ensures Beats(d, x, r[j]) {
      assert r[j] == l[j - 1];
      if j > 1 {
        assert Beats(d, l[0], l[j - 1]);
      }
    }
    assert forall i, j :: 0 < i < j < |r| ==> r[i] == l[i - 1] && r[j] == l[j - 1];
  }

  /** Placing `h` in front of a ranked list all of whose entries it beats
      keeps it ranked. */
  lemma PrependBeaten(d: seq<Tag>, h: TagCount, l: seq<TagCount>)
    requires RankedBy(d, l)
    requires forall y :: y in l ==> Beats(d, h, y)
    ensures RankedBy(d, [h] + l)
  {
    var r := [h] + l;
    assert forall j :: 0 < j < |r| ==> r[j] == l[j - 1] && r[j] in l;
    assert forall i, j :: 0 < i < j < |r| ==> r[i] == l[i - 1] && r[j] == l[j - 1];
  }

  lemma {:induction false} InsertRanked(d: seq<Tag>, x: TagCount, l: seq<TagCount>)
    requires RankedBy(d, l)
    requires forall y :: y in l ==> Rank(d, x.tag) < Rank(d, y.tag)
    ensures RankedBy(d, InsertDesc(x, l))
    decreases |l|
  {
    if |l| == 0 || x.count >= l[0].count {
      PrependRanked(d, x, l);
    } else {
      RankedTail(d, l);
      assert forall y :: y in l[1..] ==> y in l;
      InsertRanked(d, x, l[1..]);
      InsertBehindBeaten(d, x, l);
      PrependBeaten(d, l[0], InsertDesc(x, l[1..]));
    }
  }

  lemma RankedTail(d: seq<Tag>, l: seq<TagCount>)
    requires RankedBy(d, l) && |l| > 0
    ensures RankedBy(d, l[1..])
  {
    assert forall i, j :: 0 <= i < j < |l| - 1 ==> l[1..][i] == l[i + 1] && l[1..][j] == l[j + 1];
  }

  /** The head of a ranked list beats whatever is inserted behind it, when
      the inserted entry counts less and comes later in rank. */
  lemma InsertBehindBeaten(d: seq<Tag>, x: TagCount, l: seq<TagCount>)
    requires RankedBy(d, l) && |l| > 0 && x.count < l[0].count
    ensures forall y :: y in InsertDesc(x, l[1..]) ==> Beats(d, l[0], y)
  {
    var ins := InsertDesc(x, l[1..]);
    forall y | y in ins ensures Beats(d, l[0], y) {
      assert y in multiset(ins);
      assert y in multiset(l[1..]) || y == x;
      if y != x {
        var k :| 0 <= k < |l[1..]| && l[1..][k] == y;
        assert l[k + 1] == y;
      }
    }
  }

  /** Sorting a list whose entries appear in increasing rank order yields
      the list ranked by count, ties broken by that order: the sort is
      stable. */
  lemma {:induction false} SortRanked(d: seq<Tag>, l: seq<TagCount>)
    requires forall i, j :: 0 <= i < j < |l| ==> Rank(d, l[i].tag) < Rank(d, l[j].tag)
    ensures RankedBy(d, SortDesc(l))
    decreases |l|
  {
    if |l| > 0 {
      SortRanked(d, l[1..]);
      var sorted := SortDesc(l[1..]);
      forall y | y in sorted ensures Rank(d, l[0].tag) < Rank(d, y.tag) {
        assert y in multiset(l[1..]);
        var k :| 0 <= k < |l[1..]| && l[1..][k] == y;
        assert l[k + 1] == y;
      }
      InsertRanked(d, l[0], sorted);
    }
  }

  /** Tag `t` ranks ahead of tag `u` among the picked tags `flat`: picked
      more often, or as often and picked first earlier. */
  ghost predicate Ahead(flat: seq<Tag>, t: Tag, u: Tag) {
    || multiset(flat)[t] > multiset(flat)[u]
    || (multiset(flat)[t] == multiset(flat)[u]
        && Rank(FirstAppearances(flat), t) < Rank(FirstAppearances(flat), u))
  }

  /** The counted tags come in first-appearance order, so their ranks
      are their positions. */
  lemma CountTagsRankOrder(flat: seq<Tag>)
    ensures var e := CountTags(flat);
            forall i :: 0 <= i < |e| ==> Rank(FirstAppearances(flat), e[i].tag) == i
  {
    var d := FirstAppearances(flat);
    var e := CountTags(flat);
    forall i | 0 <= i < |e| ensures Rank(d, e[i].tag) == i {
      assert Tags(e)[i] == d[i];
    }
  }

  /** The counted tags, sorted, are ranked by count and first appearance,
      and each entry carries its tag's number of picks. */
  lemma RankedTagsRanked(flat: seq<Tag>)
    ensures var o := SortDesc(CountTags(flat));
            && RankedBy(FirstAppearances(flat), o)
            && (forall y :: y in o ==> y.count == multiset(flat)[y.tag] && y.tag in flat)
            && (forall u :: u in flat ==> exists p :: 0 <= p < |o| && o[p].tag == u)
  {
    var d := FirstAppearances(flat);
    var e := CountTags(flat);
    var o := SortDesc(e);
    CountTagsRankOrder(flat);
    SortRanked(d, e);
    SortedEntriesCounted(flat);
    SortedEntriesCover(flat);
  }

  lemma SortedEntriesCounted(flat: seq<Tag>)
    ensures forall y :: y in SortDesc(CountTags(flat)) ==> y.count == multiset(flat)[y.tag] && y.tag in flat
  {
    var e := CountTags(flat);
    var d := FirstAppearances(flat);
    CountTagsExact(flat);
    forall y | y in SortDesc(e) ensures y.count == multiset(flat)[y.tag] && y.tag in flat {
      assert y in multiset(e);
      var m :| 0 <= m < |e| && e[m] == y;
      assert d[m] == Tags(e)[m] == y.tag;
      assert y.tag in d;
    }
  }

  lemma SortedEntriesCover(flat: seq<Tag>)
    ensures forall u :: u in flat ==> exists p ::
              0 <= p < |SortDesc(CountTags(flat))| && SortDesc(CountTags(flat))[p].tag == u
  {
    var e := CountTags(flat);
    var o := SortDesc(e);
    PermutationCovers(flat, e, o, FirstAppearances(flat));
    assert forall u :: u in flat ==> exists p :: 0 <= p < |o| && o[p].tag == u;
    assert o == SortDesc(CountTags(flat));
  }

  /** A permutation of entries whose tags are `d` holds an entry for every
      tag of `d`, and so for every element of `flat` when `d` lists them. */
  lemma PermutationCovers(flat: seq<Tag>, e: seq<TagCount>, o: seq<TagCount>, d: seq<Tag>)
    requires multiset(o) == multiset(e)
    requires Tags(e) == d
    requires forall u :: u in flat <==> u in d
    ensures forall u :: u in flat ==> exists p :: 0 <= p < |o| && o[p].tag == u
  {
    forall u | u in flat ensures exists p :: 0 <= p < |o| && o[p].tag == u {
      var m :| 0 <= m < |d| && d[m] == u;
      assert e[m].tag == u by { assert Tags(e)[m] == d[m]; }
      assert e[m] in multiset(o);
      var p :| 0 <= p < |o| && o[p] == e[m];
      assert o[p].tag == u;
    }
  }

  /** In a ranked list whose entries carry their tags' pick counts, the
      tags of a prefix are distinct, best first, and ahead of every picked
      tag outside the prefix. */
  lemma RankedPrefixAhead(flat: seq<Tag>, o: seq<TagCount>, k: nat)
    requires k <= |o|
    requires RankedBy(FirstAppearances(flat), o)
    requires forall y :: y in o ==> y.count == multiset(flat)[y.tag] && y.tag in flat
    requires forall u :: u in flat ==> exists p :: 0 <= p < |o| && o[p].tag == u
    ensures var top := Tags(o[..k]);
            && Distinct(top)
            && (forall i :: 0 <= i < |top| ==> top[i] in flat)
            && (forall i, j :: 0 <= i < j < |top| ==> Ahead(flat, top[i], top[j]))
            && (forall i, u :: 0 <= i < |top| && u in flat && u !in top ==> Ahead(flat, top[i], u))
  {
    var top := Tags(o[..k]);
    assert forall i :: 0 <= i < |top| ==> top[i] == o[i].tag && o[i] in o;
    PrefixOrdered(flat, o, k);
    PrefixBeatsRest(flat, o, k);
  }

  /** The tags of a prefix of the ranking come in ranking order. */
  lemma PrefixOrdered(flat: seq<Tag>, o: seq<TagCount>, k: nat)
    requires k <= |o|
    requires RankedBy(FirstAppearances(flat), o)
    requires forall y :: y in o ==> y.count == multiset(flat)[y.tag] && y.tag in flat
    ensures var top := Tags(o[..k]);
            forall i, j :: 0 <= i < j < |top| ==> Ahead(flat, top[i], top[j]) && top[i] != top[j]
  {
    var d := FirstAppearances(flat);
    var top := Tags(o[..k]);
    forall i, j | 0 <= i < j < |top| ensures Ahead(flat, top[i], top[j]) && top[i] != top[j] {
      assert top[i] == o[i].tag && top[j] == o[j].tag;
      assert Beats(d, o[i], o[j]);
      assert o[i] in o && o[j] in o;
    }
  }

  /** Each tag of a prefix of the ranking ranks ahead of every picked tag
      outside the prefix. */
  lemma PrefixBeatsRest(flat: seq<Tag>, o: seq<TagCount>, k: nat)
    requires k <= |o|
    requires RankedBy(FirstAppearances(flat), o)
    requires forall y :: y in o ==> y.count == multiset(flat)[y.tag] && y.tag in flat
    requires forall u :: u in flat ==> exists p :: 0 <= p < |o| && o[p].tag == u
    ensures var top := Tags(o[..k]);
            forall i, u :: 0 <= i < |top| && u in flat && u !in top ==> Ahead(flat, top[i], u)
  {
    var top := Tags(o[..k]);
    forall i, u | 0 <= i < |top| && u in flat && u !in top ensures Ahead(flat, top[i], u) {
      PrefixExcludes(o, k, u);
      var p :| 0 <= p < |o| && o[p].tag == u;
      EarlierAhead(flat, o, i, p);
    }
  }

  /** A tag missing from the prefix's tags is on no entry of the prefix. */
  lemma PrefixExcludes(o: seq<TagCount>, k: nat, u: Tag)
    requires k <= |o| && u !in Tags(o[..k])
    ensures forall q :: 0 <= q < k ==> o[q].tag != u
  {
    forall q | 0 <= q < k ensures o[q].tag != u {
      assert Tags(o[..k])[q] == o[q].tag;
    }
  }

  /** An entry ranked earlier carries a tag that is ahead of a later one's. */
  lemma EarlierAhead(flat: seq<Tag>, o: seq<TagCount>, i: nat, p: nat)
    requires i < p < |o|
    requires RankedBy(FirstAppearances(flat), o)
    requires forall y :: y in o ==> y.count == multiset(flat)[y.tag] && y.tag in flat
    ensures Ahead(flat, o[i].tag, o[p].tag)
  {
    assert Beats(FirstAppearances(flat), o[i], o[p]);
    assert o[i] in o && o[p] in o;
  }

  // ---------------------------------------------------------------------
  // The top tags.
  // ---------------------------------------------------------------------

  /** All tags of the answers, best first. */
  function RankedTags(answers: seq<seq<Tag>>): seq<TagCount> {
    SortDesc(CountTags(Flatten(answers)))
  }

  /** `sortedTags`: the first three ranked tags. They are distinct picked
      tags, best first, and each ranks ahead of every picked tag left out. */
  function TopTags(answers: seq<seq<Tag>>): (top: seq<Tag>)
    ensures |top| == Min(TopCount, |FirstAppearances(Flatten(answers))|)
    ensures Distinct(top)
    ensures forall i :: 0 <= i < |top| ==> top[i] in Flatten(answers)
    ensures forall i, j :: 0 <= i < j < |top| ==> Ahead(Flatten(answers), top[i], top[j])
    ensures forall i, u :: 0 <= i < |top| && u in Flatten(answers) && u !in top ==>
              Ahead(Flatten(answers), top[i], u)
  {
    var flat := Flatten(answers);
    var ranked := RankedTags(answers);
    RankedTagsRanked(flat);
    RankedPrefixAhead(flat, ranked, Min(TopCount, |ranked|));
    Tags(ranked[..Min(TopCount, |ranked|)])
  }

  // ---------------------------------------------------------------------
  // Collecting roadmaps.
  // ---------------------------------------------------------------------

  /** `recommendedRoadmaps[tag] || []`. */
  function Lookup(catalog: Catalog, t: Tag): (r: seq<Roadmap>)
    ensures t in catalog ==> r == catalog[t]
    ensures t !in catalog ==> r == []
  {
    if t in catalog then catalog[t] else []
  }

  /** The roadmaps of one tag, each labelled with that tag. */
  function Label(rms: seq<Roadmap>, t: Tag): (r: seq<Recommendation>)
    ensures |r| == |rms|
    ensures forall i :: 0 <= i < |r| ==> r[i] == Recommendation(rms[i].title, rms[i].description, t)
  {
    seq(|rms|, i requires 0 <= i < |rms| => Recommendation(rms[i].title, rms[i].description, t))
  }

  /** Every roadmap the nested `forEach` visits, in visiting order. */
  function Candidates(tags: seq<Tag>, catalog: Catalog): (r: seq<Recommendation>)
    ensures forall c :: c in r ==> c.category in tags
    ensures forall i, k :: 0 <= i < |tags| && 0 <= k < |Lookup(catalog, tags[i])| ==>
              Label(Lookup(catalog, tags[i]), tags[i])[k] in r
    ensures forall c :: c in r ==> Roadmap(c.title, c.description) in Lookup(catalog, c.category)
  {
    if |tags| == 0 then []
    else
      var head := Label(Lookup(catalog, tags[0]), tags[0]);
      var rest := Candidates(tags[1..], catalog);
      assert forall i :: 1 <= i < |tags| ==> tags[i] == tags[1..][i - 1];
      assert forall c :: c in head ==> Roadmap(c.title, c.description) in Lookup(catalog, c.category) by {
        forall c | c in head
          ensures Roadmap(c.title, c.description) in Lookup(catalog, c.category)
        {
          var k :| 0 <= k < |head| && head[k] == c;
          assert Roadmap(c.title, c.description) == Lookup(catalog, tags[0])[k];
        }
      }
      head + rest
  }

  /** The visiting order is tag by tag: the candidates of a concatenation of
      tag lists are those of the first list followed by those of the second,
      and one tag contributes exactly its labelled roadmaps. */
  lemma {:induction false} CandidatesConcat(a: seq<Tag>, b: seq<Tag>, catalog: Catalog)
    ensures Candidates(a + b, catalog) == Candidates(a, catalog) + Candidates(b, catalog)
    ensures |a| == 1 ==> Candidates(a, catalog) == Label(Lookup(catalog, a[0]), a[0])
    decreases |a|
  {
    if |a| == 0 {
      assert a + b == b;
    } else {
      assert (a + b)[1..] == a[1..] + b;
      CandidatesConcat(a[1..], b, catalog);
      if |a| == 1 {
        assert Candidates(a[1..], catalog) == [];
      }
    }
  }

  predicate HasTitle(acc: seq<Recommendation>, title: string) {
    exists i :: 0 <= i < |acc| && acc[i].title == title
  }

  predicate DistinctTitles(acc: seq<Recommendation>) {
    forall i, j :: 0 <= i < j < |acc| ==> acc[i].title != acc[j].title
  }

  /** `a` is `b` with some elements left out. */
  ghost predicate IsSubseq<T>(a: seq<T>, b: seq<T>)
    decreases |b|
  {
    || |a| == 0
    || (|b| > 0 && ((a[0] == b[0] && IsSubseq(a[1..], b[1..])) || IsSubseq(a, b[1..])))
  }

  lemma {:induction false} SubseqConcat<T>(a: seq<T>, b: seq<T>, c: seq<T>, d: seq<T>)
    requires IsSubseq(a, b) && IsSubseq(c, d)
    ensures IsSubseq(a + c, b + d)
    decreases |b|
  {
    if |b| == 0 {
      assert a + c == c && b + d == d;
    } else if |a| > 0 && a[0] == b[0] && IsSubseq(a[1..], b[1..]) {
      SubseqConcat(a[1..], b[1..], c, d);
      assert (a + c)[1..] == a[1..] + c;
      assert (b + d)[1..] == b[1..] + d;
    } else if |a| == 0 {
      SubseqOfConcat(c, b, d);
      assert a + c == c;
    } else {
      SubseqConcat(a, b[1..], c, d);
      assert (b + d)[1..] == b[1..] + d;
    }
  }

  lemma {:induction false} SubseqOfConcat<T>(c: seq<T>, b: seq<T>, d: seq<T>)
    requires IsSubseq(c, d)
    ensures IsSubseq(c, b + d)
    decreases |b|
  {
    if |b| == 0 {
      assert b + d == d;
    } else {
      SubseqOfConcat(c, b[1..], d);
      assert (b + d)[1..] == b[1..] + d;
    }
  }

  lemma {:induction false} SubseqMembers<T>(a: seq<T>, b: seq<T>)
    requires IsSubseq(a, b)
    ensures forall x :: x in a ==> x in b
    decreases |b|
  {
    if |a| > 0 {
      if a[0] == b[0] && IsSubseq(a[1..], b[1..]) {
        SubseqMembers(a[1..], b[1..]);
        assert a == [a[0]] + a[1..];
      } else {
        SubseqMembers(a, b[1..]);
      }
      assert b == [b[0]] + b[1..];
    }
  }

  /** What every partial result satisfies: at most three, titles distinct. */
  predicate Admissible(acc: seq<Recommendation>) {
    |acc| <= TopCount && DistinctTitles(acc)
  }

  /** The body of the inner `forEach`: push `rm` when there is room and its
      title is new. */
  function Offer(acc: seq<Recommendation>, rm: Roadmap, t: Tag): (r: seq<Recommendation>)
    requires Admissible(acc)
    ensures Admissible(r)
    ensures r == acc || r == acc + [Recommendation(rm.title, rm.description, t)]
    ensures |acc| < TopCount ==> HasTitle(r, rm.title)
    ensures r == acc + [Recommendation(rm.title, rm.description, t)] <==> |acc| < TopCount && !HasTitle(acc, rm.title)
  {
    if |acc| < TopCount && !HasTitle(acc, rm.title) then
      var r := acc + [Recommendation(rm.title, rm.description, t)];
      assert r[|acc|].title == rm.title;
      r
    else acc
  }

  /** The reference choice, over the flat list of candidates in visiting
      order: take a candidate exactly when fewer than three are taken and
      none of them has its title. */
  function Take(acc: seq<Recommendation>, c: Recommendation): seq<Recommendation> {
    if |acc| < TopCount && !HasTitle(acc, c.title) then acc + [c] else acc
  }

  function Greedy(acc: seq<Recommendation>, cs: seq<Recommendation>): seq<Recommendation>
    decreases |cs|
  {
    if |cs| == 0 then acc else Greedy(Take(acc, cs[0]), cs[1..])
  }

  /** Choosing from two lists in a row is choosing from their concatenation. */
  lemma {:induction false} GreedyConcat(acc: seq<Recommendation>, a: seq<Recommendation>, b: seq<Recommendation>)
    ensures Greedy(acc, a + b) == Greedy(Greedy(acc, a), b)
    decreases |a|
  {
    if |a| == 0 {
      assert a + b == b;
    } else {
      assert (a + b)[0] == a[0];
      assert (a + b)[1..] == a[1..] + b;
      GreedyConcat(Take(acc, a[0]), a[1..], b);
    }
  }

  /** A title present in a prefix stays present. */
  lemma HasTitleExtends(a: seq<Recommendation>, r: seq<Recommendation>, title: string)
    requires a <= r
    requires HasTitle(a, title)
    ensures HasTitle(r, title)
  {
    var i :| 0 <= i < |a| && a[i].title == title;
    assert r[i] == a[i];
  }

  /** The part a chain of extensions added is the parts each step added. */
  lemma AddedParts<T>(a: seq<T>, b: seq<T>, c: seq<T>)
    requires a <= b <= c
    ensures c[|a|..] == b[|a|..] + c[|b|..]
  {
  }

  /** Once every roadmap title of a tag is present, every labelled
      roadmap of that tag is covered. */
  lemma LabelCovered(a: seq<Recommendation>, r: seq<Recommendation>, rms: seq<Roadmap>, t: Tag)
    requires a <= r
    requires forall i :: 0 <= i < |rms| ==> HasTitle(a, rms[i].title)
    ensures forall c :: c in Label(rms, t) ==> HasTitle(r, c.title)
  {
    var labels := Label(rms, t);
    forall c | c in labels ensures HasTitle(r, c.title) {
      var k :| 0 <= k < |labels| && labels[k] == c;
      HasTitleExtends(a, r, rms[k].title);
    }
  }

  /** The inner `forEach` over one tag's roadmaps. */
  function OfferAll(acc: seq<Recommendation>, rms: seq<Roadmap>, t: Tag): (r: seq<Recommendation>)
    requires Admissible(acc)
    ensures Admissible(r)
    ensures acc <= r
    ensures IsSubseq(r[|acc|..], Label(rms, t))
    ensures |r| < TopCount ==> forall i :: 0 <= i < |rms| ==> HasTitle(r, rms[i].title)
    ensures r == Greedy(acc, Label(rms, t))
    decreases |rms|
  {
    if |rms| == 0 then acc
    else
      var acc' := Offer(acc, rms[0], t);
      var r := OfferAll(acc', rms[1..], t);
      var labels := Label(rms, t);
      LabelStep(acc, rms, t);
      TakeSubseq(acc, r, labels);
      if |r| < TopCount then
        HasTitleExtends(acc', r, rms[0].title);
        TitlesCons(r, rms);
        r
      else
        r
  }

  /** Covering the first title and the titles of the rest covers them all. */
  lemma TitlesCons(r: seq<Recommendation>, rms: seq<Roadmap>)
    requires |rms| > 0 && HasTitle(r, rms[0].title)
    requires forall i :: 0 <= i < |rms[1..]| ==> HasTitle(r, rms[1..][i].title)
    ensures forall i :: 0 <= i < |rms| ==> HasTitle(r, rms[i].title)
  {
    forall i | 0 < i < |rms| ensures HasTitle(r, rms[i].title) {
      assert rms[i] == rms[1..][i - 1];
    }
  }

  /** One step of the inner loop is one greedy step over the labelled roadmaps. */
  lemma LabelStep(acc: seq<Recommendation>, rms: seq<Roadmap>, t: Tag)
    requires Admissible(acc)
    requires |rms| > 0
    ensures Label(rms, t)[1..] == Label(rms[1..], t)
    ensures Offer(acc, rms[0], t) == Take(acc, Label(rms, t)[0])
  {
    var labels := Label(rms, t);
    assert labels == [labels[0]] + Label(rms[1..], t);
  }

  /** What one greedy step adds, followed by a subsequence of the rest, is a
      subsequence of the whole candidate list. */
  lemma TakeSubseq(acc: seq<Recommendation>, r: seq<Recommendation>, cs: seq<Recommendation>)
    requires |cs| > 0
    requires acc <= Take(acc, cs[0]) <= r
    requires IsSubseq(r[|Take(acc, cs[0])|..], cs[1..])
    ensures IsSubseq(r[|acc|..], cs)
  {
    var acc' := Take(acc, cs[0]);
    AddedParts(acc, acc', r);
    if acc' != acc {
      assert acc'[|acc|..] == [cs[0]];
      var a := r[|acc|..];
      assert a[0] == cs[0] && a[1..] == r[|acc'|..];
    }
  }

  /** The outer `forEach` over the top tags. */
  function Collect(acc: seq<Recommendation>, tags: seq<Tag>, catalog: Catalog): (r: seq<Recommendation>)
    requires Admissible(acc)
    ensures Admissible(r)
    ensures acc <= r
    ensures IsSubseq(r[|acc|..], Candidates(tags, catalog))
    ensures |r| < TopCount ==> forall c :: c in Candidates(tags, catalog) ==> HasTitle(r, c.title)
    ensures r == Greedy(acc, Candidates(tags, catalog))
    decreases |tags|
  {
    if |tags| == 0 then acc
    else
      var rms := Lookup(catalog, tags[0]);
      var labels := Label(rms, tags[0]);
      var acc' := OfferAll(acc, rms, tags[0]);
      var r := Collect(acc', tags[1..], catalog);
      GreedyConcat(acc, labels, Candidates(tags[1..], catalog));
      AddedParts(acc, acc', r);
      SubseqConcat(acc'[|acc|..], labels, r[|acc'|..], Candidates(tags[1..], catalog));
      assert |r| < TopCount ==> forall c :: c in labels ==> HasTitle(r, c.title) by {
        if |r| < TopCount {
          LabelCovered(acc', r, rms, tags[0]);
        }
      }
      r
  }

  /** `getTopRoadmaps`. */
  function GetTopRoadmaps(answers: seq<seq<Tag>>, catalog: Catalog): (r: seq<Recommendation>)
    ensures |r| <= TopCount
    ensures DistinctTitles(r)
    ensures IsSubseq(r, Candidates(TopTags(answers), catalog))
    ensures |r| < TopCount ==> forall c :: c in Candidates(TopTags(answers), catalog) ==> HasTitle(r, c.title)
    ensures r == Greedy([], Candidates(TopTags(answers), catalog))
  {
    var r := Collect([], TopTags(answers), catalog);
    assert r[0..] == r;
    r
  }
}
