/** Rich-text facets of the AT Protocol lexicon `app.bsky.richtext.facet`: an
    annotation over the range `[byteStart, byteEnd)` of a post's text whose
    first feature says what the range is. */
module Facets {
  import opened Wrappers

  const LINK_TYPE := "app.bsky.richtext.facet#link"
  const MENTION_TYPE := "app.bsky.richtext.facet#mention"
  const TAG_TYPE := "app.bsky.richtext.facet#tag"

  /** One feature: its `$type` and, for links, its `uri`. */
  datatype Feature = Feature(typ: string, uri: Option<string>)

  /** A facet: `index.byteStart`, `index.byteEnd` and `features` (an absent
      feature list is the empty one). */
  datatype Facet = Facet(byteStart: int, byteEnd: int, features: seq<Feature>)

  /** What a rendered span is: plain text between facets, or the span of a
      facet of one of the four kinds. Only a link carries a target. */
  datatype SpanKind = Text | Link(uri: Option<string>) | Mention | Tag | Other

  /** `facet.features?.[0]?.['$type'] === t`. */
  predicate FirstFeatureIs(f: Facet, t: string)
  {
    |f.features| > 0 && f.features[0].typ == t
  }

  predicate IsLink(f: Facet)
  {
    FirstFeatureIs(f, LINK_TYPE)
  }

  /** The kind of a facet's span, tried in the order link, mention, tag. */
  function KindOf(f: Facet): SpanKind
  {
    if IsLink(f) then Link(f.features[0].uri)
    else if FirstFeatureIs(f, MENTION_TYPE) then Mention
    else if FirstFeatureIs(f, TAG_TYPE) then Tag
    else Other
  }

  /** A facet's span is never plain text; it is a link, carrying the first
      feature's `uri`, exactly when the first feature is a link; a mention
      exactly when it is a mention; a tag exactly when it is a tag. */
  lemma KindOfCases(f: Facet)
    ensures var k := KindOf(f);
      && k != Text
      && (k.Link? <==> IsLink(f))
      && (k.Link? ==> k.uri == f.features[0].uri)
      && (k == Mention <==> FirstFeatureIs(f, MENTION_TYPE))
      && (k == Tag <==> FirstFeatureIs(f, TAG_TYPE))
  {
  }

  // ---------------------------------------------------------------------
  // sorting by byteStart

  /** The two comparators the site passes to `Array.prototype.sort`:
      `a.index.byteStart - b.index.byteStart` and its reverse. */
  datatype Order = Ascending | Descending

  predicate InOrder(a: Facet, b: Facet, o: Order)
  {
    if o == Ascending then a.byteStart <= b.byteStart else a.byteStart >= b.byteStart
  }

  ghost predicate Sorted(fs: seq<Facet>, o: Order)
  {
    forall i, j :: 0 <= i < j < |fs| ==> InOrder(fs[i], fs[j], o)
  }

  function Insert(x: Facet, s: seq<Facet>, o: Order): (r: seq<Facet>)
    requires Sorted(s, o)
    ensures multiset(r) == multiset(s) + multiset{x}
    ensures |r| == |s| + 1
    ensures forall y :: y in r ==> y == x || y in s
    ensures Sorted(r, o)
  {
    if s == [] || InOrder(x, s[0], o) then [x] + s
    else
      var tail := Insert(x, s[1..], o);
      SortedTail(s, o);
      InsertStep(x, s, tail, o);
      [s[0]] + tail
  }

  /** Inserting `x` after the head of `s`: the head still comes first. */
  lemma InsertStep(x: Facet, s: seq<Facet>, tail: seq<Facet>, o: Order)
    requires s != [] && Sorted(s, o) && !InOrder(x, s[0], o)
    requires forall y :: y in tail ==> y == x || y in s[1..]
    requires multiset(tail) == multiset(s[1..]) + multiset{x}
    requires Sorted(tail, o)
    ensures Sorted([s[0]] + tail, o)
    ensures multiset([s[0]] + tail) == multiset(s) + multiset{x}
  {
    var r := [s[0]] + tail;
    forall j | 0 <= j < |tail| ensures InOrder(s[0], tail[j], o) {
      assert tail[j] in tail;
      if tail[j] != x {
        var k :| 0 <= k < |s[1..]| && s[1..][k] == tail[j];
        assert s[k + 1] == tail[j];
      }
    }
    forall i, j | 0 <= i < j < |r| ensures InOrder(r[i], r[j], o) {
      assert r[j] == tail[j - 1];
      if i > 0 {
        assert r[i] == tail[i - 1];
      }
    }
    assert s == [s[0]] + s[1..];
  }

  lemma SortedTail(s: seq<Facet>, o: Order)
    requires s != [] && Sorted(s, o)
    ensures Sorted(s[1..], o)
  {
    forall i, j | 0 <= i < j < |s| - 1 ensures InOrder(s[1..][i], s[1..][j], o) {
      assert InOrder(s[i + 1], s[j + 1], o);
    }
  }

  lemma MultisetTail(s: seq<Facet>)
    requires s != []
    ensures multiset(s[1..]) == multiset(s) - multiset{s[0]}
  {
    assert s == [s[0]] + s[1..];
  }

  /** `[...facets].sort(comparator)`: a stable sort, so facets with equal
      starts keep their input order. */
  function Sort(fs: seq<Facet>, o: Order): (r: seq<Facet>)
    ensures multiset(r) == multiset(fs)
    ensures |r| == |fs|
    ensures Sorted(r, o)
  {
    if fs == [] then []
    else
      assert fs == [fs[0]] + fs[1..];
      Insert(fs[0], Sort(fs[1..], o), o)
  }

  // ---------------------------------------------------------------------
  // well-formed facet lists

  /** Facets in `[0, n]`, pairwise non-overlapping, with distinct starts:
      the annotations a well-behaved client produces. */
  ghost predicate NonOverlapping(fs: seq<Facet>, n: int)
  {
    && (forall i :: 0 <= i < |fs| ==> 0 <= fs[i].byteStart <= fs[i].byteEnd <= n)
    && (forall i, j :: 0 <= i < |fs| && 0 <= j < |fs| && i != j ==>
          && fs[i].byteStart != fs[j].byteStart
          && (fs[i].byteEnd <= fs[j].byteStart || fs[j].byteEnd <= fs[i].byteStart))
  }

  ghost predicate DistinctStarts(fs: seq<Facet>)
  {
    forall i, j :: 0 <= i < |fs| && 0 <= j < |fs| && i != j ==> fs[i].byteStart != fs[j].byteStart
  }

  /** Facets laid out left to right from `lo` within `[lo, n]`, each ending
      no later than every later one starts: sorted and non-overlapping. */
  ghost predicate Tiled(fs: seq<Facet>, lo: int, n: int)
  {
    && lo <= n
    && (forall i :: 0 <= i < |fs| ==> lo <= fs[i].byteStart <= fs[i].byteEnd <= n)
    && (forall i, j :: 0 <= i < j < |fs| ==> fs[i].byteEnd <= fs[j].byteStart)
  }

  /** Only the link facets of `fs` (the ones a bio removes) are in `[0, n]`
      and pairwise non-overlapping. */
  ghost predicate LinksDisjoint(fs: seq<Facet>, n: int)
  {
    && (forall i :: 0 <= i < |fs| && IsLink(fs[i]) ==> 0 <= fs[i].byteStart <= fs[i].byteEnd <= n)
    && (forall i, j :: 0 <= i < |fs| && 0 <= j < |fs| && i != j && IsLink(fs[i]) && IsLink(fs[j]) ==>
          fs[i].byteEnd <= fs[j].byteStart || fs[j].byteEnd <= fs[i].byteStart)
  }

  /** Link facets in the order the bio's removal loop visits them, highest
      start first: every link after a non-empty link lies wholly before it. */
  ghost predicate LinksDescending(fs: seq<Facet>, n: int)
  {
    && (forall i :: 0 <= i < |fs| && IsLink(fs[i]) ==> 0 <= fs[i].byteStart <= fs[i].byteEnd <= n)
    && (forall i, j :: (0 <= i < j < |fs| && IsLink(fs[i]) && IsLink(fs[j])
          && fs[i].byteStart < fs[i].byteEnd) ==> fs[j].byteEnd <= fs[i].byteStart)
  }

  // ---------------------------------------------------------------------
  // permutations

  /** An element occurring twice in the multiset of `a` occurs at two
      distinct positions of `a`. */
  lemma {:induction false} TwoOccurrences(a: seq<Facet>, x: Facet)
    requires multiset(a)[x] >= 2
    ensures exists p, q :: 0 <= p < |a| && 0 <= q < |a| && p != q && a[p] == x && a[q] == x
  {
    assert a == [a[0]] + a[1..];
    assert multiset(a) == multiset{a[0]} + multiset(a[1..]);
    if a[0] == x {
      assert x in multiset(a[1..]);
      var q :| 0 <= q < |a[1..]| && a[1..][q] == x;
      assert a[q + 1] == x;
    } else {
      TwoOccurrences(a[1..], x);
      var p, q :| 0 <= p < |a[1..]| && 0 <= q < |a[1..]| && p != q && a[1..][p] == x && a[1..][q] == x;
      assert a[p + 1] == x && a[q + 1] == x;
    }
  }

  /** Two distinct positions of a permutation `b` of `a` hold elements found
      at two distinct positions of `a`. */
  lemma DistinctPositions(a: seq<Facet>, b: seq<Facet>, i: int, j: int)
    requires multiset(a) == multiset(b)
    requires 0 <= i < |b| && 0 <= j < |b| && i != j
    ensures exists p, q :: 0 <= p < |a| && 0 <= q < |a| && p != q && a[p] == b[i] && a[q] == b[j]
  {
    assert b[i] in multiset(a) && b[j] in multiset(a);
    if b[i] != b[j] {
      var p :| 0 <= p < |a| && a[p] == b[i];
      var q :| 0 <= q < |a| && a[q] == b[j];
    } else {
      var lo, hi := if i < j then i else j, if i < j then j else i;
      assert b == b[..hi] + b[hi..];
      assert b[lo] in b[..hi] && b[hi] in b[hi..];
      assert multiset(b) == multiset(b[..hi]) + multiset(b[hi..]);
      TwoOccurrences(a, b[i]);
    }
  }

  /** Reordering keeps a list non-overlapping. */
  lemma NonOverlappingPermutation(a: seq<Facet>, b: seq<Facet>, n: int)
    requires NonOverlapping(a, n) && multiset(a) == multiset(b)
    ensures NonOverlapping(b, n)
  {
    forall i | 0 <= i < |b| ensures 0 <= b[i].byteStart <= b[i].byteEnd <= n {
      assert b[i] in multiset(a);
    }
    forall i, j | 0 <= i < |b| && 0 <= j < |b| && i != j
      ensures b[i].byteStart != b[j].byteStart
      ensures b[i].byteEnd <= b[j].byteStart || b[j].byteEnd <= b[i].byteStart
    {
      DistinctPositions(a, b, i, j);
    }
  }

  /** Sorting a non-overlapping list ascending tiles it from offset 0. */
  lemma SortedNonOverlappingIsTiled(fs: seq<Facet>, n: int)
    requires NonOverlapping(fs, n)
    requires 0 <= n
    ensures Tiled(Sort(fs, Ascending), 0, n)
  {
    var r := Sort(fs, Ascending);
    NonOverlappingPermutation(fs, r, n);
    forall i, j | 0 <= i < j < |r| ensures r[i].byteEnd <= r[j].byteStart {
      assert InOrder(r[i], r[j], Ascending);
    }
  }

  /** Sorting descending puts the disjoint links of a list in the order the
      bio's removal loop needs. */
  lemma SortedLinksDescend(fs: seq<Facet>, n: int)
    requires LinksDisjoint(fs, n)
    ensures LinksDescending(Sort(fs, Descending), n)
  {
    var r := Sort(fs, Descending);
    forall i | 0 <= i < |r| && IsLink(r[i]) ensures 0 <= r[i].byteStart <= r[i].byteEnd <= n {
      assert r[i] in multiset(fs);
    }
    forall i, j | 0 <= i < j < |r| && IsLink(r[i]) && IsLink(r[j]) && r[i].byteStart < r[i].byteEnd
      ensures r[j].byteEnd <= r[i].byteStart
    {
      LinkPairDescends(fs, r, n, i, j);
    }
  }

  lemma LinkPairDescends(fs: seq<Facet>, r: seq<Facet>, n: int, i: int, j: int)
    requires LinksDisjoint(fs, n) && multiset(r) == multiset(fs) && Sorted(r, Descending)
    requires 0 <= i < j < |r| && IsLink(r[i]) && IsLink(r[j]) && r[i].byteStart < r[i].byteEnd
    ensures r[j].byteEnd <= r[i].byteStart
  {
    assert InOrder(r[i], r[j], Descending);
    DistinctPositions(fs, r, i, j);
  }

  /** The first element of a sorted permutation of a list sorted with
      distinct starts is that list's first element. */
  lemma SameHead(r: seq<Facet>, s: seq<Facet>, o: Order)
    requires Sorted(r, o) && DistinctStarts(r)
    requires Sorted(s, o)
    requires multiset(r) == multiset(s) && r != []
    ensures s != [] && s[0] == r[0]
  {
    assert r[0] in multiset(s);
    var k :| 0 <= k < |s| && s[k] == r[0];
    assert s[0] in multiset(r);
    var m :| 0 <= m < |r| && r[m] == s[0];
    assert InOrder(s[0], s[k], o) && InOrder(r[0], r[m], o);
  }

  /** A list sorted with distinct starts is the only sorted arrangement of
      its elements. */
  lemma {:induction false} SortedArrangementUnique(r: seq<Facet>, s: seq<Facet>, o: Order)
    requires Sorted(r, o) && DistinctStarts(r)
    requires Sorted(s, o)
    requires multiset(r) == multiset(s)
    ensures r == s
    decreases |r|
  {
    if r == [] {
      assert |s| == |multiset(s)| == 0;
    } else {
      SameHead(r, s, o);
      MultisetTail(r);
      MultisetTail(s);
      SortedTail(r, o);
      SortedTail(s, o);
      DistinctTail(r);
      SortedArrangementUnique(r[1..], s[1..], o);
      assert r == [r[0]] + r[1..] && s == [s[0]] + s[1..];
    }
  }

  lemma DistinctTail(r: seq<Facet>)
    requires r != [] && DistinctStarts(r)
    ensures DistinctStarts(r[1..])
  {
    forall i, j | 0 <= i < |r| - 1 && 0 <= j < |r| - 1 && i != j
      ensures r[1..][i].byteStart != r[1..][j].byteStart
    {
      assert r[1..][i] == r[i + 1] && r[1..][j] == r[j + 1];
    }
  }

  /** Reordering keeps starts distinct. */
  lemma DistinctStartsPermutation(a: seq<Facet>, b: seq<Facet>)
    requires DistinctStarts(a) && multiset(a) == multiset(b)
    ensures DistinctStarts(b)
  {
    forall i, j | 0 <= i < |b| && 0 <= j < |b| && i != j ensures b[i].byteStart != b[j].byteStart {
      DistinctPositions(a, b, i, j);
    }
  }

  /** With distinct starts, the sorted order does not depend on the order
      the facets arrived in. */
  lemma SortIgnoresInputOrder(fs: seq<Facet>, gs: seq<Facet>, o: Order)
    requires DistinctStarts(fs)
    requires multiset(gs) == multiset(fs)
    ensures Sort(gs, o) == Sort(fs, o)
  {
    DistinctStartsPermutation(fs, Sort(fs, o));
    SortedArrangementUnique(Sort(fs, o), Sort(gs, o), o);
  }
}
