/** The facet walk both post renderers share: sort the facets by start, then
    for each one emit a plain span for any gap before it and a span of its
    own kind, and finally a plain span for whatever remains. Spans are
    ranges of offsets into the text's units (bytes in one renderer, UTF-16
    code units in the other); a span's text is the `slice` of that range. */
module Segmenter {
  import opened JsText
  import opened Facets

  datatype Span = Span(kind: SpanKind, start: int, end: int)

  /** The plain span before facet `f` when the walk stands at `last`. */
  function Gap(last: int, f: Facet): seq<Span>
  {
    if f.byteStart > last then [Span(Text, last, f.byteStart)] else []
  }

  function FacetSpan(f: Facet): Span
  {
    Span(KindOf(f), f.byteStart, f.byteEnd)
  }

  /** The plain span after the last facet, if any units remain. */
  function Trailing(last: int, n: int): seq<Span>
  {
    if last < n then [Span(Text, last, n)] else []
  }

  /** The spans the walk emits for the facets `fs` still to visit once it
      stands at offset `last`, in a text of `n` units. */
  function Walk(fs: seq<Facet>, last: int, n: int): seq<Span>
  {
    if fs == [] then Trailing(last, n)
    else Gap(last, fs[0]) + [FacetSpan(fs[0])] + Walk(fs[1..], fs[0].byteEnd, n)
  }

  /** All spans of a text of `n` units annotated by `facets`. */
  function Segments(facets: seq<Facet>, n: int): seq<Span>
  {
    Walk(Sort(facets, Ascending), 0, n)
  }

  /** `formatPostText`'s walk: sort the facets by start, then visit them. */
  method Segment(facets: seq<Facet>, n: int) returns (spans: seq<Span>)
    ensures spans == Segments(facets, n)
  {
    var sorted := Sort(facets, Ascending);
    spans := WalkSorted(sorted, n);
  }

  /** The `forEach` over the sorted facets, pushing onto `result` and moving
      `lastByteIndex` to each facet's end, then the trailing check. */
  method WalkSorted(sorted: seq<Facet>, n: int) returns (spans: seq<Span>)
    ensures spans == Walk(sorted, 0, n)
  {
    spans := [];
    var last := 0;
    var i := 0;
    while i < |sorted|
      invariant 0 <= i <= |sorted|
      invariant spans + Walk(sorted[i..], last, n) == Walk(sorted, 0, n)
    {
      var f := sorted[i];
      ghost var before := spans;
      if f.byteStart > last {
        spans := spans + [Span(Text, last, f.byteStart)];
      }
      spans := spans + [Span(KindOf(f), f.byteStart, f.byteEnd)];
      WalkStep(sorted, i, before, last, n);
      last := f.byteEnd;
      i := i + 1;
    }
    WalkEnd(sorted, spans, last, n);
    if last < n {
      spans := spans + [Span(Text, last, n)];
    }
  }

  /** One step of the walk: emitting the gap and the span of the facet at
      `i` keeps the spans emitted so far a prefix of the whole walk. */
  lemma WalkStep(fs: seq<Facet>, i: int, spans: seq<Span>, last: int, n: int)
    requires 0 <= i < |fs|
    requires spans + Walk(fs[i..], last, n) == Walk(fs, 0, n)
    ensures (spans + Gap(last, fs[i]) + [FacetSpan(fs[i])]) + Walk(fs[i + 1..], fs[i].byteEnd, n)
      == Walk(fs, 0, n)
  {
    assert fs[i..][1..] == fs[i + 1..];
  }

  /** Past the last facet only the trailing span remains. */
  lemma WalkEnd(fs: seq<Facet>, spans: seq<Span>, last: int, n: int)
    requires spans + Walk(fs[|fs|..], last, n) == Walk(fs, 0, n)
    ensures spans + Trailing(last, n) == Walk(fs, 0, n)
  {
    assert fs[|fs|..] == [];
  }

  // ---------------------------------------------------------------------
  // the spans tile the text

  /** The ranges of `spans`, in order, run from `a` to `b` with no gap and
      no overlap. */
  ghost predicate Covers(spans: seq<Span>, a: int, b: int)
    decreases |spans|
  {
    if spans == [] then a == b
    else spans[0].start == a <= spans[0].end && Covers(spans[1..], spans[0].end, b)
  }

  lemma {:induction false} CoversAppend(x: seq<Span>, y: seq<Span>, a: int, m: int, b: int)
    requires Covers(x, a, m) && Covers(y, m, b)
    ensures Covers(x + y, a, b)
    decreases |x|
  {
    if x != [] {
      assert (x + y)[0] == x[0] && (x + y)[1..] == x[1..] + y;
      CoversAppend(x[1..], y, x[0].end, m, b);
    } else {
      assert x + y == y;
    }
  }

  lemma {:induction false} CoversOrdered(spans: seq<Span>, a: int, b: int)
    requires Covers(spans, a, b)
    ensures a <= b
    decreases |spans|
  {
    if spans != [] {
      CoversOrdered(spans[1..], spans[0].end, b);
    }
  }

  /** On sorted, non-overlapping, in-range facets the walk's spans tile
      `[last, n]` exactly. */
  lemma {:induction false} WalkCovers(fs: seq<Facet>, last: int, n: int)
    requires Tiled(fs, last, n)
    ensures Covers(Walk(fs, last, n), last, n)
    decreases |fs|
  {
    if fs == [] {
      assert last < n ==> Trailing(last, n)[1..] == [];
    } else {
      var f := fs[0];
      assert Tiled(fs[1..], f.byteEnd, n) by {
        forall i | 0 <= i < |fs| - 1 ensures f.byteEnd <= fs[1..][i].byteStart {
          assert fs[1..][i] == fs[i + 1];
        }
      }
      WalkCovers(fs[1..], f.byteEnd, n);
      var rest := Walk(fs[1..], f.byteEnd, n);
      assert Covers([FacetSpan(f)] + rest, f.byteStart, n) by {
        assert ([FacetSpan(f)] + rest)[1..] == rest;
      }
      if f.byteStart > last {
        assert Covers(Gap(last, f), last, f.byteStart) by {
          assert Gap(last, f)[1..] == [];
        }
        CoversAppend(Gap(last, f), [FacetSpan(f)] + rest, last, f.byteStart, n);
      }
      assert Walk(fs, last, n) == Gap(last, f) + ([FacetSpan(f)] + rest);
    }
  }

  /** The concatenated contents of the spans: the `slice` of each range. */
  function Flatten<T>(units: seq<T>, spans: seq<Span>): seq<T>
  {
    if spans == [] then [] else Slice(units, spans[0].start, spans[0].end) + Flatten(units, spans[1..])
  }

  /** Spans tiling `[a, b]` reassemble exactly the units in `[a, b)`. */
  lemma {:induction false} FlattenCovers<T>(units: seq<T>, spans: seq<Span>, a: int, b: int)
    requires Covers(spans, a, b)
    requires 0 <= a && b <= |units|
    ensures a <= b && Flatten(units, spans) == units[a..b]
    decreases |spans|
  {
    CoversOrdered(spans, a, b);
    if spans != [] {
      var m := spans[0].end;
      CoversOrdered(spans[1..], m, b);
      FlattenCovers(units, spans[1..], m, b);
      assert units[a..b] == units[a..m] + units[m..b];
    }
  }

  /** A single span over the whole text gives the text back. */
  lemma FlattenWhole<T>(units: seq<T>)
    ensures Flatten(units, [Span(Text, 0, |units|)]) == units
  {
    assert [Span(Text, 0, |units|)][1..] == [];
    assert units[0..|units|] == units;
  }

  /** The round trip: on well-formed facets, the spans' contents concatenated
      in order give back every unit of the text exactly once. */
  lemma SegmentsRoundTrip<T>(units: seq<T>, facets: seq<Facet>)
    requires NonOverlapping(facets, |units|)
    ensures Covers(Segments(facets, |units|), 0, |units|)
    ensures Flatten(units, Segments(facets, |units|)) == units
  {
    SortedNonOverlappingIsTiled(facets, |units|);
    WalkCovers(Sort(facets, Ascending), 0, |units|);
    FlattenCovers(units, Segments(facets, |units|), 0, |units|);
  }

  // ---------------------------------------------------------------------
  // what the spans are

  /** A plain span is never empty: a gap span is emitted only when the next
      facet starts after the walk's position, and a trailing span only when
      units remain. */
  lemma {:induction false} TextSpansNonEmpty(fs: seq<Facet>, last: int, n: int)
    ensures forall k :: 0 <= k < |Walk(fs, last, n)| && Walk(fs, last, n)[k].kind == Text ==>
      Walk(fs, last, n)[k].start < Walk(fs, last, n)[k].end
    decreases |fs|
  {
    if fs != [] {
      TextSpansNonEmpty(fs[1..], fs[0].byteEnd, n);
    }
  }

  /** The spans that are not plain text. */
  function FacetSpans(spans: seq<Span>): seq<Span>
  {
    if spans == [] then []
    else (if spans[0].kind == Text then [] else [spans[0]]) + FacetSpans(spans[1..])
  }

  lemma {:induction false} FacetSpansAppend(x: seq<Span>, y: seq<Span>)
    ensures FacetSpans(x + y) == FacetSpans(x) + FacetSpans(y)
    decreases |x|
  {
    if x != [] {
      assert (x + y)[0] == x[0] && (x + y)[1..] == x[1..] + y;
      FacetSpansAppend(x[1..], y);
    } else {
      assert x + y == y;
    }
  }

  /** Every facet gets exactly one span, in the order visited, covering the
      facet's own range and of the kind its first feature names. */
  lemma {:induction false} OneSpanPerFacet(fs: seq<Facet>, last: int, n: int)
    ensures |FacetSpans(Walk(fs, last, n))| == |fs|
    ensures forall i :: 0 <= i < |fs| ==> FacetSpans(Walk(fs, last, n))[i] == FacetSpan(fs[i])
    decreases |fs|
  {
    if fs == [] {
      assert FacetSpans(Trailing(last, n)) == [];
    } else {
      var f := fs[0];
      var rest := Walk(fs[1..], f.byteEnd, n);
      OneSpanPerFacet(fs[1..], f.byteEnd, n);
      FacetSpansStep(last, f, rest);
      FacetSpanCons(FacetSpans(Walk(fs, last, n)), FacetSpans(rest), fs);
    }
  }

  lemma FacetSpanCons(all: seq<Span>, tail: seq<Span>, fs: seq<Facet>)
    requires fs != [] && all == [FacetSpan(fs[0])] + tail
    requires |tail| == |fs| - 1
    requires forall i :: 0 <= i < |fs| - 1 ==> tail[i] == FacetSpan(fs[1..][i])
    ensures |all| == |fs|
    ensures forall i :: 0 <= i < |fs| ==> all[i] == FacetSpan(fs[i])
  {
    forall i | 1 <= i < |fs| ensures all[i] == FacetSpan(fs[i]) {
      assert all[i] == tail[i - 1] && fs[i] == fs[1..][i - 1];
    }
  }

  /** The spans of one walk step that are not plain text: just the
      facet's own. */
  lemma FacetSpansStep(last: int, f: Facet, rest: seq<Span>)
    ensures FacetSpans(Gap(last, f) + [FacetSpan(f)] + rest) == [FacetSpan(f)] + FacetSpans(rest)
  {
    FacetSpansAppend(Gap(last, f) + [FacetSpan(f)], rest);
    FacetSpansAppend(Gap(last, f), [FacetSpan(f)]);
    assert FacetSpans(Gap(last, f)) == [];
    assert FacetSpans([FacetSpan(f)]) == [FacetSpan(f)];
  }

  /** With distinct starts, the order the facets arrive in does not matter:
      every permutation yields the same spans. */
  lemma SegmentsIgnoreFacetOrder(facets: seq<Facet>, permuted: seq<Facet>, n: int)
    requires DistinctStarts(facets)
    requires multiset(permuted) == multiset(facets)
    ensures Segments(permuted, n) == Segments(facets, n)
  {
    SortIgnoresInputOrder(facets, permuted, Ascending);
  }
}
