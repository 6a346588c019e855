/** The bio widget (`src/components/BlueskyBio.jsx`): the profile
    description with every link facet's text cut out, split into trimmed,
    non-blank lines. Facet offsets are applied to the description's UTF-16
    code units, as the widget does. */
module BlueskyBio {
  import opened Wrappers
  import opened JsText
  import opened Facets
  import opened BioCleanup

  // ---------------------------------------------------------------------
  // removing the links

  /** One step of the `forEach`: a link facet's range is cut out with
      `slice(0, byteStart) + slice(byteEnd)`; any other facet is kept. */
  function StripLink(t: seq<CodeUnit>, f: Facet): (r: seq<CodeUnit>)
    ensures IsLink(f) && 0 <= f.byteStart <= f.byteEnd <= |t| ==>
      |r| == |t| - (f.byteEnd - f.byteStart) && r[..f.byteStart] == t[..f.byteStart]
    ensures IsLink(f) && 0 <= f.byteStart <= f.byteEnd <= |t| ==> r == t[..f.byteStart] + t[f.byteEnd..]
    ensures !IsLink(f) ==> r == t
  {
    if IsLink(f) then Slice(t, 0, f.byteStart) + Slice(t, f.byteEnd, |t|) else t
  }

  /** The text after visiting the facets `rs` in order. */
  function Stripped(t: seq<CodeUnit>, rs: seq<Facet>): seq<CodeUnit>
    decreases |rs|
  {
    if rs == [] then t else Stripped(StripLink(t, rs[0]), rs[1..])
  }

  /** `processedText` after the removal loop: the facets, if any, visited
      in descending order of start. */
  function LinkFree(text: seq<CodeUnit>, facets: Option<seq<Facet>>): seq<CodeUnit>
  {
    if facets.Some? then Stripped(text, Sort(facets.value, Descending)) else text
  }

  /** The removal loop of `formatBioText`. */
  method RemoveLinks(text: seq<CodeUnit>, facets: Option<seq<Facet>>) returns (processed: seq<CodeUnit>)
    ensures processed == LinkFree(text, facets)
  {
    processed := text;
    if facets.Some? && |facets.value| > 0 {
      var sorted := Sort(facets.value, Descending);
      var i := 0;
      while i < |sorted|
        invariant 0 <= i <= |sorted|
        invariant Stripped(processed, sorted[i..]) == Stripped(text, sorted)
      {
        assert sorted[i..][1..] == sorted[i + 1..];
        var f := sorted[i];
        if IsLink(f) {
          processed := Slice(processed, 0, f.byteStart) + Slice(processed, f.byteEnd, |processed|);
        }
        i := i + 1;
      }
    }
  }

  /** Position `p` lies inside the range of a link facet of `rs`. */
  ghost predicate Covered(rs: seq<Facet>, p: int)
  {
    exists i :: 0 <= i < |rs| && IsLink(rs[i]) && rs[i].byteStart <= p < rs[i].byteEnd
  }

  /** The units of `t[..k]` that no link of `rs` covers, in order: what
      removing the links should leave, independent of the order of
      removal. */
  ghost function Kept(t: seq<CodeUnit>, rs: seq<Facet>, k: nat): (r: seq<CodeUnit>)
    requires k <= |t|
    ensures |r| <= k
    decreases k
  {
    if k == 0 then [] else Kept(t, rs, k - 1) + (if Covered(rs, k - 1) then [] else [t[k - 1]])
  }

  lemma CoveredCons(rs: seq<Facet>, p: int)
    requires rs != []
    ensures Covered(rs, p) <==>
      (IsLink(rs[0]) && rs[0].byteStart <= p < rs[0].byteEnd) || Covered(rs[1..], p)
  {
    if Covered(rs, p) {
      var i :| 0 <= i < |rs| && IsLink(rs[i]) && rs[i].byteStart <= p < rs[i].byteEnd;
      if i > 0 {
        assert rs[1..][i - 1] == rs[i];
      }
    }
    if Covered(rs[1..], p) {
      var i :| 0 <= i < |rs[1..]| && IsLink(rs[1..][i]) && rs[1..][i].byteStart <= p < rs[1..][i].byteEnd;
      assert rs[i + 1] == rs[1..][i];
    }
  }

  lemma CoveredPermutation(a: seq<Facet>, b: seq<Facet>, p: int)
    requires multiset(a) == multiset(b)
    ensures Covered(a, p) <==> Covered(b, p)
  {
    if Covered(a, p) {
      var i :| 0 <= i < |a| && IsLink(a[i]) && a[i].byteStart <= p < a[i].byteEnd;
      assert a[i] in multiset(b);
      var j :| 0 <= j < |b| && b[j] == a[i];
    }
    if Covered(b, p) {
      var j :| 0 <= j < |b| && IsLink(b[j]) && b[j].byteStart <= p < b[j].byteEnd;
      assert b[j] in multiset(a);
      var i :| 0 <= i < |a| && a[i] == b[j];
    }
  }

  lemma {:induction false} KeptCongruent(t: seq<CodeUnit>, u: seq<CodeUnit>, a: seq<Facet>, b: seq<Facet>, k: nat)
    requires k <= |t| && k <= |u|
    requires forall p :: 0 <= p < k ==> t[p] == u[p] && (Covered(a, p) <==> Covered(b, p))
    ensures Kept(t, a, k) == Kept(u, b, k)
    decreases k
  {
    if k > 0 {
      KeptCongruent(t, u, a, b, k - 1);
    }
  }

  lemma {:induction false} KeptUncovered(t: seq<CodeUnit>, rs: seq<Facet>, lo: nat, k: nat)
    requires lo <= k <= |t|
    requires forall p :: lo <= p < k ==> !Covered(rs, p)
    ensures Kept(t, rs, k) == Kept(t, rs, lo) + t[lo..k]
    decreases k
  {
    if k > lo {
      KeptUncovered(t, rs, lo, k - 1);
      assert t[lo..k] == t[lo..k - 1] + [t[k - 1]];
    }
  }

  lemma {:induction false} KeptCovered(t: seq<CodeUnit>, rs: seq<Facet>, lo: nat, k: nat)
    requires lo <= k <= |t|
    requires forall p :: lo <= p < k ==> Covered(rs, p)
    ensures Kept(t, rs, k) == Kept(t, rs, lo)
    decreases k
  {
    if k > lo {
      KeptCovered(t, rs, lo, k - 1);
    }
  }

  /** A step that removes nothing leaves what is kept unchanged. */
  lemma StepWithoutEffect(t: seq<CodeUnit>, rs: seq<Facet>)
    requires rs != [] && LinksDescending(rs, |t|)
    requires !IsLink(rs[0]) || rs[0].byteStart == rs[0].byteEnd
    ensures StripLink(t, rs[0]) == t
    ensures LinksDescending(rs[1..], |t|)
    ensures Kept(t, rs[1..], |t|) == Kept(t, rs, |t|)
  {
    var f := rs[0];
    if IsLink(f) {
      SliceSplit(t, 0, f.byteStart, |t|);
      assert Slice(t, 0, |t|) == t;
    }
    forall p | 0 <= p < |t| ensures Covered(rs[1..], p) <==> Covered(rs, p) {
      CoveredCons(rs, p);
    }
    KeptCongruent(t, t, rs[1..], rs, |t|);
  }

  /** After the first (highest) non-empty link, every link lies wholly
      before its start. */
  lemma LinksBeforeCut(t: seq<CodeUnit>, rs: seq<Facet>)
    requires rs != [] && LinksDescending(rs, |t|)
    requires IsLink(rs[0]) && rs[0].byteStart < rs[0].byteEnd
    ensures forall i :: 0 <= i < |rs[1..]| && IsLink(rs[1..][i]) ==> rs[1..][i].byteEnd <= rs[0].byteStart
    ensures forall p :: rs[0].byteStart <= p ==> !Covered(rs[1..], p)
    ensures LinksDescending(rs[1..], |StripLink(t, rs[0])|)
  {
    var rest := rs[1..];
    forall i | 0 <= i < |rest| && IsLink(rest[i]) ensures rest[i].byteEnd <= rs[0].byteStart {
      assert rest[i] == rs[i + 1];
    }
  }

  /** Cutting out the first (highest) non-empty link: the units kept by
      the remaining links in the shorter text are the units kept by all
      links in the original. */
  lemma StepCutsLink(t: seq<CodeUnit>, rs: seq<Facet>)
    requires rs != [] && LinksDescending(rs, |t|)
    requires IsLink(rs[0]) && rs[0].byteStart < rs[0].byteEnd
    ensures LinksDescending(rs[1..], |StripLink(t, rs[0])|)
    ensures Kept(StripLink(t, rs[0]), rs[1..], |StripLink(t, rs[0])|) == Kept(t, rs, |t|)
  {
    var f, rest := rs[0], rs[1..];
    var s, e := f.byteStart, f.byteEnd;
    var t' := StripLink(t, f);
    assert t' == t[..s] + t[e..];
    LinksBeforeCut(t, rs);
    KeptUncovered(t', rest, s, |t'|);
    assert t'[s..] == t[e..];
    KeptBeforeCut(t, t', rs, s);
    KeptAfterCut(t, rs);
  }

  lemma KeptBeforeCut(t: seq<CodeUnit>, t': seq<CodeUnit>, rs: seq<Facet>, s: nat)
    requires rs != [] && s == rs[0].byteStart && s <= |t| && s <= |t'|
    requires t'[..s] == t[..s]
    ensures Kept(t', rs[1..], s) == Kept(t, rs, s)
  {
    forall p | 0 <= p < s ensures t'[p] == t[p] && (Covered(rs[1..], p) <==> Covered(rs, p)) {
      assert t'[p] == t'[..s][p];
      CoveredCons(rs, p);
    }
    KeptCongruent(t', t, rs[1..], rs, s);
  }

  lemma KeptAfterCut(t: seq<CodeUnit>, rs: seq<Facet>)
    requires rs != [] && LinksDescending(rs, |t|)
    requires IsLink(rs[0]) && rs[0].byteStart < rs[0].byteEnd
    requires forall p :: rs[0].byteStart <= p ==> !Covered(rs[1..], p)
    ensures Kept(t, rs, |t|) == Kept(t, rs, rs[0].byteStart) + t[rs[0].byteEnd..]
  {
    var s, e := rs[0].byteStart, rs[0].byteEnd;
    forall p | s <= p < e ensures Covered(rs, p) {
      CoveredCons(rs, p);
    }
    KeptCovered(t, rs, s, e);
    forall p | e <= p < |t| ensures !Covered(rs, p) {
      CoveredCons(rs, p);
    }
    KeptUncovered(t, rs, e, |t|);
  }

  /** Visiting links from the highest start down cuts out exactly the
      link ranges. */
  lemma {:induction false} StrippedKeeps(t: seq<CodeUnit>, rs: seq<Facet>)
    requires LinksDescending(rs, |t|)
    ensures Stripped(t, rs) == Kept(t, rs, |t|)
    decreases |rs|
  {
    if rs == [] {
      KeptUncovered(t, rs, 0, |t|);
    } else if !IsLink(rs[0]) || rs[0].byteStart == rs[0].byteEnd {
      StepWithoutEffect(t, rs);
      StrippedKeeps(t, rs[1..]);
    } else {
      StepCutsLink(t, rs);
      StrippedKeeps(StripLink(t, rs[0]), rs[1..]);
    }
  }

  /** For link facets that lie in the text and do not overlap, the loop
      removes exactly the units inside some link's range and keeps every
      other unit, in order, whatever order the facets came in. */
  lemma RemovesExactlyTheLinks(text: seq<CodeUnit>, facets: seq<Facet>)
    requires LinksDisjoint(facets, |text|)
    ensures LinkFree(text, Some(facets)) == Kept(text, facets, |text|)
  {
    var sorted := Sort(facets, Descending);
    SortedLinksDescend(facets, |text|);
    StrippedKeeps(text, sorted);
    forall p | 0 <= p < |text| ensures Covered(sorted, p) <==> Covered(facets, p) {
      CoveredPermutation(sorted, facets, p);
    }
    KeptCongruent(text, text, sorted, facets, |text|);
  }

  /** A description with no link facets keeps all of its text. */
  lemma NonLinkFacetsKeepText(text: seq<CodeUnit>, facets: seq<Facet>)
    requires forall i :: 0 <= i < |facets| ==> !IsLink(facets[i])
    ensures LinkFree(text, Some(facets)) == text
    ensures LinkFree(text, None) == text
  {
    var sorted := Sort(facets, Descending);
    forall i | 0 <= i < |sorted| ensures !IsLink(sorted[i]) {
      assert sorted[i] in multiset(facets);
    }
    StrippedWithoutLinks(text, sorted);
  }

  lemma {:induction false} StrippedWithoutLinks(t: seq<CodeUnit>, rs: seq<Facet>)
    requires forall i :: 0 <= i < |rs| ==> !IsLink(rs[i])
    ensures Stripped(t, rs) == t
    decreases |rs|
  {
    if rs != [] {
      assert forall i :: 0 <= i < |rs[1..]| ==> rs[1..][i] == rs[i + 1];
      StrippedWithoutLinks(t, rs[1..]);
    }
  }

  /** What `formatBioText(text, facets)` renders: `None` is `null`,
      otherwise the lines of the description, one per `div`. */
  function BioLines(text: Option<seq<CodeUnit>>, facets: Option<seq<Facet>>): (r: Option<seq<seq<CodeUnit>>>)
    ensures r.Some? ==> r.value != [] && forall i :: 0 <= i < |r.value| ==>
      && r.value[i] != [] && NEWLINE !in r.value[i]
      && !IsJsWhitespace(r.value[i][0]) && !IsJsWhitespace(r.value[i][|r.value[i]| - 1])
    ensures r.None? <==> text.None? || text.value == [] || AllWhitespace(LinkFree(text.value, facets))
  {
    if text.None? || text.value == [] then None
    else
      var processed := LinkFree(text.value, facets);
      var lines := CleanLines(Split(processed, NEWLINE));
      JoinSplit(processed, NEWLINE);
      JoinBlank(Split(processed, NEWLINE));
      CleanLinesContents(Split(processed, NEWLINE));
      if lines == [] then None else Some(lines)
  }

  /** `formatBioText`. */
  method FormatBioText(text: Option<seq<CodeUnit>>, facets: Option<seq<Facet>>)
    returns (r: Option<seq<seq<CodeUnit>>>)
    ensures r == BioLines(text, facets)
  {
    if text.None? || text.value == [] {
      return None;
    }
    var processed := RemoveLinks(text.value, facets);
    var lines := CleanLines(Split(processed, NEWLINE));
    if |lines| == 0 {
      return None;
    }
    r := Some(lines);
  }

  /** There are never more lines than line breaks left after the links are
      removed, plus one. */
  lemma BioLineCount(text: seq<CodeUnit>, facets: Option<seq<Facet>>)
    requires BioLines(Some(text), facets).Some?
    ensures |BioLines(Some(text), facets).value| <= Count(LinkFree(text, facets), NEWLINE) + 1
  {
    SplitCount(LinkFree(text, facets), NEWLINE);
  }

  /** What the widget shows once loading has finished. */
  datatype BioView = Spinner | Nothing | Description(lines: Option<seq<seq<CodeUnit>>>)

  /** The render: a spinner while loading, nothing on an error or a
      missing or empty description, otherwise the container around
      `formatBioText`'s lines (or around nothing, if it returns `null`). */
  function RenderBio(loading: bool, error: Option<string>, description: Option<seq<CodeUnit>>,
                     facets: Option<seq<Facet>>): (v: BioView)
    ensures v.Description? ==> !loading && description.Some? && description.value != [] && (error.None? || error.value == [])
    ensures v.Description? ==> v.lines == BioLines(description, facets)
    ensures !loading && description.Some? && description.value != [] && (error.None? || error.value == [])
      ==> v.Description?
  {
    if loading then Spinner
    else if (error.Some? && error.value != []) || description.None? || description.value == [] then Nothing
    else Description(BioLines(description, facets))
  }
}
