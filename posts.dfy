/** The posts page (`src/pages/Posts.jsx`): the byte-offset renderer of a
    post's text, the relative timestamp of a post card, and the j/k focus
    and load-more rules of the page. */
module Posts {
  import opened Wrappers
  import opened JsText
  import opened Utf8
  import opened Facets
  import opened Segmenter

  // ---------------------------------------------------------------------
  // byte slicing and the text renderer

  /** `byteSlice(text, byteStart, byteEnd)` up to decoding: the bytes of
      the UTF-8 encoding of `text` in the given range. */
  function ByteSlice(text: seq<CodeUnit>, byteStart: int, byteEnd: int): seq<Byte>
  {
    Slice(Encode(text), byteStart, byteEnd)
  }

  /** Adjacent byte slices join into the slice of the combined range. */
  lemma ByteSlicesJoin(text: seq<CodeUnit>, a: int, b: int, c: int)
    requires 0 <= a <= b <= c <= |Encode(text)|
    ensures ByteSlice(text, a, b) + ByteSlice(text, b, c) == ByteSlice(text, a, c)
  {
    SliceSplit(Encode(text), a, b, c);
  }

  /** On ASCII text a byte slice holds the same values as the code-unit
      slice with the same bounds. */
  lemma AsciiByteSliceIsStringSlice(text: seq<CodeUnit>, a: int, b: int)
    requires forall k :: 0 <= k < |text| ==> text[k] < 0x80
    requires 0 <= a <= b <= |text|
    ensures |ByteSlice(text, a, b)| == b - a
    ensures forall k :: 0 <= k < b - a ==> ByteSlice(text, a, b)[k] == Slice(text, a, b)[k]
  {
    AsciiEncodesToItself(text);
  }

  /** `!text` for a string that may be absent. */
  predicate IsTruthy(text: Option<seq<CodeUnit>>)
  {
    text.Some? && text.value != []
  }

  /** What `formatPostText(text, facets)` renders, as spans over the byte
      offsets of the text's UTF-8 encoding; `None` is `null`. */
  function PostSpans(text: Option<seq<CodeUnit>>, facets: Option<seq<Facet>>): (r: Option<seq<Span>>)
    ensures r.None? <==> !IsTruthy(text)
    ensures IsTruthy(text) && (facets.None? || facets.value == []) ==>
      r == Some([Span(Text, 0, |Encode(text.value)|)])
  {
    if !IsTruthy(text) then None
    else
      var bytes := Encode(text.value);
      if facets.None? || facets.value == [] then Some([Span(Text, 0, |bytes|)])
      else Some(Segments(facets.value, |bytes|))
  }

  /** `formatPostText`: encode once, then walk the sorted facets. */
  method FormatPostText(text: Option<seq<CodeUnit>>, facets: Option<seq<Facet>>)
    returns (r: Option<seq<Span>>)
    ensures r == PostSpans(text, facets)
  {
    if text.None? || text.value == [] {
      return None;
    }
    var bytes := Encode(text.value);
    if facets.None? || facets.value == [] {
      return Some([Span(Text, 0, |bytes|)]);
    }
    var spans := Segment(facets.value, |bytes|);
    r := Some(spans);
  }

  /** Rendering loses no byte and repeats none: for a non-empty text whose
      facets are in range, non-overlapping and distinct in start, the byte
      ranges of the spans concatenated in order are the whole encoding, and
      no plain span is empty. */
  lemma PostSpansRoundTrip(text: seq<CodeUnit>, facets: Option<seq<Facet>>)
    requires text != []
    requires facets.Some? ==> NonOverlapping(facets.value, |Encode(text)|)
    ensures PostSpans(Some(text), facets).Some?
    ensures Covers(PostSpans(Some(text), facets).value, 0, |Encode(text)|)
    ensures Flatten(Encode(text), PostSpans(Some(text), facets).value) == Encode(text)
    ensures forall s :: s in PostSpans(Some(text), facets).value && s.kind == Text ==> s.start < s.end
  {
    var bytes := Encode(text);
    EncodedLengthBounds(text);
    var spans := PostSpans(Some(text), facets).value;
    if facets.None? || facets.value == [] {
      assert spans == [Span(Text, 0, |bytes|)];
      assert Covers(spans[1..], |bytes|, |bytes|);
      FlattenCovers(bytes, spans, 0, |bytes|);
    } else {
      SegmentsRoundTrip(bytes, facets.value);
      TextSpansNonEmpty(Sort(facets.value, Ascending), 0, |bytes|);
    }
  }

  /** Each facet's span covers exactly its own byte range and has the kind
      its first feature names; the spans follow the facets in ascending
      order of start. */
  lemma PostFacetSpans(text: seq<CodeUnit>, facets: seq<Facet>)
    requires text != [] && facets != []
    ensures var spans := FacetSpans(PostSpans(Some(text), Some(facets)).value);
      && |spans| == |facets|
      && forall i :: 0 <= i < |facets| ==> spans[i] == FacetSpan(Sort(facets, Ascending)[i])
  {
    OneSpanPerFacet(Sort(facets, Ascending), 0, |Encode(text)|);
  }

  // ---------------------------------------------------------------------
  // relative time

  /** The relative label of a post card, from `diffMs = now - date` in
      milliseconds; `None` where the card shows a localised date instead. */
  function RelativeTime(diffMs: int): (shown: Option<string>)
    ensures shown == Some("now") <==> diffMs < 60000
    ensures 60000 <= diffMs < 3600000 ==> shown == Some(NatToString(diffMs / 60000) + "m")
    ensures 3600000 <= diffMs < 86400000 ==> shown == Some(NatToString(diffMs / 3600000) + "h")
    ensures shown.None? <==> 86400000 <= diffMs
  {
    var diffMins := diffMs / 60000;
    var diffHours := diffMs / 3600000;
    if diffMins < 1 then Some("now")
    else if diffMins < 60 then
      assert (NatToString(diffMins) + "m")[0] != "now"[0];
      Some(NatToString(diffMins) + "m")
    else if diffHours < 24 then
      assert (NatToString(diffHours) + "h")[0] != "now"[0];
      Some(NatToString(diffHours) + "h")
    else None
  }

  /** A relative shown other than "now" is a count followed by its unit;
      reading the count back gives 1 to 59 whole minutes or 1 to 23 whole
      hours elapsed. */
  lemma RelativeTimeCount(diffMs: int)
    requires 60000 <= diffMs < 86400000
    ensures var shown := RelativeTime(diffMs).value;
      var digits := shown[..|shown| - 1];
      && (forall k :: 0 <= k < |digits| ==> IsDigit(digits[k]))
      && (diffMs < 3600000 ==>
            (shown[|shown| - 1] == 'm' && 1 <= ParseDecimal(digits) <= 59
             && ParseDecimal(digits) * 60000 <= diffMs < (ParseDecimal(digits) + 1) * 60000))
      && (3600000 <= diffMs ==>
            (shown[|shown| - 1] == 'h' && 1 <= ParseDecimal(digits) <= 23
             && ParseDecimal(digits) * 3600000 <= diffMs < (ParseDecimal(digits) + 1) * 3600000))
  {
    var shown := RelativeTime(diffMs).value;
    if diffMs < 3600000 {
      assert shown[..|shown| - 1] == NatToString(diffMs / 60000);
      ParseNatToString(diffMs / 60000);
    } else {
      assert shown[..|shown| - 1] == NatToString(diffMs / 3600000);
      ParseNatToString(diffMs / 3600000);
    }
  }

  // ---------------------------------------------------------------------
  // keyboard focus and loading more

  /** Key events from text fields are left to the field. */
  predicate IsTextEntry(tagName: string)
  {
    tagName == "INPUT" || tagName == "TEXTAREA"
  }

  /** What a key press does on the posts page. */
  datatype KeyEffect =
    | Ignored
    | OpenFocused
    | Move(newIndex: int, fetchMore: bool)

  /** The `keydown` handler of the page, given the focused index, the number
      of posts and the feed's `hasMorePosts` and `loadingPosts` flags. Each
      rendered post card registers itself at its own index of `postRefs`, so
      Enter finds a card to open exactly when the focus is on a post. */
  function KeyPressEffect(focusedIndex: int, postsCount: nat, tagName: string, key: string,
                          hasMorePosts: bool, loadingPosts: bool): KeyEffect
  {
    if IsTextEntry(tagName) || postsCount == 0 then Ignored
    else if key == "j" || key == "k" then
      var newIndex := if key == "j" then
          (if focusedIndex + 1 < postsCount - 1 then focusedIndex + 1 else postsCount - 1)
        else
          (if focusedIndex - 1 > 0 then focusedIndex - 1 else 0);
      Move(newIndex, newIndex >= postsCount - 3 && hasMorePosts && !loadingPosts)
    else if key == "Enter" then
      (if 0 <= focusedIndex < postsCount then OpenFocused else Ignored)
    else Ignored
  }

  /** j moves one down and k one up, clamped to the list, so focus on a
      post stays on a post; only j and k move it. */
  lemma FocusStaysOnAPost(focusedIndex: int, postsCount: nat, tagName: string, key: string,
                          hasMorePosts: bool, loadingPosts: bool)
    requires 0 <= focusedIndex < postsCount
    ensures var e := KeyPressEffect(focusedIndex, postsCount, tagName, key, hasMorePosts, loadingPosts);
      && (e.Move? <==> !IsTextEntry(tagName) && (key == "j" || key == "k"))
      && (e.Move? ==> 0 <= e.newIndex < postsCount)
      && (e.Move? && key == "j" ==> e.newIndex == if focusedIndex == postsCount - 1 then focusedIndex else focusedIndex + 1)
      && (e.Move? && key == "k" ==> e.newIndex == if focusedIndex == 0 then 0 else focusedIndex - 1)
  {
  }

  /** The focus never moves with no posts, from a text field, on Enter or on
      any key other than j and k; Enter opens the focused post only when
      the focus is on one of the posts. */
  lemma FocusUnmoved(focusedIndex: int, postsCount: nat, tagName: string, key: string,
                     hasMorePosts: bool, loadingPosts: bool)
    requires postsCount == 0 || IsTextEntry(tagName) || (key != "j" && key != "k")
    ensures !KeyPressEffect(focusedIndex, postsCount, tagName, key, hasMorePosts, loadingPosts).Move?
    ensures KeyPressEffect(focusedIndex, postsCount, tagName, key, hasMorePosts, loadingPosts).OpenFocused?
      <==> 0 <= focusedIndex < postsCount && !IsTextEntry(tagName) && key == "Enter"
  {
  }

  /** The scroll handler asks for more posts within 500 pixels of the
      bottom, when more exist and none are loading. */
  function ScrollFetchesMore(distanceFromBottom: int, hasMorePosts: bool, loadingPosts: bool): bool
  {
    distanceFromBottom < 500 && hasMorePosts && !loadingPosts
  }

  /** Neither trigger asks for more posts when none are left or a load is
      under way; the keyboard one only within three posts of the end. */
  lemma FetchMoreOnlyWhenIdle(focusedIndex: int, postsCount: nat, tagName: string, key: string,
                              hasMorePosts: bool, loadingPosts: bool, distanceFromBottom: int)
    ensures var e := KeyPressEffect(focusedIndex, postsCount, tagName, key, hasMorePosts, loadingPosts);
      e.Move? && e.fetchMore <==>
        && !IsTextEntry(tagName) && postsCount > 0 && (key == "j" || key == "k")
        && e.newIndex >= postsCount - 3 && hasMorePosts && !loadingPosts
    ensures ScrollFetchesMore(distanceFromBottom, hasMorePosts, loadingPosts) ==> hasMorePosts && !loadingPosts
  {
  }

  /** The page's `focusedIndex` state and its `keydown` handler. */
  class PostsPage {
    var focusedIndex: int

    ghost predicate Valid()
      reads this
    {
      0 <= focusedIndex
    }

    constructor ()
      ensures Valid() && focusedIndex == 0
    {
      focusedIndex := 0;
    }

    /** Handles one key press; reports whether it asked for more posts and
        whether it opened the focused post. */
    method KeyPress(postsCount: nat, tagName: string, key: string, hasMorePosts: bool, loadingPosts: bool)
      returns (fetchMore: bool, openFocused: bool)
      requires Valid()
      modifies this
      ensures Valid()
      ensures var e := KeyPressEffect(old(focusedIndex), postsCount, tagName, key, hasMorePosts, loadingPosts);
        && focusedIndex == (if e.Move? then e.newIndex else old(focusedIndex))
        && fetchMore == (e.Move? && e.fetchMore)
        && openFocused == e.OpenFocused?
      ensures old(focusedIndex) < postsCount ==> focusedIndex < postsCount
    {
      fetchMore, openFocused := false, false;
      if IsTextEntry(tagName) || postsCount == 0 {
        return;
      }
      var newIndex := focusedIndex;
      if key == "j" {
        newIndex := if focusedIndex + 1 < postsCount - 1 then focusedIndex + 1 else postsCount - 1;
      } else if key == "k" {
        newIndex := if focusedIndex - 1 > 0 then focusedIndex - 1 else 0;
      } else if key == "Enter" {
        openFocused := 0 <= focusedIndex < postsCount;
        return;
      } else {
        return;
      }
      focusedIndex := newIndex;
      if newIndex >= postsCount - 3 && hasMorePosts && !loadingPosts {
        fetchMore := true;
      }
    }
  }
}
