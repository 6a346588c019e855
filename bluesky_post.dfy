/** The latest-post widget (`src/components/BlueskyPost.jsx`): choosing the
    post from the author feed, its age label, its code-unit text renderer
    and the links to the post and to a quoted post. */
module BlueskyPost {
  import opened Wrappers
  import opened JsText
  import opened Utf8
  import opened Facets
  import opened Segmenter

  const HANDLE := "j4ck.xyz"
  const PROFILE_URL := "https://bsky.app/profile/j4ck.xyz"
  const POST_URL_PREFIX := "https://bsky.app/profile/"

  // ---------------------------------------------------------------------
  // choosing the post

  /** The parts of a feed post the widget reads. */
  datatype PostView = PostView(uri: Option<string>, authorHandle: string, isReply: bool)

  /** One item of `data.feed`; `post` may be missing. */
  datatype FeedItem = FeedItem(post: Option<PostView>)

  /** The `find` predicate: a post that is not a reply, by the site's own
      handle. */
  predicate IsOwnTopLevelPost(item: FeedItem)
  {
    item.post.Some? && !item.post.value.isReply && item.post.value.authorHandle == HANDLE
  }

  /** `Array.prototype.find`: the index of the first qualifying item. */
  function FirstOwnPost(feed: seq<FeedItem>): (r: Option<nat>)
    ensures r.Some? ==> r.value < |feed| && IsOwnTopLevelPost(feed[r.value])
    ensures r.Some? ==> forall j :: 0 <= j < r.value ==> !IsOwnTopLevelPost(feed[j])
    ensures r.None? <==> forall j :: 0 <= j < |feed| ==> !IsOwnTopLevelPost(feed[j])
  {
    if feed == [] then None
    else if IsOwnTopLevelPost(feed[0]) then Some(0)
    else
      match FirstOwnPost(feed[1..])
      case None => None
      case Some(i) => Some(i + 1)
  }

  datatype LoadResult = Loaded(post: PostView) | Failed(message: string)

  /** The outcome of one fetch: the response's `ok` flag and its `feed`
      field, which may be missing. */
  function LoadLatest(ok: bool, feed: Option<seq<FeedItem>>): (r: LoadResult)
    ensures !ok ==> r == Failed("Failed to fetch posts")
    ensures r.Failed? ==> r.message in {"Failed to fetch posts", "No posts found"}
    ensures r.Loaded? <==> ok && feed.Some? && exists j :: 0 <= j < |feed.value| && IsOwnTopLevelPost(feed.value[j])
    ensures r.Loaded? ==> r.post.authorHandle == HANDLE && !r.post.isReply
  {
    if !ok then Failed("Failed to fetch posts")
    else if feed.None? then Failed("No posts found")
    else
      match FirstOwnPost(feed.value)
      case None => Failed("No posts found")
      case Some(i) => Loaded(feed.value[i].post.value)
  }

  /** The loaded post is the earliest qualifying item of the feed. */
  lemma LoadedPostIsFirstOwnPost(feed: seq<FeedItem>, j: nat)
    requires j < |feed| && IsOwnTopLevelPost(feed[j])
    requires forall i :: 0 <= i < j ==> !IsOwnTopLevelPost(feed[i])
    ensures LoadLatest(true, Some(feed)) == Loaded(feed[j].post.value)
  {
    var r := FirstOwnPost(feed);
    assert r.Some?;
  }

  // ---------------------------------------------------------------------
  // the age label

  function Abs(x: int): nat
  {
    if x < 0 then -x else x
  }

  /** `formatDate`: the distance between now and the post's date, in
      milliseconds and in either direction, as whole days, hours or minutes
      in the largest unit that is not zero. */
  function FormatDate(diffMs: int): (shown: string)
    ensures shown == "now" <==> Abs(diffMs) < 60000
    ensures shown != "now" ==> |shown| >= 2 && shown[|shown| - 1] in {'d', 'h', 'm'}
  {
    var diffTime := Abs(diffMs);
    var diffDays := diffTime / 86400000;
    var diffHours := diffTime / 3600000;
    var diffMinutes := diffTime / 60000;
    if diffDays > 0 then
      assert (NatToString(diffDays) + "d")[0] != "now"[0];
      NatToString(diffDays) + "d"
    else if diffHours > 0 then
      assert (NatToString(diffHours) + "h")[0] != "now"[0];
      NatToString(diffHours) + "h"
    else if diffMinutes > 0 then
      assert (NatToString(diffMinutes) + "m")[0] != "now"[0];
      NatToString(diffMinutes) + "m"
    else "now"
  }

  /** The unit of the label is the largest one that fits in the distance,
      and the count read back is the number of whole units elapsed. */
  lemma {:induction false} FormatDateCount(diffMs: int)
    requires Abs(diffMs) >= 60000
    ensures var shown := FormatDate(diffMs);
      var count := ParseDecimal(shown[..|shown| - 1]);
      var unit := if shown[|shown| - 1] == 'd' then 86400000
                  else if shown[|shown| - 1] == 'h' then 3600000 else 60000;
      && count >= 1
      && count * unit <= Abs(diffMs) < (count + 1) * unit
      && (shown[|shown| - 1] == 'h' ==> count < 24)
      && (shown[|shown| - 1] == 'm' ==> count < 60)
  {
    var t := Abs(diffMs);
    var shown := FormatDate(diffMs);
    if t >= 86400000 {
      assert shown[..|shown| - 1] == NatToString(t / 86400000);
      ParseNatToString(t / 86400000);
    } else if t >= 3600000 {
      assert shown[..|shown| - 1] == NatToString(t / 3600000);
      ParseNatToString(t / 3600000);
    } else {
      assert shown[..|shown| - 1] == NatToString(t / 60000);
      ParseNatToString(t / 60000);
    }
  }

  /** A date in the future gets the same label as one equally far in the
      past. */
  lemma FormatDateSymmetric(diffMs: int)
    ensures FormatDate(-diffMs) == FormatDate(diffMs)
  {
    assert Abs(-diffMs) == Abs(diffMs);
  }

  // ---------------------------------------------------------------------
  // the text renderer

  /** `formatPostText(text, facets)`: with no facets, the whole text as one
      plain span; otherwise the facet walk over the text's UTF-16 code
      units, the facets' byte offsets used as code-unit indices. */
  function PostSpans(text: seq<CodeUnit>, facets: Option<seq<Facet>>): (r: seq<Span>)
    ensures facets.None? || facets.value == [] ==> r == [Span(Text, 0, |text|)]
    ensures facets.Some? && facets.value != [] ==> r == Segments(facets.value, |text|)
  {
    if facets.None? || facets.value == [] then [Span(Text, 0, |text|)]
    else Segments(facets.value, |text|)
  }

  /** The renderer loses and repeats nothing of the code units whenever the
      offsets happen to be valid code-unit ranges. */
  lemma PostSpansRoundTrip(text: seq<CodeUnit>, facets: Option<seq<Facet>>)
    requires facets.Some? ==> NonOverlapping(facets.value, |text|)
    ensures Flatten(text, PostSpans(text, facets)) == text
  {
    if facets.None? || facets.value == [] {
      FlattenWhole(text);
    } else {
      SegmentsRoundTrip(text, facets.value);
    }
  }

  /** Byte offsets read as code-unit indices: in "é #t" a tag facet over
      bytes 3 to 5 names "#t", but the widget renders "t" as the tag and
      pushes "#" into the plain text before it. */
  lemma CodeUnitOffsetsMisplaceFacet(text: seq<CodeUnit>, tag: Facet)
    requires text == [0xE9, 0x20, 0x23, 0x74]
    requires tag == Facet(3, 5, [Feature(TAG_TYPE, None)])
    ensures Encode(text) == [0xC3, 0xA9, 0x20, 0x23, 0x74]
    ensures NonOverlapping([tag], |Encode(text)|)
    ensures PostSpans(text, Some([tag])) == [Span(Text, 0, 3), Span(Tag, 3, 5)]
    ensures Slice(text, 3, 5) == [0x74]
    ensures Slice(Encode(text), 3, 5) == Encode([0x23, 0x74])
  {
    ExampleEncoding(text);
    ExampleSpans(tag);
    assert Slice(text, 3, 5) == text[3..4];
  }

  lemma ExampleEncoding(text: seq<CodeUnit>)
    requires text == [0xE9, 0x20, 0x23, 0x74]
    ensures Encode(text) == [0xC3, 0xA9, 0x20, 0x23, 0x74]
    ensures Encode([0x23, 0x74]) == [0x23, 0x74]
  {
    EncodeCons(text);
    assert EncodeScalar(0xE9) == [0xC3, 0xA9];
    var ascii := text[1..];
    AsciiEncodesToItself(ascii);
    assert Encode(ascii) == ascii;
    var tail: seq<CodeUnit> := [0x23, 0x74];
    AsciiEncodesToItself(tail);
    assert Encode(tail) == tail;
  }

  lemma ExampleSpans(tag: Facet)
    requires tag == Facet(3, 5, [Feature(TAG_TYPE, None)])
    ensures PostSpans([0xE9, 0x20, 0x23, 0x74], Some([tag])) == [Span(Text, 0, 3), Span(Tag, 3, 5)]
    ensures NonOverlapping([tag], 5)
  {
    var sorted := Sort([tag], Ascending);
    assert sorted[0] in multiset(sorted);
    assert sorted == [tag];
    assert KindOf(tag) == Tag;
    assert sorted[1..] == [];
    assert Walk([], 5, 4) == [];
  }

  // ---------------------------------------------------------------------
  // links

  /** `getPostUrl`: the post's page on bsky.app, named by the author's
      handle and the last path segment of the post's URI, or the profile
      page when the URI is missing or empty. */
  function GetPostUrl(post: Option<PostView>): (url: string)
    ensures post.None? || post.value.uri.None? || post.value.uri.value == [] ==> url == PROFILE_URL
  {
    if post.None? || post.value.uri.None? || post.value.uri.value == [] then PROFILE_URL
    else POST_URL_PREFIX + post.value.authorHandle + "/post/" + LastPiece(post.value.uri.value, '/')
  }

  /** For a URI with at least one `/`, the link ends with exactly the URI's
      final segment, which holds no `/`. */
  lemma PostUrlEndsWithRecordKey(post: PostView, prefix: string, rkey: string)
    requires post.uri == Some(prefix + "/" + rkey) && '/' !in rkey
    ensures GetPostUrl(Some(post)) == POST_URL_PREFIX + post.authorHandle + "/post/" + rkey
  {
    var s := prefix + "/" + rkey;
    var p := LastPiece(s, '/');
    LastPieceIsFinalSegment(s, '/');
    assert s[|s| - |rkey| - 1] == '/';
    assert s[|s| - |rkey|..] == rkey;
    assert forall k :: |s| - |rkey| <= k < |s| ==> s[k] == rkey[k - (|s| - |rkey|)];
    assert p == rkey;
  }

  /** The quoted record as the widget finds it: a URI in one of three
      places and an author handle in one of two. */
  datatype QuoteRecord = QuoteRecord(
    uri: Option<string>, valueUri: Option<string>, recordUri: Option<string>,
    authorHandle: Option<string>, valueAuthorHandle: Option<string>)

  /** None of the first `k` candidates is a present, non-empty string. */
  predicate NoneTruthyBefore(candidates: seq<Option<string>>, k: int)
    requires k <= |candidates|
  {
    forall j :: 0 <= j < k ==> candidates[j].None? || candidates[j].value == []
  }

  /** `a || b || …` over strings that may be absent: the first present,
      non-empty one. */
  function FirstTruthy(candidates: seq<Option<string>>): (r: Option<string>)
    ensures r.Some? ==> r.value != [] && r in candidates
    ensures r.Some? ==> exists k :: 0 <= k < |candidates| && candidates[k] == r && NoneTruthyBefore(candidates, k)
    ensures r.None? <==> forall k :: 0 <= k < |candidates| ==> candidates[k].None? || candidates[k].value == []
  {
    if candidates == [] then None
    else if candidates[0].Some? && candidates[0].value != [] then candidates[0]
    else FirstTruthy(candidates[1..])
  }

  const POST_COLLECTION := "/app.bsky.feed.post/"

  /** Characters `.` in a regular expression does not match. */
  predicate IsLineTerminator(c: char)
  {
    c == '\n' || c == '\r' || c == '\U{2028}' || c == '\U{2029}'
  }

  /** The longest prefix of `s` free of `/`: what the greedy `[^\/]+` takes. */
  function NonSlashRun(s: string): (r: string)
    ensures r <= s && '/' !in r
    ensures |r| < |s| ==> s[|r|] == '/'
  {
    if s == [] || s[0] == '/' then [] else [s[0]] + NonSlashRun(s[1..])
  }

  /** The longest prefix of `s` free of line terminators: what the greedy
      `.+` takes. */
  function LineRun(s: string): (r: string)
    ensures r <= s && forall k :: 0 <= k < |r| ==> !IsLineTerminator(r[k])
    ensures |r| < |s| ==> IsLineTerminator(s[|r|])
  {
    if s == [] || IsLineTerminator(s[0]) then [] else [s[0]] + LineRun(s[1..])
  }

  /** A match of `/at:\/\/([^\/]+)\/app\.bsky\.feed\.post\/(.+)/` at index
      `at`, with its two capture groups. */
  datatype AtUriMatch = AtUriMatch(at: nat, did: string, postId: string)

  /** The match starting exactly at index `i`, if there is one. Greedy
      matching is exact here: a shorter `[^\/]+` would leave a character
      other than `/` in front of the literal, and `.+` is followed by
      nothing. */
  function MatchAt(s: string, i: nat): (m: Option<AtUriMatch>)
    requires i <= |s|
    ensures m.Some? ==> m.value.at == i
  {
    var rest := s[i..];
    if !("at://" <= rest) then None
    else
      var did := NonSlashRun(rest[5..]);
      var afterDid := rest[5 + |did|..];
      if did == [] || !(POST_COLLECTION <= afterDid) then None
      else
        var postId := LineRun(afterDid[|POST_COLLECTION|..]);
        if postId == [] then None
        else Some(AtUriMatch(i, did, postId))
  }

  /** What a match at `i` promises about its groups: D is a non-empty run
      free of `/` and K a non-empty run free of line terminators. */
  lemma MatchAtGroups(s: string, i: nat)
    requires i <= |s| && MatchAt(s, i).Some?
    ensures var m := MatchAt(s, i).value;
      && m.did != [] && '/' !in m.did
      && m.postId != [] && (forall k :: 0 <= k < |m.postId| ==> !IsLineTerminator(m.postId[k]))
  {
  }

  /** What a match at `i` promises about the text: it reads
      `at://D/app.bsky.feed.post/K` there. */
  lemma MatchAtSound(s: string, i: nat)
    requires i <= |s| && MatchAt(s, i).Some?
    ensures var m := MatchAt(s, i).value;
      "at://" + (m.did + (POST_COLLECTION + m.postId)) <= s[i..]
  {
    var m := MatchAt(s, i).value;
    var rest := s[i..];
    var afterDid := rest[5 + |m.did|..];
    PrefixConcat(POST_COLLECTION, m.postId, afterDid);
    PrefixConcat(m.did, POST_COLLECTION + m.postId, rest[5..]);
    PrefixConcat("at://", m.did + (POST_COLLECTION + m.postId), rest);
  }

  /** A prefix followed by a prefix of what remains is a prefix. */
  lemma PrefixConcat<T>(a: seq<T>, b: seq<T>, s: seq<T>)
    requires a <= s && b <= s[|a|..]
    ensures a + b <= s
  {
    assert s[..|a| + |b|] == s[..|a|] + s[|a|..][..|b|];
  }

  /** `String.prototype.match` without the global flag: the leftmost match
      at or after `from`. */
  function FindAtUri(s: string, from: nat): (m: Option<AtUriMatch>)
    requires from <= |s|
    ensures m.Some? ==> from <= m.value.at <= |s| && MatchAt(s, m.value.at) == m
    ensures m.Some? ==> forall j :: from <= j < m.value.at ==> MatchAt(s, j).None?
    ensures m.None? ==> forall j :: from <= j <= |s| ==> MatchAt(s, j).None?
    decreases |s| - from
  {
    var here := MatchAt(s, from);
    if here.Some? || from == |s| then here
    else
      var later := FindAtUri(s, from + 1);
      assert forall j :: from <= j <= from ==> MatchAt(s, j) == here;
      later
  }

  /** `getQuotePostUrl(record)`: `None` stands for the placeholder link
      `#`. */
  function GetQuotePostUrl(record: Option<QuoteRecord>): (url: Option<string>)
    ensures record.None? ==> url.None?
    ensures url.Some? ==> POST_URL_PREFIX <= url.value
  {
    if record.None? then None
    else
      var r := record.value;
      match FirstTruthy([r.uri, r.valueUri, r.recordUri])
      case None => None
      case Some(uri) =>
        match FindAtUri(uri, 0)
        case None => None
        case Some(m) =>
          var handle := match FirstTruthy([r.authorHandle, r.valueAuthorHandle])
                        case Some(h) => h
                        case None => m.did;
          Some(POST_URL_PREFIX + handle + "/post/" + m.postId)
  }

  /** A well-formed AT URI of a post, `at://D/app.bsky.feed.post/K`, is
      matched at its start with D and K as the two groups. */
  lemma WellFormedAtUriMatches(did: string, postId: string)
    requires did != [] && '/' !in did
    requires postId != [] && forall k :: 0 <= k < |postId| ==> !IsLineTerminator(postId[k])
    ensures FindAtUri("at://" + did + POST_COLLECTION + postId, 0)
      == Some(AtUriMatch(0, did, postId))
  {
    WellFormedAtUriMatchesAtStart(did, postId);
  }

  lemma WellFormedAtUriMatchesAtStart(did: string, postId: string)
    requires did != [] && '/' !in did
    requires postId != [] && forall k :: 0 <= k < |postId| ==> !IsLineTerminator(postId[k])
    ensures MatchAt("at://" + did + POST_COLLECTION + postId, 0) == Some(AtUriMatch(0, did, postId))
  {
    var tail := POST_COLLECTION + postId;
    var s := "at://" + did + POST_COLLECTION + postId;
    assert s == "at://" + (did + tail);
    assert s[0..][5..] == did + tail;
    NonSlashRunStopsAtSlash(did, tail);
    assert (did + tail)[|did|..] == tail;
    LineRunWhole(postId);
    MatchAtOfParts(s, 0, did, postId);
  }

  /** The match at `i` read off from its parts. */
  lemma MatchAtOfParts(s: string, i: nat, did: string, postId: string)
    requires i <= |s| && "at://" <= s[i..]
    requires NonSlashRun(s[i..][5..]) == did && did != []
    requires POST_COLLECTION <= s[i..][5 + |did|..]
    requires LineRun(s[i..][5 + |did|..][|POST_COLLECTION|..]) == postId && postId != []
    ensures MatchAt(s, i) == Some(AtUriMatch(i, did, postId))
  {
  }

  lemma {:induction false} NonSlashRunStopsAtSlash(d: string, rest: string)
    requires '/' !in d && rest != [] && rest[0] == '/'
    ensures NonSlashRun(d + rest) == d
    decreases |d|
  {
    if d == [] {
      assert d + rest == rest;
    } else {
      assert (d + rest)[1..] == d[1..] + rest;
      NonSlashRunStopsAtSlash(d[1..], rest);
      assert d == [d[0]] + d[1..];
    }
  }

  lemma {:induction false} LineRunWhole(k: string)
    requires forall i :: 0 <= i < |k| ==> !IsLineTerminator(k[i])
    ensures LineRun(k) == k
    decreases |k|
  {
    if k != [] {
      LineRunWhole(k[1..]);
      assert k == [k[0]] + k[1..];
    }
  }

  /** The quote link when the first non-empty URI field (`uri`, then
      `value.uri`, then `record.uri`) is a well-formed post URI: the
      author's handle where the record carries one (`author.handle`, then
      `value.author.handle`), otherwise the DID, then the record key. */
  lemma QuoteUrlOfWellFormedUri(record: QuoteRecord, did: string, postId: string)
    requires did != [] && '/' !in did
    requires postId != [] && forall k :: 0 <= k < |postId| ==> !IsLineTerminator(postId[k])
    requires FirstTruthy([record.uri, record.valueUri, record.recordUri]) == Some("at://" + did + POST_COLLECTION + postId)
    ensures GetQuotePostUrl(Some(record)) == Some(POST_URL_PREFIX
      + (if record.authorHandle.Some? && record.authorHandle.value != [] then record.authorHandle.value
         else if record.valueAuthorHandle.Some? && record.valueAuthorHandle.value != [] then record.valueAuthorHandle.value
         else did)
      + "/post/" + postId)
  {
    WellFormedAtUriMatches(did, postId);
    var hs := [record.authorHandle, record.valueAuthorHandle];
    if !(record.authorHandle.Some? && record.authorHandle.value != []) {
      assert FirstTruthy(hs) == FirstTruthy(hs[1..]);
      if !(record.valueAuthorHandle.Some? && record.valueAuthorHandle.value != []) {
        assert FirstTruthy(hs[1..]) == FirstTruthy(hs[1..][1..]);
      }
    }
  }

  /** The placeholder is shown exactly when there is no record, none of the
      three URI fields holds a non-empty string, or the URI does not match
      the pattern anywhere. */
  lemma QuoteUrlPlaceholder(record: QuoteRecord)
    ensures var uri := FirstTruthy([record.uri, record.valueUri, record.recordUri]);
      GetQuotePostUrl(Some(record)).None? <==>
        uri.None? || forall j :: 0 <= j <= |uri.value| ==> MatchAt(uri.value, j).None?
  {
  }
}
