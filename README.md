# j4ck.xyz site logic in Dafny

This project models the logic behind the j4ck.xyz personal site (a React
application) and proves properties of it. The parts modelled are:

- **the two facet-aware post renderers.** Each sorts the AT Protocol
  `app.bsky.richtext.facet` annotations of a post by start offset, then walks
  them to emit plain-text, link, mention, tag and other spans:
  - the posts page (`Posts.jsx`) measures offsets in the bytes of the text's
    UTF-8 encoding (section 3 of RFC 3629);
  - the latest-post widget (`BlueskyPost.jsx`) uses the same offsets as
    JavaScript string (UTF-16 code-unit) indices.
- **the bio widget's link stripper.** It deletes link ranges from the highest
  start down, then splits the text into lines, trims each and drops the blank
  ones.
- **the latest-post selection and link builders**, including the matcher for
  AT URIs of quoted posts.
- **the blog-link and page-metadata composition.**
- **the three integer time-bucketing labels** (`relativeTime`, `formatDate`,
  `timeAgo`).
- **the keyboard rules:**
  - j/k focus and load-more on the posts page;
  - wrap-around and nearest-candidate navigation in `useKeyboardNav`;
  - the digit-to-route key map.
- **the open/closed state machine of the social-link dropdown.**

Modules:

- **Shared modules:**
  - `Wrappers` holds `Option`.
  - `JsText` holds the JavaScript string semantics the code relies on: `slice`
    with negative and out-of-range indices, `split`, `join`, `pop` of a split,
    `trim` over ECMAScript white space and line terminators, and `${n}`
    rendering of counts.
  - `Utf8` holds `TextEncoder.encode`: UTF-16 to scalar values, with a lone
    surrogate becoming U+FFFD, then one to four octets each.
  - `Facets` holds the facet records, the kind rule and the stable sort.
  - `Segmenter` holds the walk both renderers share. It has two forms:
    - a specification function, `Segments`;
    - the `forEach` loop, `Segment`/`WalkSorted`, proved equal to it.
- **One module per component or page:**
  - `Posts`, `BlueskyPost`;
  - `BlueskyBio`, with its line clean-up in `BioCleanup`;
  - `KeyboardNav`, `KibunStatus`, `DropdownLink`, `Navigation`;
  - `Blogs`, `Seo`.

Modelling choices:

- A span is a kind and an index range. Its text is the `slice` of that range.
- Strings the code builds are Dafny strings. Post and bio texts are sequences
  of UTF-16 code units.
- Times are integer millisecond differences.
- Element centres are doubled integer coordinates, so no halving is needed.
- The dropdown is a class whose `isOpen` field the handlers update.
- The posts page's focus index is a class field updated by its key handler.

## Model

| member | source | states |
|---|---|---|
| Facets.KindOfCases | src/pages/Posts.jsx:82-112 | a facet's span is never plain text; it is a link exactly when the first feature is a link (carrying that feature's uri), a mention exactly when the first feature is a mention, a tag exactly when it is a tag, otherwise "other" |
| Facets.Sort | src/pages/Posts.jsx:62 | the sorted facets are a permutation of the input, ordered by start (ascending or descending comparator) |
| Facets.SortIgnoresInputOrder | src/pages/Posts.jsx:62 | with distinct starts, every permutation of the facets sorts to the same list |
| Facets.SortedArrangementUnique | src/pages/Posts.jsx:62 | a list sorted with distinct starts is the only sorted arrangement of its elements |
| Facets.SortedNonOverlappingIsTiled | src/pages/Posts.jsx:62-64 | sorting in-range, non-overlapping facets ascending lays them out left to right from offset 0 |
| Facets.NonOverlappingPermutation | src/pages/Posts.jsx:62 | reordering facets keeps them in range and non-overlapping |
| Facets.SortedLinksDescend | src/components/BlueskyBio.jsx:53 | the descending sort puts disjoint link facets in the order the removal loop needs: each later non-empty link lies wholly before the earlier ones |
| Segmenter.Segment | src/pages/Posts.jsx:59-128 | the walk's output is exactly `Segments(facets, n)`: sort ascending, then the gap/facet/trailing walk |
| Segmenter.WalkSorted | src/pages/Posts.jsx:64-126 | the `forEach` with `lastByteIndex` followed by the trailing check emits exactly the spans of the specification walk |
| Segmenter.WalkCovers | src/pages/Posts.jsx:64-126 | on sorted, non-overlapping, in-range facets the spans tile `[lastByteIndex, n]` with no gap and no overlap |
| Segmenter.FlattenCovers | src/pages/Posts.jsx:69-79 | spans tiling `[a, b]` reassemble, slice by slice, exactly the units in `[a, b)` |
| Segmenter.SegmentsRoundTrip | src/pages/Posts.jsx:57-126 | for in-range, non-overlapping facets the concatenated span contents are the whole text, each unit once |
| Segmenter.TextSpansNonEmpty | src/pages/Posts.jsx:68-118 | no plain span is empty: a gap only when `byteStart > lastByteIndex`, a trailing span only when units remain |
| Segmenter.OneSpanPerFacet | src/pages/Posts.jsx:78-114 | each facet yields exactly one non-plain span, in visiting order, over its own range and of its own kind |
| Segmenter.SegmentsIgnoreFacetOrder | src/pages/Posts.jsx:62 | with distinct starts, any permutation of the facet list yields the same spans |
| Utf8.CodePoints | src/pages/Posts.jsx:57 | the encoder's input is read as scalar values only, never more of them than code units |
| Utf8.NoSurrogatesReadAsIs | src/pages/Posts.jsx:57 | a string without surrogates is read code unit for code unit as its own scalars |
| Utf8.SurrogatePairIsSupplementary | src/pages/Posts.jsx:57 | a high surrogate followed by a low one becomes one supplementary scalar whose upper ten bits come from the high and lower ten from the low surrogate, and the rest is read on from there |
| Utf8.EncodeScalar | src/pages/Posts.jsx:57 | one scalar becomes one to four octets; the lead octet alone gives the length and every continuation octet is `10xxxxxx` |
| Utf8.EncodeScalarRoundTrip | src/pages/Posts.jsx:57 | decoding the octets of a scalar gives the scalar back |
| Utf8.EncodedLengthBounds | src/pages/Posts.jsx:57 | the encoding has between one and three bytes per code unit |
| Utf8.AsciiEncodesToItself | src/pages/Posts.jsx:57 | ASCII text encodes to the same numbers, so byte offsets and code-unit indices agree on it |
| Posts.ByteSlicesJoin | src/pages/Posts.jsx:7-13 | adjacent `byteSlice` ranges join into the slice of the combined range |
| Posts.AsciiByteSliceIsStringSlice | src/pages/Posts.jsx:7-13 | on ASCII text a byte slice equals the string slice with the same bounds |
| Posts.PostSpans | src/pages/Posts.jsx:49-57 | `null` exactly for absent or empty text; a missing or empty facet list gives one plain span over the whole encoding |
| Posts.FormatPostText | src/pages/Posts.jsx:49-129 | the renderer returns `PostSpans(text, facets)`: encode once, then sort and walk |
| Posts.PostSpansRoundTrip | src/pages/Posts.jsx:57-126 | for a non-empty text and in-range, non-overlapping facets with distinct starts, the span byte ranges tile the encoding, their bytes concatenate to the encoding, and no plain span is empty |
| Posts.PostFacetSpans | src/pages/Posts.jsx:62-115 | one facet span per facet, in ascending order of start, each over the facet's own byte range and of the facet's kind |
| Posts.RelativeTime | src/pages/Posts.jsx:17-27 | "now" exactly below one minute (negative differences included); whole minutes + "m" below an hour; whole hours + "h" below a day; no relative label from a day on |
| Posts.RelativeTimeCount | src/pages/Posts.jsx:20-27 | the label's digits read back as 1 to 59 whole minutes or 1 to 23 whole hours elapsed, followed by the matching unit letter |
| Posts.FocusStaysOnAPost | src/pages/Posts.jsx:254-281 | only j and k move the focus, outside text fields; j gives min(f+1, n-1), k gives max(f-1, 0), so a valid focus stays in `[0, n)` |
| Posts.FocusUnmoved | src/pages/Posts.jsx:254-279 | no posts, a text field, Enter or any other key leaves the focus; Enter opens the focused post exactly when the focus is on one of the posts (`0 <= f < n`) outside a text field |
| Posts.FetchMoreOnlyWhenIdle | src/pages/Posts.jsx:292-330 | the keyboard asks for more exactly on a j/k move landing within three posts of the end while more exist and none load; scrolling only while more exist and none load |
| Posts.PostsPage.constructor | src/pages/Posts.jsx:249 | the focus starts at the first post |
| Posts.PostsPage.KeyPress | src/pages/Posts.jsx:253-295 | the new focus, the fetch-more request and the open request are those of the key table; Enter asks to open only a focus on one of the posts, and a focus within the posts stays within them |
| BlueskyPost.FirstOwnPost | src/components/BlueskyPost.jsx:37-41 | the first feed item holding a post by `j4ck.xyz` that is not a reply; none exactly when no item qualifies |
| BlueskyPost.LoadLatest | src/components/BlueskyPost.jsx:30-51 | "Failed to fetch posts" on a failed response; a post is loaded exactly when an own top-level post exists, and it is by the site's handle and not a reply; otherwise "No posts found" |
| BlueskyPost.LoadedPostIsFirstOwnPost | src/components/BlueskyPost.jsx:37-48 | the post loaded is the earliest qualifying item |
| BlueskyPost.FormatDate | src/components/BlueskyPost.jsx:63-75 | "now" exactly when under a minute apart, otherwise digits followed by d, h or m |
| BlueskyPost.FormatDateCount | src/components/BlueskyPost.jsx:66-74 | the unit is the largest that fits and the count is the whole number of units elapsed (under 24 hours, under 60 minutes) |
| BlueskyPost.FormatDateSymmetric | src/components/BlueskyPost.jsx:66 | past and future dates the same distance away get the same label |
| BlueskyPost.PostSpans | src/components/BlueskyPost.jsx:77-147 | no facets: the whole text as one span; otherwise the shared walk over code-unit indices with `text.length` as the end |
| BlueskyPost.PostSpansRoundTrip | src/components/BlueskyPost.jsx:86-144 | for in-range, non-overlapping facets the span slices concatenate to the text |
| BlueskyPost.CodeUnitOffsetsMisplaceFacet | src/components/BlueskyPost.jsx:89-100 | on "é #t" with a tag over bytes 3 to 5, the widget styles "t" as the tag, while the same bytes of the encoding hold "#t" |
| BlueskyPost.GetPostUrl | src/components/BlueskyPost.jsx:149-154 | a missing or empty uri gives the profile page |
| BlueskyPost.PostUrlEndsWithRecordKey | src/components/BlueskyPost.jsx:151-153 | for a uri `…/rkey` the link is `https://bsky.app/profile/<handle>/post/rkey` |
| BlueskyPost.FirstTruthy | src/components/BlueskyPost.jsx:162 | the chain of `or`s yields the first present non-empty candidate, every earlier one being absent or empty, and nothing exactly when all are absent or empty |
| BlueskyPost.NonSlashRun | src/components/BlueskyPost.jsx:168 | the greedy `[^\/]+` takes the longest `/`-free prefix |
| BlueskyPost.LineRun | src/components/BlueskyPost.jsx:168 | the greedy `.+` takes the longest prefix free of line terminators |
| BlueskyPost.MatchAtGroups | src/components/BlueskyPost.jsx:168 | the captured DID is non-empty and `/`-free, the captured post id non-empty and free of line terminators |
| BlueskyPost.MatchAtSound | src/components/BlueskyPost.jsx:168 | a match at `i` reads `at://` + DID + `/app.bsky.feed.post/` + id from `i` on |
| BlueskyPost.FindAtUri | src/components/BlueskyPost.jsx:168 | `match` finds the leftmost match, and none exactly when no position matches |
| BlueskyPost.GetQuotePostUrl | src/components/BlueskyPost.jsx:156-183 | no record gives `#`; every real link starts with the bsky.app profile prefix |
| BlueskyPost.WellFormedAtUriMatches | src/components/BlueskyPost.jsx:168-174 | `at://D/app.bsky.feed.post/K` with D non-empty and `/`-free and K non-empty on one line matches at 0 with groups D and K |
| BlueskyPost.QuoteUrlOfWellFormedUri | src/components/BlueskyPost.jsx:162-179 | when the first non-empty of `uri`, `value.uri`, `record.uri` is such a uri, the link is the profile of `author.handle`, else `value.author.handle`, else D, followed by `/post/K` |
| BlueskyPost.QuoteUrlPlaceholder | src/components/BlueskyPost.jsx:159-172 | `#` exactly when no uri field holds a non-empty string or the uri matches nowhere |
| BlueskyBio.StripLink | src/components/BlueskyBio.jsx:59-61 | a link facet in range gives exactly `t[..start] + t[end..]`; any other facet leaves the text unchanged |
| BlueskyBio.RemoveLinks | src/components/BlueskyBio.jsx:48-63 | the loop's result is the text left after visiting the facets sorted by descending start and cutting each link |
| BlueskyBio.StepCutsLink | src/components/BlueskyBio.jsx:60 | cutting the highest link keeps, in the shorter text, exactly what the remaining links leave of the original |
| BlueskyBio.StrippedKeeps | src/components/BlueskyBio.jsx:53-62 | visiting links from the highest start down removes exactly the units the links cover, measured in the original text |
| BlueskyBio.RemovesExactlyTheLinks | src/components/BlueskyBio.jsx:51-62 | for in-range, non-overlapping links the result is the original text with every link range deleted |
| BlueskyBio.NonLinkFacetsKeepText | src/components/BlueskyBio.jsx:51-61 | with no facets, or only mention and tag facets, the text is unchanged |
| BlueskyBio.BioLines | src/components/BlueskyBio.jsx:45-73 | `null` exactly for empty text or text blank after removal; otherwise non-empty lines, each trimmed, non-empty and free of line feeds |
| BlueskyBio.FormatBioText | src/components/BlueskyBio.jsx:45-79 | the function returns `BioLines(text, facets)` |
| BlueskyBio.BioLineCount | src/components/BlueskyBio.jsx:66-69 | never more lines than line feeds left after removal, plus one |
| BlueskyBio.RenderBio | src/components/BlueskyBio.jsx:81-97 | the description is shown exactly when loading is over with no error and a non-empty description, and then shows `formatBioText`'s lines |
| BioCleanup.KeptIndicesNonBlank | src/components/BlueskyBio.jsx:66-69 | every kept line is one whose trim is non-empty |
| BioCleanup.KeptIndicesIncreasing | src/components/BlueskyBio.jsx:66-69 | the kept lines keep their original relative order, each at most once |
| BioCleanup.KeptIndicesComplete | src/components/BlueskyBio.jsx:66-69 | every line whose trim is non-empty is kept |
| BioCleanup.CleanFromKept | src/components/BlueskyBio.jsx:66-69 | the output is, one for one, the trims of the kept lines |
| BioCleanup.CleanLinesTrimmed | src/components/BlueskyBio.jsx:66-69 | each output line is non-empty, starts and ends with a non-white-space unit, and holds a line feed only if its source line did |
| BioCleanup.CleanLinesEmpty | src/components/BlueskyBio.jsx:69-72 | nothing is kept exactly when every line trims to nothing |
| BioCleanup.CleanLinesContents | src/components/BlueskyBio.jsx:66-72 | kept lines are trimmed and non-empty, line-feed-free sources give line-feed-free lines, and nothing is kept exactly when all lines are blank |
| BioCleanup.JoinBlank | src/components/BlueskyBio.jsx:66-72 | the text is blank exactly when each of its lines is |
| JsText.Slice | src/components/BlueskyPost.jsx:95-100 | `slice` within bounds is the subsequence, and never longer than the string |
| JsText.ClampIndex | src/components/BlueskyPost.jsx:100 | negative indices count from the end, and out-of-range ones clamp to the string |
| JsText.JoinSplit | src/components/BlueskyBio.jsx:66-67 | joining the pieces of `split` with the separator gives the text back |
| JsText.SplitCount | src/components/BlueskyBio.jsx:67 | `split` gives one more piece than there are separators |
| JsText.LastPieceIsFinalSegment | src/pages/Blogs.jsx:9 | `split(sep).pop()` is the longest separator-free suffix |
| JsText.TrimStartDrops | src/components/BlueskyBio.jsx:68 | `trim` drops a white-space prefix and keeps the rest |
| JsText.TrimEndDrops | src/components/BlueskyBio.jsx:68 | `trim` drops a white-space suffix and keeps the rest |
| JsText.TrimEnds | src/components/BlueskyBio.jsx:68 | a trimmed string neither starts nor ends with white space |
| JsText.TrimIsInfix | src/components/BlueskyBio.jsx:68 | the trim is the infix between a white-space prefix and a white-space suffix |
| JsText.TrimBlank | src/components/BlueskyBio.jsx:68-69 | the trim is empty exactly when the line is all white space |
| JsText.TrimKeepsUnits | src/components/BlueskyBio.jsx:68 | trimming introduces no unit the line did not hold |
| JsText.NatToString | src/pages/Posts.jsx:26 | `${n}` is a non-empty run of decimal digits without a leading zero |
| JsText.ParseNatToString | src/pages/Posts.jsx:26 | reading `${n}` back gives `n` |
| KeyboardNav.LinearNav | src/hooks/useKeyboardNav.js:17-31 | nothing with no items; from no focus `]` picks the first and `[` the last; otherwise one step with the last wrapping to the first and the first back to the last, always in range |
| KeyboardNav.WrappedStep | src/hooks/useKeyboardNav.js:27 | `(i + dir + n) % n` is one step with wrap-around |
| KeyboardNav.ForwardThenBackward | src/hooks/useKeyboardNav.js:27 | `]` then `[` returns to the same item |
| KeyboardNav.PressesVisitAll | src/hooks/useKeyboardNav.js:27 | `k` presses of `]` move `k` places forward modulo the item count |
| KeyboardNav.GeometricNav | src/hooks/useKeyboardNav.js:33-87 | focus outside the items goes to the first item; otherwise the choice is a candidate other than the current item, strictly below (DOWN) or above (UP), at the least squared distance, the earliest among ties; none exactly when no item qualifies |
| KeyboardNav.BestCandidateUnique | src/hooks/useKeyboardNav.js:77-80 | the strict `<` makes the chosen candidate unique |
| KeyboardNav.KeyBindings | src/hooks/useKeyboardNav.js:90-120 | outside text fields exactly `[`, `]`, `j`, `J`, `k` and `K` navigate and sound; both letter cases act alike |
| KibunStatus.TimeAgo | src/components/KibunStatus.jsx:5-25 | "just now" exactly below 5 s (future dates included); whole seconds + " seconds ago" below a minute; minutes, then hours, with `CountAgo`'s plural rule below a day; the throwing branch from a day on |
| KibunStatus.TimeAgoRanges | src/components/KibunStatus.jsx:13-22 | the counts shown lie in 5 to 59 seconds, 1 to 59 minutes and 1 to 23 hours, each the whole number of units elapsed |
| KibunStatus.TimeAgoPlural | src/components/KibunStatus.jsx:17-22 | the count reads back from the label, and the unit is singular exactly when the count is 1 |
| KibunStatus.CountAgoParts | src/components/KibunStatus.jsx:19-22 | a count label is the digits of `n`, then the unit, plural exactly when `n > 1`, then " ago" |
| KibunStatus.LatestStatus | src/components/KibunStatus.jsx:61-65 | the first record's value, or nothing exactly when there are no records |
| KibunStatus.NoRecordsNoCard | src/components/KibunStatus.jsx:79-80 | the card shows exactly when loading is over, there is no error and there is a record |
| KibunStatus.DisplayName | src/components/KibunStatus.jsx:86 | the profile's display name when it is non-empty, otherwise the username |
| DropdownLink.TransitionTable | src/components/DropdownLink.jsx:29-43 | Escape, an option click and a press outside close; Enter, space and a trigger click toggle; any other key and a press inside change nothing |
| DropdownLink.ToggleTwice | src/components/DropdownLink.jsx:33-36 | two toggling events restore the state |
| DropdownLink.RunEndsClosed | src/components/DropdownLink.jsx:30-32 | any run of events ending in a closing event leaves the dropdown closed |
| DropdownLink.Dropdown.constructor | src/components/DropdownLink.jsx:13 | the dropdown starts closed |
| DropdownLink.Dropdown.KeyDown | src/components/DropdownLink.jsx:29-37 | the new state is the key's transition of the old one |
| DropdownLink.Dropdown.ClickTrigger | src/components/DropdownLink.jsx:43 | a trigger click toggles the state |
| DropdownLink.Dropdown.MouseDownAt | src/components/DropdownLink.jsx:17-21 | a press outside closes; one inside keeps the state |
| DropdownLink.Dropdown.ClickOption | src/components/DropdownLink.jsx:78 | an option click closes |
| DropdownLink.Dropdown.AriaExpanded | src/components/DropdownLink.jsx:45-67 | `aria-expanded` is "true" exactly when the menu is rendered, and "false" exactly when it is not |
| Navigation.KeysMatchItems | src/components/Navigation.jsx:14-32 | outside text fields each `navItems` key navigates to that item's path, and no other key navigates |
| Navigation.TextFieldsIgnored | src/components/Navigation.jsx:12 | keys from text fields never navigate |
| Navigation.HighlightCount | src/components/Navigation.jsx:49 | no item is highlighted exactly when no item's path is the current path |
| Navigation.OneHighlightPerRoute | src/components/Navigation.jsx:27-49 | on one of the four routes exactly one label is highlighted, and on any other path none is |
| Blogs.GetPostUrl | src/pages/Blogs.jsx:8-11 | every link starts with `https://blog.j4ck.xyz/` |
| Blogs.BlogUrlSegment | src/pages/Blogs.jsx:9 | the appended segment is a `/`-free suffix of the uri: the whole uri when it has no `/`, empty when it ends in `/` |
| Blogs.BlogUrlOfRecord | src/pages/Blogs.jsx:9-10 | for a uri `…/rkey` the link is the prefix followed by `rkey` |
| Seo.FullTitle | src/components/SEO.jsx:6 | a truthy title gives the title, then a spaced bar, then `j4ck.xyz`; a falsy one, `""` included, gives `j4ck.xyz` |
| Seo.FullImage | src/components/SEO.jsx:7 | the card image is under `https://j4ck.xyz/og/`, `home.png` by default |
| Seo.FullUrl | src/components/SEO.jsx:8 | a truthy path gives the site URL followed by the path; the page URL is the bare site URL exactly when no path is given |
| Seo.PageHead | src/components/SEO.jsx:16-23 | `og:type` is "website" and `twitter:card` is "summary_large_image" |
| Seo.CardsAgree | src/components/SEO.jsx:16-27 | the Open Graph and Twitter tags carry the same title, URL, description and image, and the document title is the card title |

## Left out

- Network I/O: the fetches, JSON parsing and the loading/error setters in the widgets and the data context are left out. The outcomes of the fetch become parameters: the `ok` flag, the feed, the records, the loading and error values.
- The localised dates: `toLocaleTimeString`/`toLocaleDateString` (`src/pages/Posts.jsx:30-45`, `src/components/KibunStatus.jsx:26-31`) are not modelled. `Posts.RelativeTime` returns no label from a day on.
- KibunStatus.TimeAgo: from a day on, `timeAgo` calls `getDate` on the number `Date.parse` returned, which throws. The model returns `None` there instead of a label.
- Unparseable dates are not modelled. The time labels take an integer difference, so the NaN case does not arise.
- `TextDecoder`, including U+FFFD for slices that cut a multi-byte sequence, is not modelled. Posts' spans are byte ranges over the encoding, and their content is bytes.
- Floating-point element geometry is replaced by integer coordinates. `getBoundingClientRect` becomes doubled integer centres, so `width / 2` needs no division.
- The DOM side effects are not modelled: `focus`, `scrollIntoView`, `click`, `querySelectorAll` and `preventDefault`. Focus is an index and a link click is a reported flag.
- The key sound is left out; it is Web Audio with random envelopes. `KeyboardNav.PlaysSound` only records when it is requested.
- JSX markup, CSS classes, React keys and the Twemoji wrapper are left out. Spans record only their kind, their range and, for links, the target.
- Overlapping, out-of-range or same-start facets produce duplicated or odd output. The round-trip lemmas require well-formed facets rather than describe that output, though the renderers themselves accept any facets.
- BlueskyPost.PostSpans: the widget passes `post.record.text`, which every post record carries, so a missing text (where `slice` would throw) is not modelled.
- BlueskyBio.StripLink: the bio slices the string with the facets' byte offsets as code-unit indices. This is modelled as written. It agrees with the intended byte ranges only on ASCII text (`Utf8.AsciiEncodesToItself`). The posts page's byte renderer shows the UTF-8 way, and a corrected bio would additionally need UTF-8 decoding, which is left out.
- The regular expression is modelled as the one pattern the code uses. Leftmost match, the greedy `[^\/]+` and the greedy `.+` up to a line terminator are written out. A general regular-expression engine is not modelled.
- Reposts by other accounts are never selected: the filter at `src/components/BlueskyPost.jsx:37-41` requires the site's own handle and a non-reply.
- `Seo.PageHead` does not model `react-helmet-async`'s placing of the tags in the document head.

## Findings

| source | as written | input that shows it | evidently intended | confidence | as-written member | corrected member |
|---|---|---|---|---|---|---|
| src/components/BlueskyPost.jsx:86-144 | the facets' UTF-8 byte offsets are used as UTF-16 string indices in `text.slice` and against `text.length` | text "é #t" (code units E9 20 23 74) with a tag facet over bytes 3 to 5: the widget styles "t" as the tag, while bytes 3 to 5 of the encoding are "#t" | slice the UTF-8 bytes, as the posts page does | not executed | `BlueskyPost.CodeUnitOffsetsMisplaceFacet` | `Posts.PostSpansRoundTrip` |
