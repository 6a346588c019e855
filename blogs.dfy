/** The blog index (`src/pages/Blogs.jsx`): each entry links to the
    Leaflet blog by the record key at the end of its AT URI. */
module Blogs {
  import opened JsText

  const BLOG_URL_PREFIX := "https://blog.j4ck.xyz/"

  /** `getPostUrl(uri)`: the prefix followed by `uri.split('/').pop()`. */
  function GetPostUrl(uri: string): (url: string)
    ensures BLOG_URL_PREFIX <= url
  {
    BLOG_URL_PREFIX + LastPiece(uri, '/')
  }

  /** The appended segment is the final `/`-free part of the URI: it holds
      no `/`, is the whole URI when the URI has none, and is empty when the
      URI ends in `/`. */
  lemma BlogUrlSegment(uri: string)
    ensures var segment := GetPostUrl(uri)[|BLOG_URL_PREFIX|..];
      && '/' !in segment
      && |segment| <= |uri|
      && segment == uri[|uri| - |segment|..]
      && ('/' !in uri ==> segment == uri)
      && (uri != [] && uri[|uri| - 1] == '/' ==> segment == [])
  {
    var segment := LastPiece(uri, '/');
    LastPieceIsFinalSegment(uri, '/');
    assert GetPostUrl(uri)[|BLOG_URL_PREFIX|..] == segment;
    assert |segment| < |uri| ==> uri[|uri| - |segment| - 1] in uri;
    assert segment != [] ==> segment[|segment| - 1] == uri[|uri| - 1];
  }

  /** For an AT URI `…/rkey` the link ends in exactly the record key. */
  lemma BlogUrlOfRecord(prefix: string, rkey: string)
    requires '/' !in rkey
    ensures GetPostUrl(prefix + "/" + rkey) == BLOG_URL_PREFIX + rkey
  {
    var uri := prefix + "/" + rkey;
    var segment := LastPiece(uri, '/');
    LastPieceIsFinalSegment(uri, '/');
    assert uri[|uri| - |rkey| - 1] == '/';
    assert uri[|uri| - |rkey|..] == rkey;
    assert forall k :: |uri| - |rkey| <= k < |uri| ==> uri[k] == rkey[k - (|uri| - |rkey|)];
    assert segment == rkey;
  }
}
