/** The page metadata (`src/components/SEO.jsx`): the document title and
    the Open Graph and Twitter card tags of every page. */
module Seo {
  import opened Wrappers

  const SITE_URL := "https://j4ck.xyz"
  const SITE_NAME := "j4ck.xyz"

  /** A string prop that may be absent; `""` is falsy like `undefined`. */
  predicate IsTruthy(s: Option<string>)
  {
    s.Some? && s.value != []
  }

  /** `fullTitle`: the page title followed by the site name, or the site
      name alone. */
  function FullTitle(title: Option<string>): (full: string)
    ensures IsTruthy(title) ==> full == title.value + " | " + SITE_NAME
    ensures !IsTruthy(title) ==> full == SITE_NAME
  {
    if IsTruthy(title) then title.value + " | " + SITE_NAME else SITE_NAME
  }

  /** `fullImage`: the page's card image under `/og/`, `home.png` by
      default. */
  function FullImage(image: Option<string>): (url: string)
    ensures url == SITE_URL + "/og/" + (if IsTruthy(image) then image.value else "home.png")
  {
    if IsTruthy(image) then SITE_URL + "/og/" + image.value else SITE_URL + "/og/home.png"
  }

  /** `fullUrl`: the site URL followed by the page's path, if any. */
  function FullUrl(path: Option<string>): (url: string)
    ensures SITE_URL <= url
    ensures url == SITE_URL <==> !IsTruthy(path)
    ensures IsTruthy(path) ==> url == SITE_URL + path.value
  {
    if IsTruthy(path) then SITE_URL + path.value else SITE_URL
  }

  /** The `meta` contents of one social card: `og:*` or `twitter:*`. The
      kind is `og:type` and `twitter:card`. */
  datatype Card = Card(kind: string, url: string, title: string, description: string, image: string)

  /** What the component puts in the document head. */
  datatype Head = Head(title: string, description: string, openGraph: Card, twitter: Card)

  /** The head the component renders for one page. */
  function PageHead(title: Option<string>, description: string, image: Option<string>, path: Option<string>): (head: Head)
    ensures head.openGraph.kind == "website" && head.twitter.kind == "summary_large_image"
  {
    var t, i, u := FullTitle(title), FullImage(image), FullUrl(path);
    Head(t, description,
      Card("website", u, t, description, i),
      Card("summary_large_image", u, t, description, i))
  }

  /** Both cards carry the page's URL, title, description and image, the
      same in each, and the document title is the card title. */
  lemma CardsAgree(title: Option<string>, description: string, image: Option<string>, path: Option<string>)
    ensures var head := PageHead(title, description, image, path);
      && head.title == head.openGraph.title == head.twitter.title == FullTitle(title)
      && head.openGraph.url == head.twitter.url == FullUrl(path)
      && head.openGraph.description == head.twitter.description == head.description == description
      && head.openGraph.image == head.twitter.image == FullImage(image)
  {
  }
}
