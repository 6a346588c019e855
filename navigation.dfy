/** The site navigation (`src/components/Navigation.jsx`): the digit keys
    that jump between the four pages and the table of navigation items. */
module Navigation {
  import opened Wrappers

  datatype NavItem = NavItem(key: string, path: string, caption: string)

  /** `navItems`, in display order. */
  const NAV_ITEMS: seq<NavItem> := [
    NavItem("1", "/", "home"),
    NavItem("2", "/photos", "photos"),
    NavItem("3", "/blogs", "blogs"),
    NavItem("4", "/repos", "repos")
  ]

  /** The `keydown` listener's `switch`: the route to navigate to, if
      any. Keys from text fields are ignored. */
  function KeyRoute(tagName: string, key: string): Option<string>
  {
    if tagName == "INPUT" || tagName == "TEXTAREA" then None
    else if key == "1" then Some("/")
    else if key == "2" then Some("/photos")
    else if key == "3" then Some("/blogs")
    else if key == "4" then Some("/repos")
    else None
  }

  /** The switch and the table agree: outside a text field each item's key
      leads to that item's path, and a key that is no item's key leads
      nowhere. */
  lemma KeysMatchItems(tagName: string, key: string)
    requires tagName != "INPUT" && tagName != "TEXTAREA"
    ensures forall i :: 0 <= i < |NAV_ITEMS| ==> KeyRoute(tagName, NAV_ITEMS[i].key) == Some(NAV_ITEMS[i].path)
    ensures (forall i :: 0 <= i < |NAV_ITEMS| ==> NAV_ITEMS[i].key != key) ==> KeyRoute(tagName, key).None?
  {
    if forall i :: 0 <= i < |NAV_ITEMS| ==> NAV_ITEMS[i].key != key {
      assert NAV_ITEMS[0].key != key && NAV_ITEMS[1].key != key;
      assert NAV_ITEMS[2].key != key && NAV_ITEMS[3].key != key;
    }
  }

  /** Text fields never trigger navigation. */
  lemma TextFieldsIgnored(tagName: string, key: string)
    requires tagName == "INPUT" || tagName == "TEXTAREA"
    ensures KeyRoute(tagName, key).None?
  {
  }

  /** An item's label is highlighted when the current path is its path. */
  predicate Highlighted(pathname: string, item: NavItem)
  {
    pathname == item.path
  }

  /** How many of `items` are highlighted. */
  function HighlightCount(pathname: string, items: seq<NavItem>): (n: nat)
    ensures n <= |items|
    ensures n == 0 <==> forall i :: 0 <= i < |items| ==> !Highlighted(pathname, items[i])
  {
    if items == [] then 0
    else
      assert forall i :: 1 <= i < |items| ==> items[i] == items[1..][i - 1];
      (if Highlighted(pathname, items[0]) then 1 else 0) + HighlightCount(pathname, items[1..])
  }

  /** The four paths are distinct, so on one of the routes exactly one
      item is highlighted (the one with that path), and on any other path
      none is. */
  lemma OneHighlightPerRoute(pathname: string)
    ensures HighlightCount(pathname, NAV_ITEMS) == 1 <==>
      exists i :: 0 <= i < |NAV_ITEMS| && NAV_ITEMS[i].path == pathname
    ensures HighlightCount(pathname, NAV_ITEMS) <= 1
  {
    var items := NAV_ITEMS;
    assert items[1..] == [items[1], items[2], items[3]];
    assert items[1..][1..] == [items[2], items[3]];
    assert items[1..][1..][1..] == [items[3]];
    assert items[1..][1..][1..][1..] == [];
  }
}
