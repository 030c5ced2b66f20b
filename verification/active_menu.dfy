/** Active navigation highlighting: the page's file name, the normalised
    target of each link, and the per-link rule that marks a link (and, for a
    dropdown entry, the dropdown's trigger) with the `active-menu` class. */
module ActiveMenu {
  import opened Wrappers
  import opened Dom
  import opened JsString

  const HomePage: string := "index.html"
  const VoidHref: string := "javascript:void(0)"
  const ActiveClass: string := "active-menu"

  /** The last `/`-separated segment: `path.split('/').pop()`. */
  function FileName(path: string): (r: string)
    ensures '/' !in r
    ensures |r| <= |path| && path[|path| - |r|..] == r
    ensures |r| == |path| || path[|path| - |r| - 1] == '/'
  {
    LastPiece(path, '/')
  }

  /** `page.split('?')[0].split('#')[0]`: the longest prefix of `page` holding
      neither `?` nor `#`, i.e. `page` cut at whichever of the two comes first. */
  function StripQueryAndFragment(page: string): (r: string)
    ensures '?' !in r && '#' !in r
    ensures |r| <= |page| && page[..|r|] == r
    ensures |r| == |page| || page[|r|] == '?' || page[|r|] == '#'
  {
    var beforeQuery := FirstPiece(page, '?');
    var r := FirstPiece(beforeQuery, '#');
    assert page[..|r|] == beforeQuery[..|r|];
    r
  }

  /** `index.html` is a bare file name. */
  lemma HomePageClean()
    ensures HomePage != "" && '/' !in HomePage && '?' !in HomePage && '#' !in HomePage
  {
  }

  /** Stripping leaves a page with neither `?` nor `#` unchanged. */
  lemma StripClean(page: string)
    requires '?' !in page && '#' !in page
    ensures StripQueryAndFragment(page) == page
  {
  }

  /** Stripping empties a page exactly when it is empty or starts with `?` or `#`. */
  lemma StripEmpty(page: string)
    ensures StripQueryAndFragment(page) == "" <==> page == "" || page[0] == '?' || page[0] == '#'
  {
  }

  /** A prefix of a page without `/` has no `/` either. */
  lemma PrefixKeepsNoSlash(page: string, r: string)
    requires '/' !in page
    requires |r| <= |page| && page[..|r|] == r
    ensures '/' !in r
  {
  }

  /** The current page as `setActiveMenu` computes it: the last segment of
      the path, replaced by `index.html` when that raw segment is empty, and
      only then stripped of a query or fragment. */
  function CurrentPage(pathname: string): (r: string)
    ensures '/' !in r && '?' !in r && '#' !in r
    ensures FileName(pathname) == "" ==> r == HomePage
    ensures FileName(pathname) != "" ==> r == StripQueryAndFragment(FileName(pathname))
    ensures r == "" <==> var seg := FileName(pathname); |seg| > 0 && (seg[0] == '?' || seg[0] == '#')
  {
    var seg := FileName(pathname);
    if seg == "" then
      HomePageClean();
      StripClean(HomePage);
      StripQueryAndFragment(HomePage)
    else
      var r := StripQueryAndFragment(seg);
      PrefixKeepsNoSlash(seg, r);
      StripEmpty(seg);
      r
  }

  /** The hrefs `normalizeHref` refuses: absent, empty, fragment-only, or the
      `javascript:void(0)` placeholder. */
  predicate IsIgnoredHref(href: Option<string>)
  {
    href.None? || href.value == "" || href.value[0] == '#' || href.value == VoidHref
  }

  /** `normalizeHref`: the link's target file name, with the `index.html`
      default applied after the query and fragment are stripped. */
  function NormalizeHref(href: Option<string>): (r: Option<string>)
    ensures r.None? <==> IsIgnoredHref(href)
    ensures r.Some? ==> r.value != "" && '/' !in r.value && '?' !in r.value && '#' !in r.value
    ensures r.Some? ==> var cut := StripQueryAndFragment(FileName(href.value));
      (cut != "" ==> r.value == cut) && (r.value == HomePage <==> cut == "" || cut == HomePage)
  {
    if IsIgnoredHref(href) then None
    else
      var seg := FileName(href.value);
      var page := StripQueryAndFragment(seg);
      PrefixKeepsNoSlash(seg, page);
      if page == "" then
        HomePageClean();
        Some(HomePage)
      else
        Some(page)
  }

  /** The comparison inside `setActiveLink`: the normalised href is present
      and equal to the current page. */
  predicate LinkMatches(currentPage: string, href: Option<string>): (m: bool)
    ensures m ==> !IsIgnoredHref(href)
    ensures m ==> currentPage != "" && '/' !in currentPage && '?' !in currentPage && '#' !in currentPage
  {
    NormalizeHref(href) == Some(currentPage)
  }

  /** A normalised href is never empty, so an empty current page matches no link. */
  lemma EmptyPageMatchesNothing(href: Option<string>)
    ensures !LinkMatches("", href)
  {
  }

  /** A normalised name that is not the void placeholder normalises to itself. */
  lemma NormalizeFixedPoint(href: Option<string>)
    requires NormalizeHref(href).Some?
    requires NormalizeHref(href).value != VoidHref
    ensures NormalizeHref(NormalizeHref(href)) == NormalizeHref(href)
  {
  }

  /** A link whose href is the page's own path is active, unless the path
      yields an empty current page. */
  lemma SelfLinkMatches(pathname: string)
    ensures !IsIgnoredHref(Some(pathname)) && CurrentPage(pathname) != "" ==>
      LinkMatches(CurrentPage(pathname), Some(pathname))
  {
  }

  /** The asymmetry between the two paths: when the raw last segment starts
      with `?` or `#`, the current page keeps it and strips it to nothing,
      while `normalizeHref` strips it first and then defaults it, so a link
      to the page's own path is not active. */
  lemma DefaultOrderAsymmetry(pathname: string)
    requires !IsIgnoredHref(Some(pathname))
    requires var seg := FileName(pathname); |seg| > 0 && (seg[0] == '?' || seg[0] == '#')
    ensures CurrentPage(pathname) == ""
    ensures NormalizeHref(Some(pathname)) == Some(HomePage)
    ensures !LinkMatches(CurrentPage(pathname), Some(pathname))
  {
  }

  /** The path `/?x` is such a case. */
  lemma QueryOnlySegment()
    ensures FileName("/?x") == "?x"
    ensures CurrentPage("/?x") == ""
    ensures NormalizeHref(Some("/?x")) == Some(HomePage)
  {
  }

  /** A navigation link: its `href` attribute and its class list. */
  datatype Anchor = Anchor(href: Option<string>, classes: ClassList)

  predicate IsActive(a: Anchor)
  {
    ActiveClass in a.classes
  }

  function MarkActive(a: Anchor): (r: Anchor)
    ensures r.href == a.href && IsActive(r)
    ensures r.classes - {ActiveClass} == a.classes - {ActiveClass}
  {
    a.(classes := AddClass(a.classes, ActiveClass))
  }

  /** What `setActiveLink` returns and leaves behind: whether it matched, the
      link, and the dropdown trigger found by `closest('.dropdown')` then
      `querySelector('a:first-child')` (`None` when either lookup fails). */
  datatype LinkOutcome = LinkOutcome(matched: bool, link: Option<Anchor>, parent: Option<Anchor>)

  /** `setActiveLink(link, isDropdownItem)`. */
  function SetActiveLink(currentPage: string, link: Option<Anchor>, isDropdownItem: bool,
                         parent: Option<Anchor>): (o: LinkOutcome)
    ensures o.matched <==> link.Some? && LinkMatches(currentPage, link.value.href)
    ensures o.link.Some? <==> link.Some?
    ensures o.matched ==> o.link == Some(MarkActive(link.value))
    ensures !o.matched ==> o.link == link && o.parent == parent
    ensures o.parent != parent ==> o.matched && isDropdownItem
    ensures o.matched && isDropdownItem && parent.Some? ==> o.parent == Some(MarkActive(parent.value))
    ensures o.parent.Some? <==> parent.Some?
  {
    match link
    case None => LinkOutcome(false, None, parent)
    case Some(a) =>
      var linkPage := NormalizeHref(a.href);
      if linkPage.Some? && linkPage.value == currentPage then
        var p := if isDropdownItem && parent.Some? then Some(MarkActive(parent.value)) else parent;
        LinkOutcome(true, Some(MarkActive(a)), p)
      else
        LinkOutcome(false, link, parent)
  }

  /** `after` is what one `setActiveLink` pass leaves of `before`: the same
      href and classes, plus the marker exactly when the link matches. */
  predicate MarkedFrom(currentPage: string, before: Anchor, after: Anchor)
  {
    && after.href == before.href
    && (IsActive(after) <==> IsActive(before) || LinkMatches(currentPage, before.href))
    && after.classes - {ActiveClass} == before.classes - {ActiveClass}
  }

  /** One `forEach(link => setActiveLink(link))` pass over an already
      selected list of top-level links: exactly the matching links gain the
      marker, and nothing else about any link changes. */
  method MarkLinks(currentPage: string, links: seq<Anchor>) returns (marked: seq<Anchor>)
    ensures |marked| == |links|
    ensures forall i :: 0 <= i < |links| ==> MarkedFrom(currentPage, links[i], marked[i])
  {
    marked := [];
    var i := 0;
    while i < |links|
      invariant 0 <= i <= |links|
      invariant |marked| == i
      invariant forall j :: 0 <= j < i ==> MarkedFrom(currentPage, links[j], marked[j])
    {
      var o := SetActiveLink(currentPage, Some(links[i]), false, None);
      var after := o.link.value;
      assert MarkedFrom(currentPage, links[i], after);
      marked := marked + [after];
      i := i + 1;
    }
  }

}
