/**
 * Next-page detection: find a server-side "next page" link among the
 * anchors of a page. A `rel="next"` anchor comes first; otherwise the first
 * anchor whose trimmed, lower-cased text is a known "next" phrase.
 */
module Pagination {
  import opened Wrappers
  import Text

  /** One `<a>` element as the HTML parser reports it: whether its `rel`
      attribute holds `next`, its visible text and its `href`, if any. */
  datatype Anchor = Anchor(relNext: bool, text: string, href: Option<string>)

  /** Link texts that announce the next page, in lower case. */
  const NextTexts: seq<string> :=
    ["next", "next »", "next page", ">", "›", ">>", "more", "weiter", "nächste"]

  /** `text in possible_texts`. */
  predicate IsNextText(text: string) {
    text in NextTexts
  }

  /** `a.get("href")` is truthy: present and not the empty string. */
  predicate HasHref(a: Anchor) {
    a.href.Some? && a.href.value != ""
  }

  /** `(a.get_text() or "").strip().lower()`. */
  function LinkText(a: Anchor): string {
    Text.Lower(Text.Strip(a.text))
  }

  /** An anchor the text heuristic accepts. */
  predicate IsNextLink(a: Anchor) {
    IsNextText(LinkText(a)) && HasHref(a)
  }

  /** The first index at which `flags` holds; `|flags|` when none does. */
  function FirstTrue(flags: seq<bool>): (k: nat)
    ensures k <= |flags|
    ensures k < |flags| ==> flags[k]
    ensures forall j :: 0 <= j < k ==> !flags[j]
  {
    if flags == [] then 0
    else if flags[0] then 0
    else 1 + FirstTrue(flags[1..])
  }

  /** The anchor `soup.find("a", rel="next")` returns, by index;
      `|anchors|` when there is none. */
  function FirstRelNext(anchors: seq<Anchor>): (k: nat)
    ensures k <= |anchors|
    ensures k < |anchors| ==> anchors[k].relNext
    ensures forall j :: 0 <= j < k ==> !anchors[j].relNext
  {
    var flags := seq(|anchors|, i requires 0 <= i < |anchors| => anchors[i].relNext);
    assert forall j :: 0 <= j < |anchors| ==> flags[j] == anchors[j].relNext;
    FirstTrue(flags)
  }

  /** The first anchor, in document order, the text heuristic accepts;
      `|anchors|` when there is none. */
  function FirstNextLink(anchors: seq<Anchor>): (k: nat)
    ensures k <= |anchors|
    ensures k < |anchors| ==> IsNextLink(anchors[k])
    ensures forall j :: 0 <= j < k ==> !IsNextLink(anchors[j])
  {
    var flags := seq(|anchors|, i requires 0 <= i < |anchors| => IsNextLink(anchors[i]));
    assert forall j :: 0 <= j < |anchors| ==> flags[j] == IsNextLink(anchors[j]);
    FirstTrue(flags)
  }

  /** The first `rel="next"` anchor exists and has an href. */
  predicate RelNextUsable(anchors: seq<Anchor>) {
    var p := FirstRelNext(anchors);
    p < |anchors| && HasHref(anchors[p])
  }

  /** The URL `find_next_page_url` returns; `resolve` is `urljoin`. */
  function NextPageUrl(anchors: seq<Anchor>, current: string, resolve: (string, string) -> string)
    : (r: Option<string>)
    ensures r.Some? ==> exists k :: 0 <= k < |anchors| && HasHref(anchors[k])
                                    && r.value == resolve(current, anchors[k].href.value)
  {
    if RelNextUsable(anchors) then
      Some(resolve(current, anchors[FirstRelNext(anchors)].href.value))
    else
      var q := FirstNextLink(anchors);
      if q < |anchors| then Some(resolve(current, anchors[q].href.value)) else None
  }

  /** The anchor search of `find_next_page_url`: the `rel="next"` lookup,
      then a scan in document order that returns at the first match. */
  method FindNextPageUrl(anchors: seq<Anchor>, current: string, resolve: (string, string) -> string)
    returns (next: Option<string>)
    ensures next == NextPageUrl(anchors, current, resolve)
  {
    var link := FirstRelNext(anchors);
    if link < |anchors| && HasHref(anchors[link]) {
      return Some(resolve(current, anchors[link].href.value));
    }
    for i := 0 to |anchors|
      invariant forall j :: 0 <= j < i ==> !IsNextLink(anchors[j])
    {
      var text := LinkText(anchors[i]);
      if IsNextText(text) && HasHref(anchors[i]) {
        assert FirstNextLink(anchors) == i;
        return Some(resolve(current, anchors[i].href.value));
      }
    }
    assert FirstNextLink(anchors) == |anchors|;
    return None;
  }

  /** A `rel="next"` anchor with an href, the first with that relation,
      decides the result whatever the link texts say. */
  lemma RelNextTakesPriority(anchors: seq<Anchor>, current: string, resolve: (string, string) -> string, k: nat)
    requires k < |anchors| && anchors[k].relNext && HasHref(anchors[k])
    requires forall j :: 0 <= j < k ==> !anchors[j].relNext
    ensures NextPageUrl(anchors, current, resolve) == Some(resolve(current, anchors[k].href.value))
  {
    assert FirstRelNext(anchors) == k;
  }

  /** Without a usable `rel="next"` anchor, the first anchor in document
      order with a "next" text and an href decides the result. */
  lemma TextMatchFallback(anchors: seq<Anchor>, current: string, resolve: (string, string) -> string, k: nat)
    requires !RelNextUsable(anchors)
    requires k < |anchors| && IsNextText(LinkText(anchors[k])) && HasHref(anchors[k])
    requires forall j :: 0 <= j < k ==> !IsNextLink(anchors[j])
    ensures NextPageUrl(anchors, current, resolve) == Some(resolve(current, anchors[k].href.value))
  {
    assert FirstNextLink(anchors) == k;
  }

  /** There is no next page exactly when neither rule finds an anchor. */
  lemma NoNextPage(anchors: seq<Anchor>, current: string, resolve: (string, string) -> string)
    ensures NextPageUrl(anchors, current, resolve) == None
        <==> !RelNextUsable(anchors) && forall j :: 0 <= j < |anchors| ==> !IsNextLink(anchors[j])
  {
    var q := FirstNextLink(anchors);
    if q < |anchors| {
      assert IsNextLink(anchors[q]);
    }
  }
}
