/** The table from section id to navigation link that the scroll-spy consults
    (js/index.js:81-98). A link is identified by its index among the tracked
    nav links. */
module NavLinks {
  import opened Wrappers
  import opened JsString
  import opened JsArray

  /** A `.nav-bar__nav-link` element as far as the script can observe it: the
      `href` attribute of every anchor inside it, in document order (`None`
      for an anchor without one), and whether it carries the active class in
      the page's markup. */
  datatype NavLink = NavLink(anchors: seq<Option<string>>, active: bool)

  /** The anchor selector `a[href^="#"]`: an `href` attribute that starts with `'#'`. */
  predicate IsHashAnchor(href: Option<string>) {
    href.Some? && |href.value| > 0 && href.value[0] == '#'
  }

  predicate IsActive(link: NavLink) {
    link.active
  }

  /** The links the scroll-spy tracks: all nav links but the last (the
      call-to-action item). */
  function TrackedLinks(pageLinks: seq<NavLink>): seq<NavLink> {
    DropLast(pageLinks)
  }

  /** Whether each tracked link carries the active class in the page's markup. */
  function ActiveFlags(links: seq<NavLink>): (flags: seq<bool>)
    ensures |flags| == |links|
    ensures forall i :: 0 <= i < |links| ==> flags[i] == links[i].active
  {
    seq(|links|, i requires 0 <= i < |links| => links[i].active)
  }

  /** The nav link that is highlighted when the page loads: the first tracked
      link whose markup carries the active class. */
  function InitialActive(links: seq<NavLink>): Option<nat> {
    Find(links, IsActive)
  }

  /** The section id an anchor's `href` refers to: trim the value, reject the
      empty string and a bare `#`, and drop the leading character. */
  function HrefKey(href: string): Option<string> {
    var hash := Trim(href);
    if hash == "" || hash == "#" then None else Some(hash[1..])
  }

  /** The section id a nav link refers to, taken from the first anchor inside
      it that matches the selector. */
  function LinkKey(link: NavLink): Option<string> {
    match Find(link.anchors, IsHashAnchor)
    case None => None
    case Some(i) => HrefKey(link.anchors[i].value)
  }

  /** The key of every tracked link, in order. */
  function Keys(links: seq<NavLink>): (keys: seq<Option<string>>)
    ensures |keys| == |links|
    ensures forall i :: 0 <= i < |links| ==> keys[i] == LinkKey(links[i])
  {
    seq(|links|, i requires 0 <= i < |links| => LinkKey(links[i]))
  }

  /** The map after inserting `keys` in order, each key mapped to its
      position; a later occurrence of a key replaces an earlier one. */
  function InsertAll(keys: seq<Option<string>>): map<string, nat>
    decreases |keys|
  {
    if |keys| == 0 then map[]
    else
      var m := InsertAll(keys[..|keys| - 1]);
      match keys[|keys| - 1]
      case None => m
      case Some(key) => m[key := |keys| - 1]
  }

  function NavLinkMapOf(links: seq<NavLink>): map<string, nat> {
    InsertAll(Keys(links))
  }

  /** Builds the map in place, one link at a time. */
  method BuildNavLinkMap(links: seq<NavLink>) returns (navLinkMap: map<string, nat>)
    ensures navLinkMap == NavLinkMapOf(links)
  {
    ghost var keys := Keys(links);
    navLinkMap := map[];
    for i := 0 to |links|
      invariant navLinkMap == InsertAll(keys[..i])
    {
      assert keys[..i + 1][..i] == keys[..i];
      var key := LinkKey(links[i]);
      if key.Some? {
        navLinkMap := navLinkMap[key.value := i];
      }
    }
    assert keys[..|links|] == keys;
  }

  /** For an `href` the selector accepted, the empty-string guard never fires
      (trimming keeps the leading `'#'`); the key is missing exactly for a bare
      `#`, and otherwise `#` followed by the key is the trimmed `href`. */
  lemma HashHrefKey(href: string)
    requires IsHashAnchor(Some(href))
    ensures Trim(href) != ""
    ensures HrefKey(href).None? <==> Trim(href) == "#"
    ensures HrefKey(href).Some? ==> "#" + HrefKey(href).value == Trim(href)
  {
    TrimKeepsLeadingHash(href);
  }

  /** A link has a key exactly when one of its anchors matches the selector and
      the first such anchor's trimmed `href` is not a bare `#`; the key is then
      that trimmed `href` without its `#`. */
  lemma LinkKeySpec(link: NavLink)
    ensures LinkKey(link).Some? <==>
      exists i :: 0 <= i < |link.anchors| && IsHashAnchor(link.anchors[i])
        && Find(link.anchors, IsHashAnchor) == Some(i) && Trim(link.anchors[i].value) != "#"
    ensures LinkKey(link).Some? ==>
      exists i :: 0 <= i < |link.anchors| && Find(link.anchors, IsHashAnchor) == Some(i)
        && "#" + LinkKey(link).value == Trim(link.anchors[i].value)
  {
    match Find(link.anchors, IsHashAnchor)
    case None =>
    case Some(i) =>
      HashHrefKey(link.anchors[i].value);
  }

  /** A key is in the map exactly when it occurs among the inserted keys. */
  lemma {:induction false} InsertAllKeys(keys: seq<Option<string>>, key: string)
    decreases |keys|
    ensures key in InsertAll(keys) <==> Some(key) in keys
  {
    if |keys| > 0 {
      var front := keys[..|keys| - 1];
      InsertAllKeys(front, key);
      assert keys == front + [keys[|keys| - 1]];
    }
  }

  /** The last occurrence wins: a key maps to a position holding it, and no
      later position holds it. */
  lemma {:induction false} InsertAllLastWins(keys: seq<Option<string>>, key: string)
    requires key in InsertAll(keys)
    decreases |keys|
    ensures InsertAll(keys)[key] < |keys| && keys[InsertAll(keys)[key]] == Some(key)
    ensures forall j :: InsertAll(keys)[key] < j < |keys| ==> keys[j] != Some(key)
  {
    var front := keys[..|keys| - 1];
    if keys[|keys| - 1] != Some(key) {
      InsertAllLastWins(front, key);
    }
  }

  /** The nav-link map has a key exactly when some tracked link refers to that
      section; it maps the key to a link that refers to it, and no later
      link does (the last link wins). */
  lemma NavLinkMapSpec(links: seq<NavLink>, key: string)
    ensures key in NavLinkMapOf(links) <==> exists i :: 0 <= i < |links| && LinkKey(links[i]) == Some(key)
    ensures key in NavLinkMapOf(links) ==>
      var i := NavLinkMapOf(links)[key];
      && i < |links| && LinkKey(links[i]) == Some(key)
      && forall j :: i < j < |links| ==> LinkKey(links[j]) != Some(key)
  {
    var keys := Keys(links);
    InsertAllKeys(keys, key);
    if key in NavLinkMapOf(links) {
      InsertAllLastWins(keys, key);
    }
    if exists i :: 0 <= i < |links| && LinkKey(links[i]) == Some(key) {
      var i :| 0 <= i < |links| && LinkKey(links[i]) == Some(key);
      assert keys[i] == Some(key);
    }
  }

  /** Every link the map refers to is one of the tracked links. */
  lemma NavLinkMapInRange(links: seq<NavLink>)
    ensures forall key :: key in NavLinkMapOf(links) ==> NavLinkMapOf(links)[key] < |links|
  {
    forall key | key in NavLinkMapOf(links) ensures NavLinkMapOf(links)[key] < |links| {
      InsertAllLastWins(Keys(links), key);
    }
  }

  /** The initially highlighted link is the first tracked link carrying the
      active class, and none is highlighted when no link carries it. */
  lemma InitialActiveSpec(links: seq<NavLink>)
    ensures InitialActive(links).None? <==> forall j :: 0 <= j < |links| ==> !links[j].active
    ensures InitialActive(links).Some? ==>
      var i := InitialActive(links).value;
      && i < |links| && links[i].active && forall j :: 0 <= j < i ==> !links[j].active
  {
  }
}
