/** The content script content/applyFavicon.js: a controller that keeps the page's icon links
    pointing at the desired favicon. The document is reduced to its `<link>` elements in document
    order, whether it has a `<head>`, and its location; the browser's asynchronous inputs (mutation
    batches, the re-apply timer, history changes) are methods the environment calls one at a time. */
module Enforcement {
  import opened Wrappers
  import opened Text
  import opened Seqs
  import opened Rules
  import Url

  /** One `<link>` element: its `rel` attribute, the `href` it reads back (`""` without one) and
      whether it carries `data-favicon-switcher="1"`. */
  datatype Link = Link(rel: string, href: string, marked: bool)

  /** A node reported in a mutation record: `nodeType`, `tagName` and the `rel` attribute. */
  datatype Node = Node(nodeType: int, tagName: string, rel: Option<string>)

  /** A mutation record: its `type` and its `addedNodes`. */
  datatype Mutation = Mutation(kind: string, addedNodes: seq<Node>)

  /** The rels of the four links the controller installs, in the order it appends them. */
  const Rels: seq<string> := ["icon", "shortcut icon", "apple-touch-icon", "apple-touch-icon-precomposed"]

  /** `link[rel*="icon"]`: HTML compares `rel` values ASCII case-insensitively. */
  predicate IsIcon(l: Link) {
    Contains(AsciiLower(l.rel), "icon")
  }

  predicate NotIcon(l: Link) {
    !IsIcon(l)
  }

  /** Not matched by `link[rel*="icon"][data-favicon-switcher="1"]`. */
  predicate NotOurIcon(l: Link) {
    !(IsIcon(l) && l.marked)
  }

  /** The four links `addIconLinks` creates for `href`. */
  function OurLinks(href: string): (r: seq<Link>)
    ensures |r| == |Rels|
    ensures forall i :: 0 <= i < |r| ==> r[i] == Link(Rels[i], href, true)
  {
    seq(|Rels|, i requires 0 <= i < |Rels| => Link(Rels[i], href, true))
  }

  /** `toAbsoluteUrl` on a string: `data:` URLs as they are, otherwise resolved against the
      location, and the input itself when resolution throws. */
  function ToAbsoluteUrl(parser: Url.Parser, url: string, location: string): (abs: string)
    ensures StartsWith(url, "data:") ==> abs == url
    ensures !StartsWith(url, "data:") && parser.resolve(url, location).None? ==> abs == url
    ensures !StartsWith(url, "data:") && parser.resolve(url, location).Some? ==>
      abs == parser.resolve(url, location).value.href
  {
    if StartsWith(url, "data:") then url
    else match parser.resolve(url, location)
      case None => url
      case Some(r) => r.href
  }

  /** `toAbsoluteUrl` on `null`: `null.startsWith` throws and the catch hands back `null`. */
  function AbsoluteOrNull(parser: Url.Parser, url: Option<string>, location: string): (abs: Option<string>)
    ensures abs.None? <==> url.None?
    ensures url.Some? ==> abs.value == ToAbsoluteUrl(parser, url.value, location)
  {
    match url
    case None => None
    case Some(u) => Some(ToAbsoluteUrl(parser, u, location))
  }

  /** The `href` a link reads back after `link.href = abs`: assigning `null` stores `"null"`. */
  function HrefValue(abs: Option<string>): string {
    abs.GetOr("null")
  }

  /** Some icon link has `href == expected`. */
  predicate Shows(links: seq<Link>, expected: string) {
    exists k :: 0 <= k < |links| && IsIcon(links[k]) && links[k].href == expected
  }

  /** `areIconsCorrect(url)`: false for `null` and `""`, else an exists check over the icon links. */
  predicate IconsCorrect(parser: Url.Parser, links: seq<Link>, location: string, url: Option<string>) {
    IsTruthy(url) && Shows(links, ToAbsoluteUrl(parser, url.value, location))
  }

  /** The links `safeApply` leaves: every icon link removed, then ours appended. */
  function Installed(links: seq<Link>, href: string): seq<Link> {
    Filter(links, NotIcon) + OurLinks(href)
  }

  /** The links `clear` leaves: only the marked icon links removed. */
  function Cleared(links: seq<Link>): seq<Link> {
    Filter(links, NotOurIcon)
  }

  /** Some added element of a `childList` record is a `LINK` whose lower-cased `rel` contains
      `"icon"`. */
  predicate IsIconLinkNode(n: Node) {
    n.nodeType == 1 && n.tagName == "LINK" && Contains(AsciiLower(n.rel.GetOr("")), "icon")
  }

  predicate AddsIconLink(mutations: seq<Mutation>) {
    exists i, j :: 0 <= i < |mutations| && mutations[i].kind == "childList" &&
      0 <= j < |mutations[i].addedNodes| && IsIconLinkNode(mutations[i].addedNodes[j])
  }

  /** The node a mutation record reports for an inserted link. */
  function NodeOf(l: Link): (n: Node)
    ensures IsIconLinkNode(n) <==> IsIcon(l)
  {
    Node(1, "LINK", Some(l.rel))
  }

  /** Each of the four installed rels is matched by `link[rel*="icon"]`. */
  lemma RelsAreIcons(href: string)
    ensures forall i :: 0 <= i < |Rels| ==> IsIcon(Link(Rels[i], href, true))
  {
    forall i | 0 <= i < |Rels|
      ensures IsIcon(Link(Rels[i], href, true))
    {
      var at := if i == 0 then 0 else if i == 1 then 9 else 12;
      LowerRelIsIcon(Rels[i], at, href);
    }
  }

  /** A rel with the lower-case letters `icon` at `at` is an icon rel, whatever its other characters. */
  lemma LowerRelIsIcon(rel: string, at: int, href: string)
    requires 0 <= at && at + 4 <= |rel|
    requires rel[at] == 'i' && rel[at + 1] == 'c' && rel[at + 2] == 'o' && rel[at + 3] == 'n'
    ensures IsIcon(Link(rel, href, true))
  {
    var lowered := AsciiLower(rel);
    assert lowered[at..at + 4] == "icon";
    assert OccursAt(lowered, "icon", at);
  }

  /** After `safeApply`, the non-icon links are the old ones in their order, and the only icon
      links are the four of ours, last, all pointing at `href`. */
  lemma InstalledShape(links: seq<Link>, href: string)
    ensures var r := Installed(links, href);
      && |r| >= 4
      && r[..|r| - 4] == Filter(links, NotIcon)
      && (forall k :: 0 <= k < |r| ==> (IsIcon(r[k]) <==> k >= |r| - 4))
      && (forall k :: |r| - 4 <= k < |r| ==> r[k] == Link(Rels[k - (|r| - 4)], href, true))
      && (forall l :: l in links && !IsIcon(l) ==> l in r)
      && (forall l :: l in links && IsIcon(l) && !l.marked ==> l !in r)
  {
    InstalledIconsAreLast(links, href);
    InstalledMembers(links, href);
  }

  /** The positions of `Installed(links, href)`: the kept links first, our four last. */
  lemma InstalledIconsAreLast(links: seq<Link>, href: string)
    ensures var r := Installed(links, href);
      && |r| >= 4
      && r[..|r| - 4] == Filter(links, NotIcon)
      && (forall k :: 0 <= k < |r| ==> (IsIcon(r[k]) <==> k >= |r| - 4))
      && (forall k :: |r| - 4 <= k < |r| ==> r[k] == Link(Rels[k - (|r| - 4)], href, true))
  {
    RelsAreIcons(href);
    var kept, ours := Filter(links, NotIcon), OurLinks(href);
    var r := kept + ours;
    assert r[..|kept|] == kept;
    forall k | 0 <= k < |r|
      ensures IsIcon(r[k]) <==> k >= |kept|
    {
      if k < |kept| {
        assert r[k] == kept[k] && kept[k] in kept;
      } else {
        assert r[k] == ours[k - |kept|];
      }
    }
  }

  /** Which of the old links `Installed(links, href)` holds: every non-icon one and no unmarked icon. */
  lemma InstalledMembers(links: seq<Link>, href: string)
    ensures var r := Installed(links, href);
      && (forall l :: l in links && !IsIcon(l) ==> l in r)
      && (forall l :: l in links && IsIcon(l) && !l.marked ==> l !in r)
  {
    var kept, ours := Filter(links, NotIcon), OurLinks(href);
    forall l | l in links && IsIcon(l) && !l.marked
      ensures l !in kept + ours
    {
      assert l !in kept;
      assert l !in ours;
    }
  }

  /** After `safeApply(url)`, `areIconsCorrect(url)` holds: the re-check that ends every
      reaction to our own insertion. */
  lemma InstalledShowsHref(links: seq<Link>, href: string)
    ensures Shows(Installed(links, href), href)
  {
    RelsAreIcons(href);
    var r := Installed(links, href);
    assert r[|r| - 4] == OurLinks(href)[0];
  }

  /** Installing twice for the same `href` is installing once. */
  lemma InstalledIdempotent(links: seq<Link>, href: string)
    ensures Installed(Installed(links, href), href) == Installed(links, href)
  {
    var kept, ours := Filter(links, NotIcon), OurLinks(href);
    FilterAppend(kept, ours, NotIcon);
    FilterIdempotent(links, NotIcon);
    OursAreIcons(href);
    assert kept + [] == kept;
  }

  /** Our four links are all icon links, and all ours. */
  lemma OursAreIcons(href: string)
    ensures Filter(OurLinks(href), NotIcon) == [] && Filter(OurLinks(href), NotOurIcon) == []
  {
    RelsAreIcons(href);
    FilterRejectsAll(OurLinks(href), NotIcon);
    FilterRejectsAll(OurLinks(href), NotOurIcon);
  }

  /** `clear` keeps every link without our marker, host icons included, in order, and no marked
      icon link survives. */
  lemma ClearedKeepsHostLinks(links: seq<Link>)
    ensures IsSubsequence(Cleared(links), links)
    ensures forall l :: l in links && !l.marked ==> l in Cleared(links)
    ensures forall l :: l in Cleared(links) ==> !(IsIcon(l) && l.marked)
  {
    FilterIsSubsequence(links, NotOurIcon);
  }

  /** `clear` right after `safeApply` leaves no icon link at all: the host's were removed by the
      apply and ours by the clear. */
  lemma ClearAfterInstallLeavesNoIcon(links: seq<Link>, href: string)
    ensures Cleared(Installed(links, href)) == Filter(links, NotIcon)
    ensures !Shows(Cleared(Installed(links, href)), href)
  {
    RelsAreIcons(href);
    var kept := Filter(links, NotIcon);
    FilterAppend(kept, OurLinks(href), NotOurIcon);
    assert forall k :: 0 <= k < |kept| ==> kept[k] in kept;
    FilterKeepsAll(kept, NotOurIcon);
    OursAreIcons(href);
    assert kept + [] == kept;
  }

  /** The exists check: an icon link added beside one that already shows `expected` does not make
      the icons wrong. */
  lemma ShowsBesideHostIcon(links: seq<Link>, host: Link, expected: string)
    requires Shows(links, expected)
    ensures Shows(links + [host], expected)
  {
    var k :| 0 <= k < |links| && IsIcon(links[k]) && links[k].href == expected;
    assert (links + [host])[k] == links[k];
  }

  /** The document: its link elements, whether it has a head, and its location. */
  class Page {
    var hasHead: bool
    var location: string
    var links: seq<Link>

    constructor (hasHead: bool, location: string, links: seq<Link>)
      ensures this.hasHead == hasHead && this.location == location && this.links == links
    {
      this.hasHead := hasHead;
      this.location := location;
      this.links := links;
    }

    /** `document.head.appendChild(link)`. */
    method AppendChild(link: Link)
      modifies this
      ensures links == old(links) + [link]
      ensures hasHead == old(hasHead) && location == old(location)
    {
      links := links + [link];
    }

    /** `querySelectorAll(selector).forEach(n => n.remove())`, for a selector matching the links
        that `keep` rejects: each matched element is removed in turn. */
    method RemoveSelected(keep: Link -> bool)
      modifies this
      ensures links == Filter(old(links), keep)
      ensures hasHead == old(hasHead) && location == old(location)
    {
      var i := 0;
      while i < |links|
        invariant 0 <= i <= |links|
        invariant Filter(links, keep) == Filter(old(links), keep)
        invariant forall k :: 0 <= k < i ==> keep(links[k])
        invariant hasHead == old(hasHead) && location == old(location)
        decreases |links| - i
      {
        if !keep(links[i]) {
          FilterSkipsRejected(links, i, keep);
          DeleteKeepsPrefix(links, i);
          links := links[..i] + links[i + 1..];
        } else {
          i := i + 1;
        }
      }
      FilterKeepsAll(links, keep);
    }

    /** The location changing under `history.pushState`, `history.replaceState` or a `popstate`. */
    method Navigate(to: string)
      modifies this
      ensures location == to && links == old(links) && hasHead == old(hasHead)
    {
      location := to;
    }
  }

  /** The closure's variables. `observing` stands for `observer !== null` and `pendingReapply`
      for a scheduled timer. */
  class Controller {
    const page: Page
    const parser: Url.Parser
    var currentFaviconUrl: Option<string>
    var lastApplied: string
    var observing: bool
    var suppressObserver: bool
    var pendingReapply: bool
    var historyPatched: bool

    /** Between two events the guard is always down: every method that raises it lowers it in a
        `finally` before returning. */
    predicate Idle()
      reads this
    {
      !suppressObserver
    }

    predicate AreIconsCorrect(url: Option<string>)
      reads this, page
    {
      IconsCorrect(parser, page.links, page.location, url)
    }

    /** The state of a freshly injected script. */
    constructor (page: Page, parser: Url.Parser)
      ensures this.page == page && this.parser == parser
      ensures currentFaviconUrl.None? && lastApplied == "" && !observing && Idle()
      ensures !pendingReapply && !historyPatched
    {
      this.page := page;
      this.parser := parser;
      currentFaviconUrl := None;
      lastApplied := "";
      observing := false;
      suppressObserver := false;
      pendingReapply := false;
      historyPatched := false;
    }

    /** `removeExistingIcons`. */
    method RemoveExistingIcons()
      modifies page
      ensures page.links == Filter(old(page.links), NotIcon)
      ensures page.hasHead == old(page.hasHead) && page.location == old(page.location)
    {
      page.RemoveSelected(NotIcon);
    }

    /** `removeOurIconsOnly`. */
    method RemoveOurIconsOnly()
      modifies page
      ensures page.links == Filter(old(page.links), NotOurIcon)
      ensures page.hasHead == old(page.hasHead) && page.location == old(page.location)
    {
      page.RemoveSelected(NotOurIcon);
    }

    /** `addIconLinks`: four marked links, one per rel, all with the resolved URL. */
    method AddIconLinks(url: Option<string>)
      modifies page
      ensures page.links == old(page.links) + OurLinks(HrefValue(AbsoluteOrNull(parser, url, old(page.location))))
      ensures page.hasHead == old(page.hasHead) && page.location == old(page.location)
    {
      var abs := AbsoluteOrNull(parser, url, page.location);
      ghost var ours := OurLinks(HrefValue(abs));
      var i := 0;
      while i < |Rels|
        invariant 0 <= i <= |Rels|
        invariant page.links == old(page.links) + ours[..i]
        invariant page.hasHead == old(page.hasHead) && page.location == old(page.location)
      {
        page.AppendChild(Link(Rels[i], HrefValue(abs), true));
        assert ours[..i + 1] == ours[..i] + [ours[i]];
        i := i + 1;
      }
      assert ours[..|Rels|] == ours;
    }

    /** `safeApply`: without a head nothing happens; otherwise the icons are replaced by ours and
        the location is remembered, with the guard raised meanwhile. */
    method SafeApply(url: Option<string>)
      requires Idle()
      modifies this, page
      ensures Idle()
      ensures currentFaviconUrl == old(currentFaviconUrl) && pendingReapply == old(pendingReapply)
      ensures observing == old(observing) && historyPatched == old(historyPatched)
      ensures page.hasHead == old(page.hasHead) && page.location == old(page.location)
      ensures !old(page.hasHead) ==> page.links == old(page.links) && lastApplied == old(lastApplied)
      ensures old(page.hasHead) ==>
        && page.links == Installed(old(page.links), HrefValue(AbsoluteOrNull(parser, url, old(page.location))))
        && lastApplied == old(page.location)
    {
      if !page.hasHead {
        return;
      }
      suppressObserver := true;
      RemoveExistingIcons();
      AddIconLinks(url);
      lastApplied := page.location;
      suppressObserver := false;
    }

    /** `apply`: only a non-empty string is taken; it becomes the desired URL, and the document
        is rewritten unless some icon link already shows it. Afterwards, on a page with a head,
        the icons are correct. */
    method Apply(url: Option<string>)
      requires Idle()
      modifies this, page
      ensures Idle()
      ensures !IsTruthy(url) ==> unchanged(this) && unchanged(page)
      ensures IsTruthy(url) ==> currentFaviconUrl == url
      ensures pendingReapply == old(pendingReapply) && observing == old(observing)
      ensures historyPatched == old(historyPatched)
      ensures page.hasHead == old(page.hasHead) && page.location == old(page.location)
      ensures IsTruthy(url) && old(AreIconsCorrect(url)) ==>
        page.links == old(page.links) && lastApplied == old(lastApplied)
      ensures IsTruthy(url) && !old(AreIconsCorrect(url)) && old(page.hasHead) ==>
        && page.links == Installed(old(page.links), ToAbsoluteUrl(parser, url.value, old(page.location)))
        && lastApplied == old(page.location)
      ensures !old(page.hasHead) ==> page.links == old(page.links) && lastApplied == old(lastApplied)
      ensures IsTruthy(url) && page.hasHead ==> AreIconsCorrect(url)
    {
      if !IsTruthy(url) {
        return;
      }
      currentFaviconUrl := url;
      if AreIconsCorrect(url) {
        return;
      }
      SafeApply(url);
      if page.hasHead {
        InstalledShowsHref(old(page.links), ToAbsoluteUrl(parser, url.value, page.location));
      }
    }

    /** `clear`: our marked icon links go and no URL is desired any more; host icons, the
        remembered location and a pending timer stay. */
    method Clear()
      requires Idle()
      modifies this, page
      ensures Idle()
      ensures page.links == Cleared(old(page.links)) && currentFaviconUrl.None?
      ensures lastApplied == old(lastApplied) && pendingReapply == old(pendingReapply)
      ensures observing == old(observing) && historyPatched == old(historyPatched)
      ensures page.hasHead == old(page.hasHead) && page.location == old(page.location)
    {
      suppressObserver := true;
      RemoveOurIconsOnly();
      currentFaviconUrl := None;
      suppressObserver := false;
    }

    /** `scheduleReapply`: a timer is set only when a URL is desired and none is pending, so at
        most one is ever pending. */
    method ScheduleReapply()
      modifies this
      ensures pendingReapply == (old(pendingReapply) || IsTruthy(currentFaviconUrl))
      ensures currentFaviconUrl == old(currentFaviconUrl) && lastApplied == old(lastApplied)
      ensures suppressObserver == old(suppressObserver) && observing == old(observing)
      ensures historyPatched == old(historyPatched)
    {
      if !IsTruthy(currentFaviconUrl) {
        return;
      }
      if pendingReapply {
        return;
      }
      pendingReapply := true;
    }

    /** The timer body as written: it re-checks the icons but not whether a URL is still desired,
        so after `clear` it runs `safeApply(null)`. */
    method TimerFires()
      requires pendingReapply && Idle()
      modifies this, page
      ensures Idle() && !pendingReapply && currentFaviconUrl == old(currentFaviconUrl)
      ensures observing == old(observing) && historyPatched == old(historyPatched)
      ensures page.hasHead == old(page.hasHead) && page.location == old(page.location)
      ensures old(AreIconsCorrect(currentFaviconUrl)) || !old(page.hasHead) ==>
        page.links == old(page.links) && lastApplied == old(lastApplied)
      ensures !old(AreIconsCorrect(currentFaviconUrl)) && old(page.hasHead) ==>
        && page.links == Installed(old(page.links), HrefValue(AbsoluteOrNull(parser, currentFaviconUrl, old(page.location))))
        && lastApplied == old(page.location)
    {
      pendingReapply := false;
      if !AreIconsCorrect(currentFaviconUrl) {
        SafeApply(currentFaviconUrl);
      }
    }

    /** The timer body with the re-check it evidently needs: nothing happens once no URL is
        desired. */
    method TimerFiresGuarded()
      requires pendingReapply && Idle()
      modifies this, page
      ensures Idle() && !pendingReapply && currentFaviconUrl == old(currentFaviconUrl)
      ensures observing == old(observing) && historyPatched == old(historyPatched)
      ensures page.hasHead == old(page.hasHead) && page.location == old(page.location)
      ensures !IsTruthy(currentFaviconUrl) ==> page.links == old(page.links) && lastApplied == old(lastApplied)
      ensures old(AreIconsCorrect(currentFaviconUrl)) || !old(page.hasHead) ==>
        page.links == old(page.links) && lastApplied == old(lastApplied)
      ensures IsTruthy(currentFaviconUrl) && !old(AreIconsCorrect(currentFaviconUrl)) && old(page.hasHead) ==>
        && page.links == Installed(old(page.links), ToAbsoluteUrl(parser, currentFaviconUrl.value, old(page.location)))
        && lastApplied == old(page.location)
    {
      pendingReapply := false;
      if IsTruthy(currentFaviconUrl) && !AreIconsCorrect(currentFaviconUrl) {
        SafeApply(currentFaviconUrl);
      }
    }

    /** `onDomMutated`: a batch the observer receives. It is ignored while the guard is up;
        otherwise the first added icon link schedules a re-apply and ends the scan. */
    method DomMutated(mutations: seq<Mutation>)
      requires observing
      modifies this
      ensures old(suppressObserver) ==> unchanged(this)
      ensures !old(suppressObserver) ==>
        pendingReapply == (old(pendingReapply) || (AddsIconLink(mutations) && IsTruthy(currentFaviconUrl)))
      ensures currentFaviconUrl == old(currentFaviconUrl) && lastApplied == old(lastApplied)
      ensures suppressObserver == old(suppressObserver) && observing == old(observing)
      ensures historyPatched == old(historyPatched)
    {
      if suppressObserver {
        return;
      }
      var i := 0;
      while i < |mutations|
        invariant 0 <= i <= |mutations|
        invariant forall a, b ::
          (0 <= a < i && mutations[a].kind == "childList" && 0 <= b < |mutations[a].addedNodes|) ==>
          !IsIconLinkNode(mutations[a].addedNodes[b])
      {
        if mutations[i].kind == "childList" {
          var nodes := mutations[i].addedNodes;
          var j := 0;
          while j < |nodes|
            invariant 0 <= j <= |nodes|
            invariant forall b :: 0 <= b < j ==> !IsIconLinkNode(nodes[b])
          {
            var node := nodes[j];
            if node.nodeType == 1 && node.tagName == "LINK" {
              var rel := AsciiLower(node.rel.GetOr(""));
              if Contains(rel, "icon") {
                ScheduleReapply();
                return;
              }
            }
            j := j + 1;
          }
        }
        i := i + 1;
      }
    }

    /** `ensureObserver`: the observer is created at most once. */
    method EnsureObserver()
      modifies this
      ensures observing
      ensures currentFaviconUrl == old(currentFaviconUrl) && lastApplied == old(lastApplied)
      ensures suppressObserver == old(suppressObserver) && pendingReapply == old(pendingReapply)
      ensures historyPatched == old(historyPatched)
    {
      if observing {
        return;
      }
      observing := true;
    }

    /** `patchHistory`: the history hooks are installed at most once. */
    method PatchHistory()
      modifies this
      ensures historyPatched
      ensures currentFaviconUrl == old(currentFaviconUrl) && lastApplied == old(lastApplied)
      ensures suppressObserver == old(suppressObserver) && pendingReapply == old(pendingReapply)
      ensures observing == old(observing)
    {
      if historyPatched {
        return;
      }
      historyPatched := true;
    }

    /** `applyIfUrlChanged`: re-apply the desired URL when the location differs from the one last
        applied. */
    method ApplyIfUrlChanged()
      requires Idle()
      modifies this, page
      ensures Idle()
      ensures !(IsTruthy(old(currentFaviconUrl)) && old(lastApplied) != old(page.location)) ==>
        unchanged(this) && unchanged(page)
      ensures currentFaviconUrl == old(currentFaviconUrl) && pendingReapply == old(pendingReapply)
      ensures observing == old(observing) && historyPatched == old(historyPatched)
      ensures page.hasHead == old(page.hasHead) && page.location == old(page.location)
      ensures IsTruthy(currentFaviconUrl) && old(lastApplied) != page.location && page.hasHead ==>
        AreIconsCorrect(currentFaviconUrl)
      ensures IsTruthy(currentFaviconUrl) && old(AreIconsCorrect(currentFaviconUrl)) ==>
        page.links == old(page.links) && lastApplied == old(lastApplied)
      ensures (IsTruthy(currentFaviconUrl) && old(lastApplied) != page.location && page.hasHead &&
        !old(AreIconsCorrect(currentFaviconUrl))) ==>
        && page.links == Installed(old(page.links), ToAbsoluteUrl(parser, currentFaviconUrl.value, page.location))
        && lastApplied == page.location
      ensures !old(page.hasHead) ==> page.links == old(page.links) && lastApplied == old(lastApplied)
    {
      if IsTruthy(currentFaviconUrl) && lastApplied != page.location {
        Apply(currentFaviconUrl);
      }
    }

    /** A history change: the location moves, and the hooks, once installed, re-apply. Before
        `patchHistory` has run the controller does not notice. */
    method HistoryChanged(to: string)
      requires Idle()
      modifies this, page
      ensures Idle() && page.location == to && page.hasHead == old(page.hasHead)
      ensures !historyPatched ==> unchanged(this) && page.links == old(page.links)
      ensures currentFaviconUrl == old(currentFaviconUrl) && pendingReapply == old(pendingReapply)
      ensures observing == old(observing) && historyPatched == old(historyPatched)
      ensures historyPatched && IsTruthy(currentFaviconUrl) && old(lastApplied) != to && page.hasHead ==>
        AreIconsCorrect(currentFaviconUrl)
      ensures historyPatched && !(IsTruthy(currentFaviconUrl) && old(lastApplied) != to) ==>
        page.links == old(page.links) && lastApplied == old(lastApplied)
      ensures historyPatched && IsTruthy(currentFaviconUrl) && IconsCorrect(parser, old(page.links), to, currentFaviconUrl) ==>
        page.links == old(page.links) && lastApplied == old(lastApplied)
      ensures (historyPatched && IsTruthy(currentFaviconUrl) && old(lastApplied) != to && page.hasHead &&
        !IconsCorrect(parser, old(page.links), to, currentFaviconUrl)) ==>
        && page.links == Installed(old(page.links), ToAbsoluteUrl(parser, currentFaviconUrl.value, to))
        && lastApplied == to
      ensures !page.hasHead ==> page.links == old(page.links) && lastApplied == old(lastApplied)
    {
      page.Navigate(to);
      if historyPatched {
        ApplyIfUrlChanged();
      }
    }

    /** `window.__faviconSwitcherApply`: observer, history hooks, then `apply`. */
    method EntryApply(url: Option<string>)
      requires Idle()
      modifies this, page
      ensures Idle() && observing && historyPatched
      ensures pendingReapply == old(pendingReapply)
      ensures page.hasHead == old(page.hasHead) && page.location == old(page.location)
      ensures !IsTruthy(url) ==>
        && page.links == old(page.links) && currentFaviconUrl == old(currentFaviconUrl)
        && lastApplied == old(lastApplied)
      ensures IsTruthy(url) ==> currentFaviconUrl == url
      ensures IsTruthy(url) && old(AreIconsCorrect(url)) ==>
        page.links == old(page.links) && lastApplied == old(lastApplied)
      ensures !old(page.hasHead) ==> page.links == old(page.links) && lastApplied == old(lastApplied)
      ensures IsTruthy(url) && !old(AreIconsCorrect(url)) && old(page.hasHead) ==>
        && page.links == Installed(old(page.links), ToAbsoluteUrl(parser, url.value, old(page.location)))
        && lastApplied == old(page.location)
      ensures IsTruthy(url) && page.hasHead ==> AreIconsCorrect(url)
    {
      EnsureObserver();
      PatchHistory();
      Apply(url);
    }

    /** `window.__faviconSwitcherClear`: observer, then `clear`; history is never patched here. */
    method EntryClear()
      requires Idle()
      modifies this, page
      ensures Idle() && observing && historyPatched == old(historyPatched)
      ensures page.links == Cleared(old(page.links)) && currentFaviconUrl.None?
      ensures lastApplied == old(lastApplied) && pendingReapply == old(pendingReapply)
      ensures page.hasHead == old(page.hasHead) && page.location == old(page.location)
    {
      EnsureObserver();
      Clear();
    }
  }
}
