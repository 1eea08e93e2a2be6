/** Event sequences run against one controller on one page, each ending in a statement about the
    links the page is left with. */
module EnforcementScenarios {
  import opened Wrappers
  import opened Rules
  import opened Enforcement
  import Url

  /** No self-triggered loop: after `apply`, whatever batch the observer then receives (in
      particular the one reporting our own four links), the timer it may schedule finds the
      icons correct and writes nothing. */
  method NoSelfTriggeredLoop(parser: Url.Parser, location: string, links: seq<Link>, url: string,
                             batch: seq<Mutation>)
    returns (applied: seq<Link>, settled: seq<Link>)
    requires url != ""
    ensures Shows(applied, ToAbsoluteUrl(parser, url, location))
    ensures settled == applied
  {
    var page := new Page(true, location, links);
    var c := new Controller(page, parser);
    c.EntryApply(Some(url));
    applied := page.links;
    c.DomMutated(batch);
    if c.pendingReapply {
      c.TimerFires();
    }
    settled := page.links;
  }

  /** The batch reporting the four links `safeApply` inserted does schedule a re-apply: the
      guard is down again by the time it is delivered. */
  method OwnInsertionSchedules(parser: Url.Parser, location: string, url: string)
    returns (scheduled: bool)
    requires url != ""
    ensures scheduled
  {
    var page := new Page(true, location, []);
    var c := new Controller(page, parser);
    c.EntryApply(Some(url));
    var ours := page.links;
    RelsAreIcons(ToAbsoluteUrl(parser, url, location));
    assert ours[0] == Link(Rels[0], ToAbsoluteUrl(parser, url, location), true);
    var batch := [Mutation("childList", [NodeOf(ours[0]), NodeOf(ours[1]), NodeOf(ours[2]), NodeOf(ours[3])])];
    assert IsIconLinkNode(batch[0].addedNodes[0]);
    c.DomMutated(batch);
    scheduled := c.pendingReapply;
  }

  /** The exists check: an icon link the host page adds beside ours is reported, but the timer
      finds ours still present and leaves the host's in place. */
  method HostIconBesideOursStays(parser: Url.Parser, location: string, links: seq<Link>, url: string,
                                 host: Link)
    returns (applied: seq<Link>, settled: seq<Link>)
    requires url != "" && IsIcon(host)
    ensures settled == applied + [host]
  {
    var page := new Page(true, location, links);
    var c := new Controller(page, parser);
    c.EntryApply(Some(url));
    applied := page.links;
    page.AppendChild(host);
    ShowsBesideHostIcon(applied, host, ToAbsoluteUrl(parser, url, location));
    var batch := [Mutation("childList", [NodeOf(host)])];
    assert IsIconLinkNode(batch[0].addedNodes[0]);
    c.DomMutated(batch);
    c.TimerFires();
    settled := page.links;
  }

  /** The timer as written, firing after `clear`: a re-apply scheduled by a host icon is still
      pending when the popup clears, and the timer then runs `safeApply(null)`, which removes the
      host's icon and installs four links to `"null"`. */
  method TimerAfterClearWipesHostIcon(parser: Url.Parser, location: string, links: seq<Link>, url: string,
                                      host: Link)
    returns (cleared: seq<Link>, after: seq<Link>)
    requires url != "" && IsIcon(host) && !host.marked
    ensures host in cleared && host !in after
    ensures after == Installed(cleared, "null")
  {
    var page := new Page(true, location, links);
    var c := new Controller(page, parser);
    c.EntryApply(Some(url));
    page.AppendChild(host);
    var batch := [Mutation("childList", [NodeOf(host)])];
    assert IsIconLinkNode(batch[0].addedNodes[0]);
    c.DomMutated(batch);
    c.EntryClear();
    cleared := page.links;
    ClearedKeepsHostLinks(cleared);
    assert host in cleared;
    c.TimerFires();
    after := page.links;
    InstalledShape(cleared, "null");
  }

  /** The same events with the guarded timer: after `clear` the timer changes nothing and the
      host's icon stays. */
  method TimerAfterClearGuardedKeepsHostIcon(parser: Url.Parser, location: string, links: seq<Link>,
                                             url: string, host: Link)
    returns (cleared: seq<Link>, after: seq<Link>)
    requires url != "" && IsIcon(host) && !host.marked
    ensures host in cleared && after == cleared
  {
    var page := new Page(true, location, links);
    var c := new Controller(page, parser);
    c.EntryApply(Some(url));
    page.AppendChild(host);
    var batch := [Mutation("childList", [NodeOf(host)])];
    assert IsIconLinkNode(batch[0].addedNodes[0]);
    c.DomMutated(batch);
    c.EntryClear();
    cleared := page.links;
    ClearedKeepsHostLinks(cleared);
    c.TimerFiresGuarded();
    after := page.links;
  }

  /** With the hooks installed, a navigation to a new location re-applies, and the icons are
      correct for the URL as resolved against the new location. */
  method NavigationReapplies(parser: Url.Parser, location: string, links: seq<Link>, url: string,
                             to: string)
    returns (after: seq<Link>)
    requires url != "" && to != "" && to != location
    ensures Shows(after, ToAbsoluteUrl(parser, url, to))
  {
    var page := new Page(true, location, links);
    var c := new Controller(page, parser);
    c.EntryApply(Some(url));
    c.HistoryChanged(to);
    after := page.links;
  }

  /** `__faviconSwitcherClear` on a fresh page never patches history, so no navigation ever
      re-applies: the links stay as the clear left them. */
  method ClearEntryIgnoresNavigation(parser: Url.Parser, location: string, links: seq<Link>, to: string)
    returns (cleared: seq<Link>, after: seq<Link>)
    ensures cleared == Cleared(links) && after == cleared
  {
    var page := new Page(true, location, links);
    var c := new Controller(page, parser);
    c.EntryClear();
    cleared := page.links;
    c.HistoryChanged(to);
    after := page.links;
  }

  /** `apply` with an empty or missing URL still sets up the observer and the history hooks but
      leaves the document alone. */
  method EmptyApplyOnlySetsUp(parser: Url.Parser, location: string, links: seq<Link>, url: Option<string>)
    returns (after: seq<Link>, observing: bool, patched: bool)
    requires !IsTruthy(url)
    ensures after == links && observing && patched
  {
    var page := new Page(true, location, links);
    var c := new Controller(page, parser);
    c.EntryApply(url);
    after := page.links;
    observing := c.observing;
    patched := c.historyPatched;
  }

  /** Without a head nothing is ever written, whatever is applied. */
  method NoHeadNoWrite(parser: Url.Parser, location: string, links: seq<Link>, url: string)
    returns (after: seq<Link>)
    ensures after == links
  {
    var page := new Page(false, location, links);
    var c := new Controller(page, parser);
    c.EntryApply(Some(url));
    after := page.links;
  }
}
