/** The decision logic of popup/popup.js: the rule built from the form, its validation, and what
    the popup does in the tab after a save or a toggle. The tab, the form's inputs and the clock
    are parameters; the page injection itself is not modelled. */
module Popup {
  import opened Wrappers
  import opened Text
  import opened Rules
  import opened Storage
  import Matching
  import Url

  /** `ruleFromUi`: a domain rule takes the tab's host (already a string, so `host || ""` is the
      host itself), a pattern rule the trimmed pattern input; the rule has no id and no timestamps. */
  function RuleFromUi(scope: string, host: string, faviconInput: string, patternInput: string, enabledDefault: bool): (r: Rule)
    ensures r.id.None? && r.createdAt.None? && r.updatedAt.None?
    ensures r.kind == scope && r.faviconUrl == Trim(faviconInput) && r.enabled == Some(enabledDefault)
    ensures scope == "domain" ==> r.value == host
    ensures scope != "domain" ==> r.value == Trim(patternInput)
  {
    Rule(None, scope, if scope == "domain" then host else Trim(patternInput), Trim(faviconInput), Some(enabledDefault), None, None)
  }

  /** `validateRule`: the empty string accepts the rule; the value checks come before the favicon
      check. */
  function ValidateRule(parser: Url.Parser, rule: Rule): (err: string)
    ensures err == "Missing domain" <==> rule.kind == "domain" && rule.value == ""
    ensures err == "Missing pattern" <==> rule.kind == "pattern" && rule.value == ""
    ensures err == "Invalid favicon URL" <==>
      !(rule.kind in {"domain", "pattern"} && rule.value == "") && !Matching.IsValidFaviconUrl(parser, rule.faviconUrl)
    ensures err == "" <==>
      !(rule.kind in {"domain", "pattern"} && rule.value == "") && Matching.IsValidFaviconUrl(parser, rule.faviconUrl)
  {
    if rule.kind == "domain" && rule.value == "" then "Missing domain"
    else if rule.kind == "pattern" && rule.value == "" then "Missing pattern"
    else if !Matching.IsValidFaviconUrl(parser, rule.faviconUrl) then "Invalid favicon URL"
    else ""
  }

  /** Validation looks at the type, the value and the favicon URL only. */
  lemma ValidationReadsFields(parser: Url.Parser, a: Rule, b: Rule)
    requires a.kind == b.kind && a.value == b.value && a.faviconUrl == b.faviconUrl
    ensures ValidateRule(parser, a) == ValidateRule(parser, b)
  {
  }

  /** The rule the save handler upserts: the form's rule, always enabled (the switch value `|| true`),
      carrying the id of the rule the popup found for the tab, when there is one. */
  function SavedRule(scope: string, host: string, faviconInput: string, patternInput: string,
                     switchChecked: bool, existing: Option<Rule>): (r: Rule)
    ensures r.enabled == Some(true)
    ensures existing.Some? ==> r.id == existing.value.id
    ensures existing.None? ==> r.id.None?
  {
    var rule := RuleFromUi(scope, host, faviconInput, patternInput, switchChecked || true);
    if existing.Some? then rule.(id := existing.value.id) else rule
  }

  /** What the popup does in the tab. */
  datatype TabAction = ApplyIcon(faviconUrl: string) | ClearIcon | NoTabAction

  /** After a save: with a tab and a URL, apply the re-resolved rule's icon when that rule exists
      and `enabled` is truthy, else clear. */
  function AfterSave(best: Option<Rule>, hasTab: bool, url: string): (action: TabAction)
    ensures action.ApplyIcon? <==> hasTab && url != "" && best.Some? && best.value.enabled == Some(true)
    ensures action.ApplyIcon? ==> action.faviconUrl == best.value.faviconUrl
    ensures action.ClearIcon? <==> hasTab && url != "" && !(best.Some? && best.value.enabled == Some(true))
  {
    if hasTab && url != "" then
      if best.Some? && best.value.enabled == Some(true) then ApplyIcon(best.value.faviconUrl) else ClearIcon
    else NoTabAction
  }

  /** After a toggle: with a tab, apply the toggled rule's icon when it is now enabled, else clear;
      the URL is not consulted and neither is the re-resolved rule. */
  function AfterToggle(updated: Rule, hasTab: bool): (action: TabAction)
    ensures action.ApplyIcon? <==> hasTab && updated.enabled == Some(true)
    ensures action.ApplyIcon? ==> action.faviconUrl == updated.faviconUrl
    ensures action.ClearIcon? <==> hasTab && updated.enabled != Some(true)
  {
    if hasTab then
      if updated.enabled == Some(true) then ApplyIcon(updated.faviconUrl) else ClearIcon
    else NoTabAction
  }

  /** With truthy unique ids, saving under the id of the rule at position `k` (the one the popup
      found) rewrites that rule in place and nothing else. */
  lemma SaveUpdatesFoundRule(rules: seq<Rule>, k: int, rule: Rule, now: int, generated: string)
    requires UniqueIds(rules) && 0 <= k < |rules| && rule.id == rules[k].id
    ensures Upserted(rules, rule, now, generated) == rules[k := Merge(rules[k], rule, now)]
  {
    assert FindIndex(rules, ById(rule.id)) == k;
  }

  /** A new rule saved from the popup has no id, so, as written, it overwrites the first stored
      rule without an id (one an import left) instead of being added. */
  lemma NewPopupRuleOverwritesIdlessRule(rules: seq<Rule>, i: int, scope: string, host: string,
                                         faviconInput: string, patternInput: string, switchChecked: bool,
                                         now: int, generated: string)
    requires 0 <= i < |rules| && rules[i].id.None? && forall k :: 0 <= k < i ==> rules[k].id.Some?
    ensures var saved := Upserted(rules, SavedRule(scope, host, faviconInput, patternInput, switchChecked, None), now, generated);
      && |saved| == |rules|
      && saved[i].value == RuleFromUi(scope, host, faviconInput, patternInput, true).value
      && forall k :: 0 <= k < |rules| && k != i ==> saved[k] == rules[k]
  {
    var rule := SavedRule(scope, host, faviconInput, patternInput, switchChecked, None);
    IdlessUpsertOverwritesFirstIdless(rules, rule, now, generated, i);
  }

  /** The popup's state: the tab it was opened on, the rules it last read and the rule it found. */
  class PopupState {
    const parser: Url.Parser
    const store: RuleStore
    const url: string
    const host: string
    const hasTab: bool
    var rules: seq<Rule>
    var existing: Option<Rule>

    /** `init` up to the handlers: the tab's URL (or ""), its host, the stored rules and the best
        rule for the URL. */
    constructor (parser: Url.Parser, store: RuleStore, tabUrl: Option<string>, hasTab: bool)
      ensures this.parser == parser && this.store == store && this.hasTab == hasTab
      ensures url == tabUrl.GetOr("") && host == Matching.GetHost(parser, url)
      ensures rules == AsArray(store.stored)
      ensures existing == Matching.PickBestRule(parser, RuleArray(rules), url)
    {
      this.parser := parser;
      this.store := store;
      this.hasTab := hasTab;
      var u := tabUrl.GetOr("");
      url := u;
      host := Matching.GetHost(parser, u);
      var read := store.GetRules();
      rules := read;
      existing := Matching.PickBestRule(parser, RuleArray(read), u);
    }

    /** The save handler: validate, upsert under the found rule's id, re-read, re-resolve, and
        apply or clear in the tab. */
    method Save(scope: string, faviconInput: string, patternInput: string, switchChecked: bool, now: int, generated: string)
      returns (err: string, action: TabAction)
      modifies this, store
      ensures var rule := SavedRule(scope, host, faviconInput, patternInput, switchChecked, old(existing));
        && err == ValidateRule(parser, rule)
        && (err != "" ==> store.stored == old(store.stored) && rules == old(rules) && existing == old(existing) && action == NoTabAction)
        && (err == "" ==>
              && store.stored == RuleArray(Upserted(AsArray(old(store.stored)), rule, now, generated))
              && rules == AsArray(store.stored)
              && existing == Matching.PickBestRule(parser, RuleArray(rules), url)
              && action == AfterSave(existing, hasTab, url))
    {
      var rule := RuleFromUi(scope, host, faviconInput, patternInput, switchChecked || true);
      ghost var saved := SavedRule(scope, host, faviconInput, patternInput, switchChecked, existing);
      err := ValidateRule(parser, rule);
      ValidationReadsFields(parser, rule, saved);
      if err != "" {
        action := NoTabAction;
        return;
      }
      if existing.Some? {
        rule := rule.(id := existing.value.id);
      }
      assert rule == saved;
      var _ := store.UpsertRule(rule, now, generated);
      rules := store.GetRules();
      existing := Matching.PickBestRule(parser, RuleArray(rules), url);
      action := AfterSave(existing, hasTab, url);
    }

    /** The enabled switch's handler: without a found rule nothing happens; otherwise the found
        rule is upserted with the new state, the rules are re-read and re-resolved, and the tab
        follows the switch. */
    method Toggle(checked: bool, now: int, generated: string) returns (action: TabAction)
      modifies this, store
      ensures old(existing).None? ==>
        store.stored == old(store.stored) && rules == old(rules) && existing == old(existing) && action == NoTabAction
      ensures old(existing).Some? ==>
        var updated := old(existing).value.(enabled := Some(checked));
        && store.stored == RuleArray(Upserted(AsArray(old(store.stored)), updated, now, generated))
        && rules == AsArray(store.stored)
        && existing == Matching.PickBestRule(parser, RuleArray(rules), url)
        && action == AfterToggle(updated, hasTab)
    {
      if existing.None? {
        return NoTabAction;
      }
      var updated := existing.value.(enabled := Some(checked));
      var _ := store.UpsertRule(updated, now, generated);
      rules := store.GetRules();
      existing := Matching.PickBestRule(parser, RuleArray(rules), url);
      action := AfterToggle(updated, hasTab);
    }
  }
}
