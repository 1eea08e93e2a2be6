# Favicon switcher, modelled in Dafny

This project models the browser extension that replaces a site's favicon. The model covers five
parts:

- **The rule resolver** (`common/matching.js`).
  - It gates URLs to HTTP(S) and validates favicon URLs.
  - It matches domain rules on the exact host.
  - It compiles Chrome-style match patterns into an anchored expression.
  - It ranks matching rules by specificity and picks the first best one.
- **The rule store** (`common/storage.js`): reading, upserting, deleting and replacing the stored
  rule list.
- **The options page's list logic** (`options/options.js`):
  - de-duplication;
  - the cleaning step of an import;
  - the edit dialog's save handler, with its index reconciliation.
- **The popup's decisions** (`popup/popup.js`):
  - the rule built from the form and its validation;
  - the upsert on save and on toggle;
  - the choice to apply or clear the icon in the tab.
- **The content-script controller** (`content/applyFavicon.js`). It installs the extension's
  `<link>` icons in a page and keeps them there. It reacts to DOM mutation batches, to a re-apply
  timer and to history changes.

Layout:

| file | module | contents |
|---|---|---|
| `wrappers.dfy` | `Wrappers` | `Option`, which stands for `undefined`/`null` |
| `url.dfy` | `Url` | the URL parser, as a pair of uninterpreted functions |
| `rules.dfy` | `Rules` | the rule record, JavaScript truthiness, `findIndex` |
| `seqs.dfy` | `Seqs` | `filter` and subsequences |
| `text.dfy` | `Text` | `startsWith`, `includes`, `split`/`join`, `trim`, ASCII lower-casing, UTF-16 length |
| `glob.dfy` | `Glob` | a token matcher that stands for the compiled regular expression |
| `matching.dfy` | `Matching` | the resolver |
| `storage.dfy` | `Storage` | the `RuleStore` class and the list functions that specify it |
| `options.dfy` | `Options` | de-duplication, import and the edit save |
| `popup.dfy` | `Popup` | the `PopupState` class and its decisions |
| `enforcement.dfy` | `Enforcement` | the `Page` and `Controller` classes |
| `enforcement_scenarios.dfy` | `EnforcementScenarios` | event sequences run against one controller |

## Modelling choices

- **Records.**
  - A rule's optional fields are `Option`s. `None` stands for a missing key and for `undefined`
    alike.
  - `===` on ids compares `None` with `None` as equal, as `undefined === undefined` does.
  - An object spread `{...a, ...b}` is modelled as taking each field from `b` when `b` has it,
    and from `a` otherwise. JavaScript also copies a field `b` holds with the value `undefined`.
    The model assumes no such field. One spread does meet one: popup/popup.js:185 sets
    `rule.id = existing.id`, which gives `rule` an own `id: undefined` when the found rule has no
    id, and `{...rules[index], ...rule}` (common/storage.js:26) then copies it. This is harmless:
    `findIndex` found that position by `r.id === undefined`, so the stored id is `undefined`
    already, and the merge's `None` for the id agrees with JavaScript's `undefined`. Every other
    patch is an object literal with every field set, or a rule read back from storage.
- **The specificity ranking.**
  - `pickBestRule`'s stable sort followed by `[0]` is modelled as the first position of maximal
    specificity among the matching rules.
  - Lengths are UTF-16 code-unit counts.
- **Match patterns.** Compiled patterns are token sequences, interpreted by the glob matcher in
  `Glob`.
  - `CompiledPatternIff` proves that this compiled form accepts exactly the URLs that fit an
    independent reference description of the pattern (`UrlFitsPattern`).
  - The regex `.` excludes the ECMAScript line terminators.
- **URL parsing and `getHost`.** The WHATWG URL parser enters as `Url.Parser`, a total function
  that returns `None` where the constructor throws.
- **The document.**
  - It is the list of its `<link>` elements in document order, plus a head flag and a location.
  - `link[rel*="icon"]` is matched on the ASCII-lower-cased `rel`.
  - A link's `href` reads back what was assigned. Assigning `null` stores `"null"`.
- **The browser's callbacks.**
  - Mutation delivery, the 100 ms timer and the history hooks are methods that the environment
    calls one at a time.
  - `Controller.Idle()` (the guard is down) holds between any two events.
  - Mutation batches arrive after the method that caused them has returned. So the
    `suppressObserver` guard is already down when a batch is delivered.
  - What ends the reaction to the controller's own insertion is the icon re-check in the timer
    body (`EnforcementScenarios.NoSelfTriggeredLoop`).
- **Clocks and identifiers.** `Date.now()` and `generateId()` are the parameters `now` and
  `generated`.
- **Where the specification and the code disagree, the model follows the code:**
  - `apply` does not repair an icon the host adds beside ours, because `areIconsCorrect` is an
    exists check.
  - A timer still pending when `clear` runs is not harmless (see Findings).
  - Rule ids are not unique: an import stores rules without an id, a popup save of a new rule
    overwrites the first of them, and deleting one of them from the options page deletes them all.
  - A pattern rule outranks a domain rule only while the domain value is shorter than 1000 plus
    the pattern's length.
  - A domain rule with an empty value matches every HTTP URL that the parser rejects.
  - A `*.suffix` host accepts exactly one dot-free label before the suffix (`[^.]+\.`), so
    `*://*.example.com/*` matches `a.example.com` but neither `example.com` nor
    `a.b.example.com` (`Matching.WildcardSubdomainRejectsTwoLabels`). Deeper subdomains are not
    covered by such a rule.

## Model

| member | source | states |
|---|---|---|
| Matching.HttpUrlIff | common/matching.js:1-6 | The HTTP gate accepts exactly the URLs that start, case-sensitively, with `http://` or `https://`. |
| Matching.FaviconUrlValidity | common/matching.js:16-25 | The empty string is never a valid favicon URL. A `data:` URL always is, whatever the parser does. Any other URL is valid exactly when it parses with protocol `http:` or `https:`. |
| Matching.ParsePattern | common/matching.js:34-36 | The pattern expression, when it matches, yields well-shaped parts whose source text is the pattern. |
| Matching.SchemeOf | common/matching.js:34 | The scheme group is `*`, `http`, `https` or nothing, and when present is followed by `://`. |
| Matching.ParseAfterScheme | common/matching.js:34-36 | The host and path groups are split at the first `/`, with a non-empty host. |
| Matching.ParsePatternComplete | common/matching.js:34-36 | Every well-shaped pattern is accepted and split back into exactly its parts. |
| Matching.CompiledPatternIff | common/matching.js:38-50 | The compiled anchored expression accepts a URL exactly when the URL splits into a scheme, `://`, a host and `/` plus a path that fit the pattern's scheme, host and path. |
| Matching.DoesRuleMatchUrl | common/matching.js:54-69 | A disabled rule or a non-HTTP URL never matches. A domain rule matches exactly on `getHost(url) == value`. A pattern rule matches exactly when its pattern parses and the URL fits it. Any other type never matches, and an undefined `enabled` counts as enabled. |
| Matching.DomainMatchIsExactHost | common/matching.js:58-60 | For an enabled domain rule and an HTTP URL, a match is host equality, with no subdomain expansion. |
| Matching.EmptyDomainMatchesUnparsableUrl | common/matching.js:8-14 | An empty domain value matches every HTTP URL the parser rejects, because `getHost` falls back to `""`. |
| Matching.RuleSpecificity | common/matching.js:71-77 | A domain rule scores 1000 plus its value's UTF-16 length and a pattern rule 2000 plus it. Every other type scores 0. |
| Matching.PickBy | common/matching.js:79-86 | Filtering, then taking the first element of the stable descending sort, yields nothing exactly when nothing is kept. Otherwise it yields the element at the unique first-best position. |
| Matching.FirstBestUnique | common/matching.js:84-85 | At most one position is a maximum with no earlier element as good. |
| Matching.PickOfTwo | common/matching.js:84-85 | Of two matching rules, the later one wins only when it scores strictly higher. |
| Matching.PickBestRule | common/matching.js:79-86 | Nothing is picked exactly when no rule matches; a non-array counts as no rules. Otherwise the pick is the matching rule of maximal specificity that comes first in input order. |
| Matching.PatternMatchImpliesHttpUrl | common/matching.js:38-56 | A URL that fits a well-shaped pattern already passes the HTTP gate. |
| Matching.LiteralHttpRejectsHttps | common/matching.js:38 | A pattern with the literal scheme `http` never matches an `https://` URL. |
| Matching.LiteralPatternMatchesExactly | common/matching.js:48-50 | Because the expression is anchored at both ends, a pattern without `*` matches exactly its own text. |
| Matching.LiteralHostExact | common/matching.js:40-43 | A host without `*` accepts only itself. |
| Matching.SuffixHostLength | common/matching.js:38-46 | Under a `*` scheme and a `*.suffix` host, the scheme read is 4 or 5 characters long and the host is at least as long as the pattern's host. |
| Matching.WildcardSubdomainRejectsBareDomain | common/matching.js:45-46 | `*://*.example.com/*` does not match `http://example.com/`. |
| Matching.WildcardSubdomainRejectsTwoLabels | common/matching.js:45-46 | `*://*.example.com/*` does not match `https://a.b.example.com/`: exactly one dot-free label must precede the suffix. |
| Matching.WildcardSubdomainAcceptsOneLabel | common/matching.js:45-48 | `*://*.example.com/*` matches every `http` or `https` URL whose host is one non-empty, dot-free label before `.example.com`, whatever its line-terminator-free path. `https://a.example.com/x` is one such URL. |
| Matching.PatternBeatsDomainOnlyBelowThreshold | common/matching.js:71-86 | With a domain rule and a pattern rule both matching, the pattern is picked exactly while the domain value is shorter than 1000 plus the pattern's length. When the domain rule comes second, the condition is "no longer than" instead, because of the stable tie order. |
| Rules.FindIndex | common/storage.js:23 | `findIndex` returns the first position that the probe hits, or -1 exactly when no position does. |
| Storage.Upserted | common/storage.js:21-37 | When some stored rule has the incoming id (two missing ids count as equal), the first such position is replaced by the merge. In the merge, defined incoming fields win and `updatedAt` is now. Otherwise exactly one rule is appended, with `id = id or generated` and both timestamps now. |
| Storage.RuleStore.GetRules | common/storage.js:3-9 | The stored value is returned when it is an array, and no rules otherwise. |
| Storage.RuleStore.UpsertRule | common/storage.js:21-37 | The list written and returned is the one `Upserted` describes, computed from what was read. |
| Storage.WithoutId | common/storage.js:39-44 | Deleting keeps a subsequence of the list: exactly the rules whose id differs, in their order, each as many times as it occurs. |
| Storage.RuleStore.DeleteRule | common/storage.js:39-44 | The list written and returned is the stored one without that id. |
| Storage.RuleStore.SetRules | common/storage.js:46-49 | The given list is written verbatim and returned. |
| Storage.DeleteUnknownId | common/storage.js:39-44 | Deleting an id that no rule carries leaves the list unchanged. |
| Storage.DeleteUndoesFreshUpsert | common/storage.js:21-44 | Upserting a rule under a new truthy id and then deleting that id gives back the original list. |
| Storage.DeleteWithoutIdRemovesEveryIdlessRule | common/storage.js:39-44 | Deleting with an undefined id removes every id-less rule and keeps every rule that has an id. |
| Storage.MergeTwice | common/storage.js:26 | Merging the same incoming rule twice at the same time is merging once. |
| Storage.UpsertTwiceWithId | common/storage.js:21-37 | A second upsert of the same rule, with a truthy id and no `createdAt`, at the same time, changes nothing. |
| Storage.AppendedRuleGetsGeneratedId | common/storage.js:27-34 | An appended rule without its own id gets the generated one. The earlier rules are unchanged, and both timestamps are now. |
| Storage.IdlessUpsertOverwritesFirstIdless | common/storage.js:23-26 | An id-less rule replaces the first id-less stored rule, keeping only a stored `enabled`/`createdAt` it does not override. The length and every other position are unchanged. |
| Storage.IdlessUpsertLosesStoredRule | common/storage.js:23-26 | The code as written: an id-less save into a list holding one id-less rule still has length 1, and the stored rule is gone. |
| Storage.UpsertedByTruthyId | common/storage.js:21-37 | Corrected upsert: a rule without a truthy id is always appended. |
| Storage.UpsertByTruthyIdKeepsIdsUnique | common/storage.js:21-37 | With a fresh generated id, the corrected upsert keeps all ids truthy and pairwise distinct. |
| Storage.UpsertsAgreeOnUniqueIds | common/storage.js:21-37 | On lists whose ids are truthy and unique, the written and the corrected upsert agree. |
| Options.DedupeRules | options/options.js:16-23 | The loop that fills the map and then reads its values in insertion order computes `Dedupe`. |
| Options.CollectValues | options/options.js:22 | Reading the map's values walks the keys in insertion order and yields the rule filed under each. |
| Options.DedupeKeepsFirstOfEachKey | options/options.js:16-23 | De-duplication returns a subsequence of its input with no key twice. It keeps the first rule of every key, and every key of the input is represented. |
| Options.DedupeIdempotent | options/options.js:16-23 | De-duplicating twice is de-duplicating once. |
| Options.DedupeFromDistinct | options/options.js:18-22 | A list with distinct keys, none of them already seen, passes unchanged. |
| Options.IdKeysApartFromValueKeys | options/options.js:19 | The key of a rule with a truthy id never equals the key of a rule without one. |
| Options.IdKeysEqualIffIdsEqual | options/options.js:19 | Two rules with truthy ids share a key exactly when their ids are equal. |
| Options.ValueKeysCanCollide | options/options.js:19 | Two different id-less rules whose fields contain `\|` can share a key, so only the first survives. |
| Options.ImportedRulesShape | options/options.js:87-99 | A non-array writes nothing. Otherwise one cleaned rule is stored per de-duplicated entry, in order: the type is `pattern` only for exactly `pattern`, a rule is disabled only for exactly `false`, value and favicon URL stay unchecked, a truthy id and a truthy `createdAt` are kept, and `updatedAt` is now. |
| Options.Cleaned | options/options.js:90-98 | A cleaned rule always has type `domain` or `pattern`, a defined `enabled`, and `updatedAt` now. |
| Options.CleanedIdempotent | options/options.js:90-98 | Cleaning an already cleaned rule at the same (non-zero) time changes nothing. |
| Options.ImportStoresIdlessRules | options/options.js:91 | An entry without a truthy id is stored without any id. |
| Options.ImportedIdsDistinct | options/options.js:89-91 | The ids an import stores are pairwise distinct. |
| Options.ImportRules | options/options.js:87-99 | The parsed data is written exactly as `ImportedRules` describes, and storage is left alone for a non-array. |
| Options.EditCheck | options/options.js:250-256 | The checks run in order: an empty trimmed value, then an invalid favicon URL when the source is URL, then a missing generated favicon otherwise. Each error is reported exactly under its condition. |
| Options.ReconcileIndex | options/options.js:273-295 | The imperative reconciliation of the dialog's index, with its reassignments of `idx`, computes `ReconciledIndex`. |
| Options.ReconciledIndex | options/options.js:273-295 | The dialog's index is kept while it still identifies the rule, by a truthy id or else by type, value and favicon URL. Otherwise the first match by id is taken (no earlier rule has the id), then the first by the triple (no earlier rule has it). The result is -1 exactly when neither exists, and an id match always wins. |
| Options.SaveUpdatesInPlace | options/options.js:303-313 | A save that writes changes only the reconciled position. It keeps that rule's id and `createdAt`, and sets type, value, favicon URL, enabled and `updatedAt`. |
| Options.SaveWritesOnlyWhenAllowed | options/options.js:250-301 | A write happens exactly when the checks pass, something changed and the rule is still found by id or by triple. |
| Options.SaveEdit | options/options.js:239-317 | The handler's outcome is `SaveOutcome` of what it read, and storage changes only when the outcome is a save. |
| Popup.RuleFromUi | popup/popup.js:46-58 | The rule built from the form has no id and no timestamps. It has the scope as type, the trimmed favicon input, and the given enabled default. Its value is the tab's host for a domain rule and the trimmed pattern input for any other scope. |
| Popup.ValidateRule | popup/popup.js:60-65 | `Missing domain` and `Missing pattern` are returned exactly for an empty value of that type. `Invalid favicon URL` is returned exactly when the value checks pass and the favicon URL is invalid. The empty string is returned exactly when the rule is accepted. |
| Popup.SavedRule | popup/popup.js:180-185 | A rule saved from the popup is always enabled (`checked \|\| true`) and carries the id of the rule found for the tab, if there is one. |
| Popup.AfterSave | popup/popup.js:195-203 | With a tab and a URL, the popup applies the re-resolved rule's icon exactly when that rule exists and has `enabled` true, and clears otherwise. |
| Popup.AfterToggle | popup/popup.js:213-221 | With a tab, the popup applies the toggled rule's icon exactly when it is now enabled, and clears otherwise. |
| Popup.SaveUpdatesFoundRule | popup/popup.js:185-186 | With unique truthy ids, saving under the found rule's id rewrites that rule in place and nothing else. |
| Popup.NewPopupRuleOverwritesIdlessRule | popup/popup.js:180-186 | A new popup rule, which has no id, overwrites the first id-less stored rule instead of being added. |
| Popup.PopupState.constructor | popup/popup.js:117-152 | Initialisation reads the tab URL (or `""`), its host, the stored rules and the best rule for the URL. |
| Popup.PopupState.Save | popup/popup.js:180-204 | An invalid rule writes nothing. Otherwise the store holds the upsert of the saved rule, the rules are re-read and re-resolved, and the tab action follows `AfterSave`. |
| Popup.PopupState.Toggle | popup/popup.js:206-222 | Without a found rule nothing happens: the store, the rules read, the found rule and the tab stay as they were. Otherwise the found rule is upserted with the new state, re-read and re-resolved, and the tab action follows `AfterToggle`. |
| Enforcement.ToAbsoluteUrl | content/applyFavicon.js:16-23 | `data:` URLs are returned unchanged. Other URLs are resolved against the location, or returned unchanged when resolution fails. |
| Enforcement.AbsoluteOrNull | content/applyFavicon.js:16-22 | `null` comes back as `null` through the catch. |
| Enforcement.RelsAreIcons | content/applyFavicon.js:2-28 | Each of the four installed rels is matched by `link[rel*="icon"]`. |
| Enforcement.InstalledShape | content/applyFavicon.js:38-63 | After `safeApply`, the non-icon links are the old ones in order. The only icon links are the four marked ones, last, with the fixed rels in order and all pointing at the resolved URL. Every host icon is gone. |
| Enforcement.InstalledShowsHref | content/applyFavicon.js:25-51 | After `safeApply(url)`, `areIconsCorrect(url)` holds. |
| Enforcement.InstalledIdempotent | content/applyFavicon.js:53-63 | Installing twice for the same URL is installing once. |
| Enforcement.ClearedKeepsHostLinks | content/applyFavicon.js:32-36 | `clear` keeps, in order, every link without the marker, and leaves no marked icon link. |
| Enforcement.ClearAfterInstallLeavesNoIcon | content/applyFavicon.js:32-40 | `clear` right after `safeApply` leaves no icon link at all. |
| Enforcement.ShowsBesideHostIcon | content/applyFavicon.js:29 | An icon link added beside one that already shows the URL does not make the icons wrong. |
| Enforcement.Page.RemoveSelected | content/applyFavicon.js:33-39 | Removing each selected element in turn leaves exactly the unselected links, in order. |
| Enforcement.Page.AppendChild | content/applyFavicon.js:49 | Appending adds the link at the end. |
| Enforcement.Controller.constructor | content/applyFavicon.js:9-14 | The initial state: no URL, nothing applied, no observer, no timer, no history hooks. |
| Enforcement.Controller.RemoveExistingIcons | content/applyFavicon.js:38-40 | Every icon link is removed and nothing else. |
| Enforcement.Controller.RemoveOurIconsOnly | content/applyFavicon.js:32-36 | Exactly the marked icon links are removed. |
| Enforcement.Controller.AddIconLinks | content/applyFavicon.js:42-51 | The four marked links are appended in rel order, all with the URL resolved against the current location. |
| Enforcement.Controller.SafeApply | content/applyFavicon.js:53-63 | Without a head nothing changes. Otherwise the document is `Installed` for the resolved URL, `lastApplied` is the location, and the guard is down again. |
| Enforcement.Controller.Apply | content/applyFavicon.js:65-70 | An empty or missing URL changes nothing. Otherwise it becomes the desired URL. No write happens when some icon already shows it; the icons are installed when none does. Afterwards, with a head, the icons are correct. |
| Enforcement.Controller.Clear | content/applyFavicon.js:72-80 | Exactly the marked icon links are removed and no URL is desired any more. `lastApplied` and a pending timer stay, and the guard is down again. |
| Enforcement.Controller.ScheduleReapply | content/applyFavicon.js:82-91 | A timer is pending afterwards exactly when one was already pending or a URL is desired, so at most one is ever pending. |
| Enforcement.Controller.TimerFires | content/applyFavicon.js:85-89 | The timer body as written: the timer is cleared, and `safeApply(currentFaviconUrl)` runs whenever the icons are not correct, even when no URL is desired. |
| Enforcement.Controller.TimerFiresGuarded | content/applyFavicon.js:85-89 | Corrected timer body: nothing is written once no URL is desired. Otherwise it behaves as written. |
| Enforcement.Controller.DomMutated | content/applyFavicon.js:93-108 | A batch is ignored while the guard is up. Otherwise a re-apply is scheduled exactly when some `childList` record adds a `LINK` element whose lower-cased `rel` contains `icon` and a URL is desired. |
| Enforcement.Controller.EnsureObserver | content/applyFavicon.js:110-117 | The observer exists afterwards, and nothing else changes. |
| Enforcement.Controller.PatchHistory | content/applyFavicon.js:119-121 | The hooks are installed afterwards, and nothing else changes. |
| Enforcement.Controller.ApplyIfUrlChanged | content/applyFavicon.js:122-126 | `apply(currentFaviconUrl)` runs only when a URL is desired and `lastApplied` differs from the location. Otherwise nothing changes. Correct icons or a page without a head leave the links and `lastApplied` alone. Otherwise the icons are reinstalled for the location, which becomes `lastApplied`. |
| Enforcement.Controller.HistoryChanged | content/applyFavicon.js:127-139 | The location moves. Without hooks nothing else happens. With hooks and a desired URL differing from the new location's `lastApplied`, the icons are reinstalled for the URL resolved against the new location, and `lastApplied` becomes it, unless they already showed it there or there is no head. Every other case leaves the links and `lastApplied` alone. |
| Enforcement.Controller.EntryApply | content/applyFavicon.js:142-150 | The observer and the hooks are set up, then `apply` runs. |
| Enforcement.Controller.EntryClear | content/applyFavicon.js:152-157 | The observer is set up, then `clear` runs. History stays unpatched. |
| EnforcementScenarios.NoSelfTriggeredLoop | content/applyFavicon.js:85-108 | After `apply`, any batch and the timer it may schedule leave the document exactly as `apply` left it. |
| EnforcementScenarios.OwnInsertionSchedules | content/applyFavicon.js:55-101 | The batch that reports the installed links does schedule a re-apply, because the guard is already down. |
| EnforcementScenarios.HostIconBesideOursStays | content/applyFavicon.js:25-89 | A host icon added beside ours stays, and nothing is rewritten. |
| EnforcementScenarios.TimerAfterClearWipesHostIcon | content/applyFavicon.js:72-89 | As written, a timer pending across `clear` removes the host's icon and installs four links to `"null"`. |
| EnforcementScenarios.TimerAfterClearGuardedKeepsHostIcon | content/applyFavicon.js:72-89 | With the corrected timer, the same events leave the document as `clear` left it. |
| EnforcementScenarios.NavigationReapplies | content/applyFavicon.js:122-139 | With the hooks installed, navigating to a new location leaves icons that are correct for the URL resolved against the new location. |
| EnforcementScenarios.ClearEntryIgnoresNavigation | content/applyFavicon.js:152-157 | After `__faviconSwitcherClear` on a fresh page, a navigation changes no link. |
| EnforcementScenarios.EmptyApplyOnlySetsUp | content/applyFavicon.js:66-150 | An empty or missing URL sets up the observer and the hooks and leaves the document alone. |
| EnforcementScenarios.NoHeadNoWrite | content/applyFavicon.js:54 | On a page without a head, `apply` writes nothing. |

## Left out

- The `chrome.*` calls are not modelled: storage get/set, tabs, script injection and runtime
  listeners. Storage is the single `RuleStore.stored` value, and an injection is a call of
  `EntryApply`/`EntryClear`.
- background/service-worker.js is not part of this model. It only composes the resolver with
  injection.
- URL parsing (the WHATWG URL Standard) is an uninterpreted `Url.Parser`. The `href` read back
  from a link is assumed to equal the string assigned.
- The JavaScript regular-expression engine is replaced by the token matcher in `Glob`.
  `escapeRegex` is implicit: every escaped character becomes a literal token.
- Random favicon generation (options/options.js:104-160) is not modelled. It uses canvas, random
  numbers and floating point; the edit form receives its result as `dataUrl`.
- `Date.now()` and `generateId()` are parameters. Options.ImportedRulesShape: one import uses a
  single time for every rule, where the source reads the clock per field.
- The UI is not modelled: rendering, messages, modals, previews, `window.location.reload`, the
  options page's row toggle and delete handlers (options/options.js:39-47) and the popup's delete
  handler (popup/popup.js:224-236). The store operations they call are modelled.
- Asynchrony is not modelled: `await`, the timer delay and mutation delivery become separate
  events. Each event is assumed to run to completion before the next.
- The try/catch around the entry points is not modelled because nothing in the model throws.
- Only one controller instance is modelled. Each injection of the script makes a fresh one, and
  the older observers, history hooks and pending timers stay live. So a popup clear, which
  re-injects before calling `clear`, does not reach the instance of an earlier `apply`, whose
  pending timer then reinstalls its URL; the model does not capture this.
- The document keeps appended links at the end of its link list. Links in the body that follow
  the head are not told apart from links in the head.
- Imported fields are assumed to be strings already. `String(x || "")` on non-string values is
  not modelled, and neither is the mapping of non-string inputs to `undefined`. Every imported
  entry is assumed to be an object: `dedupeRules` reads `r.id` on each one
  (options/options.js:19), so a `null` entry would throw there, and that error path is not modelled.
- `Matching.IsHttpUrl`, `Matching.IsValidFaviconUrl` and `Popup.ValidateRule` take strings. Their
  `typeof` checks on non-strings are left out.
- `toLowerCase` in `onDomMutated` is modelled as ASCII lower-casing.

## Findings

| source | as written | input that shows it | evidently intended | confidence | as-written member | corrected member |
|---|---|---|---|---|---|---|
| content/applyFavicon.js:85-89 | The timer body re-checks the icons but not `currentFaviconUrl`, and `areIconsCorrect(null)` is false. So a timer still pending when `clear()` runs calls `safeApply(null)`. | A page with a head. `apply(u)` and then `clear()` reach the same controller instance within 100 ms: `apply(u)` runs, the host page adds its own icon link, which schedules a re-apply, `clear()` runs, and the timer fires. It removes the host's icon and installs four links to `"null"`. In the extension both calls reach one instance only when two injections interleave (the service worker's and the popup's). In the ordinary popup flow `clear` runs on a freshly injected instance, and the older instance's timer reinstalls `u` instead; that cross-instance case is outside the single-instance model. | After `clear`, the timer does nothing, and the host's icons stay. | not executed | EnforcementScenarios.TimerAfterClearWipesHostIcon | EnforcementScenarios.TimerAfterClearGuardedKeepsHostIcon |
| common/storage.js:23 | `r.id === rule.id` is true for two missing ids. So an upsert without an id (a new rule saved from the popup) overwrites the first stored rule without an id (import stores such rules, options/options.js:91) instead of being appended. | The stored list `[s]` with `s.id` undefined, and a new popup rule `r` with a different value. The saved list is `[merge(s, r)]`, and `s` is lost. | Only a truthy id looks up an existing rule. A rule without one is appended under a generated id. | not executed | Storage.IdlessUpsertLosesStoredRule | Storage.UpsertByTruthyIdKeepsIdsUnique |

The corrected timer is `Enforcement.Controller.TimerFiresGuarded`; the corrected upsert is
`Storage.UpsertedByTruthyId`. `Storage.UpsertsAgreeOnUniqueIds` shows that the two upserts
differ only on lists that already hold an id that is missing, empty or repeated. The store
itself (`Storage.RuleStore.UpsertRule`) follows the code as written, since that is what the
popup and the options page call.
