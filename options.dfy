/** The rule-list logic of options/options.js: de-duplication, the cleaning of imported rules and
    the save handler of the edit dialog. Forms are passed in as values; rendering, messages and the
    page reload are not modelled. */
module Options {
  import opened Wrappers
  import opened Text
  import opened Seqs
  import opened Rules
  import opened Storage
  import Matching
  import Url

  // ----- De-duplication -----------------------------------------------------------------------

  /** The key `dedupeRules` files a rule under: `id:` and the id when the id is truthy, else `vk:`
      and type, value and favicon URL joined by `|`. */
  function DedupeKey(r: Rule): string {
    if IsTruthy(r.id) then "id:" + r.id.value
    else "vk:" + r.kind + "|" + r.value + "|" + r.faviconUrl
  }

  /** No two rules of `rules` share a key. */
  predicate DistinctKeys(rules: seq<Rule>) {
    forall i, j :: 0 <= i < j < |rules| ==> DedupeKey(rules[i]) != DedupeKey(rules[j])
  }

  /** The rules of `rules` whose key is neither in `seen` nor the key of an earlier rule. */
  function DedupeFrom(rules: seq<Rule>, seen: set<string>): seq<Rule>
    decreases |rules|
  {
    if rules == [] then []
    else if DedupeKey(rules[0]) in seen then DedupeFrom(rules[1..], seen)
    else [rules[0]] + DedupeFrom(rules[1..], seen + {DedupeKey(rules[0])})
  }

  /** What `dedupeRules` returns: the first rule of each key, in the order of first occurrence. */
  function Dedupe(rules: seq<Rule>): seq<Rule> {
    DedupeFrom(rules, {})
  }

  /** What `DedupeFrom` keeps is a subsequence of its input. */
  lemma {:induction false} DedupeFromSubsequence(rules: seq<Rule>, seen: set<string>)
    ensures IsSubsequence(DedupeFrom(rules, seen), rules)
    decreases |rules|
  {
    if rules != [] {
      var k := DedupeKey(rules[0]);
      if k in seen {
        DedupeFromSubsequence(rules[1..], seen);
      } else {
        DedupeFromSubsequence(rules[1..], seen + {k});
        assert ([rules[0]] + DedupeFrom(rules[1..], seen + {k}))[1..] == DedupeFrom(rules[1..], seen + {k});
      }
    }
  }

  /** No key of `seen` survives. */
  lemma {:induction false} DedupeFromAvoidsSeen(rules: seq<Rule>, seen: set<string>)
    ensures forall x :: x in DedupeFrom(rules, seen) ==> DedupeKey(x) !in seen
    decreases |rules|
  {
    if rules != [] {
      var k := DedupeKey(rules[0]);
      if k in seen {
        DedupeFromAvoidsSeen(rules[1..], seen);
      } else {
        DedupeFromAvoidsSeen(rules[1..], seen + {k});
      }
    }
  }

  /** No key survives twice. */
  lemma {:induction false} DedupeFromDistinctKeys(rules: seq<Rule>, seen: set<string>)
    ensures DistinctKeys(DedupeFrom(rules, seen))
    decreases |rules|
  {
    if rules != [] {
      var k := DedupeKey(rules[0]);
      if k in seen {
        DedupeFromDistinctKeys(rules[1..], seen);
      } else {
        var rest := DedupeFrom(rules[1..], seen + {k});
        DedupeFromDistinctKeys(rules[1..], seen + {k});
        DedupeFromAvoidsSeen(rules[1..], seen + {k});
        var out := [rules[0]] + rest;
        forall i, j | 0 <= i < j < |out|
          ensures DedupeKey(out[i]) != DedupeKey(out[j])
        {
          assert out[j] == rest[j - 1] && out[j] in rest;
          if i > 0 {
            assert out[i] == rest[i - 1];
          }
        }
      }
    }
  }

  /** The first rule of every key not in `seen` survives. */
  lemma {:induction false} DedupeFromKeepsFirst(rules: seq<Rule>, seen: set<string>)
    ensures forall i :: 0 <= i < |rules| && DedupeKey(rules[i]) !in seen
                        && (forall j :: 0 <= j < i ==> DedupeKey(rules[j]) != DedupeKey(rules[i]))
                        ==> rules[i] in DedupeFrom(rules, seen)
    decreases |rules|
  {
    if rules != [] {
      var k := DedupeKey(rules[0]);
      var tail := rules[1..];
      var seen' := if k in seen then seen else seen + {k};
      DedupeFromKeepsFirst(tail, seen');
      forall i | 0 < i < |rules| && DedupeKey(rules[i]) !in seen
                 && (forall j :: 0 <= j < i ==> DedupeKey(rules[j]) != DedupeKey(rules[i]))
        ensures rules[i] in DedupeFrom(rules, seen)
      {
        assert tail[i - 1] == rules[i];
        assert DedupeKey(rules[0]) != DedupeKey(rules[i]);
        forall j | 0 <= j < i - 1
          ensures DedupeKey(tail[j]) != DedupeKey(tail[i - 1])
        {
          assert tail[j] == rules[j + 1];
        }
      }
    }
  }

  /** Every key met and not in `seen` has a surviving rule. */
  lemma {:induction false} DedupeFromCovers(rules: seq<Rule>, seen: set<string>)
    ensures forall i :: 0 <= i < |rules| && DedupeKey(rules[i]) !in seen
                        ==> exists x :: x in DedupeFrom(rules, seen) && DedupeKey(x) == DedupeKey(rules[i])
    decreases |rules|
  {
    if rules != [] {
      var k := DedupeKey(rules[0]);
      var tail := rules[1..];
      var seen' := if k in seen then seen else seen + {k};
      DedupeFromCovers(tail, seen');
      forall i | 0 < i < |rules| && DedupeKey(rules[i]) !in seen
        ensures exists x :: x in DedupeFrom(rules, seen) && DedupeKey(x) == DedupeKey(rules[i])
      {
        assert tail[i - 1] == rules[i];
        if DedupeKey(rules[i]) != k {
          var x :| x in DedupeFrom(tail, seen') && DedupeKey(x) == DedupeKey(tail[i - 1]);
          assert x in DedupeFrom(rules, seen);
        }
      }
    }
  }

  /** `dedupeRules` keeps a subsequence of its input with no key twice, and it keeps the first rule
      of every key. */
  lemma DedupeKeepsFirstOfEachKey(rules: seq<Rule>)
    ensures IsSubsequence(Dedupe(rules), rules)
    ensures DistinctKeys(Dedupe(rules))
    ensures forall i :: 0 <= i < |rules| && (forall j :: 0 <= j < i ==> DedupeKey(rules[j]) != DedupeKey(rules[i]))
                        ==> rules[i] in Dedupe(rules)
    ensures forall i :: 0 <= i < |rules| ==> exists x :: x in Dedupe(rules) && DedupeKey(x) == DedupeKey(rules[i])
  {
    DedupeFromSubsequence(rules, {});
    DedupeFromDistinctKeys(rules, {});
    DedupeFromKeepsFirst(rules, {});
    DedupeFromCovers(rules, {});
  }

  /** A list with distinct keys, none of them seen, passes unchanged. */
  lemma {:induction false} DedupeFromDistinct(rules: seq<Rule>, seen: set<string>)
    requires DistinctKeys(rules) && forall x :: x in rules ==> DedupeKey(x) !in seen
    ensures DedupeFrom(rules, seen) == rules
    decreases |rules|
  {
    if rules != [] {
      var tail, k := rules[1..], DedupeKey(rules[0]);
      DistinctTail(rules, seen);
      DedupeFromDistinct(tail, seen + {k});
      DedupeFromStep(rules, 0, seen);
      assert rules[0..] == rules == [rules[0]] + tail;
    }
  }

  /** Behind its first rule, a list with distinct unseen keys has distinct keys, none of them
      seen or the first rule's. */
  lemma DistinctTail(rules: seq<Rule>, seen: set<string>)
    requires rules != [] && DistinctKeys(rules) && forall x :: x in rules ==> DedupeKey(x) !in seen
    ensures DedupeKey(rules[0]) !in seen
    ensures DistinctKeys(rules[1..])
    ensures forall x :: x in rules[1..] ==> DedupeKey(x) !in seen + {DedupeKey(rules[0])}
  {
    var tail := rules[1..];
    assert rules[0] in rules;
    forall x | x in tail
      ensures DedupeKey(x) !in seen + {DedupeKey(rules[0])}
    {
      var j :| 0 <= j < |tail| && tail[j] == x;
      assert rules[j + 1] == x && x in rules;
    }
    forall i, j | 0 <= i < j < |tail|
      ensures DedupeKey(tail[i]) != DedupeKey(tail[j])
    {
      assert tail[i] == rules[i + 1] && tail[j] == rules[j + 1];
    }
  }

  /** `dedupeRules` is idempotent. */
  lemma DedupeIdempotent(rules: seq<Rule>)
    ensures Dedupe(Dedupe(rules)) == Dedupe(rules)
  {
    DedupeFromDistinctKeys(rules, {});
    DedupeFromDistinct(Dedupe(rules), {});
  }

  /** A key of a rule with a truthy id never equals a key of a rule without one. */
  lemma IdKeysApartFromValueKeys(a: Rule, b: Rule)
    requires IsTruthy(a.id) && !IsTruthy(b.id)
    ensures DedupeKey(a) != DedupeKey(b)
  {
    assert DedupeKey(a)[0] == 'i' && DedupeKey(b)[0] == 'v';
  }

  /** Two rules with truthy ids share a key exactly when their ids are equal. */
  lemma IdKeysEqualIffIdsEqual(a: Rule, b: Rule)
    requires IsTruthy(a.id) && IsTruthy(b.id)
    ensures DedupeKey(a) == DedupeKey(b) <==> a.id == b.id
  {
    if DedupeKey(a) == DedupeKey(b) {
      assert a.id.value == DedupeKey(a)[3..] && b.id.value == DedupeKey(b)[3..];
    }
  }

  /** The value key joins three strings with `|`, so a `|` inside a value or favicon URL can make
      two different id-less rules collide: only one of them survives de-duplication. */
  lemma ValueKeysCanCollide(a: Rule, b: Rule)
    requires a.id.None? && b.id.None? && a.kind == b.kind
    requires a.value == "x|y" && a.faviconUrl == "z" && b.value == "x" && b.faviconUrl == "y|z"
    ensures a.value != b.value && DedupeKey(a) == DedupeKey(b)
    ensures Dedupe([a, b]) == [a]
  {
    assert a.value != b.value by {
      assert |a.value| == 3 && |b.value| == 1;
    }
    var tag := "vk:" + a.kind + "|";
    assert DedupeKey(a) == tag + a.value + "|" + a.faviconUrl;
    assert DedupeKey(b) == tag + b.value + "|" + b.faviconUrl;
    assert a.value + "|" + a.faviconUrl == b.value + "|" + b.faviconUrl;
    assert (tag + a.value) + "|" + a.faviconUrl == tag + (a.value + "|" + a.faviconUrl);
    assert (tag + b.value) + "|" + b.faviconUrl == tag + (b.value + "|" + b.faviconUrl);
    assert [a, b][1..] == [b] && [b][1..] == [];
    assert DedupeFrom([b], {DedupeKey(a)}) == [];
    var ab: seq<Rule>, none: set<string> := [a, b], {};
    assert ab[0] == a && ab[1..] == [b] && none + {DedupeKey(a)} == {DedupeKey(a)};
    assert DedupeFrom(ab, none) == [a] + DedupeFrom(ab[1..], none + {DedupeKey(a)});
  }

  /** The values of `byKey` in the insertion order `keys`: `Array.from(byKey.values())`. */
  function ValuesInOrder(keys: seq<string>, byKey: map<string, Rule>): (values: seq<Rule>)
    requires forall k :: k in keys ==> k in byKey
    ensures |values| == |keys| && forall i :: 0 <= i < |keys| ==> values[i] == byKey[keys[i]]
  {
    seq(|keys|, i requires 0 <= i < |keys| => byKey[keys[i]])
  }

  /** Adding a fresh key with its rule appends that rule to the values. */
  lemma ValuesInOrderAppend(keys: seq<string>, byKey: map<string, Rule>, key: string, r: Rule)
    requires forall k :: k in keys ==> k in byKey
    requires key !in byKey
    ensures ValuesInOrder(keys + [key], byKey[key := r]) == ValuesInOrder(keys, byKey) + [r]
  {
  }

  /** One step of `DedupeFrom` on the suffix from `i`. */
  lemma DedupeFromStep(rules: seq<Rule>, i: int, seen: set<string>)
    requires 0 <= i < |rules|
    ensures DedupeFrom(rules[i..], seen) ==
      if DedupeKey(rules[i]) in seen then DedupeFrom(rules[i + 1..], seen)
      else [rules[i]] + DedupeFrom(rules[i + 1..], seen + {DedupeKey(rules[i])})
  {
    assert rules[i..][0] == rules[i] && rules[i..][1..] == rules[i + 1..];
  }

  /** One turn of the loop in `DedupeRules` keeps its invariant. */
  lemma DedupeLoopStep(rules: seq<Rule>, i: int, keys: seq<string>, byKey: map<string, Rule>)
    requires 0 <= i < |rules|
    requires forall k :: k in keys <==> k in byKey
    requires ValuesInOrder(keys, byKey) + DedupeFrom(rules[i..], byKey.Keys) == Dedupe(rules)
    ensures var key := DedupeKey(rules[i]);
      key in byKey ==> ValuesInOrder(keys, byKey) + DedupeFrom(rules[i + 1..], byKey.Keys) == Dedupe(rules)
    ensures var key := DedupeKey(rules[i]);
      key !in byKey ==>
        ValuesInOrder(keys + [key], byKey[key := rules[i]]) + DedupeFrom(rules[i + 1..], byKey[key := rules[i]].Keys) == Dedupe(rules)
  {
    var r, key, seen := rules[i], DedupeKey(rules[i]), byKey.Keys;
    if key in byKey {
      assert DedupeFrom(rules[i..], seen) == DedupeFrom(rules[i + 1..], seen) by {
        DedupeFromStep(rules, i, seen);
      }
    } else {
      var before, later := ValuesInOrder(keys, byKey), DedupeFrom(rules[i + 1..], seen + {key});
      assert DedupeFrom(rules[i..], seen) == [r] + later by {
        DedupeFromStep(rules, i, seen);
      }
      assert ValuesInOrder(keys + [key], byKey[key := r]) == before + [r] by {
        ValuesInOrderAppend(keys, byKey, key, r);
      }
      assert byKey[key := r].Keys == seen + {key};
      assert (before + [r]) + later == before + ([r] + later);
    }
  }

  /** `dedupeRules`: one pass filling a map from key to first rule, then its values in insertion
      order. */
  method DedupeRules(rules: seq<Rule>) returns (deduped: seq<Rule>)
    ensures deduped == Dedupe(rules)
  {
    var byKey: map<string, Rule> := map[];
    var keys: seq<string> := [];
    var i := 0;
    assert rules[i..] == rules && byKey.Keys == {};
    while i < |rules|
      invariant 0 <= i <= |rules|
      invariant forall k :: k in keys <==> k in byKey
      invariant ValuesInOrder(keys, byKey) + DedupeFrom(rules[i..], byKey.Keys) == Dedupe(rules)
    {
      var r := rules[i];
      var key := DedupeKey(r);
      DedupeLoopStep(rules, i, keys, byKey);
      if key !in byKey {
        byKey := byKey[key := r];
        keys := keys + [key];
      }
      i := i + 1;
    }
    assert rules[i..] == [];
    deduped := CollectValues(keys, byKey);
  }

  /** `Array.from(map.values())`: the map's values in the order their keys were inserted. */
  method CollectValues(keys: seq<string>, byKey: map<string, Rule>) returns (values: seq<Rule>)
    requires forall k :: k in keys ==> k in byKey
    ensures values == ValuesInOrder(keys, byKey)
  {
    values := [];
    var j := 0;
    while j < |keys|
      invariant 0 <= j <= |keys|
      invariant values == ValuesInOrder(keys[..j], byKey)
    {
      values := values + [byKey[keys[j]]];
      j := j + 1;
    }
    assert keys[..j] == keys;
  }

  // ----- Import -------------------------------------------------------------------------------

  /** One imported entry as `importRulesFromFile` stores it, at time `now`. */
  function Cleaned(r: Rule, now: int): (c: Rule)
    ensures c.kind == "pattern" || c.kind == "domain"
    ensures c.enabled.Some? && c.updatedAt == Some(now)
  {
    Rule(
      if IsTruthy(r.id) then r.id else None,
      if r.kind == "pattern" then "pattern" else "domain",
      r.value,
      r.faviconUrl,
      Some(r.enabled != Some(false)),
      if IsTruthyTime(r.createdAt) then r.createdAt else Some(now),
      Some(now))
  }

  /** The list an import writes, or `None` when the parsed file is not an array and nothing is
      written. */
  function ImportedRules(data: RuleList, now: int): (written: Option<seq<Rule>>)
  {
    match data
    case NotAnArray => None
    case RuleArray(items) =>
      var deduped := Dedupe(items);
      Some(seq(|deduped|, i requires 0 <= i < |deduped| => Cleaned(deduped[i], now)))
  }

  /** What an import stores: nothing for a non-array; otherwise one cleaned rule per first rule of
      each key, in order; the type is `pattern` only for exactly `pattern`, a rule is disabled only
      for exactly `false`, value and favicon URL are kept unchecked, a truthy id and a truthy
      creation time are kept, and every rule is stamped with the import time. */
  lemma ImportedRulesShape(data: RuleList, now: int)
    ensures data.NotAnArray? <==> ImportedRules(data, now).None?
    ensures data.RuleArray? ==>
      var d, w := Dedupe(data.items), ImportedRules(data, now).value;
      && |w| == |d|
      && forall i :: 0 <= i < |w| ==>
           && (w[i].kind == "pattern" <==> d[i].kind == "pattern")
           && (w[i].kind == "domain" <==> d[i].kind != "pattern")
           && (w[i].enabled == Some(false) <==> d[i].enabled == Some(false))
           && w[i].value == d[i].value && w[i].faviconUrl == d[i].faviconUrl
           && (w[i].id == if IsTruthy(d[i].id) then d[i].id else None)
           && (w[i].createdAt == if IsTruthyTime(d[i].createdAt) then d[i].createdAt else Some(now))
           && w[i].updatedAt == Some(now)
  {
  }

  /** Cleaning is stable: cleaning an already cleaned rule at the same time changes nothing. */
  lemma CleanedIdempotent(r: Rule, now: int)
    requires now != 0
    ensures Cleaned(Cleaned(r, now), now) == Cleaned(r, now)
  {
  }

  /** An imported rule without a truthy id is stored without any id. */
  lemma ImportStoresIdlessRules(data: RuleList, now: int, i: int)
    requires data.RuleArray? && 0 <= i < |Dedupe(data.items)| && !IsTruthy(Dedupe(data.items)[i].id)
    ensures ImportedRules(data, now).value[i].id.None?
  {
  }

  /** The ids an import stores are pairwise distinct, but the cleaned list may still hold two equal
      id-less rules: entries whose types differ outside `pattern` both become `domain`. */
  lemma ImportedIdsDistinct(data: RuleList, now: int)
    requires data.RuleArray?
    ensures var w := ImportedRules(data, now).value;
      forall i, j :: 0 <= i < j < |w| && w[i].id.Some? ==> w[i].id != w[j].id
  {
    var d := Dedupe(data.items);
    var w := ImportedRules(data, now).value;
    DedupeFromDistinctKeys(data.items, {});
    forall i, j | 0 <= i < j < |w| && w[i].id.Some?
      ensures w[i].id != w[j].id
    {
      if w[j].id.Some? {
        IdKeysEqualIffIdsEqual(d[i], d[j]);
      }
    }
  }

  /** `importRulesFromFile` after the file has been parsed: a non-array writes nothing, otherwise
      the stored list is replaced by the cleaned one. */
  method ImportRules(store: RuleStore, data: RuleList, now: int) returns (written: Option<seq<Rule>>)
    modifies store
    ensures written == ImportedRules(data, now)
    ensures store.stored == if written.Some? then RuleArray(written.value) else old(store.stored)
  {
    match data {
      case NotAnArray =>
        written := None;
      case RuleArray(items) =>
        var deduped := DedupeRules(items);
        var cleaned := seq(|deduped|, i requires 0 <= i < |deduped| => Cleaned(deduped[i], now));
        var saved := store.SetRules(cleaned);
        written := Some(saved);
    }
  }

  // ----- The edit dialog's save handler -------------------------------------------------------

  /** What the dialog holds when Save is pressed: the checked type and source radios (`None` when
      none is checked), the raw text inputs, the last generated data URL and the enabled box. */
  datatype EditForm = EditForm(
    typeChoice: Option<string>,
    valueInput: string,
    sourceChoice: Option<string>,
    urlInput: string,
    dataUrl: string,
    enabledChecked: bool)

  datatype EditError = MissingValue | InvalidFavicon | NoGeneratedFavicon

  /** What pressing Save does: refuse with a message, close without writing (nothing changed, or
      the rule is no longer stored), or write the list with position `index` updated. */
  datatype EditOutcome = Refused(error: EditError) | Unchanged | Vanished | Saved(index: nat, rules: seq<Rule>)

  function FormType(form: EditForm): string {
    if form.typeChoice == Some("pattern") then "pattern" else "domain"
  }

  function FormSource(form: EditForm): string {
    if form.sourceChoice.Some? && form.sourceChoice.value != "" then form.sourceChoice.value else "url"
  }

  function FormFavicon(form: EditForm): string {
    if FormSource(form) == "random" then form.dataUrl else Trim(form.urlInput)
  }

  /** The three checks before anything is read from storage, in the handler's order. */
  function EditCheck(parser: Url.Parser, form: EditForm): (err: Option<EditError>)
    ensures err == Some(MissingValue) <==> Trim(form.valueInput) == ""
    ensures err == Some(InvalidFavicon) <==>
      Trim(form.valueInput) != "" && FormSource(form) == "url" && !Matching.IsValidFaviconUrl(parser, FormFavicon(form))
    ensures err == Some(NoGeneratedFavicon) <==>
      Trim(form.valueInput) != "" && FormSource(form) != "url" && FormFavicon(form) == ""
  {
    if Trim(form.valueInput) == "" then Some(MissingValue)
    else if FormSource(form) == "url" then
      if !Matching.IsValidFaviconUrl(parser, FormFavicon(form)) then Some(InvalidFavicon) else None
    else if FormFavicon(form) == "" then Some(NoGeneratedFavicon)
    else None
  }

  /** The form repeats the edited rule's type, value, favicon URL and enabled state. */
  predicate IsNoChange(prior: Rule, form: EditForm) {
    && prior.kind == FormType(form)
    && prior.value == Trim(form.valueInput)
    && prior.faviconUrl == FormFavicon(form)
    && (prior.enabled != Some(false)) == form.enabledChecked
  }

  /** Position `idx` of `rules` still holds the edited rule: same id when it had a truthy one,
      else the same type, value and favicon URL. */
  predicate StillIdentifies(rules: seq<Rule>, prior: Rule, idx: int) {
    && 0 <= idx < |rules|
    && if IsTruthy(prior.id) then rules[idx].id == prior.id
       else Hits(ByTriple(prior.kind, prior.value, prior.faviconUrl), rules[idx])
  }

  /** The position the handler writes: the dialog's index while it still identifies the rule,
      else the first rule with the prior truthy id, else the first with the prior type, value and
      favicon URL, else -1. */
  function ReconciledIndex(rules: seq<Rule>, prior: Rule, index: int): (idx: int)
    ensures -1 <= idx < |rules|
    ensures StillIdentifies(rules, prior, index) ==> idx == index
    ensures idx >= 0 ==> (IsTruthy(prior.id) && rules[idx].id == prior.id) || Hits(ByTriple(prior.kind, prior.value, prior.faviconUrl), rules[idx])
    ensures idx == -1 <==>
      && (!IsTruthy(prior.id) || forall k :: 0 <= k < |rules| ==> rules[k].id != prior.id)
      && (forall k :: 0 <= k < |rules| ==> !Hits(ByTriple(prior.kind, prior.value, prior.faviconUrl), rules[k]))
    ensures IsTruthy(prior.id) && (exists k :: 0 <= k < |rules| && rules[k].id == prior.id) ==> rules[idx].id == prior.id
    ensures idx >= 0 && !StillIdentifies(rules, prior, index) && IsTruthy(prior.id) && rules[idx].id == prior.id ==>
      forall k :: 0 <= k < idx ==> rules[k].id != prior.id
    ensures idx >= 0 && !StillIdentifies(rules, prior, index) && !(IsTruthy(prior.id) && rules[idx].id == prior.id) ==>
      forall k :: 0 <= k < idx ==> !Hits(ByTriple(prior.kind, prior.value, prior.faviconUrl), rules[k])
  {
    if StillIdentifies(rules, prior, index) then index
    else
      var byId := if IsTruthy(prior.id) then FindIndex(rules, ById(prior.id)) else -1;
      if byId >= 0 then byId else FindIndex(rules, ByTriple(prior.kind, prior.value, prior.faviconUrl))
  }

  /** `{ ...rule, type, value, faviconUrl, enabled, updatedAt: now }`. */
  function Edited(rule: Rule, form: EditForm, now: int): Rule {
    rule.(kind := FormType(form), value := Trim(form.valueInput), faviconUrl := FormFavicon(form),
          enabled := Some(form.enabledChecked), updatedAt := Some(now))
  }

  /** What the save handler does with `rules` read from storage. */
  function SaveOutcome(parser: Url.Parser, form: EditForm, prior: Rule, index: int, rules: seq<Rule>, now: int): EditOutcome {
    match EditCheck(parser, form)
    case Some(err) => Refused(err)
    case None =>
      if IsNoChange(prior, form) then Unchanged
      else
        var idx := ReconciledIndex(rules, prior, index);
        if idx < 0 then Vanished
        else Saved(idx, rules[idx := Edited(rules[idx], form, now)])
  }

  /** A save that writes changes the one reconciled position, keeps that rule's id and creation
      time, sets the edited fields, and leaves every other position alone. */
  lemma SaveUpdatesInPlace(parser: Url.Parser, form: EditForm, prior: Rule, index: int, rules: seq<Rule>, now: int)
    requires SaveOutcome(parser, form, prior, index, rules, now).Saved?
    ensures var out := SaveOutcome(parser, form, prior, index, rules, now);
      && EditCheck(parser, form).None? && !IsNoChange(prior, form)
      && out.index == ReconciledIndex(rules, prior, index)
      && |out.rules| == |rules|
      && out.rules[out.index].id == rules[out.index].id
      && out.rules[out.index].createdAt == rules[out.index].createdAt
      && out.rules[out.index].kind == FormType(form)
      && out.rules[out.index].value == Trim(form.valueInput) != ""
      && out.rules[out.index].faviconUrl == FormFavicon(form)
      && out.rules[out.index].enabled == Some(form.enabledChecked)
      && out.rules[out.index].updatedAt == Some(now)
      && forall k :: 0 <= k < |rules| && k != out.index ==> out.rules[k] == rules[k]
  {
  }

  /** Nothing is written when a check fails, when nothing changed, or when the rule is gone. */
  lemma SaveWritesOnlyWhenAllowed(parser: Url.Parser, form: EditForm, prior: Rule, index: int, rules: seq<Rule>, now: int)
    ensures SaveOutcome(parser, form, prior, index, rules, now).Saved? <==>
      && EditCheck(parser, form).None?
      && !IsNoChange(prior, form)
      && ((IsTruthy(prior.id) && exists k :: 0 <= k < |rules| && rules[k].id == prior.id)
          || exists k :: 0 <= k < |rules| && Hits(ByTriple(prior.kind, prior.value, prior.faviconUrl), rules[k]))
  {
    var idx := ReconciledIndex(rules, prior, index);
    if IsTruthy(prior.id) && exists k :: 0 <= k < |rules| && rules[k].id == prior.id {
      assert idx >= 0;
    }
    if exists k :: 0 <= k < |rules| && Hits(ByTriple(prior.kind, prior.value, prior.faviconUrl), rules[k]) {
      assert idx >= 0;
    }
  }

  /** The index reconciliation: keep the dialog's index while it still identifies the rule, else
      search by the prior truthy id, else by the prior type, value and favicon URL. */
  method ReconcileIndex(rules: seq<Rule>, prior: Rule, index: int) returns (idx: int)
    ensures idx == ReconciledIndex(rules, prior, index)
  {
    idx := index;
    if !StillIdentifies(rules, prior, idx) {
      idx := if IsTruthy(prior.id) then FindIndex(rules, ById(prior.id)) else -1;
      if idx < 0 {
        idx := FindIndex(rules, ByTriple(prior.kind, prior.value, prior.faviconUrl));
      }
    }
  }

  /** The save handler: checks, the no-change test, a read of the stored rules, the index
      reconciliation and the write of the one updated rule. */
  method SaveEdit(store: RuleStore, parser: Url.Parser, form: EditForm, prior: Rule, index: int, now: int)
    returns (outcome: EditOutcome)
    modifies store
    ensures outcome == SaveOutcome(parser, form, prior, index, AsArray(old(store.stored)), now)
    ensures store.stored == if outcome.Saved? then RuleArray(outcome.rules) else old(store.stored)
  {
    var kind := if form.typeChoice == Some("pattern") then "pattern" else "domain";
    var value := Trim(form.valueInput);
    var source := if form.sourceChoice.Some? && form.sourceChoice.value != "" then form.sourceChoice.value else "url";
    var faviconUrl := if source == "random" then form.dataUrl else Trim(form.urlInput);
    assert kind == FormType(form) && source == FormSource(form) && faviconUrl == FormFavicon(form);
    if value == "" {
      return Refused(MissingValue);
    }
    if source == "url" {
      if !Matching.IsValidFaviconUrl(parser, faviconUrl) {
        return Refused(InvalidFavicon);
      }
    } else if faviconUrl == "" {
      return Refused(NoGeneratedFavicon);
    }
    assert EditCheck(parser, form).None?;
    var noChange := prior.kind == kind && prior.value == value && prior.faviconUrl == faviconUrl
                    && (prior.enabled != Some(false)) == form.enabledChecked;
    if noChange {
      return Unchanged;
    }
    var rules := store.GetRules();
    var idx := ReconcileIndex(rules, prior, index);
    if idx < 0 {
      return Vanished;
    }
    var updated := rules[idx].(kind := kind, value := value, faviconUrl := faviconUrl,
                               enabled := Some(form.enabledChecked), updatedAt := Some(now));
    assert updated == Edited(rules[idx], form, now);
    rules := rules[idx := updated];
    var _ := store.SetRules(rules);
    outcome := Saved(idx, rules);
  }
}
