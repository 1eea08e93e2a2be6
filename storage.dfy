/** The rule store of common/storage.js over the browser's synchronised storage, which holds one
    value under the rules key. Clocks and the random part of generated ids are parameters. */
module Storage {
  import opened Wrappers
  import opened Rules
  import opened Seqs

  /** `{ ...stored, ...incoming, updatedAt: now }`: each field the incoming rule defines wins, every
      other field keeps its stored value, and `updatedAt` is the time of the write. */
  function Merge(stored: Rule, incoming: Rule, now: int): Rule {
    Rule(
      incoming.id.Or(stored.id),
      incoming.kind,
      incoming.value,
      incoming.faviconUrl,
      incoming.enabled.Or(stored.enabled),
      incoming.createdAt.Or(stored.createdAt),
      Some(now))
  }

  /** `{ ...rule, id: rule.id || generated, createdAt: now, updatedAt: now }`. */
  function Created(rule: Rule, now: int, generated: string): Rule {
    rule.(id := if IsTruthy(rule.id) then rule.id else Some(generated), createdAt := Some(now), updatedAt := Some(now))
  }

  /** The list `upsertRule` saves: the first rule with the same id (`===`, so an id-less rule finds
      the first id-less stored rule) is merged with the incoming one; when there is none, the new
      rule is appended. */
  function Upserted(rules: seq<Rule>, rule: Rule, now: int, generated: string): (r: seq<Rule>)
    ensures (exists k :: 0 <= k < |rules| && rules[k].id == rule.id) ==>
      exists i :: && 0 <= i < |rules| && rules[i].id == rule.id
                  && (forall k :: 0 <= k < i ==> rules[k].id != rule.id)
                  && r == rules[i := Merge(rules[i], rule, now)]
    ensures (forall k :: 0 <= k < |rules| ==> rules[k].id != rule.id) ==> r == rules + [Created(rule, now, generated)]
  {
    var index := FindIndex(rules, ById(rule.id));
    if index >= 0 then rules[index := Merge(rules[index], rule, now)] else rules + [Created(rule, now, generated)]
  }

  /** `rules.filter(r => r.id !== id)`. */
  function WithoutId(rules: seq<Rule>, id: Option<string>): (kept: seq<Rule>)
    ensures IsSubsequence(kept, rules)
    ensures forall r :: r in kept <==> r in rules && r.id != id
    ensures forall r :: multiset(kept)[r] == if r.id != id then multiset(rules)[r] else 0
  {
    FilterIsSubsequence(rules, (r: Rule) => r.id != id);
    FilterCounts(rules, (r: Rule) => r.id != id);
    Filter(rules, (r: Rule) => r.id != id)
  }

  /** Deleting an id no stored rule has leaves the list as it is. */
  lemma DeleteUnknownId(rules: seq<Rule>, id: Option<string>)
    requires forall k :: 0 <= k < |rules| ==> rules[k].id != id
    ensures WithoutId(rules, id) == rules
  {
    FilterKeepsAll(rules, (r: Rule) => r.id != id);
  }

  /** Deleting with an undefined id (the id of a rule an import left without one) removes every
      rule without an id and keeps every rule that has one. */
  lemma DeleteWithoutIdRemovesEveryIdlessRule(rules: seq<Rule>)
    ensures forall r :: r in WithoutId(rules, None) ==> r.id.Some?
    ensures forall r :: r in rules && r.id.Some? ==> r in WithoutId(rules, None)
  {
  }

  /** A rule appended under a new truthy id is removed again by deleting that id. */
  lemma DeleteUndoesFreshUpsert(rules: seq<Rule>, rule: Rule, now: int, generated: string)
    requires IsTruthy(rule.id) && forall k :: 0 <= k < |rules| ==> rules[k].id != rule.id
    ensures WithoutId(Upserted(rules, rule, now, generated), rule.id) == rules
  {
    var c := Created(rule, now, generated);
    var keep := (r: Rule) => r.id != rule.id;
    FilterAppend(rules, [c], keep);
    FilterKeepsAll(rules, keep);
    assert Filter([c], keep) == [];
  }

  /** Merging the same incoming rule again at the same time changes nothing. */
  lemma MergeTwice(stored: Rule, incoming: Rule, now: int)
    ensures Merge(Merge(stored, incoming, now), incoming, now) == Merge(stored, incoming, now)
  {
  }

  /** Upserting a rule with a truthy id and no `createdAt` a second time, at the same time, saves
      the same list: the first upsert leaves a rule with that id, which the second one finds. */
  lemma UpsertTwiceWithId(rules: seq<Rule>, rule: Rule, now: int, g1: string, g2: string)
    requires IsTruthy(rule.id) && rule.createdAt.None?
    ensures Upserted(Upserted(rules, rule, now, g1), rule, now, g2) == Upserted(rules, rule, now, g1)
  {
    var once := Upserted(rules, rule, now, g1);
    var i := FindIndex(rules, ById(rule.id));
    if i >= 0 {
      assert once[i].id == rule.id;
      assert FindIndex(once, ById(rule.id)) == i;
      MergeTwice(rules[i], rule, now);
    } else {
      var c := Created(rule, now, generated := g1);
      assert once[|rules|] == c && c.id == rule.id;
      assert FindIndex(once, ById(rule.id)) == |rules|;
      assert Merge(c, rule, now) == c;
    }
  }

  /** The identity quirk: an id-less rule overwrites the first id-less stored rule, whatever its
      type, value and favicon, and changes nothing else. */
  lemma IdlessUpsertOverwritesFirstIdless(rules: seq<Rule>, rule: Rule, now: int, generated: string, i: int)
    requires rule.id.None? && 0 <= i < |rules| && rules[i].id.None?
    requires forall k :: 0 <= k < i ==> rules[k].id.Some?
    ensures |Upserted(rules, rule, now, generated)| == |rules|
    ensures Upserted(rules, rule, now, generated)[i] == rule.(enabled := rule.enabled.Or(rules[i].enabled), createdAt := rule.createdAt.Or(rules[i].createdAt), updatedAt := Some(now))
    ensures forall k :: 0 <= k < |rules| && k != i ==> Upserted(rules, rule, now, generated)[k] == rules[k]
  {
    assert FindIndex(rules, ById(rule.id)) == i;
  }

  /** As written, saving a new id-less rule into a list that holds an id-less rule loses the stored
      one instead of adding the new one. */
  lemma IdlessUpsertLosesStoredRule(stored: Rule, rule: Rule, now: int, generated: string)
    requires stored.id.None? && rule.id.None? && stored.value != rule.value
    ensures |Upserted([stored], rule, now, generated)| == 1
    ensures stored !in Upserted([stored], rule, now, generated)
  {
    IdlessUpsertOverwritesFirstIdless([stored], rule, now, generated, 0);
  }

  /** The upsert the identity rule intends: only a truthy id looks for a stored rule, so a rule
      without one is always appended under the generated id. */
  function UpsertedByTruthyId(rules: seq<Rule>, rule: Rule, now: int, generated: string): (r: seq<Rule>)
    ensures !IsTruthy(rule.id) ==> r == rules + [Created(rule, now, generated)]
  {
    var index := if IsTruthy(rule.id) then FindIndex(rules, ById(rule.id)) else -1;
    if index >= 0 then rules[index := Merge(rules[index], rule, now)] else rules + [Created(rule, now, generated)]
  }

  /** Every rule has a truthy id and no id occurs twice. */
  predicate UniqueIds(rules: seq<Rule>) {
    && (forall k :: 0 <= k < |rules| ==> IsTruthy(rules[k].id))
    && (forall i, j :: 0 <= i < j < |rules| ==> rules[i].id != rules[j].id)
  }

  /** The intended upsert keeps ids truthy and unique when the generated id is new. */
  lemma UpsertByTruthyIdKeepsIdsUnique(rules: seq<Rule>, rule: Rule, now: int, generated: string)
    requires UniqueIds(rules) && generated != ""
    requires forall k :: 0 <= k < |rules| ==> rules[k].id != Some(generated)
    ensures UniqueIds(UpsertedByTruthyId(rules, rule, now, generated))
  {
    var r := UpsertedByTruthyId(rules, rule, now, generated);
    if IsTruthy(rule.id) && FindIndex(rules, ById(rule.id)) >= 0 {
      var i := FindIndex(rules, ById(rule.id));
      assert r[i].id == rules[i].id;
      assert forall k :: 0 <= k < |rules| ==> r[k].id == rules[k].id;
    } else {
      var c := Created(rule, now, generated);
      assert r == rules + [c];
      assert IsTruthy(c.id) && forall k :: 0 <= k < |rules| ==> rules[k].id != c.id;
    }
  }

  /** Where the stored ids are truthy and unique, the two upserts agree. */
  lemma UpsertsAgreeOnUniqueIds(rules: seq<Rule>, rule: Rule, now: int, generated: string)
    requires UniqueIds(rules)
    ensures Upserted(rules, rule, now, generated) == UpsertedByTruthyId(rules, rule, now, generated)
  {
    if !IsTruthy(rule.id) {
      assert forall k :: 0 <= k < |rules| ==> rules[k].id != rule.id;
    }
  }

  /** An appended rule whose own id is falsy gets the generated id. */
  lemma AppendedRuleGetsGeneratedId(rules: seq<Rule>, rule: Rule, now: int, generated: string)
    requires !IsTruthy(rule.id) && generated != ""
    requires forall k :: 0 <= k < |rules| ==> rules[k].id != rule.id
    ensures var r := Upserted(rules, rule, now, generated);
      && |r| == |rules| + 1 && r[..|rules|] == rules
      && r[|rules|].id == Some(generated) && IsTruthy(r[|rules|].id)
      && r[|rules|].createdAt == r[|rules|].updatedAt == Some(now)
  {
  }

  /** The storage area with its one value under the rules key. */
  class RuleStore {
    var stored: RuleList

    constructor (initial: RuleList)
      ensures stored == initial
    {
      stored := initial;
    }

    /** `getRules`: the stored value when it is an array, else no rules. */
    method GetRules() returns (rules: seq<Rule>)
      ensures rules == AsArray(stored)
      ensures stored.NotAnArray? ==> rules == []
    {
      match stored
      case RuleArray(items) => rules := items;
      case NotAnArray => rules := [];
    }

    /** `upsertRule`: writes and returns the list with `rule` merged in or appended. */
    method UpsertRule(rule: Rule, now: int, generated: string) returns (rules: seq<Rule>)
      modifies this
      ensures rules == Upserted(AsArray(old(stored)), rule, now, generated)
      ensures stored == RuleArray(rules)
    {
      rules := GetRules();
      var index := FindIndex(rules, ById(rule.id));
      if index >= 0 {
        rules := rules[index := Merge(rules[index], rule, now)];
      } else {
        rules := rules + [Created(rule, now, generated)];
      }
      stored := RuleArray(rules);
    }

    /** `deleteRule`: writes and returns the list without the rules carrying `id`. */
    method DeleteRule(id: Option<string>) returns (filtered: seq<Rule>)
      modifies this
      ensures filtered == WithoutId(AsArray(old(stored)), id)
      ensures stored == RuleArray(filtered)
    {
      var rules := GetRules();
      filtered := WithoutId(rules, id);
      stored := RuleArray(filtered);
    }

    /** `setRules`: writes the list as given and returns it. */
    method SetRules(rules: seq<Rule>) returns (saved: seq<Rule>)
      modifies this
      ensures saved == rules && stored == RuleArray(rules)
    {
      stored := RuleArray(rules);
      saved := rules;
    }
  }
}
