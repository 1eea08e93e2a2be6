/** The rule record shared by the resolver, the storage layer and both extension pages. */
module Rules {
  import opened Wrappers

  /** A stored rule. `kind` is the record's `type` field ("domain" or "pattern" when written by the
      extension). A field the record lacks, or holds `undefined`, is `None`. */
  datatype Rule = Rule(
    id: Option<string>,
    kind: string,
    value: string,
    faviconUrl: string,
    enabled: Option<bool>,
    createdAt: Option<int>,
    updatedAt: Option<int>)

  /** JavaScript truthiness of an optional string: defined and not empty. */
  predicate IsTruthy(s: Option<string>) {
    s.Some? && s.value != ""
  }

  /** JavaScript truthiness of an optional timestamp: defined and not zero. */
  predicate IsTruthyTime(t: Option<int>) {
    t.Some? && t.value != 0
  }

  /** What storage holds under the rules key: an array of rules, or some other value. */
  datatype RuleList = RuleArray(items: seq<Rule>) | NotAnArray

  /** `Array.isArray(v) ? v : []`. */
  function AsArray(v: RuleList): seq<Rule> {
    match v
    case RuleArray(items) => items
    case NotAnArray => []
  }

  /** What `findIndex` searches for: a rule with the given id (compared with `===`, so `None`
      finds a rule without id), or a rule with the given type, value and favicon URL. */
  datatype Probe = ById(id: Option<string>) | ByTriple(kind: string, value: string, faviconUrl: string)

  predicate Hits(probe: Probe, r: Rule) {
    match probe
    case ById(id) => r.id == id
    case ByTriple(k, v, f) => r.kind == k && r.value == v && r.faviconUrl == f
  }

  /** `rules.findIndex(r => Hits(probe, r))`: the first hit, or -1 when there is none. */
  function FindIndex(rules: seq<Rule>, probe: Probe): (i: int)
    ensures -1 <= i < |rules|
    ensures i >= 0 ==> Hits(probe, rules[i]) && forall k :: 0 <= k < i ==> !Hits(probe, rules[k])
    ensures i == -1 <==> forall k :: 0 <= k < |rules| ==> !Hits(probe, rules[k])
  {
    if rules == [] then -1
    else if Hits(probe, rules[0]) then 0
    else
      var j := FindIndex(rules[1..], probe);
      if j < 0 then -1 else j + 1
  }
}
