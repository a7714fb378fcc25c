/** `FilterBuilder.create`: from the rules a user's ability holds for one action
    on one subject, and the Mongo-style query those rules reduce to, decide
    between full access, no access and a pair of compiled filters (a relational
    expression and a search-engine filter string). */
module FilterBuilder {
  import opened Wrappers
  import Json
  import Drizzle = MongoToDrizzle
  import Meli = MongoToMeli

  type Value = Json.Value

  /** A rule as `ability.rulesFor(action, subject)` lists it. */
  datatype Rule = Rule(inverted: bool, conditions: Value)

  /** What `create` returns; `None` stands for `undefined`. */
  datatype Filters = Filters(drizzleFilter: Option<Drizzle.Sql>, searchFilter: Option<string>)

  /** Both filters absent: the caller applies no restriction. */
  const FullAccess := Filters(None, None)

  /** The never-true pair: relational `1=0` and a filter on an id no source has. */
  const NoAccess := Filters(Some(Drizzle.Never), Some("ingestionSourceId = \"-1\""))

  /** `rules.some(rule => rule.inverted === false && !rule.conditions)` */
  predicate HasUnconditionalCan(rules: seq<Rule>) {
    exists i :: 0 <= i < |rules| && !rules[i].inverted && !Json.Truthy(rules[i].conditions)
  }

  /** The conditions of the inverted rules that have conditions, in rule order. */
  function CannotConditions(rules: seq<Rule>): (r: seq<Value>)
    ensures |r| <= |rules|
    ensures forall c :: c in r <==> exists i :: 0 <= i < |rules| && rules[i] == Rule(true, c) && Json.Truthy(c)
  {
    if rules == [] then []
    else
      var rest := CannotConditions(rules[1..]);
      assert forall i :: 0 < i < |rules| ==> rules[i] == rules[1..][i - 1];
      if rules[0].inverted && Json.Truthy(rules[0].conditions) then [rules[0].conditions] + rest else rest
  }

  /** The entries of a deny condition with each value `v` replaced by `{$ne: v}`. */
  function NeEntries(es: Json.Fields): (r: Json.Fields)
    ensures |r| == |es|
    ensures forall i :: 0 <= i < |es| ==> r[i] == (es[i].0, Json.Obj([("$ne", es[i].1)]))
  {
    if es == [] then [] else [(es[0].0, Json.Obj([("$ne", es[0].1)]))] + NeEntries(es[1..])
  }

  /** The object the loop `for (key in condition) newCondition[key] = {$ne: condition[key]}` builds. */
  function NeCondition(c: Value): Value {
    Json.Obj(Json.PutAll([], NeEntries(Json.ForInEntries(c))))
  }

  /** For an object (whose keys are unique), the inverted condition has the
      same keys in the same order, each value `v` replaced by `{$ne: v}`. */
  lemma NeConditionOfObject(c: Value)
    requires c.Obj? && Json.UniqueKeys(c.fields)
    ensures NeCondition(c) == Json.Obj(NeEntries(c.fields))
    ensures |NeCondition(c).fields| == |c.fields|
    ensures forall i :: 0 <= i < |c.fields| ==>
      NeCondition(c).fields[i] == (c.fields[i].0, Json.Obj([("$ne", c.fields[i].1)]))
  {
    var es := NeEntries(c.fields);
    NeEntriesUnique(c.fields);
    assert [] + es == es;
    Json.PutAllFresh([], es);
    assert Json.ForInEntries(c) == c.fields;
  }

  lemma NeEntriesUnique(es: Json.Fields)
    requires Json.UniqueKeys(es)
    ensures Json.UniqueKeys(NeEntries(es))
  {
    var r := NeEntries(es);
    forall i, j | 0 <= i < j < |r| ensures r[i].0 != r[j].0 {
      assert r[i].0 == es[i].0 && r[j].0 == es[j].0;
    }
  }

  /** `{ $and: cannotConditions.map(…) }`, the deny-inversion query. */
  function DenyQuery(cannot: seq<Value>): (r: Value)
    ensures r.Obj? && |r.fields| == 1 && r.fields[0].0 == "$and"
    ensures r.fields[0].1.Arr? && |r.fields[0].1.items| == |cannot|
    ensures forall i :: 0 <= i < |cannot| ==> r.fields[0].1.items[i] == NeCondition(cannot[i])
  {
    Json.Obj([("$and", Json.Arr(seq(|cannot|, i requires 0 <= i < |cannot| => NeCondition(cannot[i]))))])
  }

  /** The deny inversion as evidently intended: every deny condition negated
      as a whole, `{ $and: cannotConditions.map(c => ({ $not: c })) }`. */
  function IntendedDenyQuery(cannot: seq<Value>): (r: Value)
    ensures r.Obj? && |r.fields| == 1 && r.fields[0].0 == "$and"
    ensures r.fields[0].1.Arr? && |r.fields[0].1.items| == |cannot|
    ensures forall i :: 0 <= i < |cannot| ==> r.fields[0].1.items[i] == Json.Obj([("$not", cannot[i])])
  {
    Json.Obj([("$and", Json.Arr(seq(|cannot|, i requires 0 <= i < |cannot| => Json.Obj([("$not", cannot[i])]))))])
  }

  /** The query `create` goes on with: the deny inversion when an unconditional
      grant exists, otherwise the query the rules reduce to. */
  function EffectiveQuery(rules: seq<Rule>, query: Value): Value {
    if HasUnconditionalCan(rules) then DenyQuery(CannotConditions(rules)) else query
  }

  /** `FilterBuilder.create`, given the rules and the result of `rulesToQuery`
      (`Null` for the full-access answer); `Err` when a compiler throws. */
  function Create(rules: seq<Rule>, query: Value, owned: Meli.OwnedSources): Result<Filters> {
    if HasUnconditionalCan(rules) && |CannotConditions(rules)| == 0 then Ok(FullAccess)
    else
      var q := EffectiveQuery(rules, query);
      if q.Null? then Ok(FullAccess)
      else
        match Json.ObjectEntries(q)
        case Err(e) => Err(e)
        case Ok(keys) =>
          if |keys| == 0 then Ok(NoAccess)
          else
            match Drizzle.Compile(q)
            case Err(e) => Err(e)
            case Ok(drizzleFilter) =>
              match Meli.RenderResult(Meli.Compile(q, owned))
              case Err(e) => Err(e)
              case Ok(searchFilter) => Ok(Filters(drizzleFilter, Some(searchFilter)))
  }

  // ---------------------------------------------------------------------------
  // What create decides
  // ---------------------------------------------------------------------------

  /** Full access exactly when an unconditional grant meets no conditional deny,
      or when no unconditional grant exists and the rules reduce to `null`. */
  lemma CreateFullAccess(rules: seq<Rule>, query: Value, owned: Meli.OwnedSources)
    ensures Create(rules, query, owned) == Ok(FullAccess) <==>
      (HasUnconditionalCan(rules) && |CannotConditions(rules)| == 0) ||
      (!HasUnconditionalCan(rules) && query.Null?)
  {
    var r := Create(rules, query, owned);
    if !(HasUnconditionalCan(rules) && |CannotConditions(rules)| == 0) {
      var q := EffectiveQuery(rules, query);
      if !q.Null? && Json.ObjectEntries(q).Ok? && |Json.ObjectEntries(q).value| > 0 {
        match Drizzle.Compile(q)
        case Err(e) =>
        case Ok(d) =>
          match Meli.RenderResult(Meli.Compile(q, owned))
          case Err(e) =>
          case Ok(s) => assert r == Ok(Filters(d, Some(s)));
      }
    }
  }

  /** An effective query without keys means no access; `undefined` (which
      `rulesToQuery` never returns) makes `Object.keys` throw. */
  lemma CreateNoAccess(rules: seq<Rule>, query: Value, owned: Meli.OwnedSources)
    requires !(HasUnconditionalCan(rules) && |CannotConditions(rules)| == 0)
    ensures var q := EffectiveQuery(rules, query);
      !Json.IsNullish(q) && |Json.ForInEntries(q)| == 0 ==> Create(rules, query, owned) == Ok(NoAccess)
    ensures EffectiveQuery(rules, query).Undefined? ==> Create(rules, query, owned).Err?
  {
  }

  /** In every other case both filters come from compiling the same query, and a
      failure of either compiler is the result. */
  lemma CreateCompiles(rules: seq<Rule>, query: Value, owned: Meli.OwnedSources)
    requires !(HasUnconditionalCan(rules) && |CannotConditions(rules)| == 0)
    requires !Json.IsNullish(EffectiveQuery(rules, query))
    requires |Json.ForInEntries(EffectiveQuery(rules, query))| > 0
    ensures var q := EffectiveQuery(rules, query);
      Create(rules, query, owned) ==
        if Drizzle.Compile(q).Err? then Err(Drizzle.Compile(q).error)
        else if Meli.Compile(q, owned).Err? then Err(Meli.Compile(q, owned).error)
        else Ok(Filters(Drizzle.Compile(q).value, Some(Meli.Render(Meli.Compile(q, owned).value))))
  {
  }

  /** With an unconditional grant and conditional denies, the query the rules
      reduce to is ignored: the deny inversion replaces it. */
  lemma DenyInversionIgnoresQuery(rules: seq<Rule>, query1: Value, query2: Value, owned: Meli.OwnedSources)
    requires HasUnconditionalCan(rules)
    ensures Create(rules, query1, owned) == Create(rules, query2, owned)
  {
  }

  /** An inverted rule without conditions is not a deny condition: adding one
      changes nothing when the query is the same. */
  lemma UnconditionalDenyIgnored(rules: seq<Rule>, c: Value, query: Value, owned: Meli.OwnedSources)
    requires !Json.Truthy(c)
    ensures CannotConditions(rules + [Rule(true, c)]) == CannotConditions(rules)
    ensures Create(rules + [Rule(true, c)], query, owned) == Create(rules, query, owned)
  {
    var rules' := rules + [Rule(true, c)];
    CannotSuffix(rules, Rule(true, c));
    UnconditionalCanSuffix(rules, Rule(true, c));
    assert EffectiveQuery(rules', query) == EffectiveQuery(rules, query);
  }

  /** A deny never makes a grant unconditional, nor takes one away. */
  lemma UnconditionalCanSuffix(rules: seq<Rule>, last: Rule)
    requires last.inverted
    ensures HasUnconditionalCan(rules + [last]) == HasUnconditionalCan(rules)
  {
    var rules' := rules + [last];
    if HasUnconditionalCan(rules) {
      var i :| 0 <= i < |rules| && !rules[i].inverted && !Json.Truthy(rules[i].conditions);
      assert rules'[i] == rules[i];
    }
    if HasUnconditionalCan(rules') {
      var i :| 0 <= i < |rules'| && !rules'[i].inverted && !Json.Truthy(rules'[i].conditions);
      assert i < |rules| && rules'[i] == rules[i];
    }
  }

  lemma {:induction false} CannotSuffix(rules: seq<Rule>, last: Rule)
    requires !(last.inverted && Json.Truthy(last.conditions))
    ensures CannotConditions(rules + [last]) == CannotConditions(rules)
    decreases |rules|
  {
    if rules == [] {
      assert CannotConditions([last]) == [] + CannotConditions([]);
    } else {
      assert (rules + [last])[1..] == rules[1..] + [last];
      CannotSuffix(rules[1..], last);
    }
  }
}
