/** What a Mongo-style condition object means, and what the two compiled forms
    mean: a document-matching semantics for the conditions, three-valued SQL
    evaluation for the relational expression, and boolean evaluation for the
    search filter. For well-formed conditions both compilers are proved to keep
    the meaning, so the relational filter and the search filter select the same
    emails. */
module QuerySemantics {
  import opened Wrappers
  import Json
  import JsStrings
  import Drizzle = MongoToDrizzle
  import Meli = MongoToMeli
  import FilterBuilder

  type Value = Json.Value

  /** A document: the value of each field, by the name a condition uses. */
  type Doc = string -> Value

  /** A database row: the value of each column. */
  type Row = Drizzle.Column -> Value

  predicate IsScalar(v: Value) {
    v.Bool? || v.Num? || v.Str?
  }

  predicate IsOperatorKey(k: string) {
    |k| > 0 && k[0] == '$'
  }

  // ---------------------------------------------------------------------------
  // Well-formed conditions
  // ---------------------------------------------------------------------------

  /** An operator object with exactly one supported operator and an operand of
      the kind it compares with. */
  predicate WFOperand(v: Value) {
    v.Obj? && |v.fields| == 1 &&
    var (op, a) := v.fields[0];
    ((op == "$eq" || op == "$ne") && IsScalar(a)) ||
    ((op == "$gt" || op == "$gte" || op == "$lt" || op == "$lte") && a.Num?) ||
    ((op == "$in" || op == "$nin") && a.Arr? && forall j :: 0 <= j < |a.items| ==> IsScalar(a.items[j])) ||
    op == "$exists"
  }

  /** A non-empty object whose `$or`/`$and` hold non-empty arrays of
      well-formed conditions, whose `$not` holds a well-formed condition, and
      whose other keys are field names holding a scalar or an operator object. */
  predicate WF(q: Value)
    decreases q, 1
  {
    q.Obj? && |q.fields| > 0 && forall i :: 0 <= i < |q.fields| ==> WFEntry(q, i)
  }

  predicate WFEntry(q: Value, i: nat)
    requires q.Obj? && i < |q.fields|
    decreases q, 0
  {
    var (key, value) := q.fields[i];
    Json.ForInEntryFacts(q, i);
    if key == "$or" || key == "$and" then
      value.Arr? && |value.items| > 0 && forall j :: 0 <= j < |value.items| ==> WF(value.items[j])
    else if key == "$not" then
      WF(value)
    else
      !IsOperatorKey(key) && (IsScalar(value) || WFOperand(value))
  }

  // ---------------------------------------------------------------------------
  // The meaning of a condition
  // ---------------------------------------------------------------------------

  /** `x op a` for the comparison operators. */
  predicate CompareHolds(x: Value, op: Meli.CmpOp, a: Value) {
    match op
    case EqOp => x == a
    case NeOp => x != a
    case GtOp => x.Num? && a.Num? && x.n > a.n
    case GteOp => x.Num? && a.Num? && x.n >= a.n
    case LtOp => x.Num? && a.Num? && x.n < a.n
    case LteOp => x.Num? && a.Num? && x.n <= a.n
  }

  /** Whether a field value satisfies an operator object; only its first
      operator counts, and an unsupported one imposes nothing. */
  predicate OperatorHolds(x: Value, operators: Value) {
    var ops := Json.ForInEntries(operators);
    if |ops| == 0 then true
    else
      var (op, a) := ops[0];
      if op == "$eq" then CompareHolds(x, Meli.EqOp, a)
      else if op == "$ne" then CompareHolds(x, Meli.NeOp, a)
      else if op == "$gt" then CompareHolds(x, Meli.GtOp, a)
      else if op == "$gte" then CompareHolds(x, Meli.GteOp, a)
      else if op == "$lt" then CompareHolds(x, Meli.LtOp, a)
      else if op == "$lte" then CompareHolds(x, Meli.LteOp, a)
      else if op == "$in" then a.Arr? && x in a.items
      else if op == "$nin" then !(a.Arr? && x in a.items)
      else if op == "$exists" then !Json.IsNullish(x) == Json.Truthy(a)
      else true
  }

  /** A document matches a condition when it satisfies every entry. */
  predicate Matches(q: Value, doc: Doc)
    decreases q, 1
  {
    forall i :: 0 <= i < |Json.ForInEntries(q)| ==> MatchEntry(q, i, doc)
  }

  predicate MatchEntry(q: Value, i: nat, doc: Doc)
    requires i < |Json.ForInEntries(q)|
    decreases q, 0
  {
    var (key, value) := Json.ForInEntries(q)[i];
    if key == "$or" || key == "$and" then
      Json.DollarEntrySmaller(q, i);
      value.Arr? &&
      if key == "$or" then exists j :: 0 <= j < |value.items| && Matches(value.items[j], doc)
      else forall j :: 0 <= j < |value.items| ==> Matches(value.items[j], doc)
    else if key == "$not" then
      Json.DollarEntrySmaller(q, i);
      !Matches(value, doc)
    else if Json.IsObject(value) then
      OperatorHolds(doc(key), value)
    else
      doc(key) == value
  }

  // ---------------------------------------------------------------------------
  // Three-valued SQL
  // ---------------------------------------------------------------------------

  /** SQL evaluation of the relational expression on one row: `None` is
      UNKNOWN, which a comparison with NULL yields; `AND`/`OR` are Kleene's. */
  function EvalSql(s: Drizzle.Sql, row: Row): Option<bool>
    decreases s
  {
    match s
    case Eq(c, v) => if Json.IsNullish(row(c)) || Json.IsNullish(v) then None else Some(row(c) == v)
    case Gt(c, v) => if Json.IsNullish(row(c)) || Json.IsNullish(v) then None else Some(CompareHolds(row(c), Meli.GtOp, v))
    case Gte(c, v) => if Json.IsNullish(row(c)) || Json.IsNullish(v) then None else Some(CompareHolds(row(c), Meli.GteOp, v))
    case Lt(c, v) => if Json.IsNullish(row(c)) || Json.IsNullish(v) then None else Some(CompareHolds(row(c), Meli.LtOp, v))
    case Lte(c, v) => if Json.IsNullish(row(c)) || Json.IsNullish(v) then None else Some(CompareHolds(row(c), Meli.LteOp, v))
    case InArray(c, v) => if Json.IsNullish(row(c)) then None else Some(v.Arr? && row(c) in v.items)
    case IsNull(c) => Some(Json.IsNullish(row(c)))
    case Not(a) =>
      var x := EvalSql(a, row);
      if x.None? then None else Some(!x.value)
    case And(args) =>
      if exists j :: 0 <= j < |args| && EvalSql(args[j], row) == Some(false) then Some(false)
      else if exists j :: 0 <= j < |args| && EvalSql(args[j], row).None? then None
      else Some(true)
    case Or(args) =>
      if exists j :: 0 <= j < |args| && EvalSql(args[j], row) == Some(true) then Some(true)
      else if exists j :: 0 <= j < |args| && EvalSql(args[j], row).None? then None
      else Some(false)
    case Never => Some(false)
  }

  /** A row without NULLs. */
  ghost predicate NoNulls(row: Row) {
    forall c :: !Json.IsNullish(row(c))
  }

  /** The document a row presents to a condition: key `k` reads the column
      `getDrizzleColumn(k)` names. */
  ghost predicate RowDoc(row: Row, d: Doc) {
    forall k :: d(k) == row(Drizzle.DrizzleColumn(k))
  }

  /** The builder's `and(...)` over defined operands is their conjunction. */
  lemma AndOfEval(xs: seq<Drizzle.Sql>, row: Row, bs: seq<bool>)
    requires |xs| > 0 && |bs| == |xs|
    requires forall k :: 0 <= k < |xs| ==> EvalSql(xs[k], row) == Some(bs[k])
    ensures Drizzle.AndOf(xs).Some?
    ensures EvalSql(Drizzle.AndOf(xs).value, row) == Some(forall k :: 0 <= k < |bs| ==> bs[k])
  {
    if |xs| > 1 {
      var s := Drizzle.AndOf(xs).value;
      assert s == Drizzle.And(xs);
      if forall k :: 0 <= k < |bs| ==> bs[k] {
        assert !exists j :: 0 <= j < |xs| && EvalSql(xs[j], row) == Some(false);
      } else {
        var k :| 0 <= k < |bs| && !bs[k];
        assert EvalSql(xs[k], row) == Some(false);
      }
    }
  }

  /** The builder's `or(...)` over defined operands is their disjunction. */
  lemma OrOfEval(xs: seq<Drizzle.Sql>, row: Row, bs: seq<bool>)
    requires |xs| > 0 && |bs| == |xs|
    requires forall k :: 0 <= k < |xs| ==> EvalSql(xs[k], row) == Some(bs[k])
    ensures Drizzle.OrOf(xs).Some?
    ensures EvalSql(Drizzle.OrOf(xs).value, row) == Some(exists k :: 0 <= k < |bs| && bs[k])
  {
    if |xs| > 1 {
      var s := Drizzle.OrOf(xs).value;
      assert s == Drizzle.Or(xs);
      if exists k :: 0 <= k < |bs| && bs[k] {
        var k :| 0 <= k < |bs| && bs[k];
        assert EvalSql(xs[k], row) == Some(true);
      } else {
        assert !exists j :: 0 <= j < |xs| && EvalSql(xs[j], row) == Some(true);
      }
    }
  }

  /** Dropping `undefined` from a list in which every element is defined keeps it. */
  lemma {:induction false} PresentAllSome(xs: seq<Option<Drizzle.Sql>>)
    requires forall k :: 0 <= k < |xs| ==> xs[k].Some?
    ensures |Drizzle.Present(xs)| == |xs|
    ensures forall k :: 0 <= k < |xs| ==> Drizzle.Present(xs)[k] == xs[k].value
  {
    if xs != [] {
      PresentAllSome(xs[1..]);
    }
  }

  // ---------------------------------------------------------------------------
  // The relational compiler keeps the meaning
  // ---------------------------------------------------------------------------

  /** For a well-formed condition and a row without NULLs, `mongoToDrizzle`
      yields an expression that is TRUE exactly on the rows whose document
      matches the condition (and never UNKNOWN). */
  lemma {:induction false} DrizzleCompileCorrect(q: Value, row: Row, d: Doc)
    requires WF(q) && NoNulls(row) && RowDoc(row, d)
    ensures Drizzle.Compile(q).Ok? && Drizzle.Compile(q).value.Some?
    ensures EvalSql(Drizzle.Compile(q).value.value, row) == Some(Matches(q, d))
    decreases q, 2
  {
    DrizzleEntriesCorrect(q, 0, row, d);
    var conditions := Drizzle.CompileEntries(q, 0).value;
    var bs := EntryMatches(q, d);
    var ts := SqlTruths(conditions, row);
    assert ts == Defined(bs);
    forall k | 0 <= k < |conditions|
      ensures conditions[k].Some? && EvalSql(conditions[k].value, row) == Some(bs[k])
    {
      assert ts[k] == Some(bs[k]);
    }
    PresentAllSome(conditions);
    var xs := Drizzle.Present(conditions);
    assert Drizzle.Compile(q) == Ok(Drizzle.AndOf(xs));
    forall k | 0 <= k < |xs| ensures EvalSql(xs[k], row) == Some(bs[k]) {
      assert xs[k] == conditions[k].value;
    }
    AndOfEval(xs, row, bs);
    MatchesAllEntries(q, d);
  }

  /** The value of each compiled condition on the row, `None` for an absent one. */
  ghost function SqlTruths(xs: seq<Option<Drizzle.Sql>>, row: Row): (r: seq<Option<bool>>)
    ensures |r| == |xs|
    ensures forall k :: 0 <= k < |xs| ==> r[k] == (if xs[k].Some? then EvalSql(xs[k].value, row) else None)
  {
    seq(|xs|, k requires 0 <= k < |xs| => if xs[k].Some? then EvalSql(xs[k].value, row) else None)
  }

  lemma SqlTruthsAppend(a: seq<Option<Drizzle.Sql>>, b: seq<Option<Drizzle.Sql>>, row: Row)
    ensures SqlTruths(a + b, row) == SqlTruths(a, row) + SqlTruths(b, row)
  {
    var l, r := SqlTruths(a + b, row), SqlTruths(a, row) + SqlTruths(b, row);
    forall k | 0 <= k < |l| ensures l[k] == r[k] {
      if k >= |a| {
        assert (a + b)[k] == b[k - |a|];
      }
    }
  }

  /** Each truth value, as a defined SQL truth value. */
  function Defined(bs: seq<bool>): (r: seq<Option<bool>>)
    ensures |r| == |bs|
    ensures forall k :: 0 <= k < |bs| ==> r[k] == Some(bs[k])
  {
    seq(|bs|, k requires 0 <= k < |bs| => Some(bs[k]))
  }

  /** Whether each entry of an object condition matches, in entry order. */
  ghost function EntryMatches(q: Value, d: Doc): (r: seq<bool>)
    requires q.Obj?
    ensures |r| == |q.fields|
    ensures forall k :: 0 <= k < |q.fields| ==> r[k] == MatchEntry(q, k, d)
  {
    EntryMatchesFrom(q, 0, d)
  }

  /** Whether each entry from the `i`-th on matches, in entry order. */
  ghost function EntryMatchesFrom(q: Value, i: nat, d: Doc): (r: seq<bool>)
    requires q.Obj? && i <= |q.fields|
    ensures |r| == |q.fields| - i
    ensures forall k :: 0 <= k < |r| ==> r[k] == MatchEntry(q, i + k, d)
  {
    seq(|q.fields| - i, k requires 0 <= k < |q.fields| - i => MatchEntry(q, i + k, d))
  }

  lemma EntryMatchesFromStep(q: Value, i: nat, d: Doc)
    requires q.Obj? && i < |q.fields|
    ensures EntryMatchesFrom(q, i, d) == [MatchEntry(q, i, d)] + EntryMatchesFrom(q, i + 1, d)
  {
    var a, b := EntryMatchesFrom(q, i, d), EntryMatchesFrom(q, i + 1, d);
    forall k | 1 <= k < |a| ensures a[k] == b[k - 1] {
      assert i + k == (i + 1) + (k - 1);
    }
  }

  /** An object condition matches exactly when all its entries do. */
  lemma MatchesAllEntries(q: Value, d: Doc)
    requires q.Obj?
    ensures Matches(q, d) == (forall k :: 0 <= k < |EntryMatches(q, d)| ==> EntryMatches(q, d)[k])
  {
    var bs := EntryMatches(q, d);
    assert Json.ForInEntries(q) == q.fields;
    if forall k :: 0 <= k < |bs| ==> bs[k] {
      forall i | 0 <= i < |Json.ForInEntries(q)| ensures MatchEntry(q, i, d) {
        assert bs[i];
      }
    }
  }

  lemma {:induction false} DrizzleEntriesCorrect(q: Value, i: nat, row: Row, d: Doc)
    requires q.Obj? && i <= |q.fields| && NoNulls(row) && RowDoc(row, d)
    requires forall j :: i <= j < |q.fields| ==> WFEntry(q, j)
    ensures Drizzle.CompileEntries(q, i).Ok?
    ensures SqlTruths(Drizzle.CompileEntries(q, i).value, row) == Defined(EntryMatchesFrom(q, i, d))
    decreases q, 1, |q.fields| - i
  {
    assert Json.ForInEntries(q) == q.fields;
    if i < |q.fields| {
      DrizzleEntryCorrect(q, i, row, d);
      DrizzleEntriesCorrect(q, i + 1, row, d);
      var head: seq<Option<Drizzle.Sql>> := Drizzle.CompileEntry(q, i).value;
      var rest: seq<Option<Drizzle.Sql>> := Drizzle.CompileEntries(q, i + 1).value;
      assert Drizzle.CompileEntries(q, i) == Ok(head + rest);
      EntryMatchesFromStep(q, i, d);
      SqlTruthsStep(head, rest, row, MatchEntry(q, i, d), EntryMatchesFrom(q, i + 1, d));
    }
  }

  /** One defined condition of value `b` in front of conditions of values `bs`. */
  lemma SqlTruthsStep(head: seq<Option<Drizzle.Sql>>, rest: seq<Option<Drizzle.Sql>>, row: Row, b: bool, bs: seq<bool>)
    requires |head| == 1 && head[0].Some? && EvalSql(head[0].value, row) == Some(b)
    requires SqlTruths(rest, row) == Defined(bs)
    ensures SqlTruths(head + rest, row) == Defined([b] + bs)
  {
    SqlTruthsAppend(head, rest, row);
    assert SqlTruths(head, row) == [Some(b)];
    assert Defined([b] + bs) == [Some(b)] + Defined(bs);
  }

  lemma {:induction false} DrizzleEntryCorrect(q: Value, i: nat, row: Row, d: Doc)
    requires q.Obj? && i < |q.fields| && WFEntry(q, i) && NoNulls(row) && RowDoc(row, d)
    ensures Drizzle.CompileEntry(q, i).Ok? && |Drizzle.CompileEntry(q, i).value| == 1
    ensures Drizzle.CompileEntry(q, i).value[0].Some?
    ensures EvalSql(Drizzle.CompileEntry(q, i).value[0].value, row) == Some(MatchEntry(q, i, d))
    decreases q, 0
  {
    var (key, value) := q.fields[i];
    if key == "$or" || key == "$and" {
      Json.DollarEntrySmaller(q, i);
      DrizzleAllCorrect(value, 0, row, d);
      DrizzleListEntryCorrect(q, i, row, d);
    } else if key == "$not" {
      Json.DollarEntrySmaller(q, i);
      DrizzleCompileCorrect(value, row, d);
    } else if Json.IsObject(value) {
      DrizzleOperatorCorrect(Drizzle.DrizzleColumn(key), value, row);
    }
  }

  /** An `$or`/`$and` entry whose sub-conditions all compile faithfully. */
  lemma DrizzleListEntryCorrect(q: Value, i: nat, row: Row, d: Doc)
    requires q.Obj? && i < |q.fields| && WFEntry(q, i) && NoNulls(row) && RowDoc(row, d)
    requires q.fields[i].0 == "$or" || q.fields[i].0 == "$and"
    requires var list := q.fields[i].1;
      list.Arr? && Drizzle.CompileAll(list, 0).Ok? &&
      |Drizzle.CompileAll(list, 0).value| == |list.items| &&
      forall k :: 0 <= k < |list.items| ==>
        Drizzle.CompileAll(list, 0).value[k].Some? &&
        EvalSql(Drizzle.CompileAll(list, 0).value[k].value, row) == Some(Matches(list.items[k], d))
    ensures Drizzle.CompileEntry(q, i).Ok? && |Drizzle.CompileEntry(q, i).value| == 1
    ensures Drizzle.CompileEntry(q, i).value[0].Some?
    ensures EvalSql(Drizzle.CompileEntry(q, i).value[0].value, row) == Some(MatchEntry(q, i, d))
  {
    var (key, value) := q.fields[i];
    Json.DollarEntrySmaller(q, i);
    var subs := Drizzle.CompileAll(value, 0).value;
    PresentAllSome(subs);
    var xs := Drizzle.Present(subs);
    var bs := ItemMatches(value.items, d);
    forall k | 0 <= k < |xs| ensures EvalSql(xs[k], row) == Some(bs[k]) {
      assert xs[k] == subs[k].value;
    }
    assert Json.ForInEntries(q)[i] == (key, value);
    if key == "$or" {
      OrOfEval(xs, row, bs);
      assert Drizzle.CompileEntry(q, i) == Ok([Drizzle.OrOf(xs)]);
      AnyItemMatches(value.items, d);
    } else {
      AndOfEval(xs, row, bs);
      assert Drizzle.CompileEntry(q, i) == Ok([Drizzle.AndOf(xs)]);
      EveryItemMatches(value.items, d);
    }
  }

  /** Whether each sub-condition of an `$or`/`$and` list matches, in order. */
  ghost function ItemMatches(items: seq<Value>, d: Doc): (r: seq<bool>)
    ensures |r| == |items|
    ensures forall k :: 0 <= k < |items| ==> r[k] == Matches(items[k], d)
  {
    seq(|items|, k requires 0 <= k < |items| => Matches(items[k], d))
  }

  lemma AnyItemMatches(items: seq<Value>, d: Doc)
    ensures (exists k :: 0 <= k < |ItemMatches(items, d)| && ItemMatches(items, d)[k]) ==
      (exists j :: 0 <= j < |items| && Matches(items[j], d))
  {
    var bs := ItemMatches(items, d);
    if exists k :: 0 <= k < |bs| && bs[k] {
      var k :| 0 <= k < |bs| && bs[k];
      assert Matches(items[k], d);
    }
    if exists j :: 0 <= j < |items| && Matches(items[j], d) {
      var j :| 0 <= j < |items| && Matches(items[j], d);
      assert bs[j];
    }
  }

  lemma EveryItemMatches(items: seq<Value>, d: Doc)
    ensures (forall k :: 0 <= k < |ItemMatches(items, d)| ==> ItemMatches(items, d)[k]) ==
      (forall j :: 0 <= j < |items| ==> Matches(items[j], d))
  {
    var bs := ItemMatches(items, d);
    if !forall k :: 0 <= k < |bs| ==> bs[k] {
      var k :| 0 <= k < |bs| && !bs[k];
      assert !Matches(items[k], d);
    }
    if !forall j :: 0 <= j < |items| ==> Matches(items[j], d) {
      var j :| 0 <= j < |items| && !Matches(items[j], d);
      assert !bs[j];
    }
  }

  lemma {:induction false} DrizzleAllCorrect(list: Value, j: nat, row: Row, d: Doc)
    requires list.Arr? && j <= |list.items| && NoNulls(row) && RowDoc(row, d)
    requires forall k :: 0 <= k < |list.items| ==> WF(list.items[k])
    ensures Drizzle.CompileAll(list, j).Ok?
    ensures |Drizzle.CompileAll(list, j).value| == |list.items| - j
    ensures forall k :: 0 <= k < |list.items| - j ==>
      Drizzle.CompileAll(list, j).value[k].Some? &&
      EvalSql(Drizzle.CompileAll(list, j).value[k].value, row) == Some(Matches(list.items[j + k], d))
    decreases list, 3, |list.items| - j
  {
    if j < |list.items| {
      DrizzleCompileCorrect(list.items[j], row, d);
      DrizzleAllCorrect(list, j + 1, row, d);
    }
  }

  /** Each supported operator compiles to the comparison that means it. */
  lemma DrizzleOperatorCorrect(column: Drizzle.Column, value: Value, row: Row)
    requires WFOperand(value) && NoNulls(row)
    ensures Drizzle.OperatorCondition(column, value) == Ok([Drizzle.OperatorSql(column, value.fields[0].0, value.fields[0].1)])
    ensures Drizzle.OperatorSql(column, value.fields[0].0, value.fields[0].1).Some?
    ensures EvalSql(Drizzle.OperatorSql(column, value.fields[0].0, value.fields[0].1).value, row)
         == Some(OperatorHolds(row(column), value))
  {
  }

  // ---------------------------------------------------------------------------
  // The search filter and its compiler
  // ---------------------------------------------------------------------------

  /** Whether a document satisfies a search filter: all of its conditions. */
  predicate EvalFilter(f: Meli.Filter, doc: Doc)
    decreases f
  {
    forall i :: 0 <= i < |f.atoms| ==> EvalAtom(f.atoms[i], doc)
  }

  predicate EvalAtom(a: Meli.Atom, doc: Doc)
    decreases a
  {
    match a
    case AnyOf(subs) => exists k :: 0 <= k < |subs| && EvalFilter(subs[k], doc)
    case AllOf(subs) => forall k :: 0 <= k < |subs| ==> EvalFilter(subs[k], doc)
    case Negate(sub) => !EvalFilter(sub, doc)
    case Compare(col, op, operand) => CompareHolds(doc(col), op, operand)
    case Member(col, negated, items) => (doc(col) in items) != negated
    case Present(col, positive) => !Json.IsNullish(doc(col)) == positive
    case SourceIn(ids) => doc("ingestionSourceId").Str? && doc("ingestionSourceId").s in ids
  }

  /** The owner lookup agrees with the document: the user owns the document's
      source exactly when the document's `ingestionSource.userId` is that user. */
  ghost predicate OwnerOracle(doc: Doc, owned: Meli.OwnedSources) {
    forall v :: (doc("ingestionSourceId").Str? && doc("ingestionSourceId").s in owned(v))
      <==> doc("ingestionSource.userId") == v
  }

  /** The document an indexed email presents to a condition: key `k` reads the
      attribute `getMeliColumn(k)` names. */
  ghost predicate IndexDoc(doc: Doc, d: Doc) {
    forall k :: d(k) == doc(Meli.MeliColumn(k))
  }

  /** For a well-formed condition and an owner lookup that agrees with the
      index, `mongoToMeli` yields a filter that holds exactly on the documents
      matching the condition. */
  lemma {:induction false} MeliCompileCorrect(q: Value, owned: Meli.OwnedSources, doc: Doc, d: Doc)
    requires WF(q) && OwnerOracle(doc, owned) && IndexDoc(doc, d)
    ensures Meli.Compile(q, owned).Ok?
    ensures EvalFilter(Meli.Compile(q, owned).value, doc) == Matches(q, d)
    decreases q, 2
  {
    MeliEntriesCorrect(q, owned, 0, doc, d);
    var atoms := Meli.CompileEntries(q, owned, 0).value;
    assert Meli.Compile(q, owned) == Ok(Meli.Filter(atoms));
    FilterHoldsAllAtoms(atoms, doc);
    MatchesAllEntries(q, d);
  }

  /** Whether each condition holds on the document, in order. */
  ghost function AtomTruths(atoms: seq<Meli.Atom>, doc: Doc): (r: seq<bool>)
    ensures |r| == |atoms|
    ensures forall k :: 0 <= k < |atoms| ==> r[k] == EvalAtom(atoms[k], doc)
  {
    seq(|atoms|, k requires 0 <= k < |atoms| => EvalAtom(atoms[k], doc))
  }

  lemma AtomTruthsAppend(a: seq<Meli.Atom>, b: seq<Meli.Atom>, doc: Doc)
    ensures AtomTruths(a + b, doc) == AtomTruths(a, doc) + AtomTruths(b, doc)
  {
    var l, r := AtomTruths(a + b, doc), AtomTruths(a, doc) + AtomTruths(b, doc);
    forall k | 0 <= k < |l| ensures l[k] == r[k] {
      if k >= |a| {
        assert (a + b)[k] == b[k - |a|];
      }
    }
  }

  /** A filter holds exactly when all its conditions do. */
  lemma FilterHoldsAllAtoms(atoms: seq<Meli.Atom>, doc: Doc)
    ensures EvalFilter(Meli.Filter(atoms), doc) ==
      (forall k :: 0 <= k < |AtomTruths(atoms, doc)| ==> AtomTruths(atoms, doc)[k])
  {
    var ts := AtomTruths(atoms, doc);
    if forall k :: 0 <= k < |ts| ==> ts[k] {
      forall k | 0 <= k < |atoms| ensures EvalAtom(atoms[k], doc) {
        assert ts[k];
      }
    }
  }

  lemma {:induction false} MeliEntriesCorrect(q: Value, owned: Meli.OwnedSources, i: nat, doc: Doc, d: Doc)
    requires q.Obj? && i <= |q.fields| && OwnerOracle(doc, owned) && IndexDoc(doc, d)
    requires forall j :: i <= j < |q.fields| ==> WFEntry(q, j)
    ensures Meli.CompileEntries(q, owned, i).Ok?
    ensures AtomTruths(Meli.CompileEntries(q, owned, i).value, doc) == EntryMatchesFrom(q, i, d)
    decreases q, 1, |q.fields| - i
  {
    assert Json.ForInEntries(q) == q.fields;
    if i < |q.fields| {
      MeliEntryCorrect(q, owned, i, doc, d);
      MeliEntriesCorrect(q, owned, i + 1, doc, d);
      var head, rest := Meli.CompileEntry(q, owned, i).value, Meli.CompileEntries(q, owned, i + 1).value;
      assert Meli.CompileEntries(q, owned, i) == Ok(head + rest);
      AtomTruthsAppend(head, rest, doc);
      assert AtomTruths(head, doc) == [MatchEntry(q, i, d)];
      EntryMatchesFromStep(q, i, d);
    }
  }

  lemma {:induction false} MeliEntryCorrect(q: Value, owned: Meli.OwnedSources, i: nat, doc: Doc, d: Doc)
    requires q.Obj? && i < |q.fields| && WFEntry(q, i) && OwnerOracle(doc, owned) && IndexDoc(doc, d)
    ensures Meli.CompileEntry(q, owned, i).Ok? && |Meli.CompileEntry(q, owned, i).value| == 1
    ensures EvalAtom(Meli.CompileEntry(q, owned, i).value[0], doc) == MatchEntry(q, i, d)
    decreases q, 0
  {
    var (key, value) := q.fields[i];
    if key == "$or" || key == "$and" {
      Json.DollarEntrySmaller(q, i);
      MeliAllCorrect(value, owned, 0, doc, d);
      MeliListEntryCorrect(q, owned, i, doc, d);
    } else if key == "$not" {
      Json.DollarEntrySmaller(q, i);
      MeliCompileCorrect(value, owned, doc, d);
    } else if Json.IsObject(value) {
      MeliOperatorCorrect(Meli.MeliColumn(key), value, doc);
    }
  }

  /** An `$or`/`$and` entry whose sub-conditions compile faithfully pushes
      one condition that holds exactly when the entry matches. */
  lemma MeliListEntryCorrect(q: Value, owned: Meli.OwnedSources, i: nat, doc: Doc, d: Doc)
    requires q.Obj? && i < |q.fields| && WFEntry(q, i) && OwnerOracle(doc, owned) && IndexDoc(doc, d)
    requires q.fields[i].0 == "$or" || q.fields[i].0 == "$and"
    requires var list := q.fields[i].1;
      list.Arr? && Meli.CompileAll(list, owned, 0).Ok? &&
      |Meli.CompileAll(list, owned, 0).value| == |list.items| &&
      forall k :: 0 <= k < |list.items| ==>
        EvalFilter(Meli.CompileAll(list, owned, 0).value[k], doc) == Matches(list.items[0 + k], d)
    ensures Meli.CompileEntry(q, owned, i).Ok? && |Meli.CompileEntry(q, owned, i).value| == 1
    ensures EvalAtom(Meli.CompileEntry(q, owned, i).value[0], doc) == MatchEntry(q, i, d)
  {
    var (key, value) := q.fields[i];
    Json.DollarEntrySmaller(q, i);
    var subs := Meli.CompileAll(value, owned, 0).value;
    assert Json.ForInEntries(q)[i] == (key, value);
    if key == "$or" {
      assert Meli.CompileEntry(q, owned, i) == Ok([Meli.AnyOf(subs)]);
      if MatchEntry(q, i, d) {
        var j :| 0 <= j < |value.items| && Matches(value.items[j], d);
        assert EvalFilter(subs[0 + j], doc);
      }
      if EvalAtom(Meli.AnyOf(subs), doc) {
        var k :| 0 <= k < |subs| && EvalFilter(subs[k], doc);
        assert Matches(value.items[0 + k], d);
      }
    } else {
      assert Meli.CompileEntry(q, owned, i) == Ok([Meli.AllOf(subs)]);
      if MatchEntry(q, i, d) {
        forall k | 0 <= k < |subs| ensures EvalFilter(subs[k], doc) {
          assert Matches(value.items[0 + k], d);
        }
      }
      if EvalAtom(Meli.AllOf(subs), doc) {
        forall j | 0 <= j < |value.items| ensures Matches(value.items[j], d) {
          assert EvalFilter(subs[0 + j], doc);
        }
      }
    }
  }

  lemma {:induction false} MeliAllCorrect(list: Value, owned: Meli.OwnedSources, j: nat, doc: Doc, d: Doc)
    requires list.Arr? && j <= |list.items| && OwnerOracle(doc, owned) && IndexDoc(doc, d)
    requires forall k :: 0 <= k < |list.items| ==> WF(list.items[k])
    ensures Meli.CompileAll(list, owned, j).Ok?
    ensures |Meli.CompileAll(list, owned, j).value| == |list.items| - j
    ensures forall k :: 0 <= k < |list.items| - j ==>
      EvalFilter(Meli.CompileAll(list, owned, j).value[k], doc) == Matches(list.items[j + k], d)
    decreases list, 3, |list.items| - j
  {
    if j < |list.items| {
      MeliCompileCorrect(list.items[j], owned, doc, d);
      MeliAllCorrect(list, owned, j + 1, doc, d);
    }
  }

  /** Each supported operator becomes the search condition that means it. */
  lemma MeliOperatorCorrect(column: string, value: Value, doc: Doc)
    requires WFOperand(value)
    ensures Meli.OperatorCondition(column, value).Ok? && |Meli.OperatorCondition(column, value).value| == 1
    ensures EvalAtom(Meli.OperatorCondition(column, value).value[0], doc) == OperatorHolds(doc(column), value)
  {
  }

  // ---------------------------------------------------------------------------
  // The two compilers agree
  // ---------------------------------------------------------------------------

  /** When a row and an indexed document describe the same email (each key
      reads the same value `d(k)` through either column naming), the relational
      filter and the search filter compiled from one well-formed condition
      accept it alike. */
  lemma CompilersAgree(q: Value, owned: Meli.OwnedSources, row: Row, doc: Doc, d: Doc)
    requires WF(q) && NoNulls(row) && OwnerOracle(doc, owned)
    requires RowDoc(row, d) && IndexDoc(doc, d)
    ensures Drizzle.Compile(q).Ok? && Drizzle.Compile(q).value.Some? && Meli.Compile(q, owned).Ok?
    ensures EvalSql(Drizzle.Compile(q).value.value, row) == Some(EvalFilter(Meli.Compile(q, owned).value, doc))
  {
    DrizzleCompileCorrect(q, row, d);
    MeliCompileCorrect(q, owned, doc, d);
  }

  /** Where a row does hold NULL, SQL and the condition part ways: `{f: {$ne: v}}`
      matches a document whose `f` is null, but its compiled expression is
      UNKNOWN on that row, so the row is filtered out. */
  lemma NeOnNullColumn(v: Value)
    requires IsScalar(v)
    ensures var q := Json.Obj([("f", Json.Obj([("$ne", v)]))]);
      var row: Row := c => Json.Null;
      var d: Doc := k => Json.Null;
      Matches(q, d) &&
      Drizzle.Compile(q) == Ok(Some(Drizzle.Not(Drizzle.Eq(Drizzle.Ident("f"), v)))) &&
      EvalSql(Drizzle.Compile(q).value.value, row).None?
  {
    var q := Json.Obj([("f", Json.Obj([("$ne", v)]))]);
    var d: Doc := k => Json.Null;
    assert MatchEntry(q, 0, d);
    NeCompiles(v);
  }

  /** `{f: {$ne: v}}` compiles to `NOT (f = v)`. */
  lemma NeCompiles(v: Value)
    requires IsScalar(v)
    ensures Drizzle.Compile(Json.Obj([("f", Json.Obj([("$ne", v)]))])) ==
      Ok(Some(Drizzle.Not(Drizzle.Eq(Drizzle.Ident("f"), v))))
  {
    var q := Json.Obj([("f", Json.Obj([("$ne", v)]))]);
    var c := Drizzle.Not(Drizzle.Eq(Drizzle.Ident("f"), v));
    ColumnOfPlainName();
    assert Drizzle.CompileEntry(q, 0) == Ok([Some(c)]);
    assert Drizzle.CompileEntries(q, 1) == Ok([]);
    assert [Some(c)] + [] == [Some(c)];
    assert Drizzle.CompileEntries(q, 0) == Ok([Some(c)]);
    assert Drizzle.Present([Some(c)]) == [c] + Drizzle.Present([]);
  }

  /** The key `f` names the column `f`. */
  lemma ColumnOfPlainName()
    ensures Drizzle.DrizzleColumn("f") == Drizzle.Ident("f")
  {
    assert Drizzle.CamelToSnake("f") == "f";
    assert JsStrings.Split("f", ".") == ["f"];
  }

  // ---------------------------------------------------------------------------
  // Deny inversion
  // ---------------------------------------------------------------------------

  /** A deny condition the inversion handles: an object whose keys are field
      names (not `$or`, `$and` or `$not`). */
  predicate PlainCondition(c: Value) {
    c.Obj? && Json.UniqueKeys(c.fields) &&
    forall j :: 0 <= j < |c.fields| ==> c.fields[j].0 != "$or" && c.fields[j].0 != "$and" && c.fields[j].0 != "$not"
  }

  /** A document passes one inverted deny condition when every one of its
      fields differs from the value the condition names. */
  lemma NeConditionMatches(c: Value, d: Doc)
    requires PlainCondition(c)
    ensures Matches(FilterBuilder.NeCondition(c), d) <==>
      forall j :: 0 <= j < |c.fields| ==> d(c.fields[j].0) != c.fields[j].1
  {
    FilterBuilder.NeConditionOfObject(c);
    var n := FilterBuilder.NeCondition(c);
    assert Json.ForInEntries(n) == n.fields;
    forall j | 0 <= j < |c.fields| ensures MatchEntry(n, j, d) <==> d(c.fields[j].0) != c.fields[j].1 {
      NeEntryMatches(c, j, d);
    }
  }

  /** One entry of the inverted deny condition: `{k: {$ne: v}}` holds exactly
      when the document's `k` differs from `v`. */
  lemma NeEntryMatches(c: Value, j: nat, d: Doc)
    requires PlainCondition(c) && j < |c.fields|
    ensures |Json.ForInEntries(FilterBuilder.NeCondition(c))| == |c.fields|
    ensures MatchEntry(FilterBuilder.NeCondition(c), j, d) <==> d(c.fields[j].0) != c.fields[j].1
  {
    FilterBuilder.NeConditionOfObject(c);
    var n := FilterBuilder.NeCondition(c);
    assert Json.ForInEntries(n) == n.fields;
    assert n.fields[j] == (c.fields[j].0, Json.Obj([("$ne", c.fields[j].1)]));
  }

  /** The deny-inversion query, as written, lets a document through exactly when
      each field named in each deny condition differs from the named value. */
  lemma DenyQueryMatches(cannot: seq<Value>, d: Doc)
    requires forall i :: 0 <= i < |cannot| ==> cannot[i].Obj? && PlainCondition(cannot[i])
    ensures Matches(FilterBuilder.DenyQuery(cannot), d) <==>
      forall i :: 0 <= i < |cannot| ==> forall j :: 0 <= j < |cannot[i].fields| ==> d(cannot[i].fields[j].0) != cannot[i].fields[j].1
  {
    var q := FilterBuilder.DenyQuery(cannot);
    assert Json.ForInEntries(q) == q.fields;
    assert Matches(q, d) <==> MatchEntry(q, 0, d);
    forall i | 0 <= i < |cannot|
      ensures Matches(q.fields[0].1.items[i], d) <==>
        forall j :: 0 <= j < |cannot[i].fields| ==> d(cannot[i].fields[j].0) != cannot[i].fields[j].1
    {
      NeConditionMatches(cannot[i], d);
    }
  }

  /** As written, a two-field deny condition excludes a document that matches
      only one of its fields: `{a: 1, b: 2}` denies nothing to a document with
      `a = 1, b = 3`, yet the inverted query rejects it. */
  lemma DenyInversionOverExcludes()
    ensures var c := Json.Obj([("a", Json.Num(1)), ("b", Json.Num(2))]);
      var d: Doc := k => if k == "a" then Json.Num(1) else Json.Num(3);
      !Matches(c, d) && !Matches(FilterBuilder.DenyQuery([c]), d)
  {
    var c := Json.Obj([("a", Json.Num(1)), ("b", Json.Num(2))]);
    var d: Doc := k => if k == "a" then Json.Num(1) else Json.Num(3);
    assert Json.ForInEntries(c) == c.fields;
    assert !MatchEntry(c, 1, d);
    assert PlainCondition(c);
    DenyQueryMatches([c], d);
    assert [c][0] == c;
    assert d(c.fields[0].0) == c.fields[0].1;
  }

  /** For deny conditions on one field with a scalar value, the inversion as
      written does what is intended. */
  lemma NeConditionSingleField(c: Value, d: Doc)
    requires PlainCondition(c) && |c.fields| == 1 && IsScalar(c.fields[0].1)
    ensures Matches(FilterBuilder.NeCondition(c), d) == !Matches(c, d)
  {
    NeConditionMatches(c, d);
    assert Json.ForInEntries(c) == c.fields;
    assert Matches(c, d) <==> MatchEntry(c, 0, d);
  }

  /** The intended inversion lets a document through exactly when it matches
      none of the deny conditions. */
  lemma IntendedDenyQueryMatches(cannot: seq<Value>, d: Doc)
    ensures Matches(FilterBuilder.IntendedDenyQuery(cannot), d) <==> forall i :: 0 <= i < |cannot| ==> !Matches(cannot[i], d)
  {
    var q := FilterBuilder.IntendedDenyQuery(cannot);
    assert Json.ForInEntries(q) == q.fields;
    assert Matches(q, d) <==> MatchEntry(q, 0, d);
    forall i | 0 <= i < |cannot| ensures Matches(q.fields[0].1.items[i], d) <==> !Matches(cannot[i], d) {
      var n := Json.Obj([("$not", cannot[i])]);
      assert Json.ForInEntries(n) == n.fields;
      assert Matches(n, d) <==> MatchEntry(n, 0, d);
    }
  }

  /** Well-formed deny conditions give a well-formed intended query, so both
      compilers keep its meaning. */
  lemma IntendedDenyQueryWF(cannot: seq<Value>)
    requires |cannot| > 0 && forall i :: 0 <= i < |cannot| ==> WF(cannot[i])
    ensures WF(FilterBuilder.IntendedDenyQuery(cannot))
  {
    var q := FilterBuilder.IntendedDenyQuery(cannot);
    forall i | 0 <= i < |cannot| ensures WF(q.fields[0].1.items[i]) {
      var n := Json.Obj([("$not", cannot[i])]);
      assert WFEntry(n, 0);
    }
    assert WFEntry(q, 0);
  }
}
