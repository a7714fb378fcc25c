/** Compilation of a Mongo-style condition object into the boolean SQL
    expression the relational query builder is given. The expression is kept as
    an abstract syntax tree; the builder's own rendering to SQL text is not part
    of the model. */
module MongoToDrizzle {
  import opened Wrappers
  import Json
  import JsStrings

  type Value = Json.Value

  /** A column reference: a raw `"table"."column"` for a field reached through
      a known relation, otherwise a quoted identifier. */
  datatype Column = Qualified(table: string, column: string) | Ident(name: string)

  /** The boolean expressions the builder's `eq`, `gt`, …, `and`, `or`, `not`
      helpers produce, plus the constant `1=0`. */
  datatype Sql =
    | Eq(col: Column, operand: Value)
    | Gt(col: Column, operand: Value)
    | Gte(col: Column, operand: Value)
    | Lt(col: Column, operand: Value)
    | Lte(col: Column, operand: Value)
    | InArray(col: Column, operand: Value)
    | IsNull(col: Column)
    | Not(arg: Sql)
    | And(args: seq<Sql>)
    | Or(args: seq<Sql>)
    | Never

  /** The builder's `and(...xs)`: no operand gives no expression, one operand is
      returned as it is, more are joined. */
  function AndOf(xs: seq<Sql>): (r: Option<Sql>)
    ensures r.None? <==> |xs| == 0
    ensures |xs| == 1 ==> r == Some(xs[0])
  {
    if |xs| == 0 then None else if |xs| == 1 then Some(xs[0]) else Some(And(xs))
  }

  /** The builder's `or(...xs)`, collapsing like `AndOf`. */
  function OrOf(xs: seq<Sql>): (r: Option<Sql>)
    ensures r.None? <==> |xs| == 0
    ensures |xs| == 1 ==> r == Some(xs[0])
  {
    if |xs| == 0 then None else if |xs| == 1 then Some(xs[0]) else Some(Or(xs))
  }

  /** `xs.filter(Boolean)` over optional expressions: the present ones, in order. */
  function Present(xs: seq<Option<Sql>>): (r: seq<Sql>)
    ensures |r| <= |xs|
    ensures forall x :: x in r <==> Some(x) in xs
  {
    if xs == [] then []
    else (if xs[0].Some? then [xs[0].value] else []) + Present(xs[1..])
  }

  // ---------------------------------------------------------------------------
  // Columns
  // ---------------------------------------------------------------------------

  /** `camelToSnakeCase`: every ASCII capital becomes `_` and its lower case. */
  function CamelToSnake(s: string): (r: string)
    ensures forall i :: 0 <= i < |r| ==> !JsStrings.IsAsciiUpper(r[i])
    ensures |r| >= |s|
    ensures |s| == 1 && JsStrings.IsAsciiUpper(s[0]) ==> r == ['_', JsStrings.AsciiLower(s[0])]
    ensures |s| == 1 && !JsStrings.IsAsciiUpper(s[0]) ==> r == s
  {
    if s == [] then []
    else (if JsStrings.IsAsciiUpper(s[0]) then ['_', JsStrings.AsciiLower(s[0])] else [s[0]]) + CamelToSnake(s[1..])
  }

  /** The conversion works character by character: converting a
      concatenation converts each part. With the single-character cases of
      `CamelToSnake`'s contract this says every capital becomes `_` and its
      lower case and every other character is kept, in place. */
  lemma {:induction false} CamelToSnakeAppend(a: string, b: string)
    ensures CamelToSnake(a + b) == CamelToSnake(a) + CamelToSnake(b)
  {
    if a == [] {
      assert a + b == b;
    } else {
      assert (a + b)[0] == a[0] && (a + b)[1..] == a[1..] + b;
      SnakeUnfold(a);
      SnakeUnfold(a + b);
      CamelToSnakeAppend(a[1..], b);
      var h, x, y := SnakeOf(a[0]), CamelToSnake(a[1..]), CamelToSnake(b);
      assert h + (x + y) == (h + x) + y;
    }
  }

  /** What the conversion writes for one character. */
  function SnakeOf(c: char): string {
    if JsStrings.IsAsciiUpper(c) then ['_', JsStrings.AsciiLower(c)] else [c]
  }

  lemma SnakeUnfold(s: string)
    requires s != []
    ensures CamelToSnake(s) == SnakeOf(s[0]) + CamelToSnake(s[1..])
  {
  }

  /** A name without capitals is already in snake case. */
  lemma CamelToSnakeKeepsLowerCase(s: string)
    requires forall i :: 0 <= i < |s| ==> !JsStrings.IsAsciiUpper(s[i])
    ensures CamelToSnake(s) == s
  {
  }

  /** `getDrizzleColumn`: a dotted key whose first segment `relationToTableMap`
      resolves refers to its second segment, snake-cased, in the table the map
      gives; every other key is the snake-cased key itself. */
  function DrizzleColumn(key: string): (r: Column)
    ensures var parts := JsStrings.Split(key, ".");
      && (|parts| > 1 && parts[0] == "ingestionSource" ==>
            r == Qualified("ingestion_sources", CamelToSnake(parts[1])))
      && (|parts| > 1 && parts[0] in InheritedNames ==>
            r == Qualified(InheritedText(parts[0]), CamelToSnake(parts[1])))
      && (|parts| <= 1 || (parts[0] != "ingestionSource" && parts[0] !in InheritedNames) ==>
            r == Ident(CamelToSnake(key)))
  {
    var parts := JsStrings.Split(key, ".");
    if |parts| > 1 && RelationTable(parts[0]).Some? then
      Qualified(RelationTable(parts[0]).value, CamelToSnake(parts[1]))
    else
      Ident(CamelToSnake(key))
  }

  /** The properties every object literal inherits from `Object.prototype`
      in Node.js: `relationToTableMap[name]` finds them too. */
  const InheritedNames: set<string> := {
    "constructor", "__defineGetter__", "__defineSetter__", "hasOwnProperty",
    "__lookupGetter__", "__lookupSetter__", "isPrototypeOf", "propertyIsEnumerable",
    "toString", "valueOf", "__proto__", "toLocaleString"
  }

  /** The text an inherited property becomes inside the template literal:
      `Object.prototype` itself for `__proto__`, otherwise a native function,
      `constructor` being `Object`. */
  function InheritedText(name: string): string {
    if name == "__proto__" then "[object Object]"
    else if name == "constructor" then "function Object() { [native code] }"
    else "function " + name + "() { [native code] }"
  }

  /** `relationToTableMap[relation]` when it is truthy: the own entry, or an
      inherited property, which is an object or a function. */
  function RelationTable(relation: string): Option<string> {
    if relation == "ingestionSource" then Some("ingestion_sources")
    else if relation in InheritedNames then Some(InheritedText(relation))
    else None
  }

  /** A key whose relation is an inherited property name takes the relation
      branch: `constructor.id` names column `id` of a "table" that is the
      text of the `Object` function, not the identifier `constructor.id`. */
  lemma InheritedRelationTaken()
    ensures DrizzleColumn("constructor.id") == Qualified("function Object() { [native code] }", "id")
  {
    assert "constructor.id" == "constructor" + ['.'] + "id";
    JsStrings.SplitAtChar("constructor", '.', "id");
    JsStrings.SplitWithoutChar("id", '.');
    CamelToSnakeKeepsLowerCase("id");
  }

  // ---------------------------------------------------------------------------
  // mongoToDrizzle, as a function
  // ---------------------------------------------------------------------------

  const MapTypeError := "TypeError: value.map is not a function"

  /** What `mongoToDrizzle(q)` returns: `None` for `undefined`, `Err` when it throws. */
  function Compile(q: Value): Result<Option<Sql>>
    decreases q, 2
  {
    match CompileEntries(q, 0)
    case Err(e) => Err(e)
    case Ok(conditions) =>
      Ok(if |conditions| == 0 then None else AndOf(Present(conditions)))
  }

  /** The `conditions` pushed for the entries of `q` from the `i`-th on; `None`
      stands for a pushed `undefined`. */
  function CompileEntries(q: Value, i: nat): Result<seq<Option<Sql>>>
    decreases q, 1, |Json.ForInEntries(q)| - i
  {
    if i >= |Json.ForInEntries(q)| then Ok([])
    else
      match CompileEntry(q, i)
      case Err(e) => Err(e)
      case Ok(pushed) =>
        match CompileEntries(q, i + 1)
        case Err(e) => Err(e)
        case Ok(rest) => Ok(pushed + rest)
  }

  /** What one entry `(key, value)` of `q` pushes: nothing, or one expression
      (which for `$or`/`$and` may be `undefined`). */
  function CompileEntry(q: Value, i: nat): Result<seq<Option<Sql>>>
    requires i < |Json.ForInEntries(q)|
    decreases q, 0
  {
    var (key, value) := Json.ForInEntries(q)[i];
    if key == "$or" || key == "$and" then
      Json.DollarEntrySmaller(q, i);
      if !value.Arr? then Err(MapTypeError)
      else
        match CompileAll(value, 0)
        case Err(e) => Err(e)
        case Ok(subs) =>
          Ok([if key == "$or" then OrOf(Present(subs)) else AndOf(Present(subs))])
    else if key == "$not" then
      Json.DollarEntrySmaller(q, i);
      match Compile(value)
      case Err(e) => Err(e)
      case Ok(sub) => Ok(if sub.Some? then [Some(Not(sub.value))] else [])
    else
      var column := DrizzleColumn(key);
      if Json.IsObject(value) then
        OperatorCondition(column, value)
      else
        Ok([Some(Eq(column, value))])
  }

  /** `value.map(mongoToDrizzle)` over the sub-conditions `list.items[j..]`. */
  function CompileAll(list: Value, j: nat): Result<seq<Option<Sql>>>
    requires list.Arr?
    decreases list, 3, |list.items| - j
  {
    if j >= |list.items| then Ok([])
    else
      match Compile(list.items[j])
      case Err(e) => Err(e)
      case Ok(sub) =>
        match CompileAll(list, j + 1)
        case Err(e) => Err(e)
        case Ok(rest) => Ok([sub] + rest)
  }

  /** The `switch` on the first key of an operator object. */
  function OperatorCondition(column: Column, value: Value): Result<seq<Option<Sql>>>
    requires Json.IsObject(value)
  {
    var ops := Json.ForInEntries(value);
    if |ops| == 0 then Ok([])
    else
      var (operator, operand) := ops[0];
      Ok(match OperatorSql(column, operator, operand)
         case None => []
         case Some(c) => [Some(c)])
  }

  function OperatorSql(column: Column, operator: string, operand: Value): Option<Sql> {
    if operator == "$eq" then Some(Eq(column, operand))
    else if operator == "$ne" then Some(Not(Eq(column, operand)))
    else if operator == "$gt" then Some(Gt(column, operand))
    else if operator == "$gte" then Some(Gte(column, operand))
    else if operator == "$lt" then Some(Lt(column, operand))
    else if operator == "$lte" then Some(Lte(column, operand))
    else if operator == "$in" then Some(InArray(column, operand))
    else if operator == "$nin" then Some(Not(InArray(column, operand)))
    else if operator == "$exists" then
      Some(if Json.Truthy(operand) then Not(IsNull(column)) else IsNull(column))
    else None
  }

  // ---------------------------------------------------------------------------
  // mongoToDrizzle, as the source runs it
  // ---------------------------------------------------------------------------

  /** `mongoToDrizzle(query)`: one pass over the entries of the query that
      pushes each entry's condition, recursing into `$or`, `$and` and `$not`. */
  method MongoToDrizzle(query: Value) returns (r: Result<Option<Sql>>)
    ensures r == Compile(query)
    decreases query, 1
  {
    var entries := Json.ForInEntries(query);
    var conditions: seq<Option<Sql>> := [];
    var i := 0;
    ThenEmpty(CompileEntries(query, 0));
    while i < |entries|
      invariant 0 <= i <= |entries|
      invariant CompileEntries(query, 0) == Then(conditions, CompileEntries(query, i))
    {
      var pushed := EntryCondition(query, i);
      if pushed.Err? {
        return Err(pushed.error);
      }
      ThenAssoc(conditions, pushed.value, CompileEntries(query, i + 1));
      conditions := conditions + pushed.value;
      i := i + 1;
    }
    assert conditions + [] == conditions;
    if |conditions| == 0 {
      return Ok(None);
    }
    return Ok(AndOf(Present(conditions)));
  }

  /** One turn of the loop of `mongoToDrizzle`: what entry `i` of `query`
      pushes, or the error it throws. */
  method EntryCondition(query: Value, i: nat) returns (r: Result<seq<Option<Sql>>>)
    requires i < |Json.ForInEntries(query)|
    ensures r == CompileEntry(query, i)
    decreases query, 0
  {
    var (key, value) := Json.ForInEntries(query)[i];
    var pushed: seq<Option<Sql>>;
    if key == "$or" || key == "$and" {
      Json.DollarEntrySmaller(query, i);
      if !value.Arr? {
        return Err(MapTypeError);
      }
      var compiled := CompileList(value);
      if compiled.Err? {
        return Err(compiled.error);
      }
      var subs := compiled.value;
      pushed := [if key == "$or" then OrOf(Present(subs)) else AndOf(Present(subs))];
    } else if key == "$not" {
      Json.DollarEntrySmaller(query, i);
      var subQuery := MongoToDrizzle(value);
      if subQuery.Err? {
        return Err(subQuery.error);
      }
      pushed := if subQuery.value.Some? then [Some(Not(subQuery.value.value))] else [];
    } else {
      var column := DrizzleColumn(key);
      if Json.IsObject(value) {
        var operators := Json.ForInEntries(value);
        pushed := [];
        if |operators| > 0 {
          var c := OperatorSql(column, operators[0].0, operators[0].1);
          if c.Some? {
            pushed := [c];
          }
        }
      } else {
        pushed := [Some(Eq(column, value))];
      }
    }
    return Ok(pushed);
  }

  /** The `.map(mongoToDrizzle)` over the array of an `$or` or `$and`. */
  method CompileList(list: Value) returns (r: Result<seq<Option<Sql>>>)
    requires list.Arr?
    ensures r == CompileAll(list, 0)
    decreases list, 0
  {
    var subs: seq<Option<Sql>> := [];
    var j := 0;
    ThenEmpty(CompileAll(list, 0));
    while j < |list.items|
      invariant 0 <= j <= |list.items|
      invariant CompileAll(list, 0) == Then(subs, CompileAll(list, j))
    {
      var sub := MongoToDrizzle(list.items[j]);
      if sub.Err? {
        return Err(sub.error);
      }
      ThenAssoc(subs, [sub.value], CompileAll(list, j + 1));
      subs := subs + [sub.value];
      j := j + 1;
    }
    assert subs + [] == subs;
    return Ok(subs);
  }
}
