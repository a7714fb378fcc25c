/** Compilation of a Mongo-style condition object into the filter string the
    search engine is given. The filter is described first as a small syntax
    tree (`Atom`, `Filter`) with its rendering; the compiler as the source runs
    it builds the string directly and is proved to produce that rendering. */
module MongoToMeli {
  import opened Wrappers
  import Json
  import JsStrings
  import MongoToDrizzle

  type Value = Json.Value

  /** The ids of the ingestion sources a user owns, as the single database
      lookup of the compiler returns them (`sourcesOwnedBy(userId)`). */
  type OwnedSources = Value -> seq<string>

  // ---------------------------------------------------------------------------
  // Columns and operands
  // ---------------------------------------------------------------------------

  /** `snakeToCamelCase`: every `_` followed by an ASCII lower-case letter is
      replaced by that letter in upper case, scanning left to right. */
  function SnakeToCamel(s: string): (r: string)
    ensures |r| <= |s|
    ensures |s| == 2 && s[0] == '_' && JsStrings.IsAsciiLower(s[1]) ==> r == [JsStrings.AsciiUpper(s[1])]
    ensures |s| == 1 ==> r == s
    decreases |s|
  {
    if s == [] then []
    else if |s| >= 2 && s[0] == '_' && JsStrings.IsAsciiLower(s[1]) then
      [JsStrings.AsciiUpper(s[1])] + SnakeToCamel(s[2..])
    else
      [s[0]] + SnakeToCamel(s[1..])
  }

  /** A part that does not end in `_` is converted on its own: no `_x` pair
      straddles the join. With the contract's two-character and
      one-character cases this says each `_x` becomes `X` and nothing else
      changes. */
  lemma {:induction false} SnakeToCamelAppend(a: string, b: string)
    requires a == [] || a[|a| - 1] != '_'
    ensures SnakeToCamel(a + b) == SnakeToCamel(a) + SnakeToCamel(b)
    decreases |a|
  {
    if a == [] {
      assert a + b == b;
    } else {
      var k := SnakeStep(a);
      assert (a + b)[0] == a[0] && (|a| >= 2 ==> (a + b)[1] == a[1]);
      assert SnakeStep(a + b) == k && SnakeHead(a + b) == SnakeHead(a);
      SnakeUnfold(a);
      SnakeUnfold(a + b);
      DropAppend(a, b, k);
      SnakeToCamelAppend(a[k..], b);
      var h, x, y := SnakeHead(a), SnakeToCamel(a[k..]), SnakeToCamel(b);
      assert h + (x + y) == (h + x) + y;
    }
  }

  /** How many characters the scan consumes at the start of `s`, and what it
      writes for them. */
  function SnakeStep(s: string): nat
    requires s != []
  {
    if |s| >= 2 && s[0] == '_' && JsStrings.IsAsciiLower(s[1]) then 2 else 1
  }

  function SnakeHead(s: string): string
    requires s != []
  {
    if |s| >= 2 && s[0] == '_' && JsStrings.IsAsciiLower(s[1]) then [JsStrings.AsciiUpper(s[1])] else [s[0]]
  }

  lemma SnakeUnfold(s: string)
    requires s != []
    ensures SnakeStep(s) <= |s|
    ensures SnakeToCamel(s) == SnakeHead(s) + SnakeToCamel(s[SnakeStep(s)..])
  {
  }

  lemma DropAppend(a: string, b: string, k: nat)
    requires k <= |a|
    ensures (a + b)[k..] == a[k..] + b
  {
  }

  /** Camel case is recovered from the column name the relational compiler
      derives for it: `SnakeToCamel` undoes `CamelToSnake` on any name
      without `_`. */
  lemma {:induction false} CamelSnakeRoundTrip(s: string)
    requires '_' !in s
    ensures SnakeToCamel(MongoToDrizzle.CamelToSnake(s)) == s
  {
    if s != [] {
      var c, rest := s[0], s[1..];
      assert '_' !in rest;
      CamelSnakeRoundTrip(rest);
      var t := MongoToDrizzle.CamelToSnake(rest);
      if JsStrings.IsAsciiUpper(c) {
        var lc := JsStrings.AsciiLower(c);
        assert MongoToDrizzle.CamelToSnake(s) == ['_', lc] + t;
        assert (['_', lc] + t)[2..] == t;
        assert JsStrings.AsciiUpper(lc) == c;
      } else {
        assert MongoToDrizzle.CamelToSnake(s) == [c] + t;
        assert ([c] + t)[1..] == t;
      }
    }
  }

  /** A name with no `_` is kept as it is. */
  lemma SnakeToCamelWithoutUnderscore(s: string)
    requires '_' !in s
    ensures SnakeToCamel(s) == s
  {
    if s != [] {
      assert '_' !in s[1..];
      SnakeToCamelWithoutUnderscore(s[1..]);
    }
  }

  /** `getMeliColumn`: a dotted key keeps its first two segments joined by `.`;
      any other key is camel-cased. */
  function MeliColumn(key: string): (r: string)
    ensures var parts := JsStrings.Split(key, ".");
      |parts| > 1 ==> r == parts[0] + "." + parts[1]
    ensures |JsStrings.Split(key, ".")| <= 1 ==> r == SnakeToCamel(key)
  {
    var parts := JsStrings.Split(key, ".");
    if |parts| > 1 then parts[0] + "." + parts[1] else SnakeToCamel(key)
  }

  /** `quoteIfString`: a string operand is wrapped in double quotes. */
  function QuoteIfString(v: Value): (r: Value)
    ensures v.Str? ==> r == Json.Str("\"" + v.s + "\"")
    ensures !v.Str? ==> r == v
  {
    if v.Str? then Json.Str("\"" + v.s + "\"") else v
  }

  /** `items.map(quoteIfString).join(', ')`. */
  function QuotedList(items: seq<Value>): string {
    JsStrings.Join(seq(|items|, i requires 0 <= i < |items| =>
      var q := QuoteIfString(items[i]);
      if Json.IsNullish(q) then "" else Json.Display(q)), ", ")
  }

  /** `ids.map(id => `"${id}"`).join(', ')`. */
  function QuotedIds(ids: seq<string>): string {
    JsStrings.Join(seq(|ids|, i requires 0 <= i < |ids| => "\"" + ids[i] + "\""), ", ")
  }

  // ---------------------------------------------------------------------------
  // The filter, as a syntax tree
  // ---------------------------------------------------------------------------

  datatype CmpOp = EqOp | NeOp | GtOp | GteOp | LtOp | LteOp {
    function Symbol(): string {
      match this
      case EqOp => "="
      case NeOp => "!="
      case GtOp => ">"
      case GteOp => ">="
      case LtOp => "<"
      case LteOp => "<="
    }
    /** `=` and `!=` quote a string operand; the ordering operators do not. */
    predicate Quotes() {
      this == EqOp || this == NeOp
    }
  }

  /** A filter: a list of conditions joined with ` AND `. */
  datatype Filter = Filter(atoms: seq<Atom>)

  /** One condition of a filter. */
  datatype Atom =
    | AnyOf(subs: seq<Filter>)
    | AllOf(subs: seq<Filter>)
    | Negate(sub: Filter)
    | Compare(col: string, op: CmpOp, operand: Value)
    | Member(col: string, negated: bool, items: seq<Value>)
    | Present(col: string, positive: bool)
    | SourceIn(ids: seq<string>)

  /** The text of a filter: its conditions joined with ` AND `. */
  function Render(f: Filter): string
    decreases f, 1
  {
    JsStrings.Join(RenderEach(f, 0), " AND ")
  }

  function RenderEach(f: Filter, i: nat): (r: seq<string>)
    decreases f, 0, |f.atoms| - i
    ensures |r| == if i <= |f.atoms| then |f.atoms| - i else 0
    ensures forall j :: 0 <= j < |r| ==> r[j] == RenderAtom(f.atoms[i + j])
  {
    if i >= |f.atoms| then []
    else
      var rest := RenderEach(f, i + 1);
      assert forall j :: 1 <= j <= |rest| ==> ([RenderAtom(f.atoms[i])] + rest)[j] == rest[j - 1];
      [RenderAtom(f.atoms[i])] + rest
  }

  /** The text the source pushes for one condition. */
  function RenderAtom(a: Atom): string
    decreases a
  {
    match a
    case AnyOf(subs) => "(" + JsStrings.Join(RenderAll(a, 0), " OR ") + ")"
    case AllOf(subs) => "(" + JsStrings.Join(RenderAll(a, 0), " AND ") + ")"
    case Negate(sub) => "NOT (" + Render(sub) + ")"
    case Compare(col, op, operand) =>
      col + " " + op.Symbol() + " " + Json.Display(if op.Quotes() then QuoteIfString(operand) else operand)
    case Member(col, negated, items) =>
      col + (if negated then " NOT IN [" else " IN [") + QuotedList(items) + "]"
    case Present(col, positive) =>
      col + " " + (if positive then "EXISTS" else "NOT EXISTS")
    case SourceIn(ids) =>
      "ingestionSourceId IN [" + QuotedIds(ids) + "]"
  }

  /** The rendered sub-filters of an `AnyOf`/`AllOf`, from the `j`-th on. */
  function RenderAll(a: Atom, j: nat): (r: seq<string>)
    requires a.AnyOf? || a.AllOf?
    decreases a, |a.subs| - j
    ensures |r| == if j <= |a.subs| then |a.subs| - j else 0
    ensures forall k :: 0 <= k < |r| ==> r[k] == Render(a.subs[j + k])
  {
    if j >= |a.subs| then [] else [Render(a.subs[j])] + RenderAll(a, j + 1)
  }

  // ---------------------------------------------------------------------------
  // mongoToMeli, as a function to the syntax tree
  // ---------------------------------------------------------------------------

  const MapTypeError := "TypeError: value.map is not a function"

  /** The filter `mongoToMeli(q)` renders, or the error it throws. */
  function Compile(q: Value, owned: OwnedSources): Result<Filter>
    decreases q, 2
  {
    match Json.ObjectEntries(q)
    case Err(e) => Err(e)
    case Ok(_) =>
      match CompileEntries(q, owned, 0)
      case Err(e) => Err(e)
      case Ok(atoms) => Ok(Filter(atoms))
  }

  function CompileEntries(q: Value, owned: OwnedSources, i: nat): Result<seq<Atom>>
    decreases q, 1, |Json.ForInEntries(q)| - i
  {
    if i >= |Json.ForInEntries(q)| then Ok([])
    else
      match CompileEntry(q, owned, i)
      case Err(e) => Err(e)
      case Ok(pushed) =>
        match CompileEntries(q, owned, i + 1)
        case Err(e) => Err(e)
        case Ok(rest) => Ok(pushed + rest)
  }

  /** The conditions (none or one) that the `i`-th entry of `q` pushes. */
  function CompileEntry(q: Value, owned: OwnedSources, i: nat): Result<seq<Atom>>
    requires i < |Json.ForInEntries(q)|
    decreases q, 0
  {
    var (key, value) := Json.ForInEntries(q)[i];
    if key == "$or" || key == "$and" then
      Json.DollarEntrySmaller(q, i);
      if !value.Arr? then Err(MapTypeError)
      else
        match CompileAll(value, owned, 0)
        case Err(e) => Err(e)
        case Ok(subs) => Ok([if key == "$or" then AnyOf(subs) else AllOf(subs)])
    else if key == "$not" then
      Json.DollarEntrySmaller(q, i);
      match Compile(value, owned)
      case Err(e) => Err(e)
      case Ok(sub) => Ok([Negate(sub)])
    else
      var column := MeliColumn(key);
      if Json.IsObject(value) then
        OperatorCondition(column, value)
      else if column == "ingestionSource.userId" then
        Ok([SourceIn(owned(value))])
      else
        Ok([Compare(column, EqOp, value)])
  }

  /** `value.map(mongoToMeli)` over `list.items[j..]`. */
  function CompileAll(list: Value, owned: OwnedSources, j: nat): (r: Result<seq<Filter>>)
    requires list.Arr?
    decreases list, 3, |list.items| - j
    ensures r.Ok? ==> |r.value| == if j <= |list.items| then |list.items| - j else 0
  {
    if j >= |list.items| then Ok([])
    else
      match Compile(list.items[j], owned)
      case Err(e) => Err(e)
      case Ok(sub) =>
        match CompileAll(list, owned, j + 1)
        case Err(e) => Err(e)
        case Ok(rest) => Ok([sub] + rest)
  }

  /** The `switch` on the first key of an operator object. */
  function OperatorCondition(column: string, value: Value): Result<seq<Atom>>
    requires Json.IsObject(value)
  {
    var ops := Json.ForInEntries(value);
    if |ops| == 0 then Ok([])
    else
      var (operator, operand) := ops[0];
      if operator == "$eq" then Ok([Compare(column, EqOp, operand)])
      else if operator == "$ne" then Ok([Compare(column, NeOp, operand)])
      else if operator == "$gt" then Ok([Compare(column, GtOp, operand)])
      else if operator == "$gte" then Ok([Compare(column, GteOp, operand)])
      else if operator == "$lt" then Ok([Compare(column, LtOp, operand)])
      else if operator == "$lte" then Ok([Compare(column, LteOp, operand)])
      else if operator == "$in" || operator == "$nin" then
        if operand.Arr? then Ok([Member(column, operator == "$nin", operand.items)])
        else Err(MapTypeError)
      else if operator == "$exists" then Ok([Present(column, Json.Truthy(operand))])
      else Ok([])
  }

  /** The text a compilation renders to, or its error. */
  function RenderResult(r: Result<Filter>): Result<string> {
    match r
    case Err(e) => Err(e)
    case Ok(f) => Ok(Render(f))
  }

  // ---------------------------------------------------------------------------
  // mongoToMeli, as the source runs it
  // ---------------------------------------------------------------------------

  /** `mongoToMeli(query)`: one pass over `Object.keys(query)` that pushes the
      text of each entry's condition and joins them with ` AND `; the text is
      exactly the rendering of the filter `Compile` describes. */
  method MongoToMeli(query: Value, owned: OwnedSources) returns (r: Result<string>)
    ensures r == RenderResult(Compile(query, owned))
    decreases query, 2
  {
    if Json.IsNullish(query) {
      assert Compile(query, owned) == Err(Json.ObjectEntries(query).error);
      return Err(Json.ObjectEntries(query).error);
    }
    assert Json.ObjectEntries(query).Ok?;
    var entries := Json.ForInEntries(query);
    var conditions: seq<string> := [];
    ghost var atoms: seq<Atom> := [];
    var i := 0;
    ThenEmpty(CompileEntries(query, owned, 0));
    while i < |entries|
      invariant 0 <= i <= |entries|
      invariant CompileEntries(query, owned, 0) == Then(atoms, CompileEntries(query, owned, i))
      invariant |conditions| == |atoms|
      invariant forall k :: 0 <= k < |atoms| ==> conditions[k] == RenderAtom(atoms[k])
    {
      var texts := EntryConditions(query, owned, i);
      EntriesStep(query, owned, i, atoms);
      if texts.Err? {
        assert Compile(query, owned) == Err(texts.error);
        return Err(texts.error);
      }
      ghost var pushed := CompileEntry(query, owned, i).value;
      AppendRendered(conditions, atoms, texts.value, pushed);
      conditions := conditions + texts.value;
      atoms := atoms + pushed;
      i := i + 1;
    }
    assert atoms + [] == atoms;
    assert Compile(query, owned) == Ok(Filter(atoms));
    assert conditions == RenderEach(Filter(atoms), 0);
    return Ok(JsStrings.Join(conditions, " AND "));
  }

  /** One entry of the pass: its error ends the compilation, or its
      conditions extend the ones before it. */
  lemma EntriesStep(query: Value, owned: OwnedSources, i: nat, atoms: seq<Atom>)
    requires i < |Json.ForInEntries(query)|
    ensures CompileEntry(query, owned, i).Err? ==>
      Then(atoms, CompileEntries(query, owned, i)) == Err(CompileEntry(query, owned, i).error)
    ensures CompileEntry(query, owned, i).Ok? ==>
      Then(atoms, CompileEntries(query, owned, i)) ==
        Then(atoms + CompileEntry(query, owned, i).value, CompileEntries(query, owned, i + 1))
  {
    if CompileEntry(query, owned, i).Ok? {
      ThenAssoc(atoms, CompileEntry(query, owned, i).value, CompileEntries(query, owned, i + 1));
    }
  }

  /** Appending rendered conditions keeps texts and conditions in step. */
  lemma AppendRendered(texts: seq<string>, atoms: seq<Atom>, more: seq<string>, pushed: seq<Atom>)
    requires |texts| == |atoms| && |more| == |pushed|
    requires forall k :: 0 <= k < |atoms| ==> texts[k] == RenderAtom(atoms[k])
    requires forall k :: 0 <= k < |pushed| ==> more[k] == RenderAtom(pushed[k])
    ensures |texts + more| == |atoms + pushed|
    ensures forall k :: 0 <= k < |atoms + pushed| ==> (texts + more)[k] == RenderAtom((atoms + pushed)[k])
  {
  }

  /** The texts the `i`-th entry of `query` pushes (none or one): the rendering
      of the conditions `CompileEntry` describes, or its error. */
  method EntryConditions(query: Value, owned: OwnedSources, i: nat) returns (r: Result<seq<string>>)
    requires i < |Json.ForInEntries(query)|
    ensures CompileEntry(query, owned, i).Err? ==> r == Err(CompileEntry(query, owned, i).error)
    ensures CompileEntry(query, owned, i).Ok? ==>
      r.Ok? && |r.value| == |CompileEntry(query, owned, i).value| &&
      forall k :: 0 <= k < |r.value| ==> r.value[k] == RenderAtom(CompileEntry(query, owned, i).value[k])
    decreases query, 1
  {
    var (key, value) := Json.ForInEntries(query)[i];
    if key == "$or" || key == "$and" {
      r := ListCondition(query, owned, i);
    } else if key == "$not" {
      Json.DollarEntrySmaller(query, i);
      var sub := MongoToMeli(value, owned);
      if sub.Err? {
        return Err(sub.error);
      }
      assert CompileEntry(query, owned, i) == Ok([Negate(Compile(value, owned).value)]);
      return Ok(["NOT (" + sub.value + ")"]);
    } else if Json.IsObject(value) {
      var column := MeliColumn(key);
      assert CompileEntry(query, owned, i) == OperatorCondition(column, value);
      r := OperatorText(column, value);
    } else {
      r := FieldCondition(query, owned, i);
    }
  }

  /** An `$or`/`$and` entry: its sub-filters joined and parenthesised. */
  method ListCondition(query: Value, owned: OwnedSources, i: nat) returns (r: Result<seq<string>>)
    requires i < |Json.ForInEntries(query)|
    requires Json.ForInEntries(query)[i].0 == "$or" || Json.ForInEntries(query)[i].0 == "$and"
    ensures CompileEntry(query, owned, i).Err? ==> r == Err(CompileEntry(query, owned, i).error)
    ensures CompileEntry(query, owned, i).Ok? ==>
      r.Ok? && |r.value| == |CompileEntry(query, owned, i).value| &&
      forall k :: 0 <= k < |r.value| ==> r.value[k] == RenderAtom(CompileEntry(query, owned, i).value[k])
    decreases query, 0
  {
    var (key, value) := Json.ForInEntries(query)[i];
    Json.DollarEntrySmaller(query, i);
    if !value.Arr? {
      return Err(MapTypeError);
    }
    var parts := SubFilters(value, owned);
    if parts.Err? {
      return Err(parts.error);
    }
    ghost var atom := if key == "$or" then AnyOf(CompileAll(value, owned, 0).value) else AllOf(CompileAll(value, owned, 0).value);
    assert parts.value == RenderAll(atom, 0);
    assert CompileEntry(query, owned, i) == Ok([atom]);
    return Ok(["(" + JsStrings.Join(parts.value, if key == "$or" then " OR " else " AND ") + ")"]);
  }

  /** An entry on a field whose value is not an operator object: the owner
      column, or equality. */
  method FieldCondition(query: Value, owned: OwnedSources, i: nat) returns (r: Result<seq<string>>)
    requires i < |Json.ForInEntries(query)|
    requires Json.ForInEntries(query)[i].0 !in {"$or", "$and", "$not"}
    requires !Json.IsObject(Json.ForInEntries(query)[i].1)
    ensures CompileEntry(query, owned, i).Err? ==> r == Err(CompileEntry(query, owned, i).error)
    ensures CompileEntry(query, owned, i).Ok? ==>
      r.Ok? && |r.value| == |CompileEntry(query, owned, i).value| &&
      forall k :: 0 <= k < |r.value| ==> r.value[k] == RenderAtom(CompileEntry(query, owned, i).value[k])
  {
    var (key, value) := Json.ForInEntries(query)[i];
    assert key != "$or" && key != "$and" && key != "$not" && !Json.IsObject(value);
    var column := MeliColumn(key);
    if column == "ingestionSource.userId" {
      var ids := owned(value);
      var text := "ingestionSourceId IN [" + QuotedIds(ids) + "]";
      assert text == RenderAtom(SourceIn(ids));
      assert CompileEntry(query, owned, i) == Ok([SourceIn(ids)]);
      return Ok([text]);
    }
    assert CompileEntry(query, owned, i) == Ok([Compare(column, EqOp, value)]);
    return Ok([column + " = " + Json.Display(QuoteIfString(value))]);
  }

  /** `list.map(mongoToMeli)`: the texts of the sub-filters, or the first error. */
  method SubFilters(list: Value, owned: OwnedSources) returns (r: Result<seq<string>>)
    requires list.Arr?
    ensures CompileAll(list, owned, 0).Err? ==> r == Err(CompileAll(list, owned, 0).error)
    ensures CompileAll(list, owned, 0).Ok? ==>
      r.Ok? && |r.value| == |list.items| &&
      forall k :: 0 <= k < |r.value| ==> r.value[k] == Render(CompileAll(list, owned, 0).value[k])
    decreases list, 0
  {
    var parts: seq<string> := [];
    ghost var subs: seq<Filter> := [];
    var j := 0;
    ThenEmpty(CompileAll(list, owned, 0));
    while j < |list.items|
      invariant 0 <= j <= |list.items|
      invariant CompileAll(list, owned, 0) == Then(subs, CompileAll(list, owned, j))
      invariant |parts| == |subs| == j
      invariant forall k :: 0 <= k < j ==> parts[k] == Render(subs[k])
    {
      var sub := MongoToMeli(list.items[j], owned);
      if sub.Err? {
        return Err(sub.error);
      }
      ghost var subFilter := Compile(list.items[j], owned).value;
      ThenAssoc(subs, [subFilter], CompileAll(list, owned, j + 1));
      parts := parts + [sub.value];
      subs := subs + [subFilter];
      j := j + 1;
    }
    assert subs + [] == subs;
    return Ok(parts);
  }

  /** The `switch` on the first key of an operator object, producing text: the
      rendering of the conditions `OperatorCondition` describes, or its error. */
  method OperatorText(column: string, value: Value) returns (r: Result<seq<string>>)
    requires Json.IsObject(value)
    ensures OperatorCondition(column, value).Err? ==> r == Err(OperatorCondition(column, value).error)
    ensures OperatorCondition(column, value).Ok? ==>
      r.Ok? && |r.value| == |OperatorCondition(column, value).value| &&
      forall k :: 0 <= k < |r.value| ==> r.value[k] == RenderAtom(OperatorCondition(column, value).value[k])
  {
    var operators := Json.ForInEntries(value);
    if |operators| == 0 {
      return Ok([]);
    }
    var (operator, operand) := operators[0];
    if operator == "$eq" {
      assert OperatorCondition(column, value) == Ok([Compare(column, EqOp, operand)]);
      return Ok([column + " = " + Json.Display(QuoteIfString(operand))]);
    } else if operator == "$ne" {
      assert OperatorCondition(column, value) == Ok([Compare(column, NeOp, operand)]);
      return Ok([column + " != " + Json.Display(QuoteIfString(operand))]);
    } else if operator == "$gt" {
      assert OperatorCondition(column, value) == Ok([Compare(column, GtOp, operand)]);
      return Ok([column + " > " + Json.Display(operand)]);
    } else if operator == "$gte" {
      assert OperatorCondition(column, value) == Ok([Compare(column, GteOp, operand)]);
      return Ok([column + " >= " + Json.Display(operand)]);
    } else if operator == "$lt" {
      assert OperatorCondition(column, value) == Ok([Compare(column, LtOp, operand)]);
      return Ok([column + " < " + Json.Display(operand)]);
    } else if operator == "$lte" {
      assert OperatorCondition(column, value) == Ok([Compare(column, LteOp, operand)]);
      return Ok([column + " <= " + Json.Display(operand)]);
    }
    r := MembershipText(column, value);
  }

  /** The rest of that `switch`: `$in`/`$nin`, `$exists`, and the operators
      it ignores. */
  method MembershipText(column: string, value: Value) returns (r: Result<seq<string>>)
    requires Json.IsObject(value) && |Json.ForInEntries(value)| > 0
    requires Json.ForInEntries(value)[0].0 !in {"$eq", "$ne", "$gt", "$gte", "$lt", "$lte"}
    ensures OperatorCondition(column, value).Err? ==> r == Err(OperatorCondition(column, value).error)
    ensures OperatorCondition(column, value).Ok? ==>
      r.Ok? && |r.value| == |OperatorCondition(column, value).value| &&
      forall k :: 0 <= k < |r.value| ==> r.value[k] == RenderAtom(OperatorCondition(column, value).value[k])
  {
    var (operator, operand) := Json.ForInEntries(value)[0];
    if operator == "$in" || operator == "$nin" {
      if !operand.Arr? {
        return Err(MapTypeError);
      }
      assert OperatorCondition(column, value) == Ok([Member(column, operator == "$nin", operand.items)]);
      return Ok([column + (if operator == "$nin" then " NOT IN [" else " IN [") + QuotedList(operand.items) + "]"]);
    } else if operator == "$exists" {
      assert OperatorCondition(column, value) == Ok([Present(column, Json.Truthy(operand))]);
      return Ok([column + " " + (if Json.Truthy(operand) then "EXISTS" else "NOT EXISTS")]);
    }
    return Ok([]);
  }
}
