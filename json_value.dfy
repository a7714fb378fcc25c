/** JavaScript values as the archiver's policy conditions, queries and job
    results carry them. Objects keep their keys in insertion order, which is the
    order `for…in` and `Object.keys` visit them. */
module Json {
  import opened Wrappers
  import JsStrings

  datatype Value =
    | Undefined
    | Null
    | Bool(b: bool)
    | Num(n: int)
    | Str(s: string)
    | Arr(items: seq<Value>)
    | Obj(fields: seq<(string, Value)>)

  type Fields = seq<(string, Value)>

  function Keys(fields: Fields): (r: seq<string>)
    ensures |r| == |fields|
    ensures forall i :: 0 <= i < |fields| ==> r[i] == fields[i].0
  {
    if fields == [] then [] else [fields[0].0] + Keys(fields[1..])
  }

  /** A JavaScript object never holds the same key twice. */
  predicate UniqueKeys(fields: Fields) {
    forall i, j :: 0 <= i < j < |fields| ==> fields[i].0 != fields[j].0
  }

  /** `obj[k]` for an own key `k`, or `None` when the object has no such key. */
  function Lookup(fields: Fields, k: string): (r: Option<Value>)
    ensures r.None? <==> k !in Keys(fields)
    ensures r.Some? ==> exists i :: 0 <= i < |fields| && fields[i] == (k, r.value)
  {
    if fields == [] then None
    else if fields[0].0 == k then Some(fields[0].1)
    else Lookup(fields[1..], k)
  }

  /** With unique keys, looking up the key at position `i` finds the value at position `i`. */
  lemma LookupAt(fields: Fields, i: nat)
    requires UniqueKeys(fields) && i < |fields|
    ensures Lookup(fields, fields[i].0) == Some(fields[i].1)
  {
    if i > 0 {
      LookupAt(fields[1..], i - 1);
    }
  }

  /** The assignment `obj[k] = v`: an existing key keeps its position and takes
      the new value, a new key is appended. */
  function Put(fields: Fields, k: string, v: Value): (r: Fields)
    ensures k in Keys(fields) ==> Keys(r) == Keys(fields)
    ensures k !in Keys(fields) ==> Keys(r) == Keys(fields) + [k]
  {
    if fields == [] then [(k, v)]
    else if fields[0].0 == k then [(k, v)] + fields[1..]
    else
      var rest := Put(fields[1..], k, v);
      assert Keys([fields[0]] + rest) == [fields[0].0] + Keys(rest);
      [fields[0]] + rest
  }

  /** After `obj[k] = v`, reading `k` gives `v` and every other key reads as before. */
  lemma PutLookup(fields: Fields, k: string, v: Value, k': string)
    ensures Lookup(Put(fields, k, v), k') == if k' == k then Some(v) else Lookup(fields, k')
  {
    if fields != [] && fields[0].0 != k {
      PutLookup(fields[1..], k, v, k');
    }
  }

  /** Assignment keeps the keys of an object unique. */
  lemma PutUnique(fields: Fields, k: string, v: Value)
    requires UniqueKeys(fields)
    ensures UniqueKeys(Put(fields, k, v))
  {
    var r := Put(fields, k, v);
    var ks := Keys(r);
    if k !in Keys(fields) {
      forall i, j | 0 <= i < j < |r| ensures r[i].0 != r[j].0 {
        assert ks[i] == r[i].0 && ks[j] == r[j].0;
        if j == |fields| {
          assert ks[i] == Keys(fields)[i];
        } else {
          assert ks[i] == Keys(fields)[i] && ks[j] == Keys(fields)[j];
        }
      }
    } else {
      forall i, j | 0 <= i < j < |r| ensures r[i].0 != r[j].0 {
        assert ks[i] == r[i].0 && ks[j] == r[j].0;
        assert ks[i] == Keys(fields)[i] && ks[j] == Keys(fields)[j];
      }
    }
  }

  /** Assigning each entry of `es` in turn, as a loop `for (…) obj[k] = v` does. */
  function PutAll(acc: Fields, es: Fields): Fields
    decreases |es|
  {
    if es == [] then acc else PutAll(Put(acc, es[0].0, es[0].1), es[1..])
  }

  /** The value the last entry with key `k` carries in `es`. */
  function LastLookup(es: Fields, k: string): (r: Option<Value>)
    ensures r.None? <==> k !in Keys(es)
  {
    if es == [] then None
    else if es[|es| - 1].0 == k then Some(es[|es| - 1].1)
    else
      assert Keys(es) == Keys(es[..|es| - 1]) + [es[|es| - 1].0];
      LastLookup(es[..|es| - 1], k)
  }

  lemma {:induction false} LastLookupCons(e: (string, Value), es: Fields, k: string)
    ensures LastLookup([e] + es, k)
         == if LastLookup(es, k).Some? then LastLookup(es, k) else if e.0 == k then Some(e.1) else None
    decreases |es|
  {
    if es != [] {
      var all := [e] + es;
      assert all[..|all| - 1] == [e] + es[..|es| - 1];
      if es[|es| - 1].0 != k {
        LastLookupCons(e, es[..|es| - 1], k);
      }
    }
  }

  /** After a run of assignments, a key reads as the last value assigned to it,
      or as before when none was. */
  lemma {:induction false} PutAllLookup(acc: Fields, es: Fields, k: string)
    ensures Lookup(PutAll(acc, es), k)
         == if LastLookup(es, k).Some? then LastLookup(es, k) else Lookup(acc, k)
    decreases |es|
  {
    if es != [] {
      var next, rest := Put(acc, es[0].0, es[0].1), es[1..];
      assert PutAll(acc, es) == PutAll(next, rest);
      PutAllLookup(next, rest, k);
      PutLookup(acc, es[0].0, es[0].1, k);
      assert es == [es[0]] + rest;
      LastLookupCons(es[0], rest, k);
    }
  }

  /** Assigning keys the object does not have yet, all distinct, appends them in order. */
  lemma {:induction false} PutAllFresh(acc: Fields, es: Fields)
    requires UniqueKeys(acc + es)
    ensures PutAll(acc, es) == acc + es
    decreases |es|
  {
    if es != [] {
      forall i | 0 <= i < |acc| ensures acc[i].0 != es[0].0 {
        assert (acc + es)[i] == acc[i] && (acc + es)[|acc|] == es[0];
      }
      PutNewKey(acc, es[0].0, es[0].1);
      assert acc + es == (acc + [es[0]]) + es[1..];
      PutAllFresh(acc + [es[0]], es[1..]);
    }
  }

  lemma PutNewKey(acc: Fields, k: string, v: Value)
    requires forall i :: 0 <= i < |acc| ==> acc[i].0 != k
    ensures Put(acc, k, v) == acc + [(k, v)]
  {
    if acc != [] {
      PutNewKey(acc[1..], k, v);
    }
  }

  /** Assignments never duplicate a key, and the keys afterwards are exactly
      those before plus those assigned. */
  lemma {:induction false} PutAllKeys(acc: Fields, es: Fields)
    requires UniqueKeys(acc)
    ensures UniqueKeys(PutAll(acc, es))
    ensures forall k :: k in Keys(PutAll(acc, es)) <==> k in Keys(acc) || k in Keys(es)
    decreases |es|
  {
    if es != [] {
      var acc' := Put(acc, es[0].0, es[0].1);
      PutUnique(acc, es[0].0, es[0].1);
      PutAllKeys(acc', es[1..]);
      assert Keys(es) == [es[0].0] + Keys(es[1..]);
    }
  }

  /** Every entry after a run of assignments was either there before or assigned. */
  lemma {:induction false} PutAllEntries(acc: Fields, es: Fields)
    ensures forall e :: e in PutAll(acc, es) ==> e in acc || e in es
    decreases |es|
  {
    if es != [] {
      PutEntries(acc, es[0].0, es[0].1);
      PutAllEntries(Put(acc, es[0].0, es[0].1), es[1..]);
    }
  }

  lemma PutEntries(acc: Fields, k: string, v: Value)
    ensures forall e :: e in Put(acc, k, v) ==> e in acc || e == (k, v)
  {
    if acc != [] && acc[0].0 != k {
      PutEntries(acc[1..], k, v);
    }
  }

  /** JavaScript truthiness (`!!v`). */
  predicate Truthy(v: Value) {
    match v
    case Undefined => false
    case Null => false
    case Bool(b) => b
    case Num(n) => n != 0
    case Str(s) => s != ""
    case Arr(_) => true
    case Obj(_) => true
  }

  /** `v === null || v === undefined` */
  predicate IsNullish(v: Value) {
    v.Null? || v.Undefined?
  }

  /** `typeof v === 'object' && v !== null` */
  predicate IsObject(v: Value) {
    v.Arr? || v.Obj?
  }

  /** Index keys `"0"`, `"1"`, … paired with the given values. */
  function IndexEntries(items: seq<Value>, from: nat): (r: Fields)
    ensures |r| == |items|
    ensures forall i :: 0 <= i < |items| ==> r[i] == (JsStrings.NatToString(from + i), items[i])
  {
    if items == [] then [] else [(JsStrings.NatToString(from), items[0])] + IndexEntries(items[1..], from + 1)
  }

  function CharValues(s: string): (r: seq<Value>)
    ensures |r| == |s|
    ensures forall i :: 0 <= i < |s| ==> r[i] == Str([s[i]])
  {
    if s == [] then [] else [Str([s[0]])] + CharValues(s[1..])
  }

  /** The (key, value) pairs that `for (const key in v)` visits: an object's own
      keys, an array's or a string's indices, nothing for any other value. */
  function ForInEntries(v: Value): Fields {
    match v
    case Obj(fields) => fields
    case Arr(items) => IndexEntries(items, 0)
    case Str(s) => IndexEntries(CharValues(s), 0)
    case _ => []
  }

  /** Entries of an object or array hold parts of it; entries of anything
      else have index keys, so never an operator key such as `$or`. */
  lemma ForInEntryFacts(v: Value, i: nat)
    requires i < |ForInEntries(v)|
    ensures IsObject(v) ==> ForInEntries(v)[i].1 < v
    ensures !v.Obj? ==> ForInEntries(v)[i].0 == JsStrings.NatToString(i)
    ensures !v.Obj? ==> forall j :: 0 <= j < |ForInEntries(v)[i].0| ==> JsStrings.IsDigit(ForInEntries(v)[i].0[j])
  {
    if v.Arr? {
      assert ForInEntries(v)[i].1 == v.items[i];
    }
  }

  /** An index key is never a key that starts with `$`. */
  lemma IndexKeyNotOperator(v: Value, i: nat)
    requires i < |ForInEntries(v)| && !v.Obj?
    ensures |ForInEntries(v)[i].0| > 0 && ForInEntries(v)[i].0[0] != '$'
  {
    ForInEntryFacts(v, i);
  }

  /** An entry whose key starts with `$` belongs to an object, and its value is part of it. */
  lemma DollarEntrySmaller(v: Value, i: nat)
    requires i < |ForInEntries(v)|
    requires |ForInEntries(v)[i].0| > 0 && ForInEntries(v)[i].0[0] == '$'
    ensures v.Obj? && ForInEntries(v)[i].1 < v
  {
    if !v.Obj? {
      IndexKeyNotOperator(v, i);
    }
  }

  /** `Object.keys(v)` with the values: like `for…in`, except that `null` and
      `undefined` throw a TypeError. */
  function ObjectEntries(v: Value): (r: Result<Fields>)
    ensures r.Err? <==> IsNullish(v)
    ensures r.Ok? ==> r.value == ForInEntries(v)
  {
    if IsNullish(v) then Err("TypeError: Cannot convert undefined or null to object")
    else Ok(ForInEntries(v))
  }

  /** `String(v)`, as template literals render a value. */
  function Display(v: Value): string {
    match v
    case Undefined => "undefined"
    case Null => "null"
    case Bool(b) => if b then "true" else "false"
    case Num(n) => JsStrings.IntToString(n)
    case Str(s) => s
    case Arr(items) => DisplayItems(items, 0)
    case Obj(_) => "[object Object]"
  }

  /** `items.join(",")` from index `i` on: `null` and `undefined` elements
      render as empty strings. */
  function DisplayItems(items: seq<Value>, i: nat): string
    decreases Arr(items), |items| - i
  {
    if i >= |items| then ""
    else
      var first := if IsNullish(items[i]) then "" else Display(items[i]);
      if i + 1 == |items| then first else first + "," + DisplayItems(items, i + 1)
  }
}
