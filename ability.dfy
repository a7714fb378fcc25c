/** Inherent permissions: a grant on an ingestion source is mirrored into a
    grant on the archived emails it ingested, with the condition fields renamed
    from the source's own columns to the email's relation to its source. */
module Ability {
  import opened Wrappers
  import Json
  import IamTypes
  import JsStrings

  type Value = Json.Value
  type Fields = Json.Fields

  // ---------------------------------------------------------------------------
  // translateIngestionConditionsToArchive
  // ---------------------------------------------------------------------------

  /** The keys whose array value is a list of sub-conditions. */
  predicate IsListOperator(k: string) {
    k == "$or" || k == "$and" || k == "$nor"
  }

  /** The ingestion-source fields that an archived email reaches through its source. */
  predicate IsSourceField(k: string) {
    k == "userId" || k == "name" || k == "provider" || k == "status"
  }

  /** The key an ingestion-source condition field takes on an archived email. */
  function RenameKey(k: string): (r: string)
    ensures k == "id" ==> r == "ingestionSourceId"
    ensures IsSourceField(k) ==> r == "ingestionSource." + k
    ensures k != "id" && !IsSourceField(k) ==> r == k
  {
    if k == "id" then "ingestionSourceId"
    else if IsSourceField(k) then "ingestionSource." + k
    else k
  }

  /** Keys of a translated condition never name a source's own id or field. */
  lemma RenameKeyLeavesNoSourceKey(k: string)
    ensures RenameKey(k) != "id" && !IsSourceField(RenameKey(k))
  {
    if IsSourceField(k) {
      assert RenameKey(k)[..16] == "ingestionSource.";
    }
  }

  /** `translateIngestionConditionsToArchive(c)`: anything that is not a
      non-null object is returned as it is; an object (or an array, whose keys
      are its indices) is rebuilt by assigning each translated entry, in
      `for…in` order, into a fresh record. */
  function Translate(c: Value): (r: Value)
    decreases c, 1
    ensures !Json.IsObject(c) ==> r == c
    ensures Json.IsObject(c) ==>
      r.Obj? && forall k :: Json.Lookup(r.fields, k) == Json.LastLookup(Entries(c), k)
  {
    if !Json.IsObject(c) then c
    else
      AssignedLookup(Entries(c));
      Json.Obj(Json.PutAll([], Entries(c)))
  }

  lemma EntryValueSmaller(c: Value, i: nat)
    requires Json.IsObject(c) && i < |Json.ForInEntries(c)|
    ensures Json.ForInEntries(c)[i].1 < c
  {
    if c.Arr? {
      assert Json.ForInEntries(c)[i].1 == c.items[i];
    }
  }

  /** The translated entries of the object `c`, in the order they are assigned. */
  function Entries(c: Value): (r: Fields)
    requires Json.IsObject(c)
    decreases c, 0
    ensures |r| == |Json.ForInEntries(c)|
  {
    var es := Json.ForInEntries(c);
    seq(|es|, i requires 0 <= i < |es| => EntryValueSmaller(c, i); TranslateEntry(es[i].0, es[i].1))
  }

  /** The entry that the source assigns for the key `k` holding `v`: list
      operators translate each sub-condition, `$not` translates its object, and
      every other key is renamed with its value kept. */
  function TranslateEntry(k: string, v: Value): (r: (string, Value))
    decreases v, 2
    ensures r.0 == if IsListOperator(k) || k == "$not" then k else RenameKey(k)
    ensures IsListOperator(k) && v.Arr? ==>
      r.1.Arr? && |r.1.items| == |v.items|
      && forall j :: 0 <= j < |v.items| ==> r.1.items[j] == Translate(v.items[j])
    ensures k == "$not" && Json.IsObject(v) ==> r.1 == Translate(v)
    ensures !(IsListOperator(k) && v.Arr?) && !(k == "$not" && Json.IsObject(v)) ==> r.1 == v
  {
    if IsListOperator(k) && v.Arr? then
      (k, Json.Arr(seq(|v.items|, j requires 0 <= j < |v.items| => Translate(v.items[j]))))
    else if k == "$not" && Json.IsObject(v) then
      (k, Translate(v))
    else
      (RenameKey(k), v)
  }

  /** Assigning entries one by one into a fresh record: reading key `k`
      gives the value of the last entry for `k`, and a key no entry has is
      absent. */
  lemma AssignedLookup(es: Fields)
    ensures forall k :: Json.Lookup(Json.PutAll([], es), k) == Json.LastLookup(es, k)
  {
    forall k ensures Json.Lookup(Json.PutAll([], es), k) == Json.LastLookup(es, k) {
      Json.PutAllLookup([], es, k);
    }
  }

  /** When no two entries are translated to the same key, the translated object
      holds exactly the translated entries, in the original order. */
  lemma TranslateKeepsOrder(c: Value)
    requires Json.IsObject(c)
    requires Json.UniqueKeys(Entries(c))
    ensures Translate(c).fields == Entries(c)
  {
    assert [] + Entries(c) == Entries(c);
    Json.PutAllFresh([], Entries(c));
  }

  /** A translated condition never names an ingestion source's own `id`,
      `userId`, `name`, `provider` or `status`, and holds each key once. */
  lemma TranslateLeavesNoSourceKey(c: Value)
    requires Json.IsObject(c)
    ensures Json.UniqueKeys(Translate(c).fields)
    ensures forall k :: k in Json.Keys(Translate(c).fields) ==> k != "id" && !IsSourceField(k)
  {
    var es := Entries(c);
    Json.PutAllKeys([], es);
    forall i | 0 <= i < |es| ensures es[i].0 != "id" && !IsSourceField(es[i].0) {
      EntryKeyClean(c, i);
    }
    forall k | k in Json.Keys(Translate(c).fields) ensures k != "id" && !IsSourceField(k) {
      assert k in Json.Keys(es);
      var i :| 0 <= i < |es| && Json.Keys(es)[i] == k;
    }
  }

  lemma EntryKeyClean(c: Value, i: nat)
    requires Json.IsObject(c) && i < |Json.ForInEntries(c)|
    ensures Entries(c)[i].0 != "id" && !IsSourceField(Entries(c)[i].0)
  {
    var e := Json.ForInEntries(c)[i];
    EntryValueSmaller(c, i);
    assert Entries(c)[i] == TranslateEntry(e.0, e.1);
    RenameKeyLeavesNoSourceKey(e.0);
  }

  lemma RenameKeyIdempotent(k: string)
    ensures RenameKey(RenameKey(k)) == RenameKey(k)
    ensures !IsListOperator(k) && k != "$not" ==> !IsListOperator(RenameKey(k)) && RenameKey(k) != "$not"
  {
    if IsSourceField(k) {
      assert RenameKey(k)[0] == 'i';
    }
  }

  /** Translating an already translated condition changes nothing. */
  lemma {:induction false} TranslateIdempotent(c: Value)
    ensures Translate(Translate(c)) == Translate(c)
    decreases c, 1
  {
    if Json.IsObject(c) {
      var es := Entries(c);
      var f := Json.PutAll([], es);
      Json.PutAllKeys([], es);
      Json.PutAllEntries([], es);
      forall j | 0 <= j < |f| ensures TranslateEntry(f[j].0, f[j].1) == f[j] {
        assert f[j] in es;
        var i :| 0 <= i < |es| && es[i] == f[j];
        var e := Json.ForInEntries(c)[i];
        EntryValueSmaller(c, i);
        assert es[i] == TranslateEntry(e.0, e.1);
        TranslateEntryIdempotent(e.0, e.1);
      }
      var t := Json.Obj(f);
      assert Entries(t) == f;
      assert [] + f == f;
      Json.PutAllFresh([], f);
    }
  }

  lemma {:induction false} TranslateEntryIdempotent(k: string, v: Value)
    ensures TranslateEntry(TranslateEntry(k, v).0, TranslateEntry(k, v).1) == TranslateEntry(k, v)
    decreases v, 2
  {
    var r := TranslateEntry(k, v);
    if IsListOperator(k) && v.Arr? {
      var r2 := TranslateEntry(r.0, r.1);
      forall j | 0 <= j < |v.items| ensures r2.1.items[j] == r.1.items[j] {
        TranslateIdempotent(v.items[j]);
      }
      assert r2.1.items == r.1.items;
    } else if k == "$not" && Json.IsObject(v) {
      TranslateIdempotent(v);
    } else {
      RenameKeyIdempotent(k);
    }
  }

  // ---------------------------------------------------------------------------
  // expandPolicies
  // ---------------------------------------------------------------------------

  type CaslPolicy = IamTypes.CaslPolicy

  /** The actions that the `archive` policies among `ps[..n]` name. A policy
      counts only when its subject is exactly the string `archive`. */
  function ArchiveActions(ps: seq<CaslPolicy>, n: nat): set<string>
    requires n <= |ps|
  {
    if n == 0 then {}
    else
      var acts := ps[n - 1].action.AsList();
      ArchiveActions(ps, n - 1)
      + (if ps[n - 1].subject == IamTypes.One("archive") then set i | 0 <= i < |acts| :: acts[i] else {})
  }

  /** `p.subject === 'ingestion' && !p.inverted`, and none of its actions (nor
      `manage`) is already claimed by an earlier archive policy. */
  predicate IsMirrored(p: CaslPolicy, seen: set<string>) {
    p.subject == IamTypes.One("ingestion") && p.IsGrant()
    && !(exists a :: a in p.action.AsList() && (a in seen || "manage" in seen))
  }

  /** `{...p, subject: 'archive'}` with the conditions translated when present. */
  function MirrorOf(p: CaslPolicy): (r: CaslPolicy)
    ensures r.subject == IamTypes.One("archive")
    ensures r.action == p.action && r.inverted == p.inverted && r.fields == p.fields && r.reason == p.reason
    ensures r.conditions == if Json.Truthy(p.conditions) then Translate(p.conditions) else p.conditions
  {
    p.(subject := IamTypes.One("archive"),
       conditions := if Json.Truthy(p.conditions) then Translate(p.conditions) else p.conditions)
  }

  /** The mirrored policies the scan over `ps[..n]` has appended. */
  function Mirrors(ps: seq<CaslPolicy>, n: nat): seq<CaslPolicy>
    requires n <= |ps|
  {
    if n == 0 then []
    else
      Mirrors(ps, n - 1)
      + (if IsMirrored(ps[n - 1], ArchiveActions(ps, n - 1)) then [MirrorOf(ps[n - 1])] else [])
  }

  /** `expandPolicies`: a copy of the policies followed by the archive mirror of
      every ingestion grant that no earlier archive policy overrides. */
  method ExpandPolicies(policies: seq<CaslPolicy>) returns (expanded: seq<CaslPolicy>)
    ensures expanded == policies + Mirrors(policies, |policies|)
  {
    expanded := policies;
    var existingArchiveActions: set<string> := {};
    var i := 0;
    while i < |policies|
      invariant 0 <= i <= |policies|
      invariant existingArchiveActions == ArchiveActions(policies, i)
      invariant expanded == policies + Mirrors(policies, i)
    {
      var p := policies[i];
      if p.subject == IamTypes.One("archive") {
        existingArchiveActions := AddActions(existingArchiveActions, p.action.AsList());
      }
      if p.subject == IamTypes.One("ingestion") && p.IsGrant() {
        var hasExplicitArchiveRule := HasExplicitArchiveRule(p.action.AsList(), existingArchiveActions);
        if !hasExplicitArchiveRule {
          expanded := expanded + [MirrorOf(p)];
        }
      }
      i := i + 1;
    }
  }

  /** The loop adding an archive policy's actions to the ones seen so far. */
  method AddActions(seen: set<string>, actions: seq<string>) returns (r: set<string>)
    ensures r == seen + set k | 0 <= k < |actions| :: actions[k]
  {
    r := seen;
    var j := 0;
    while j < |actions|
      invariant 0 <= j <= |actions|
      invariant r == seen + set k | 0 <= k < j :: actions[k]
    {
      r := r + {actions[j]};
      j := j + 1;
    }
  }

  /** The early-exit loop looking for an action of an ingestion grant (or
      `manage`) among the archive actions seen so far. */
  method HasExplicitArchiveRule(actions: seq<string>, seen: set<string>) returns (found: bool)
    ensures found <==> exists a :: a in actions && (a in seen || "manage" in seen)
  {
    found := false;
    var j := 0;
    while j < |actions| && !found
      invariant 0 <= j <= |actions|
      invariant found <==> exists a :: a in actions[..j] && (a in seen || "manage" in seen)
    {
      if actions[j] in seen || "manage" in seen {
        found := true;
      }
      assert actions[..j + 1] == actions[..j] + [actions[j]];
      j := j + 1;
    }
    if !found {
      assert actions[..j] == actions;
    }
  }

  /** The expanded list starts with the policies unchanged and only appends;
      each appended policy is the archive mirror of an ingestion grant. */
  lemma {:induction false} ExpandOnlyAppendsMirrors(ps: seq<CaslPolicy>, n: nat)
    requires n <= |ps|
    ensures |Mirrors(ps, n)| <= n
    ensures forall m :: m in Mirrors(ps, n) ==>
      m.subject == IamTypes.One("archive") && m.IsGrant()
      && exists j :: 0 <= j < n && ps[j].subject == IamTypes.One("ingestion") && m == MirrorOf(ps[j])
  {
    if n > 0 {
      ExpandOnlyAppendsMirrors(ps, n - 1);
    }
  }

  /** An ingestion grant (a grant naming `ingestion` as its single subject)
      whose actions, and `manage`, no earlier archive policy names gets its
      archive mirror appended. */
  lemma {:induction false} MirroredWhenUnclaimed(ps: seq<CaslPolicy>, n: nat, j: nat)
    requires j < n <= |ps|
    ensures MirrorOf(ps[j]) in Mirrors(ps, n) <== IsMirrored(ps[j], ArchiveActions(ps, j))
  {
    if j < n - 1 {
      MirroredWhenUnclaimed(ps, n - 1, j);
    }
  }

  /** The scan only looks back: an archive policy listed after an ingestion
      grant does not stop that grant from being mirrored, while the same policy
      listed before it does. */
  lemma LaterArchivePolicyDoesNotBlock()
    ensures var grant := IamTypes.CaslPolicy(IamTypes.One("read"), IamTypes.One("ingestion"), Json.Undefined, None, None, None);
            var deny := IamTypes.CaslPolicy(IamTypes.One("read"), IamTypes.One("archive"), Json.Undefined, None, Some(true), None);
            Mirrors([grant, deny], 2) == [MirrorOf(grant)] && Mirrors([deny, grant], 2) == []
  {
    var grant := IamTypes.CaslPolicy(IamTypes.One("read"), IamTypes.One("ingestion"), Json.Undefined, None, None, None);
    var deny := IamTypes.CaslPolicy(IamTypes.One("read"), IamTypes.One("archive"), Json.Undefined, None, Some(true), None);
    var ps1 := [grant, deny];
    assert ArchiveActions(ps1, 0) == {};
    assert Mirrors(ps1, 1) == [MirrorOf(grant)];
    assert !IsMirrored(deny, ArchiveActions(ps1, 1));
    var ps2 := [deny, grant];
    var acts := deny.action.AsList();
    assert acts == ["read"];
    assert (set i | 0 <= i < |acts| :: acts[i]) == {"read"} by {
      assert acts[0] == "read";
    }
    assert ArchiveActions(ps2, 1) == {"read"};
    assert Mirrors(ps2, 1) == [];
    assert grant.action.AsList()[0] == "read";
    assert !IsMirrored(grant, ArchiveActions(ps2, 1));
  }
}
