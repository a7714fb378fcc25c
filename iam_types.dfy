/** The policy statements stored with each role: CASL-style rules naming one or
    several actions and subjects, optional Mongo-style conditions and an
    optional deny flag. */
module IamTypes {
  import opened Wrappers
  import Json

  /** The action names a policy may grant. */
  const AppActions: set<string> := {"manage", "create", "read", "update", "delete", "search", "export", "sync"}

  /** The subjects a policy may name. */
  const AppSubjects: set<string> := {"archive", "ingestion", "settings", "users", "roles", "dashboard", "all"}

  /** A field typed `T | T[]`: a single name or a list of names. */
  datatype Names = One(name: string) | Many(names: seq<string>) {
    /** `Array.isArray(x) ? x : [x]` */
    function AsList(): (r: seq<string>)
      ensures One? ==> r == [name]
      ensures Many? ==> r == names
    {
      match this
      case One(n) => [n]
      case Many(ns) => ns
    }
  }

  /** A stored policy statement. Absent `conditions` are `Json.Undefined`. */
  datatype CaslPolicy = CaslPolicy(
    action: Names,
    subject: Names,
    conditions: Json.Value,
    fields: Option<seq<string>>,
    inverted: Option<bool>,
    reason: Option<string>)
  {
    /** `!p.inverted`: a grant rather than a deny. */
    predicate IsGrant() {
      inverted != Some(true)
    }
  }
}
