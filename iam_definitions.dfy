/** The fine-grained IAM vocabulary: `service:operation` action names and the
    slash-separated resource patterns each service accepts. */
module IamDefinitions {
  import JsStrings

  const ArchiveActions: set<string> := {"archive:read", "archive:search", "archive:export"}

  const IngestionActions: set<string> :=
    {"ingestion:createSource", "ingestion:readSource", "ingestion:updateSource", "ingestion:deleteSource", "ingestion:manageSync"}

  const SystemActions: set<string> :=
    {"system:readSettings", "system:updateSettings", "system:readUsers", "system:createUser",
     "system:updateUser", "system:deleteUser", "system:assignRole"}

  const DashboardActions: set<string> := {"dashboard:read"}

  /** `ValidActions`: every action of every service. */
  const ValidActions: set<string> := ArchiveActions + IngestionActions + SystemActions + DashboardActions

  /** Every valid action is `service:operation` for one of the four services. */
  lemma ValidActionsByService(a: string)
    ensures a in ValidActions ==>
      (a in ArchiveActions && JsStrings.StartsWith(a, "archive:")) ||
      (a in IngestionActions && JsStrings.StartsWith(a, "ingestion:")) ||
      (a in SystemActions && JsStrings.StartsWith(a, "system:")) ||
      (a in DashboardActions && JsStrings.StartsWith(a, "dashboard:"))
  {
  }

  // ---------------------------------------------------------------------------
  // Resource patterns
  // ---------------------------------------------------------------------------

  /** `[^\/]+`: a non-empty path segment without `/`. */
  predicate Segment(s: string) {
    |s| > 0 && forall i :: 0 <= i < |s| ==> s[i] != '/'
  }

  /** `s` is `prefix` followed by one segment. */
  predicate PrefixedSegment(s: string, prefix: string) {
    JsStrings.StartsWith(s, prefix) && Segment(s[|prefix|..])
  }

  /** `/^archive\/(all|ingestion-source\/[^\/]+|mailbox\/[^\/]+|custodian\/[^\/]+)$/` */
  predicate ArchiveResource(r: string) {
    r == "archive/all" ||
    PrefixedSegment(r, "archive/ingestion-source/") ||
    PrefixedSegment(r, "archive/mailbox/") ||
    PrefixedSegment(r, "archive/custodian/")
  }

  /** `/^ingestion-source\/(\*|[^\/]+)$/` */
  predicate IngestionResource(r: string) {
    r == "ingestion-source/*" || PrefixedSegment(r, "ingestion-source/")
  }

  /** `/^system\/(settings|users|user\/[^\/]+)$/` */
  predicate SystemResource(r: string) {
    r == "system/settings" || r == "system/users" || PrefixedSegment(r, "system/user/")
  }

  /** `/^dashboard\/\*$/` */
  predicate DashboardResource(r: string) {
    r == "dashboard/*"
  }

  /** A prefixed-segment test is the same as splitting the string into the
      prefix and a segment. */
  lemma PrefixedSegmentIff(r: string, prefix: string)
    ensures PrefixedSegment(r, prefix) <==> exists seg :: Segment(seg) && r == prefix + seg
  {
    if PrefixedSegment(r, prefix) {
      assert r == prefix + r[|prefix|..];
    }
    if exists seg :: Segment(seg) && r == prefix + seg {
      var seg :| Segment(seg) && r == prefix + seg;
      assert r[..|prefix|] == prefix && r[|prefix|..] == seg;
    }
  }

  /** The archive pattern, in the words of the resource grammar. */
  lemma ArchiveResourceIff(r: string)
    ensures ArchiveResource(r) <==>
      r == "archive/all" ||
      exists seg :: Segment(seg) &&
        (r == "archive/ingestion-source/" + seg || r == "archive/mailbox/" + seg || r == "archive/custodian/" + seg)
  {
    PrefixedSegmentIff(r, "archive/ingestion-source/");
    PrefixedSegmentIff(r, "archive/mailbox/");
    PrefixedSegmentIff(r, "archive/custodian/");
  }

  /** `*` is an ordinary segment, so the explicit `\*` branch of the
      ingestion pattern adds nothing: the ingestion resources are exactly
      `ingestion-source/` followed by one segment. */
  lemma IngestionResourceIff(r: string)
    ensures IngestionResource(r) <==> exists seg :: Segment(seg) && r == "ingestion-source/" + seg
  {
    PrefixedSegmentIff(r, "ingestion-source/");
    if r == "ingestion-source/*" {
      assert Segment("*") && r == "ingestion-source/" + "*";
    }
  }

  lemma NotStartsWithAt(s: string, p: string, i: nat)
    requires i < |p| && i < |s| && s[i] != p[i]
    ensures !JsStrings.StartsWith(s, p)
  {
    if |p| <= |s| {
      assert s[..|p|][i] == s[i];
      assert s[..|p|] != p;
    }
  }

  // The dashboard pattern admits only "dashboard/" followed by an asterisk, and
  // the archive pattern does not admit "archive/" followed by an asterisk,
  // whatever the comment beside the patterns says.
  lemma WildcardResources()
    ensures DashboardResource("dashboard/*")
    ensures !DashboardResource("dashboard/main")
    ensures !ArchiveResource("archive/*")
    ensures ArchiveResource("archive/all")
  {
    var r := "archive/*";
    NotStartsWithAt(r, "archive/ingestion-source/", 8);
    NotStartsWithAt(r, "archive/mailbox/", 8);
    NotStartsWithAt(r, "archive/custodian/", 8);
  }
}
