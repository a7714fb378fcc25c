/** The `sync-cycle-finished` job: the barrier that runs once every
    `process-mailbox` child of a sync cycle has returned. It sorts the
    children's return values into failures and successes, merges the
    successful sync-state fragments, picks the source's new status and
    status message, and writes them to the source row. */
module SyncCycleFinishedProcessor {
  import opened Wrappers
  import opened Json
  import JsStrings
  import opened IngestionTypes
  import opened ArchiveStore
  import IngestionService

  // ---------------------------------------------------------------------------
  // Property access on child values
  // ---------------------------------------------------------------------------

  /** `v[k]` on a value that is not `null` or `undefined`: an object's own
      key, `undefined` for anything else (no array, string, number or boolean
      carries an `error`, `message` or `statusMessage` property). */
  function Member(v: Value, k: string): (r: Value)
    ensures !v.Obj? ==> r == Undefined
  {
    match v
    case Obj(fields) => Lookup(fields, k).GetOr(Undefined)
    case _ => Undefined
  }

  /** `v.k` as JavaScript evaluates it: a TypeError on `null` and `undefined`. */
  function Prop(v: Value, k: string): (r: Result<Value>)
    ensures r.Err? <==> IsNullish(v)
    ensures r.Ok? ==> r.value == Member(v, k)
  {
    if IsNullish(v) then Err("TypeError: Cannot read properties of " + Display(v) + " (reading '" + k + "')")
    else Ok(Member(v, k))
  }

  // ---------------------------------------------------------------------------
  // Partition of the children
  // ---------------------------------------------------------------------------

  /** `v && v.error`: a child that returned an error descriptor. */
  predicate Failed(v: Value) {
    Truthy(v) && Truthy(Member(v, "error"))
  }

  /** `failedJobs`: the children with a truthy `error`, in order. */
  function FailedOf(xs: seq<Value>): (r: seq<Value>)
    ensures |r| <= |xs|
    ensures forall v :: v in r <==> v in xs && Failed(v)
  {
    if xs == [] then []
    else
      var init, last := xs[..|xs| - 1], xs[|xs| - 1];
      assert xs == init + [last];
      FailedOf(init) + (if Failed(last) then [last] else [])
  }

  /** `successfulJobs`: every other child, `null` and `undefined` included. */
  function SucceededOf(xs: seq<Value>): (r: seq<Value>)
    ensures |r| <= |xs|
    ensures forall v :: v in r <==> v in xs && !Failed(v)
  {
    if xs == [] then []
    else
      var init, last := xs[..|xs| - 1], xs[|xs| - 1];
      assert xs == init + [last];
      SucceededOf(init) + (if !Failed(last) then [last] else [])
  }

  /** Every child lands in exactly one of the two lists. */
  lemma Partition(xs: seq<Value>)
    ensures multiset(FailedOf(xs)) + multiset(SucceededOf(xs)) == multiset(xs)
    ensures |FailedOf(xs)| + |SucceededOf(xs)| == |xs|
  {
    PartitionMultiset(xs);
    assert |multiset(FailedOf(xs)) + multiset(SucceededOf(xs))| == |multiset(xs)|;
  }

  lemma {:induction false} PartitionMultiset(xs: seq<Value>)
    ensures multiset(FailedOf(xs)) + multiset(SucceededOf(xs)) == multiset(xs)
  {
    if xs != [] {
      var init, last := xs[..|xs| - 1], xs[|xs| - 1];
      PartitionMultiset(init);
      assert xs == init + [last];
      assert FailedOf(xs) == FailedOf(init) + (if Failed(last) then [last] else []);
      assert SucceededOf(xs) == SucceededOf(init) + (if !Failed(last) then [last] else []);
    }
  }

  // ---------------------------------------------------------------------------
  // The merged sync state
  // ---------------------------------------------------------------------------

  /** `s && Object.keys(s).length > 0`: a fragment worth merging. */
  predicate NonEmpty(v: Value) {
    Truthy(v) && |ForInEntries(v)| > 0
  }

  /** The fragments handed to `deepmerge`, in order. */
  function NonEmptyOf(xs: seq<Value>): (r: seq<Value>)
    ensures |r| <= |xs|
    ensures forall v :: v in r <==> v in xs && NonEmpty(v)
  {
    if xs == [] then []
    else
      var init, last := xs[..|xs| - 1], xs[|xs| - 1];
      assert xs == init + [last];
      NonEmptyOf(init) + (if NonEmpty(last) then [last] else [])
  }

  /** The fragments of the successful children. */
  function Fragments(children: seq<Value>): seq<Value> {
    NonEmptyOf(SucceededOf(children))
  }

  /** The merged state is built only from non-empty values of children that
      did not fail, and from all of them. */
  lemma FragmentsMembers(children: seq<Value>)
    ensures forall v :: v in Fragments(children) <==> v in children && !Failed(v) && NonEmpty(v)
  {
  }

  // ---------------------------------------------------------------------------
  // The rate-limit message
  // ---------------------------------------------------------------------------

  /** The `statusMessage` of child `v`, when `v` is not nullish. */
  predicate HasStatusMessage(v: Value) {
    Truthy(Member(v, "statusMessage"))
  }

  /** `xs.find(j => j.statusMessage)?.statusMessage`: the first truthy
      `statusMessage`, or `undefined`; reading it from a nullish element
      reached before that throws. */
  function RateLimitMessage(xs: seq<Value>): (r: Result<Value>)
  {
    if xs == [] then Ok(Undefined)
    else if IsNullish(xs[0]) then Err(Prop(xs[0], "statusMessage").error)
    else if HasStatusMessage(xs[0]) then Ok(Member(xs[0], "statusMessage"))
    else RateLimitMessage(xs[1..])
  }

  /** No element before `i` is nullish or carries a status message. */
  predicate PassedOver(xs: seq<Value>, i: int)
    requires 0 <= i <= |xs|
  {
    forall j :: 0 <= j < i ==> !IsNullish(xs[j]) && !HasStatusMessage(xs[j])
  }

  /** What `find` returns: the message of the first element with one, when
      every earlier element could be read; `undefined` when none has one and
      all could be read; an error exactly when a nullish element comes first. */
  lemma {:induction false} RateLimitMessageSpec(xs: seq<Value>)
    ensures RateLimitMessage(xs).Err? <==>
      exists i :: 0 <= i < |xs| && IsNullish(xs[i]) && PassedOver(xs, i)
    ensures RateLimitMessage(xs) == Ok(Undefined) <==> PassedOver(xs, |xs|)
    ensures RateLimitMessage(xs).Ok? && RateLimitMessage(xs) != Ok(Undefined) ==>
      exists i :: 0 <= i < |xs| && PassedOver(xs, i) && !IsNullish(xs[i]) && HasStatusMessage(xs[i]) &&
        RateLimitMessage(xs).value == Member(xs[i], "statusMessage")
  {
    if xs != [] {
      var tail := xs[1..];
      RateLimitMessageSpec(tail);
      if IsNullish(xs[0]) {
        assert IsNullish(xs[0]) && PassedOver(xs, 0);
        assert !PassedOver(xs, |xs|);
      } else if HasStatusMessage(xs[0]) {
        assert PassedOver(xs, 0);
        assert !PassedOver(xs, |xs|);
        forall i | 0 <= i < |xs| && IsNullish(xs[i]) ensures !PassedOver(xs, i) {
          assert i > 0;
        }
      } else {
        forall i | 0 <= i < |tail| && PassedOver(tail, i) ensures PassedOver(xs, i + 1) {
          forall j | 0 <= j < i + 1 ensures !IsNullish(xs[j]) && !HasStatusMessage(xs[j]) {
            if j > 0 {
              assert xs[j] == tail[j - 1];
            }
          }
        }
        forall i | 0 <= i < |xs| && PassedOver(xs, i) && i > 0 ensures PassedOver(tail, i - 1) {
          forall j | 0 <= j < i - 1 ensures !IsNullish(tail[j]) && !HasStatusMessage(tail[j]) {
            assert tail[j] == xs[j + 1];
          }
        }
        if RateLimitMessage(tail).Err? {
          var i :| 0 <= i < |tail| && IsNullish(tail[i]) && PassedOver(tail, i);
          assert IsNullish(xs[i + 1]) && PassedOver(xs, i + 1);
        }
        if RateLimitMessage(tail).Ok? && RateLimitMessage(tail) != Ok(Undefined) {
          var i :| 0 <= i < |tail| && PassedOver(tail, i) && !IsNullish(tail[i]) && HasStatusMessage(tail[i]) &&
            RateLimitMessage(tail).value == Member(tail[i], "statusMessage");
          assert PassedOver(xs, i + 1) && xs[i + 1] == tail[i];
        }
      }
    }
  }

  // ---------------------------------------------------------------------------
  // Status and message
  // ---------------------------------------------------------------------------

  /** The new status and status message of the source. */
  datatype Verdict = Verdict(status: Status, message: string)

  /** How `join` renders one element: `null` and `undefined` as `""`. */
  function JoinText(v: Value): string {
    if IsNullish(v) then "" else Display(v)
  }

  /** `failedJobs.map(j => j.message)`, rendered for `join`. */
  function FailureTexts(failed: seq<Value>): (r: seq<string>)
    ensures |r| == |failed|
    ensures forall i :: 0 <= i < |failed| ==> r[i] == JoinText(Member(failed[i], "message"))
  {
    if failed == [] then [] else [JoinText(Member(failed[0], "message"))] + FailureTexts(failed[1..])
  }

  /** The message for a cycle with failures. */
  function FailureMessage(failed: seq<Value>): string {
    "Sync cycle completed with " + JsStrings.NatToString(|failed|) + " error(s):\n" +
      JsStrings.Join(FailureTexts(failed), "\n")
  }

  /** `${userCount}` */
  function CountText(userCount: Option<int>): string {
    match userCount
    case None => "undefined"
    case Some(n) => JsStrings.IntToString(n)
  }

  const ContinuousMessage := "Continuous sync cycle finished successfully."

  /** The status and message the barrier writes, or the error its `find`
      raises. */
  function Finalize(children: seq<Value>, provider: Provider, isInitialImport: bool, userCount: Option<int>)
    : (r: Result<Verdict>)
    ensures r.Err? <==> RateLimitMessage(SucceededOf(children)).Err?
  {
    var failed := FailedOf(children);
    var rate :- RateLimitMessage(SucceededOf(children));
    if |failed| > 0 then Ok(Verdict(Error, FailureMessage(failed)))
    else
      var status := if provider == PstImport then Imported else Status.Active;
      if Truthy(rate) then Ok(Verdict(status, Display(rate)))
      else if isInitialImport then Ok(Verdict(status, "Initial import finished for " + CountText(userCount) + " mailboxes."))
      else Ok(Verdict(status, ContinuousMessage))
  }

  /** The status is `error` exactly when some child failed; otherwise it is
      `imported` for a PST import and `active` for every other provider. */
  lemma FinalizeStatus(children: seq<Value>, provider: Provider, isInitialImport: bool, userCount: Option<int>)
    requires Finalize(children, provider, isInitialImport, userCount).Ok?
    ensures var v := Finalize(children, provider, isInitialImport, userCount).value;
      (v.status == Error <==> exists c :: c in children && Failed(c)) &&
      (v.status == Imported <==> (forall c :: c in children ==> !Failed(c)) && provider == PstImport) &&
      (v.status == Status.Active <==> (forall c :: c in children ==> !Failed(c)) && provider != PstImport)
  {
    var failed := FailedOf(children);
    if |failed| > 0 {
      assert failed[0] in failed;
    }
  }

  /** The message: the failures counted and listed one per line when there
      are any; else the first successful child's status message; else the
      initial-import or the continuous-sync message. */
  lemma FinalizeMessage(children: seq<Value>, provider: Provider, isInitialImport: bool, userCount: Option<int>)
    requires Finalize(children, provider, isInitialImport, userCount).Ok?
    ensures var v := Finalize(children, provider, isInitialImport, userCount).value;
      var failed := FailedOf(children);
      var rate := RateLimitMessage(SucceededOf(children)).value;
      (|failed| > 0 ==>
        JsStrings.StartsWith(v.message, "Sync cycle completed with " + JsStrings.NatToString(|failed|) + " error(s):\n") &&
        (forall i :: 0 <= i < |failed| ==>
          JsStrings.Contains(v.message, JoinText(Member(failed[i], "message"))))) &&
      (|failed| == 0 && Truthy(rate) ==> v.message == Display(rate)) &&
      (|failed| == 0 && !Truthy(rate) && isInitialImport ==>
        v.message == "Initial import finished for " + CountText(userCount) + " mailboxes.") &&
      (|failed| == 0 && !Truthy(rate) && !isInitialImport ==> v.message == ContinuousMessage)
  {
    var failed := FailedOf(children);
    if |failed| > 0 {
      var head := "Sync cycle completed with " + JsStrings.NatToString(|failed|) + " error(s):\n";
      var texts := FailureTexts(failed);
      JsStrings.StartsWithAppend(head, JsStrings.Join(texts, "\n"), head);
      forall i | 0 <= i < |failed| ensures JsStrings.Contains(FailureMessage(failed), texts[i]) {
        JoinContains(texts, "\n", i);
        JsStrings.ContainsInMiddle(head, JsStrings.Join(texts, "\n"), "", texts[i]);
        assert head + JsStrings.Join(texts, "\n") + "" == FailureMessage(failed);
      }
    }
  }

  /** Every part appears in the joined string. */
  lemma {:induction false} JoinContains(parts: seq<string>, sep: string, i: nat)
    requires i < |parts|
    ensures JsStrings.Contains(JsStrings.Join(parts, sep), parts[i])
    decreases |parts|
  {
    if |parts| == 1 {
      ContainsSelf(parts[0]);
    } else {
      var rest := JsStrings.Join(parts[1..], sep);
      assert JsStrings.Join(parts, sep) == parts[0] + sep + rest;
      if i == 0 {
        ContainsSelf(parts[0]);
        JsStrings.ContainsConcat(parts[0], sep + rest, parts[0]);
        assert parts[0] + (sep + rest) == parts[0] + sep + rest;
      } else {
        JoinContains(parts[1..], sep, i - 1);
        JsStrings.ContainsInMiddle(parts[0] + sep, rest, "", parts[i]);
        assert parts[0] + sep + rest + "" == parts[0] + sep + rest;
      }
    }
  }

  lemma ContainsSelf(s: string)
    ensures JsStrings.Contains(s, s)
  {
    assert JsStrings.OccursAt(s, s, 0);
    JsStrings.ContainsIff(s, s);
  }

  // ---------------------------------------------------------------------------
  // The processor
  // ---------------------------------------------------------------------------

  const UnexpectedMessage := "An unexpected error occurred while finalizing the sync cycle."

  /** What the barrier writes to the source row: the verdict, the finish
      time and the merged state, or the fixed error when finalizing threw. */
  function Completion(children: seq<Value>, provider: Provider, isInitialImport: bool, userCount: Option<int>,
                      merge: seq<Value> -> Value, now: nat): (r: IngestionService.SourceUpdate)
    ensures r.lastSyncFinishedAt == Some(now) && r.providerConfig.None?
    ensures Finalize(children, provider, isInitialImport, userCount).Err? ==>
      r == IngestionService.ErrorUpdate(now, UnexpectedMessage)
    ensures Finalize(children, provider, isInitialImport, userCount).Ok? ==>
      r.syncState == Some(merge(Fragments(children))) &&
      r.status == Some(Finalize(children, provider, isInitialImport, userCount).value.status) &&
      r.lastSyncStatusMessage == Some(Finalize(children, provider, isInitialImport, userCount).value.message)
  {
    match Finalize(children, provider, isInitialImport, userCount)
    case Err(_) => IngestionService.ErrorUpdate(now, UnexpectedMessage)
    case Ok(v) =>
      IngestionService.NoUpdate.(status := Some(v.status), lastSyncFinishedAt := Some(now),
                                 lastSyncStatusMessage := Some(v.message), syncState := Some(merge(Fragments(children))))
  }

  /** The barrier job for source `sourceId`, whose children returned
      `children`. `merge` is `deepmerge`; `now` is the clock. When the source
      cannot be loaded, the catch block's own update fails the same way and
      the job fails; nothing is written. */
  method Process(db: Archive, sourceId: string, children: seq<Value>, isInitialImport: bool,
                 userCount: Option<int>, merge: seq<Value> -> Value, now: nat) returns (r: Outcome)
    requires db.Valid()
    modifies db
    ensures db.Valid()
    ensures db.emails == old(db.emails) && db.attachments == old(db.attachments)
    ensures db.links == old(db.links) && db.index == old(db.index) && db.queue == old(db.queue)
    ensures old(IngestionService.FindById(db, sourceId)).Err? ==>
      r == Fail(old(IngestionService.FindById(db, sourceId)).error) && db.sources == old(db.sources)
    ensures old(IngestionService.FindById(db, sourceId)).Ok? ==>
      r == Pass &&
      db.sources == old(db.sources)[sourceId := IngestionService.ApplyUpdate(old(db.sources)[sourceId],
        Completion(children, old(db.sources)[sourceId].provider, isInitialImport, userCount, merge, now))]
  {
    var finalSyncState := merge(Fragments(children));
    var source := IngestionService.FindById(db, sourceId);
    if source.Err? {
      var recovered := IngestionService.Update(db, sourceId, IngestionService.ErrorUpdate(now, UnexpectedMessage));
      return Fail(recovered.error);
    }
    var verdict := Finalize(children, source.value.provider, isInitialImport, userCount);
    if verdict.Err? {
      var _ := IngestionService.Update(db, sourceId, IngestionService.ErrorUpdate(now, UnexpectedMessage));
      return Pass;
    }
    var row := db.sources[sourceId];
    db.PutSource(sourceId, IngestionService.ApplyUpdate(row,
      IngestionService.NoUpdate.(status := Some(verdict.value.status), lastSyncFinishedAt := Some(now),
                                 lastSyncStatusMessage := Some(verdict.value.message), syncState := Some(finalSyncState))));
    return Pass;
  }

  // ---------------------------------------------------------------------------
  // A nullish successful child
  // ---------------------------------------------------------------------------

  /** A child that returned nothing is counted as successful, and the
      `find` over the successful children then reads `statusMessage` from
      it and throws: the cycle is recorded as an unexpected error although
      no mailbox failed. */
  lemma NullChildAborts(provider: Provider, isInitialImport: bool, userCount: Option<int>)
    ensures !Failed(Null) && SucceededOf([Null]) == [Null]
    ensures Finalize([Null], provider, isInitialImport, userCount).Err?
  {
    assert [Null][..0] == [];
  }

  /** `xs.find(j => j?.statusMessage)?.statusMessage`: nullish elements are
      passed over. */
  function IntendedRateLimitMessage(xs: seq<Value>): (r: Value)
  {
    if xs == [] then Undefined
    else if !IsNullish(xs[0]) && HasStatusMessage(xs[0]) then Member(xs[0], "statusMessage")
    else IntendedRateLimitMessage(xs[1..])
  }

  /** The barrier with nullish successful children passed over: it never
      throws, and it agrees with `Finalize` wherever that one does not. */
  function IntendedFinalize(children: seq<Value>, provider: Provider, isInitialImport: bool, userCount: Option<int>)
    : (r: Verdict)
  {
    var failed := FailedOf(children);
    var rate := IntendedRateLimitMessage(SucceededOf(children));
    if |failed| > 0 then Verdict(Error, FailureMessage(failed))
    else
      var status := if provider == PstImport then Imported else Status.Active;
      if Truthy(rate) then Verdict(status, Display(rate))
      else if isInitialImport then Verdict(status, "Initial import finished for " + CountText(userCount) + " mailboxes.")
      else Verdict(status, ContinuousMessage)
  }

  /** Where the as-written `find` succeeds, the corrected one finds the same
      message. */
  lemma {:induction false} IntendedRateLimitAgrees(xs: seq<Value>)
    requires RateLimitMessage(xs).Ok?
    ensures IntendedRateLimitMessage(xs) == RateLimitMessage(xs).value
  {
    if xs != [] && !IsNullish(xs[0]) && !HasStatusMessage(xs[0]) {
      IntendedRateLimitAgrees(xs[1..]);
    }
  }

  /** The corrected barrier: with no failures, the message is the first
      status message of a non-nullish successful child, and a nullish child
      never turns the cycle into an error; it agrees with the as-written
      barrier wherever that one completes. */
  lemma IntendedFinalizeSpec(children: seq<Value>, provider: Provider, isInitialImport: bool, userCount: Option<int>)
    ensures var v := IntendedFinalize(children, provider, isInitialImport, userCount);
      (v.status == Error <==> exists c :: c in children && Failed(c))
    ensures Finalize(children, provider, isInitialImport, userCount).Ok? ==>
      IntendedFinalize(children, provider, isInitialImport, userCount) ==
        Finalize(children, provider, isInitialImport, userCount).value
    ensures (forall c :: c in children ==> IsNullish(c)) ==>
      IntendedFinalize(children, provider, isInitialImport, userCount).status ==
        (if provider == PstImport then Imported else Status.Active)
  {
    var failed := FailedOf(children);
    if |failed| > 0 {
      assert failed[0] in failed;
    }
    if RateLimitMessage(SucceededOf(children)).Ok? {
      IntendedRateLimitAgrees(SucceededOf(children));
    }
  }
}
