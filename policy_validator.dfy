/** `PolicyValidator.isValid`: the check a policy statement passes before it is
    stored — both fields present, every action one of the application actions
    and every subject one of the application subjects, with the first offending
    name reported. */
module PolicyValidator {
  import opened Wrappers
  import opened IamTypes

  /** The policy as it reaches the validator from a request body: possibly
      absent, with possibly absent fields. */
  datatype PolicyInput = NoPolicy | Policy(action: Option<Names>, subject: Option<Names>)

  /** `{ valid, reason }` */
  datatype Verdict = Verdict(valid: bool, reason: string)

  /** A double-quote character. */
  const Quote: string := ['"']

  const MissingFields := "Policy is missing required fields " + Quote + "action" + Quote + " or " + Quote + "subject" + Quote + "."

  /** JavaScript truthiness of a field: absent and `""` are falsy, while any
      array, even an empty one, is truthy. */
  predicate Present(n: Option<Names>) {
    n.Some? && (n.value.One? ==> n.value.name != "")
  }

  /** `isActionValid`: membership in the action whitelist. */
  function IsActionValid(a: string): (r: Verdict)
    ensures r.valid <==> a in AppActions
    ensures r.valid <==> r.reason == "valid"
    ensures !r.valid ==> r.reason == "Action '" + a + "' is not a valid action."
  {
    if a in AppActions then Verdict(true, "valid")
    else Verdict(false, "Action '" + a + "' is not a valid action.")
  }

  /** `isSubjectValid`: membership in the subject whitelist. */
  function IsSubjectValid(s: string): (r: Verdict)
    ensures r.valid <==> s in AppSubjects
    ensures r.valid <==> r.reason == "valid"
    ensures !r.valid ==> r.reason == "Subject '" + s + "' is not a valid subject."
  {
    if s in AppSubjects then Verdict(true, "valid")
    else Verdict(false, "Subject '" + s + "' is not a valid subject.")
  }

  /** The early-return loop over `xs`: the verdict of the first element the
      check rejects, or `None` when every element passes. */
  function FirstFailure(xs: seq<string>, check: string -> Verdict): (r: Option<Verdict>)
    ensures r.None? <==> forall i :: 0 <= i < |xs| ==> check(xs[i]).valid
    ensures r.Some? ==> exists i :: (0 <= i < |xs| && r.value == check(xs[i]) && !check(xs[i]).valid &&
      forall j :: 0 <= j < i ==> check(xs[j]).valid)
  {
    if xs == [] then None
    else if !check(xs[0]).valid then Some(check(xs[0]))
    else
      var rest := FirstFailure(xs[1..], check);
      assert forall i :: 0 < i < |xs| ==> xs[i] == xs[1..][i - 1];
      if rest.Some? then
        ghost var k :| 0 <= k < |xs[1..]| && rest.value == check(xs[1..][k]) && !check(xs[1..][k]).valid &&
          forall j :: 0 <= j < k ==> check(xs[1..][j]).valid;
        assert forall j :: 0 <= j < k + 1 ==> check(xs[j]).valid by {
          forall j | 0 <= j < k + 1 ensures check(xs[j]).valid {
            if j > 0 { assert xs[j] == xs[1..][j - 1]; }
          }
        }
        rest
      else rest
  }

  /** `PolicyValidator.isValid` */
  function IsValid(p: PolicyInput): Verdict {
    if p.NoPolicy? || !Present(p.action) || !Present(p.subject) then Verdict(false, MissingFields)
    else
      match FirstFailure(p.action.value.AsList(), IsActionValid)
      case Some(v) => v
      case None =>
        match FirstFailure(p.subject.value.AsList(), IsSubjectValid)
        case Some(v) => v
        case None => Verdict(true, "valid")
  }

  // ---------------------------------------------------------------------------
  // What the validator decides
  // ---------------------------------------------------------------------------

  /** A policy is valid exactly when both fields are present and every listed
      action and subject is whitelisted; the reason is `valid` exactly then. */
  lemma IsValidIff(p: PolicyInput)
    ensures IsValid(p).valid <==>
      p.Policy? && Present(p.action) && Present(p.subject) &&
      (forall a :: a in p.action.value.AsList() ==> a in AppActions) &&
      (forall s :: s in p.subject.value.AsList() ==> s in AppSubjects)
    ensures IsValid(p).valid <==> IsValid(p).reason == "valid"
  {
    if p.Policy? && Present(p.action) && Present(p.subject) {
      var actions := p.action.value.AsList();
      var subjects := p.subject.value.AsList();
      if forall a :: a in actions ==> a in AppActions {
        assert forall i :: 0 <= i < |actions| ==> IsActionValid(actions[i]).valid;
      } else {
        var a :| a in actions && a !in AppActions;
        var i :| 0 <= i < |actions| && actions[i] == a;
        assert !IsActionValid(actions[i]).valid;
      }
      if forall s :: s in subjects ==> s in AppSubjects {
        assert forall i :: 0 <= i < |subjects| ==> IsSubjectValid(subjects[i]).valid;
      } else {
        var s :| s in subjects && s !in AppSubjects;
        var i :| 0 <= i < |subjects| && subjects[i] == s;
        assert !IsSubjectValid(subjects[i]).valid;
      }
    }
  }

  /** A missing policy, action or subject gets the missing-fields reason. */
  lemma MissingFieldsReason(p: PolicyInput)
    ensures p.NoPolicy? || !Present(p.action) || !Present(p.subject) <==>
      IsValid(p) == Verdict(false, MissingFields)
  {
    if p.Policy? && Present(p.action) && Present(p.subject) {
      var actions := p.action.value.AsList();
      var subjects := p.subject.value.AsList();
      match FirstFailure(actions, IsActionValid)
      case Some(v) =>
        var i :| 0 <= i < |actions| && v == IsActionValid(actions[i]) && !IsActionValid(actions[i]).valid;
        var msg := "Action '" + actions[i] + "' is not a valid action.";
        assert v.reason == msg && msg[0] == "Action '"[0] == 'A';
        assert MissingFields[0] == 'P';
      case None =>
        match FirstFailure(subjects, IsSubjectValid)
        case Some(v) =>
          var i :| 0 <= i < |subjects| && v == IsSubjectValid(subjects[i]) && !IsSubjectValid(subjects[i]).valid;
          var msg := "Subject '" + subjects[i] + "' is not a valid subject.";
          assert v.reason == msg && msg[0] == "Subject '"[0] == 'S';
          assert MissingFields[0] == 'P';
        case None =>
    }
  }

  /** Actions are checked before subjects: the first action outside the
      whitelist decides the reason, whatever the subjects are. */
  lemma FirstInvalidActionDecides(p: PolicyInput, i: nat)
    requires p.Policy? && Present(p.action) && Present(p.subject)
    requires i < |p.action.value.AsList()| && p.action.value.AsList()[i] !in AppActions
    requires forall j :: 0 <= j < i ==> p.action.value.AsList()[j] in AppActions
    ensures IsValid(p) == Verdict(false, "Action '" + p.action.value.AsList()[i] + "' is not a valid action.")
  {
    var actions := p.action.value.AsList();
    var r := FirstFailure(actions, IsActionValid);
    assert !IsActionValid(actions[i]).valid;
    var k :| 0 <= k < |actions| && r.value == IsActionValid(actions[k]) && !IsActionValid(actions[k]).valid &&
      forall j :: 0 <= j < k ==> IsActionValid(actions[j]).valid;
    assert forall j :: 0 <= j < i ==> IsActionValid(actions[j]).valid;
    assert k == i;
  }

  /** With every action valid, the first subject outside the whitelist decides. */
  lemma FirstInvalidSubjectDecides(p: PolicyInput, i: nat)
    requires p.Policy? && Present(p.action) && Present(p.subject)
    requires forall a :: a in p.action.value.AsList() ==> a in AppActions
    requires i < |p.subject.value.AsList()| && p.subject.value.AsList()[i] !in AppSubjects
    requires forall j :: 0 <= j < i ==> p.subject.value.AsList()[j] in AppSubjects
    ensures IsValid(p) == Verdict(false, "Subject '" + p.subject.value.AsList()[i] + "' is not a valid subject.")
  {
    var actions := p.action.value.AsList();
    assert forall j :: 0 <= j < |actions| ==> IsActionValid(actions[j]).valid;
    var subjects := p.subject.value.AsList();
    var r := FirstFailure(subjects, IsSubjectValid);
    assert !IsSubjectValid(subjects[i]).valid;
    var k :| 0 <= k < |subjects| && r.value == IsSubjectValid(subjects[k]) && !IsSubjectValid(subjects[k]).valid &&
      forall j :: 0 <= j < k ==> IsSubjectValid(subjects[j]).valid;
    assert forall j :: 0 <= j < i ==> IsSubjectValid(subjects[j]).valid;
    assert k == i;
  }

  /** A single name is validated exactly as the one-element list holding it. */
  lemma ScalarAsArray(a: string, s: string)
    requires a != "" && s != ""
    ensures IsValid(Policy(Some(One(a)), Some(One(s)))) == IsValid(Policy(Some(Many([a])), Some(Many([s]))))
  {
  }

  /** An empty list is truthy: it passes the presence test and has nothing to
      reject, so `{action: [], subject: []}` is valid, while `action: ""` is missing. */
  lemma EmptyListsValid()
    ensures IsValid(Policy(Some(Many([])), Some(Many([])))) == Verdict(true, "valid")
    ensures IsValid(Policy(Some(One("")), Some(One("all")))) == Verdict(false, MissingFields)
  {
  }
}
