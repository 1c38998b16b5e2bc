/** The IAM policy handling shared by `install_alb_controller` and
    `fix_alb_permissions`: adding the four listener permissions the
    downloaded controller policy lacks, and choosing which old policy
    version to delete before a new one is pushed. */
module Policy {
  import opened Wrappers
  import Text

  /** A statement's `Action` value: a JSON list of action names, a single
      action name, or absent (read as `[]`). */
  datatype ActionField = ActionList(actions: seq<string>) | SingleAction(action: string) | NoAction

  /** One entry of the policy's `Statement` list. `others` stands for the
      keys the tool never reads (Resource, Condition, ...). */
  datatype Statement = Statement(effect: Option<string>, action: ActionField, others: map<string, string>)

  const ElbPrefix := "elasticloadbalancing:"

  /** The permissions added to every qualifying statement, in this order. */
  const ExtraPermissions: seq<string> := [
    ElbPrefix + "DescribeListenerAttributes",
    ElbPrefix + "ModifyListenerAttributes",
    ElbPrefix + "DescribeListenerCertificates",
    ElbPrefix + "ModifyListenerCertificates"]

  /** No permission is listed twice. */
  lemma ExtraPermissionsDistinct()
    ensures Distinct(ExtraPermissions)
  {
    var n := |ElbPrefix|;
    forall i, j | 0 <= i < j < |ExtraPermissions|
      ensures ExtraPermissions[i] != ExtraPermissions[j]
    {
      assert |ExtraPermissions[i]| != |ExtraPermissions[j]| || ExtraPermissions[i][n] != ExtraPermissions[j][n];
    }
  }

  /** `any('elasticloadbalancing' in action for action in actions)`. */
  predicate HasElbAction(actions: seq<string>)
  {
    actions != [] && (Text.Contains(actions[0], "elasticloadbalancing") || HasElbAction(actions[1..]))
  }

  /** `HasElbAction` asks whether some action mentions the service. */
  lemma {:induction false} HasElbActionMeansSome(actions: seq<string>)
    ensures HasElbAction(actions) <==>
      exists i | 0 <= i < |actions| :: Text.Contains(actions[i], "elasticloadbalancing")
  {
    if actions != [] {
      HasElbActionMeansSome(actions[1..]);
      if HasElbAction(actions[1..]) {
        var i :| 0 <= i < |actions[1..]| && Text.Contains(actions[1..][i], "elasticloadbalancing");
        assert actions[i + 1] == actions[1..][i];
      }
      if exists i | 0 <= i < |actions| :: Text.Contains(actions[i], "elasticloadbalancing") {
        var i :| 0 <= i < |actions| && Text.Contains(actions[i], "elasticloadbalancing");
        if i > 0 {
          assert actions[1..][i - 1] == actions[i];
        }
      }
    }
  }

  /** The statements the augmentation touches: `Effect` is `Allow` and
      `Action` is a list naming some Elastic Load Balancing action. */
  predicate Qualifies(st: Statement)
  {
    st.effect == Some("Allow") && st.action.ActionList? && HasElbAction(st.action.actions)
  }

  /** `for perm in perms: if perm not in actions: actions.append(perm)`. */
  function AddMissing(actions: seq<string>, perms: seq<string>): (r: seq<string>)
    ensures |actions| <= |r| && r[..|actions|] == actions
    decreases perms
  {
    if perms == [] then actions
    else
      var next := if perms[0] in actions then actions else actions + [perms[0]];
      var r := AddMissing(next, perms[1..]);
      assert r[..|actions|] == next[..|next|][..|actions|];
      r
  }

  /** After augmentation every permission is present, and nothing but the
      original actions and the permissions is. */
  lemma {:induction false} AddMissingContents(actions: seq<string>, perms: seq<string>)
    ensures forall p | p in perms :: p in AddMissing(actions, perms)
    ensures forall x | x in AddMissing(actions, perms) :: x in actions || x in perms
    decreases perms
  {
    if perms != [] {
      var next := if perms[0] in actions then actions else actions + [perms[0]];
      AddMissingContents(next, perms[1..]);
      var r := AddMissing(actions, perms);
      assert r == AddMissing(next, perms[1..]);
      assert perms[0] in next;
      assert next == r[..|next|];
      forall p | p in perms ensures p in r {
        if p != perms[0] {
          assert p in perms[1..];
        }
      }
    }
  }

  /** The augmentation of one statement. */
  function Augment(st: Statement): Statement
  {
    if Qualifies(st) then st.(action := ActionList(AddMissing(st.action.actions, ExtraPermissions)))
    else st
  }

  /** The augmentation of the whole `Statement` list, statement by statement. */
  function AugmentAll(statements: seq<Statement>): (r: seq<Statement>)
    ensures |r| == |statements|
    ensures forall i | 0 <= i < |r| :: r[i] == Augment(statements[i])
  {
    seq(|statements|, i requires 0 <= i < |statements| => Augment(statements[i]))
  }

  /** The augmentation loop, updating the statements of the downloaded policy
      in place. */
  method AddMissingPermissions(statements: array<Statement>)
    modifies statements
    ensures forall k | 0 <= k < statements.Length :: statements[k] == Augment(old(statements[k]))
  {
    for i := 0 to statements.Length
      invariant forall k | 0 <= k < i :: statements[k] == Augment(old(statements[k]))
      invariant forall k | i <= k < statements.Length :: statements[k] == old(statements[k])
    {
      var updated := AugmentStatement(statements[i]);
      statements[i] := updated;
    }
  }

  /** The body of the augmentation loop for one statement. */
  method AugmentStatement(statement: Statement) returns (updated: Statement)
    ensures updated == Augment(statement)
  {
    updated := statement;
    if statement.effect == Some("Allow") && statement.action.ActionList? {
      var hasElb := HasElbAction(statement.action.actions);
      if hasElb {
        var actions := AppendMissing(statement.action.actions);
        updated := statement.(action := ActionList(actions));
      }
    }
  }

  /** The inner loop of the augmentation: each extra permission the list
      lacks is appended, in order. */
  method AppendMissing(actions: seq<string>) returns (r: seq<string>)
    ensures r == AddMissing(actions, ExtraPermissions)
  {
    r := actions;
    for j := 0 to |ExtraPermissions|
      invariant AddMissing(r, ExtraPermissions[j..]) == AddMissing(actions, ExtraPermissions)
    {
      var perm := ExtraPermissions[j];
      assert ExtraPermissions[j..][1..] == ExtraPermissions[j + 1..];
      if perm !in r {
        r := r + [perm];
      }
    }
    assert ExtraPermissions[|ExtraPermissions|..] == [];
  }

  /** Permissions already present are never added again: when every
      permission is present the list is left as it is. */
  lemma {:induction false} AddMissingWhenPresent(actions: seq<string>, perms: seq<string>)
    requires forall p | p in perms :: p in actions
    ensures AddMissing(actions, perms) == actions
    decreases perms
  {
    if perms != [] {
      AddMissingWhenPresent(actions, perms[1..]);
    }
  }

  /** The elements of `perms` that `actions` lacks, in the order of `perms`. */
  function Missing(actions: seq<string>, perms: seq<string>): seq<string>
  {
    if perms == [] then []
    else (if perms[0] in actions then [] else [perms[0]]) + Missing(actions, perms[1..])
  }

  predicate Distinct(s: seq<string>)
  {
    forall i, j | 0 <= i < j < |s| :: s[i] != s[j]
  }

  /** Augmentation is append-only: the result is the original list followed
      by exactly the missing permissions, in the order they are listed. */
  lemma {:induction false} AddMissingAppendsMissing(actions: seq<string>, perms: seq<string>)
    requires Distinct(perms)
    ensures AddMissing(actions, perms) == actions + Missing(actions, perms)
    decreases perms
  {
    if perms != [] {
      var p := perms[0];
      var rest := perms[1..];
      DistinctTail(perms);
      if p in actions {
        AddMissingAppendsMissing(actions, rest);
        assert Missing(actions, perms) == [] + Missing(actions, rest);
        assert [] + Missing(actions, rest) == Missing(actions, rest);
      } else {
        var missing := Missing(actions, rest);
        AddMissingAppendsMissing(actions + [p], rest);
        MissingIgnoresAbsent(actions, p, rest);
        assert Missing(actions, perms) == [p] + missing;
        assert actions + [p] + missing == actions + ([p] + missing);
      }
    }
  }

  /** The tail of a list without repeats has none and lacks the head. */
  lemma DistinctTail(perms: seq<string>)
    requires perms != [] && Distinct(perms)
    ensures Distinct(perms[1..]) && perms[0] !in perms[1..]
  {
    var rest := perms[1..];
    forall i, j | 0 <= i < j < |rest| ensures rest[i] != rest[j] {
      assert rest[i] == perms[i + 1] && rest[j] == perms[j + 1];
    }
    forall j | 0 <= j < |rest| ensures rest[j] != perms[0] {
      assert rest[j] == perms[j + 1];
    }
  }

  /** Adding an element that `perms` does not mention leaves `Missing` as it was. */
  lemma {:induction false} MissingIgnoresAbsent(actions: seq<string>, p: string, perms: seq<string>)
    requires p !in perms
    ensures Missing(actions + [p], perms) == Missing(actions, perms)
  {
    if perms != [] {
      assert perms[0] in actions + [p] <==> perms[0] in actions;
      MissingIgnoresAbsent(actions, p, perms[1..]);
    }
  }

  /** The extra permissions contain "elasticloadbalancing", so an augmented
      statement still qualifies. */
  lemma AugmentKeepsQualifying(st: Statement)
    ensures Qualifies(Augment(st)) == Qualifies(st)
  {
    if Qualifies(st) {
      var r := AddMissing(st.action.actions, ExtraPermissions);
      HasElbActionMeansSome(st.action.actions);
      HasElbActionMeansSome(r);
      var i :| 0 <= i < |st.action.actions| && Text.Contains(st.action.actions[i], "elasticloadbalancing");
      assert r[i] == st.action.actions[i];
    }
  }

  /** Augmenting an augmented statement changes nothing. */
  lemma AugmentTwice(st: Statement)
    ensures Augment(Augment(st)) == Augment(st)
  {
    AugmentKeepsQualifying(st);
    if Qualifies(st) {
      var r := AddMissing(st.action.actions, ExtraPermissions);
      AddMissingContents(st.action.actions, ExtraPermissions);
      AddMissingWhenPresent(r, ExtraPermissions);
    }
  }

  /** Running the augmentation a second time changes nothing. */
  lemma AugmentIdempotent(statements: seq<Statement>)
    ensures AugmentAll(AugmentAll(statements)) == AugmentAll(statements)
  {
    forall i | 0 <= i < |statements|
      ensures Augment(Augment(statements[i])) == Augment(statements[i])
    {
      AugmentTwice(statements[i]);
    }
  }

  /** What the augmentation does to one statement: a statement that does
      not qualify is unchanged; a qualifying one keeps its effect and other
      keys and gets its actions followed by exactly the extra permissions it
      lacked, in order. */
  lemma AugmentEffect(st: Statement)
    ensures !Qualifies(st) ==> Augment(st) == st
    ensures Qualifies(st) ==>
      && Augment(st).effect == st.effect
      && Augment(st).others == st.others
      && Augment(st).action == ActionList(st.action.actions + Missing(st.action.actions, ExtraPermissions))
  {
    if Qualifies(st) {
      ExtraPermissionsDistinct();
      AddMissingAppendsMissing(st.action.actions, ExtraPermissions);
    }
  }

  // ---------------------------------------------------------------------
  // Version eviction
  // ---------------------------------------------------------------------

  /** The version cap: when the listing of non-default versions is not
      empty, it is split on whitespace, and with four or more versions the
      first one listed is deleted. The result is the version to delete, if
      any. */
  function EvictionTarget(listed: string): Option<string>
  {
    if listed != "" then
      var versions := Text.Fields(Text.Strip(listed));
      if |versions| >= 4 then Some(versions[0]) else None
    else
      None
  }

  /** A version is deleted exactly when the listing names at least four
      non-default versions; the one deleted is the first listed, a
      non-empty word without whitespace. */
  lemma EvictionChoosesFirstOfFour(listed: string)
    ensures var versions := Text.Fields(listed);
      && (EvictionTarget(listed).Some? <==> |versions| >= 4)
      && (EvictionTarget(listed).Some? ==> EvictionTarget(listed).value == versions[0])
      && (EvictionTarget(listed).Some? ==>
            EvictionTarget(listed).value != [] && Text.NoSpace(EvictionTarget(listed).value))
  {
    Text.FieldsOfStrip(listed);
    Text.FieldsAreWords(listed);
    if listed == "" {
      assert Text.Blank(listed);
    }
  }

  /** The listing can be tested raw: stripping it first does not change
      the version chosen. */
  lemma EvictionIgnoresPadding(listed: string)
    ensures EvictionTarget(Text.Strip(listed)) == EvictionTarget(listed)
  {
    Text.FieldsOfStrip(listed);
    Text.FieldsOfStrip(Text.Strip(listed));
    Text.StripIdempotent(listed);
    Text.FieldsAreWords(listed);
  }
}
