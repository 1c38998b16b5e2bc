/** The deployer's operations as functions of the configuration, the
    operator's answers and the script of replies. Each yields how the
    operation ended, the events it adds to the trace and the replies left
    for later commands. A checked command (`check=True`) that exits
    non-zero ends the operation with `Exited(CommandFailed(cmd))`, the
    model of `sys.exit(1)`. */
module Workflow {
  import opened Wrappers
  import Text
  import opened Config
  import Descriptors
  import Policy
  import opened Commands
  import Polls

  // ---------------------------------------------------------------------
  // The controller's IAM policy
  // ---------------------------------------------------------------------

  /** `_get_aws_account_id`: a checked query whose captured text is the
      account; `None` when it ends the program. */
  function AccountId(script: seq<Reply>): Run<Option<string>>
  {
    var reply := Head(script);
    Run(if reply.exitCode != 0 then None else Some(Captured(reply)), [Ran(GetCallerIdentity)], Tail(script))
  }

  /** How the account query and the policy download went. */
  datatype Start = Ready(account: string) | Failed(command: Command)

  /** Both policy operations start alike: the account query, then the
      download of the policy document; both are checked. */
  function Prepare(script: seq<Reply>): Run<Start>
  {
    var account := AccountId(script);
    if account.value.None? then Run(Failed(GetCallerIdentity), account.events, account.rest)
    else
      var download := account.rest;
      Run(if Head(download).exitCode != 0 then Failed(DownloadPolicy) else Ready(account.value.value),
          account.events + [Ran(DownloadPolicy)], Tail(download))
  }

  /** The version update both operations share: list the non-default
      versions (unchecked), delete the version the cap calls for
      (unchecked), then create the new default version (checked). The
      value says whether the creation succeeded. */
  function PushVersion(script: seq<Reply>, arn: string, document: seq<Policy.Statement>): Run<bool>
  {
    var target := Policy.EvictionTarget(Head(script).stdout);
    var evict := if target.Some? then [Ran(DeletePolicyVersion(arn, target.value))] else [];
    var create := if target.Some? then Tail(Tail(script)) else Tail(script);
    Run(Head(create).exitCode == 0,
        [Ran(ListPolicyVersions(arn))] + evict + [Ran(CreatePolicyVersion(arn, document))],
        Tail(create))
  }

  /** Exactly one version is deleted, the first one listed, when the
      listing names four or more; otherwise none. The new version is
      created in any case, and its creation decides the outcome. */
  lemma PushVersionEvictsFirstOfFour(script: seq<Reply>, arn: string, document: seq<Policy.Statement>)
    ensures var versions := Text.Fields(Head(script).stdout);
      var evicts := |versions| >= 4;
      var r := PushVersion(script, arn, document);
      && r.events == [Ran(ListPolicyVersions(arn))]
                     + (if evicts then [Ran(DeletePolicyVersion(arn, versions[0]))] else [])
                     + [Ran(CreatePolicyVersion(arn, document))]
      && (r.value <==> Nth(script, if evicts then 2 else 1).exitCode == 0)
  {
    Policy.EvictionChoosesFirstOfFour(Head(script).stdout);
    NthTail(script, 0);
    NthTail(script, 1);
    NthTail(Tail(script), 0);
  }

  /** The lookup finds the policy when its output is not blank and
      mentions "Policy". */
  predicate PolicyExists(reply: Reply)
  {
    !Quiet(reply) && Mentions(reply, "Policy")
  }

  /** `PolicyExists` is the test on the captured text. */
  lemma PolicyExistsMeaning(reply: Reply)
    ensures PolicyExists(reply) <==> Captured(reply) != "" && Text.Contains(Captured(reply), "Policy")
  {
    QuietMeansEmpty(reply);
    MentionsMeansCapturedContains(reply, "Policy");
  }

  /** `install_alb_controller`'s policy step: look the policy up
      (unchecked); update it when it exists, create it (checked) when not.
      The value is the command that ended the program, if any. */
  function PolicySetup(script: seq<Reply>, arn: string, document: seq<Policy.Statement>): Run<Option<Command>>
  {
    if PolicyExists(Head(script)) then
      var push := PushVersion(Tail(script), arn, document);
      Run(if push.value then None else Some(CreatePolicyVersion(arn, document)), [Ran(GetPolicy(arn))] + push.events, push.rest)
    else
      var create := Tail(script);
      Run(if Head(create).exitCode == 0 then None else Some(CreatePolicy(document)),
          [Ran(GetPolicy(arn)), Ran(CreatePolicy(document))], Tail(create))
  }

  /** The update path is taken exactly when the policy exists: a new
      version is created then, and the policy is created otherwise, never
      both. */
  lemma PolicySetupPath(script: seq<Reply>, arn: string, document: seq<Policy.Statement>)
    ensures var r := PolicySetup(script, arn, document);
      && r.events[0] == Ran(GetPolicy(arn))
      && (Ran(CreatePolicyVersion(arn, document)) in r.events <==> PolicyExists(Head(script)))
      && (Ran(CreatePolicy(document)) in r.events <==> !PolicyExists(Head(script)))
      && (r.value.Some? ==> r.value.value == (if PolicyExists(Head(script)) then CreatePolicyVersion(arn, document) else CreatePolicy(document)))
  {
    var r := PolicySetup(script, arn, document);
    if PolicyExists(Head(script)) {
      var push := PushVersion(Tail(script), arn, document);
      assert r.events[|r.events| - 1] == Ran(CreatePolicyVersion(arn, document));
      assert forall e | e in push.events :: e.Ran? && !e.command.CreatePolicy?;
    } else {
      assert r.events == [Ran(GetPolicy(arn)), Ran(CreatePolicy(document))];
    }
  }

  // ---------------------------------------------------------------------
  // install_alb_controller
  // ---------------------------------------------------------------------

  /** The checked steps that install the controller once the policy is in
      place. */
  function ControllerCommands(cfg: Configuration, arn: string): seq<Command>
  {
    [ CreateServiceAccount(cfg.eks.clusterName, arn, cfg.region),
      HelmRepoAddEks,
      HelmRepoUpdate,
      HelmInstallController(cfg.eks.clusterName, cfg.region, cfg.vpcId),
      WaitControllerAvailable ]
  }

  /** After the policy: the checked controller steps; the wait for the
      webhook endpoints (30 probes), whose outcome is only reported; a
      ten-second pause; the checked deployment query. */
  function ControllerInstall(cfg: Configuration, arn: string, script: seq<Reply>): Run<Status>
  {
    var steps := Steps(script, ControllerCommands(cfg, arn));
    if steps.value.Some? then Run(Exited(CommandFailed(steps.value.value)), steps.events, steps.rest)
    else
      var wait := Polls.EndpointPoll(steps.rest, Polls.ControllerProbes);
      Run(if Head(wait.rest).exitCode == 0 then Completed else Exited(CommandFailed(GetControllerDeployment)),
          steps.events + wait.events + [Slept(10), Ran(GetControllerDeployment)],
          Tail(wait.rest))
  }

  /** `install_alb_controller`, given the statements of the downloaded
      policy document: the document is augmented before it is uploaded. */
  function InstallAlbRun(cfg: Configuration, downloaded: seq<Policy.Statement>, script: seq<Reply>): Run<Status>
  {
    var start := Prepare(script);
    if start.value.Failed? then Run(Exited(CommandFailed(start.value.command)), start.events, start.rest)
    else
      var arn := PolicyArn(start.value.account);
      var policy := PolicySetup(start.rest, arn, Policy.AugmentAll(downloaded));
      if policy.value.Some? then Run(Exited(CommandFailed(policy.value.value)), start.events + policy.events, policy.rest)
      else
        var controller := ControllerInstall(cfg, arn, policy.rest);
        Run(controller.value, start.events + policy.events + controller.events, controller.rest)
  }

  /** The controller steps never create or update the policy. */
  lemma ControllerInstallLeavesPolicy(cfg: Configuration, arn: string, script: seq<Reply>)
    ensures forall e | e in ControllerInstall(cfg, arn, script).events ::
      !(e.Ran? && (e.command.CreatePolicy? || e.command.CreatePolicyVersion?))
  {
    var cmds := ControllerCommands(cfg, arn);
    var steps := Steps(script, cmds);
    StepsIssueOnly(script, cmds);
    assert forall c | c in cmds :: !(c.CreatePolicy? || c.CreatePolicyVersion?);
    if steps.value.None? {
      var wait := Polls.EndpointPoll(steps.rest, Polls.ControllerProbes);
      var tail := [Slept(10), Ran(GetControllerDeployment)];
      Polls.EndpointPollOnlyProbes(steps.rest, Polls.ControllerProbes);
      assert ControllerInstall(cfg, arn, script).events == steps.events + wait.events + tail;
      forall e | e in steps.events + wait.events + tail
        ensures !(e.Ran? && (e.command.CreatePolicy? || e.command.CreatePolicyVersion?))
      {
        if e in steps.events {
        } else if e in wait.events {
        } else {
          assert e in tail;
        }
      }
    }
  }

  /** The start succeeds exactly when the account query and the download
      both do; a failed account query stops before the download; the
      account is the captured text of the first reply. */
  lemma PrepareMeaning(script: seq<Reply>)
    ensures var r := Prepare(script);
      && r.events == (if Nth(script, 0).exitCode != 0 then [Ran(GetCallerIdentity)]
                      else [Ran(GetCallerIdentity), Ran(DownloadPolicy)])
      && r.rest == Drop(script, if Nth(script, 0).exitCode != 0 then 1 else 2)
      && (r.value.Ready? <==> Nth(script, 0).exitCode == 0 && Nth(script, 1).exitCode == 0)
      && (r.value.Ready? ==> r.value.account == Captured(Nth(script, 0)))
      && (r.value.Failed? ==> r.value.command == (if Nth(script, 0).exitCode != 0 then GetCallerIdentity else DownloadPolicy))
  {
    NthTail(script, 0);
    NthTail(script, 1);
    NthTail(Tail(script), 0);
    assert Drop(script, 1) == Tail(script);
    assert Drop(Tail(script), 1) == Tail(Tail(script));
    assert Drop(script, 2) == Tail(Tail(script));
  }

  /** Once the start succeeds, the uploaded document is the augmented one,
      and the policy is updated to a new version exactly when the lookup
      finds it, and created exactly when it does not. */
  lemma InstallAlbUpdatesIffExists(cfg: Configuration, downloaded: seq<Policy.Statement>, script: seq<Reply>)
    requires Prepare(script).value.Ready?
    ensures var r := InstallAlbRun(cfg, downloaded, script);
      var arn := PolicyArn(Prepare(script).value.account);
      var document := Policy.AugmentAll(downloaded);
      var found := PolicyExists(Head(Prepare(script).rest));
      && (Ran(CreatePolicyVersion(arn, document)) in r.events <==> found)
      && (Ran(CreatePolicy(document)) in r.events <==> !found)
  {
    var start := Prepare(script);
    var arn := PolicyArn(start.value.account);
    var document := Policy.AugmentAll(downloaded);
    var policy := PolicySetup(start.rest, arn, document);
    PolicySetupPath(start.rest, arn, document);
    var update := Ran(CreatePolicyVersion(arn, document));
    var create := Ran(CreatePolicy(document));
    assert start.events == [Ran(GetCallerIdentity), Ran(DownloadPolicy)];
    assert update !in start.events && create !in start.events;
    var r := InstallAlbRun(cfg, downloaded, script);
    if policy.value.None? {
      var controller := ControllerInstall(cfg, arn, policy.rest);
      ControllerInstallLeavesPolicy(cfg, arn, policy.rest);
      assert update !in controller.events && create !in controller.events;
      AppendAssoc(start.events, policy.events, controller.events);
    } else {
      assert r.events == start.events + policy.events;
    }
  }

  /** Against a succeeding script the policy step succeeds and leaves a
      succeeding script. */
  lemma PolicySetupOnSucceeding(script: seq<Reply>, arn: string, document: seq<Policy.Statement>)
    requires Succeeding(script)
    ensures PolicySetup(script, arn, document).value.None?
    ensures Succeeding(PolicySetup(script, arn, document).rest)
  {
    SucceedingTail(script);
    SucceedingTail(Tail(script));
    SucceedingTail(Tail(Tail(script)));
    SucceedingTail(Tail(Tail(Tail(script))));
  }

  /** When every command succeeds the installation completes, whatever the
      webhook endpoints answer: their wait never ends the operation. */
  lemma InstallAlbCompletes(cfg: Configuration, downloaded: seq<Policy.Statement>, script: seq<Reply>)
    requires Succeeding(script)
    ensures InstallAlbRun(cfg, downloaded, script).value == Completed
  {
    SucceedingTail(script);
    SucceedingTail(Tail(script));
    var start := Prepare(script);
    var arn := PolicyArn(start.value.account);
    var policy := PolicySetup(start.rest, arn, Policy.AugmentAll(downloaded));
    PolicySetupOnSucceeding(start.rest, arn, Policy.AugmentAll(downloaded));
    var steps := Steps(policy.rest, ControllerCommands(cfg, arn));
    StepsOnSucceeding(policy.rest, ControllerCommands(cfg, arn));
    var wait := Polls.EndpointPoll(steps.rest, Polls.ControllerProbes);
    Polls.EndpointPollOnSucceeding(steps.rest, Polls.ControllerProbes);
    SucceedingTail(wait.rest);
  }

  // ---------------------------------------------------------------------
  // fix_alb_permissions
  // ---------------------------------------------------------------------

  /** `fix_alb_permissions`: the account and the download, then the
      version update without any lookup, then a checked restart of the
      controller and a checked wait for its rollout. */
  function FixPermissionsRun(downloaded: seq<Policy.Statement>, script: seq<Reply>): Run<Status>
  {
    var start := Prepare(script);
    if start.value.Failed? then Run(Exited(CommandFailed(start.value.command)), start.events, start.rest)
    else
      var arn := PolicyArn(start.value.account);
      var document := Policy.AugmentAll(downloaded);
      var push := PushVersion(start.rest, arn, document);
      if !push.value then Run(Exited(CommandFailed(CreatePolicyVersion(arn, document))), start.events + push.events, push.rest)
      else
        var restart := Steps(push.rest, [RestartController, RolloutStatusController]);
        Run(if restart.value.Some? then Exited(CommandFailed(restart.value.value)) else Completed,
            start.events + push.events + restart.events, restart.rest)
  }

  /** Once started, `fix_alb_permissions` uploads the augmented document as
      a new version. */
  lemma FixPermissionsUploads(downloaded: seq<Policy.Statement>, script: seq<Reply>)
    requires Prepare(script).value.Ready?
    ensures Ran(CreatePolicyVersion(PolicyArn(Prepare(script).value.account), Policy.AugmentAll(downloaded)))
      in FixPermissionsRun(downloaded, script).events
  {
    var start := Prepare(script);
    var arn := PolicyArn(start.value.account);
    var document := Policy.AugmentAll(downloaded);
    var push := PushVersion(start.rest, arn, document);
    assert push.events[|push.events| - 1] == Ran(CreatePolicyVersion(arn, document));
  }

  /** No event looks the policy up or creates it. */
  predicate NoPolicyLookup(events: seq<Event>)
  {
    forall e | e in events :: !(e.Ran? && (e.command.GetPolicy? || e.command.CreatePolicy?))
  }

  lemma NoPolicyLookupAppend(a: seq<Event>, b: seq<Event>)
    requires NoPolicyLookup(a) && NoPolicyLookup(b)
    ensures NoPolicyLookup(a + b)
  {
  }

  /** `fix_alb_permissions` never looks the policy up and never creates it:
      it takes for granted that the policy exists. */
  lemma FixPermissionsNeverLooksUp(downloaded: seq<Policy.Statement>, script: seq<Reply>)
    ensures forall e | e in FixPermissionsRun(downloaded, script).events ::
      !(e.Ran? && (e.command.GetPolicy? || e.command.CreatePolicy?))
  {
    var start := Prepare(script);
    assert NoPolicyLookup(AccountId(script).events);
    assert NoPolicyLookup(start.events);
    if start.value.Ready? {
      var arn := PolicyArn(start.value.account);
      var document := Policy.AugmentAll(downloaded);
      var push := PushVersion(start.rest, arn, document);
      assert NoPolicyLookup(push.events);
      NoPolicyLookupAppend(start.events, push.events);
      if push.value {
        var restart := Steps(push.rest, [RestartController, RolloutStatusController]);
        StepsIssueOnly(push.rest, [RestartController, RolloutStatusController]);
        assert NoPolicyLookup(restart.events);
        NoPolicyLookupAppend(start.events + push.events, restart.events);
      }
    }
    assert NoPolicyLookup(FixPermissionsRun(downloaded, script).events);
  }

  /** Once started, `fix_alb_permissions` completes exactly when the new
      version is created and the restart and the rollout wait both exit
      zero. */
  lemma FixPermissionsOutcome(downloaded: seq<Policy.Statement>, script: seq<Reply>)
    requires Prepare(script).value.Ready?
    ensures var arn := PolicyArn(Prepare(script).value.account);
      var push := PushVersion(Prepare(script).rest, arn, Policy.AugmentAll(downloaded));
      FixPermissionsRun(downloaded, script).value == Completed <==>
        push.value && Nth(push.rest, 0).exitCode == 0 && Nth(push.rest, 1).exitCode == 0
  {
    var start := Prepare(script);
    var arn := PolicyArn(start.value.account);
    var push := PushVersion(start.rest, arn, Policy.AugmentAll(downloaded));
    if push.value {
      StepsSucceed(push.rest, [RestartController, RolloutStatusController]);
    }
  }

  // ---------------------------------------------------------------------
  // deploy_higress
  // ---------------------------------------------------------------------

  /** `deploy_higress`: the webhook check with its fallback, whose outcome
      never stops the deployment; the checked repository steps; the
      unchecked namespace creation; the install loop, whose failure ends
      the program; the checked verification queries. */
  function DeployRun(cfg: Configuration, script: seq<Reply>): Run<Status>
  {
    var webhook := Polls.EnsureWebhook(script);
    var repos := Steps(webhook.rest, [HelmRepoAddHigress, HelmRepoUpdate]);
    if repos.value.Some? then Run(Exited(CommandFailed(repos.value.value)), webhook.events + repos.events, repos.rest)
    else
      var before := webhook.events + repos.events + [Ran(CreateNamespace)];
      var install := Polls.InstallLoop(Descriptors.HigressValues(cfg), Tail(repos.rest), 0);
      if !install.value then Run(Exited(InstallFailed), before + install.events, install.rest)
      else
        var verify := Steps(install.rest, [GetPods, GetServices]);
        Run(if verify.value.Some? then Exited(CommandFailed(verify.value.value)) else Completed,
            before + install.events + verify.events, verify.rest)
  }

  /** Whatever the webhook checks find, the next command is the Higress
      repository step: a webhook that never gets ready does not stop the
      deployment. */
  lemma DeployProceedsRegardless(cfg: Configuration, script: seq<Reply>)
    ensures var webhook := Polls.EnsureWebhook(script);
      var r := DeployRun(cfg, script);
      |r.events| > |webhook.events| && r.events[..|webhook.events|] == webhook.events
      && r.events[|webhook.events|] == Ran(HelmRepoAddHigress)
  {
    var webhook := Polls.EnsureWebhook(script);
    var repos := Steps(webhook.rest, [HelmRepoAddHigress, HelmRepoUpdate]);
    var n := |webhook.events|;
    assert repos.events[0] == Ran(HelmRepoAddHigress);
    AppendThen(webhook.events, repos.events);
    if repos.value.None? {
      var before := webhook.events + repos.events + [Ran(CreateNamespace)];
      AppendKeeps(webhook.events + repos.events, [Ran(CreateNamespace)], n);
      var install := Polls.InstallLoop(Descriptors.HigressValues(cfg), Tail(repos.rest), 0);
      AppendKeeps(before, install.events, n);
      if install.value {
        AppendKeeps(before + install.events, Steps(install.rest, [GetPods, GetServices]).events, n);
      }
    }
  }

  /** The deployment ends in one of three ways: it completes, the install
      loop fails, or one of the four checked commands fails. */
  lemma DeployOutcome(cfg: Configuration, script: seq<Reply>)
    ensures var r := DeployRun(cfg, script);
      || r.value == Completed
      || r.value == Exited(InstallFailed)
      || (r.value.Exited? && r.value.reason.CommandFailed?
          && r.value.reason.command in [HelmRepoAddHigress, HelmRepoUpdate, GetPods, GetServices])
  {
    var webhook := Polls.EnsureWebhook(script);
    var repos := Steps(webhook.rest, [HelmRepoAddHigress, HelmRepoUpdate]);
    StepsIssueOnly(webhook.rest, [HelmRepoAddHigress, HelmRepoUpdate]);
    if repos.value.None? {
      var install := Polls.InstallLoop(Descriptors.HigressValues(cfg), Tail(repos.rest), 0);
      if install.value {
        StepsIssueOnly(install.rest, [GetPods, GetServices]);
      }
    }
  }

  /** Before the install loop, the deployment neither installs nor
      uninstalls the Higress release. */
  lemma DeployPrefixInstallsNothing(script: seq<Reply>, values: Descriptors.HelmValues)
    ensures var webhook := Polls.EnsureWebhook(script);
      var before := webhook.events + Steps(webhook.rest, [HelmRepoAddHigress, HelmRepoUpdate]).events + [Ran(CreateNamespace)];
      Count(before, Ran(HelmInstallHigress(values))) == 0 && Count(before, Ran(HelmUninstallHigress)) == 0
  {
    var webhook := Polls.EnsureWebhook(script);
    var repos := Steps(webhook.rest, [HelmRepoAddHigress, HelmRepoUpdate]);
    var before := webhook.events + repos.events + [Ran(CreateNamespace)];
    Polls.EnsureWebhookIssues(script);
    StepsIssueOnly(webhook.rest, [HelmRepoAddHigress, HelmRepoUpdate]);
    CountAbsent(before, Ran(HelmInstallHigress(values)));
    CountAbsent(before, Ran(HelmUninstallHigress));
  }

  /** A deployment that fails to install has tried exactly three times and
      cleaned up exactly twice. */
  lemma DeployInstallFailure(cfg: Configuration, script: seq<Reply>)
    ensures var r := DeployRun(cfg, script);
      var install := Ran(HelmInstallHigress(Descriptors.HigressValues(cfg)));
      r.value == Exited(InstallFailed) ==>
        && Count(r.events, install) == Polls.InstallAttempts
        && Count(r.events, Ran(HelmUninstallHigress)) == Polls.InstallAttempts - 1
  {
    var webhook := Polls.EnsureWebhook(script);
    var repos := Steps(webhook.rest, [HelmRepoAddHigress, HelmRepoUpdate]);
    if repos.value.None? {
      var values := Descriptors.HigressValues(cfg);
      var before := webhook.events + repos.events + [Ran(CreateNamespace)];
      var install := Polls.InstallLoop(values, Tail(repos.rest), 0);
      DeployPrefixInstallsNothing(script, values);
      Polls.InstallLoopCounts(values, Tail(repos.rest), 0);
      CountAppend(before, install.events, Ran(HelmInstallHigress(values)));
      CountAppend(before, install.events, Ran(HelmUninstallHigress));
    }
  }

  // ---------------------------------------------------------------------
  // create_alb
  // ---------------------------------------------------------------------

  /** The lookup finds an earlier ingress when its output is not blank and
      mentions "higress-alb". */
  predicate IngressExists(reply: Reply)
  {
    !Quiet(reply) && Mentions(reply, "higress-alb")
  }

  /** The lookup test is Python's `existing and "higress-alb" in existing`
      on the captured text. */
  lemma IngressExistsMeaning(reply: Reply)
    ensures IngressExists(reply) <==> Captured(reply) != "" && Text.Contains(Captured(reply), "higress-alb")
  {
    QuietMeansEmpty(reply);
    MentionsMeansCapturedContains(reply, "higress-alb");
  }

  /** `create_alb` applying `ingress` (the program applies
      `Descriptors.AlbIngress` of its configuration): an earlier ingress is
      deleted (unchecked) and given five seconds; the ingress is applied
      (checked); after fifteen seconds the forty-round wait decides the
      outcome. */
  function CreateAlbRun(ingress: Descriptors.Ingress, script: seq<Reply>): Run<Status>
  {
    var found := IngressExists(Head(script));
    var apply := ApplyIngress(ingress);
    var before := [Ran(GetIngress)] + (if found then [Ran(DeleteIngress), Slept(5)] else []) + [Ran(apply)];
    var applied := if found then Tail(Tail(script)) else Tail(script);
    if Head(applied).exitCode != 0 then Run(Exited(CommandFailed(apply)), before, Tail(applied))
    else
      var poll := Polls.AlbPoll(Tail(applied), Polls.AlbRounds);
      Run(poll.value, before + [Slept(15)] + poll.events, poll.rest)
  }

  /** An earlier ingress is deleted before the new one is applied exactly
      when the lookup finds it; the ingress applied is the one given. */
  lemma CreateAlbReplacesExisting(ingress: Descriptors.Ingress, script: seq<Reply>)
    ensures var r := CreateAlbRun(ingress, script);
      var apply := Ran(ApplyIngress(ingress));
      && (IngressExists(Head(script)) ==> r.events[..4] == [Ran(GetIngress), Ran(DeleteIngress), Slept(5), apply])
      && (!IngressExists(Head(script)) ==> r.events[..2] == [Ran(GetIngress), apply])
  {
    var found := IngressExists(Head(script));
    var apply := ApplyIngress(ingress);
    var removed := if found then [Ran(DeleteIngress), Slept(5)] else [];
    var before := [Ran(GetIngress)] + removed + [Ran(apply)];
    assert before == if found then [Ran(GetIngress), Ran(DeleteIngress), Slept(5), Ran(apply)] else [Ran(GetIngress), Ran(apply)];
    var applied := if found then Tail(Tail(script)) else Tail(script);
    if Head(applied).exitCode == 0 {
      var poll := Polls.AlbPoll(Tail(applied), Polls.AlbRounds);
      AppendAssoc(before, [Slept(15)], poll.events);
      AppendThen(before, [Slept(15)] + poll.events);
    }
  }

  /** The operation ends with the host name, a time-out (without exiting)
      or an exit; a failed apply is the only exit before the wait. */
  lemma CreateAlbOutcome(ingress: Descriptors.Ingress, script: seq<Reply>)
    ensures var r := CreateAlbRun(ingress, script);
      && (r.value.Endpoint? || r.value.TimedOut? || r.value.Exited?)
      && (r.value.Endpoint? ==> r.value.hostname != "")
  {
    var found := IngressExists(Head(script));
    var applied := if found then Tail(Tail(script)) else Tail(script);
    Polls.AlbPollEnds(Tail(applied), Polls.AlbRounds);
  }

  // ---------------------------------------------------------------------
  // delete_higress and delete_cluster
  // ---------------------------------------------------------------------

  /** The namespace is stuck when its query's output is not blank and
      mentions "Terminating". */
  predicate Terminating(reply: Reply)
  {
    !Quiet(reply) && Mentions(reply, "Terminating")
  }

  /** The namespace test is Python's `result and "Terminating" in result`
      on the captured text. */
  lemma TerminatingMeaning(reply: Reply)
    ensures Terminating(reply) <==> Captured(reply) != "" && Text.Contains(Captured(reply), "Terminating")
  {
    QuietMeansEmpty(reply);
    MentionsMeansCapturedContains(reply, "Terminating");
  }

  /** The unchecked steps of `delete_higress` before the pause. */
  const HigressRemoval: seq<Command> := [DeleteAllIngresses, HelmUninstallHigress]

  /** `delete_higress`: unless `force`, the operator must confirm; then
      every step is unchecked: the ingresses and the release are removed,
      twenty seconds pass, the namespace is deleted and queried, and its
      finalizers are cleared when it is stuck terminating. */
  function DeleteHigressRun(force: bool, confirmed: bool, script: seq<Reply>): Run<Status>
  {
    if !force && !confirmed then Run(Cancelled, [], script)
    else
      var removal := Unchecked(script, HigressRemoval);
      var namespace := Unchecked(removal.rest, [DeleteNamespace, GetNamespaceJson]);
      var stuck := Terminating(Nth(removal.rest, 1));
      var finalize := Unchecked(namespace.rest, if stuck then [ForceFinalize] else []);
      Run(Completed, removal.events + [Slept(20)] + namespace.events + finalize.events, finalize.rest)
  }

  /** Nothing happens without force or confirmation; otherwise the
      operation always completes, in a fixed order, and clears the
      finalizers exactly when the namespace query reports it stuck. */
  lemma DeleteHigressMeaning(force: bool, confirmed: bool, script: seq<Reply>)
    ensures var r := DeleteHigressRun(force, confirmed, script);
      && (r.value == Cancelled <==> !force && !confirmed)
      && (r.value == Cancelled ==> r.events == [] && r.rest == script)
      && (r.value != Cancelled ==>
            && r.value == Completed
            && r.events[..5] == [Ran(DeleteAllIngresses), Ran(HelmUninstallHigress), Slept(20),
                                 Ran(DeleteNamespace), Ran(GetNamespaceJson)]
            && (Ran(ForceFinalize) in r.events <==> Terminating(Nth(script, 3))))
  {
    if force || confirmed {
      var r := DeleteHigressRun(force, confirmed, script);
      var head := [Ran(DeleteAllIngresses), Ran(HelmUninstallHigress), Slept(20), Ran(DeleteNamespace), Ran(GetNamespaceJson)];
      DeleteHigressSteps(force, confirmed, script);
      if Terminating(Nth(script, 3)) {
        AppendThen(head, [Ran(ForceFinalize)]);
        assert r.events == head + [Ran(ForceFinalize)];
      } else {
        assert r.events[..5] == head;
      }
    }
  }

  /** The confirmed run's trace: the two removals, the pause, the namespace
      deletion and query, and the finalizer reset when the query (the
      fourth reply) reports the namespace stuck. */
  lemma DeleteHigressSteps(force: bool, confirmed: bool, script: seq<Reply>)
    requires force || confirmed
    ensures DeleteHigressRun(force, confirmed, script).events ==
      [Ran(DeleteAllIngresses), Ran(HelmUninstallHigress), Slept(20), Ran(DeleteNamespace), Ran(GetNamespaceJson)] +
      (if Terminating(Nth(script, 3)) then [Ran(ForceFinalize)] else [])
  {
    DropNth(script, 2, 1);
    assert RanAll(HigressRemoval) + [Slept(20)] + RanAll([DeleteNamespace, GetNamespaceJson]) ==
      [Ran(DeleteAllIngresses), Ran(HelmUninstallHigress), Slept(20), Ran(DeleteNamespace), Ran(GetNamespaceJson)];
  }

  /** The unchecked steps of `delete_cluster` before the pause. */
  const ClusterRemoval: seq<Command> :=
    [DeleteAllIngresses, HelmUninstallHigress, DeleteNamespace, HelmUninstallController,
     DeleteValidatingWebhook, DeleteMutatingWebhook]

  /** `delete_cluster`: unless `force`, the operator must type the cluster
      name exactly; then six unchecked removals, a thirty-second pause,
      the checked cluster deletion, the checked account query and the
      unchecked deletion of the controller's policy. */
  function DeleteClusterRun(cfg: Configuration, force: bool, typed: string, script: seq<Reply>): Run<Status>
  {
    var name := cfg.eks.clusterName;
    if !force && typed != name then Run(Cancelled, [], script)
    else
      var removal := Unchecked(script, ClusterRemoval);
      var delete := DeleteCluster(name, cfg.region);
      var before := removal.events + [Slept(30), Ran(delete)];
      var afterDelete := Tail(removal.rest);
      if Head(removal.rest).exitCode != 0 then Run(Exited(CommandFailed(delete)), before, afterDelete)
      else
        var account := AccountId(afterDelete);
        if account.value.None? then Run(Exited(CommandFailed(GetCallerIdentity)), before + account.events, account.rest)
        else
          var drop := Unchecked(account.rest, [DeletePolicy(PolicyArn(account.value.value))]);
          Run(Completed, before + account.events + drop.events, drop.rest)
  }

  /** Nothing happens unless `force` or the typed name equals the cluster
      name; otherwise the removals and the pause come first, in a fixed
      order; only the cluster deletion and the account query can end the
      program, and the policy is deleted exactly when both succeed. */
  lemma DeleteClusterMeaning(cfg: Configuration, force: bool, typed: string, script: seq<Reply>)
    ensures var r := DeleteClusterRun(cfg, force, typed, script);
      var delete := DeleteCluster(cfg.eks.clusterName, cfg.region);
      && (r.value == Cancelled <==> !force && typed != cfg.eks.clusterName)
      && (r.value == Cancelled ==> r.events == [] && r.rest == script)
      && (r.value != Cancelled ==> r.events[..8] == RanAll(ClusterRemoval) + [Slept(30), Ran(delete)])
      && (r.value.Exited? ==> r.value.reason == CommandFailed(delete) || r.value.reason == CommandFailed(GetCallerIdentity))
      && (r.value != Cancelled ==>
            (r.value == Completed <==> Nth(script, 6).exitCode == 0 && Nth(script, 7).exitCode == 0))
      && (r.value == Completed ==>
            r.events[|r.events| - 1] == Ran(DeletePolicy(PolicyArn(Captured(Nth(script, 7))))))
  {
    if force || typed == cfg.eks.clusterName {
      var r := DeleteClusterRun(cfg, force, typed, script);
      var head := RanAll(ClusterRemoval) + [Slept(30), Ran(DeleteCluster(cfg.eks.clusterName, cfg.region))];
      var tail := DeleteClusterTail(script);
      DeleteClusterSteps(cfg, force, typed, script);
      DeleteClusterValue(cfg, force, typed, script);
      if tail == [] {
        assert r.events[..8] == head;
      } else {
        AppendThen(head, tail);
      }
      if r.value == Completed {
        Polls.LastOfAppend(head, tail);
      }
    }
  }

  /** What follows the cluster deletion in the trace: the account query
      when the deletion succeeded, then the policy deletion when the query
      succeeded too. */
  function DeleteClusterTail(script: seq<Reply>): seq<Event>
  {
    if Nth(script, 6).exitCode != 0 then []
    else if Nth(script, 7).exitCode != 0 then [Ran(GetCallerIdentity)]
    else [Ran(GetCallerIdentity), Ran(DeletePolicy(PolicyArn(Captured(Nth(script, 7)))))]
  }

  /** The replies after the six removals: the first answers the cluster
      deletion, the second the account query. */
  lemma ClusterRemovalRest(script: seq<Reply>)
    ensures var rest := Unchecked(script, ClusterRemoval).rest;
      Head(rest) == Nth(script, 6) && Head(Tail(rest)) == Nth(script, 7)
  {
    var rest := Unchecked(script, ClusterRemoval).rest;
    assert rest == Drop(script, 6);
    DropNth(script, 6, 0);
    DropNth(script, 6, 1);
    NthTail(rest, 0);
  }

  /** The confirmed run's trace: the removals, the pause, the cluster
      deletion and what follows it. */
  lemma DeleteClusterSteps(cfg: Configuration, force: bool, typed: string, script: seq<Reply>)
    requires force || typed == cfg.eks.clusterName
    ensures DeleteClusterRun(cfg, force, typed, script).events ==
      RanAll(ClusterRemoval) + [Slept(30), Ran(DeleteCluster(cfg.eks.clusterName, cfg.region))] + DeleteClusterTail(script)
  {
    var removal := Unchecked(script, ClusterRemoval);
    var delete := DeleteCluster(cfg.eks.clusterName, cfg.region);
    var head := removal.events + [Slept(30), Ran(delete)];
    ClusterRemovalRest(script);
    if Nth(script, 6).exitCode == 0 {
      var account := AccountId(Tail(removal.rest));
      if Nth(script, 7).exitCode == 0 {
        var drop := Unchecked(account.rest, [DeletePolicy(PolicyArn(account.value.value))]);
        assert drop.events == [Ran(DeletePolicy(PolicyArn(Captured(Nth(script, 7)))))];
        AppendPair(head, Ran(GetCallerIdentity), drop.events[0]);
      }
    }
  }

  /** The confirmed run's outcome, in terms of the replies to the cluster
      deletion (the seventh) and to the account query (the eighth). */
  lemma DeleteClusterValue(cfg: Configuration, force: bool, typed: string, script: seq<Reply>)
    requires force || typed == cfg.eks.clusterName
    ensures DeleteClusterRun(cfg, force, typed, script).value ==
      if Nth(script, 6).exitCode != 0 then Exited(CommandFailed(DeleteCluster(cfg.eks.clusterName, cfg.region)))
      else if Nth(script, 7).exitCode != 0 then Exited(CommandFailed(GetCallerIdentity))
      else Completed
  {
    ClusterRemovalRest(script);
  }

  /** The exit codes and outputs of the six removals do not matter: two
      scripts that agree from the cluster deletion on give the same run. */
  lemma DeleteClusterIgnoresRemovals(cfg: Configuration, force: bool, typed: string, a: seq<Reply>, b: seq<Reply>)
    requires force || typed == cfg.eks.clusterName
    requires Drop(a, |ClusterRemoval|) == Drop(b, |ClusterRemoval|)
    ensures DeleteClusterRun(cfg, force, typed, a).value == DeleteClusterRun(cfg, force, typed, b).value
    ensures DeleteClusterRun(cfg, force, typed, a).events == DeleteClusterRun(cfg, force, typed, b).events
  {
  }
}
