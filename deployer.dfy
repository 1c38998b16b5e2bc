/** `HigressDeployer` as an object: the replies still to come from the
    external commands, and the trace of the commands issued and the pauses
    taken so far. Every operation consumes replies and extends the trace
    exactly as the corresponding function of the workflow says, so the
    properties proved about those functions hold of the operations. */
module Deployer {
  import opened Wrappers
  import Text
  import opened Config
  import Descriptors
  import Policy
  import opened Commands
  import Polls
  import Workflow

  class HigressDeployer {
    /** The parsed `config.yaml`. */
    const config: Configuration
    /** The replies the next commands receive, in order. */
    var replies: seq<Reply>
    /** Everything issued so far. */
    var trace: seq<Event>

    constructor (config: Configuration, replies: seq<Reply>)
      ensures this.config == config && this.replies == replies && trace == []
    {
      this.config := config;
      this.replies := replies;
      trace := [];
    }

    /** `_run_command`: the command is issued and takes the next reply. */
    method RunCommand(cmd: Command, check: bool, capture: bool) returns (o: Outcome)
      modifies this
      ensures o == Result(Head(old(replies)), check, capture)
      ensures trace == old(trace) + [Ran(cmd)] && replies == Tail(old(replies))
    {
      var reply := if replies == [] then Reply(0, "") else replies[0];
      replies := if replies == [] then [] else replies[1..];
      trace := trace + [Ran(cmd)];
      if check && reply.exitCode != 0 {
        o := Fatal;
      } else if capture {
        o := Output(Some(Text.Strip(reply.stdout)));
      } else {
        o := Output(None);
      }
    }

    /** `time.sleep(seconds)`. */
    method Sleep(seconds: nat)
      modifies this
      ensures trace == old(trace) + [Slept(seconds)] && replies == old(replies)
    {
      trace := trace + [Slept(seconds)];
    }

    /** Checked commands issued one after the other; the first that fails
        ends the program and is returned. */
    method RunInOrder(cmds: seq<Command>) returns (failed: Option<Command>)
      modifies this
      ensures var r := Steps(old(replies), cmds);
        failed == r.value && trace == old(trace) + r.events && replies == r.rest
      decreases |cmds|
    {
      if cmds == [] {
        return None;
      }
      var o := RunCommand(cmds[0], true, false);
      if o.Fatal? {
        return Some(cmds[0]);
      }
      failed := RunInOrder(cmds[1..]);
      AppendAssoc(old(trace), [Ran(cmds[0])], Steps(Tail(old(replies)), cmds[1..]).events);
    }

    /** Unchecked commands issued one after the other, their outcome
        ignored. */
    method RunUnchecked(cmds: seq<Command>)
      modifies this
      ensures var r := Unchecked(old(replies), cmds);
        trace == old(trace) + r.events && replies == r.rest
      decreases |cmds|
    {
      if cmds != [] {
        var _ := RunCommand(cmds[0], false, false);
        RunUnchecked(cmds[1..]);
        AppendAssoc(old(trace), [Ran(cmds[0])], RanAll(cmds[1..]));
      }
    }

    /** `_get_aws_account_id`: a checked, captured query; `None` when it
        ended the program. */
    method AccountId() returns (account: Option<string>)
      modifies this
      ensures var r := Workflow.AccountId(old(replies));
        account == r.value && trace == old(trace) + r.events && replies == r.rest
    {
      var o := RunCommand(GetCallerIdentity, true, true);
      if o.Fatal? {
        return None;
      }
      account := Some(o.text.value);
    }

    /** The endpoint wait shared by `_wait_for_webhook_ready` (60 probes)
        and `install_alb_controller` (30 probes): probe, stop on an
        address, otherwise sleep a second and probe again. */
    method PollEndpoints(limit: nat) returns (ready: bool)
      modifies this
      ensures var r := Polls.EndpointPoll(old(replies), limit);
        ready == r.value && trace == old(trace) + r.events && replies == r.rest
    {
      ghost var script := replies;
      ghost var trace0 := trace;
      for i := 0 to limit
        invariant trace == trace0 + Polls.Probes(i) && replies == Drop(script, i)
        invariant forall j | 0 <= j < i :: Quiet(Nth(script, j))
      {
        DropNth(script, i, 0);
        DropStep(script, i);
        QuietMeansEmpty(Nth(script, i));
        var result := RunCommand(GetWebhookEndpoints, false, true);
        if result.text.value != "" {
          Polls.EndpointPollReady(script, limit, i);
          AppendAssoc(trace0, Polls.Probes(i), [Ran(GetWebhookEndpoints)]);
          return true;
        }
        Sleep(1);
        Polls.ProbesSnoc(i);
        AppendPair(trace0 + Polls.Probes(i), Ran(GetWebhookEndpoints), Slept(1));
        AppendAssoc(trace0, Polls.Probes(i), [Ran(GetWebhookEndpoints), Slept(1)]);
      }
      Polls.EndpointPollTimeout(script, limit);
      return false;
    }

    /** `_wait_for_webhook_ready`. */
    method WaitForWebhookReady() returns (ready: bool)
      modifies this
      ensures var r := Polls.WebhookCheck(old(replies));
        ready == r.value && trace == old(trace) + r.events && replies == r.rest
    {
      ghost var script := replies;
      Polls.ServiceMissingMeaning(Head(script));
      var service := RunCommand(GetWebhookService, false, true);
      var found := service.text.value;
      if found == "" || Text.Contains(found, "NotFound") {
        return false;
      }
      ready := PollEndpoints(Polls.WebhookProbes);
      AppendAssoc(old(trace), [Ran(GetWebhookService)], Polls.EndpointPoll(Tail(script), Polls.WebhookProbes).events);
    }

    /** One install attempt: after a ten-second pause when it is a retry,
        install (unchecked, not captured), then list the releases; `true`
        when the listing mentions "deployed". */
    method InstallAttempt(values: Descriptors.HelmValues, attempt: nat) returns (deployed: bool)
      modifies this
      ensures deployed == Mentions(Nth(old(replies), 1), "deployed")
      ensures trace == old(trace) + Polls.Tried(values, attempt) && replies == Tail(Tail(old(replies)))
    {
      ghost var before := replies;
      ghost var pause: seq<Event> := if attempt > 0 then [Slept(10)] else [];
      NthTail(before, 1);
      NthTail(Tail(before), 0);
      Polls.DeployedMeaning(Nth(before, 1));
      if attempt > 0 {
        Sleep(10);
      } else {
        assert trace == old(trace) + pause;
      }
      var _ := RunCommand(HelmInstallHigress(values), false, false);
      var listing := RunCommand(HelmListHigress, false, true);
      AppendPair(old(trace) + pause, Ran(HelmInstallHigress(values)), Ran(HelmListHigress));
      AppendAssoc(old(trace), pause, [Ran(HelmInstallHigress(values)), Ran(HelmListHigress)]);
      var text := listing.text.value;
      deployed := text != "" && Text.Contains(text, "deployed");
    }

    /** The three-attempt Helm install of `deploy_higress`; `true` when a
        listing reported the release deployed. */
    method InstallWithRetries(values: Descriptors.HelmValues) returns (installed: bool)
      modifies this
      ensures var r := Polls.InstallLoop(values, old(replies), 0);
        installed == r.value && trace == old(trace) + r.events && replies == r.rest
    {
      ghost var script := replies;
      ghost var whole := Polls.InstallLoop(values, replies, 0);
      ghost var trace0 := trace;
      var attempt := 0;
      while attempt < Polls.InstallAttempts
        invariant 0 <= attempt <= Polls.InstallAttempts
        invariant attempt < Polls.InstallAttempts ==>
          && replies == Drop(script, 3 * attempt)
          && trace == trace0 + Polls.Retried(values, attempt)
          && Polls.ListingsFailed(script, attempt)
        invariant attempt == Polls.InstallAttempts ==>
          !whole.value && trace == trace0 + whole.events && replies == whole.rest
        decreases Polls.InstallAttempts - attempt
      {
        ghost var before := replies;
        Polls.InstallLoopAfter(values, script, attempt);
        DropNth(script, 3 * attempt, 1);
        var deployed := InstallAttempt(values, attempt);
        AppendAssoc(trace0, Polls.Retried(values, attempt), Polls.Tried(values, attempt));
        if deployed {
          return true;
        }
        if attempt < Polls.InstallAttempts - 1 {
          var _ := RunCommand(HelmUninstallHigress, false, false);
          Sleep(5);
          DropStep(script, 3 * attempt);
          DropStep(script, 3 * attempt + 1);
          DropStep(script, 3 * attempt + 2);
          AppendPair(trace0 + Polls.Retried(values, attempt) + Polls.Tried(values, attempt), Ran(HelmUninstallHigress), Slept(5));
          AppendAssoc(trace0, Polls.Retried(values, attempt) + Polls.Tried(values, attempt), [Ran(HelmUninstallHigress), Slept(5)]);
        }
        attempt := attempt + 1;
      }
      return false;
    }

    /** The webhook fallback of `deploy_higress`: when the webhook is not
        ready, restart the controller once, wait twenty seconds and check
        again. */
    method EnsureWebhook() returns (ready: bool)
      modifies this
      ensures var r := Polls.EnsureWebhook(old(replies));
        ready == r.value && trace == old(trace) + r.events && replies == r.rest
    {
      ghost var script := replies;
      ready := WaitForWebhookReady();
      if !ready {
        ghost var first := Polls.WebhookCheck(script);
        var _ := RunCommand(RestartController, false, false);
        Sleep(20);
        ready := WaitForWebhookReady();
        ghost var second := Polls.WebhookCheck(Tail(first.rest));
        AppendPair(old(trace) + first.events, Ran(RestartController), Slept(20));
        AppendAssoc(old(trace), first.events, [Ran(RestartController), Slept(20)]);
        AppendAssoc(old(trace), first.events + [Ran(RestartController), Slept(20)], second.events);
      }
    }

    /** The start both policy operations share: the account query, then
        the checked download of the policy document. */
    method FetchPolicy() returns (start: Workflow.Start)
      modifies this
      ensures var r := Workflow.Prepare(old(replies));
        start == r.value && trace == old(trace) + r.events && replies == r.rest
    {
      var account := AccountId();
      if account.None? {
        return Workflow.Failed(GetCallerIdentity);
      }
      var download := RunCommand(DownloadPolicy, true, false);
      start := if download.Fatal? then Workflow.Failed(DownloadPolicy) else Workflow.Ready(account.value);
    }

    /** The version update: list the non-default versions, delete the first
        when there are four or more (unchecked), create the new default
        version (checked); `true` when the creation succeeded. */
    method PushVersion(arn: string, document: seq<Policy.Statement>) returns (created: bool)
      modifies this
      ensures var r := Workflow.PushVersion(old(replies), arn, document);
        created == r.value && trace == old(trace) + r.events && replies == r.rest
    {
      Policy.EvictionIgnoresPadding(Head(replies).stdout);
      var listed := RunCommand(ListPolicyVersions(arn), false, true);
      var target := Policy.EvictionTarget(listed.text.value);
      ghost var evict: seq<Event> := [];
      if target.Some? {
        var _ := RunCommand(DeletePolicyVersion(arn, target.value), false, false);
        evict := [Ran(DeletePolicyVersion(arn, target.value))];
      }
      var create := RunCommand(CreatePolicyVersion(arn, document), true, false);
      AppendAssoc(old(trace), [Ran(ListPolicyVersions(arn))], evict);
      AppendAssoc(old(trace), [Ran(ListPolicyVersions(arn))] + evict, [Ran(CreatePolicyVersion(arn, document))]);
      created := !create.Fatal?;
    }

    /** The policy step of `install_alb_controller`: update the policy
        when the lookup finds it, create it otherwise; the command that
        ended the program, if any. */
    method SetUpPolicy(arn: string, document: seq<Policy.Statement>) returns (failed: Option<Command>)
      modifies this
      ensures var r := Workflow.PolicySetup(old(replies), arn, document);
        failed == r.value && trace == old(trace) + r.events && replies == r.rest
    {
      Workflow.PolicyExistsMeaning(Head(replies));
      var lookup := RunCommand(GetPolicy(arn), false, true);
      var text := lookup.text.value;
      if text != "" && Text.Contains(text, "Policy") {
        ghost var rest := replies;
        var created := PushVersion(arn, document);
        AppendAssoc(old(trace), [Ran(GetPolicy(arn))], Workflow.PushVersion(rest, arn, document).events);
        failed := if created then None else Some(CreatePolicyVersion(arn, document));
      } else {
        var create := RunCommand(CreatePolicy(document), true, false);
        AppendPair(old(trace), Ran(GetPolicy(arn)), Ran(CreatePolicy(document)));
        failed := if create.Fatal? then Some(CreatePolicy(document)) else None;
      }
    }

    /** The controller steps of `install_alb_controller`: the checked
        installation commands, the 30-probe endpoint wait whose outcome is
        only reported, ten seconds, the checked deployment query. */
    method InstallController(arn: string) returns (status: Status)
      modifies this
      ensures var r := Workflow.ControllerInstall(config, arn, old(replies));
        status == r.value && trace == old(trace) + r.events && replies == r.rest
    {
      var failed := RunInOrder(Workflow.ControllerCommands(config, arn));
      if failed.Some? {
        return Exited(CommandFailed(failed.value));
      }
      ghost var steps := trace;
      var _ := PollEndpoints(Polls.ControllerProbes);
      Sleep(10);
      var deployment := RunCommand(GetControllerDeployment, true, false);
      ghost var wait := Polls.EndpointPoll(Steps(old(replies), Workflow.ControllerCommands(config, arn)).rest, Polls.ControllerProbes);
      ghost var stepEvents := Steps(old(replies), Workflow.ControllerCommands(config, arn)).events;
      AppendPair(old(trace) + stepEvents + wait.events, Slept(10), Ran(GetControllerDeployment));
      AppendAssoc(old(trace), stepEvents, wait.events);
      AppendAssoc(old(trace), stepEvents + wait.events, [Slept(10), Ran(GetControllerDeployment)]);
      status := if deployment.Fatal? then Exited(CommandFailed(GetControllerDeployment)) else Completed;
    }

    /** `install_alb_controller`. `downloaded` holds the statements of the
        downloaded policy document; they are augmented in place once the
        download has succeeded, and the augmented document is uploaded. */
    method InstallAlbController(downloaded: array<Policy.Statement>) returns (status: Status)
      modifies this, downloaded
      ensures var r := Workflow.InstallAlbRun(config, old(downloaded[..]), old(replies));
        status == r.value && trace == old(trace) + r.events && replies == r.rest
      ensures downloaded[..] ==
        if Workflow.Prepare(old(replies)).value.Ready? then Policy.AugmentAll(old(downloaded[..])) else old(downloaded[..])
    {
      var start := FetchPolicy();
      if start.Failed? {
        return Exited(CommandFailed(start.command));
      }
      Policy.AddMissingPermissions(downloaded);
      assert downloaded[..] == Policy.AugmentAll(old(downloaded[..]));
      ghost var prepared := Workflow.Prepare(old(replies));
      var arn := PolicyArn(start.account);
      var failed := SetUpPolicy(arn, downloaded[..]);
      ghost var policy := Workflow.PolicySetup(prepared.rest, arn, downloaded[..]);
      AppendAssoc(old(trace), prepared.events, policy.events);
      if failed.Some? {
        return Exited(CommandFailed(failed.value));
      }
      status := InstallController(arn);
      AppendAssoc(old(trace), prepared.events + policy.events, Workflow.ControllerInstall(config, arn, policy.rest).events);
    }

    /** `fix_alb_permissions`: the account and the download, the augmented
        document pushed as a new version without any lookup, then the
        checked restart of the controller and the checked wait for its
        rollout. */
    method FixAlbPermissions(downloaded: array<Policy.Statement>) returns (status: Status)
      modifies this, downloaded
      ensures var r := Workflow.FixPermissionsRun(old(downloaded[..]), old(replies));
        status == r.value && trace == old(trace) + r.events && replies == r.rest
      ensures downloaded[..] ==
        if Workflow.Prepare(old(replies)).value.Ready? then Policy.AugmentAll(old(downloaded[..])) else old(downloaded[..])
    {
      var start := FetchPolicy();
      if start.Failed? {
        return Exited(CommandFailed(start.command));
      }
      Policy.AddMissingPermissions(downloaded);
      assert downloaded[..] == Policy.AugmentAll(old(downloaded[..]));
      ghost var prepared := Workflow.Prepare(old(replies));
      var arn := PolicyArn(start.account);
      var created := PushVersion(arn, downloaded[..]);
      ghost var push := Workflow.PushVersion(prepared.rest, arn, downloaded[..]);
      AppendAssoc(old(trace), prepared.events, push.events);
      if !created {
        return Exited(CommandFailed(CreatePolicyVersion(arn, downloaded[..])));
      }
      var failed := RunInOrder([RestartController, RolloutStatusController]);
      AppendAssoc(old(trace), prepared.events + push.events, Steps(push.rest, [RestartController, RolloutStatusController]).events);
      status := if failed.Some? then Exited(CommandFailed(failed.value)) else Completed;
    }

    /** `deploy_higress`. */
    method DeployHigress() returns (status: Status)
      modifies this
      ensures var r := Workflow.DeployRun(config, old(replies));
        status == r.value && trace == old(trace) + r.events && replies == r.rest
    {
      ghost var script := replies;
      var _ := EnsureWebhook();
      ghost var webhook := Polls.EnsureWebhook(script);
      var failed := RunInOrder([HelmRepoAddHigress, HelmRepoUpdate]);
      ghost var repos := Steps(webhook.rest, [HelmRepoAddHigress, HelmRepoUpdate]);
      AppendAssoc(old(trace), webhook.events, repos.events);
      if failed.Some? {
        return Exited(CommandFailed(failed.value));
      }
      var _ := RunCommand(CreateNamespace, false, false);
      ghost var before := webhook.events + repos.events + [Ran(CreateNamespace)];
      AppendAssoc(old(trace), webhook.events + repos.events, [Ran(CreateNamespace)]);
      var values := Descriptors.HigressValues(config);
      var installed := InstallWithRetries(values);
      ghost var install := Polls.InstallLoop(values, Tail(repos.rest), 0);
      AppendAssoc(old(trace), before, install.events);
      if !installed {
        return Exited(InstallFailed);
      }
      failed := RunInOrder([GetPods, GetServices]);
      AppendAssoc(old(trace), before + install.events, Steps(install.rest, [GetPods, GetServices]).events);
      status := if failed.Some? then Exited(CommandFailed(failed.value)) else Completed;
    }

    /** The host name query that ends a round of the load balancer wait. */
    method ReadHostname() returns (result: Polls.RoundResult)
      modifies this
      ensures var r := Polls.HostnameCheck(old(replies), []);
        result == r.value && trace == old(trace) + r.events && replies == r.rest
    {
      QuietMeansEmpty(Head(replies));
      var hostname := RunCommand(GetIngressHostname, false, true);
      result := if hostname.text.value != "" then Polls.Found(hostname.text.value) else Polls.Pending;
    }

    /** One round of the load balancer wait: read the events; when they
        alarm, describe the ingress (checked) and look for a certificate or
        permission problem; unless the round aborted, read the host name. */
    method WatchRound() returns (result: Polls.RoundResult)
      modifies this
      ensures var r := Polls.AlbRound(old(replies));
        result == r.value && trace == old(trace) + r.events && replies == r.rest
    {
      ghost var script := replies;
      Polls.AlarmingIgnoresPadding(Head(script).stdout);
      Polls.EventAbortIgnoresPadding(Head(script).stdout);
      var events := RunCommand(GetIngressEvents, false, true);
      var text := events.text.value;
      if Polls.Alarming(text) {
        var described := RunCommand(DescribeIngress, true, false);
        AppendPair(old(trace), Ran(GetIngressEvents), Ran(DescribeIngress));
        if described.Fatal? {
          return Polls.Abort(CommandFailed(DescribeIngress));
        }
        var abort := Polls.EventAbort(text);
        if abort.Some? {
          return Polls.Abort(abort.value);
        }
        result := ReadHostname();
        AppendAssoc(old(trace), [Ran(GetIngressEvents), Ran(DescribeIngress)], [Ran(GetIngressHostname)]);
      } else {
        result := ReadHostname();
        AppendPair(old(trace), Ran(GetIngressEvents), Ran(GetIngressHostname));
      }
    }

    /** The forty-round wait of `create_alb` (`rounds` rounds): a round
        that aborts ends the program; a host name is probed after thirty
        seconds and returned; otherwise ten seconds pass before the next
        round. When the rounds run out, the ingress is described and the
        wait ends without exiting. */
    method WaitForAlb(rounds: nat) returns (status: Status)
      modifies this
      ensures var r := Polls.AlbPoll(old(replies), rounds);
        status == r.value && trace == old(trace) + r.events && replies == r.rest
    {
      ghost var script := replies;
      for i := 0 to rounds
        invariant Polls.Waited(Polls.AlbRound, script, i).value
        invariant trace == old(trace) + Polls.Waited(Polls.AlbRound, script, i).events && replies == Polls.Waited(Polls.AlbRound, script, i).rest
      {
        ghost var done := Polls.Waited(Polls.AlbRound, script, i).events;
        ghost var round := Polls.AlbRound(replies);
        var result := WatchRound();
        AppendAssoc(old(trace), done, round.events);
        if !result.Pending? {
          Polls.PollAfter(Polls.AlbRound, script, rounds, i);
        }
        if result.Abort? {
          return Exited(result.reason);
        }
        if result.Found? {
          Sleep(30);
          var _ := RunCommand(ProbeEndpoint(result.hostname), false, true);
          AppendPair(old(trace) + done + round.events, Slept(30), Ran(ProbeEndpoint(result.hostname)));
          AppendAssoc(old(trace) + done, round.events, [Slept(30), Ran(ProbeEndpoint(result.hostname))]);
          AppendAssoc(old(trace), done, round.events + [Slept(30), Ran(ProbeEndpoint(result.hostname))]);
          return Endpoint(result.hostname);
        }
        Sleep(10);
        AppendAssoc(old(trace), done + round.events, [Slept(10)]);
      }
      Polls.PollAfter(Polls.AlbRound, script, rounds, rounds);
      var described := RunCommand(DescribeIngress, true, false);
      status := if described.Fatal? then Exited(CommandFailed(DescribeIngress)) else TimedOut;
    }

    /** The first step of `create_alb`: look the ingress up and, when the
        lookup finds it, delete it (unchecked) and wait five seconds. */
    method ClearIngress() returns (found: bool)
      modifies this
      ensures found == Workflow.IngressExists(Head(old(replies)))
      ensures trace == old(trace) + [Ran(GetIngress)] + (if found then [Ran(DeleteIngress), Slept(5)] else [])
      ensures replies == if found then Tail(Tail(old(replies))) else Tail(old(replies))
    {
      Workflow.IngressExistsMeaning(Head(replies));
      var existing := RunCommand(GetIngress, false, true);
      var text := existing.text.value;
      found := text != "" && Text.Contains(text, "higress-alb");
      if found {
        var _ := RunCommand(DeleteIngress, false, false);
        Sleep(5);
        AppendPair(old(trace) + [Ran(GetIngress)], Ran(DeleteIngress), Slept(5));
      }
    }

    /** `create_alb`: replace an earlier ingress, apply the one the
        configuration describes, wait fifteen seconds and then for the
        load balancer. */
    method CreateAlb() returns (status: Status)
      modifies this
      ensures var r := Workflow.CreateAlbRun(Descriptors.AlbIngress(config), old(replies));
        status == r.value && trace == old(trace) + r.events && replies == r.rest
    {
      var found := ClearIngress();
      ghost var removed: seq<Event> := if found then [Ran(DeleteIngress), Slept(5)] else [];
      ghost var cleared := replies;
      var apply := ApplyIngress(Descriptors.AlbIngress(config));
      var applied := RunCommand(apply, true, false);
      ghost var before := [Ran(GetIngress)] + removed + [Ran(apply)];
      AppendAssoc(old(trace), [Ran(GetIngress)], removed);
      AppendAssoc(old(trace), [Ran(GetIngress)] + removed, [Ran(apply)]);
      if applied.Fatal? {
        return Exited(CommandFailed(apply));
      }
      Sleep(15);
      status := WaitForAlb(Polls.AlbRounds);
      AppendAssoc(old(trace), before, [Slept(15)]);
      AppendAssoc(old(trace), before + [Slept(15)], Polls.AlbPoll(Tail(cleared), Polls.AlbRounds).events);
    }

    /** `delete_higress`: without `force` the operator's answer `confirmed`
        decides; then every step is unchecked, and the namespace's
        finalizers are cleared when its query shows it terminating. */
    method DeleteHigress(force: bool, confirmed: bool) returns (status: Status)
      modifies this
      ensures var r := Workflow.DeleteHigressRun(force, confirmed, old(replies));
        status == r.value && trace == old(trace) + r.events && replies == r.rest
    {
      if !force && !confirmed {
        return Cancelled;
      }
      ghost var script := replies;
      RunUnchecked(Workflow.HigressRemoval);
      ghost var removal := Unchecked(script, Workflow.HigressRemoval);
      Sleep(20);
      DropStep(removal.rest, 0);
      DropStep(removal.rest, 1);
      NthTail(removal.rest, 0);
      Workflow.TerminatingMeaning(Nth(removal.rest, 1));
      var _ := RunCommand(DeleteNamespace, false, false);
      var namespace := RunCommand(GetNamespaceJson, false, true);
      ghost var cleared := RanAll([DeleteNamespace, GetNamespaceJson]);
      assert cleared == [Ran(DeleteNamespace), Ran(GetNamespaceJson)];
      AppendPair(old(trace) + removal.events + [Slept(20)], Ran(DeleteNamespace), Ran(GetNamespaceJson));
      AppendAssoc(old(trace), removal.events + [Slept(20)], cleared);
      AppendAssoc(old(trace), removal.events, [Slept(20)]);
      var text := namespace.text.value;
      if text != "" && Text.Contains(text, "Terminating") {
        RunUnchecked([ForceFinalize]);
        AppendAssoc(old(trace), removal.events + [Slept(20)] + cleared, RanAll([ForceFinalize]));
      } else {
        assert trace == old(trace) + (removal.events + [Slept(20)] + cleared + RanAll([]));
      }
      status := Completed;
    }

    /** `delete_cluster`: without `force` the name the operator `typed`
        must equal the cluster name; then the unchecked removals, thirty
        seconds, the checked cluster deletion, the account query and the
        unchecked deletion of the controller's policy. */
    method DeleteEksCluster(force: bool, typed: string) returns (status: Status)
      modifies this
      ensures var r := Workflow.DeleteClusterRun(config, force, typed, old(replies));
        status == r.value && trace == old(trace) + r.events && replies == r.rest
    {
      var name := config.eks.clusterName;
      if !force && typed != name {
        return Cancelled;
      }
      ghost var script := replies;
      RunUnchecked(Workflow.ClusterRemoval);
      ghost var removal := Unchecked(script, Workflow.ClusterRemoval);
      Sleep(30);
      var delete := DeleteCluster(name, config.region);
      var deleted := RunCommand(delete, true, false);
      AppendPair(old(trace) + removal.events, Slept(30), Ran(delete));
      AppendAssoc(old(trace), removal.events, [Slept(30), Ran(delete)]);
      ghost var before := removal.events + [Slept(30), Ran(delete)];
      if deleted.Fatal? {
        return Exited(CommandFailed(delete));
      }
      var account := AccountId();
      ghost var query := Workflow.AccountId(Tail(removal.rest));
      AppendAssoc(old(trace), before, query.events);
      if account.None? {
        return Exited(CommandFailed(GetCallerIdentity));
      }
      RunUnchecked([DeletePolicy(PolicyArn(account.value))]);
      AppendAssoc(old(trace), before + query.events, RanAll([DeletePolicy(PolicyArn(account.value))]));
      status := Completed;
    }
  }
}
