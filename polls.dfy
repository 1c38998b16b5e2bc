/** The bounded waits and retries of the deployer, as functions of the
    script of replies: the webhook endpoint wait, the "restart once, then
    proceed anyway" fallback, the three-attempt Helm install and the
    forty-round wait for the load balancer. */
module Polls {
  import opened Wrappers
  import Text
  import Descriptors
  import opened Commands

  const WebhookProbes := 60
  const ControllerProbes := 30
  const InstallAttempts := 3
  const AlbRounds := 40

  // ---------------------------------------------------------------------
  // Webhook endpoint wait
  // ---------------------------------------------------------------------

  /** `k` unsuccessful endpoint probes, each followed by a one-second sleep. */
  function Probes(k: nat): (events: seq<Event>)
  {
    if k == 0 then [] else [Ran(GetWebhookEndpoints), Slept(1)] + Probes(k - 1)
  }

  /** One more blank probe adds a probe and a sleep at the end. */
  lemma {:induction false} ProbesSnoc(k: nat)
    ensures Probes(k + 1) == Probes(k) + [Ran(GetWebhookEndpoints), Slept(1)]
  {
    if k > 0 {
      ProbesSnoc(k - 1);
      AppendAssoc([Ran(GetWebhookEndpoints), Slept(1)], Probes(k - 1), [Ran(GetWebhookEndpoints), Slept(1)]);
    }
  }

  /** Probing the webhook endpoints at most `n` times: success on the first
      probe whose output is not blank (`result and result.strip()`). */
  function EndpointPoll(script: seq<Reply>, n: nat): Run<bool>
    decreases n
  {
    if n == 0 then Run(false, [], script)
    else if !Quiet(Head(script)) then Run(true, [Ran(GetWebhookEndpoints)], Tail(script))
    else
      var next := EndpointPoll(Tail(script), n - 1);
      Run(next.value, [Ran(GetWebhookEndpoints), Slept(1)] + next.events, next.rest)
  }

  /** The wait succeeds on the first probe whose output is not blank: the
      `k` blank probes before it each come with a sleep. */
  lemma {:induction false} EndpointPollReady(script: seq<Reply>, n: nat, k: nat)
    requires k < n && !Quiet(Nth(script, k))
    requires forall j | 0 <= j < k :: Quiet(Nth(script, j))
    ensures EndpointPoll(script, n).value
    ensures EndpointPoll(script, n).events == Probes(k) + [Ran(GetWebhookEndpoints)]
    ensures EndpointPoll(script, n).rest == Drop(script, k + 1)
    decreases k
  {
    NthTail(script, 0);
    if k > 0 {
      forall j | 0 <= j < k - 1 ensures Quiet(Nth(Tail(script), j)) {
        NthTail(script, j);
      }
      NthTail(script, k - 1);
      EndpointPollReady(Tail(script), n - 1, k - 1);
    }
  }

  /** When no probe sees an address the wait gives up after exactly `n`
      probes and `n` sleeps. */
  lemma {:induction false} EndpointPollTimeout(script: seq<Reply>, n: nat)
    requires forall j | 0 <= j < n :: Quiet(Nth(script, j))
    ensures !EndpointPoll(script, n).value
    ensures EndpointPoll(script, n).events == Probes(n)
    ensures EndpointPoll(script, n).rest == Drop(script, n)
  {
    if n > 0 {
      NthTail(script, 0);
      forall j | 0 <= j < n - 1 ensures Quiet(Nth(Tail(script), j)) {
        NthTail(script, j);
      }
      EndpointPollTimeout(Tail(script), n - 1);
    }
  }

  /** The wait succeeds exactly when one of the first `n` outputs is not blank. */
  lemma {:induction false} EndpointPollValue(script: seq<Reply>, n: nat)
    ensures EndpointPoll(script, n).value <==> exists k | 0 <= k < n :: !Quiet(Nth(script, k))
  {
    if n > 0 {
      NthTail(script, 0);
      EndpointPollValue(Tail(script), n - 1);
      if exists k | 0 <= k < n :: !Quiet(Nth(script, k)) {
        var k :| 0 <= k < n && !Quiet(Nth(script, k));
        if k > 0 && Quiet(Head(script)) {
          NthTail(script, k - 1);
        }
      }
      if EndpointPoll(Tail(script), n - 1).value && Quiet(Head(script)) {
        var k :| 0 <= k < n - 1 && !Quiet(Nth(Tail(script), k));
        NthTail(script, k);
      }
    }
  }

  /** The wait leaves a succeeding script succeeding. */
  lemma {:induction false} EndpointPollOnSucceeding(script: seq<Reply>, n: nat)
    requires Succeeding(script)
    ensures Succeeding(EndpointPoll(script, n).rest)
  {
    if n > 0 {
      SucceedingTail(script);
      EndpointPollOnSucceeding(Tail(script), n - 1);
    }
  }

  /** The service counts as missing when its lookup hands back nothing or
      mentions "NotFound" (`not result or "NotFound" in result`). */
  predicate ServiceMissing(reply: Reply)
  {
    Quiet(reply) || Mentions(reply, "NotFound")
  }

  /** `ServiceMissing` is the test on the captured text. */
  lemma ServiceMissingMeaning(reply: Reply)
    ensures ServiceMissing(reply) <==> Captured(reply) == "" || Text.Contains(Captured(reply), "NotFound")
  {
    QuietMeansEmpty(reply);
    MentionsMeansCapturedContains(reply, "NotFound");
  }

  /** `_wait_for_webhook_ready`: a missing service fails at once; otherwise
      the endpoints are polled. */
  function WebhookCheck(script: seq<Reply>): Run<bool>
  {
    if ServiceMissing(Head(script)) then
      Run(false, [Ran(GetWebhookService)], Tail(script))
    else
      var poll := EndpointPoll(Tail(script), WebhookProbes);
      Run(poll.value, [Ran(GetWebhookService)] + poll.events, poll.rest)
  }

  /** A missing service means no endpoint probe at all. */
  lemma WebhookMissing(script: seq<Reply>)
    requires ServiceMissing(Head(script))
    ensures !WebhookCheck(script).value && WebhookCheck(script).events == [Ran(GetWebhookService)]
  {
  }

  /** With the service present, the check succeeds exactly when one of the
      next 60 outputs is not blank. */
  lemma WebhookReady(script: seq<Reply>)
    requires !ServiceMissing(Head(script))
    ensures WebhookCheck(script).value <==> exists k | 1 <= k <= WebhookProbes :: !Quiet(Nth(script, k))
  {
    assert WebhookCheck(script).value == EndpointPoll(Tail(script), WebhookProbes).value;
    EndpointPollValue(Tail(script), WebhookProbes);
    LoudShift(script, WebhookProbes);
  }

  /** A non-blank output among replies 1 to `n` is one among the first `n`
      of the tail. */
  lemma LoudShift(script: seq<Reply>, n: nat)
    ensures (exists k | 1 <= k <= n :: !Quiet(Nth(script, k))) <==> (exists k | 0 <= k < n :: !Quiet(Nth(Tail(script), k)))
  {
    if exists k | 1 <= k <= n :: !Quiet(Nth(script, k)) {
      var k :| 1 <= k <= n && !Quiet(Nth(script, k));
      NthTail(script, k - 1);
    }
    if exists k | 0 <= k < n :: !Quiet(Nth(Tail(script), k)) {
      var k :| 0 <= k < n && !Quiet(Nth(Tail(script), k));
      NthTail(script, k);
    }
  }

  /** With the service present, a failed check has made exactly 60 probes,
      each followed by a sleep. */
  lemma WebhookTimeout(script: seq<Reply>)
    requires !ServiceMissing(Head(script)) && !WebhookCheck(script).value
    ensures WebhookCheck(script).events == [Ran(GetWebhookService)] + Probes(WebhookProbes)
  {
    EndpointPollValue(Tail(script), WebhookProbes);
    EndpointPollTimeout(Tail(script), WebhookProbes);
  }

  /** Everything a probe loop issues is an endpoint query or a sleep. */
  lemma {:induction false} EndpointPollOnlyProbes(script: seq<Reply>, n: nat)
    ensures forall e | e in EndpointPoll(script, n).events :: e == Ran(GetWebhookEndpoints) || e == Slept(1)
  {
    if n > 0 && Quiet(Head(script)) {
      EndpointPollOnlyProbes(Tail(script), n - 1);
    }
  }

  /** Everything one webhook check issues is the service lookup, an
      endpoint probe or a one-second sleep. */
  lemma WebhookCheckIssues(script: seq<Reply>)
    ensures forall e | e in WebhookCheck(script).events ::
      e == Ran(GetWebhookService) || e == Ran(GetWebhookEndpoints) || e == Slept(1)
  {
    EndpointPollOnlyProbes(Tail(script), WebhookProbes);
  }

  /** `deploy_higress`'s fallback: if the webhook is not ready, restart the
      controller once, wait 20 seconds and check again; the result of the
      second check is only reported, the deployment goes on either way. */
  function EnsureWebhook(script: seq<Reply>): Run<bool>
  {
    var first := WebhookCheck(script);
    if first.value then first
    else
      var second := WebhookCheck(Tail(first.rest));
      Run(second.value, first.events + [Ran(RestartController), Slept(20)] + second.events, second.rest)
  }

  /** One check reads the service once and never restarts the controller. */
  lemma WebhookCheckCounts(script: seq<Reply>)
    ensures Count(WebhookCheck(script).events, Ran(RestartController)) == 0
    ensures Count(WebhookCheck(script).events, Ran(GetWebhookService)) == 1
  {
    var first := WebhookCheck(script);
    var probes := first.events[1..];
    EndpointPollOnlyProbes(Tail(script), WebhookProbes);
    assert first.events == [Ran(GetWebhookService)] + probes;
    CountAbsent(probes, Ran(RestartController));
    CountAbsent(probes, Ran(GetWebhookService));
    CountCons(Ran(GetWebhookService), probes, Ran(RestartController));
    CountCons(Ran(GetWebhookService), probes, Ran(GetWebhookService));
  }

  /** The controller is restarted at most once, and exactly when the first
      check fails; there are at most two checks. */
  lemma RestartAtMostOnce(script: seq<Reply>)
    ensures var first := WebhookCheck(script);
      var r := EnsureWebhook(script);
      && Count(r.events, Ran(RestartController)) == (if first.value then 0 else 1)
      && Count(r.events, Ran(GetWebhookService)) == (if first.value then 1 else 2)
  {
    var first := WebhookCheck(script);
    WebhookCheckCounts(script);
    if !first.value {
      var second := WebhookCheck(Tail(first.rest));
      var restart := [Ran(RestartController), Slept(20)];
      WebhookCheckCounts(Tail(first.rest));
      CountShort(restart[0], restart[1], restart[1], Ran(RestartController));
      CountShort(restart[0], restart[1], restart[1], Ran(GetWebhookService));
      CountAppend(first.events, restart, Ran(RestartController));
      CountAppend(first.events, restart, Ran(GetWebhookService));
      CountAppend(first.events + restart, second.events, Ran(RestartController));
      CountAppend(first.events + restart, second.events, Ran(GetWebhookService));
    }
  }

  /** The fallback issues only webhook checks, the restart and pauses: it
      never touches the Higress release. */
  lemma EnsureWebhookIssues(script: seq<Reply>)
    ensures forall e | e in EnsureWebhook(script).events ::
      e == Ran(GetWebhookService) || e == Ran(GetWebhookEndpoints) || e == Ran(RestartController) || e.Slept?
  {
    var first := WebhookCheck(script);
    WebhookCheckIssues(script);
    if !first.value {
      WebhookCheckIssues(Tail(first.rest));
    }
  }

  // ---------------------------------------------------------------------
  // Helm install with retries
  // ---------------------------------------------------------------------

  /** The install loop from attempt `attempt` on: install, then list; the
      attempt succeeds when the listing mentions "deployed"; a failed
      attempt other than the last is cleaned up with an uninstall and a
      five-second pause, and every retry starts with a ten-second pause. */
  function InstallLoop(values: Descriptors.HelmValues, script: seq<Reply>, attempt: nat): Run<bool>
    decreases InstallAttempts - attempt
  {
    if attempt >= InstallAttempts then Run(false, [], script)
    else
      var tried := Tried(values, attempt);
      var after := Tail(Tail(script));
      if Mentions(Nth(script, 1), "deployed") then Run(true, tried, after)
      else if attempt < InstallAttempts - 1 then
        var next := InstallLoop(values, Tail(after), attempt + 1);
        Run(next.value, tried + [Ran(HelmUninstallHigress), Slept(5)] + next.events, next.rest)
      else Run(false, tried, after)
  }

  /** The events of attempt `attempt` up to its listing: a ten-second
      pause on a retry, the install, the listing. */
  function Tried(values: Descriptors.HelmValues, attempt: nat): seq<Event>
  {
    (if attempt > 0 then [Slept(10)] else []) + [Ran(HelmInstallHigress(values)), Ran(HelmListHigress)]
  }

  /** The events of `k` attempts that failed and were cleaned up. */
  function Retried(values: Descriptors.HelmValues, k: nat): seq<Event>
  {
    if k == 0 then [] else Retried(values, k - 1) + Tried(values, k - 1) + [Ran(HelmUninstallHigress), Slept(5)]
  }

  /** None of the first `k` listings (every third reply, from the second
      on) mentions "deployed". */
  predicate ListingsFailed(script: seq<Reply>, k: nat)
  {
    k == 0 || (ListingsFailed(script, k - 1) && !Mentions(Nth(script, 3 * (k - 1) + 1), "deployed"))
  }

  /** When the first `k` listings do not mention "deployed", the loop has
      made `k` failed, cleaned-up attempts and goes on as the loop from
      attempt `k` on the replies left. */
  lemma {:induction false} InstallLoopAfter(values: Descriptors.HelmValues, script: seq<Reply>, k: nat)
    requires k < InstallAttempts
    requires ListingsFailed(script, k)
    ensures var whole := InstallLoop(values, script, 0);
      var r := InstallLoop(values, Drop(script, 3 * k), k);
      whole.value == r.value && whole.rest == r.rest && whole.events == Retried(values, k) + r.events
  {
    if k == 0 {
      assert [] + InstallLoop(values, script, 0).events == InstallLoop(values, script, 0).events;
    } else {
      InstallLoopAfter(values, script, k - 1);
      var before := Drop(script, 3 * (k - 1));
      DropNth(script, 3 * (k - 1), 1);
      DropStep(script, 3 * (k - 1));
      DropStep(script, 3 * (k - 1) + 1);
      DropStep(script, 3 * (k - 1) + 2);
      var next := InstallLoop(values, Drop(script, 3 * k), k);
      var cleanup := [Ran(HelmUninstallHigress), Slept(5)];
      assert InstallLoop(values, before, k - 1).events == Tried(values, k - 1) + cleanup + next.events;
      AppendAssoc(Retried(values, k - 1), Tried(values, k - 1) + cleanup, next.events);
      AppendAssoc(Retried(values, k - 1), Tried(values, k - 1), cleanup);
    }
  }

  /** The listing test is Python's `check_result and "deployed" in check_result`. */
  lemma DeployedMeaning(reply: Reply)
    ensures Mentions(reply, "deployed") <==> Captured(reply) != "" && Text.Contains(Captured(reply), "deployed")
  {
    MentionsMeansCapturedContains(reply, "deployed");
  }

  /** One attempt issues one install and no uninstall. */
  lemma AttemptCounts(pause: seq<Event>, install: Event, list: Event, uninstall: Event)
    requires install.Ran? && uninstall.Ran?
    requires install != list && install != uninstall && list != uninstall
    requires pause == [] || pause == [Slept(10)]
    ensures Count(pause + [install, list], install) == 1
    ensures Count(pause + [install, list], uninstall) == 0
  {
    CountAppend(pause, [install, list], install);
    CountAppend(pause, [install, list], uninstall);
    CountShort(install, list, list, install);
    CountShort(install, list, list, uninstall);
    CountShort(Slept(10), list, list, install);
    CountShort(Slept(10), list, list, uninstall);
  }

  /** The cleanup after a failed attempt issues one uninstall and no install. */
  lemma CleanupCounts(install: Event, uninstall: Event)
    requires install != uninstall && install != Slept(5) && uninstall != Slept(5)
    ensures Count([uninstall, Slept(5)], install) == 0
    ensures Count([uninstall, Slept(5)], uninstall) == 1
  {
    CountShort(uninstall, Slept(5), Slept(5), install);
    CountShort(uninstall, Slept(5), Slept(5), uninstall);
  }

  /** At most three installs; an uninstall only between two attempts, so
      exactly one fewer than the installs; a loop that fails has made all
      the remaining attempts. */
  lemma {:induction false} InstallLoopCounts(values: Descriptors.HelmValues, script: seq<Reply>, attempt: nat)
    requires attempt < InstallAttempts
    ensures var r := InstallLoop(values, script, attempt);
      var installs := Count(r.events, Ran(HelmInstallHigress(values)));
      && 1 <= installs <= InstallAttempts - attempt
      && Count(r.events, Ran(HelmUninstallHigress)) == installs - 1
      && (!r.value ==> installs == InstallAttempts - attempt)
    decreases InstallAttempts - attempt
  {
    var install := Ran(HelmInstallHigress(values));
    var uninstall := Ran(HelmUninstallHigress);
    var pause: seq<Event> := if attempt > 0 then [Slept(10)] else [];
    var tried := pause + [install, Ran(HelmListHigress)];
    AttemptCounts(pause, install, Ran(HelmListHigress), uninstall);
    if !Mentions(Nth(script, 1), "deployed") && attempt < InstallAttempts - 1 {
      var next := InstallLoop(values, Tail(Tail(Tail(script))), attempt + 1);
      InstallLoopCounts(values, Tail(Tail(Tail(script))), attempt + 1);
      var cleanup := [uninstall, Slept(5)];
      CleanupCounts(install, uninstall);
      CountAppend(tried, cleanup, install);
      CountAppend(tried, cleanup, uninstall);
      CountAppend(tried + cleanup, next.events, install);
      CountAppend(tried + cleanup, next.events, uninstall);
    }
  }

  /** The listing of attempt `attempt + j + 1` is three replies further on
      than that of attempt `attempt + j`. */
  lemma ListingShift(script: seq<Reply>, j: nat)
    ensures Nth(Tail(Tail(Tail(script))), 3 * j + 1) == Nth(script, 3 * (j + 1) + 1)
  {
    NthTail(Tail(Tail(script)), 3 * j + 1);
    NthTail(Tail(script), 3 * j + 2);
    NthTail(script, 3 * j + 3);
  }

  /** The loop succeeds when this attempt's listing mentions "deployed",
      or when this is not the last attempt and the loop from the next one
      succeeds. */
  lemma InstallLoopValue(values: Descriptors.HelmValues, script: seq<Reply>, attempt: nat)
    requires attempt < InstallAttempts
    ensures InstallLoop(values, script, attempt).value <==>
      Mentions(Nth(script, 1), "deployed") ||
      (attempt < InstallAttempts - 1 && InstallLoop(values, Tail(Tail(Tail(script))), attempt + 1).value)
  {
  }

  /** The loop succeeds exactly when the listing of one of the remaining
      attempts (the reply at `3 * j + 1`) mentions "deployed". */
  lemma {:induction false} InstallLoopSucceeds(values: Descriptors.HelmValues, script: seq<Reply>, attempt: nat)
    requires attempt < InstallAttempts
    ensures InstallLoop(values, script, attempt).value <==>
      exists j | 0 <= j < InstallAttempts - attempt :: Mentions(Nth(script, 3 * j + 1), "deployed")
    decreases InstallAttempts - attempt
  {
    InstallLoopValue(values, script, attempt);
    if attempt < InstallAttempts - 1 {
      InstallLoopSucceeds(values, Tail(Tail(Tail(script))), attempt + 1);
    }
    ListingFound(script, InstallAttempts - attempt - 1);
  }

  /** One of the first `m + 1` listings mentions "deployed" exactly when the
      first does or one of the `m` after it, counted from three replies on. */
  lemma ListingFound(script: seq<Reply>, m: nat)
    ensures (exists j | 0 <= j < m + 1 :: Mentions(Nth(script, 3 * j + 1), "deployed")) <==>
      Mentions(Nth(script, 1), "deployed") ||
      exists j | 0 <= j < m :: Mentions(Nth(Tail(Tail(Tail(script))), 3 * j + 1), "deployed")
  {
    var rest := Tail(Tail(Tail(script)));
    if exists j | 0 <= j < m + 1 :: Mentions(Nth(script, 3 * j + 1), "deployed") {
      var j :| 0 <= j < m + 1 && Mentions(Nth(script, 3 * j + 1), "deployed");
      if j > 0 {
        ListingShift(script, j - 1);
      }
    }
    if exists j | 0 <= j < m :: Mentions(Nth(rest, 3 * j + 1), "deployed") {
      var j :| 0 <= j < m && Mentions(Nth(rest, 3 * j + 1), "deployed");
      ListingShift(script, j);
    }
    assert Nth(script, 1) == Nth(script, 3 * 0 + 1);
  }

  // ---------------------------------------------------------------------
  // Load balancer wait
  // ---------------------------------------------------------------------

  /** What one round of the load balancer wait found. */
  datatype RoundResult = Abort(reason: Reason) | Found(hostname: string) | Pending

  /** The event text is examined only when it is not empty and mentions
      "FailedDeployModel" or, in any case, "error". */
  predicate Alarming(events: string)
  {
    events != "" && (Text.Contains(events, "FailedDeployModel") || Text.Contains(Text.Lower(events), "error"))
  }

  /** The abort an alarming event text calls for, if any: a missing
      certificate is looked for first, then a permission problem; any
      other error lets the wait go on. */
  function EventAbort(events: string): Option<Reason>
  {
    var lower := Text.Lower(events);
    if Text.Contains(lower, "certificate must be specified") then Some(CertificateRequired)
    else if Text.Contains(lower, "not authorized") || Text.Contains(lower, "access denied") then Some(NotAuthorized)
    else None
  }

  /** The certificate problem is looked for first: it wins even when the
      text also names a permission problem; the permission abort needs
      one of its two phrases; nothing else aborts. */
  lemma EventAbortMeaning(events: string)
    ensures var r := EventAbort(events);
      && (r == Some(CertificateRequired) <==> Text.Contains(Text.Lower(events), "certificate must be specified"))
      && (r == Some(NotAuthorized) <==>
            && !Text.Contains(Text.Lower(events), "certificate must be specified")
            && (Text.Contains(Text.Lower(events), "not authorized") || Text.Contains(Text.Lower(events), "access denied")))
      && (r.None? || r == Some(CertificateRequired) || r == Some(NotAuthorized))
  {
  }

  /** The event tests give the same answer on the raw output as on the
      stripped text the program actually examines. */
  lemma AlarmingIgnoresPadding(s: string)
    ensures Alarming(Text.Strip(s)) <==> Alarming(s)
  {
    Text.ContainsStrip(s, "FailedDeployModel");
    Text.ContainsLowerStrip(s, "error");
  }

  lemma EventAbortIgnoresPadding(s: string)
    ensures EventAbort(Text.Strip(s)) == EventAbort(s)
  {
    Text.ContainsLowerStrip(s, "certificate must be specified");
    Text.ContainsLowerStrip(s, "not authorized");
    Text.ContainsLowerStrip(s, "access denied");
  }

  /** The host name query that ends a round that did not abort. */
  function HostnameCheck(script: seq<Reply>, before: seq<Event>): Run<RoundResult>
  {
    var reply := Head(script);
    Run(if Quiet(reply) then Pending else Found(Captured(reply)), before + [Ran(GetIngressHostname)], Tail(script))
  }

  /** One round: the events are read; alarming events are described
      (a failing description ends the program) and classified; then, unless
      the round aborted, the host name is read. */
  function AlbRound(script: seq<Reply>): Run<RoundResult>
  {
    var events := Head(script).stdout;
    if Alarming(events) then
      var describe := Exec(Tail(script), DescribeIngress, true, false);
      var seen := [Ran(GetIngressEvents), Ran(DescribeIngress)];
      if describe.value.Fatal? then Run(Abort(CommandFailed(DescribeIngress)), seen, describe.rest)
      else if EventAbort(events).Some? then Run(Abort(EventAbort(events).value), seen, describe.rest)
      else HostnameCheck(describe.rest, seen)
    else
      HostnameCheck(Tail(script), [Ran(GetIngressEvents)])
  }

  /** The wait with `n` rounds left, for any way of running one round.
      On success the host name is probed after a 30-second pause; a round
      that finds nothing is followed by a 10-second pause; when the rounds
      run out the ingress is described and the wait ends without exiting. */
  function PollWith(round: seq<Reply> -> Run<RoundResult>, script: seq<Reply>, n: nat): Run<Status>
    decreases n
  {
    if n == 0 then
      var describe := Exec(script, DescribeIngress, true, false);
      Run(if describe.value.Fatal? then Exited(CommandFailed(DescribeIngress)) else TimedOut, describe.events, describe.rest)
    else
      var r := round(script);
      match r.value
      case Abort(reason) => Run(Exited(reason), r.events, r.rest)
      case Found(hostname) =>
        Run(Endpoint(hostname), r.events + [Slept(30), Ran(ProbeEndpoint(hostname))], Tail(r.rest))
      case Pending =>
        var next := PollWith(round, r.rest, n - 1);
        Run(next.value, r.events + [Slept(10)] + next.events, next.rest)
  }

  /** The load balancer wait with `n` rounds left. */
  function AlbPoll(script: seq<Reply>, n: nat): Run<Status>
  {
    PollWith(AlbRound, script, n)
  }

  /** The first `k` rounds of the wait when none of them found a host name
      or aborted (the value says whether they all came up empty): each
      round's events followed by its ten-second pause. */
  function Waited(round: seq<Reply> -> Run<RoundResult>, script: seq<Reply>, k: nat): Run<bool>
  {
    if k == 0 then Run(true, [], script)
    else
      var prev := Waited(round, script, k - 1);
      var r := round(prev.rest);
      if prev.value && r.value.Pending? then Run(true, prev.events + r.events + [Slept(10)], r.rest)
      else Run(false, prev.events, prev.rest)
  }

  /** After `k` empty rounds, the wait of `n` rounds goes on as the wait of
      `n - k` rounds on the replies left. */
  lemma {:induction false} PollAfter(round: seq<Reply> -> Run<RoundResult>, script: seq<Reply>, n: nat, k: nat)
    requires k <= n && Waited(round, script, k).value
    ensures var whole := PollWith(round, script, n);
      var w := Waited(round, script, k);
      var r := PollWith(round, w.rest, n - k);
      whole.value == r.value && whole.rest == r.rest && whole.events == w.events + r.events
  {
    if k == 0 {
      assert [] + PollWith(round, script, n).events == PollWith(round, script, n).events;
    } else {
      var prev := Waited(round, script, k - 1);
      PollAfter(round, script, n, k - 1);
      var r := round(prev.rest);
      var next := PollWith(round, r.rest, n - k);
      assert PollWith(round, prev.rest, n - k + 1).events == r.events + [Slept(10)] + next.events;
      AppendAssoc(prev.events, r.events + [Slept(10)], next.events);
    }
  }

  /** A round whose events do not alarm reads the events and then the host
      name, and cannot abort: its text is never described or classified. */
  lemma AlbRoundCalm(script: seq<Reply>)
    requires !Alarming(Head(script).stdout)
    ensures !AlbRound(script).value.Abort?
    ensures AlbRound(script).events == [Ran(GetIngressEvents), Ran(GetIngressHostname)]
  {
  }

  /** A round whose events alarm reads them, describes the ingress, and
      then reads the host name exactly when it does not abort. */
  lemma AlbRoundAlarmed(script: seq<Reply>)
    requires Alarming(Head(script).stdout)
    ensures var r := AlbRound(script);
      r.events == [Ran(GetIngressEvents), Ran(DescribeIngress)] + (if r.value.Abort? then [] else [Ran(GetIngressHostname)])
  {
  }

  /** A found host name is the captured text of a reply that is not blank. */
  lemma AlbRoundFound(script: seq<Reply>)
    ensures AlbRound(script).value.Found? ==> AlbRound(script).value.hostname != ""
  {
    if Alarming(Head(script).stdout) {
      var describe := Exec(Tail(script), DescribeIngress, true, false);
      if !describe.value.Fatal? && EventAbort(Head(script).stdout).None? {
        HostnameFound(describe.rest, [Ran(GetIngressEvents), Ran(DescribeIngress)]);
      }
    } else {
      HostnameFound(Tail(script), [Ran(GetIngressEvents)]);
    }
  }

  lemma HostnameFound(script: seq<Reply>, before: seq<Event>)
    ensures HostnameCheck(script, before).value.Found? ==> HostnameCheck(script, before).value.hostname != ""
  {
    QuietMeansEmpty(Head(script));
  }

  /** Counting in a round: the events are read once, and the host name
      once unless the round aborted. */
  lemma AlbRoundCounts(script: seq<Reply>)
    ensures var r := AlbRound(script);
      && Count(r.events, Ran(GetIngressEvents)) == 1
      && Count(r.events, Ran(GetIngressHostname)) == (if r.value.Abort? then 0 else 1)
  {
    var r := AlbRound(script);
    if Alarming(Head(script).stdout) {
      AlbRoundAlarmed(script);
    } else {
      AlbRoundCalm(script);
    }
    var e := Ran(GetIngressEvents);
    var h := Ran(GetIngressHostname);
    var d := Ran(DescribeIngress);
    CountShort(e, d, h, e);
    CountShort(e, d, h, h);
    CountShort(e, h, h, e);
    CountShort(e, h, h, h);
  }

  /** An alarming event text that names a missing certificate aborts the
      round with that reason even when it also names a permission problem,
      as long as the description succeeds. */
  lemma CertificateBeforePermissions(script: seq<Reply>)
    requires Alarming(Head(script).stdout)
    requires Nth(script, 1).exitCode == 0
    requires Text.Contains(Text.Lower(Head(script).stdout), "certificate must be specified")
    ensures AlbRound(script).value == Abort(CertificateRequired)
  {
    NthTail(script, 0);
  }

  /** How a command is counted over one step of the wait: the round, then,
      when it found nothing, the rest of the wait. */
  lemma PollStepCount(round: seq<Reply> -> Run<RoundResult>, script: seq<Reply>, n: nat, x: Event)
    requires n > 0 && x.Ran? && !x.command.ProbeEndpoint?
    ensures var r := round(script);
      Count(PollWith(round, script, n).events, x) ==
        Count(r.events, x) + (if r.value.Pending? then Count(PollWith(round, r.rest, n - 1).events, x) else 0)
  {
    var r := round(script);
    if r.value.Pending? {
      PauseCounts(r.events, 10, PollWith(round, r.rest, n - 1).events, x);
    } else if r.value.Found? {
      var tail := [Slept(30), Ran(ProbeEndpoint(r.value.hostname))];
      CountAppend(r.events, tail, x);
      CountShort(Slept(30), tail[1], tail[1], x);
    }
  }

  /** A round that reads the events once, and the host name once unless
      it aborted. */
  predicate CountedRound(r: Run<RoundResult>)
  {
    && Count(r.events, Ran(GetIngressEvents)) == 1
    && Count(r.events, Ran(GetIngressHostname)) == (if r.value.Abort? then 0 else 1)
  }

  lemma {:induction false} PollRounds(round: seq<Reply> -> Run<RoundResult>, script: seq<Reply>, n: nat)
    decreases n
    requires forall s :: CountedRound(round(s))
    ensures Count(PollWith(round, script, n).events, Ran(GetIngressEvents)) <= n
  {
    var e := Ran(GetIngressEvents);
    if n == 0 {
      CountShort(Ran(DescribeIngress), e, e, e);
    } else {
      var r := round(script);
      assert CountedRound(r);
      PollStepCount(round, script, n, e);
      if r.value.Pending? {
        PollRounds(round, r.rest, n - 1);
      }
    }
  }

  lemma {:induction false} PollTimeoutRounds(round: seq<Reply> -> Run<RoundResult>, script: seq<Reply>, n: nat)
    decreases n
    requires forall s :: CountedRound(round(s))
    ensures var p := PollWith(round, script, n);
      p.value.TimedOut? ==> Count(p.events, Ran(GetIngressEvents)) == n && Count(p.events, Ran(GetIngressHostname)) == n
  {
    var e := Ran(GetIngressEvents);
    var h := Ran(GetIngressHostname);
    if n == 0 {
      CountShort(Ran(DescribeIngress), e, e, e);
      CountShort(Ran(DescribeIngress), e, e, h);
    } else {
      var r := round(script);
      if r.value.Pending? {
        assert CountedRound(r);
        PollTimeoutRounds(round, r.rest, n - 1);
        PollStepCount(round, script, n, e);
        PollStepCount(round, script, n, h);
      }
    }
  }

  /** The wait runs at most `n` rounds: it reads the events at most `n`
      times. */
  lemma AlbPollRounds(script: seq<Reply>, n: nat)
    ensures Count(AlbPoll(script, n).events, Ran(GetIngressEvents)) <= n
  {
    forall s ensures CountedRound(AlbRound(s)) {
      AlbRoundCounts(s);
    }
    PollRounds(AlbRound, script, n);
  }

  /** The wait times out only after all `n` rounds have read the events
      and the host name. */
  lemma AlbPollTimeoutRounds(script: seq<Reply>, n: nat)
    ensures var r := AlbPoll(script, n);
      r.value.TimedOut? ==> Count(r.events, Ran(GetIngressEvents)) == n && Count(r.events, Ran(GetIngressHostname)) == n
  {
    forall s ensures CountedRound(AlbRound(s)) {
      AlbRoundCounts(s);
    }
    PollTimeoutRounds(AlbRound, script, n);
  }

  /** A pause between two stretches of a trace counts no command. */
  lemma PauseCounts(before: seq<Event>, seconds: nat, after: seq<Event>, x: Event)
    requires x.Ran?
    ensures Count(before + [Slept(seconds)] + after, x) == Count(before, x) + Count(after, x)
  {
    CountShort(Slept(seconds), x, x, x);
    CountAppend(before, [Slept(seconds)], x);
    CountAppend(before + [Slept(seconds)], after, x);
  }

  /** A wait whose rounds only ever find non-blank host names ends with a
      host name, a time-out or an exit, and its last act on success is the
      probe of that host. */
  lemma {:induction false} PollEnds(round: seq<Reply> -> Run<RoundResult>, script: seq<Reply>, n: nat)
    decreases n
    requires forall s :: round(s).value.Found? ==> round(s).value.hostname != ""
    ensures var p := PollWith(round, script, n);
      && (p.value.Endpoint? || p.value.TimedOut? || p.value.Exited?)
      && (p.value.Endpoint? ==>
            p.value.hostname != "" && p.events[|p.events| - 1] == Ran(ProbeEndpoint(p.value.hostname)))
  {
    if n > 0 {
      var r := round(script);
      if r.value.Pending? {
        var next := PollWith(round, r.rest, n - 1);
        PollEnds(round, r.rest, n - 1);
        if next.value.Endpoint? {
          LastOfAppend(r.events + [Slept(10)], next.events);
        }
      } else if r.value.Found? {
        LastOfAppend(r.events, [Slept(30), Ran(ProbeEndpoint(r.value.hostname))]);
      }
    }
  }

  /** The wait ends with a host name, a time-out or an exit; it never
      reports success without a non-blank host name, and its last act on
      success is the probe of that host. */
  lemma AlbPollEnds(script: seq<Reply>, n: nat)
    ensures var r := AlbPoll(script, n);
      && (r.value.Endpoint? || r.value.TimedOut? || r.value.Exited?)
      && (r.value.Endpoint? ==>
            r.value.hostname != "" && r.events[|r.events| - 1] == Ran(ProbeEndpoint(r.value.hostname)))
  {
    forall s ensures AlbRound(s).value.Found? ==> AlbRound(s).value.hostname != "" {
      AlbRoundFound(s);
    }
    PollEnds(AlbRound, script, n);
  }

  lemma LastOfAppend(a: seq<Event>, b: seq<Event>)
    requires b != []
    ensures |a + b| > 0 && (a + b)[|a + b| - 1] == b[|b| - 1]
  {
  }
}
