/** The external commands the deployer issues, the scripted replies that
    stand for their results, and the semantics of `_run_command`. Each
    command consumes one reply from the script, in order; a script that
    has run out answers as a command that succeeded and printed nothing. */
module Commands {
  import opened Wrappers
  import Text
  import Descriptors
  import Policy

  /** The commands, with the arguments the model follows. */
  datatype Command =
    | GetCallerIdentity
    | DownloadPolicy
    | GetPolicy(arn: string)
    | ListPolicyVersions(arn: string)
    | DeletePolicyVersion(arn: string, version: string)
    | CreatePolicyVersion(arn: string, document: seq<Policy.Statement>)
    | CreatePolicy(document: seq<Policy.Statement>)
    | CreateServiceAccount(cluster: string, arn: string, region: string)
    | HelmRepoAddEks
    | HelmRepoUpdate
    | HelmInstallController(cluster: string, region: string, vpcId: string)
    | WaitControllerAvailable
    | GetWebhookService
    | GetWebhookEndpoints
    | GetControllerDeployment
    | RestartController
    | RolloutStatusController
    | HelmRepoAddHigress
    | CreateNamespace
    | HelmInstallHigress(values: Descriptors.HelmValues)
    | HelmListHigress
    | HelmUninstallHigress
    | GetPods
    | GetServices
    | GetIngress
    | DeleteIngress
    | ApplyIngress(ingress: Descriptors.Ingress)
    | GetIngressEvents
    | DescribeIngress
    | GetIngressHostname
    | ProbeEndpoint(hostname: string)
    | DeleteAllIngresses
    | DeleteNamespace
    | GetNamespaceJson
    | ForceFinalize
    | HelmUninstallController
    | DeleteValidatingWebhook
    | DeleteMutatingWebhook
    | DeleteCluster(name: string, region: string)
    | DeletePolicy(arn: string)

  /** What a command returned: its exit code and its standard output. */
  datatype Reply = Reply(exitCode: int, stdout: string)

  /** One entry of the trace: a command issued, or a `time.sleep`. */
  datatype Event = Ran(command: Command) | Slept(seconds: nat)

  /** Why a run ended in `sys.exit(1)`. */
  datatype Reason =
    | CommandFailed(command: Command)
    | InstallFailed
    | CertificateRequired
    | NotAuthorized

  /** How an operation ended. `Endpoint` is the load balancer's host name. */
  datatype Status =
    | Completed
    | Endpoint(hostname: string)
    | Cancelled
    | TimedOut
    | Exited(reason: Reason)

  /** A run of a piece of the workflow over a script: what it yields, the
      events it adds to the trace and the replies left for later commands. */
  datatype Run<T> = Run(value: T, events: seq<Event>, rest: seq<Reply>)

  /** The reply the next command receives. */
  function Head(script: seq<Reply>): Reply
  {
    if script == [] then Reply(0, "") else script[0]
  }

  /** The replies left after the next command. */
  function Tail(script: seq<Reply>): (rest: seq<Reply>)
    ensures |rest| == if script == [] then 0 else |script| - 1
  {
    if script == [] then [] else script[1..]
  }

  /** The reply the `k`-th command from now receives. */
  function Nth(script: seq<Reply>, k: nat): Reply
  {
    if k < |script| then script[k] else Reply(0, "")
  }

  lemma NthTail(script: seq<Reply>, k: nat)
    ensures Nth(Tail(script), k) == Nth(script, k + 1)
    ensures Nth(script, 0) == Head(script)
  {
  }

  /** The result of `_run_command(cmd, check, capture)`. */
  datatype Outcome = Output(text: Option<string>) | Fatal

  /** `_run_command`: with `check`, a non-zero exit ends the program
      (`sys.exit(1)`); otherwise the stripped standard output is returned
      when `capture` is set, even when the command failed, and `None` when
      it is not. */
  function Result(reply: Reply, check: bool, capture: bool): (o: Outcome)
    ensures o.Fatal? <==> check && reply.exitCode != 0
    ensures o.Output? ==> (o.text.Some? <==> capture)
  {
    if check && reply.exitCode != 0 then Fatal
    else if capture then Output(Some(Text.Strip(reply.stdout)))
    else Output(None)
  }

  /** The text `_run_command` hands back is empty exactly when the command
      printed only whitespace, and otherwise neither starts nor ends with
      whitespace. */
  lemma ResultText(reply: Reply, check: bool, capture: bool)
    ensures var o := Result(reply, check, capture);
      o.Output? && o.text.Some? ==>
        && (o.text.value == [] <==> Text.Blank(reply.stdout))
        && (o.text.value != [] ==> !Text.IsSpace(o.text.value[0]) && !Text.IsSpace(o.text.value[|o.text.value| - 1]))
        && |o.text.value| <= |reply.stdout|
  {
    Text.StripMeaning(reply.stdout);
  }

  /** Issuing one command against the script. */
  function Exec(script: seq<Reply>, cmd: Command, check: bool, capture: bool): Run<Outcome>
  {
    Run(Result(Head(script), check, capture), [Ran(cmd)], Tail(script))
  }

  /** The text a `capture=True` command that is not fatal hands back. */
  function Captured(reply: Reply): string
  {
    Text.Strip(reply.stdout)
  }

  /** The reply's text is falsy once stripped: the command printed nothing
      but whitespace. */
  predicate Quiet(reply: Reply)
  {
    Text.Blank(reply.stdout)
  }

  /** The reply's output mentions `word`. */
  predicate Mentions(reply: Reply, word: string)
  {
    Text.Contains(reply.stdout, word)
  }

  /** `Captured` is what `_run_command(cmd, check=False, capture=True)`
      returns, whatever the exit code. */
  lemma CapturedIsResult(script: seq<Reply>, cmd: Command)
    ensures Exec(script, cmd, false, true).value == Output(Some(Captured(Head(script))))
  {
  }

  /** `Quiet` is exactly the case where the captured text is empty. */
  lemma QuietMeansEmpty(reply: Reply)
    ensures Quiet(reply) <==> Captured(reply) == ""
  {
    Text.StripMeaning(reply.stdout);
  }

  /** For a word that starts and ends with a non-whitespace character,
      looking for it in the raw output and in the captured text agree. */
  lemma MentionsMeansCapturedContains(reply: Reply, word: string)
    requires Text.Solid(word)
    ensures Mentions(reply, word) <==> Text.Contains(Captured(reply), word)
  {
    Text.ContainsStrip(reply.stdout, word);
  }

  /** Without `check` the exit code makes no difference: a captured command
      hands back the same text, an uncaptured one `None`. */
  lemma CapturedIgnoresExitCode(a: Reply, b: Reply)
    requires a.stdout == b.stdout
    ensures Result(a, false, true) == Result(b, false, true)
    ensures Result(a, false, false) == Output(None)
  {
  }

  const PolicyName := "AWSLoadBalancerControllerIAMPolicy"

  /** The ARN of the controller's policy in the given account. */
  function PolicyArn(account: string): string
  {
    "arn:aws:iam::" + account + ":policy/" + PolicyName
  }

  /** Different accounts give different policy ARNs. */
  lemma PolicyArnInjective(a: string, b: string)
    requires PolicyArn(a) == PolicyArn(b)
    ensures a == b
  {
    var suffix := ":policy/" + PolicyName;
    assert |a| == |b|;
    forall i | 0 <= i < |a| ensures a[i] == b[i] {
      assert PolicyArn(a)[13 + i] == a[i];
      assert PolicyArn(b)[13 + i] == b[i];
    }
  }

  /** `check=True` commands in a row, stopping at the first that fails. The
      value is the command that failed, if any. */
  function Steps(script: seq<Reply>, cmds: seq<Command>): Run<Option<Command>>
    decreases |cmds|
  {
    if cmds == [] then Run(None, [], script)
    else if Head(script).exitCode != 0 then Run(Some(cmds[0]), [Ran(cmds[0])], Tail(script))
    else
      var next := Steps(Tail(script), cmds[1..]);
      Run(next.value, [Ran(cmds[0])] + next.events, next.rest)
  }

  /** The events of issuing `cmds` in order. */
  function RanAll(cmds: seq<Command>): (events: seq<Event>)
    ensures |events| == |cmds|
    ensures forall i | 0 <= i < |cmds| :: events[i] == Ran(cmds[i])
  {
    if cmds == [] then [] else [Ran(cmds[0])] + RanAll(cmds[1..])
  }



  /** A row of checked commands runs to the end exactly when none of them
      exits non-zero, issuing all of them in order. */
  lemma {:induction false} StepsSucceed(script: seq<Reply>, cmds: seq<Command>)
    ensures Steps(script, cmds).value.None? <==> forall i | 0 <= i < |cmds| :: Nth(script, i).exitCode == 0
    ensures Steps(script, cmds).value.None? ==> Steps(script, cmds).events == RanAll(cmds)
    decreases |cmds|
  {
    if cmds != [] {
      NthTail(script, 0);
      forall i | 0 <= i < |cmds| - 1 ensures Nth(Tail(script), i) == Nth(script, i + 1) {
        NthTail(script, i);
      }
      StepsSucceed(Tail(script), cmds[1..]);
      if forall i | 0 <= i < |cmds| :: Nth(script, i).exitCode == 0 {
        assert forall i | 0 <= i < |cmds[1..]| :: Nth(Tail(script), i).exitCode == 0 by {
          forall i | 0 <= i < |cmds[1..]| ensures Nth(Tail(script), i).exitCode == 0 {
            assert Nth(Tail(script), i) == Nth(script, i + 1);
          }
        }
      }
      if Head(script).exitCode == 0 && Steps(Tail(script), cmds[1..]).value.None? {
        forall i | 0 <= i < |cmds| ensures Nth(script, i).exitCode == 0 {
          if i > 0 {
            assert Nth(Tail(script), i - 1) == Nth(script, i);
          }
        }
      }
    }
  }

  /** A row of checked commands that fails names the first command that
      exits non-zero, and nothing after it is issued. */
  lemma {:induction false} StepsFail(script: seq<Reply>, cmds: seq<Command>, k: nat)
    requires k < |cmds| && Nth(script, k).exitCode != 0
    requires forall i | 0 <= i < k :: Nth(script, i).exitCode == 0
    ensures Steps(script, cmds).value == Some(cmds[k])
    ensures Steps(script, cmds).events == RanAll(cmds[..k + 1])
    decreases k
  {
    assert Nth(script, 0) == Head(script);
    if k == 0 {
      assert RanAll(cmds[..1]) == [Ran(cmds[0])];
    } else {
      forall i | 0 <= i < k - 1 ensures Nth(Tail(script), i).exitCode == 0 {
        NthTail(script, i);
      }
      NthTail(script, k - 1);
      StepsFail(Tail(script), cmds[1..], k - 1);
      assert cmds[1..][..k] == cmds[..k + 1][1..];
      assert RanAll(cmds[..k + 1]) == [Ran(cmds[0])] + RanAll(cmds[..k + 1][1..]);
    }
  }

  /** The replies left after `n` commands. */
  function Drop(script: seq<Reply>, n: nat): seq<Reply>
  {
    if n == 0 then script else Drop(Tail(script), n - 1)
  }

  /** One command more consumes the next reply left. */
  lemma {:induction false} DropStep(script: seq<Reply>, n: nat)
    ensures Drop(script, n + 1) == Tail(Drop(script, n))
    decreases n
  {
    if n > 0 {
      DropStep(Tail(script), n - 1);
    }
  }

  /** The `k`-th reply after `n` commands is the `(n + k)`-th from now. */
  lemma {:induction false} DropNth(script: seq<Reply>, n: nat, k: nat)
    ensures Nth(Drop(script, n), k) == Nth(script, n + k)
    ensures Head(Drop(script, n)) == Nth(script, n)
    decreases n
  {
    if n == 0 {
      NthTail(script, 0);
    } else {
      DropNth(Tail(script), n - 1, k);
      NthTail(script, n - 1 + k);
      NthTail(script, n - 1);
    }
  }

  /** Every reply left in the script reports success. */
  predicate Succeeding(script: seq<Reply>)
  {
    forall i | 0 <= i < |script| :: script[i].exitCode == 0
  }

  /** A succeeding script stays so as it is consumed, and every command
      run against it succeeds. */
  lemma SucceedingTail(script: seq<Reply>)
    requires Succeeding(script)
    ensures Succeeding(Tail(script)) && Head(script).exitCode == 0
    ensures forall k: nat :: Nth(script, k).exitCode == 0
  {
  }

  /** Against a succeeding script a row of checked commands runs to the
      end, and leaves a succeeding script. */
  lemma {:induction false} StepsOnSucceeding(script: seq<Reply>, cmds: seq<Command>)
    requires Succeeding(script)
    ensures Steps(script, cmds).value.None? && Succeeding(Steps(script, cmds).rest)
    decreases |cmds|
  {
    if cmds != [] {
      SucceedingTail(script);
      StepsOnSucceeding(Tail(script), cmds[1..]);
    }
  }

  /** Every event of a row of checked commands issues one of them. */
  lemma {:induction false} StepsIssueOnly(script: seq<Reply>, cmds: seq<Command>)
    ensures forall e | e in Steps(script, cmds).events :: e.Ran? && e.command in cmds
    ensures Steps(script, cmds).value.Some? ==> Steps(script, cmds).value.value in cmds
    decreases |cmds|
  {
    if cmds != [] && Head(script).exitCode == 0 {
      StepsIssueOnly(Tail(script), cmds[1..]);
    }
  }

  /** `check=False` commands in a row whose output is not looked at: each
      is issued and consumes its reply, whatever its exit code. */
  function Unchecked(script: seq<Reply>, cmds: seq<Command>): Run<()>
  {
    Run((), RanAll(cmds), Drop(script, |cmds|))
  }

  /** Regrouping a trace: stated once so that proofs about traces built
      piece by piece need not rediscover it. */
  lemma AppendAssoc(a: seq<Event>, b: seq<Event>, c: seq<Event>)
    ensures a + (b + c) == (a + b) + c
  {
  }

  /** Two events appended one at a time are the pair appended at once. */
  lemma AppendPair(a: seq<Event>, x: Event, y: Event)
    ensures a + [x] + [y] == a + [x, y]
  {
  }

  /** A trace that goes on past `a` with the events `b` starts with `a`
      and then `b`'s first event. */
  lemma AppendThen(a: seq<Event>, b: seq<Event>)
    requires b != []
    ensures |a + b| > |a| && (a + b)[..|a|] == a && (a + b)[|a|] == b[0]
  {
    assert (a + b)[..|a|] == a;
  }

  /** Appending to a trace keeps its first `n + 1` events. */
  lemma AppendKeeps(t: seq<Event>, c: seq<Event>, n: nat)
    requires n < |t|
    ensures |t + c| > n && (t + c)[..n] == t[..n] && (t + c)[n] == t[n]
  {
    assert (t + c)[..n] == t[..n];
  }

  /** How many times `e` occurs in `events`. */
  function Count(events: seq<Event>, e: Event): nat
  {
    if events == [] then 0 else (if events[0] == e then 1 else 0) + Count(events[1..], e)
  }

  lemma {:induction false} CountAppend(a: seq<Event>, b: seq<Event>, e: Event)
    ensures Count(a + b, e) == Count(a, e) + Count(b, e)
  {
    if a != [] {
      assert (a + b)[0] == a[0];
      assert (a + b)[1..] == a[1..] + b;
      CountAppend(a[1..], b, e);
    } else {
      assert a + b == b;
    }
  }

  /** Counting over a list that starts with `x`. */
  lemma CountCons(x: Event, rest: seq<Event>, e: Event)
    ensures Count([x] + rest, e) == (if x == e then 1 else 0) + Count(rest, e)
  {
    assert ([x] + rest)[1..] == rest;
  }

  /** Counting over a list of one, two or three events. */
  lemma CountShort(a: Event, b: Event, c: Event, e: Event)
    ensures Count([a], e) == (if a == e then 1 else 0)
    ensures Count([a, b], e) == (if a == e then 1 else 0) + (if b == e then 1 else 0)
    ensures Count([a, b, c], e) == (if a == e then 1 else 0) + (if b == e then 1 else 0) + (if c == e then 1 else 0)
  {
    CountCons(a, [], e);
    assert [a, b] == [a] + [b];
    CountCons(a, [b], e);
    CountCons(b, [], e);
    assert [a, b, c] == [a] + [b, c];
    CountCons(a, [b, c], e);
    assert [b, c] == [b] + [c];
    CountCons(b, [c], e);
    CountCons(c, [], e);
  }

  lemma {:induction false} CountAbsent(events: seq<Event>, e: Event)
    ensures Count(events, e) == 0 <==> e !in events
  {
    if events != [] {
      CountAbsent(events[1..], e);
      assert events == [events[0]] + events[1..];
    }
  }
}
