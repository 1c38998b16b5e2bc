# higress-on-aws deployer core, modelled in Dafny

This project models the core of `HigressDeployer` from `higress_deploy.py`.
That class installs the Higress gateway on Amazon EKS behind an Application
Load Balancer (ALB), and later tears it down. The project also models the
capacity probe in `test_capcity.py`.

The deployer drives external tools (`aws`, `eksctl`, `kubectl`, `helm`, `curl`) through
`_run_command`. Here every such call is a `Command` value. Its result is the next
`Reply(exitCode, stdout)` from a script of replies. A `Reply` queue and an event trace
(`Ran(command)` or `Slept(seconds)`) stand in for the shell and the clock. Each
operation is stated twice:

- as a function of the script, in the modules `Workflow` and `Polls`, which yields a
  `Run(value, events, rest)`;
- as a method of the class `Deployer.HigressDeployer`, which holds the fields
  `replies` and `trace` and updates them in place. Every method's `ensures` ties its
  result and new state to the function. The lemmas state what the operation promises
  about the function.

Modules:

- `Wrappers`: `Option`.
- `Text`: the Python string operations the code relies on: `strip`, `split()`,
  `split(sep)`, `sep.join`, `lower` and `in`.
- `Config`: the parsed `config.yaml`, with the `certificate_arn` lookup and the
  `use_alb` flag.
- `Descriptors`: the three descriptor builders, `_create_eks_config`,
  `_create_higress_values` and `_create_alb_ingress`, as datatypes and maps.
- `Policy`: the IAM policy augmentation, which runs in place on an array of
  statements, and the choice of the version to evict. The same code appears twice in
  the source, in `install_alb_controller` (lines 248-293) and in `fix_alb_permissions`
  (lines 1043-1072). It is modelled once, and both operations use it.
- `Commands`: commands, replies, events, `_run_command` and rows of commands.
- `Polls`: the bounded waits and retries:
  - the webhook endpoint waits, 60 and 30 probes;
  - the restart-once fallback;
  - the three-attempt Helm install;
  - the 40-round load balancer wait, with its event classification.
- `Workflow`: the operations as functions of the script: `install_alb_controller`,
  `fix_alb_permissions`, `deploy_higress`, `create_alb`, `delete_higress` and
  `delete_cluster`.
- `Deployer`: the class.
- `Capacity`: `test_capcity.py`, with nested loops that fill the results map and a
  loop that collects the recommended zones.

Four behaviours of the code are worth stating outright:

- `_run_command` with `check=False, capture=True` returns the stripped standard
  output even when the command failed (higress_deploy.py:43-47).
- The augmentation updates every qualifying `Allow` statement, not only the first
  (higress_deploy.py:248-258).
- `delete_cluster` queries the account with a checked command (higress_deploy.py:915
  and 88). A failure there ends the program after the cluster is deleted.
- The `describe` that follows a timed-out load balancer wait is checked, so its
  failure exits (higress_deploy.py:762).

`create_alb` applies the ingress that `_create_alb_ingress` builds from the
configuration. `Workflow.CreateAlbRun` takes that ingress as a parameter, and
`Deployer.HigressDeployer.CreateAlb` passes `Descriptors.AlbIngress(config)`.

## Model

| member | source | states |
|---|---|---|
| Commands.Result | higress_deploy.py:39-56 | the run is fatal exactly when `check` is on and the exit code is non-zero; otherwise text comes back exactly when `capture` is on |
| Commands.ResultText | higress_deploy.py:43-47 | the returned text is empty exactly when the output was only whitespace; otherwise it neither starts nor ends with whitespace; it is never longer than the output |
| Commands.CapturedIsResult | higress_deploy.py:43-47 | an unchecked captured command returns the stripped output whatever its exit code |
| Commands.CapturedIgnoresExitCode | higress_deploy.py:43-56 | without `check`, two replies with the same output give the same result; an uncaptured command gives `None` |
| Commands.QuietMeansEmpty | higress_deploy.py:47 | the output is blank exactly when the captured text is empty, which is Python's falsy test on it |
| Commands.MentionsMeansCapturedContains | higress_deploy.py:47 | for a word without whitespace at its ends, searching the raw output and the stripped text agree |
| Commands.PolicyArnInjective | higress_deploy.py:271-272 | different account ids give different controller policy ARNs |
| Commands.StepsSucceed | higress_deploy.py:52-55 | a row of checked commands runs to the end exactly when every reply exits zero, and then issues all of them in order |
| Commands.StepsFail | higress_deploy.py:52-55 | a row of checked commands stops at the first non-zero exit, names that command, and issues nothing after it |
| Commands.StepsIssueOnly | higress_deploy.py:52-55 | a row of checked commands issues only its own commands, and the failed one is one of them |
| Text.StripMeaning | higress_deploy.py:47 | `strip()` removes exactly the leading and trailing whitespace: the result is empty exactly for blank text, and otherwise starts and ends with a non-space character |
| Text.StripIsInfix | higress_deploy.py:47 | the stripped text is a contiguous slice of the original, surrounded only by whitespace |
| Text.StripIdempotent | higress_deploy.py:289 | stripping twice is stripping once, so the second `strip()` of the versions listing changes nothing |
| Text.FieldsAreWords | higress_deploy.py:289 | `split()` yields non-empty words without whitespace, and no words exactly for blank text |
| Text.FieldsKeepVisible | higress_deploy.py:289 | the words of `split()`, concatenated, are exactly the non-whitespace characters of the text in order |
| Text.FieldsOfStrip | higress_deploy.py:289 | `s.strip().split()` and `s.split()` agree |
| Text.SplitJoin | higress_deploy.py:591 | splitting `','.join(parts)` on `','` gives the parts back when no part contains a comma |
| Text.LowerMeaning | higress_deploy.py:697 | `lower()` maps each character and keeps the length |
| Text.ContainsLowerStrip | higress_deploy.py:697 | a phrase occurs in the lower-cased stripped output exactly when it occurs in the lower-cased raw output |
| Config.CertificateArn | higress_deploy.py:594 | the certificate is non-empty exactly when the `alb` section exists and holds a `certificate_arn` that is not blank |
| Descriptors.EksClusterConfig | higress_deploy.py:115-188 | `_create_eks_config` as a value; its promises are `EksSubnetPairing` (zone keys paired by zip with the first three subnets) and `EksNodeGroupCopied` (sizes copied unchecked, the private subnets) |
| Descriptors.ZoneNameInjective | higress_deploy.py:137 | the zone keys `region+'a'`, `region+'b'`, `region+'c'` are pairwise distinct |
| Descriptors.EksSubnetPairing | higress_deploy.py:135-143 | each subnet map pairs the i-th zone key with the i-th subnet for the first three subnets, holds no other key, and drops subnets past the third |
| Descriptors.EksNodeGroupCopied | higress_deploy.py:149-158 | one node group, whose sizes are copied from the configuration unchecked and whose subnets are the whole private list |
| Descriptors.HigressValues | higress_deploy.py:367-475 | the ALB mode gives a NodePort gateway with controller and console sections; otherwise an NLB LoadBalancer service; replicas, resources and autoscaling take the configured values or their defaults |
| Descriptors.ValuesReadOnlyHigressSection | higress_deploy.py:371-372 | the Helm values depend on the `higress` section alone |
| Descriptors.AlbIngress | higress_deploy.py:586-650 | subnets are the public subnets joined by `,`; health-check port `30080`; with a certificate: HTTP and HTTPS listeners, the stripped ARN, ssl-redirect `443` and the TLS 1.2 policy; without one: HTTP only and none of the three SSL keys |
| Descriptors.BaseAnnotations | higress_deploy.py:612-625 | the annotation map carries the given subnets and listeners and the fixed health-check port, and no SSL key |
| Descriptors.IngressSubnetsRoundTrip | higress_deploy.py:591 | splitting the subnets annotation on `,` gives back the configured public subnets |
| Descriptors.IngressTargetsGatewayNodePort | higress_deploy.py:617 | in ALB mode the ingress health-checks the gateway's `http` node port and routes to that port's service port |
| Descriptors.IngressDependsOnCertificateAndSubnets | higress_deploy.py:590-650 | the ingress depends only on the stripped certificate and the public subnets |
| Policy.ExtraPermissionsDistinct | higress_deploy.py:240-245 | the four extra permissions are pairwise distinct |
| Policy.HasElbActionMeansSome | higress_deploy.py:253 | a statement has an ELB action exactly when some action contains `elasticloadbalancing` |
| Policy.AddMissing | higress_deploy.py:256-258 | adding permissions only appends: the existing actions stay in front, in order |
| Policy.AddMissingContents | higress_deploy.py:256-258 | afterwards every permission is present, and nothing but the old actions and the permissions is |
| Policy.AddMissingAppendsMissing | higress_deploy.py:256-258 | the result is the old actions followed by exactly the absent permissions, in their listed order |
| Policy.AddMissingWhenPresent | higress_deploy.py:256-258 | when every permission is already present nothing changes |
| Policy.Augment | higress_deploy.py:248-258 | one statement's augmentation; its promises are `AugmentEffect`, `AugmentKeepsQualifying` and `AugmentTwice` |
| Policy.AugmentAll | higress_deploy.py:248-258 | the document keeps its length, and each statement is augmented on its own |
| Policy.AddMissingPermissions | higress_deploy.py:248-258 | the in-place loop leaves each array element the augmented version of what it held |
| Policy.AugmentStatement | higress_deploy.py:249-258 | the per-statement update computes the augmentation of that statement |
| Policy.AppendMissing | higress_deploy.py:256-258 | the per-permission loop appends exactly what adding the four extra permissions appends |
| Policy.AugmentEffect | higress_deploy.py:248-258 | statements that do not qualify (not `Allow`, `Action` not a list, or no ELB action) are unchanged; qualifying ones keep effect and other keys and gain exactly the missing permissions after their actions |
| Policy.AugmentKeepsQualifying | higress_deploy.py:249-254 | augmentation neither makes a statement qualify nor stops it from qualifying |
| Policy.AugmentTwice | higress_deploy.py:248-258 | augmenting a statement twice is augmenting it once |
| Policy.AugmentIdempotent | higress_deploy.py:248-258 | a second augmentation run over the document is a no-op |
| Policy.EvictionTarget | higress_deploy.py:288-293 | the version to evict; its promises are `EvictionChoosesFirstOfFour` and `EvictionIgnoresPadding` |
| Policy.EvictionChoosesFirstOfFour | higress_deploy.py:288-293 | a version is evicted exactly when the listing has at least four whitespace-separated versions, and it is the first listed, a non-empty word |
| Policy.EvictionIgnoresPadding | higress_deploy.py:288-289 | eviction decides the same on the raw and the stripped listing |
| Workflow.Prepare | higress_deploy.py:226-231 | the shared start (account query, download); its promises are `PrepareMeaning` |
| Workflow.PushVersion | higress_deploy.py:284-298 | the shared version update; its promises are `PushVersionEvictsFirstOfFour` |
| Workflow.PolicySetup | higress_deploy.py:276-304 | the lookup and then the update or the creation; its promises are `PolicySetupPath` and `PolicySetupOnSucceeding` |
| Workflow.InstallAlbRun | higress_deploy.py:218-363 | `install_alb_controller`; its promises are `InstallAlbUpdatesIffExists`, `InstallAlbCompletes` and `ControllerInstallLeavesPolicy` |
| Workflow.FixPermissionsRun | higress_deploy.py:1012-1082 | `fix_alb_permissions`; its promises are `FixPermissionsUploads`, `FixPermissionsNeverLooksUp` and `FixPermissionsOutcome`, with `PrepareMeaning` and `PushVersionEvictsFirstOfFour` for the shared steps |
| Workflow.FixPermissionsUploads | higress_deploy.py:1074-1077 | once started, the augmented document is uploaded as a new version |
| Workflow.FixPermissionsNeverLooksUp | higress_deploy.py:1020-1082 | the policy is never looked up or created: it is taken to exist |
| Workflow.FixPermissionsOutcome | higress_deploy.py:1074-1082 | once started, the operation completes exactly when the version is created and the restart and the rollout wait both exit zero |
| Workflow.DeployRun | higress_deploy.py:512-582 | `deploy_higress`; its promises are `DeployProceedsRegardless`, `DeployOutcome` and `DeployInstallFailure` |
| Workflow.CreateAlbRun | higress_deploy.py:659-762 | `create_alb` for a given ingress; its promises are `CreateAlbReplacesExisting` and `CreateAlbOutcome`, with the `Polls.AlbPoll` lemmas for the wait |
| Workflow.DeleteHigressRun | higress_deploy.py:808-857 | `delete_higress`; its promises are `DeleteHigressMeaning` and `DeleteHigressSteps` |
| Workflow.DeleteClusterRun | higress_deploy.py:865-917 | `delete_cluster`; its promises are `DeleteClusterMeaning`, `DeleteClusterSteps`, `DeleteClusterValue` and `DeleteClusterIgnoresRemovals` |
| Workflow.PrepareMeaning | higress_deploy.py:226-231 | the operation starts exactly when the account query and the download both exit zero; the account is the captured query text; otherwise it names the command that failed, and the download is issued only after a successful query |
| Workflow.PolicyExistsMeaning | higress_deploy.py:279 | the policy counts as existing exactly when the lookup text is non-empty and contains `Policy` |
| Workflow.PushVersionEvictsFirstOfFour | higress_deploy.py:284-298 | the update lists the versions, deletes the first one listed exactly when there are four or more, then creates the new version; it succeeds exactly when the creation exits zero |
| Workflow.PolicySetupPath | higress_deploy.py:276-304 | after the lookup, a new version is created exactly when the policy exists and the policy is created exactly when it does not; a failure names the command of the path taken |
| Workflow.ControllerInstallLeavesPolicy | higress_deploy.py:309-363 | the controller steps never create the policy or a policy version |
| Workflow.InstallAlbUpdatesIffExists | higress_deploy.py:226-304 | once started, the augmented document is uploaded as a new version exactly when the policy exists, and as a new policy exactly when it does not |
| Workflow.PolicySetupOnSucceeding | higress_deploy.py:276-304 | when every command succeeds the policy step succeeds |
| Workflow.InstallAlbCompletes | higress_deploy.py:218-363 | when every command succeeds the controller installation completes, whatever the endpoint probes print |
| Workflow.DeployProceedsRegardless | higress_deploy.py:519-531 | whatever the webhook checks find, the next command after them adds the Higress Helm repository |
| Workflow.DeployOutcome | higress_deploy.py:512-582 | the deployment completes, fails the install, or exits on one of the four checked repository or verification commands |
| Workflow.DeployInstallFailure | higress_deploy.py:543-577 | a failed install made exactly three install attempts and exactly two uninstalls |
| Workflow.DeployPrefixInstallsNothing | higress_deploy.py:519-536 | the webhook checks, the repository steps and the namespace creation neither install nor uninstall the release |
| Workflow.IngressExistsMeaning | higress_deploy.py:671 | an earlier ingress is found exactly when the lookup text is non-empty and contains `higress-alb` |
| Workflow.CreateAlbReplacesExisting | higress_deploy.py:667-681 | an earlier ingress is deleted, with a five-second pause, before the apply exactly when the lookup finds it; otherwise the apply follows the lookup |
| Workflow.CreateAlbOutcome | higress_deploy.py:659-762 | `create_alb` ends with a non-empty host name, a time-out without exiting, or an exit |
| Workflow.TerminatingMeaning | higress_deploy.py:852 | the namespace counts as stuck exactly when its query text is non-empty and contains `Terminating` |
| Workflow.DeleteHigressMeaning | higress_deploy.py:808-857 | nothing runs exactly when neither `force` nor the confirmation is given; otherwise the ingress and release are removed, 20 seconds pass, the namespace is deleted and queried, and finalizers are cleared exactly when it is terminating; it never exits |
| Workflow.DeleteHigressSteps | higress_deploy.py:830-857 | the confirmed trace is the fixed five steps, followed by the finalizer clear exactly when the namespace is terminating |
| Workflow.DeleteClusterMeaning | higress_deploy.py:865-917 | nothing runs unless `force` or the typed name equals the cluster name; otherwise the six unchecked removals, 30 seconds, the cluster deletion; only the deletion and the account query can end the program; on completion the last step deletes the account's policy |
| Workflow.DeleteClusterSteps | higress_deploy.py:889-917 | the confirmed trace is the removals, the pause, the deletion, then the account query and the policy deletion as far as the run got |
| Workflow.DeleteClusterValue | higress_deploy.py:910-917 | a confirmed teardown exits on a failed cluster deletion, then on a failed account query, and otherwise completes |
| Workflow.DeleteClusterIgnoresRemovals | higress_deploy.py:891-902 | the replies to the six removals do not affect the teardown's outcome or trace |
| Polls.EndpointPoll | higress_deploy.py:493-510 | the endpoint wait, also used with 30 probes at higress_deploy.py:345-357; its promises are `EndpointPollReady`, `EndpointPollTimeout`, `EndpointPollValue` and `EndpointPollOnlyProbes` |
| Polls.EndpointPollReady | higress_deploy.py:493-500 | the wait succeeds on the first probe whose output is not blank, after that many probe-and-sleep pairs |
| Polls.EndpointPollTimeout | higress_deploy.py:493-510 | when no probe shows an address, the wait fails after exactly `n` probes, each followed by a one-second sleep |
| Polls.EndpointPollValue | higress_deploy.py:493-510 | the wait succeeds exactly when one of the first `n` probe outputs is not blank |
| Polls.EndpointPollOnlyProbes | higress_deploy.py:493-507 | the wait issues only endpoint probes and one-second sleeps |
| Polls.WebhookCheck | higress_deploy.py:477-510 | `_wait_for_webhook_ready`; its promises are `WebhookMissing`, `WebhookReady`, `WebhookTimeout`, `WebhookCheckCounts` and `WebhookCheckIssues` |
| Polls.EnsureWebhook | higress_deploy.py:519-527 | the restart-once fallback; its promises are `RestartAtMostOnce` and `EnsureWebhookIssues` |
| Polls.ServiceMissingMeaning | higress_deploy.py:487 | the service counts as missing exactly when its lookup text is empty or contains `NotFound` |
| Polls.WebhookMissing | higress_deploy.py:482-490 | a missing service fails the check at once, with no endpoint probe |
| Polls.WebhookReady | higress_deploy.py:482-500 | with the service present, the check succeeds exactly when one of the 60 probe outputs after the lookup is not blank |
| Polls.WebhookTimeout | higress_deploy.py:493-510 | with the service present, a failed check has made exactly 60 probes |
| Polls.WebhookCheckCounts | higress_deploy.py:477-510 | one check looks the service up once and never restarts the controller |
| Polls.WebhookCheckIssues | higress_deploy.py:477-510 | one check issues only the service lookup, endpoint probes and one-second sleeps |
| Polls.EnsureWebhookIssues | higress_deploy.py:519-527 | the fallback issues only webhook checks, the controller restart and pauses |
| Polls.RestartAtMostOnce | higress_deploy.py:519-527 | the controller is restarted exactly when the first check fails, so at most once, and the service is looked up at most twice |
| Polls.InstallLoop | higress_deploy.py:543-577 | the three-attempt Helm install; its promises are `InstallLoopSucceeds`, `InstallLoopCounts`, `InstallLoopAfter` and `InstallLoopValue` |
| Polls.DeployedMeaning | higress_deploy.py:558 | an attempt counts as deployed exactly when the listing text is non-empty and contains `deployed` |
| Polls.InstallLoopAfter | higress_deploy.py:543-566 | after `k` failed listings the loop has made `k` cleaned-up attempts and goes on from attempt `k` |
| Polls.InstallLoopValue | higress_deploy.py:544-566 | an attempt succeeds when its listing says deployed; otherwise the loop succeeds only if a later attempt does |
| Polls.InstallLoopSucceeds | higress_deploy.py:543-577 | the install succeeds exactly when the listing of one of the remaining attempts mentions `deployed` |
| Polls.InstallLoopCounts | higress_deploy.py:543-577 | at most three installs; exactly one uninstall fewer than installs; a failed loop has made every remaining attempt |
| Polls.AlbRound | higress_deploy.py:690-725 | one round of the load balancer wait; its promises are `AlbRoundCalm`, `AlbRoundAlarmed`, `AlbRoundFound`, `AlbRoundCounts` and `CertificateBeforePermissions` |
| Polls.AlbPoll | higress_deploy.py:690-762 | the 40-round wait; its promises are `AlbPollRounds`, `AlbPollTimeoutRounds`, `AlbPollEnds` and `PollAfter` |
| Polls.EventAbortMeaning | higress_deploy.py:704-717 | the certificate abort happens exactly when the lower-cased events name a missing certificate, even beside a permission problem; the permission abort needs one of its two phrases; nothing else aborts |
| Polls.AlarmingIgnoresPadding | higress_deploy.py:697 | the alarm test gives the same answer on the raw and the stripped event text |
| Polls.EventAbortIgnoresPadding | higress_deploy.py:704-712 | the abort tests give the same answer on the raw and the stripped event text |
| Polls.AlbRoundCalm | higress_deploy.py:692-725 | a round without alarming events reads the events and then the host name, and does not abort |
| Polls.AlbRoundAlarmed | higress_deploy.py:697-722 | a round with alarming events reads them, describes the ingress, and reads the host name exactly when it does not abort |
| Polls.AlbRoundFound | higress_deploy.py:725 | a host name is found only when it is not empty |
| Polls.AlbRoundCounts | higress_deploy.py:690-725 | each round reads the events once, and the host name once unless it aborted, so the event check precedes the host name check |
| Polls.CertificateBeforePermissions | higress_deploy.py:704-717 | alarming events that name a missing certificate abort with the certificate reason, whatever else they say |
| Polls.PollAfter | higress_deploy.py:690-758 | after `k` rounds that found nothing, the wait goes on as the wait of the remaining rounds |
| Polls.PollRounds | higress_deploy.py:690 | for any round that reads the events once, a wait of `n` rounds reads them at most `n` times |
| Polls.PollTimeoutRounds | higress_deploy.py:690-762 | for such rounds, a timed-out wait has read the events and the host name exactly `n` times |
| Polls.PollEnds | higress_deploy.py:690-762 | for rounds that only find non-blank names, the wait ends with a host name, a time-out or an exit, and on success it last probes that host |
| Polls.AlbPollRounds | higress_deploy.py:690 | the load balancer wait runs at most its 40 rounds |
| Polls.AlbPollTimeoutRounds | higress_deploy.py:690-762 | the wait times out only after every round read the events and the host name |
| Polls.AlbPollEnds | higress_deploy.py:725-762 | the wait never reports success without a non-empty host name, last probes that host, and otherwise times out or exits |
| Deployer.HigressDeployer.RunCommand | higress_deploy.py:39-56 | issues the command, consumes one reply and returns `_run_command`'s outcome |
| Deployer.HigressDeployer.RunInOrder | higress_deploy.py:321-333 | checked commands in a row, as `Steps` says: stops at the first failure |
| Deployer.HigressDeployer.RunUnchecked | higress_deploy.py:891-902 | unchecked commands in a row: each is issued and takes its reply, whatever its exit code, as `Commands.Unchecked` says |
| Deployer.HigressDeployer.AccountId | higress_deploy.py:85-88 | the checked captured account query |
| Deployer.HigressDeployer.PollEndpoints | higress_deploy.py:345-357 | the probe loop yields exactly the endpoint wait's value, trace and remaining replies |
| Deployer.HigressDeployer.WaitForWebhookReady | higress_deploy.py:477-510 | `_wait_for_webhook_ready` as the webhook check says |
| Deployer.HigressDeployer.InstallAttempt | higress_deploy.py:545-558 | one attempt: a pause on retries, the install, the listing; deployed exactly when the listing mentions `deployed` |
| Deployer.HigressDeployer.InstallWithRetries | higress_deploy.py:543-577 | the retry loop yields exactly the install loop's value, trace and remaining replies |
| Deployer.HigressDeployer.EnsureWebhook | higress_deploy.py:519-527 | the restart-once fallback, as `Polls.EnsureWebhook` says |
| Deployer.HigressDeployer.FetchPolicy | higress_deploy.py:226-231 | the account query and the policy download, as `Workflow.Prepare` says |
| Deployer.HigressDeployer.PushVersion | higress_deploy.py:284-298 | the version update with eviction, as `Workflow.PushVersion` says |
| Deployer.HigressDeployer.SetUpPolicy | higress_deploy.py:276-304 | the lookup, then the update or the creation, as `Workflow.PolicySetup` says |
| Deployer.HigressDeployer.InstallController | higress_deploy.py:309-363 | the controller steps, the 30-probe wait, the pause and the deployment query |
| Deployer.HigressDeployer.InstallAlbController | higress_deploy.py:218-363 | `install_alb_controller`: its trace and outcome follow `Workflow.InstallAlbRun`, and the downloaded statements are augmented in place once the download succeeded |
| Deployer.HigressDeployer.FixAlbPermissions | higress_deploy.py:1012-1082 | `fix_alb_permissions`: the same start and augmentation, the version push without lookup, the checked restart and rollout wait |
| Deployer.HigressDeployer.DeployHigress | higress_deploy.py:512-582 | `deploy_higress` as `Workflow.DeployRun` says |
| Deployer.HigressDeployer.ReadHostname | higress_deploy.py:720-725 | the host name query: found exactly when the text is not empty |
| Deployer.HigressDeployer.WatchRound | higress_deploy.py:692-725 | one round of the load balancer wait as `Polls.AlbRound` says |
| Deployer.HigressDeployer.WaitForAlb | higress_deploy.py:690-762 | the 40-round loop yields exactly the wait's outcome, trace and remaining replies |
| Deployer.HigressDeployer.ClearIngress | higress_deploy.py:667-674 | the ingress is deleted, then a five-second pause, exactly when the lookup finds it |
| Deployer.HigressDeployer.CreateAlb | higress_deploy.py:659-762 | `create_alb` applying the configured ingress, as `Workflow.CreateAlbRun` says |
| Deployer.HigressDeployer.DeleteHigress | higress_deploy.py:808-857 | `delete_higress` as `Workflow.DeleteHigressRun` says |
| Deployer.HigressDeployer.DeleteEksCluster | higress_deploy.py:865-917 | `delete_cluster` as `Workflow.DeleteClusterRun` says |
| Capacity.Classify | test_capcity.py:71-81 | an error is `True` exactly when it contains `DryRunOperation`, and `False` exactly when it does not but contains `InsufficientInstanceCapacity`; otherwise `None` |
| Capacity.ProbeZones | test_capcity.py:39-81 | the nested loops build exactly the results `ProbeAll` describes |
| Capacity.Verdicts | test_capcity.py:61-81 | one zone's verdict map; its promises are `VerdictsMeaning` |
| Capacity.ProbeAll | test_capcity.py:39-81 | the whole results map; its promises are `ProbeAllMeaning`, and `ProbeZones` computes it |
| Capacity.VerdictsMeaning | test_capcity.py:61-81 | a type gets an entry exactly when its dry run raised, and the entry is the classification of that error |
| Capacity.ProbeAllMeaning | test_capcity.py:41-59 | a zone gets results exactly when it has a subnet in the VPC; they use its first subnet and that subnet's verdicts |
| Capacity.QualifiesMeansEveryDryRunPassed | test_capcity.py:71-91 | a probed zone qualifies exactly when every type's dry run raised a `DryRunOperation` error |
| Capacity.Good | test_capcity.py:88-91 | only zones from the results are recommended |
| Capacity.GoodZones | test_capcity.py:88-91 | the collecting loop yields exactly the recommended zones |
| Capacity.GoodMeaning | test_capcity.py:88-91 | a zone is recommended exactly when every probed type recorded `True`: a `False`, a `None` or a missing entry excludes it |
| Capacity.GoodKeepsOrder | test_capcity.py:88-91 | recommending from a prefix of the zones gives a prefix of the recommendations, so the order of the results is kept |
| Capacity.Pairs | test_capcity.py:95-96 | each recommended zone is listed with its subnet, in order |
| Capacity.Advise | test_capcity.py:93-108 | the recommendation; its promises are `AdviseMeaning` |
| Capacity.AdviseMeaning | test_capcity.py:93-108 | the no-capacity advice is given exactly when no zone qualifies; otherwise all recommended zones are listed with their subnets and the suggested configuration holds the first three at most |

## Left out

- `create_eks_cluster`, `_check_prerequisites`, `_tag_subnets`, `get_status` and `_load_config`: cluster creation, tool and display plumbing outside the modelled core; the configuration is taken as already parsed.
- The command-line wiring (`cli`, `init` and its template, `create`, `install_alb`, `deploy`, `create_lb`, `install_all` with its catch-all handler, `status`, `clean`, `delete`): entry points that call the modelled operations.
- Shell execution, `boto3`, and what `aws`, `eksctl`, `kubectl`, `helm` and `curl` do: each command's result is a scripted reply. An exhausted script answers as a command that succeeded and printed nothing.
- `time.sleep` is recorded as a `Slept` event; wall-clock time is not modelled.
- Terminal output (`click.echo`, the progress messages every few probes or rounds, and in `test_capcity.py` the formatting of the advice and the printed region and VPC lines; the advice itself is `Capacity.Advise`), and the `click.confirm` and `click.prompt` answers, which become the parameters `confirmed` and `typed`.
- YAML and JSON serialisation, and the files written (`eks-cluster-config.yaml`, `higress-values.yaml`, `higress-alb-ingress.yaml`, `iam-policy.json`, `alb-endpoint.txt`). Descriptors are datatypes and maps; the uploaded policy document travels inside the command value.
- The augmentation's `except Exception` fallback (a policy file that cannot be read or parsed): it is error plumbing that only reports and continues.
- The result of the final `curl` probe in `create_alb`: it is only reported.
- The AMI lookup and the zone listing in `test_capcity.py`: they become the inputs `zones`, `subnetsOf` and `launch`. A dry run that raises no exception is `launch` returning `None`.
- Text.Lower: lower-cases ASCII letters only, because Python's Unicode case mapping is not modelled; the phrases searched for are ASCII.
- Descriptors.AlbIngress: annotations are a map keyed by an enumeration, so the order of the annotation dictionary is not modelled.
- Descriptors.HigressValues: its contract states the mode choice and the configurable values with their defaults; the constant fields (ports, probes, console and controller settings) are stated only by its body.
- Config.CertificateArn: a present-but-null `alb` section or `certificate_arn` key (an empty YAML value) is not modelled. Python raises `AttributeError` on it at higress_deploy.py:594 and 730. The model has only "present with a string" or "absent", and treats absent as `''`.
- Config.HigressOf: a present-but-null `higress` section, which crashes at higress_deploy.py:372, and null values under it, which Python passes on as `None` (for example `replicas` at 385), are not modelled. An absent key takes its default.
