/** The three resource descriptors the tool regenerates from the
    configuration before each step that uses them: the eksctl cluster
    topology, the Higress Helm values and the ALB Ingress manifest. They are
    modelled as structured values; their YAML serialisation and the files
    they are written to are not part of this model. */
module Descriptors {
  import opened Wrappers
  import opened Config
  import Text

  function Min(a: int, b: int): int
  {
    if a <= b then a else b
  }

  /** Decimal rendering of a natural number, as YAML and annotations carry
      ports. */
  function Decimal(n: nat): string
  {
    var d := ['0', '1', '2', '3', '4', '5', '6', '7', '8', '9'][n % 10];
    if n < 10 then [d] else Decimal(n / 10) + [d]
  }

  // ---------------------------------------------------------------------
  // Cluster topology (eksctl ClusterConfig)
  // ---------------------------------------------------------------------

  datatype SubnetRef = SubnetRef(id: string)

  datatype NodeGroup = NodeGroup(
    name: string,
    instanceType: string,
    desiredCapacity: int,
    minSize: int,
    maxSize: int,
    volumeSize: int,
    volumeType: string,
    privateNetworking: bool,
    subnets: seq<string>,
    labels: map<string, string>,
    tags: map<string, string>,
    addonPolicies: map<string, bool>)

  datatype ClusterConfig = ClusterConfig(
    apiVersion: string,
    kind: string,
    name: string,
    region: string,
    version: string,
    vpcId: string,
    publicSubnets: map<string, SubnetRef>,
    privateSubnets: map<string, SubnetRef>,
    withOidc: bool,
    managedNodeGroups: seq<NodeGroup>,
    clusterLogging: seq<string>)

  /** The availability-zone letters the subnets are assigned to, in order. */
  const ZoneLetters: seq<char> := ['a', 'b', 'c']

  /** The zone name of slot `i`: the region followed by its letter. */
  function ZoneName(region: string, i: nat): string
    requires i < |ZoneLetters|
  {
    region + [ZoneLetters[i]]
  }

  /** Distinct slots give distinct zone names. */
  lemma ZoneNameInjective(region: string, i: nat, j: nat)
    requires i < |ZoneLetters| && j < |ZoneLetters|
    requires ZoneName(region, i) == ZoneName(region, j)
    ensures i == j
  {
    assert ZoneName(region, i)[|region|] == ZoneLetters[i];
    assert ZoneName(region, j)[|region|] == ZoneLetters[j];
  }

  /** `{f"{region}{az}": {'id': subnet} for az, subnet in zip(azs, subnets)}`:
      zip stops at the shorter list, so at most three entries. */
  function ZoneMap(region: string, subnets: seq<string>): map<string, SubnetRef>
  {
    var n := Min(|ZoneLetters|, |subnets|);
    assert forall i, j | 0 <= i < n && 0 <= j < n && ZoneName(region, i) == ZoneName(region, j) :: i == j by {
      forall i, j | 0 <= i < n && 0 <= j < n && ZoneName(region, i) == ZoneName(region, j)
        ensures i == j
      {
        ZoneNameInjective(region, i, j);
      }
    }
    map i | 0 <= i < n :: ZoneName(region, i) := SubnetRef(subnets[i])
  }

  /** `_create_eks_config`: the eksctl cluster descriptor. */
  function EksClusterConfig(cfg: Configuration): ClusterConfig
  {
    ClusterConfig(
      "eksctl.io/v1alpha5",
      "ClusterConfig",
      cfg.eks.clusterName,
      cfg.region,
      cfg.eks.kubernetesVersion,
      cfg.vpcId,
      ZoneMap(cfg.region, cfg.publicSubnets),
      ZoneMap(cfg.region, cfg.privateSubnets),
      true,
      [NodeGroup(
        cfg.eks.nodeGroupName,
        cfg.eks.instanceType,
        cfg.eks.desiredCapacity,
        cfg.eks.minSize,
        cfg.eks.maxSize,
        cfg.eks.volumeSize,
        "gp3",
        true,
        cfg.privateSubnets,
        map["role" := "higress", "environment" := "production"],
        map["Name" := "higress-node", "Environment" := "production"],
        map["autoScaler" := true, "albIngress" := true, "cloudWatch" := true, "ebs" := true])],
      ["api", "audit", "authenticator", "controllerManager", "scheduler"])
  }

  /** The subnet maps pair zone slot `i` with the `i`-th configured subnet,
      for the first three subnets only; every key is one of those slots'
      zone names, so a fourth subnet is dropped. */
  lemma {:induction false} EksSubnetPairing(cfg: Configuration, subnets: seq<string>, m: map<string, SubnetRef>)
    requires (subnets, m) == (cfg.publicSubnets, EksClusterConfig(cfg).publicSubnets)
          || (subnets, m) == (cfg.privateSubnets, EksClusterConfig(cfg).privateSubnets)
    ensures forall i | 0 <= i < |ZoneLetters| && i < |subnets| ::
      ZoneName(cfg.region, i) in m && m[ZoneName(cfg.region, i)] == SubnetRef(subnets[i])
    ensures forall z | z in m :: exists i | 0 <= i < |ZoneLetters| && i < |subnets| :: z == ZoneName(cfg.region, i)
    ensures forall i | 0 <= i < |ZoneLetters| && |subnets| <= i :: ZoneName(cfg.region, i) !in m
  {
    var n := Min(|ZoneLetters|, |subnets|);
    assert m == ZoneMap(cfg.region, subnets);
    forall i | 0 <= i < |ZoneLetters| && i < |subnets|
      ensures ZoneName(cfg.region, i) in m && m[ZoneName(cfg.region, i)] == SubnetRef(subnets[i])
    {
      assert i < n;
      forall j | 0 <= j < n && ZoneName(cfg.region, j) == ZoneName(cfg.region, i)
        ensures j == i
      {
        ZoneNameInjective(cfg.region, i, j);
      }
    }
    forall i | 0 <= i < |ZoneLetters| && |subnets| <= i
      ensures ZoneName(cfg.region, i) !in m
    {
      if ZoneName(cfg.region, i) in m {
        var j :| 0 <= j < n && ZoneName(cfg.region, j) == ZoneName(cfg.region, i);
        ZoneNameInjective(cfg.region, i, j);
      }
    }
  }

  /** The node group takes its sizing from the configuration as it stands:
      no ordering between minimum, desired and maximum is checked, and its
      subnets are the whole private list. */
  lemma EksNodeGroupCopied(cfg: Configuration)
    ensures var groups := EksClusterConfig(cfg).managedNodeGroups;
      |groups| == 1
      && groups[0].minSize == cfg.eks.minSize
      && groups[0].desiredCapacity == cfg.eks.desiredCapacity
      && groups[0].maxSize == cfg.eks.maxSize
      && groups[0].volumeSize == cfg.eks.volumeSize
      && groups[0].subnets == cfg.privateSubnets
  {
  }

  // ---------------------------------------------------------------------
  // Higress Helm values
  // ---------------------------------------------------------------------

  datatype Resources = Resources(cpuRequest: string, memoryRequest: string, cpuLimit: string, memoryLimit: string)

  datatype ServicePort = ServicePort(name: string, port: int, targetPort: int, nodePort: int)

  datatype Service =
    | NodePortService(ports: seq<ServicePort>)
    | LoadBalancerService(annotations: map<string, string>)
    | ClusterIpService

  /** Required pod anti-affinity on a label, spread over a topology key. */
  datatype AntiAffinity = AntiAffinity(labelKey: string, operator: string, values: seq<string>, topologyKey: string)

  datatype DisruptionBudget = DisruptionBudget(enabled: bool, minAvailable: int)

  datatype Autoscaling = Autoscaling(enabled: bool, minReplicas: int, maxReplicas: int, targetCpuPercent: int, targetMemoryPercent: int)

  datatype Gateway = Gateway(
    replicas: int,
    resources: Resources,
    service: Service,
    antiAffinity: Option<AntiAffinity>,
    disruptionBudget: Option<DisruptionBudget>,
    autoscaling: Option<Autoscaling>)

  datatype Controller = Controller(replicas: int, resources: Resources)

  datatype Console = Console(enabled: bool, replicas: int, service: Service, resources: Resources)

  datatype HelmValues = HelmValues(
    local: bool,
    o11yEnabled: bool,
    gateway: Gateway,
    controller: Option<Controller>,
    console: Option<Console>)

  const HttpNodePort := 30080
  const HttpsNodePort := 30443

  const NlbAnnotations: map<string, string> := map[
    "service.beta.kubernetes.io/aws-load-balancer-type" := "nlb",
    "service.beta.kubernetes.io/aws-load-balancer-scheme" := "internet-facing",
    "service.beta.kubernetes.io/aws-load-balancer-cross-zone-load-balancing-enabled" := "true"]

  /** `_create_higress_values`: ALB mode exposes the gateway on fixed node
      ports behind anti-affinity, a disruption budget and an autoscaler, all
      sized from the `higress` section with defaults; NLB mode puts the
      gateway behind a LoadBalancer service with fixed sizing. */
  function HigressValues(cfg: Configuration): (v: HelmValues)
    ensures UseAlb(cfg) <==> v.gateway.service.NodePortService?
    ensures !UseAlb(cfg) <==> v.gateway.service == LoadBalancerService(NlbAnnotations)
    ensures v.gateway.replicas == HigressOf(cfg).replicas.GetOr(3)
    ensures UseAlb(cfg) ==> v.gateway.resources == Resources(
      HigressOf(cfg).cpuRequest.GetOr("1000m"), HigressOf(cfg).memoryRequest.GetOr("2Gi"),
      HigressOf(cfg).cpuLimit.GetOr("2000m"), HigressOf(cfg).memoryLimit.GetOr("4Gi"))
    ensures !UseAlb(cfg) ==> v.gateway.resources == Resources("1000m", "2Gi", "2000m", "4Gi")
    ensures UseAlb(cfg) ==> v.gateway.autoscaling == Some(Autoscaling(
      HigressOf(cfg).enableAutoscaling.GetOr(true), HigressOf(cfg).minReplicas.GetOr(3),
      HigressOf(cfg).maxReplicas.GetOr(10), 70, 80))
    ensures UseAlb(cfg) ==> v.gateway.disruptionBudget == Some(DisruptionBudget(true, 2))
    ensures UseAlb(cfg) <==> v.controller.Some? && v.console.Some?
  {
    var h := HigressOf(cfg);
    if UseAlb(cfg) then
      HelmValues(
        false,
        true,
        Gateway(
          h.replicas.GetOr(3),
          Resources(h.cpuRequest.GetOr("1000m"), h.memoryRequest.GetOr("2Gi"),
                    h.cpuLimit.GetOr("2000m"), h.memoryLimit.GetOr("4Gi")),
          NodePortService([ServicePort("http", 80, 80, HttpNodePort),
                           ServicePort("https", 443, 443, HttpsNodePort)]),
          Some(AntiAffinity("app", "In", ["higress-gateway"], "kubernetes.io/hostname")),
          Some(DisruptionBudget(true, 2)),
          Some(Autoscaling(h.enableAutoscaling.GetOr(true), h.minReplicas.GetOr(3),
                           h.maxReplicas.GetOr(10), 70, 80))),
        Some(Controller(2, Resources("500m", "1Gi", "1000m", "2Gi"))),
        Some(Console(true, 2, ClusterIpService, Resources("200m", "512Mi", "500m", "1Gi"))))
    else
      HelmValues(
        false,
        true,
        Gateway(
          h.replicas.GetOr(3),
          Resources("1000m", "2Gi", "2000m", "4Gi"),
          LoadBalancerService(NlbAnnotations),
          None,
          None,
          None),
        None,
        None)
  }

  /** The values depend on the `higress` section only, and a missing section
      behaves exactly like an empty one. */
  lemma ValuesReadOnlyHigressSection(a: Configuration, b: Configuration)
    requires HigressOf(a) == HigressOf(b)
    ensures HigressValues(a) == HigressValues(b)
  {
  }

  // ---------------------------------------------------------------------
  // ALB Ingress
  // ---------------------------------------------------------------------

  datatype Ingress = Ingress(
    name: string,
    namespace: string,
    annotations: map<AnnotationKey, string>,
    ingressClassName: string,
    path: string,
    pathType: string,
    backendService: string,
    backendPort: int)

  /** The `alb.ingress.kubernetes.io/...` annotations the tool sets. */
  datatype AnnotationKey =
    | Scheme | TargetType | Subnets | HealthCheckPath | HealthCheckPort | HealthCheckProtocol
    | HealthCheckInterval | HealthCheckTimeout | HealthyThreshold | UnhealthyThreshold
    | ListenPorts | Tags | Certificate | SslRedirect | SslPolicy

  /** The annotation's name as written in the manifest. */
  function AnnotationName(k: AnnotationKey): string
  {
    "alb.ingress.kubernetes.io/" +
    match k
    case Scheme => "scheme"
    case TargetType => "target-type"
    case Subnets => "subnets"
    case HealthCheckPath => "healthcheck-path"
    case HealthCheckPort => "healthcheck-port"
    case HealthCheckProtocol => "healthcheck-protocol"
    case HealthCheckInterval => "healthcheck-interval-seconds"
    case HealthCheckTimeout => "healthcheck-timeout-seconds"
    case HealthyThreshold => "healthy-threshold-count"
    case UnhealthyThreshold => "unhealthy-threshold-count"
    case ListenPorts => "listen-ports"
    case Tags => "tags"
    case Certificate => "certificate-arn"
    case SslRedirect => "ssl-redirect"
    case SslPolicy => "ssl-policy"
  }

  const HttpOnlyListeners := "[{\"HTTP\": 80}]"
  const HttpAndHttpsListeners := "[{\"HTTP\": 80}, {\"HTTPS\": 443}]"
  const TlsPolicy := "ELBSecurityPolicy-TLS-1-2-2017-01"

  /** `_create_alb_ingress`: an internet-facing, instance-targeted ALB whose
      health checks go to the gateway's HTTP node port. A non-blank
      certificate ARN is the one switch between an HTTP-only listener and
      HTTP + HTTPS with the certificate and TLS annotations. */
  function AlbIngress(cfg: Configuration): (ing: Ingress)
    ensures Subnets in ing.annotations && ing.annotations[Subnets] == Text.Join(cfg.publicSubnets, ',')
    ensures HealthCheckPort in ing.annotations && ing.annotations[HealthCheckPort] == "30080"
    ensures CertificateArn(cfg) != "" ==>
      && ing.annotations.Keys >= {ListenPorts, Certificate, SslRedirect, SslPolicy}
      && ing.annotations[ListenPorts] == HttpAndHttpsListeners
      && ing.annotations[Certificate] == CertificateArn(cfg)
      && ing.annotations[SslRedirect] == "443"
      && ing.annotations[SslPolicy] == TlsPolicy
    ensures CertificateArn(cfg) == "" ==>
      && ListenPorts in ing.annotations
      && ing.annotations[ListenPorts] == HttpOnlyListeners
      && Certificate !in ing.annotations
      && SslRedirect !in ing.annotations
      && SslPolicy !in ing.annotations
  {
    var arn := CertificateArn(cfg);
    var hasCertificate := arn != "";
    var listenPorts := if hasCertificate then HttpAndHttpsListeners else HttpOnlyListeners;
    var base := BaseAnnotations(Text.Join(cfg.publicSubnets, ','), listenPorts);
    var annotations :=
      if hasCertificate then
        base[Certificate := arn][SslRedirect := "443"][SslPolicy := TlsPolicy]
      else base;
    Ingress("higress-alb", "higress-system", annotations, "alb", "/", "Prefix", "higress-gateway", 80)
  }

  /** The annotations every Ingress carries; none of them is a TLS one. */
  function BaseAnnotations(subnets: string, listenPorts: string): (m: map<AnnotationKey, string>)
    ensures Subnets in m && m[Subnets] == subnets
    ensures HealthCheckPort in m && m[HealthCheckPort] == "30080"
    ensures ListenPorts in m && m[ListenPorts] == listenPorts
    ensures Certificate !in m && SslRedirect !in m && SslPolicy !in m
  {
    FixedAnnotations() + map[Subnets := subnets, HealthCheckPort := "30080", ListenPorts := listenPorts]
  }

  /** The annotations whose values do not depend on the configuration. */
  function FixedAnnotations(): (m: map<AnnotationKey, string>)
    ensures Certificate !in m && SslRedirect !in m && SslPolicy !in m
  {
    map[
      Scheme := "internet-facing",
      TargetType := "instance",
      HealthCheckPath := "/",
      HealthCheckProtocol := "HTTP",
      HealthCheckInterval := "30",
      HealthCheckTimeout := "5",
      HealthyThreshold := "2",
      UnhealthyThreshold := "3",
      Tags := "Environment=production,Application=higress"]
  }

  /** The subnets annotation lists the public subnets in order: splitting it
      on ',' gives them back, when no subnet id contains a comma. */
  lemma IngressSubnetsRoundTrip(cfg: Configuration)
    requires cfg.publicSubnets != []
    requires forall i | 0 <= i < |cfg.publicSubnets| :: ',' !in cfg.publicSubnets[i]
    ensures Text.SplitOn(AlbIngress(cfg).annotations[Subnets], ',') == cfg.publicSubnets
  {
    Text.SplitJoin(cfg.publicSubnets, ',');
  }

  /** In ALB mode the Ingress health-checks, and routes to, the port the
      gateway service actually exposes: the health-check port annotation is
      the decimal form of the gateway's HTTP node port, and the backend port
      is that service port's `port`. */
  lemma IngressTargetsGatewayNodePort(cfg: Configuration)
    requires UseAlb(cfg)
    ensures var ports := HigressValues(cfg).gateway.service.ports;
      exists p | p in ports :: p.name == "http"
        && AlbIngress(cfg).annotations[HealthCheckPort] == Decimal(p.nodePort)
        && AlbIngress(cfg).backendPort == p.port
  {
    var p := ServicePort("http", 80, 80, HttpNodePort);
    assert p in HigressValues(cfg).gateway.service.ports;
    assert Decimal(3) == "3";
    assert Decimal(30) == "30";
    assert Decimal(300) == "300";
    assert Decimal(3008) == "3008";
    assert Decimal(30080) == "30080";
  }

  /** Two configurations with the same stripped certificate and the same
      public subnets give the same Ingress: nothing else in the
      configuration reaches it. */
  lemma IngressDependsOnCertificateAndSubnets(a: Configuration, b: Configuration)
    requires CertificateArn(a) == CertificateArn(b) && a.publicSubnets == b.publicSubnets
    ensures AlbIngress(a) == AlbIngress(b)
  {
  }
}
