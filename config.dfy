/** The deployment configuration (`config.yaml`), loaded once and read by
    every step. Keys that the tool reads with `dict.get(key, default)` are
    optional here; keys it reads with `config[...]` are required fields. */
module Config {
  import opened Wrappers
  import Text

  /** The `eks` section. */
  datatype EksSection = EksSection(
    clusterName: string,
    kubernetesVersion: string,
    nodeGroupName: string,
    instanceType: string,
    desiredCapacity: int,
    minSize: int,
    maxSize: int,
    volumeSize: int)

  /** The `higress` section; every key is optional. */
  datatype HigressSection = HigressSection(
    useAlb: Option<bool>,
    replicas: Option<int>,
    cpuRequest: Option<string>,
    memoryRequest: Option<string>,
    cpuLimit: Option<string>,
    memoryLimit: Option<string>,
    enableAutoscaling: Option<bool>,
    minReplicas: Option<int>,
    maxReplicas: Option<int>)

  /** The `alb` section; its one key is optional. */
  datatype AlbSection = AlbSection(certificateArn: Option<string>)

  /** The whole file: `aws.region`, the `vpc` section, `eks`, and the two
      optional sections `higress` and `alb`. */
  datatype Configuration = Configuration(
    region: string,
    vpcId: string,
    publicSubnets: seq<string>,
    privateSubnets: seq<string>,
    eks: EksSection,
    higress: Option<HigressSection>,
    alb: Option<AlbSection>)

  /** A `higress` section with no keys. */
  const EmptyHigress := HigressSection(None, None, None, None, None, None, None, None, None)

  /** `config.get('higress', {})`: a missing section reads as an empty one. */
  function HigressOf(cfg: Configuration): HigressSection
  {
    cfg.higress.GetOr(EmptyHigress)
  }

  /** `config.get('alb', {}).get('certificate_arn', '').strip()`. */
  function CertificateArn(cfg: Configuration): (arn: string)
    ensures arn != [] <==> (cfg.alb.Some? && cfg.alb.value.certificateArn.Some?
                             && !Text.Blank(cfg.alb.value.certificateArn.value))
  {
    // A missing section or key reads as '', whose stripped form is ''.
    if cfg.alb.Some? && cfg.alb.value.certificateArn.Some? then
      Text.StripMeaning(cfg.alb.value.certificateArn.value);
      Text.Strip(cfg.alb.value.certificateArn.value)
    else
      ""
  }

  /** `higress_config.get('use_alb', True)`: the ALB (NodePort gateway) mode
      unless the key says otherwise. */
  function UseAlb(cfg: Configuration): bool
  {
    HigressOf(cfg).useAlb.GetOr(true)
  }
}
