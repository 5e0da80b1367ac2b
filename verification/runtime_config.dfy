/** The runtime configuration `initialize` builds for the native library from the
    user's YAML file, the environment and the node's chain parameters. */
module RuntimeConfig {
  import opened Wrappers
  import opened JavaNumbers
  import opened JsonTree
  import JavaStrings

  const DefaultLogLevel: string := "info"
  const DefaultProcessorName: string := "teku"
  /** The value written both as the ethereum `implementation` and as the client `name`. */
  const Teku: string := "teku"

  /** What the node knows about its chain when it starts the sidecar. */
  datatype ChainParams = ChainParams(
    genesisTime: Long,
    networkName: string,
    networkId: Long,
    slotsPerEpoch: Int,
    secondsPerSlot: Int)

  datatype Network = Network(name: string, id: Long)

  datatype Ethereum = Ethereum(
    implementation: string,
    genesisTime: Long,
    secondsPerSlot: Int,
    slotsPerEpoch: Int,
    network: Network)

  datatype Client = Client(name: string, version: string)

  datatype Processor = Processor(
    name: string,
    outputs: Option<Json>,
    ethereum: Ethereum,
    client: Client,
    ntpServer: Option<string>)

  /** The full configuration document handed to the native `Init`. */
  datatype Config = Config(logLevel: string, processor: Processor)

  /** The sidecar runs only when the user's `enabled` field is present and reads as true. */
  predicate Enabled(user: Json) {
    var node := Get(user, "enabled");
    node.Some? && AsBoolean(node.value, false)
  }

  /** The `ethereum.overrideNetworkName` node of the user's configuration, if any. */
  function NetworkOverride(user: Json): (r: Option<Json>)
    ensures r.Some? ==> user.JObject? && "ethereum" in user.fields
    ensures r.Some? <==>
      && user.JObject? && "ethereum" in user.fields
      && user.fields["ethereum"].JObject? && "overrideNetworkName" in user.fields["ethereum"].fields
    ensures r.Some? ==> r.value == user.fields["ethereum"].fields["overrideNetworkName"]
  {
    match Get(user, "ethereum")
    case None => None
    case Some(ethereum) => Get(ethereum, "overrideNetworkName")
  }

  /** The network name: the override's text when the override is present and its text is
      not empty, otherwise the name the node supplied. */
  function ResolveNetworkName(user: Json, networkName: string): (r: string)
    ensures NetworkOverride(user).Some? && AsText(NetworkOverride(user).value) != ""
      ==> r == AsText(NetworkOverride(user).value)
    ensures NetworkOverride(user).None? || AsText(NetworkOverride(user).value) == ""
      ==> r == networkName
  {
    match NetworkOverride(user)
    case Some(node) => if AsText(node) != "" then AsText(node) else networkName
    case None => networkName
  }

  /** The configuration built for an enabled user configuration. `logLevelEnv` is the
      `XATU_LOG_LEVEL` environment variable and `version` the node's implementation
      version. Defaults apply only to absent entries; `outputs` and `ntpServer` appear
      only when the user gave them. */
  function Resolve(user: Json, logLevelEnv: Option<string>, chain: ChainParams, version: string)
    : (r: Config)
    ensures r.logLevel == logLevelEnv.GetOr(DefaultLogLevel)
    ensures Get(user, "name").None? ==> r.processor.name == DefaultProcessorName
    ensures Get(user, "name").Some? ==> r.processor.name == AsText(Get(user, "name").value)
    ensures r.processor.outputs == Get(user, "outputs")
    ensures r.processor.ntpServer.Some? <==> Get(user, "ntpServer").Some?
    ensures r.processor.ntpServer.Some? ==> r.processor.ntpServer.value == AsText(Get(user, "ntpServer").value)
    ensures r.processor.ethereum.network == Network(ResolveNetworkName(user, chain.networkName), chain.networkId)
    ensures r.processor.ethereum.implementation == Teku && r.processor.client == Client(Teku, version)
    ensures r.processor.ethereum.genesisTime == chain.genesisTime
    ensures r.processor.ethereum.slotsPerEpoch == chain.slotsPerEpoch
    ensures r.processor.ethereum.secondsPerSlot == chain.secondsPerSlot
  {
    var name := match Get(user, "name")
      case Some(node) => AsText(node)
      case None => DefaultProcessorName;
    var ntpServer := match Get(user, "ntpServer")
      case Some(node) => Some(AsText(node))
      case None => None;
    var network := Network(ResolveNetworkName(user, chain.networkName), chain.networkId);
    var ethereum := Ethereum(Teku, chain.genesisTime, chain.secondsPerSlot, chain.slotsPerEpoch, network);
    Config(
      logLevelEnv.GetOr(DefaultLogLevel),
      Processor(name, Get(user, "outputs"), ethereum, Client(Teku, version), ntpServer))
  }

  /** A non-empty text override names the network whatever the node supplied; an
      empty one is ignored. */
  lemma TextOverrideNamesNetwork(user: Json, networkName: string, ethereum: map<string, Json>, t: string)
    requires user.JObject? && "ethereum" in user.fields
    requires user.fields["ethereum"] == JObject(ethereum)
    requires "overrideNetworkName" in ethereum && ethereum["overrideNetworkName"] == JText(t)
    ensures t != "" ==> ResolveNetworkName(user, networkName) == t
    ensures t == "" ==> ResolveNetworkName(user, networkName) == networkName
  {
  }

  /** An override written as YAML `null` is present, and Jackson renders it as the text
      `null`, so the network is then named `null`. */
  lemma NullOverrideNamesNetworkNull(user: Json, networkName: string, ethereum: map<string, Json>)
    requires user.JObject? && "ethereum" in user.fields
    requires user.fields["ethereum"] == JObject(ethereum)
    requires "overrideNetworkName" in ethereum && ethereum["overrideNetworkName"] == JNull
    ensures ResolveNetworkName(user, networkName) == "null"
  {
  }

  /** Only a boolean `true`, a non-zero integer or the text `true` (up to surrounding
      blanks) enables the sidecar; a missing field, `null` or a container does not. */
  lemma EnabledValues(user: Json)
    ensures Get(user, "enabled").None? ==> !Enabled(user)
    ensures Get(user, "enabled") == Some(JBool(true)) ==> Enabled(user)
    ensures Get(user, "enabled") == Some(JNull) ==> !Enabled(user)
    ensures Get(user, "enabled") == Some(JText("false")) ==> !Enabled(user)
    ensures Get(user, "enabled") == Some(JText(" true ")) ==> Enabled(user)
  {
    assert " true "[1..] == "true ";
    assert JavaStrings.TrimStart(" true ") == "true ";
    assert "true "[..4] == "true";
    assert JavaStrings.TrimEnd("true ") == "true";
    assert JavaStrings.Trim(" true ") == "true";
  }
}
