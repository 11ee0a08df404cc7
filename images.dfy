/**
 * Image-reference resolution: which container image a server of a given type and
 * version runs, how a configured private registry rewrites every image reference, and
 * the injection of the registry's pull secret into a pod specification.
 *
 * The process-wide image configuration is an explicit, immutable `ImageConfig` value
 * passed to every operation.
 */
module Images {
  import opened Wrappers
  import opened GoStrings
  import opened VersionPatterns

  const DefaultCassandraRepository: string := "k8ssandra/cass-management-api"
  const DefaultDseRepository: string := "datastax/dse-server"

  /** Repository and tag suffix of a server image. */
  datatype ImageComponent = ImageComponent(repository: string, suffix: string)

  datatype DefaultImages = DefaultImages(
    cassandraImageComponent: ImageComponent,
    dseImageComponent: ImageComponent)

  /** Per-version image overrides and the auxiliary images. */
  datatype ImageOverrides = ImageOverrides(
    cassandraVersions: map<string, string>,
    dseVersions: map<string, string>,
    configBuilder: string,
    systemLogger: string)

  /** The decoded image configuration; `None` stands for a nil pointer. */
  datatype ImageConfig = ImageConfig(
    images: Option<ImageOverrides>,
    defaultImages: Option<DefaultImages>,
    imageRegistry: string,
    imagePullSecretName: string)

  datatype ImageError = UnsupportedVersion(server: string, version: string)

  // ---------------------------------------------------------------- registry rewriting

  /**
   * Drops a leading registry host: the first "/"-separated segment, when there are at
   * least two segments and that first one contains '.' or ':'.
   */
  function StripRegistry(image: string): (r: string)
    ensures r == image || (|r| < |image| && image[|image| - |r| - 1] == '/' && image[|image| - |r|..] == r)
  {
    var comps := Split(image);
    if |comps| > 1 && ('.' in comps[0] || ':' in comps[0]) then
      var i := IndexOf(image, '/');
      assert HasRegistryHost(image);
      JoinSplitTail(image);
      assert |image| - |image[i + 1..]| - 1 == i;
      Join(comps[1..])
    else image
  }

  /**
   * The registry-host heuristic applied to a reference: there are at least two
   * "/"-separated segments and the first one contains '.' or ':'.
   */
  function HasRegistryHost(image: string): (b: bool)
    ensures var comps := Split(image);
      b <==> |comps| > 1 && ('.' in comps[0] || ':' in comps[0])
  {
    var i := IndexOf(image, '/');
    if i == |image| then
      assert image[..i] == image;
      false
    else
      '.' in image[..i] || ':' in image[..i]
  }

  /** Stripping removes exactly the text up to and including the first "/", when that prefix is a host. */
  lemma StripRegistryRemovesHost(image: string)
    ensures var i := IndexOf(image, '/');
      StripRegistry(image) == if HasRegistryHost(image) then image[i + 1..] else image
  {
    if HasRegistryHost(image) {
      JoinSplitTail(image);
    }
  }

  /** The registry configured for rewriting, with one trailing "/" trimmed. */
  function CustomRegistry(config: ImageConfig): (r: string)
    ensures var reg := config.imageRegistry;
      if |reg| > 0 && reg[|reg| - 1] == '/' then r + "/" == reg else r == reg
  {
    var reg := config.imageRegistry;
    assert |reg| > 0 ==> reg[|reg| - 1..] == [reg[|reg| - 1]];
    TrimSuffix(config.imageRegistry, "/")
  }

  /** Rewrites `image` to be pulled from the configured registry, if one is configured. */
  function ApplyRegistry(config: ImageConfig, image: string): (r: string)
    ensures CustomRegistry(config) == "" ==> r == image
    ensures var reg := CustomRegistry(config);
      reg != "" ==>
        && |reg| < |r| && r[..|reg| + 1] == reg + "/"
        && |r| - |reg| - 1 <= |image| && image[|image| - (|r| - |reg| - 1)..] == r[|reg| + 1..]
  {
    var customRegistry := CustomRegistry(config);
    if customRegistry == "" then image else customRegistry + "/" + StripRegistry(image)
  }

  /** Only an empty registry or a lone "/" leaves every reference untouched. */
  lemma ApplyRegistryIdentityIff(config: ImageConfig)
    ensures (forall image :: ApplyRegistry(config, image) == image)
        <==> (config.imageRegistry == "" || config.imageRegistry == "/")
  {
    var reg := config.imageRegistry;
    if reg == "" || reg == "/" {
      assert CustomRegistry(config) == "";
    } else {
      if |reg| >= 1 && reg[|reg| - 1..] == "/" {
        assert CustomRegistry(config) == reg[..|reg| - 1];
        assert |reg| >= 2;
      }
      assert CustomRegistry(config) != "";
      assert |ApplyRegistry(config, "")| > 0;
    }
  }

  /**
   * Under a registry R (trailing "/" trimmed), a reference becomes R + "/" followed by the
   * reference without its registry host.
   */
  lemma ApplyRegistryRewrites(config: ImageConfig, image: string)
    requires CustomRegistry(config) != ""
    ensures var i := IndexOf(image, '/');
      ApplyRegistry(config, image) ==
        CustomRegistry(config) + "/" + (if HasRegistryHost(image) then image[i + 1..] else image)
  {
    StripRegistryRemovesHost(image);
  }

  /**
   * When the registry is a single host (it has no "/" and contains '.' or ':'), rewriting
   * an already rewritten reference changes nothing.
   */
  lemma ApplyRegistryIdempotent(config: ImageConfig, image: string)
    requires var reg := CustomRegistry(config);
      reg != "" && '/' !in reg && ('.' in reg || ':' in reg)
    ensures ApplyRegistry(config, ApplyRegistry(config, image)) == ApplyRegistry(config, image)
  {
    var reg := CustomRegistry(config);
    var once := ApplyRegistry(config, image);
    var stripped := StripRegistry(image);
    assert once == reg + "/" + stripped;
    HostThenRest(once, reg, stripped);
    StripRegistryRemovesHost(once);
  }

  /** A reference made of a host, "/" and a rest has that host as its registry segment. */
  lemma HostThenRest(image: string, host: string, rest: string)
    requires image == host + "/" + rest
    requires '/' !in host && ('.' in host || ':' in host)
    ensures IndexOf(image, '/') == |host| && HasRegistryHost(image) && image[|host| + 1..] == rest
  {
    assert image[..|host|] == host;
    IndexOfAt(image, '/', |host|);
  }

  /**
   * The rewrites of the registry "my.registry.io/": a plain reference is prefixed, and a
   * reference on another registry host ("quay.io") loses that host first.
   */
  lemma ApplyRegistryExamples(config: ImageConfig, plain: string, hosted: string)
    requires config.imageRegistry == "my.registry.io/"
    requires plain == "k8ssandra/cass-management-api:4.1.0"
    requires hosted == "quay.io/foo:bar"
    ensures ApplyRegistry(config, plain) == "my.registry.io" + "/" + plain
    ensures ApplyRegistry(config, hosted) == "my.registry.io" + "/" + "foo:bar"
  {
    var reg := config.imageRegistry;
    assert reg[|reg| - 1..] == "/";
    assert CustomRegistry(config) == "my.registry.io";
    PlainReferenceHasNoHost(plain);
    ApplyRegistryRewrites(config, plain);
    QuayReferenceHasHost(hosted);
    ApplyRegistryRewrites(config, hosted);
  }

  lemma PlainReferenceHasNoHost(plain: string)
    requires plain == "k8ssandra/cass-management-api:4.1.0"
    ensures !HasRegistryHost(plain)
  {
    var head := plain[..9];
    assert plain[9] == '/' && head == "k8ssandra";
    assert '.' !in head && ':' !in head;
    IndexOfAt(plain, '/', 9);
  }

  lemma QuayReferenceHasHost(hosted: string)
    requires hosted == "quay.io/foo:bar"
    ensures HasRegistryHost(hosted) && IndexOf(hosted, '/') == 7 && hosted[8..] == "foo:bar"
  {
    assert hosted[7] == '/' && hosted[..7] == "quay.io" && hosted[..7][4] == '.';
    IndexOfAt(hosted, '/', 7);
  }

  // ---------------------------------------------------------------- server images

  /** The per-version override configured for the server type, if any. */
  function CassandraContainerImageOverride(config: ImageConfig, serverType: string, version: string)
    : (r: Option<string>)
    ensures serverType != "dse" && serverType != "cassandra" ==> r == None
    ensures config.images == None ==> r == None
    ensures serverType == "dse" && config.images.Some? ==>
      r == (if version in config.images.value.dseVersions
            then Some(config.images.value.dseVersions[version]) else None)
    ensures serverType == "cassandra" && config.images.Some? ==>
      r == (if version in config.images.value.cassandraVersions
            then Some(config.images.value.cassandraVersions[version]) else None)
  {
    match config.images
    case None => None
    case Some(images) =>
      if serverType == "dse" && version in images.dseVersions then Some(images.dseVersions[version])
      else if serverType == "cassandra" && version in images.cassandraVersions then
        Some(images.cassandraVersions[version])
      else None
  }

  /** Repository and suffix of the image for a server type. */
  function ImageComponents(config: ImageConfig, serverType: string): (r: (string, string))
    ensures serverType != "dse" && serverType != "cassandra" ==> r == ("", "")
    ensures serverType == "dse" ==>
      r == (if config.defaultImages.Some? && config.defaultImages.value.dseImageComponent.repository != ""
            then (config.defaultImages.value.dseImageComponent.repository,
                  config.defaultImages.value.dseImageComponent.suffix)
            else (DefaultDseRepository, ""))
    ensures serverType == "cassandra" ==>
      r == (if config.defaultImages.Some? && config.defaultImages.value.cassandraImageComponent.repository != ""
            then (config.defaultImages.value.cassandraImageComponent.repository,
                  config.defaultImages.value.cassandraImageComponent.suffix)
            else (DefaultCassandraRepository, ""))
  {
    var defaultPrefix :=
      if serverType == "dse" then DefaultDseRepository
      else if serverType == "cassandra" then DefaultCassandraRepository
      else "";
    match config.defaultImages
    case Some(defaults) =>
      var component :=
        if serverType == "dse" then defaults.dseImageComponent
        else if serverType == "cassandra" then defaults.cassandraImageComponent
        else ImageComponent("", "");
      if component.repository != "" then (component.repository, component.suffix)
      else (defaultPrefix, "")
    case None => (defaultPrefix, "")
  }

  /** The accepted-version expression that applies: DSE's for "dse", Cassandra's for any other type. */
  function IsVersionSupported(serverType: string, version: string): (b: bool)
    ensures b <==> MatchesSomewhere(if serverType == "dse" then DsePatterns else OssPatterns, version)
  {
    if serverType == "dse" then IsDseVersionSupported(version) else IsOssVersionSupported(version)
  }

  /** The image reference for a server of the given type and version. */
  function GetCassandraImage(config: ImageConfig, serverType: string, version: string)
    : (r: Result<string, ImageError>)
    ensures r.Ok? <==> CassandraContainerImageOverride(config, serverType, version).Some?
                       || IsVersionSupported(serverType, version)
    ensures r.Err? ==>
      r.error == UnsupportedVersion(if serverType == "dse" then "dse" else "cassandra", version)
  {
    match CassandraContainerImageOverride(config, serverType, version)
    case Some(image) => Ok(ApplyRegistry(config, image))
    case None =>
      if serverType == "dse" && !IsDseVersionSupported(version) then
        Err(UnsupportedVersion("dse", version))
      else if serverType != "dse" && !IsOssVersionSupported(version) then
        Err(UnsupportedVersion("cassandra", version))
      else
        var (prefix, suffix) := ImageComponents(config, serverType);
        Ok(ApplyRegistry(config, prefix + ":" + version + suffix))
  }

  /** A configured override wins, unvalidated, even for a version the expressions accept. */
  lemma OverrideTakesPrecedence(config: ImageConfig, serverType: string, version: string)
    requires CassandraContainerImageOverride(config, serverType, version).Some?
    ensures var image := CassandraContainerImageOverride(config, serverType, version).value;
      GetCassandraImage(config, serverType, version) == Ok(ApplyRegistry(config, image))
  {
  }

  /** Without an override, a supported version is composed as repository:version+suffix and rewritten. */
  lemma ComposedImage(config: ImageConfig, serverType: string, version: string)
    requires CassandraContainerImageOverride(config, serverType, version).None?
    requires IsVersionSupported(serverType, version)
    ensures var (prefix, suffix) := ImageComponents(config, serverType);
      GetCassandraImage(config, serverType, version) == Ok(ApplyRegistry(config, prefix + ":" + version + suffix))
  {
  }

  /** With nothing configured, the default repositories are used and no registry is prepended. */
  lemma DefaultImageExamples(config: ImageConfig, dse: string, cassandra: string, unsupported: string)
    requires config == ImageConfig(None, None, "", "")
    requires dse == "6.8.5" && cassandra == "4.1.0" && unsupported == "6.9.0"
    ensures GetCassandraImage(config, "dse", dse) == Ok(DefaultDseRepository + ":" + dse)
    ensures GetCassandraImage(config, "cassandra", cassandra) == Ok(DefaultCassandraRepository + ":" + cassandra)
    ensures GetCassandraImage(config, "dse", unsupported) == Err(UnsupportedVersion("dse", unsupported))
  {
    SupportedVersionExamples();
    UnsupportedDseExample();
    assert CustomRegistry(config) == "";
    ComposedImage(config, "dse", dse);
    ComposedImage(config, "cassandra", cassandra);
    assert DefaultDseRepository + ":" + dse + "" == DefaultDseRepository + ":" + dse;
    assert DefaultCassandraRepository + ":" + cassandra + "" == DefaultCassandraRepository + ":" + cassandra;
  }

  /**
   * A server type that is neither "dse" nor "cassandra" is validated against the Cassandra
   * expression and, having no repository, composes an image with an empty repository.
   */
  lemma UnknownServerTypeHasEmptyRepository(config: ImageConfig, serverType: string, version: string)
    requires serverType != "dse" && serverType != "cassandra"
    requires IsOssVersionSupported(version)
    ensures GetCassandraImage(config, serverType, version) == Ok(ApplyRegistry(config, ":" + version))
  {
    assert CassandraContainerImageOverride(config, serverType, version) == None;
    assert ImageComponents(config, serverType) == ("", "");
    assert "" + ":" + version + "" == ":" + version;
  }

  // ---------------------------------------------------------------- auxiliary images

  /** The config-builder image, rewritten for the configured registry. */
  function GetConfigBuilderImage(config: ImageConfig): (r: string)
    requires config.images.Some?
    ensures var image := config.images.value.configBuilder;
      var i := IndexOf(image, '/');
      if CustomRegistry(config) == "" then r == image
      else r == CustomRegistry(config) + "/" + (if HasRegistryHost(image) then image[i + 1..] else image)
  {
    StripRegistryRemovesHost(config.images.value.configBuilder);
    ApplyRegistry(config, config.images.value.configBuilder)
  }

  /** The system-logger image, rewritten for the configured registry. */
  function GetSystemLoggerImage(config: ImageConfig): (r: string)
    requires config.images.Some?
    ensures var image := config.images.value.systemLogger;
      var i := IndexOf(image, '/');
      if CustomRegistry(config) == "" then r == image
      else r == CustomRegistry(config) + "/" + (if HasRegistryHost(image) then image[i + 1..] else image)
  {
    StripRegistryRemovesHost(config.images.value.systemLogger);
    ApplyRegistry(config, config.images.value.systemLogger)
  }

  // ---------------------------------------------------------------- pull secrets

  datatype LocalObjectReference = LocalObjectReference(name: string)

  /** The part of a pod specification that the pull-secret injection changes. */
  class PodSpec {
    var imagePullSecrets: seq<LocalObjectReference>

    constructor (imagePullSecrets: seq<LocalObjectReference>)
      ensures this.imagePullSecrets == imagePullSecrets
    {
      this.imagePullSecrets := imagePullSecrets;
    }
  }

  /** Appends a reference to the configured pull secret, if one is named; reports whether it did. */
  method AddDefaultRegistryImagePullSecrets(config: ImageConfig, podSpec: PodSpec) returns (added: bool)
    modifies podSpec
    ensures added <==> config.imagePullSecretName != ""
    ensures podSpec.imagePullSecrets ==
      if added then old(podSpec.imagePullSecrets) + [LocalObjectReference(config.imagePullSecretName)]
      else old(podSpec.imagePullSecrets)
  {
    var secretName := config.imagePullSecretName;
    if secretName != "" {
      podSpec.imagePullSecrets := podSpec.imagePullSecrets + [LocalObjectReference(secretName)];
      return true;
    }
    return false;
  }
}
