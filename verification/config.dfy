/**
 The configuration helpers of the spiffe-helper command
 (cmd/spiffe-helper/config): the X.509 and JWT validation rules, the
 empty-setting counter they share, the listing of map keys used in messages,
 and the translation of a parsed configuration into the sidecar's own.
 */
module HelperConfig {

  import opened Errors
  import opened Optional
  import opened Strings
  import Sidecar

  /** One `jwt_svids` block of the configuration file. */
  datatype JWTConfig = JWTConfig(
    jwtAudience: string,
    jwtExtraAudiences: seq<string>,
    jwtSVIDFilename: string)

  /** The parsed configuration file. `daemonMode` is absent when the file does
      not set it; health-check settings and unused-key positions are left out. */
  datatype Config = Config(
    addIntermediatesToBundle: bool,
    agentAddress: string,
    cmd: string,
    cmdArgs: string,
    pidFilename: string,
    certDir: string,
    certFileMode: int,
    keyFileMode: int,
    jwtBundleFileMode: int,
    jwtSVIDFileMode: int,
    includeFederatedDomains: bool,
    renewSignal: string,
    daemonMode: Option<bool>,
    hint: string,
    parallelRequests: int,
    svidFilename: string,
    svidKeyFilename: string,
    svidBundleFilename: string,
    jwtSVIDs: seq<JWTConfig>,
    jwtBundleFilename: string)

  /** `countEmpty`: how many of the settings are the empty string. */
  function CountEmpty(configs: seq<string>): (n: nat)
    ensures n == multiset(configs)[""]
    ensures n <= |configs|
    ensures n == 0 <==> "" !in configs
    decreases |configs|
  {
    if |configs| == 0 then 0
    else
      assert configs == [configs[0]] + configs[1..];
      (if configs[0] == "" then 1 else 0) + CountEmpty(configs[1..])
  }

  const X509ConfigError: string :=
    "all or none of 'svid_file_name', 'svid_key_file_name', 'svid_bundle_file_name' must be specified"

  /** The result of `validateX509Config`: whether X.509 is enabled, and an error. */
  datatype X509Validation = X509Validation(enabled: bool, err: Outcome)

  /** `validateX509Config`: the three X.509 file names are either all set
      (X.509 enabled) or all unset (disabled); anything else is an error. */
  function ValidateX509Config(c: Config): (r: X509Validation)
    ensures r.err.Err? <==>
              (c.svidFilename == "" || c.svidBundleFilename == "" || c.svidKeyFilename == "")
              && (c.svidFilename != "" || c.svidBundleFilename != "" || c.svidKeyFilename != "")
    ensures r.err.Err? ==> !r.enabled && r.err.error == Failure(X509ConfigError)
    ensures r.err.Ok? && r.enabled <==>
              c.svidFilename != "" && c.svidBundleFilename != "" && c.svidKeyFilename != ""
    ensures r.err.Ok? && !r.enabled <==>
              c.svidFilename == "" && c.svidBundleFilename == "" && c.svidKeyFilename == ""
  {
    var x509EmptyCount := CountEmpty([c.svidFilename, c.svidBundleFilename, c.svidKeyFilename]);
    if x509EmptyCount != 0 && x509EmptyCount != 3 then
      X509Validation(false, Err(Failure(X509ConfigError)))
    else
      X509Validation(x509EmptyCount == 0, Ok)
  }

  /** `validateJWTConfig`: whether the JWT bundle and JWT SVIDs are enabled.
      It has no error result. */
  function ValidateJWTConfig(c: Config): (r: (bool, bool))
    ensures r.0 <==> c.jwtBundleFilename != ""
    ensures r.1 <==> |c.jwtSVIDs| > 0
  {
    var jwtBundleEmptyCount := CountEmpty([c.jwtBundleFilename]);
    (jwtBundleEmptyCount == 0, |c.jwtSVIDs| > 0)
  }

  /** `mapKeysToString`: the keys of the map, in sorted order, joined by
      commas. Keys are gathered in the map's iteration order, which Go leaves
      unspecified; `sorted` is the key list after sorting. */
  method MapKeysToString<V>(m: map<string, V>) returns (s: string, ghost sorted: seq<string>)
    ensures StrictlySorted(sorted)
    ensures forall k :: k in sorted <==> k in m
    ensures |sorted| == |m|
    ensures s == JoinWith(sorted, ',')
    ensures |m| == 0 ==> s == ""
    ensures |m| > 0 && (forall k :: k in m ==> ',' !in k) ==> Split(s, ',') == sorted
  {
    var keys: seq<string> := [];
    var rest := m.Keys;
    while rest != {}
      invariant Distinct(keys)
      invariant forall k :: k in keys ==> k in m && k !in rest
      invariant rest <= m.Keys
      invariant forall k :: k in m ==> k in keys || k in rest
      invariant |keys| + |rest| == |m|
      decreases |rest|
    {
      var k :| k in rest;
      keys := keys + [k];
      rest := rest - {k};
    }
    var ordered := Sort(keys);
    s := JoinWith(ordered, ',');
    sorted := ordered;
    if |m| > 0 && (forall k :: k in m ==> ',' !in k) {
      assert forall i :: 0 <= i < |sorted| ==> sorted[i] in m;
      SplitJoin(sorted, ',');
    }
  }

  /** `fs.FileMode(x)`: conversion of a Go `int` to the unsigned 32-bit file
      mode keeps the low 32 bits. */
  function ToFileMode(x: int): (m: Sidecar.FileMode)
    ensures 0 <= x < 0x1_0000_0000 ==> m as int == x
    ensures (x - m as int) % 0x1_0000_0000 == 0
  {
    (x % 0x1_0000_0000) as Sidecar.FileMode
  }

  /** The loop over the JWT SVIDs in `NewSidecarConfig`: each entry becomes a
      sidecar entry with the same audience, extra audiences and file name. */
  function ToSidecarJWTConfigs(svids: seq<JWTConfig>): (r: seq<Sidecar.JWTConfig>)
    ensures |r| == |svids|
    ensures forall i :: 0 <= i < |svids| ==>
              && r[i].jwtAudience == svids[i].jwtAudience
              && r[i].jwtExtraAudiences == svids[i].jwtExtraAudiences
              && r[i].jwtSVIDFilename == svids[i].jwtSVIDFilename
    decreases |svids|
  {
    if |svids| == 0 then []
    else
      var last := svids[|svids| - 1];
      ToSidecarJWTConfigs(svids[..|svids| - 1])
        + [Sidecar.JWTConfig(last.jwtAudience, last.jwtExtraAudiences, last.jwtSVIDFilename)]
  }

  /** `NewSidecarConfig`: the sidecar configuration carries every setting of
      the file unchanged (file modes as 32-bit words), and the JWT SVIDs in the
      same number and order. */
  function NewSidecarConfig(c: Config): (s: Sidecar.Config)
    ensures s.addIntermediatesToBundle == c.addIntermediatesToBundle
    ensures s.agentAddress == c.agentAddress
    ensures s.cmd == c.cmd && s.cmdArgs == c.cmdArgs
    ensures s.pidFilename == c.pidFilename
    ensures s.certDir == c.certDir
    ensures s.certFileMode == ToFileMode(c.certFileMode)
    ensures s.keyFileMode == ToFileMode(c.keyFileMode)
    ensures s.jwtBundleFileMode == ToFileMode(c.jwtBundleFileMode)
    ensures s.jwtSVIDFileMode == ToFileMode(c.jwtSVIDFileMode)
    ensures s.includeFederatedDomains == c.includeFederatedDomains
    ensures s.jwtBundleFilename == c.jwtBundleFilename
    ensures s.renewSignal == c.renewSignal
    ensures s.svidFilename == c.svidFilename
    ensures s.svidKeyFilename == c.svidKeyFilename
    ensures s.svidBundleFilename == c.svidBundleFilename
    ensures s.parallelRequests == c.parallelRequests
    ensures s.hint == c.hint
    ensures |s.jwtSVIDs| == |c.jwtSVIDs|
    ensures forall i :: 0 <= i < |c.jwtSVIDs| ==>
              && s.jwtSVIDs[i].jwtAudience == c.jwtSVIDs[i].jwtAudience
              && s.jwtSVIDs[i].jwtExtraAudiences == c.jwtSVIDs[i].jwtExtraAudiences
              && s.jwtSVIDs[i].jwtSVIDFilename == c.jwtSVIDs[i].jwtSVIDFilename
  {
    Sidecar.Config(
      addIntermediatesToBundle := c.addIntermediatesToBundle,
      agentAddress := c.agentAddress,
      cmd := c.cmd,
      cmdArgs := c.cmdArgs,
      pidFilename := c.pidFilename,
      certDir := c.certDir,
      certFileMode := ToFileMode(c.certFileMode),
      keyFileMode := ToFileMode(c.keyFileMode),
      jwtBundleFileMode := ToFileMode(c.jwtBundleFileMode),
      jwtSVIDFileMode := ToFileMode(c.jwtSVIDFileMode),
      includeFederatedDomains := c.includeFederatedDomains,
      jwtBundleFilename := c.jwtBundleFilename,
      renewSignal := c.renewSignal,
      svidFilename := c.svidFilename,
      svidKeyFilename := c.svidKeyFilename,
      svidBundleFilename := c.svidBundleFilename,
      jwtSVIDs := ToSidecarJWTConfigs(c.jwtSVIDs),
      parallelRequests := c.parallelRequests,
      hint := c.hint)
  }

  /** The X.509 decision of the validator is the one the sidecar makes from
      the translated configuration. */
  lemma ValidatedX509MatchesSidecar(c: Config)
    ensures ValidateX509Config(c).enabled <==> Sidecar.X509Enabled(NewSidecarConfig(c))
  {
  }

  /** The JWT decisions of the validator are the ones the sidecar makes from
      the translated configuration. */
  lemma ValidatedJWTMatchesSidecar(c: Config)
    ensures ValidateJWTConfig(c).0 <==> Sidecar.JWTBundleEnabled(NewSidecarConfig(c))
    ensures ValidateJWTConfig(c).1 <==> Sidecar.JWTSVIDsEnabled(NewSidecarConfig(c))
  {
  }

}
