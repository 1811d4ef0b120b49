/** The extractor of `extract_spdx_data`: one pass over the `@graph` nodes
    that fills three mappings, the installed packages (name -> version), the
    kernel configuration (`CONFIG_*` -> value) and the PACKAGECONFIG feature
    selections (package -> feature -> value). */
module Extract {
  import opened Wrappers
  import opened Text
  import opened Sbom
  import PackageName

  const ProprietaryLicense := "LicenseRef-Proprietary"
  const InstallPurpose := "install"
  const ConfigPrefix := "CONFIG_"
  const PackageConfigPrefix := "PACKAGECONFIG:"

  /** The three mappings the extractor returns. */
  datatype Extraction = Extraction(
    packages: map<string, string>,
    config: map<string, string>,
    packageConfig: map<string, map<string, string>>)

  const Empty := Extraction(map[], map[], map[])

  /** The `TypeError` raised when `@graph` is missing or not a list. */
  datatype ExtractError = FormatNotRecognized

  /** What every extraction satisfies: configuration keys carry the kernel
      prefix, and every package in the PACKAGECONFIG mapping has a non-empty
      name without a colon and at least one feature. */
  predicate WellFormed(e: Extraction) {
    && (forall k :: k in e.config ==> StartsWith(k, ConfigPrefix))
    && (forall p :: p in e.packageConfig ==> p != "" && ':' !in p && e.packageConfig[p] != map[])
  }

  /** Kernel and kernel-module package names are normalised, every other
      name is kept as it is. */
  function PackageKey(name: string): (k: string)
    ensures (name == "kernel" || StartsWith(name, "kernel-")) ==> StartsWith(name, k) && StartsWith(k, "kernel")
    ensures (name == "kernel" || StartsWith(name, "kernel-")) ==> k == PackageName.Normalize(name)
    ensures !(name == "kernel" || StartsWith(name, "kernel-")) ==> k == name
  {
    if StartsWith(name, "kernel-") || name == "kernel" then
      PackageName.KernelPrefixKept(name);
      PackageName.Normalize(name)
    else name
  }

  /** A package node that ends up in the packages mapping. */
  predicate Contributes(n: Node, ignoreProprietary: bool) {
    && n.nodeType == Some(PackageType)
    && n.name.Some? && n.name.value != ""
    && n.packageVersion.Some? && n.packageVersion.value != ""
    && !(ignoreProprietary && n.licenseExpression == Some(ProprietaryLicense))
    && n.primaryPurpose == Some(InstallPurpose)
  }

  /** `item.get("name", "")` */
  function BuildName(n: Node): string {
    match n.name
    case Some(s) => s
    case None => ""
  }

  /** The package a build belongs to: the text before the first colon of the
      build's name, when there is a colon and that text is not empty. */
  function BuildPackage(n: Node): (r: Option<string>)
    ensures r.Some? ==> r.value != "" && ':' !in r.value
    ensures r.Some? ==> StartsWith(BuildName(n), r.value + ":")
    ensures r.None? <==> !Contains(BuildName(n), ":") || StartsWith(BuildName(n), ":")
  {
    var bn := BuildName(n);
    if Contains(bn, ":") then
      var i := IndexOf(bn, ":").value;
      var p := SplitHead(bn, ":");
      assert p == bn[..i];
      assert ':' !in p by {
        forall j | 0 <= j < i ensures p[j] != ':' {
          assert !OccursAt(bn, j, ":");
          assert bn[j..j + 1] == [bn[j]];
        }
      }
      assert bn[..i + 1] == p + ":" by {
        assert bn[i..i + 1] == ":";
      }
      if p != "" then Some(p) else None
    else None
  }

  /** Every non-empty, colon-free `p` that the build's name starts with,
      followed by a colon, is the build's package. */
  lemma BuildPackageIs(n: Node, p: string)
    requires p != "" && ':' !in p && StartsWith(BuildName(n), p + ":")
    ensures BuildPackage(n) == Some(p)
  {
    FirstCharAfter(BuildName(n), p, ':');
  }

  /** A package name a build can carry. */
  predicate ValidPackage(pkg: Option<string>) {
    pkg.Some? ==> pkg.value != "" && ':' !in pkg.value
  }

  /** The feature of a PACKAGECONFIG key is everything after its first colon,
      which is everything after the prefix. */
  function Feature(key: string): (f: string)
    requires StartsWith(key, PackageConfigPrefix)
    ensures key == PackageConfigPrefix + f
  {
    assert OccursAt(key, 13, ":") by {
      assert key[13..14] == PackageConfigPrefix[13..14];
    }
    var i := IndexOf(key, ":").value;
    assert i == 13 by {
      assert key[..13] == "PACKAGECONFIG";
      assert ':' !in "PACKAGECONFIG";
      forall j | 0 <= j < 13 ensures !OccursAt(key, j, ":") {
        assert key[j] == key[..13][j];
        assert key[j..j + 1] == [key[j]];
      }
    }
    AfterFirst(key, ":").value
  }

  /** The effect of one build parameter: a `CONFIG_` key goes to the kernel
      configuration; otherwise a `PACKAGECONFIG:` key goes to the feature map
      of the build's package, when the build has one; anything else, and any
      parameter without a key or a value, is skipped. */
  function ParamStep(e: Extraction, pkg: Option<string>, p: Param): (r: Extraction)
    ensures r.packages == e.packages
    ensures WellFormed(e) && ValidPackage(pkg) ==> WellFormed(r)
  {
    match p
    case NotAnObject => e
    case Entry(_, key, value) =>
      if key.None? || key.value == "" || value.None? then e
      else if StartsWith(key.value, ConfigPrefix) then
        e.(config := e.config[key.value := value.value])
      else if StartsWith(key.value, PackageConfigPrefix) && pkg.Some? then
        var features := if pkg.value in e.packageConfig then e.packageConfig[pkg.value] else map[];
        var updated := features[Feature(key.value) := value.value];
        assert Feature(key.value) in updated.Keys;
        e.(packageConfig := e.packageConfig[pkg.value := updated])
      else e
  }

  /** The parameters of one build, in order. */
  function ParamsFold(e: Extraction, pkg: Option<string>, ps: seq<Param>): (r: Extraction)
    decreases |ps|
    ensures r.packages == e.packages
    ensures WellFormed(e) && ValidPackage(pkg) ==> WellFormed(r)
  {
    if ps == [] then e else ParamStep(ParamsFold(e, pkg, ps[..|ps| - 1]), pkg, ps[|ps| - 1])
  }

  /** The effect of one node of the graph. */
  function NodeStep(e: Extraction, n: Node, ignoreProprietary: bool): (r: Extraction)
    ensures WellFormed(e) ==> WellFormed(r)
  {
    if n.nodeType == Some(PackageType) then
      if Contributes(n, ignoreProprietary) then
        e.(packages := e.packages[PackageKey(n.name.value) := n.packageVersion.value])
      else e
    else if n.nodeType == Some(BuildType) then
      ParamsFold(e, BuildPackage(n), ParamsOf(n))
    else e
  }

  /** The three mappings extracted from the nodes, in order. */
  function ExtractNodes(ns: seq<Node>, ignoreProprietary: bool): (e: Extraction)
    decreases |ns|
    ensures WellFormed(e)
  {
    if ns == [] then Empty
    else NodeStep(ExtractNodes(ns[..|ns| - 1], ignoreProprietary), ns[|ns| - 1], ignoreProprietary)
  }

  /** What `extract_spdx_data` returns for a parsed document. */
  function ExtractSpec(doc: GraphField, ignoreProprietary: bool): (r: Result<Extraction, ExtractError>)
    ensures r.Err? <==> !doc.Nodes?
    ensures r.Ok? ==> WellFormed(r.value)
  {
    match doc
    case Nodes(ns) => Ok(ExtractNodes(ns, ignoreProprietary))
    case _ => Err(FormatNotRecognized)
  }

  /** `extract_spdx_data` after the document is parsed: the loop over the
      graph, updating the three mappings in place. */
  method ExtractSpdxData(doc: GraphField, ignoreProprietary: bool) returns (r: Result<Extraction, ExtractError>)
    ensures r == ExtractSpec(doc, ignoreProprietary)
    ensures r.Err? <==> !doc.Nodes?
    ensures r.Ok? ==> WellFormed(r.value)
  {
    if !doc.Nodes? {
      return Err(FormatNotRecognized);
    }
    var graph := doc.nodes;
    var packages: map<string, string> := map[];
    var config: map<string, string> := map[];
    var packageConfig: map<string, map<string, string>> := map[];
    var i := 0;
    while i < |graph|
      invariant 0 <= i <= |graph|
      invariant Extraction(packages, config, packageConfig) == ExtractNodes(graph[..i], ignoreProprietary)
    {
      var item := graph[i];
      assert graph[..i + 1][..i] == graph[..i];
      if item.nodeType == Some(PackageType) {
        var name := item.name;
        var version := item.packageVersion;
        if name.Some? && name.value != "" && version.Some? && version.value != "" {
          var proprietary := ignoreProprietary && item.licenseExpression == Some(ProprietaryLicense);
          if !proprietary && item.primaryPurpose == Some(InstallPurpose) {
            packages := packages[PackageKey(name.value) := version.value];
          }
        }
      }
      if item.nodeType == Some(BuildType) {
        var pkgName := BuildPackage(item);
        config, packageConfig := ApplyBuildParameters(Extraction(packages, config, packageConfig), pkgName, ParamsOf(item));
      }
      i := i + 1;
    }
    assert graph[..i] == graph;
    r := Ok(Extraction(packages, config, packageConfig));
  }

  /** The inner loop of `extract_spdx_data`: the parameters of one build,
      updating the two configuration mappings in place. */
  method ApplyBuildParameters(e: Extraction, pkgName: Option<string>, params: seq<Param>)
    returns (config: map<string, string>, packageConfig: map<string, map<string, string>>)
    ensures Extraction(e.packages, config, packageConfig) == ParamsFold(e, pkgName, params)
  {
    config, packageConfig := e.config, e.packageConfig;
    var j := 0;
    while j < |params|
      invariant 0 <= j <= |params|
      invariant Extraction(e.packages, config, packageConfig) == ParamsFold(e, pkgName, params[..j])
    {
      assert params[..j + 1][..j] == params[..j];
      match params[j] {
        case NotAnObject =>
        case Entry(_, key, value) =>
          if key.Some? && key.value != "" && value.Some? {
            if StartsWith(key.value, ConfigPrefix) {
              config := config[key.value := value.value];
            } else if StartsWith(key.value, PackageConfigPrefix) && pkgName.Some? {
              var feature := Feature(key.value);
              var features := if pkgName.value in packageConfig then packageConfig[pkgName.value] else map[];
              packageConfig := packageConfig[pkgName.value := features[feature := value.value]];
            }
          }
      }
      j := j + 1;
    }
    assert params[..j] == params;
  }

  // ---------------------------------------------------------------------------
  // Packages

  /** Node `n` writes the package key `k`. */
  predicate Writes(n: Node, ignoreProprietary: bool, k: string) {
    Contributes(n, ignoreProprietary) && PackageKey(n.name.value) == k
  }

  /** One node adds `k` to the packages exactly when it writes `k`, and then
      with its own version; otherwise the entry for `k` is left as it was. */
  lemma NodeStepPackages(e: Extraction, n: Node, ignoreProprietary: bool, k: string)
    ensures k in NodeStep(e, n, ignoreProprietary).packages <==> Writes(n, ignoreProprietary, k) || k in e.packages
    ensures Writes(n, ignoreProprietary, k) ==> NodeStep(e, n, ignoreProprietary).packages[k] == n.packageVersion.value
    ensures !Writes(n, ignoreProprietary, k) && k in e.packages ==>
      NodeStep(e, n, ignoreProprietary).packages[k] == e.packages[k]
  {
  }

  /** A key is in the packages mapping exactly when some contributing node
      has it as its (normalised) name. */
  lemma {:induction false} PackagesWritten(ns: seq<Node>, ignoreProprietary: bool, k: string)
    ensures k in ExtractNodes(ns, ignoreProprietary).packages
      <==> exists i :: 0 <= i < |ns| && Writes(ns[i], ignoreProprietary, k)
    decreases |ns|
  {
    if ns != [] {
      var init, last := ns[..|ns| - 1], ns[|ns| - 1];
      PackagesWritten(init, ignoreProprietary, k);
      NodeStepPackages(ExtractNodes(init, ignoreProprietary), last, ignoreProprietary, k);
      assert forall i :: 0 <= i < |init| ==> init[i] == ns[i];
    }
  }

  /** The version recorded for a package is the one of the last node that
      writes it: later nodes overwrite earlier ones. */
  lemma {:induction false} PackagesLastWriteWins(ns: seq<Node>, ignoreProprietary: bool, k: string) returns (i: nat)
    requires k in ExtractNodes(ns, ignoreProprietary).packages
    ensures i < |ns| && Writes(ns[i], ignoreProprietary, k)
    ensures forall j :: i < j < |ns| ==> !Writes(ns[j], ignoreProprietary, k)
    ensures ExtractNodes(ns, ignoreProprietary).packages[k] == ns[i].packageVersion.value
    decreases |ns|
  {
    var init, last := ns[..|ns| - 1], ns[|ns| - 1];
    var before := ExtractNodes(init, ignoreProprietary);
    assert ExtractNodes(ns, ignoreProprietary) == NodeStep(before, last, ignoreProprietary);
    NodeStepPackages(before, last, ignoreProprietary, k);
    if Writes(last, ignoreProprietary, k) {
      i := |ns| - 1;
    } else {
      i := PackagesLastWriteWins(init, ignoreProprietary, k);
      assert ns[i] == init[i];
      NoLaterWriter(ns, init, i, ignoreProprietary, k);
    }
  }

  /** No writer after `i` in `init` and none at the end of `ns`: none after `i` in `ns`. */
  lemma NoLaterWriter(ns: seq<Node>, init: seq<Node>, i: nat, ignoreProprietary: bool, k: string)
    requires ns != [] && init == ns[..|ns| - 1] && i < |init|
    requires forall j :: i < j < |init| ==> !Writes(init[j], ignoreProprietary, k)
    requires !Writes(ns[|ns| - 1], ignoreProprietary, k)
    ensures forall j :: i < j < |ns| ==> !Writes(ns[j], ignoreProprietary, k)
  {
    forall j | i < j < |init| ensures !Writes(ns[j], ignoreProprietary, k) {
      assert ns[j] == init[j];
    }
  }

  /** With `ignore_proprietary` set, the packages are a subset of those
      without it, and the kernel configuration and PACKAGECONFIG mappings are
      the same. */
  lemma {:induction false} IgnoringProprietaryOnlyDropsPackages(ns: seq<Node>)
    ensures ExtractNodes(ns, true).packages.Keys <= ExtractNodes(ns, false).packages.Keys
    ensures ExtractNodes(ns, true).config == ExtractNodes(ns, false).config
    ensures ExtractNodes(ns, true).packageConfig == ExtractNodes(ns, false).packageConfig
    decreases |ns|
  {
    forall k | k in ExtractNodes(ns, true).packages
      ensures k in ExtractNodes(ns, false).packages
    {
      PackagesWritten(ns, true, k);
      var i :| 0 <= i < |ns| && Writes(ns[i], true, k);
      assert Writes(ns[i], false, k);
      PackagesWritten(ns, false, k);
    }
    if ns != [] {
      var init, last := ns[..|ns| - 1], ns[|ns| - 1];
      IgnoringProprietaryOnlyDropsPackages(init);
      var t, f := ExtractNodes(init, true), ExtractNodes(init, false);
      if last.nodeType == Some(BuildType) {
        BuildIgnoresPackages(t, f, BuildPackage(last), ParamsOf(last));
      }
    }
  }

  /** The parameters of a build never look at the packages mapping. */
  lemma {:induction false} BuildIgnoresPackages(e1: Extraction, e2: Extraction, pkg: Option<string>, ps: seq<Param>)
    requires e1.config == e2.config && e1.packageConfig == e2.packageConfig
    ensures ParamsFold(e1, pkg, ps).config == ParamsFold(e2, pkg, ps).config
    ensures ParamsFold(e1, pkg, ps).packageConfig == ParamsFold(e2, pkg, ps).packageConfig
    decreases |ps|
  {
    if ps != [] {
      BuildIgnoresPackages(e1, e2, pkg, ps[..|ps| - 1]);
      ParamIgnoresPackages(ParamsFold(e1, pkg, ps[..|ps| - 1]), ParamsFold(e2, pkg, ps[..|ps| - 1]), pkg, ps[|ps| - 1]);
    }
  }

  lemma ParamIgnoresPackages(e1: Extraction, e2: Extraction, pkg: Option<string>, p: Param)
    requires e1.config == e2.config && e1.packageConfig == e2.packageConfig
    ensures ParamStep(e1, pkg, p).config == ParamStep(e2, pkg, p).config
    ensures ParamStep(e1, pkg, p).packageConfig == ParamStep(e2, pkg, p).packageConfig
  {
  }

  // ---------------------------------------------------------------------------
  // Kernel configuration

  /** A parameter that sets the kernel configuration key `k`. */
  predicate SetsConfig(p: Param, k: string) {
    p.Entry? && p.key == Some(k) && p.value.Some? && StartsWith(k, ConfigPrefix)
  }

  /** A build node with a parameter that sets `k`. */
  predicate BuildSetsConfig(n: Node, k: string) {
    n.nodeType == Some(BuildType) && exists j :: 0 <= j < |ParamsOf(n)| && SetsConfig(ParamsOf(n)[j], k)
  }

  lemma {:induction false} ParamsConfigKeys(e: Extraction, pkg: Option<string>, ps: seq<Param>, k: string)
    ensures k in ParamsFold(e, pkg, ps).config
      <==> k in e.config || exists j :: 0 <= j < |ps| && SetsConfig(ps[j], k)
    decreases |ps|
  {
    if ps != [] {
      var init := ps[..|ps| - 1];
      ParamsConfigKeys(e, pkg, init, k);
      assert forall j :: 0 <= j < |init| ==> init[j] == ps[j];
      if SetsConfig(ps[|ps| - 1], k) {
        assert k in ParamsFold(e, pkg, ps).config;
      }
    }
  }

  /** A key is in the kernel configuration exactly when some build has a
      parameter with that key, a `CONFIG_` prefix and a value; packages and the
      names of builds play no part. */
  lemma {:induction false} ConfigKeys(ns: seq<Node>, ignoreProprietary: bool, k: string)
    ensures k in ExtractNodes(ns, ignoreProprietary).config
      <==> exists i :: 0 <= i < |ns| && BuildSetsConfig(ns[i], k)
    decreases |ns|
  {
    if ns != [] {
      var init, last := ns[..|ns| - 1], ns[|ns| - 1];
      ConfigKeys(init, ignoreProprietary, k);
      assert forall i :: 0 <= i < |init| ==> init[i] == ns[i];
      NodeStepConfig(ExtractNodes(init, ignoreProprietary), last, ignoreProprietary, k);
    }
  }

  lemma NodeStepConfig(e: Extraction, n: Node, ignoreProprietary: bool, k: string)
    ensures k in NodeStep(e, n, ignoreProprietary).config <==> k in e.config || BuildSetsConfig(n, k)
  {
    if n.nodeType == Some(BuildType) {
      ParamsConfigKeys(e, BuildPackage(n), ParamsOf(n), k);
    }
  }

  /** One parameter sets `k` to its own value when it sets `k`; otherwise
      the entry for `k` is left as it was. */
  lemma ParamStepConfig(e: Extraction, pkg: Option<string>, p: Param, k: string)
    ensures SetsConfig(p, k) ==> k in ParamStep(e, pkg, p).config && ParamStep(e, pkg, p).config[k] == p.value.value
    ensures !SetsConfig(p, k) && k in e.config ==>
      k in ParamStep(e, pkg, p).config && ParamStep(e, pkg, p).config[k] == e.config[k]
  {
  }

  /** Parameters none of which sets `k` leave its entry as it was. */
  lemma {:induction false} ParamsKeepConfig(e: Extraction, pkg: Option<string>, ps: seq<Param>, k: string)
    requires k in e.config
    requires forall j :: 0 <= j < |ps| ==> !SetsConfig(ps[j], k)
    ensures k in ParamsFold(e, pkg, ps).config && ParamsFold(e, pkg, ps).config[k] == e.config[k]
    decreases |ps|
  {
    if ps != [] {
      var init, last := ps[..|ps| - 1], ps[|ps| - 1];
      assert ParamsFold(e, pkg, ps) == ParamStep(ParamsFold(e, pkg, init), pkg, last);
      assert forall j :: 0 <= j < |init| ==> init[j] == ps[j];
      ParamsKeepConfig(e, pkg, init, k);
      ParamStepConfig(ParamsFold(e, pkg, init), pkg, last, k);
    }
  }

  /** Within one build, the value of `k` is the one of the last parameter
      that sets it. */
  lemma {:induction false} ParamsConfigLastWrite(e: Extraction, pkg: Option<string>, ps: seq<Param>, k: string) returns (j: nat)
    requires exists j :: 0 <= j < |ps| && SetsConfig(ps[j], k)
    ensures j < |ps| && SetsConfig(ps[j], k)
    ensures forall j' :: j < j' < |ps| ==> !SetsConfig(ps[j'], k)
    ensures k in ParamsFold(e, pkg, ps).config && ParamsFold(e, pkg, ps).config[k] == ps[j].value.value
    decreases |ps|
  {
    var init, last := ps[..|ps| - 1], ps[|ps| - 1];
    var before := ParamsFold(e, pkg, init);
    assert ParamsFold(e, pkg, ps) == ParamStep(before, pkg, last);
    ParamStepConfig(before, pkg, last, k);
    if SetsConfig(last, k) {
      j := |ps| - 1;
    } else {
      var w :| 0 <= w < |ps| && SetsConfig(ps[w], k);
      assert init[w] == ps[w];
      j := ParamsConfigLastWrite(e, pkg, init, k);
      assert init[j] == ps[j];
      assert forall j' :: j < j' < |init| ==> init[j'] == ps[j'];
    }
  }

  /** A node that sets no parameter `k` leaves its entry as it was. */
  lemma NodeKeepsConfig(e: Extraction, n: Node, ignoreProprietary: bool, k: string)
    requires k in e.config && !BuildSetsConfig(n, k)
    ensures k in NodeStep(e, n, ignoreProprietary).config && NodeStep(e, n, ignoreProprietary).config[k] == e.config[k]
  {
    if n.nodeType == Some(BuildType) {
      ParamsKeepConfig(e, BuildPackage(n), ParamsOf(n), k);
    }
  }

  /** The value recorded for a kernel configuration key is the one of the
      last parameter that sets it, in the last build that sets it: later
      parameters and builds overwrite earlier ones. */
  lemma {:induction false} ConfigLastWriteWins(ns: seq<Node>, ignoreProprietary: bool, k: string) returns (i: nat, j: nat)
    requires k in ExtractNodes(ns, ignoreProprietary).config
    ensures i < |ns| && ns[i].nodeType == Some(BuildType)
    ensures j < |ParamsOf(ns[i])| && SetsConfig(ParamsOf(ns[i])[j], k)
    ensures forall j' :: j < j' < |ParamsOf(ns[i])| ==> !SetsConfig(ParamsOf(ns[i])[j'], k)
    ensures forall i' :: i < i' < |ns| ==> !BuildSetsConfig(ns[i'], k)
    ensures ExtractNodes(ns, ignoreProprietary).config[k] == ParamsOf(ns[i])[j].value.value
    decreases |ns|
  {
    var init, last := ns[..|ns| - 1], ns[|ns| - 1];
    var before := ExtractNodes(init, ignoreProprietary);
    assert ExtractNodes(ns, ignoreProprietary) == NodeStep(before, last, ignoreProprietary);
    if BuildSetsConfig(last, k) {
      i := |ns| - 1;
      j := ParamsConfigLastWrite(before, BuildPackage(last), ParamsOf(last), k);
    } else {
      NodeStepConfig(before, last, ignoreProprietary, k);
      NodeKeepsConfig(before, last, ignoreProprietary, k);
      i, j := ConfigLastWriteWins(init, ignoreProprietary, k);
      assert forall i' :: 0 <= i' < |init| ==> ns[i'] == init[i'];
    }
  }

  // ---------------------------------------------------------------------------
  // PACKAGECONFIG

  /** A parameter that selects the feature `f`. */
  predicate SetsFeature(p: Param, f: string) {
    p.Entry? && p.key == Some(PackageConfigPrefix + f) && p.value.Some?
  }

  /** A build of package `pkg` with a parameter that selects `f`. */
  predicate BuildSetsFeature(n: Node, pkg: string, f: string) {
    && n.nodeType == Some(BuildType) && BuildPackage(n) == Some(pkg)
    && exists j :: 0 <= j < |ParamsOf(n)| && SetsFeature(ParamsOf(n)[j], f)
  }

  predicate HasFeature(e: Extraction, pkg: string, f: string) {
    pkg in e.packageConfig && f in e.packageConfig[pkg]
  }

  /** A `PACKAGECONFIG:` key names the feature that follows the prefix. */
  lemma FeatureOfKey(key: string, f: string)
    ensures (StartsWith(key, PackageConfigPrefix) && Feature(key) == f) <==> key == PackageConfigPrefix + f
  {
    if key == PackageConfigPrefix + f {
      assert key[..14] == PackageConfigPrefix;
      assert key[14..] == f;
    }
    if StartsWith(key, PackageConfigPrefix) {
      assert key[14..] == Feature(key);
    }
  }

  lemma ParamFeature(e: Extraction, pkg: Option<string>, p: Param, q: string, f: string)
    ensures HasFeature(ParamStep(e, pkg, p), q, f)
      <==> HasFeature(e, q, f) || (pkg == Some(q) && SetsFeature(p, f))
  {
    if p.Entry? && p.key.Some? {
      FeatureOfKey(p.key.value, f);
      if p.key.value == PackageConfigPrefix + f {
        assert p.key.value[0] == 'P';
        assert !StartsWith(p.key.value, ConfigPrefix);
      }
    }
  }

  lemma {:induction false} ParamsFeatures(e: Extraction, pkg: Option<string>, ps: seq<Param>, q: string, f: string)
    ensures HasFeature(ParamsFold(e, pkg, ps), q, f)
      <==> HasFeature(e, q, f) || (pkg == Some(q) && exists j :: 0 <= j < |ps| && SetsFeature(ps[j], f))
    decreases |ps|
  {
    if ps != [] {
      var init := ps[..|ps| - 1];
      ParamsFeatures(e, pkg, init, q, f);
      assert forall j :: 0 <= j < |init| ==> init[j] == ps[j];
      ParamFeature(ParamsFold(e, pkg, init), pkg, ps[|ps| - 1], q, f);
    }
  }

  /** Package `pkg` has feature `f` in the PACKAGECONFIG mapping exactly when
      some build whose name starts with `pkg:` has a parameter with key
      `PACKAGECONFIG:f` and a value. */
  lemma {:induction false} PackageConfigEntries(ns: seq<Node>, ignoreProprietary: bool, pkg: string, f: string)
    ensures HasFeature(ExtractNodes(ns, ignoreProprietary), pkg, f)
      <==> exists i :: 0 <= i < |ns| && BuildSetsFeature(ns[i], pkg, f)
    decreases |ns|
  {
    if ns != [] {
      var init, last := ns[..|ns| - 1], ns[|ns| - 1];
      PackageConfigEntries(init, ignoreProprietary, pkg, f);
      assert forall i :: 0 <= i < |init| ==> init[i] == ns[i];
      NodeStepFeatures(ExtractNodes(init, ignoreProprietary), last, ignoreProprietary, pkg, f);
    }
  }

  lemma NodeStepFeatures(e: Extraction, n: Node, ignoreProprietary: bool, pkg: string, f: string)
    ensures HasFeature(NodeStep(e, n, ignoreProprietary), pkg, f) <==> HasFeature(e, pkg, f) || BuildSetsFeature(n, pkg, f)
  {
    if n.nodeType == Some(BuildType) {
      ParamsFeatures(e, BuildPackage(n), ParamsOf(n), pkg, f);
    }
  }

  /** One parameter sets feature `f` of package `q` to its own value when it
      belongs to a build of `q` and selects `f`; otherwise the entry is left
      as it was. */
  lemma ParamStepFeature(e: Extraction, pkg: Option<string>, p: Param, q: string, f: string)
    ensures pkg == Some(q) && SetsFeature(p, f) ==>
      HasFeature(ParamStep(e, pkg, p), q, f) && ParamStep(e, pkg, p).packageConfig[q][f] == p.value.value
    ensures !(pkg == Some(q) && SetsFeature(p, f)) && HasFeature(e, q, f) ==>
      HasFeature(ParamStep(e, pkg, p), q, f) && ParamStep(e, pkg, p).packageConfig[q][f] == e.packageConfig[q][f]
  {
    if p.Entry? && p.key.Some? {
      FeatureOfKey(p.key.value, f);
      if p.key.value == PackageConfigPrefix + f {
        assert p.key.value[0] == 'P';
        assert !StartsWith(p.key.value, ConfigPrefix);
      }
    }
  }

  /** Parameters that do not select `f` for `q` leave its entry as it was. */
  lemma {:induction false} ParamsKeepFeature(e: Extraction, pkg: Option<string>, ps: seq<Param>, q: string, f: string)
    requires HasFeature(e, q, f)
    requires pkg != Some(q) || forall j :: 0 <= j < |ps| ==> !SetsFeature(ps[j], f)
    ensures HasFeature(ParamsFold(e, pkg, ps), q, f)
    ensures ParamsFold(e, pkg, ps).packageConfig[q][f] == e.packageConfig[q][f]
    decreases |ps|
  {
    if ps != [] {
      var init, last := ps[..|ps| - 1], ps[|ps| - 1];
      assert ParamsFold(e, pkg, ps) == ParamStep(ParamsFold(e, pkg, init), pkg, last);
      assert forall j :: 0 <= j < |init| ==> init[j] == ps[j];
      ParamsKeepFeature(e, pkg, init, q, f);
      ParamStepFeature(ParamsFold(e, pkg, init), pkg, last, q, f);
    }
  }

  /** Within one build of `q`, the value of feature `f` is the one of the
      last parameter that selects it. */
  lemma {:induction false} ParamsFeatureLastWrite(e: Extraction, pkg: Option<string>, ps: seq<Param>, q: string, f: string) returns (j: nat)
    requires pkg == Some(q)
    requires exists j :: 0 <= j < |ps| && SetsFeature(ps[j], f)
    ensures j < |ps| && SetsFeature(ps[j], f)
    ensures forall j' :: j < j' < |ps| ==> !SetsFeature(ps[j'], f)
    ensures HasFeature(ParamsFold(e, pkg, ps), q, f)
    ensures ParamsFold(e, pkg, ps).packageConfig[q][f] == ps[j].value.value
    decreases |ps|
  {
    var init, last := ps[..|ps| - 1], ps[|ps| - 1];
    var before := ParamsFold(e, pkg, init);
    assert ParamsFold(e, pkg, ps) == ParamStep(before, pkg, last);
    ParamStepFeature(before, pkg, last, q, f);
    if SetsFeature(last, f) {
      j := |ps| - 1;
    } else {
      var w :| 0 <= w < |ps| && SetsFeature(ps[w], f);
      assert init[w] == ps[w];
      j := ParamsFeatureLastWrite(e, pkg, init, q, f);
      assert init[j] == ps[j];
      assert forall j' :: j < j' < |init| ==> init[j'] == ps[j'];
    }
  }

  /** A node that is not a build of `q` selecting `f` leaves the entry as it was. */
  lemma NodeKeepsFeature(e: Extraction, n: Node, ignoreProprietary: bool, q: string, f: string)
    requires HasFeature(e, q, f) && !BuildSetsFeature(n, q, f)
    ensures HasFeature(NodeStep(e, n, ignoreProprietary), q, f)
    ensures NodeStep(e, n, ignoreProprietary).packageConfig[q][f] == e.packageConfig[q][f]
  {
    if n.nodeType == Some(BuildType) {
      ParamsKeepFeature(e, BuildPackage(n), ParamsOf(n), q, f);
    }
  }

  /** The value recorded for feature `f` of package `q` is the one of the
      last parameter selecting `f` in the last build of `q` that selects it. */
  lemma {:induction false} PackageConfigLastWriteWins(ns: seq<Node>, ignoreProprietary: bool, q: string, f: string) returns (i: nat, j: nat)
    requires HasFeature(ExtractNodes(ns, ignoreProprietary), q, f)
    ensures i < |ns| && ns[i].nodeType == Some(BuildType) && BuildPackage(ns[i]) == Some(q)
    ensures j < |ParamsOf(ns[i])| && SetsFeature(ParamsOf(ns[i])[j], f)
    ensures forall j' :: j < j' < |ParamsOf(ns[i])| ==> !SetsFeature(ParamsOf(ns[i])[j'], f)
    ensures forall i' :: i < i' < |ns| ==> !BuildSetsFeature(ns[i'], q, f)
    ensures ExtractNodes(ns, ignoreProprietary).packageConfig[q][f] == ParamsOf(ns[i])[j].value.value
    decreases |ns|
  {
    var init, last := ns[..|ns| - 1], ns[|ns| - 1];
    var before := ExtractNodes(init, ignoreProprietary);
    assert ExtractNodes(ns, ignoreProprietary) == NodeStep(before, last, ignoreProprietary);
    if BuildSetsFeature(last, q, f) {
      i := |ns| - 1;
      j := ParamsFeatureLastWrite(before, BuildPackage(last), ParamsOf(last), q, f);
    } else {
      NodeStepFeatures(before, last, ignoreProprietary, q, f);
      NodeKeepsFeature(before, last, ignoreProprietary, q, f);
      i, j := PackageConfigLastWriteWins(init, ignoreProprietary, q, f);
      assert ns[i] == init[i];
      NoLaterFeatureBuild(ns, init, i, q, f);
    }
  }

  /** No build after `i` in `init` and none at the end of `ns`: none after `i` in `ns`. */
  lemma NoLaterFeatureBuild(ns: seq<Node>, init: seq<Node>, i: nat, q: string, f: string)
    requires ns != [] && init == ns[..|ns| - 1] && i < |init|
    requires forall i' :: i < i' < |init| ==> !BuildSetsFeature(init[i'], q, f)
    requires !BuildSetsFeature(ns[|ns| - 1], q, f)
    ensures forall i' :: i < i' < |ns| ==> !BuildSetsFeature(ns[i'], q, f)
  {
    forall i' | i < i' < |init| ensures !BuildSetsFeature(ns[i'], q, f) {
      assert ns[i'] == init[i'];
    }
  }
}
