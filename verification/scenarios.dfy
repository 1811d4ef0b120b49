/** Small documents run through the extractor and the diff engine, after the
    end-to-end tests of the repository: a proprietary package filtered out by
    `--ignore-proprietary`, and a PACKAGECONFIG feature whose value changes. */
module Scenarios {
  import opened Wrappers
  import opened Sbom
  import opened Text
  import opened Extract
  import Diff

  /** An installed package node with a license expression. */
  function PackageNode(name: string, version: string, license: string): Node {
    Node(Some(PackageType), None, None, Some(name), Some(version), Some(InstallPurpose), Some(license), None, None, None)
  }

  /** A proprietary package `example` 0.1 and an open `i2c-tools` 4.3, compared
      with an empty reference: with `--ignore-proprietary` only `i2c-tools` is
      added, without it both are. */
  lemma ProprietaryScenario()
    ensures var g := [PackageNode("example", "0.1", ProprietaryLicense), PackageNode("i2c-tools", "4.3", "GPL-2.0-or-later")];
      && Diff.CompareDicts(map[], ExtractNodes(g, true).packages).added == map["i2c-tools" := "4.3"]
      && Diff.CompareDicts(map[], ExtractNodes(g, false).packages).added == map["example" := "0.1", "i2c-tools" := "4.3"]
  {
    var g := [PackageNode("example", "0.1", ProprietaryLicense), PackageNode("i2c-tools", "4.3", "GPL-2.0-or-later")];
    assert g[..1][..0] == [];
    assert !StartsWith("example", "kernel-") by { assert "example"[0] != "kernel-"[0]; }
    assert !StartsWith("i2c-tools", "kernel-") by { assert "i2c-tools"[0] != "kernel-"[0]; }
    assert ExtractNodes(g[..1], true) == Empty;
    assert ExtractNodes(g[..1], false).packages == map["example" := "0.1"];
    assert ExtractNodes(g, true).packages == map["i2c-tools" := "4.3"];
    assert ExtractNodes(g, false).packages == map["example" := "0.1", "i2c-tools" := "4.3"];
  }

  /** A build node with one `DictionaryEntry` parameter. */
  function BuildNode(name: string, key: string, value: string): Node {
    Node(Some(BuildType), None, None, Some(name), None, None, None, None, None,
      Some([Entry(Some("DictionaryEntry"), Some(key), Some(value))]))
  }

  /** A build named `pkg:...` with the parameter `PACKAGECONFIG:f` gives
      `pkg` the single feature `f`. */
  lemma SingleBuildFeature(name: string, key: string, value: string, pkg: string, f: string)
    requires StartsWith(name, pkg + ":") && pkg != "" && ':' !in pkg
    requires key == PackageConfigPrefix + f
    ensures ExtractNodes([BuildNode(name, key, value)], false).packageConfig == map[pkg := map[f := value]]
  {
    var n := BuildNode(name, key, value);
    assert [n][..0] == [];
    assert BuildName(n) == name;
    BuildPackageIs(n, pkg);
    assert key[0] == 'P';
    assert !StartsWith(key, ConfigPrefix);
    assert StartsWith(key, PackageConfigPrefix);
    FeatureOfKey(key, f);
    assert Feature(key) == f;
    var ps := ParamsOf(n);
    assert ps[..0] == [];
    assert ParamsFold(Empty, Some(pkg), ps[..0]) == Empty;
    assert ParamStep(Empty, Some(pkg), ps[0]).packageConfig == map[pkg := map[f := value]];
    assert ParamsFold(Empty, Some(pkg), ps).packageConfig == map[pkg := map[f := value]];
    assert NodeStep(Empty, n, false).packageConfig == map[pkg := map[f := value]];
  }

  /** The feature `no-tls1` of `openssl` goes from `disabled` to `enabled`:
      the diff reports exactly that change, inside the package's entry. */
  lemma OpensslScenario()
    ensures var r := ExtractNodes([BuildNode("openssl:do_create_spdx", "PACKAGECONFIG:no-tls1", "disabled")], false).packageConfig;
      var n := ExtractNodes([BuildNode("openssl:do_create_spdx", "PACKAGECONFIG:no-tls1", "enabled")], false).packageConfig;
      Diff.PackageConfigDiff(r, n) == Diff.NestedDiff(map[], map[],
        map["openssl" := Diff.FlatDiff(map[], map[], map["no-tls1" := Diff.Change("disabled", "enabled")])])
  {
    assert "openssl:do_create_spdx" == "openssl:" + "do_create_spdx";
    assert "PACKAGECONFIG:no-tls1" == PackageConfigPrefix + "no-tls1";
    SingleBuildFeature("openssl:do_create_spdx", "PACKAGECONFIG:no-tls1", "disabled", "openssl", "no-tls1");
    SingleBuildFeature("openssl:do_create_spdx", "PACKAGECONFIG:no-tls1", "enabled", "openssl", "no-tls1");
    OpensslDiff();
  }

  lemma OpensslDiff()
    ensures Diff.PackageConfigDiff(map["openssl" := map["no-tls1" := "disabled"]], map["openssl" := map["no-tls1" := "enabled"]])
      == Diff.NestedDiff(map[], map[], map["openssl" := Diff.FlatDiff(map[], map[], map["no-tls1" := Diff.Change("disabled", "enabled")])])
  {
    assert "disabled"[0] != "enabled"[0];
    OneFeatureChanged("openssl", "no-tls1", "disabled", "enabled");
  }

  /** One package on both sides whose single feature changes value. */
  lemma OneFeatureChanged<V>(pkg: string, f: string, a: V, b: V)
    requires a != b
    ensures Diff.PackageConfigDiff(map[pkg := map[f := a]], map[pkg := map[f := b]])
      == Diff.NestedDiff(map[], map[], map[pkg := Diff.FlatDiff(map[], map[], map[f := Diff.Change(a, b)])])
  {
    OneValueChanged(f, a, b);
  }

  lemma OneValueChanged<V>(f: string, a: V, b: V)
    requires a != b
    ensures Diff.CompareDicts(map[f := a], map[f := b]) == Diff.FlatDiff(map[], map[], map[f := Diff.Change(a, b)])
  {
    assert Diff.CompareDicts(map[f := a], map[f := b]).changed.Keys == {f};
  }
}
