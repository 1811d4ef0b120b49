# spdx-diff core, modelled in Dafny

This project models the core of `spdx-diff`, which compares two SPDX 3 software
bills of materials produced by a Yocto/OpenEmbedded build. It also models
`inject_kernel_config.py`, which adds a kernel's `.config` to such a document.

The model covers:

- **Package-name normalisation** (`package_name.dfy`, module `PackageName`).
  - `normalize_package_name` cuts the kernel version and build suffix off kernel
    and kernel-module names.
  - It is modelled with the leftmost-match semantics of Python's `re.search`.
  - Python's `$` also matches just before a final line feed, and the model keeps
    this.
- **Extraction** (`extract.dfy`, module `Extract`).
  - The node loop of `extract_spdx_data` is a method that updates three maps.
  - It is proved against a left fold over the nodes: `ExtractNodes`, built from
    `NodeStep` and `ParamStep`.
  - The three maps are the installed packages, the kernel `CONFIG_*` options and
    the PACKAGECONFIG feature selections.
  - Lemmas about the fold cover:
    - which nodes contribute packages, configuration keys and features;
    - that the last write wins, for package versions, configuration values and feature values;
    - the effect of `ignore_proprietary`;
    - the well-formedness of the result.
- **The diff engine** (`diff.dfy`, module `Diff`).
  - `compare_dicts` is a function.
  - `compare_packageconfig` is a method with the loop of the source, proved
    against a specification function.
  - Both come with their algebraic laws: empty exactly on equal inputs,
    antisymmetry, and patch/revert round trips.
- **The kernel configuration injector** (`inject.dfy`, module `Inject`).
  - The `.config` line parser.
  - `parse_config_file` as a loop.
  - `find_kernel_package` as a first-match search.
  - The creation-info fallback and the build identifier derivation.
  - The body of `main` that appends the build node.
  - What the extractor then reads back from the injected document.
- **Scenarios** (`scenarios.dfy`, module `Scenarios`): small documents that run
  through the extractor and the diff, after the repository's end-to-end tests.

Supporting modules:

- `wrappers.dfy` provides `Option` and `Result`.
- `text.dfy` models the Python `str` operations used: ASCII `strip`, `strip(chars)`,
  `lower`, `split()`, `split(sep)` and substring search.
- `sbom.dfy` holds the typed view of the document's nodes.
  - An absent key and a JSON `null` are both `None`.
  - A `build_parameter` element that is not an object is `NotAnObject`.

Inputs that the source reads from files are parameters of the model:

- the already-parsed `@graph` (`GraphField`, which may be absent, not a list, or a
  list of nodes);
- the lines of the `.config` file.

## Model

| member | source | states |
|---|---|---|
| PackageName.LeftmostCutFrom | src/sbom_diff/cli.py:37-39 | the result is a match position at or after the start point, and no position between the start point and it matches; `None` means no position from the start point on matches |
| PackageName.Normalize | src/sbom_diff/cli.py:37-40 | the result is a prefix of the name; it equals the name iff the pattern matches nowhere; otherwise the pattern matches at the cut and at no earlier hyphen |
| PackageName.VersionCoreIsPattern | src/sbom_diff/cli.py:37 | the model's check for the suffix agrees with the literal reading of `\d+\.\d+(?:\.\d+)?[a-zA-Z0-9._-]*` on a whole string |
| PackageName.CoreInShift | src/sbom_diff/cli.py:37 | testing the group on a stretch of the name in place is the same as testing it on that stretch cut out |
| PackageName.SuffixIsPattern | src/sbom_diff/cli.py:37 | the suffix test at a cut holds iff the rest of the name matches the literal group, or matches it once a final line feed is set aside (Python's `$`) |
| PackageName.KernelExample | src/sbom_diff/cli.py:26 | `kernel-6.12.43-00469-g647daef97a89` normalises to `kernel` |
| PackageName.KernelModuleExample | src/sbom_diff/cli.py:27 | `kernel-module-8021q-6.12.43-00469-g647daef97a89` normalises to `kernel-module-8021q` |
| PackageName.NoVersionExample | src/sbom_diff/cli.py:39-40 | a name whose hyphen is not followed by a version (`i2c-tools`) is returned unchanged |
| PackageName.KernelPrefixKept | src/sbom_diff/cli.py:99-101 | normalising `kernel` or a `kernel-...` name keeps the `kernel` prefix |
| PackageName.NormalizeIdempotent | src/sbom_diff/cli.py:37-40 | for names without a line feed, normalising twice is normalising once |
| PackageName.NewlineBreaksIdempotence | src/sbom_diff/cli.py:37-40 | with `$` matching before a final line feed, `kernel-1.2\n-3.4` normalises to `kernel-1.2\n` and that normalises further to `kernel` |
| Extract.PackageKey | src/sbom_diff/cli.py:98-103 | kernel names (`kernel` or `kernel-...`) become their normalised form, a `kernel`-prefixed prefix of themselves; every other name is kept byte for byte |
| Extract.Contributes | src/sbom_diff/cli.py:83-96 | a package node contributes iff it has a non-empty name and version, is not skipped as proprietary, and has the `install` purpose |
| Extract.BuildPackage | src/sbom_diff/cli.py:109-112 | the package of a build is the non-empty, colon-free text before the first colon of its name; there is none exactly when the name has no colon or starts with one |
| Extract.BuildPackageIs | src/sbom_diff/cli.py:109-112 | every non-empty, colon-free `p` such that the name starts with `p:` is the build's package |
| Extract.Feature | src/sbom_diff/cli.py:124-125 | the feature is exactly the text after the `PACKAGECONFIG:` prefix |
| Extract.FeatureOfKey | src/sbom_diff/cli.py:124-125 | a key is a `PACKAGECONFIG:` key with feature `f` iff it is `PACKAGECONFIG:` followed by `f` |
| Extract.ParamStep | src/sbom_diff/cli.py:115-126 | one parameter never touches the packages and keeps the extraction well formed |
| Extract.ParamsFold | src/sbom_diff/cli.py:114-126 | the parameters of a build never touch the packages and keep the extraction well formed |
| Extract.NodeStep | src/sbom_diff/cli.py:81-126 | one node keeps the extraction well formed |
| Extract.ExtractNodes | src/sbom_diff/cli.py:76-126 | every `CONFIG` key has the prefix; every PACKAGECONFIG package is non-empty, colon-free and has at least one feature |
| Extract.ExtractSpec | src/sbom_diff/cli.py:70-126 | extraction fails exactly when `@graph` is missing or not a list; otherwise its result is well formed |
| Extract.ExtractSpdxData | src/sbom_diff/cli.py:70-138 | the loop computes `ExtractNodes` of the graph; it fails exactly when `@graph` is missing or not a list; the result is well formed |
| Extract.ApplyBuildParameters | src/sbom_diff/cli.py:114-126 | the inner loop over a build's parameters computes `ParamsFold` |
| Extract.NodeStepPackages | src/sbom_diff/cli.py:83-103 | a node adds package key `k` iff it is an installed, named, versioned, non-skipped package whose key is `k`, and then with its version |
| Extract.PackagesWritten | src/sbom_diff/cli.py:83-103 | a key is in the packages map iff some node in the graph contributes it |
| Extract.PackagesLastWriteWins | src/sbom_diff/cli.py:99-103 | the stored version is that of the last node contributing the key |
| Extract.IgnoringProprietaryOnlyDropsPackages | src/sbom_diff/cli.py:89-92 | with `ignore_proprietary` the package keys are a subset of those without it; the other two maps are identical |
| Extract.ConfigKeys | src/sbom_diff/cli.py:106-123 | a key is in the kernel configuration iff some build has a parameter with that key, the `CONFIG_` prefix and a value |
| Extract.ParamStepConfig | src/sbom_diff/cli.py:122-123 | a parameter that sets `k` stores its own value under `k`; any other leaves the entry for `k` as it was |
| Extract.ParamsKeepConfig | src/sbom_diff/cli.py:114-123 | parameters none of which sets `k` leave its entry as it was |
| Extract.ParamsConfigLastWrite | src/sbom_diff/cli.py:114-123 | within one build, the value stored under `k` is that of the last parameter setting `k` |
| Extract.NodeKeepsConfig | src/sbom_diff/cli.py:81-123 | a node with no parameter setting `k` leaves its entry as it was |
| Extract.ConfigLastWriteWins | src/sbom_diff/cli.py:81-123 | the value stored under a configuration key is that of the last parameter setting it, in the last build setting it; no later parameter or build sets it |
| Extract.PackageConfigEntries | src/sbom_diff/cli.py:106-126 | package `p` has feature `f` iff some build named `p:...` has a parameter `PACKAGECONFIG:f` with a value |
| Extract.ParamStepFeature | src/sbom_diff/cli.py:124-126 | a parameter `PACKAGECONFIG:f` of a build of `q` stores its own value as feature `f` of `q`; any other parameter leaves that entry as it was |
| Extract.ParamsKeepFeature | src/sbom_diff/cli.py:114-126 | parameters that do not select `f` for `q` leave that entry as it was |
| Extract.ParamsFeatureLastWrite | src/sbom_diff/cli.py:114-126 | within one build of `q`, the value of feature `f` is that of the last parameter selecting it |
| Extract.NodeKeepsFeature | src/sbom_diff/cli.py:81-126 | a node that is not a build of `q` selecting `f` leaves that entry as it was |
| Extract.PackageConfigLastWriteWins | src/sbom_diff/cli.py:81-126 | the value of feature `f` of package `q` is that of the last parameter selecting it, in the last build of `q` selecting it; no later parameter or build of `q` selects it |
| Diff.CompareDicts | src/sbom_diff/cli.py:155-160 | added, removed and changed have pairwise disjoint keys whose union is exactly the keys on which the inputs disagree; each entry carries the right value or from/to pair |
| Diff.EmptyIffEqual | src/sbom_diff/cli.py:155-159 | the diff is empty iff the two maps are equal |
| Diff.DisjointKeys | src/sbom_diff/cli.py:155-159 | with disjoint key sets, everything new is added and everything old is removed |
| Diff.Antisymmetric | src/sbom_diff/cli.py:155-159 | swapping the arguments swaps added and removed and turns every change around |
| Diff.PatchRoundTrip | src/sbom_diff/cli.py:155-159 | applying the diff to the reference rebuilds the new map |
| Diff.RevertRoundTrip | src/sbom_diff/cli.py:155-159 | reverting the diff on the new map rebuilds the reference |
| Diff.PackageConfigDiff | src/sbom_diff/cli.py:179-207 | added and removed packages are those of the outer flat diff; a package is changed iff it is on both sides with a non-empty feature diff, which it carries |
| Diff.ComparePackageConfig | src/sbom_diff/cli.py:179-207 | the loop over the reference packages computes `PackageConfigDiff` |
| Diff.ChangedPackagesAreFlatChanges | src/sbom_diff/cli.py:183-205 | the changed packages are exactly the keys the outer flat diff reports as changed |
| Diff.NestedEmptyIffEqual | src/sbom_diff/cli.py:179-207 | the PACKAGECONFIG diff is empty iff the two maps are equal |
| Diff.NestedSelfDiffEmpty | src/sbom_diff/cli.py:179-207 | comparing a PACKAGECONFIG map with itself reports nothing |
| Diff.NestedPatchRoundTrip | src/sbom_diff/cli.py:179-207 | applying the nested diff to the reference rebuilds the new map |
| Diff.NestedRevertRoundTrip | src/sbom_diff/cli.py:179-207 | reverting the nested diff on the new map rebuilds the reference |
| Diff.NestedAntisymmetric | src/sbom_diff/cli.py:179-207 | swapping the arguments swaps added and removed packages and swaps each changed package's feature diff |
| Inject.NotSetKey | inject_kernel_config.py:14-15 | the second word of a `# CONFIG_` line starts with `CONFIG_` and holds no blank |
| Inject.ParseStrippedLine | inject_kernel_config.py:12-25 | every recognised stripped line gives a `DictionaryEntry` with a key and a value, neither with blanks around it and the value without quotes around it |
| Inject.ParseConfigLine | inject_kernel_config.py:11-25 | the same holds for a raw line, which is stripped first |
| Inject.SkippedLines | inject_kernel_config.py:11-20 | blank lines and comments without `is not set` give nothing; a line gives an entry only if it is a not-set line or contains `=` |
| Inject.AssignmentStripsOnlyEnds | inject_kernel_config.py:17-24 | on a `K=V` line the recorded key is the text before the first `=` with only blanks removed at its ends, and the value is the text after it with only quotes and blanks removed at its ends |
| Inject.ParseConfigFile | inject_kernel_config.py:7-26 | the loop computes the entries of the recognised lines, in order |
| Inject.Collect | inject_kernel_config.py:10-21 | at most one entry per line |
| Inject.CollectAppend | inject_kernel_config.py:10-21 | the entries of two consecutive chunks of lines are the entries of the first followed by those of the second |
| Inject.EntryFromLine | inject_kernel_config.py:10-21 | every entry comes from some line that parses to it |
| Inject.LineGivesEntry | inject_kernel_config.py:10-21 | every line that parses contributes its entry |
| Inject.NotSetLineIsStripped | inject_kernel_config.py:11 | `# CONFIG_X is not set` is left unchanged by `strip` |
| Inject.NotSetLineParses | inject_kernel_config.py:14-16 | `# CONFIG_X is not set` records `CONFIG_X` with the value `n` |
| Inject.NotSetLineRecords | inject_kernel_config.py:11-16 | any line that, once stripped, starts with `# CONFIG_` and contains `is not set` records its second word with the value `n`, whatever its spacing |
| Inject.AssignmentParses | inject_kernel_config.py:17-18 | `K=V` records `K` with `V`, where `V` may itself contain `=` |
| Inject.QuotedAssignmentParses | inject_kernel_config.py:17-24 | `K="V"` records `K` with `V`, with the quotes dropped |
| Inject.IsKernelPackage | inject_kernel_config.py:33-35 | a kernel package is a `software_Package` whose trimmed, lower-cased description is `linux kernel.`; it has a description |
| Inject.FirstFrom | inject_kernel_config.py:32-36 | the first index from a start point that satisfies the test, with none before it; `None` when there is none |
| Inject.KernelSearchFindsFirst | inject_kernel_config.py:31-37 | the search succeeds iff some package's trimmed, lower-cased description is `linux kernel.`, and then it returns the first such package |
| Inject.FindKernelPackage | inject_kernel_config.py:31-37 | the loop returns the first kernel package, or the not-found error |
| Inject.CreationInfoFor | inject_kernel_config.py:28-29 | the package's `creationInfo` when it is present and non-empty, otherwise `_:CreationInfoDefault`; never empty |
| Inject.KernelBuildId | inject_kernel_config.py:56-58 | an identifier is derived iff the package identifier contains `/spdxdocs/` |
| Inject.KernelBuildIdShape | inject_kernel_config.py:56-58 | for `B/spdxdocs/D` followed by nothing or a `/` path, the build identifier is `B/spdxdocs/D/build/kernel-make` |
| Inject.KernelBuild | inject_kernel_config.py:66-73 | the appended node is a build whose parameters are the parsed entries and whose name gives it no package |
| Inject.GraphOf | inject_kernel_config.py:49 | an absent `@graph` reads as the empty graph, a list as its nodes; anything else is a failure |
| Inject.InjectSpec | inject_kernel_config.py:49-74 | on success the new graph is the old one with exactly one node after it |
| Inject.InjectKernelConfig | inject_kernel_config.py:49-74 | the body of `main` computes `InjectSpec`: the new graph or the reason it stops |
| Inject.InjectSpecAppends | inject_kernel_config.py:52-74 | on success the graph is the old graph plus one node: a `build_Build` named `kernel-make` with the build type, the parsed entries, the derived identifier and the kernel package's creation info |
| Inject.InjectFailures | inject_kernel_config.py:49-58 | injection fails iff `@graph` is not a list, there is no kernel package, or its `spdxId` is missing or lacks `/spdxdocs/` |
| Inject.InjectedConfigIsExtracted | inject_kernel_config.py:64-74 | extracting the injected graph gives the same packages and PACKAGECONFIG maps; its configuration keys are the old ones plus every `CONFIG_` key a line of the file records |
| Scenarios.ProprietaryScenario | tests/test_package.py:14-51 | a proprietary `example` 0.1 and an open `i2c-tools` 4.3 against an empty reference: with `--ignore-proprietary` only `i2c-tools` is added; without it, both are |
| Scenarios.SingleBuildFeature | src/sbom_diff/cli.py:106-126 | one build `pkg:...` with parameter `PACKAGECONFIG:f` gives `pkg` exactly the feature `f` |
| Scenarios.OpensslScenario | tests/test_packageconfig.py:8-19 | when `openssl`'s `no-tls1` goes from `disabled` to `enabled`, the PACKAGECONFIG diff reports only that change |

## Left out

- Reading and writing files and JSON are not modelled; the model takes the parsed `@graph` and the `.config` lines as inputs:
  - `json.load` and the error wrapping at src/sbom_diff/cli.py:63-68;
  - the reads and writes of `inject_kernel_config.py` at lines 46-47 and 86-87.
- Logging and the warning when no build is found (src/sbom_diff/cli.py:74, 128-137) are diagnostics only.
- Argument parsing, the show flags and the timestamped output name are command-line plumbing.
- The printing and JSON-writing functions of `cli.py` only present the result. The key sorting of the output is not modelled, because maps have no order.
- JSON values other than strings are not modelled. Keys, values, names, versions, descriptions and identifiers are strings or absent. A non-string `name` or key, which would make Python raise, is therefore not modelled.
- A JSON `null` is treated like an absent key. This matches Python for `creationInfo`. It does not match Python for:
  - a `null` `description`, where `.strip()` would raise;
  - a `null` build `name`, where `":" in None` would raise.
- Graph items that are not objects are not modelled, because nodes are a typed record. Build parameters that are not objects are modelled as `NotAnObject`.
- The injector treats every `@graph` that is present but not an array as a failure (`GraphNotAList`). In Python such a value is iterated and the iteration raises, except that an empty object or string reaches the not-found `ValueError`.
- Unicode semantics of `\d`, `str.strip`, `str.split` and `str.lower` are not modelled; the model uses ASCII characters only.
- The relationship from the kernel package to its build (inject_kernel_config.py:76-82) is commented out in the source and is not modelled.
- Proprietary detection reads only the package node's own `simplelicensing_licenseExpression` field and compares it with `LicenseRef-Proprietary` (src/sbom_diff/cli.py:89-90). No relationship edges are followed and no graph index is built, so neither is modelled.
- A `build_parameter` that is present but not a list is read as an empty parameter list, because the typed node record cannot tell such values from an absent field.
  - For a string or an object this is exact: iterating it at src/sbom_diff/cli.py:114 yields characters or keys, none of which is a `dict`, so every one is skipped.
  - For `null`, a number or a boolean it is not: Python raises a `TypeError` at src/sbom_diff/cli.py:114 and extraction stops, while the model carries on as if the build had no parameters.
- PackageName.NormalizeIdempotent: normalisation is idempotent only for names without a line feed.
  - The pattern's `$` also matches before a final line feed, so a name containing a line feed can be cut further on a second pass.
  - `PackageName.NewlineBreaksIdempotence` gives the input that shows this.
