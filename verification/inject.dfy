/** The kernel configuration injector: reads a Linux `.config` file, finds the
    kernel package of an SPDX 3 document and appends to its `@graph` one build
    node whose parameters are the configuration entries, so that the extractor
    can later compare kernel configurations. */
module Inject {
  import opened Wrappers
  import opened Text
  import opened Sbom
  import Extract

  const NotSetMarker := "is not set"
  const NotSetPrefix := "# CONFIG_"
  const EntryType := "DictionaryEntry"
  /** The characters removed from both ends of a configuration value. */
  const ValueStripped: set<char> := {'"', ' ', '\t', '\n', '\r'}
  const DefaultCreationInfo := "_:CreationInfoDefault"
  const KernelDescription := "linux kernel."
  const DocsSeparator := "/spdxdocs/"
  const BuildSuffix := "/build/kernel-make"
  const KernelBuildName := "kernel-make"
  const KernelBuildType := "http://openembedded.org/bitbake/do_create_spdx/kernel-make"

  /** Why the injector stops without writing a document. */
  datatype InjectError =
    | GraphNotAList      // `@graph` holds something that is not an array
    | NoKernelPackage    // the `ValueError` of `find_kernel_package`
    | MissingSpdxId      // the kernel package has no `spdxId` (a `KeyError`)
    | NoSpdxDocsSegment  // the identifier lacks `/spdxdocs/` (an `IndexError`)

  // ---------------------------------------------------------------------------
  // Parsing `.config`

  /** The build parameter recorded for one configuration entry. */
  function ConfigEntry(key: string, value: string): Param {
    Entry(Some(EntryType), Some(key), Some(value))
  }

  /** The second whitespace-separated word of a `# CONFIG_... is not set`
      line: the configuration symbol itself. */
  function NotSetKey(line: string): (k: string)
    requires StartsWith(line, NotSetPrefix)
    ensures StartsWith(k, Extract.ConfigPrefix)
    ensures forall i :: 0 <= i < |k| ==> !IsSpace(k[i])
  {
    var rest := line[2..];
    assert line[..9] == NotSetPrefix;
    assert line[0] == '#' && line[1] == ' ';
    assert rest[..7] == Extract.ConfigPrefix by {
      assert rest[..7] == line[..9][2..];
    }
    assert forall i :: 0 <= i < 7 ==> !IsSpace(rest[i]) by {
      forall i | 0 <= i < 7 ensures !IsSpace(rest[i]) {
        assert rest[i] == Extract.ConfigPrefix[i];
      }
    }
    var m := NonSpaceRun(rest);
    assert m >= 7;
    assert NonSpaceRun(line) == 1;
    assert line[1..][1..] == rest;
    assert Tokens(line) == [line[..1]] + Tokens(line[1..]);
    assert Tokens(line[1..]) == Tokens(rest);
    assert Tokens(rest) == [rest[..m]] + Tokens(rest[m..]);
    assert rest[..m][..7] == rest[..7];
    Tokens(line)[1]
  }

  /** What every parsed line records: a dictionary entry with a key and a
      value, the key without surrounding blanks and the value without
      surrounding blanks or quotes. */
  predicate IsConfigEntry(p: Param) {
    && p.Entry? && p.paramType == Some(EntryType) && p.key.Some? && p.value.Some?
    && (p.key.value != [] ==> !IsSpace(p.key.value[0]) && !IsSpace(p.key.value[|p.key.value| - 1]))
    && (p.value.value != [] ==> p.value.value[0] !in ValueStripped && p.value.value[|p.value.value| - 1] !in ValueStripped)
  }

  /** One line of the configuration file, as read from it: the line is
      stripped of surrounding blanks first. */
  function ParseConfigLine(raw: string): (r: Option<Param>)
    ensures r.Some? ==> IsConfigEntry(r.value)
  {
    ParseStrippedLine(Strip(raw))
  }

  /** A stripped line: blank lines and comments are skipped, except
      `# CONFIG_X is not set`, which records `CONFIG_X` as `n`; any other line
      with `=` records the stripped text before the first `=` as the key and
      the text after it, stripped of quotes and blanks, as the value; a line
      with neither is skipped. */
  function ParseStrippedLine(line: string): (r: Option<Param>)
    ensures r.Some? ==> IsConfigEntry(r.value)
  {
    if line == "" || (StartsWith(line, "#") && !Contains(line, NotSetMarker)) then None
    else if StartsWith(line, NotSetPrefix) && Contains(line, NotSetMarker) then
      Some(ConfigEntry(Strip(NotSetKey(line)), StripChars("n", ValueStripped)))
    else if Contains(line, "=") then
      Some(ConfigEntry(Strip(SplitHead(line, "=")), StripChars(AfterFirst(line, "=").value, ValueStripped)))
    else None
  }

  /** Blank lines and comments other than `is not set` ones record nothing,
      and a line records something only when it is a `# CONFIG_... is not set`
      line or holds an `=`. */
  lemma SkippedLines(raw: string)
    ensures var line := Strip(raw);
      line == "" || (StartsWith(line, "#") && !Contains(line, NotSetMarker)) ==> ParseConfigLine(raw).None?
    ensures var line := Strip(raw);
      ParseConfigLine(raw).Some? ==> (StartsWith(line, NotSetPrefix) && Contains(line, NotSetMarker)) || Contains(line, "=")
  {
  }

  /** On an assignment line, parsing removes from the text after the first
      `=` only quotes and blanks at its two ends, and from the text before it
      only blanks at its two ends. */
  lemma AssignmentStripsOnlyEnds(raw: string)
    requires var line := Strip(raw);
      && Contains(line, "=")
      && !(StartsWith(line, "#") && !Contains(line, NotSetMarker))
      && !(StartsWith(line, NotSetPrefix) && Contains(line, NotSetMarker))
    ensures ParseConfigLine(raw).Some?
    ensures var line, entry := Strip(raw), ParseConfigLine(raw).value;
      && (exists a :: StrippedAt(SplitHead(line, "="), entry.key.value, Whitespace, a))
      && (exists a :: StrippedAt(AfterFirst(line, "=").value, entry.value.value, ValueStripped, a))
  {
    var line := Strip(raw);
    StripCharsIsStripped(SplitHead(line, "="), Whitespace);
    StripCharsIsStripped(AfterFirst(line, "=").value, ValueStripped);
  }

  /** The entries that `parse` recognises among `lines`, one per recognised
      line, in order. */
  function Collect(parse: string -> Option<Param>, lines: seq<string>): (r: seq<Param>)
    decreases |lines|
    ensures |r| <= |lines|
  {
    if lines == [] then []
    else
      var before := Collect(parse, lines[..|lines| - 1]);
      match parse(lines[|lines| - 1])
      case Some(p) => before + [p]
      case None => before
  }

  /** The entries of a whole configuration file. */
  function ParsedEntries(lines: seq<string>): seq<Param> {
    Collect(ParseConfigLine, lines)
  }

  /** `parse_config_file` once the file is split into lines. */
  method ParseConfigFile(lines: seq<string>) returns (entries: seq<Param>)
    ensures entries == ParsedEntries(lines)
  {
    entries := [];
    var i := 0;
    while i < |lines|
      invariant 0 <= i <= |lines|
      invariant entries == Collect(ParseConfigLine, lines[..i])
    {
      assert lines[..i + 1][..i] == lines[..i];
      var parsed := ParseConfigLine(lines[i]);
      if parsed.Some? {
        entries := entries + [parsed.value];
      }
      i := i + 1;
    }
    assert lines[..i] == lines;
  }

  /** A configuration line that records `k`. */
  predicate ConfiguresKey(line: string, k: string) {
    ParseConfigLine(line).Some? && ParseConfigLine(line).value.key == Some(k)
  }

  /** The entries of consecutive chunks of a file are the entries of the
      first chunk followed by those of the second. */
  lemma {:induction false} CollectAppend(parse: string -> Option<Param>, a: seq<string>, b: seq<string>)
    ensures Collect(parse, a + b) == Collect(parse, a) + Collect(parse, b)
    decreases |b|
  {
    if b != [] {
      var b' := b[..|b| - 1];
      CollectAppend(parse, a, b');
      assert (a + b)[..|a + b| - 1] == a + b';
      assert (a + b)[|a + b| - 1] == b[|b| - 1];
    } else {
      assert a + b == a;
    }
  }

  /** Every entry comes from a recognised line. */
  lemma {:induction false} EntryFromLine(parse: string -> Option<Param>, lines: seq<string>, p: Param) returns (i: nat)
    requires p in Collect(parse, lines)
    ensures i < |lines| && parse(lines[i]) == Some(p)
    decreases |lines|
  {
    var init := lines[..|lines| - 1];
    if parse(lines[|lines| - 1]) == Some(p) {
      i := |lines| - 1;
    } else {
      i := EntryFromLine(parse, init, p);
      assert lines[i] == init[i];
    }
  }

  /** Every recognised line contributes its entry. */
  lemma {:induction false} LineGivesEntry(parse: string -> Option<Param>, lines: seq<string>, i: nat, p: Param)
    requires i < |lines| && parse(lines[i]) == Some(p)
    ensures p in Collect(parse, lines)
    decreases |lines|
  {
    var init := lines[..|lines| - 1];
    if i < |init| {
      assert lines[i] == init[i];
      LineGivesEntry(parse, init, i, p);
    }
  }

  /** A `# CONFIG_X is not set` line has nothing to strip. */
  lemma NotSetLineIsStripped(line: string, k: string)
    requires line == "# " + k + " " + NotSetMarker
    ensures Strip(line) == line
  {
    assert line[0] == '#';
    assert line[|line| - 1] == 't';
    StripCharsKeeps(line, Whitespace);
  }

  /** Once stripped, a line `# CONFIG_X is not set` records `CONFIG_X` with
      the value `n`. */
  lemma NotSetLineParses(line: string, k: string)
    requires StartsWith(k, Extract.ConfigPrefix)
    requires forall i :: 0 <= i < |k| ==> !IsSpace(k[i])
    requires line == "# " + k + " " + NotSetMarker
    ensures ParseStrippedLine(line) == Some(ConfigEntry(k, "n"))
  {
    calc {
      ParseStrippedLine(line);
      { NotSetLineFacts(line, k); }
      Some(ConfigEntry(Strip(NotSetKey(line)), StripChars("n", ValueStripped)));
      { NotSetLineFacts(line, k); }
      Some(ConfigEntry(k, "n"));
    }
  }

  /** Any line that, once stripped, starts with `# CONFIG_` and contains
      `is not set` records its second word with the value `n`, whatever the
      spacing and whatever follows the marker. */
  lemma NotSetLineRecords(raw: string)
    requires StartsWith(Strip(raw), NotSetPrefix) && Contains(Strip(raw), NotSetMarker)
    ensures ParseConfigLine(raw) == Some(ConfigEntry(NotSetKey(Strip(raw)), "n"))
  {
    var k := NotSetKey(Strip(raw));
    StripCharsKeeps(k, Whitespace);
    StripCharsKeeps("n", ValueStripped);
  }

  lemma NotSetLineFacts(line: string, k: string)
    requires StartsWith(k, Extract.ConfigPrefix)
    requires forall i :: 0 <= i < |k| ==> !IsSpace(k[i])
    requires line == "# " + k + " " + NotSetMarker
    ensures StartsWith(line, NotSetPrefix) && Contains(line, NotSetMarker)
    ensures NotSetKey(line) == k && Strip(k) == k && StripChars("n", ValueStripped) == "n"
  {
    NotSetLineMarked(line, k);
    NotSetKeyIs(line, k);
    StripCharsKeeps(k, Whitespace);
    StripCharsKeeps("n", ValueStripped);
  }

  lemma NotSetLineMarked(line: string, k: string)
    requires StartsWith(k, Extract.ConfigPrefix)
    requires line == "# " + k + " " + NotSetMarker
    ensures StartsWith(line, NotSetPrefix) && Contains(line, NotSetMarker)
  {
    assert line[..9] == "# " + k[..7];
    assert line[|k| + 3..|k| + 3 + |NotSetMarker|] == NotSetMarker;
    assert OccursAt(line, |k| + 3, NotSetMarker);
  }

  lemma NotSetKeyIs(line: string, k: string)
    requires StartsWith(k, Extract.ConfigPrefix)
    requires forall i :: 0 <= i < |k| ==> !IsSpace(k[i])
    requires line == "# " + k + " " + NotSetMarker
    requires StartsWith(line, NotSetPrefix)
    ensures NotSetKey(line) == k
  {
    var rest := line[2..];
    assert rest == k + " " + NotSetMarker;
    assert NonSpaceRun(rest) == |k| by {
      assert rest[|k|] == ' ';
      assert forall i :: 0 <= i < |k| ==> rest[i] == k[i];
    }
    assert rest[..|k|] == k;
    assert NonSpaceRun(line) == 1;
    assert line[1..][1..] == rest;
    assert Tokens(line) == [line[..1]] + Tokens(line[1..]);
    assert Tokens(line[1..]) == Tokens(rest);
    assert Tokens(rest) == [k] + Tokens(rest[|k|..]);
  }

  /** A key as a `.config` assignment writes it: not empty, not a comment,
      without `=` and without surrounding blanks. */
  predicate BareKey(k: string) {
    && k != [] && k[0] != '#' && '=' !in k
    && !IsSpace(k[0]) && !IsSpace(k[|k| - 1])
  }

  /** A value written without quotes: its ends are neither blanks nor quotes. */
  predicate BareValue(v: string) {
    v != [] ==> v[0] !in ValueStripped + Whitespace && v[|v| - 1] !in ValueStripped + Whitespace
  }

  /** A line `K=V` records `K` with the value `V`. */
  lemma AssignmentParses(k: string, v: string)
    requires BareKey(k) && BareValue(v)
    ensures ParseConfigLine(k + "=" + v) == Some(ConfigEntry(k, v))
  {
    var line := k + "=" + v;
    AssignmentSplits(line, k, v);
    StripCharsKeeps(v, ValueStripped);
  }

  /** A line `K="V"` records `K` with the value `V`, the quotes dropped. */
  lemma QuotedAssignmentParses(k: string, v: string)
    requires BareKey(k) && BareValue(v)
    ensures ParseConfigLine(k + "=\"" + v + "\"") == Some(ConfigEntry(k, v))
  {
    var quoted := "\"" + v + "\"";
    var line := k + "=" + quoted;
    assert k + "=\"" + v + "\"" == line;
    AssignmentSplits(line, k, quoted);
    StripCharsUnwraps('"', v, ValueStripped);
  }

  /** The shared part of the two assignment lemmas: the line is left as it is
      by stripping, is not a comment, and splits at the end of `k`. */
  lemma AssignmentSplits(line: string, k: string, v: string)
    requires BareKey(k)
    requires v != [] ==> !IsSpace(v[|v| - 1])
    requires line == k + "=" + v
    ensures ParseConfigLine(line) == Some(ConfigEntry(k, StripChars(v, ValueStripped)))
  {
    AssignmentLineKept(line, k, v);
    assert StartsWith(line, k + ['=']) by {
      assert line[..|k| + 1] == k + "=";
    }
    FirstCharAfter(line, k, '=');
    assert AfterFirst(line, "=") == Some(v) by {
      assert line[|k| + 1..] == v;
    }
    StripCharsKeeps(k, Whitespace);
    calc {
      ParseConfigLine(line);
      ParseStrippedLine(line);
      Some(ConfigEntry(Strip(SplitHead(line, "=")), StripChars(AfterFirst(line, "=").value, ValueStripped)));
      Some(ConfigEntry(k, StripChars(v, ValueStripped)));
    }
  }

  /** An assignment line is left as it is by stripping and is neither a
      comment nor a `# CONFIG_` line. */
  lemma AssignmentLineKept(line: string, k: string, v: string)
    requires BareKey(k)
    requires v != [] ==> !IsSpace(v[|v| - 1])
    requires line == k + "=" + v
    ensures Strip(line) == line && line != "" && !StartsWith(line, "#") && !StartsWith(line, NotSetPrefix)
  {
    assert line[0] == k[0];
    assert line[|line| - 1] == if v == [] then '=' else v[|v| - 1];
    StripCharsKeeps(line, Whitespace);
  }

  // ---------------------------------------------------------------------------
  // The kernel package

  /** `obj.get("description", "")` */
  function DescriptionOf(n: Node): string {
    match n.description
    case Some(d) => d
    case None => ""
  }

  /** A package node whose description, stripped and lower-cased, reads
      `linux kernel.`. */
  predicate IsKernelPackage(n: Node): (b: bool)
    ensures b ==> n.nodeType == Some(PackageType) && n.description.Some?
  {
    n.nodeType == Some(PackageType) && Lower(Strip(DescriptionOf(n))) == KernelDescription
  }

  /** The index of the first node at or after `from` that satisfies `p`. */
  function FirstFrom(graph: seq<Node>, p: Node -> bool, from: nat): (r: Option<nat>)
    requires from <= |graph|
    decreases |graph| - from
    ensures r.Some? ==> from <= r.value < |graph| && p(graph[r.value])
    ensures r.Some? ==> forall j :: from <= j < r.value ==> !p(graph[j])
    ensures r.None? ==> forall j :: from <= j < |graph| ==> !p(graph[j])
  {
    if from == |graph| then None
    else if p(graph[from]) then Some(from)
    else FirstFrom(graph, p, from + 1)
  }

  /** The first match is the one with none before it. */
  lemma {:induction false} FirstFromIs(graph: seq<Node>, p: Node -> bool, from: nat, i: nat)
    requires from <= i <= |graph|
    requires i < |graph| ==> p(graph[i])
    requires forall j :: from <= j < i ==> !p(graph[j])
    ensures FirstFrom(graph, p, from) == if i < |graph| then Some(i) else None
    decreases i - from
  {
    if from < i {
      FirstFromIs(graph, p, from + 1, i);
    }
  }

  /** The index of the first kernel package of the graph. */
  function FirstKernelIndex(graph: seq<Node>): Option<nat> {
    FirstFrom(graph, IsKernelPackage, 0)
  }

  /** What `find_kernel_package` returns: the first kernel package, or the
      error when there is none. */
  function KernelSearch(graph: seq<Node>): Result<Node, InjectError> {
    match FirstKernelIndex(graph)
    case Some(i) => Ok(graph[i])
    case None => Err(NoKernelPackage)
  }

  /** The search succeeds exactly when the graph holds a kernel package, and
      then returns the first one. */
  lemma KernelSearchFindsFirst(graph: seq<Node>)
    ensures KernelSearch(graph).Ok? <==> exists i :: 0 <= i < |graph| && IsKernelPackage(graph[i])
    ensures KernelSearch(graph).Ok? ==> exists i :: (0 <= i < |graph| && KernelSearch(graph).value == graph[i]
      && IsKernelPackage(graph[i]) && forall j :: 0 <= j < i ==> !IsKernelPackage(graph[j]))
  {
    var r := FirstFrom(graph, IsKernelPackage, 0);
    if r.Some? {
      assert IsKernelPackage(graph[r.value]);
    }
  }

  /** `find_kernel_package`: scans the graph in order. */
  method FindKernelPackage(graph: seq<Node>) returns (r: Result<Node, InjectError>)
    ensures r == KernelSearch(graph)
  {
    var i := 0;
    while i < |graph|
      invariant 0 <= i <= |graph|
      invariant forall j :: 0 <= j < i ==> !IsKernelPackage(graph[j])
    {
      var obj := graph[i];
      if IsKernelPackage(obj) {
        FirstFromIs(graph, IsKernelPackage, 0, i);
        return Ok(obj);
      }
      i := i + 1;
    }
    FirstFromIs(graph, IsKernelPackage, 0, |graph|);
    return Err(NoKernelPackage);
  }

  // ---------------------------------------------------------------------------
  // The build node

  /** `get_creation_info_from_package`: the package's creation information
      when it has a non-empty one, otherwise the default blank node. */
  function CreationInfoFor(n: Node): (r: string)
    ensures r != ""
    ensures r == DefaultCreationInfo || n.creationInfo == Some(r)
    ensures n.creationInfo.None? || n.creationInfo == Some("") ==> r == DefaultCreationInfo
    ensures n.creationInfo.Some? && n.creationInfo.value != "" ==> r == n.creationInfo.value
  {
    match n.creationInfo
    case Some(c) => if c != "" then c else DefaultCreationInfo
    case None => DefaultCreationInfo
  }

  /** The identifier of the kernel build, derived from the kernel package's:
      the part before the first `/spdxdocs/`, that separator, the path segment
      after it, and `/build/kernel-make`. */
  function KernelBuildId(id: string): (r: Option<string>)
    ensures r.Some? <==> Contains(id, DocsSeparator)
  {
    match SplitSecond(id, DocsSeparator)
    case Some(docPart) =>
      Some(SplitHead(id, DocsSeparator) + DocsSeparator + SplitHead(docPart, "/") + BuildSuffix)
    case None => None
  }

  /** The build lives in the same SPDX document as the package: when the
      package's identifier is `B/spdxdocs/D` followed by nothing or by a path,
      the build's is `B/spdxdocs/D/build/kernel-make`. */
  lemma KernelBuildIdShape(base: string, doc: string, rest: string)
    requires forall j :: 0 <= j < |base| ==> !OccursAt(base + DocsSeparator + doc + rest, j, DocsSeparator)
    requires '/' !in doc
    requires rest == [] || rest[0] == '/'
    ensures KernelBuildId(base + DocsSeparator + doc + rest) == Some(base + DocsSeparator + doc + BuildSuffix)
  {
    var id := base + DocsSeparator + doc + rest;
    assert id[|base|..|base| + |DocsSeparator|] == DocsSeparator;
    IndexOfIs(id, DocsSeparator, |base|);
    assert SplitHead(id, DocsSeparator) == base;
    assert AfterFirst(id, DocsSeparator) == Some(doc + rest) by {
      assert id[|base| + |DocsSeparator|..] == doc + rest;
    }
    SecondSegment(doc, rest);
  }

  /** Cutting `doc + rest` at the next separator and then at the next `/`
      leaves `doc`. */
  lemma SecondSegment(doc: string, rest: string)
    requires '/' !in doc
    requires rest == [] || rest[0] == '/'
    ensures SplitHead(SplitHead(doc + rest, DocsSeparator), "/") == doc
  {
    var s := doc + rest;
    var h := SplitHead(s, DocsSeparator);
    forall j | 0 <= j < |doc| ensures !OccursAt(s, j, DocsSeparator) {
      assert s[j] == doc[j] != '/';
      if j + |DocsSeparator| <= |s| {
        assert s[j..j + |DocsSeparator|][0] != DocsSeparator[0];
      }
    }
    match IndexOf(s, DocsSeparator)
    case Some(i) =>
      assert i >= |doc|;
      assert h == doc + rest[..i - |doc|];
      assert i > |doc| ==> rest[..i - |doc|][0] == '/';
      SplitHeadAtChar(doc, rest[..i - |doc|], '/');
    case None =>
      SplitHeadAtChar(doc, rest, '/');
  }

  /** The node appended to the graph: a build whose parameters are the
      entries and whose name carries no package, so the extractor attributes
      its PACKAGECONFIG parameters to no package. */
  function KernelBuild(id: string, creationInfo: string, entries: seq<Param>): (r: Node)
    ensures r.nodeType == Some(BuildType) && ParamsOf(r) == entries
    ensures Extract.BuildPackage(r).None?
  {
    NotContainsChar(KernelBuildName, ':');
    Node(
      nodeType := Some(BuildType),
      spdxId := Some(id),
      creationInfo := Some(creationInfo),
      name := Some(KernelBuildName),
      packageVersion := None,
      primaryPurpose := None,
      licenseExpression := None,
      description := None,
      buildType := Some(KernelBuildType),
      buildParameters := Some(entries))
  }

  /** The `@graph` the injector reads: an absent field is an empty graph. */
  function GraphOf(doc: GraphField): (r: Result<seq<Node>, InjectError>)
    ensures r.Err? <==> doc.NotAList?
    ensures doc.Absent? ==> r == Ok([])
    ensures doc.Nodes? ==> r == Ok(doc.nodes)
  {
    match doc
    case Absent => Ok([])
    case NotAList => Err(GraphNotAList)
    case Nodes(ns) => Ok(ns)
  }

  /** The graph the injector writes, or why it stops. */
  function InjectSpec(doc: GraphField, lines: seq<string>): (r: Result<seq<Node>, InjectError>)
    ensures r.Ok? ==> doc.Nodes? && |r.value| == |doc.nodes| + 1 && r.value[..|doc.nodes|] == doc.nodes
  {
    match GraphOf(doc)
    case Err(e) => Err(e)
    case Ok(graph) =>
      match KernelSearch(graph)
      case Err(e) => Err(e)
      case Ok(kernel) =>
        match kernel.spdxId
        case None => Err(MissingSpdxId)
        case Some(id) =>
          match KernelBuildId(id)
          case None => Err(NoSpdxDocsSegment)
          case Some(buildId) =>
            Ok(graph + [KernelBuild(buildId, CreationInfoFor(kernel), ParsedEntries(lines))])
  }

  /** The body of the injector's `main` between loading the document and
      writing it: find the kernel package, derive the build's identifier,
      parse the configuration and append the build to the graph. */
  method InjectKernelConfig(doc: GraphField, lines: seq<string>) returns (r: Result<seq<Node>, InjectError>)
    ensures r == InjectSpec(doc, lines)
  {
    var graph: seq<Node>;
    match doc {
      case Absent => graph := [];
      case NotAList => return Err(GraphNotAList);
      case Nodes(ns) => graph := ns;
    }
    var found := FindKernelPackage(graph);
    if found.Err? {
      return Err(found.error);
    }
    var kernel := found.value;
    if kernel.spdxId.None? {
      return Err(MissingSpdxId);
    }
    var kernelId := kernel.spdxId.value;
    if !Contains(kernelId, DocsSeparator) {
      return Err(NoSpdxDocsSegment);
    }
    var baseDocUri := SplitHead(kernelId, DocsSeparator);
    var docIdPart := SplitHead(SplitSecond(kernelId, DocsSeparator).value, "/");
    var kernelBuildId := baseDocUri + DocsSeparator + docIdPart + BuildSuffix;
    var creationInfoId := CreationInfoFor(kernel);
    var kernelConfig := ParseConfigFile(lines);
    var kernelBuild := KernelBuild(kernelBuildId, creationInfoId, kernelConfig);
    graph := graph + [kernelBuild];
    assert graph[..|graph| - 1] + [kernelBuild] == graph;
    r := Ok(graph);
  }

  // ---------------------------------------------------------------------------
  // What the extractor sees afterwards

  /** A build whose name has no colon belongs to no package, so its
      parameters leave the PACKAGECONFIG mapping alone. */
  lemma {:induction false} ParamsWithoutPackage(e: Extract.Extraction, ps: seq<Param>)
    ensures Extract.ParamsFold(e, None, ps).packageConfig == e.packageConfig
    decreases |ps|
  {
    if ps != [] {
      ParamsWithoutPackage(e, ps[..|ps| - 1]);
    }
  }

  /** A successful injection appends exactly the kernel build to the graph. */
  lemma InjectSpecAppends(doc: GraphField, lines: seq<string>)
    requires InjectSpec(doc, lines).Ok?
    ensures doc.Nodes?
    ensures InjectSpec(doc, lines).value == doc.nodes + [InjectSpec(doc, lines).value[|doc.nodes|]]
    ensures var b := InjectSpec(doc, lines).value[|doc.nodes|];
      && b.nodeType == Some(BuildType) && b.name == Some(KernelBuildName)
      && b.buildType == Some(KernelBuildType) && ParamsOf(b) == ParsedEntries(lines)
    ensures var kernel := KernelSearch(doc.nodes);
      && kernel.Ok? && kernel.value.spdxId.Some?
      && InjectSpec(doc, lines).value[|doc.nodes|].spdxId == KernelBuildId(kernel.value.spdxId.value)
      && InjectSpec(doc, lines).value[|doc.nodes|].creationInfo == Some(CreationInfoFor(kernel.value))
  {
  }

  /** The injector stops exactly when `@graph` is not a list, holds no kernel
      package, or the kernel package's identifier is missing or lacks
      `/spdxdocs/`; the configuration file never makes it stop. */
  lemma InjectFailures(doc: GraphField, lines: seq<string>)
    ensures InjectSpec(doc, lines).Err? <==>
      || doc.NotAList?
      || KernelSearch(GraphOf(doc).value).Err?
      || KernelSearch(GraphOf(doc).value).value.spdxId.None?
      || !Contains(KernelSearch(GraphOf(doc).value).value.spdxId.value, DocsSeparator)
  {
  }

  /** The extractor reads an appended kernel build as a build of no package. */
  lemma ExtractAppendedBuild(graph: seq<Node>, b: Node, ignoreProprietary: bool)
    requires b.nodeType == Some(BuildType) && b.name == Some(KernelBuildName)
    ensures Extract.ExtractNodes(graph + [b], ignoreProprietary)
      == Extract.ParamsFold(Extract.ExtractNodes(graph, ignoreProprietary), None, ParamsOf(b))
  {
    assert (graph + [b])[..|graph|] == graph;
    assert Extract.BuildName(b) == KernelBuildName;
    NotContainsChar(KernelBuildName, ':');
  }

  /** Extracting the injected graph gives the same packages and PACKAGECONFIG
      selections as the original graph, and a kernel configuration whose keys
      are the original ones together with every `CONFIG_` key of the file. */
  lemma InjectedConfigIsExtracted(doc: GraphField, lines: seq<string>, ignoreProprietary: bool, k: string)
    requires InjectSpec(doc, lines).Ok?
    ensures doc.Nodes?
    ensures Extract.ExtractNodes(InjectSpec(doc, lines).value, ignoreProprietary).packages
      == Extract.ExtractNodes(doc.nodes, ignoreProprietary).packages
    ensures Extract.ExtractNodes(InjectSpec(doc, lines).value, ignoreProprietary).packageConfig
      == Extract.ExtractNodes(doc.nodes, ignoreProprietary).packageConfig
    ensures k in Extract.ExtractNodes(InjectSpec(doc, lines).value, ignoreProprietary).config
      <==> || k in Extract.ExtractNodes(doc.nodes, ignoreProprietary).config
           || (StartsWith(k, Extract.ConfigPrefix) && exists i :: 0 <= i < |lines| && ConfiguresKey(lines[i], k))
  {
    InjectSpecAppends(doc, lines);
    var graph := doc.nodes;
    var injected := InjectSpec(doc, lines).value;
    var b := injected[|graph|];
    var entries := ParsedEntries(lines);
    var before := Extract.ExtractNodes(graph, ignoreProprietary);
    ExtractAppendedBuild(graph, b, ignoreProprietary);
    ParamsWithoutPackage(before, entries);
    ConfigFromLines(before, lines, k);
  }

  /** The configuration keys a parsed file adds to an extraction. */
  lemma ConfigFromLines(e: Extract.Extraction, lines: seq<string>, k: string)
    ensures k in Extract.ParamsFold(e, None, ParsedEntries(lines)).config
      <==> || k in e.config
           || (StartsWith(k, Extract.ConfigPrefix) && exists i :: 0 <= i < |lines| && ConfiguresKey(lines[i], k))
  {
    var after := Extract.ParamsFold(e, None, ParsedEntries(lines));
    Extract.ParamsConfigKeys(e, None, ParsedEntries(lines), k);
    if k in after.config && k !in e.config {
      var i := ConfigKeyFromLine(e, lines, k);
    }
    if StartsWith(k, Extract.ConfigPrefix) && exists i :: 0 <= i < |lines| && ConfiguresKey(lines[i], k) {
      var i :| 0 <= i < |lines| && ConfiguresKey(lines[i], k);
      LineConfiguresKey(e, lines, i, k);
    }
  }

  /** A key the file adds comes from one of its lines. */
  lemma ConfigKeyFromLine(e: Extract.Extraction, lines: seq<string>, k: string) returns (i: nat)
    requires k in Extract.ParamsFold(e, None, ParsedEntries(lines)).config && k !in e.config
    ensures i < |lines| && ConfiguresKey(lines[i], k) && StartsWith(k, Extract.ConfigPrefix)
  {
    var entries := ParsedEntries(lines);
    Extract.ParamsConfigKeys(e, None, entries, k);
    var j :| 0 <= j < |entries| && Extract.SetsConfig(entries[j], k);
    i := EntryFromLine(ParseConfigLine, lines, entries[j]);
  }

  /** A line that records a `CONFIG_` key puts it in the configuration. */
  lemma LineConfiguresKey(e: Extract.Extraction, lines: seq<string>, i: nat, k: string)
    requires i < |lines| && ConfiguresKey(lines[i], k) && StartsWith(k, Extract.ConfigPrefix)
    ensures k in Extract.ParamsFold(e, None, ParsedEntries(lines)).config
  {
    var entries := ParsedEntries(lines);
    var p := ParseConfigLine(lines[i]).value;
    LineGivesEntry(ParseConfigLine, lines, i, p);
    var j :| 0 <= j < |entries| && entries[j] == p;
    assert Extract.SetsConfig(entries[j], k);
    Extract.ParamsConfigKeys(e, None, entries, k);
  }
}
