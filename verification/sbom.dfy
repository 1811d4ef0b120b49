/** The typed view of an SPDX 3 JSON document that the core reads: the
    top-level `@graph` field and the node objects in it. Every field the core
    reads with `dict.get` is optional; `None` stands for an absent key as well
    as for a JSON null. */
module Sbom {
  import opened Wrappers

  const PackageType := "software_Package"
  const BuildType := "build_Build"

  /** One element of a build's `build_parameter` list. Python skips elements
      that are not JSON objects; those are `NotAnObject`. */
  datatype Param =
    | NotAnObject
    | Entry(paramType: Option<string>, key: Option<string>, value: Option<string>)

  /** A graph node, reduced to the fields the extractor and the injector read. */
  datatype Node = Node(
    nodeType: Option<string>,                  // "type"
    spdxId: Option<string>,                    // "spdxId"
    creationInfo: Option<string>,              // "creationInfo"
    name: Option<string>,                      // "name"
    packageVersion: Option<string>,            // "software_packageVersion"
    primaryPurpose: Option<string>,            // "software_primaryPurpose"
    licenseExpression: Option<string>,         // "simplelicensing_licenseExpression"
    description: Option<string>,               // "description"
    buildType: Option<string>,                 // "build_buildType"
    buildParameters: Option<seq<Param>>        // "build_parameter"
  )

  /** The `@graph` field of the document: absent, present but not a JSON
      array, or an array of nodes. */
  datatype GraphField = Absent | NotAList | Nodes(nodes: seq<Node>)

  /** `item.get("build_parameter", [])` */
  function ParamsOf(n: Node): seq<Param> {
    match n.buildParameters
    case Some(ps) => ps
    case None => []
  }
}
