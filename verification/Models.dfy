/** Data shared by the lockfile algorithms, the SBOM view and the evaluation. */
module Models {
  import opened Wrappers

  /** A position in a manifest. */
  datatype Location = Location(file: Option<string>, line: Option<int>)

  /** An edge of a dependency tree; an empty parent marks a direct dependency. */
  datatype Edge = Edge(parentKey: string, childKey: string, ecosystem: string, dev: bool, location: Option<Location>)

  /** A dependency declared in a manifest. */
  datatype Dependency = Dependency(analysisIdentifier: string, location: Option<Location>)

  ghost function ChildKeys(edges: seq<Edge>): set<string> {
    set e | e in edges :: e.childKey
  }
}
