/** The composition in `main`: walk the root module's imports into an
    empty set, then drop every package whose import path contains the root
    path. */
module Audit {
  import opened Wrappers
  import opened Strings
  import opened Identity
  import opened Packages
  import opened Walker

  /** The external packages `main` reports on, or the crash of the walk. */
  method ExternalPackages(g: ImportGraph, root: string) returns (r: Result<PackagesList, WalkFailure>)
    requires Acyclic(g)
    ensures r.Success? <==> forall k :: Reachable(g, root, k) ==> ExtractUsernameAndRepository(k).Success?
    ensures r.Failure? ==> Reachable(g, root, r.error.importName)
    ensures r.Success? ==> forall k :: k in r.value <==> Reachable(g, root, k) && !Contains(k, root)
    ensures r.Success? ==> WellKeyed(r.value)
    ensures r.Success? ==> forall k :: k in r.value ==>
      NewGithubPackage(k, r.value[k].parent) == Success(r.value[k]) && Imports(g, r.value[k].parent, k)
  {
    var empty: PackagesList := map[];
    FindImportsSucceedsIff(g, empty, root);
    var found := FindImports(g, empty, root);
    if found.Failure? {
      FindImportsFailure(g, empty, root);
      r := Failure(found.error);
    } else {
      FindImportsDiscovers(g, empty, root);
      var external := Exclude(found.value, root);
      r := Success(external);
    }
  }
}
