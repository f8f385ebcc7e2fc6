/** The recursive import walk `findImports` of main.go, with the
    `build.Import` lookup abstracted into an import graph. */
module Walker {
  import opened Wrappers
  import opened Identity
  import opened Packages

  /** The import graph as the walk sees it. `imports(m)` is the import list
      `build.Import` reports for module `m`, or `None` when the lookup fails.
      `rank` is a measure that witnesses the graph has no cycle along the
      edges the walk follows. */
  datatype ImportGraph = ImportGraph(imports: string -> Option<seq<string>>, rank: string -> nat)

  /** Module `m` lists `k` among its imports. */
  ghost predicate Imports(g: ImportGraph, m: string, k: string) {
    g.imports(m).Some? && k in g.imports(m).value
  }

  /** The walk descends along GitHub edges only; the rank strictly decreases
      along each of them, so the walk terminates. */
  ghost predicate Acyclic(g: ImportGraph) {
    forall m, k :: Imports(g, m, k) && IsGithubPackage(k) ==> g.rank(k) < g.rank(m)
  }

  /** The walk crashes when it meets a GitHub import that has no account and
      repository segment: `newGithubPackage` returns nil and `Add`
      dereferences it. */
  datatype WalkFailure = NilPackage(importName: string)

  /** `q` extends `p`: no key is removed and no entry is replaced. */
  ghost predicate Extends(p: PackagesList, q: PackagesList) {
    p.Keys <= q.Keys && forall k :: k in p ==> q[k] == p[k]
  }

  /** Every entry of `q` that is not in `p` is a GitHub package built by
      `newGithubPackage` under a parent that lists it as an import. */
  ghost predicate AddedFromGraph(g: ImportGraph, p: PackagesList, q: PackagesList) {
    forall k :: k in q && k !in p ==>
      && IsGithubPackage(k)
      && NewGithubPackage(k, q[k].parent) == Success(q[k])
      && Imports(g, q[k].parent, k)
  }

  /** `findImports(packages, name)`: when the lookup of `name` fails the set
      is returned as it is; otherwise its imports are walked in order. */
  function FindImports(g: ImportGraph, packages: PackagesList, name: string): (r: Result<PackagesList, WalkFailure>)
    requires Acyclic(g)
    ensures g.imports(name).None? ==> r == Success(packages)
    ensures r.Success? ==> Extends(packages, r.value)
    ensures r.Success? ==> AddedFromGraph(g, packages, r.value)
    ensures r.Success? && WellKeyed(packages) ==> WellKeyed(r.value)
    ensures r.Failure? ==> IsGithubPackage(r.error.importName)
    decreases g.rank(name), 1, 0
  {
    match g.imports(name)
    case None => Success(packages)
    case Some(list) => WalkImports(g, packages, name, 0)
  }

  /** The loop of `findImports` over the import list of `parent`, from
      position `from` on: each GitHub import is built into a package with
      `parent` as its parent, added, and walked into at once. */
  function WalkImports(g: ImportGraph, packages: PackagesList, parent: string, from: nat): (r: Result<PackagesList, WalkFailure>)
    requires Acyclic(g)
    requires g.imports(parent).Some? && from <= |g.imports(parent).value|
    ensures r.Success? ==> Extends(packages, r.value)
    ensures r.Success? ==> AddedFromGraph(g, packages, r.value)
    ensures r.Success? && WellKeyed(packages) ==> WellKeyed(r.value)
    ensures r.Failure? ==> IsGithubPackage(r.error.importName)
    decreases g.rank(parent), 0, |g.imports(parent).value| - from
  {
    var list := g.imports(parent).value;
    if from == |list| then Success(packages)
    else
      var imp := list[from];
      if !IsGithubPackage(imp) then WalkImports(g, packages, parent, from + 1)
      else
        assert Imports(g, parent, imp);
        match NewGithubPackage(imp, parent)
        case Failure(_) => Failure(NilPackage(imp))
        case Success(pkg) =>
          var added := Add(packages, pkg);
          match FindImports(g, added, imp)
          case Failure(e) => Failure(e)
          case Success(after) => WalkImports(g, after, parent, from + 1)
  }

  /** A chain of imports from `path[0]` along which the walk descends: each
      module lists the next, and every module after the first is a GitHub
      import. */
  ghost predicate IsChain(g: ImportGraph, path: seq<string>)
    decreases |path|
  {
    && |path| >= 2
    && Imports(g, path[0], path[1])
    && IsGithubPackage(path[1])
    && (|path| == 2 || IsChain(g, path[1..]))
  }

  /** `k` is a GitHub module transitively imported by `root` through GitHub
      modules only: the modules the walk is meant to discover. */
  ghost predicate Reachable(g: ImportGraph, root: string, k: string) {
    exists path :: IsChain(g, path) && path[0] == root && path[|path| - 1] == k
  }

  /** A direct GitHub import is reachable. */
  lemma ReachableByEdge(g: ImportGraph, m: string, k: string)
    requires Imports(g, m, k) && IsGithubPackage(k)
    ensures Reachable(g, m, k)
  {
    assert IsChain(g, [m, k]);
  }

  /** Reachability through a direct GitHub import. */
  lemma ReachableThrough(g: ImportGraph, m: string, k: string, x: string)
    requires Imports(g, m, k) && IsGithubPackage(k)
    requires Reachable(g, k, x)
    ensures Reachable(g, m, x)
  {
    var path :| IsChain(g, path) && path[0] == k && path[|path| - 1] == x;
    var longer := [m] + path;
    assert longer[1..] == path;
    assert IsChain(g, longer);
  }

  /** Soundness: every package the walk adds is reachable from the module
      walked. */
  lemma {:induction false} FindImportsSound(g: ImportGraph, packages: PackagesList, name: string, k: string)
    requires Acyclic(g)
    requires FindImports(g, packages, name).Success?
    requires k in FindImports(g, packages, name).value && k !in packages
    ensures Reachable(g, name, k)
    decreases g.rank(name), 1, 0, 0
  {
    if g.imports(name).Some? {
      WalkImportsSound(g, packages, name, 0, k);
    }
  }

  lemma {:induction false} WalkImportsSound(g: ImportGraph, packages: PackagesList, parent: string, from: nat, k: string)
    requires Acyclic(g)
    requires g.imports(parent).Some? && from <= |g.imports(parent).value|
    requires WalkImports(g, packages, parent, from).Success?
    requires k in WalkImports(g, packages, parent, from).value && k !in packages
    ensures Reachable(g, parent, k)
    decreases g.rank(parent), 0, |g.imports(parent).value| - from, 1
  {
    var list := g.imports(parent).value;
    if from < |list| {
      if !IsGithubPackage(list[from]) {
        WalkImportsSound(g, packages, parent, from + 1, k);
      } else {
        WalkImportsSoundAt(g, packages, parent, from, k);
      }
    }
  }

  /** The step of the loop on a GitHub import: `k` is that import, or was
      added by the descent into it, or later in the loop. */
  lemma {:induction false} WalkImportsSoundAt(g: ImportGraph, packages: PackagesList, parent: string, from: nat, k: string)
    requires Acyclic(g)
    requires g.imports(parent).Some? && from <= |g.imports(parent).value|
    requires WalkImports(g, packages, parent, from).Success?
    requires k in WalkImports(g, packages, parent, from).value && k !in packages
    ensures Reachable(g, parent, k)
    requires from < |g.imports(parent).value| && IsGithubPackage(g.imports(parent).value[from])
    decreases g.rank(parent), 0, |g.imports(parent).value| - from, 0
  {
    var imp := g.imports(parent).value[from];
    var pkg, after := WalkImportsDescends(g, packages, parent, from);
    if k == imp {
      ReachableByEdge(g, parent, imp);
    } else if k in after {
      FindImportsSound(g, Add(packages, pkg), imp, k);
      ReachableThrough(g, parent, imp, k);
    } else {
      WalkImportsSound(g, after, parent, from + 1, k);
    }
  }

  /** Completeness: every module reachable from the module walked ends up
      in the set, and the walk only succeeds if each one of them has an
      account and repository segment. */
  lemma {:induction false} FindImportsComplete(g: ImportGraph, packages: PackagesList, name: string, path: seq<string>)
    requires Acyclic(g)
    requires FindImports(g, packages, name).Success?
    requires IsChain(g, path) && path[0] == name
    ensures path[|path| - 1] in FindImports(g, packages, name).value
    ensures ExtractUsernameAndRepository(path[|path| - 1]).Success?
    decreases g.rank(name), 2, 0
  {
    assert Imports(g, name, path[1]);
    var list := g.imports(name).value;
    var j :| 0 <= j < |list| && list[j] == path[1];
    WalkImportsComplete(g, packages, name, 0, path, j);
  }

  lemma {:induction false} WalkImportsComplete(g: ImportGraph, packages: PackagesList, parent: string, from: nat, path: seq<string>, j: nat)
    requires Acyclic(g)
    requires g.imports(parent).Some? && from <= j < |g.imports(parent).value|
    requires WalkImports(g, packages, parent, from).Success?
    requires IsChain(g, path) && path[0] == parent && g.imports(parent).value[j] == path[1]
    ensures path[|path| - 1] in WalkImports(g, packages, parent, from).value
    ensures ExtractUsernameAndRepository(path[|path| - 1]).Success?
    decreases g.rank(parent), 1, |g.imports(parent).value| - from
  {
    var imp := g.imports(parent).value[from];
    if !IsGithubPackage(imp) {
      assert from < j;
      WalkImportsComplete(g, packages, parent, from + 1, path, j);
    } else if from < j {
      var pkg, after := WalkImportsDescends(g, packages, parent, from);
      WalkImportsComplete(g, after, parent, from + 1, path, j);
    } else {
      WalkImportsCompleteAt(g, packages, parent, from, path);
    }
  }

  /** The step of the loop at the import that starts the chain. */
  lemma {:induction false} WalkImportsCompleteAt(g: ImportGraph, packages: PackagesList, parent: string, from: nat, path: seq<string>)
    requires Acyclic(g)
    requires g.imports(parent).Some? && from < |g.imports(parent).value|
    requires WalkImports(g, packages, parent, from).Success?
    requires IsChain(g, path) && path[0] == parent && g.imports(parent).value[from] == path[1]
    ensures path[|path| - 1] in WalkImports(g, packages, parent, from).value
    ensures ExtractUsernameAndRepository(path[|path| - 1]).Success?
    decreases g.rank(parent), 0, 1
  {
    if |path| == 2 {
      WalkImportsCompleteAtEdge(g, packages, parent, from, path);
    } else {
      WalkImportsCompleteAtDeeper(g, packages, parent, from, path);
    }
  }

  /** A chain of one edge ends at the import itself, which the step adds. */
  lemma {:induction false} WalkImportsCompleteAtEdge(g: ImportGraph, packages: PackagesList, parent: string, from: nat, path: seq<string>)
    requires Acyclic(g)
    requires g.imports(parent).Some? && from < |g.imports(parent).value|
    requires WalkImports(g, packages, parent, from).Success?
    requires IsChain(g, path) && path[0] == parent && g.imports(parent).value[from] == path[1]
    ensures path[|path| - 1] in WalkImports(g, packages, parent, from).value
    ensures ExtractUsernameAndRepository(path[|path| - 1]).Success?
    requires |path| == 2
  {
    var pkg, after := WalkImportsDescends(g, packages, parent, from);
    assert Extends(after, WalkImports(g, after, parent, from + 1).value);
  }

  /** A longer chain ends in the set the descent into its second module
      collects. */
  lemma {:induction false} WalkImportsCompleteAtDeeper(g: ImportGraph, packages: PackagesList, parent: string, from: nat, path: seq<string>)
    requires Acyclic(g)
    requires g.imports(parent).Some? && from < |g.imports(parent).value|
    requires WalkImports(g, packages, parent, from).Success?
    requires IsChain(g, path) && path[0] == parent && g.imports(parent).value[from] == path[1]
    ensures path[|path| - 1] in WalkImports(g, packages, parent, from).value
    ensures ExtractUsernameAndRepository(path[|path| - 1]).Success?
    requires |path| > 2
    decreases g.rank(parent), 0, 0
  {
    var pkg, after := WalkImportsDescends(g, packages, parent, from);
    var rest := path[1..];
    assert rest[|rest| - 1] == path[|path| - 1];
    FindImportsComplete(g, Add(packages, pkg), path[1], rest);
    assert Extends(after, WalkImports(g, after, parent, from + 1).value);
  }

  /** One successful step of the loop on a GitHub import: the package is
      built, the descent into it succeeds with `after`, and the loop goes on
      from `after`. */
  lemma WalkImportsDescends(g: ImportGraph, packages: PackagesList, parent: string, from: nat)
    returns (pkg: Package, after: PackagesList)
    requires Acyclic(g)
    requires g.imports(parent).Some? && from < |g.imports(parent).value|
    requires IsGithubPackage(g.imports(parent).value[from])
    requires WalkImports(g, packages, parent, from).Success?
    ensures var imp := g.imports(parent).value[from];
            && Imports(g, parent, imp)
            && g.rank(imp) < g.rank(parent)
            && NewGithubPackage(imp, parent) == Success(pkg)
            && ExtractUsernameAndRepository(imp).Success?
            && FindImports(g, Add(packages, pkg), imp) == Success(after)
            && imp in after
            && WalkImports(g, packages, parent, from) == WalkImports(g, after, parent, from + 1)
  {
    var imp := g.imports(parent).value[from];
    assert Imports(g, parent, imp);
    pkg := NewGithubPackage(imp, parent).value;
    after := FindImports(g, Add(packages, pkg), imp).value;
  }

  /** The walk crashes only on a reachable GitHub import that lacks an
      account or repository segment. */
  lemma {:induction false} FindImportsFailure(g: ImportGraph, packages: PackagesList, name: string)
    requires Acyclic(g)
    requires FindImports(g, packages, name).Failure?
    ensures Reachable(g, name, FindImports(g, packages, name).error.importName)
    ensures ExtractUsernameAndRepository(FindImports(g, packages, name).error.importName) == Failure(Malformed)
    decreases g.rank(name), 1, 0
  {
    WalkImportsFailure(g, packages, name, 0);
  }

  lemma {:induction false} WalkImportsFailure(g: ImportGraph, packages: PackagesList, parent: string, from: nat)
    requires Acyclic(g)
    requires g.imports(parent).Some? && from <= |g.imports(parent).value|
    requires WalkImports(g, packages, parent, from).Failure?
    ensures Reachable(g, parent, WalkImports(g, packages, parent, from).error.importName)
    ensures ExtractUsernameAndRepository(WalkImports(g, packages, parent, from).error.importName) == Failure(Malformed)
    decreases g.rank(parent), 0, |g.imports(parent).value| - from
  {
    var list := g.imports(parent).value;
    var imp := list[from];
    if !IsGithubPackage(imp) {
      WalkImportsFailure(g, packages, parent, from + 1);
    } else {
      assert Imports(g, parent, imp);
      if NewGithubPackage(imp, parent).Failure? {
        ReachableByEdge(g, parent, imp);
      } else {
        var added := Add(packages, NewGithubPackage(imp, parent).value);
        var inner := FindImports(g, added, imp);
        if inner.Failure? {
          FindImportsFailure(g, added, imp);
          ReachableThrough(g, parent, imp, inner.error.importName);
        } else {
          WalkImportsFailure(g, inner.value, parent, from + 1);
        }
      }
    }
  }

  /** The walk succeeds exactly when every reachable GitHub import has an
      account and a repository segment, whatever the set already holds. */
  lemma FindImportsSucceedsIff(g: ImportGraph, packages: PackagesList, name: string)
    requires Acyclic(g)
    ensures FindImports(g, packages, name).Success?
        <==> forall k :: Reachable(g, name, k) ==> ExtractUsernameAndRepository(k).Success?
  {
    if FindImports(g, packages, name).Success? {
      forall k | Reachable(g, name, k)
        ensures ExtractUsernameAndRepository(k).Success?
      {
        var path :| IsChain(g, path) && path[0] == name && path[|path| - 1] == k;
        FindImportsComplete(g, packages, name, path);
      }
    } else {
      FindImportsFailure(g, packages, name);
    }
  }

  /** Discovery is exact: started from a set, the walk ends holding that set
      plus precisely the modules reachable from `name`. */
  lemma FindImportsDiscovers(g: ImportGraph, packages: PackagesList, name: string)
    requires Acyclic(g)
    requires FindImports(g, packages, name).Success?
    ensures forall k :: k in FindImports(g, packages, name).value <==> k in packages || Reachable(g, name, k)
  {
    var r := FindImports(g, packages, name).value;
    forall k
      ensures k in r <==> k in packages || Reachable(g, name, k)
    {
      if k in r && k !in packages {
        FindImportsSound(g, packages, name, k);
      }
      if Reachable(g, name, k) {
        var path :| IsChain(g, path) && path[0] == name && path[|path| - 1] == k;
        FindImportsComplete(g, packages, name, path);
      }
    }
  }
}
