/** Recognising GitHub-hosted imports and building the immutable package
    record for one of them (`isGithubPackage`, `extractUsernameAndRepository`
    and `newGithubPackage` in main.go). */
module Identity {
  import opened Wrappers
  import opened Strings

  /** The host prefix. There is no trailing slash, so "github.company/x/y"
      is recognised as well. */
  const GithubPrefix: string := "github.com"

  /** The two error values `extractUsernameAndRepository` can return. */
  datatype IdentityError =
    | NotGithub   // "Package name should have github.com prefix"
    | Malformed   // "Error extracting github username and repository"

  /** One discovered dependency: the import path it was found under, the
      import path of the module that imported it first, and the account and
      repository taken from the import path when the record was built. */
  datatype Package = Package(importName: string, parent: string, username: string, repository: string)

  predicate IsGithubPackage(imp: string) {
    HasPrefix(imp, GithubPrefix)
  }

  /** The prefix test holds exactly for the strings that are the prefix
      followed by anything at all. */
  lemma IsGithubPackageIff(imp: string)
    ensures IsGithubPackage(imp) <==> exists rest :: imp == GithubPrefix + rest
  {
    if IsGithubPackage(imp) {
      assert imp == GithubPrefix + imp[|GithubPrefix|..];
    }
  }

  /** The two cases of the unit test: a GitHub path and a look-alike host;
      and the slash-less prefix admitting another host. */
  lemma IsGithubPackageExamples()
    ensures IsGithubPackage("github.com/foo/bar")
    ensures !IsGithubPackage("foohub.com/foo/bar")
    ensures IsGithubPackage("github.company/x/y")
  {
    assert "github.com/foo/bar"[..10] == GithubPrefix;
    assert "foohub.com/foo/bar"[0] != GithubPrefix[0];
    assert "github.company/x/y"[..10] == GithubPrefix;
  }

  /** A GitHub prefix survives appending. */
  lemma PrefixExtends(s: string, t: string)
    requires IsGithubPackage(s)
    ensures IsGithubPackage(s + t)
  {
    assert (s + t)[..|GithubPrefix|] == s[..|GithubPrefix|];
  }

  /** Account and repository are the second and third '/'-separated
      segments, verbatim; any further segments are ignored. */
  function ExtractUsernameAndRepository(imp: string): (r: Result<(string, string), IdentityError>)
    ensures r == Failure(NotGithub) <==> !IsGithubPackage(imp)
    ensures r == Failure(Malformed) <==> IsGithubPackage(imp) && Occurrences(imp, '/') < 2
    ensures r.Success? ==> IsGithubPackage(imp) && Occurrences(imp, '/') >= 2
    ensures r.Success? ==> '/' !in r.value.0 && '/' !in r.value.1
  {
    if !IsGithubPackage(imp) then Failure(NotGithub)
    else
      var parts := Split(imp, '/');
      if |parts| >= 3 then Success((parts[1], parts[2]))
      else Failure(Malformed)
  }

  /** Joining keeps the GitHub prefix of the first segment. */
  lemma JoinKeepsPrefix(parts: seq<string>)
    requires |parts| >= 2 && IsGithubPackage(parts[0])
    ensures IsGithubPackage(Join(parts, '/'))
  {
    var tail := ['/'] + Join(parts[1..], '/');
    assert Join(parts, '/') == parts[0] + tail;
    PrefixExtends(parts[0], tail);
  }

  /** Round trip: an import path joined from slash-free segments, the first
      of them carrying the GitHub prefix, yields back exactly its second and
      third segment as account and repository, whatever segments follow. */
  lemma ExtractOfJoin(parts: seq<string>)
    requires |parts| >= 3 && IsGithubPackage(parts[0])
    requires forall i :: 0 <= i < |parts| ==> '/' !in parts[i]
    ensures ExtractUsernameAndRepository(Join(parts, '/')) == Success((parts[1], parts[2]))
  {
    JoinKeepsPrefix(parts);
    SplitJoin(parts, '/');
  }

  /** The unit test's input: a sub-package path yields its account and
      repository. */
  lemma ExtractExample()
    ensures ExtractUsernameAndRepository("github.com/username/repo/path") == Success(("username", "repo"))
  {
    var parts := ["github.com", "username", "repo", "path"];
    assert parts[1..][1..][1..] == ["path"];
    assert Join(parts, '/') == "github.com/username/repo/path";
    IsGithubPackageExamples();
    ExtractOfJoin(parts);
  }

  /** `newGithubPackage`: fails exactly when extraction fails, and otherwise
      stores the import path and parent unchanged together with the
      extracted account and repository. */
  function NewGithubPackage(imp: string, parent: string): (r: Result<Package, IdentityError>)
    ensures r.Failure? <==> ExtractUsernameAndRepository(imp).Failure?
    ensures r.Failure? ==> r.error == ExtractUsernameAndRepository(imp).error
    ensures r.Success? ==> r.value.importName == imp && r.value.parent == parent
    ensures r.Success? ==> (r.value.username, r.value.repository) == ExtractUsernameAndRepository(imp).value
  {
    match ExtractUsernameAndRepository(imp)
    case Failure(e) => Failure(e)
    case Success((username, repository)) => Success(Package(imp, parent, username, repository))
  }

  /** A plain `github.com/<account>/<repository>` path builds the record
      holding exactly that account and repository. */
  lemma NewGithubPackageOfSegments(user: string, repo: string, parent: string)
    requires '/' !in user && '/' !in repo
    ensures NewGithubPackage(GithubPrefix + "/" + user + "/" + repo, parent)
         == Success(Package(GithubPrefix + "/" + user + "/" + repo, parent, user, repo))
  {
    var parts := [GithubPrefix, user, repo];
    assert parts[1..][1..] == [repo];
    assert Join(parts[1..], '/') == user + "/" + repo;
    assert Join(parts, '/') == GithubPrefix + "/" + user + "/" + repo;
    assert GithubPrefix[..|GithubPrefix|] == GithubPrefix;
    ExtractOfJoin(parts);
  }

  /** The unit test of `newGithubPackage` on "github.com/foo/bar". */
  lemma NewGithubPackageExample()
    ensures NewGithubPackage("github.com/foo/bar", "") == Success(Package("github.com/foo/bar", "", "foo", "bar"))
  {
    NewGithubPackageOfSegments("foo", "bar", "");
    assert GithubPrefix + "/" + "foo" + "/" + "bar" == "github.com/foo/bar";
  }
}
