/** The deduplicating package set `packagesList` of main.go: a map from
    import path to package record, filled first-seen-wins. */
module Packages {
  import opened Wrappers
  import opened Strings
  import opened Identity

  type PackagesList = map<string, Package>

  /** The invariant the set keeps: every key maps to the package whose
      import path it is. */
  ghost predicate WellKeyed(p: PackagesList) {
    forall k :: k in p ==> p[k].importName == k
  }

  /** `packagesList.Add`: inserts under the package's import path unless
      that key is already present, in which case nothing changes. */
  function Add(p: PackagesList, pkg: Package): (r: PackagesList)
    ensures r.Keys == p.Keys + {pkg.importName}
    ensures forall k :: k in p ==> r[k] == p[k]
    ensures pkg.importName !in p ==> r[pkg.importName] == pkg
    ensures |r| == |p| + (if pkg.importName in p then 0 else 1)
    ensures WellKeyed(p) ==> WellKeyed(r)
  {
    if pkg.importName in p then p else p[pkg.importName := pkg]
  }

  /** `packagesList.Count`. */
  function Count(p: PackagesList): nat {
    |p|
  }

  /** Adding never shrinks the set and grows it by at most one. */
  lemma AddCount(p: PackagesList, pkg: Package)
    ensures Count(p) <= Count(Add(p, pkg)) <= Count(p) + 1
    ensures Count(Add(p, pkg)) == Count(p) <==> pkg.importName in p
  {
  }

  /** Adding a package whose import path is already present is idempotent,
      even when the second record differs (first-seen wins). */
  lemma AddFirstSeenWins(p: PackagesList, first: Package, second: Package)
    requires first.importName == second.importName
    ensures Add(Add(p, first), second) == Add(p, first)
  {
  }

  /** Two distinct import paths and a repeat of the second leave two
      entries. */
  lemma AddDistinctThenRepeat(first: Package, second: Package, repeat: Package)
    requires first.importName != second.importName
    requires repeat.importName == second.importName
    ensures Count(Add(Add(Add(map[], first), second), repeat)) == 2
  {
  }

  /** The unit test: "github.com/foo1/bar1", "github.com/foo2/bar2" and
      "github.com/foo2/bar2" again give a count of two. */
  lemma AddUniquePackageExample()
    ensures Count(Add(Add(Add(map[],
                              Package("github.com/foo1/bar1", "", "foo1", "bar1")),
                          Package("github.com/foo2/bar2", "", "foo2", "bar2")),
                      Package("github.com/foo2/bar2", "", "foo2", "bar2"))) == 2
  {
    assert "github.com/foo1/bar1"[14] != "github.com/foo2/bar2"[14];
    AddDistinctThenRepeat(Package("github.com/foo1/bar1", "", "foo1", "bar1"),
                          Package("github.com/foo2/bar2", "", "foo2", "bar2"),
                          Package("github.com/foo2/bar2", "", "foo2", "bar2"));
  }

  /** `packagesList.Exclude`: a new set holding, re-added one by one in the
      map's (unspecified) iteration order, the packages whose import path
      does not contain `pattern`; the receiver is a value and is left as it
      was. On a well-keyed set the result is exactly the restriction to the
      keys not containing the pattern. */
  method Exclude(p: PackagesList, pattern: string) returns (r: PackagesList)
    ensures WellKeyed(r)
    ensures |r| <= |p|
    ensures forall k :: k in r ==> r[k] in p.Values && !Contains(k, pattern)
    ensures WellKeyed(p) ==> forall k :: k in r <==> k in p && !Contains(k, pattern)
    ensures WellKeyed(p) ==> forall k :: k in r ==> r[k] == p[k]
  {
    r := map[];
    var todo := p.Keys;
    while todo != {}
      invariant todo <= p.Keys
      invariant WellKeyed(r)
      invariant |r| + |todo| <= |p|
      invariant forall k :: k in r ==> r[k] in p.Values && !Contains(k, pattern)
      invariant WellKeyed(p) ==> forall k :: k in r <==> k in p && k !in todo && !Contains(k, pattern)
      invariant WellKeyed(p) ==> forall k :: k in r ==> r[k] == p[k]
      decreases todo
    {
      var k :| k in todo;
      var pkg := p[k];
      if !Contains(pkg.importName, pattern) {
        r := Add(r, pkg);
      }
      todo := todo - {k};
    }
  }
}
