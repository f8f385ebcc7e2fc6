# go-outdated: dependency discovery and freshness classification

go-outdated walks the static import graph of the Go module in the current
directory, collects every import hosted on GitHub into a deduplicated set,
drops the root module itself, and for each remaining package compares the
date of the last local commit with the date of the last commit on the
remote `master` branch, printing `OK` or `Outdated`.

This Dafny project models the pure logic of `main.go`:

- `Strings` — Go's `strings.HasPrefix`, `strings.Contains` and
  `strings.Split` (one-character separator), with `Split` proved to be the
  inverse of `Join`.
- `Identity` — `isGithubPackage`, `extractUsernameAndRepository`,
  `newGithubPackage` and the immutable `githubPackage` record.
- `Packages` — the `packagesList` map with `Add` (first seen wins),
  `Count` and `Exclude`, and the invariant that every key is the import
  path of the package it maps to.
- `Walker` — `findImports` over an abstract import graph: `build.Import`
  becomes a function from module path to `Option<seq<string>>` (`None` is
  a failed lookup), and a rank that strictly decreases along GitHub import
  edges states that the graph is acyclic, which the walk needs to
  terminate (it keeps no visited set and re-walks a module each time it is
  met). The walk is proved sound and complete: it adds exactly the GitHub
  modules reachable from the start through GitHub modules.
- `Freshness` — the classification branch of `DisplayResult`, with
  instants as integer nanoseconds, `Time.Sub` saturating at the `int64`
  bounds and Go's truncating `/` and `%` written out.
- `Audit` — the composition in `main`: walk into an empty set, then
  exclude the root path.

Two behaviours of the code are easy to misread; the model follows the code
as written:

- A GitHub-prefixed import without an account or repository segment (for
  example `github.com/foo`) is not skipped: `newGithubPackage` returns nil,
  the error is discarded, and `Add` dereferences the nil pointer. The model
  returns `Failure(NilPackage(imp))` for that walk, and proves it happens
  exactly when such an import is reachable.
- `delta.Minutes() == 0` is not a whole-minute comparison. `Minutes()`
  keeps the fractional part, so it is zero only for a zero duration, and a
  package is `OK` exactly when the two instants are equal.

## Model

| member | source | states |
|---|---|---|
| Strings.Split | main.go:192 | there is one part more than there are separators, no part holds a separator, and joining the parts with the separator gives the input back |
| Strings.SplitJoin | main.go:192 | splitting the join of separator-free parts gives back exactly those parts |
| Strings.ContainsIffOccurs | main.go:53 | substring containment holds exactly when the pattern occurs at some position |
| Identity.IsGithubPackageIff | main.go:181-183 | an import is a GitHub package exactly when it is "github.com" followed by anything, with no slash required |
| Identity.IsGithubPackageExamples | main_test.go:21-28 | "github.com/foo/bar" is a GitHub package, "foohub.com/foo/bar" is not, and "github.company/x/y" is one too |
| Identity.ExtractUsernameAndRepository | main.go:188-197 | fails with the prefix error exactly when the prefix is missing, with the extraction error exactly when a prefixed path has fewer than two slashes, and otherwise returns two slash-free segments |
| Identity.ExtractOfJoin | main.go:192-194 | for an import path joined from slash-free segments whose first carries the GitHub prefix, extraction returns exactly the second and third segment, whatever follows |
| Identity.ExtractExample | main_test.go:7-19 | "github.com/username/repo/path" yields ("username", "repo") |
| Identity.NewGithubPackage | main.go:155-161 | fails exactly when extraction fails, with the same error, and otherwise stores the import path and parent unchanged with the extracted account and repository |
| Identity.NewGithubPackageOfSegments | main.go:155-161 | "github.com/<account>/<repository>" builds the record holding that account and repository |
| Identity.NewGithubPackageExample | main_test.go:30-41 | "github.com/foo/bar" builds a record with account foo and repository bar |
| Packages.Add | main.go:39-43 | the key set gains exactly the package's import path, every existing entry is unchanged, a new key maps to the package, and the well-keyed invariant is preserved |
| Packages.AddCount | main.go:39-47 | the count never shrinks, grows by at most one, and stays the same exactly when the import path was already present |
| Packages.AddFirstSeenWins | main.go:39-43 | a second package under an import path already added changes nothing |
| Packages.AddDistinctThenRepeat | main.go:39-47 | two distinct import paths and a repeat of the second give a count of two |
| Packages.AddUniquePackageExample | main_test.go:43-54 | adding foo1/bar1, foo2/bar2 and foo2/bar2 again gives a count of two |
| Packages.Exclude | main.go:50-58 | the result is well keyed, no larger than the input, holds only input packages whose path lacks the pattern, and on a well-keyed input is exactly the entries whose path lacks the pattern |
| Walker.FindImports | main.go:164-178 | a failed lookup returns the set unchanged; a successful walk removes and replaces nothing and adds only GitHub packages built by newGithubPackage under a parent that imports them; a crash names a GitHub import |
| Walker.WalkImports | main.go:171-177 | the loop over one import list keeps the same guarantees as the walk |
| Walker.WalkImportsDescends | main.go:172-175 | a successful step on a GitHub import builds the package, descends successfully into it, and continues from the result of the descent |
| Walker.FindImportsSound | main.go:164-178 | every package the walk adds is reachable from the module walked |
| Walker.WalkImportsSound | main.go:171-177 | every package the loop adds is reachable from the parent module |
| Walker.WalkImportsSoundAt | main.go:172-176 | a package added at or after a GitHub import of the loop is that import, or was collected by the descent into it, or later in the loop, and so is reachable from the parent |
| Walker.FindImportsComplete | main.go:164-178 | every module reachable from the module walked is in the resulting set and has an account and repository |
| Walker.WalkImportsComplete | main.go:171-177 | a chain starting at a not yet visited import of the parent ends in the loop's result |
| Walker.WalkImportsCompleteAt | main.go:172-175 | a chain starting at the current import ends in the loop's result |
| Walker.WalkImportsCompleteAtEdge | main.go:172-174 | the import that forms a one-edge chain is in the loop's result and well formed |
| Walker.WalkImportsCompleteAtDeeper | main.go:172-176 | the end of a longer chain through the current import is collected by the descent into it and stays in the loop's result |
| Walker.FindImportsFailure | main.go:172-174 | a crash names a reachable GitHub import whose extraction fails for lack of segments |
| Walker.WalkImportsFailure | main.go:172-174 | a crash of the loop names such an import reachable from the parent |
| Walker.FindImportsSucceedsIff | main.go:164-178 | the walk succeeds exactly when every reachable GitHub import has an account and a repository, whatever the set held before |
| Walker.FindImportsDiscovers | main.go:164-178 | the resulting set holds exactly the original entries plus the reachable modules, each once |
| Freshness.Sub | main.go:127 | the difference is a 64-bit duration, equal to the true difference when it fits (bounds included), the largest or smallest duration when it is above or below that range, zero exactly for equal instants and positive exactly when the local instant is later |
| Freshness.MinutesIsZeroIff | main.go:128 | Go's Minutes() of a duration is zero exactly when the duration is zero |
| Freshness.DisplayResult | main.go:126-138 | both lookup outcomes are reported independently, a status exists exactly when both succeeded, it is OK exactly for equal instants and Outdated otherwise, and the separator is as wide as the import path |
| Freshness.StatusSymmetric | main.go:126-137 | swapping the local and remote instants does not change the status |
| Freshness.OutdatedEitherWay | main.go:127-136 | a local instant ahead or behind by any non-zero amount is Outdated |
| Audit.ExternalPackages | main.go:228-231 | succeeds exactly when every reachable GitHub import is well formed; then holds exactly the reachable modules whose path does not contain the root path, each built by newGithubPackage under a parent importing it |

## Left out

- `GithubLastCommitDate` (HTTP request, JSON decoding, RFC 3339 parsing) and `LocalLastCommitDate` (a `git log` subprocess and `time.Parse`): foreign I/O; `DisplayResult` takes their outcomes as `Option<Instant>` arguments.
- Freshness.DisplayResult: some failures of the remote lookup crash the program instead of printing "Github:  Error" (`defer resp.Body.Close()` runs before the error check, with `resp` nil after a transport error, and a failed `http.NewRequest` leaves `req` nil for `req.Header.Add`); an `Option<Instant>` argument cannot express a crash, so "each side is reported independently" holds only for lookup failures that return.
- `Dir`: a `go/build` filesystem lookup, used only by `LocalLastCommitDate`; when it fails it returns "", so `git log` runs in the working directory instead of failing.
- `Parent`: a field accessor; the model reads the `parent` field directly.
- `getGihubTokenFromConfig`, `setAccessToken` and the global `accessToken`: flag parsing, a subprocess and global state, used only by the remote lookup.
- `main`'s working-directory lookup, root-package import, the "Total packages found" header and the iteration that prints each report: I/O; the walk-then-exclude composition is modelled as `Audit.ExternalPackages`.
- ANSI colour codes and `fmt.Println` formatting, including the variable named `green` that holds red: cosmetic.
- The float arithmetic of `Duration.Minutes()`: replaced by the equivalent integer test, argued in the comment on `Freshness.MinutesIsZero`.
- The log line written when an import lookup fails: output only.
- Walker.FindImports: does not state which parent is recorded when several modules import the same package (the first in depth-first order); it states only that the recorded parent imports it.
- Packages.Exclude: on a map whose keys are not the import paths of their packages (never produced by `Add`), the result depends on the map's iteration order, and only its bounds are stated.
- Freshness.DisplayResult: the separator width counts characters where Go's `len` counts UTF-8 bytes; the two agree for ASCII import paths.
