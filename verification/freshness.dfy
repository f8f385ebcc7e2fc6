/** The classification branch of `DisplayResult` in main.go: given the
    outcome of the local and the remote commit-date lookups, decide whether
    a status line is printed and which. */
module Freshness {
  import opened Wrappers
  import opened Identity

  /** An instant as a whole number of nanoseconds from a fixed origin.
      Go's `time.Time` spans far more than an `int64` of nanoseconds, so
      the range is left unbounded here. */
  type Instant = int

  const MinDuration: int := -0x8000_0000_0000_0000
  const MaxDuration: int := 0x7fff_ffff_ffff_ffff
  const Minute: int := 60_000_000_000

  /** Go's `time.Duration`: a signed 64-bit count of nanoseconds. */
  type Duration = d: int | MinDuration <= d <= MaxDuration

  /** `Time.Sub`: the difference, saturated at the bounds of a `Duration`
      when it does not fit. */
  function Sub(t: Instant, u: Instant): (d: Duration)
    ensures MinDuration <= t - u <= MaxDuration ==> d == t - u
    ensures t - u > MaxDuration ==> d == MaxDuration
    ensures t - u < MinDuration ==> d == MinDuration
    ensures d == 0 <==> t == u
    ensures d > 0 <==> t > u
  {
    if t - u < MinDuration then MinDuration
    else if t - u > MaxDuration then MaxDuration
    else t - u
  }

  /** Go's integer `/` truncates towards zero (Dafny's rounds towards
      negative infinity for a positive divisor). */
  function TruncDiv(a: int, b: int): int
    requires b > 0
  {
    if a >= 0 then a / b else -((-a) / b)
  }

  /** Go's `%`: the remainder takes the sign of the dividend. */
  function TruncRem(a: int, b: int): int
    requires b > 0
  {
    a - b * TruncDiv(a, b)
  }

  /** `Duration.Minutes() == 0`. Go computes `float64(d / Minute) +
      float64(d % Minute) / 60e9` with truncating division: the whole part
      is exact, the fraction has the same sign and magnitude below one and
      is non-zero whenever the remainder is, so the sum is zero exactly when
      both the quotient and the remainder are. */
  predicate MinutesIsZero(d: Duration) {
    TruncDiv(d, Minute) == 0 && TruncRem(d, Minute) == 0
  }

  /** The test in `DisplayResult` is an exact-zero test on the duration,
      not a whole-minute comparison: a difference of one nanosecond, of
      either sign, is already not zero. */
  lemma MinutesIsZeroIff(d: Duration)
    ensures MinutesIsZero(d) <==> d == 0
  {
    if d > 0 {
      if TruncDiv(d, Minute) == 0 {
        assert TruncRem(d, Minute) == d;
      }
    } else if d < 0 {
      if TruncDiv(d, Minute) == 0 {
        assert TruncRem(d, Minute) == d;
      }
    }
  }

  datatype Status = OK | Outdated

  /** What `DisplayResult` prints for one package: the import path, each
      lookup's outcome (`None` prints as "Error"), the status line if any,
      and the width of the closing line of dashes. */
  datatype Report = Report(
    importName: string,
    local: Option<Instant>,
    remote: Option<Instant>,
    status: Option<Status>,
    separatorWidth: nat)

  /** `DisplayResult` with the two lookups supplied as arguments. */
  function DisplayResult(pkg: Package, local: Option<Instant>, remote: Option<Instant>): (r: Report)
    ensures r.importName == pkg.importName
    ensures r.local == local && r.remote == remote
    ensures r.status.Some? <==> local.Some? && remote.Some?
    ensures r.status == Some(OK) <==> local.Some? && remote.Some? && local.value == remote.value
    ensures r.status == Some(Outdated) <==> local.Some? && remote.Some? && local.value != remote.value
    ensures r.separatorWidth == |pkg.importName|
  {
    var status :=
      if local.Some? && remote.Some? then
        var delta := Sub(local.value, remote.value);
        MinutesIsZeroIff(delta);
        Some(if MinutesIsZero(delta) then OK else Outdated)
      else None;
    Report(pkg.importName, local, remote, status, |pkg.importName|)
  }

  /** The classification does not depend on which side is ahead: swapping
      the local and remote instants gives the same status. */
  lemma StatusSymmetric(pkg: Package, local: Option<Instant>, remote: Option<Instant>)
    ensures DisplayResult(pkg, local, remote).status == DisplayResult(pkg, remote, local).status
  {
  }

  /** A local checkout that is ahead of the remote by any amount, however
      small, is reported as outdated, just as one that is behind. */
  lemma OutdatedEitherWay(pkg: Package, remote: Instant, offset: int)
    requires offset != 0
    ensures DisplayResult(pkg, Some(remote + offset), Some(remote)).status == Some(Outdated)
    ensures DisplayResult(pkg, Some(remote - offset), Some(remote)).status == Some(Outdated)
  {
  }
}
