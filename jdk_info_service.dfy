/**
  Ranking and default selection of the JDK info service: the step that the
  detect engine runs on the JDKs found by one scan. It sorts them in place by
  version, then build number, then architecture, and marks exactly one of
  them as the default.
 */
module JdkInfoService {

  import opened Wrappers
  import opened Strings
  import opened Version

  /**
    One detected JDK. The descriptive fields are written once, when the JDK
    is probed, and never again; the ranking step only writes `default`.
   */
  class Jdk<V> {
    const path: string
    const version: V
    const build: Option<nat>
    const arch: string
    var default: bool

    constructor (path: string, version: V, build: Option<nat>, arch: string)
      ensures this.path == path && this.version == version
      ensures this.build == build && this.arch == arch
      ensures !default
    {
      this.path := path;
      this.version := version;
      this.build := build;
      this.arch := arch;
      default := false;
    }
  }

  // ---------------------------------------------------------------------
  // Search locations
  // ---------------------------------------------------------------------

  /**
    The locations the detect engine searches: the configured search paths,
    in the order given, followed by the platform's well-known JDK locations.
   */
  function SearchPaths(configured: seq<string>, platformLocations: seq<string>): (r: seq<string>)
    ensures |r| == |configured| + |platformLocations|
    ensures forall i :: 0 <= i < |configured| ==> r[i] == configured[i]
    ensures forall i :: 0 <= i < |platformLocations| ==> r[|configured| + i] == platformLocations[i]
  {
    configured + platformLocations
  }

  // ---------------------------------------------------------------------
  // The comparator
  // ---------------------------------------------------------------------

  /** A missing build number counts as 0. */
  function BuildOrZero(build: Option<nat>): nat {
    match build
    case None => 0
    case Some(b) => b
  }

  /**
    The sort comparator: the version comparison first, then the build
    number, then the architecture string.
   */
  function Compare<V>(versionCompare: (V, V) -> int, a: Jdk<V>, b: Jdk<V>): (r: int) {
    var r := versionCompare(a.version, b.version);
    if r != 0 then r
    else
      var d := BuildOrZero(a.build) - BuildOrZero(b.build);
      if d != 0 then d
      else LocaleCompare(a.arch, b.arch)
  }

  /**
    The comparator orders by the three keys lexicographically: `a` goes first
    exactly when its version is lower, or the versions tie and its build is
    lower, or both tie and its architecture comes first; the two tie exactly
    when all three keys do.
   */
  lemma CompareByKeys<V>(versionCompare: (V, V) -> int, a: Jdk<V>, b: Jdk<V>)
    ensures Compare(versionCompare, a, b) < 0 <==>
      || versionCompare(a.version, b.version) < 0
      || (versionCompare(a.version, b.version) == 0 && BuildOrZero(a.build) < BuildOrZero(b.build))
      || (versionCompare(a.version, b.version) == 0 && BuildOrZero(a.build) == BuildOrZero(b.build) &&
          LocaleCompare(a.arch, b.arch) < 0)
    ensures Compare(versionCompare, a, b) == 0 <==>
      versionCompare(a.version, b.version) == 0 && BuildOrZero(a.build) == BuildOrZero(b.build) && a.arch == b.arch
  {
    LocaleCompareZeroIffEqual(a.arch, b.arch);
  }

  /**
    A missing build number ranks exactly like build 0: replacing one by the
    other changes no comparison, in either operand position.
   */
  lemma MissingBuildSortsAsZero<V>(versionCompare: (V, V) -> int, a: Jdk<V>, a0: Jdk<V>, b: Jdk<V>)
    requires a.version == a0.version && a.arch == a0.arch
    requires a.build == None && a0.build == Some(0)
    ensures Compare(versionCompare, a, b) == Compare(versionCompare, a0, b)
    ensures Compare(versionCompare, b, a) == Compare(versionCompare, b, a0)
  {
  }

  /** `a` may be placed before `b`. */
  predicate Le<V>(versionCompare: (V, V) -> int, a: Jdk<V>, b: Jdk<V>) {
    Compare(versionCompare, a, b) <= 0
  }

  /** Non-decreasing under the comparator. */
  predicate Sorted<V>(versionCompare: (V, V) -> int, s: seq<Jdk<V>>) {
    forall p, q :: 0 <= p < q < |s| ==> Le(versionCompare, s[p], s[q])
  }

  /** The comparator's sign flips when its operands are swapped. */
  lemma CompareAntisymmetric<V(!new)>(versionCompare: (V, V) -> int, a: Jdk<V>, b: Jdk<V>)
    requires IsComparator(versionCompare)
    ensures Compare(versionCompare, a, b) < 0 <==> Compare(versionCompare, b, a) > 0
  {
    LocaleCompareAntisymmetric(a.arch, b.arch);
  }

  /** Any two JDKs are ordered one way or the other, and each is ordered with itself. */
  lemma CompareTotal<V(!new)>(versionCompare: (V, V) -> int, a: Jdk<V>, b: Jdk<V>)
    requires IsComparator(versionCompare)
    ensures Le(versionCompare, a, b) || Le(versionCompare, b, a)
    ensures Le(versionCompare, a, a)
  {
    CompareAntisymmetric(versionCompare, a, b);
    CompareAntisymmetric(versionCompare, a, a);
  }

  /** The comparator's "not after" relation is transitive. */
  lemma CompareTransitive<V(!new)>(versionCompare: (V, V) -> int, a: Jdk<V>, b: Jdk<V>, c: Jdk<V>)
    requires IsComparator(versionCompare)
    requires Le(versionCompare, a, b) && Le(versionCompare, b, c)
    ensures Le(versionCompare, a, c)
  {
    var va, vb, vc := a.version, b.version, c.version;
    assert versionCompare(va, vb) <= 0 && versionCompare(vb, vc) <= 0;
    if versionCompare(va, vb) == 0 && versionCompare(vb, vc) == 0 {
      assert versionCompare(va, vc) <= 0 && versionCompare(vc, va) <= 0;
      if BuildOrZero(a.build) == BuildOrZero(b.build) == BuildOrZero(c.build) {
        LocaleCompareTransitive(a.arch, b.arch, c.arch);
      }
    }
  }

  /**
    What a sorted result means key by key: versions never decrease; among
    equal versions builds never decrease; among equal versions and builds
    architectures never decrease.
   */
  lemma SortedByVersionThenBuildThenArch<V>(versionCompare: (V, V) -> int, s: seq<Jdk<V>>, p: int, q: int)
    requires Sorted(versionCompare, s)
    requires 0 <= p < q < |s|
    ensures versionCompare(s[p].version, s[q].version) <= 0
    ensures versionCompare(s[p].version, s[q].version) == 0 ==>
      BuildOrZero(s[p].build) <= BuildOrZero(s[q].build)
    ensures versionCompare(s[p].version, s[q].version) == 0 && BuildOrZero(s[p].build) == BuildOrZero(s[q].build) ==>
      LocaleCompare(s[p].arch, s[q].arch) <= 0
  {
  }

  // ---------------------------------------------------------------------
  // Default selection, as a function of the sorted paths
  // ---------------------------------------------------------------------

  /** The paths of a result list, in order. */
  function Paths<V>(s: seq<Jdk<V>>): (r: seq<string>) {
    seq(|s|, i requires 0 <= i < |s| => s[i].path)
  }

  /**
    The engine's default path counts as unset when it is missing or empty
    (both are falsy in JavaScript).
   */
  predicate Unset(defaultPath: Option<string>) {
    defaultPath.None? || defaultPath.value == ""
  }

  /** Index of the first path equal to `p`, or `|paths|` when there is none. */
  function FirstMatch(paths: seq<string>, p: string): (r: nat)
    ensures r <= |paths|
    ensures r < |paths| ==> paths[r] == p
    ensures forall j :: 0 <= j < r ==> paths[j] != p
    decreases |paths|
  {
    if |paths| == 0 then 0
    else if paths[0] == p then 0
    else 1 + FirstMatch(paths[1..], p)
  }

  /** The loop's test on one result, leaving out whether a default was already found. */
  predicate Accepts(defaultPath: Option<string>, path: string) {
    Unset(defaultPath) || defaultPath == Some(path)
  }

  /** An empty default path selects exactly as a missing one does: the first result. */
  lemma EmptyDefaultPathIsUnset(paths: seq<string>)
    requires |paths| > 0
    ensures DefaultIndex(paths, Some("")) == DefaultIndex(paths, None) == 0
  {
  }

  /** A non-empty default path lets the loop's test accept exactly the equal path. */
  lemma SetDefaultPathAcceptsOnlyItself(p: string, q: string)
    requires p != ""
    ensures Accepts(Some(p), q) <==> p == q
  {
  }

  /**
    The index the marking loop picks on its own: the first path its test
    accepts, or `|paths|` when it accepts none.
   */
  function Picked(paths: seq<string>, defaultPath: Option<string>): (r: nat)
    ensures r <= |paths|
    ensures r < |paths| ==> Accepts(defaultPath, paths[r])
    ensures forall j :: 0 <= j < r ==> !Accepts(defaultPath, paths[j])
  {
    if Unset(defaultPath) then 0 else FirstMatch(paths, defaultPath.value)
  }

  /**
    Which of the sorted results becomes the default. With no default path
    it is the first (lowest-ranked) one; otherwise it is the first result
    whose path is the default path; when no path matches it is the last
    (highest-ranked) one.
   */
  function DefaultIndex(paths: seq<string>, defaultPath: Option<string>): (r: nat)
    requires |paths| > 0
    ensures r < |paths|
    ensures Unset(defaultPath) ==> r == 0
    ensures !Unset(defaultPath) && defaultPath.value in paths ==>
      paths[r] == defaultPath.value && forall j :: 0 <= j < r ==> paths[j] != defaultPath.value
    ensures !Unset(defaultPath) && defaultPath.value !in paths ==> r == |paths| - 1
  {
    var k := Picked(paths, defaultPath);
    if k < |paths| then k else |paths| - 1
  }

  /** With no default path, the default is ranked no higher than any other result. */
  lemma UnsetPicksLowestRanked<V(!new)>(versionCompare: (V, V) -> int, s: seq<Jdk<V>>, defaultPath: Option<string>, j: int)
    requires IsComparator(versionCompare)
    requires Sorted(versionCompare, s)
    requires Unset(defaultPath)
    requires 0 <= j < |s|
    ensures Le(versionCompare, s[DefaultIndex(Paths(s), defaultPath)], s[j])
  {
    CompareTotal(versionCompare, s[0], s[0]);
  }

  /** With a default path that no result has, the default is ranked no lower than any other. */
  lemma NoMatchPicksHighestRanked<V(!new)>(versionCompare: (V, V) -> int, s: seq<Jdk<V>>, defaultPath: Option<string>, j: int)
    requires IsComparator(versionCompare)
    requires Sorted(versionCompare, s)
    requires !Unset(defaultPath)
    requires forall i :: 0 <= i < |s| ==> s[i].path != defaultPath.value
    requires 0 <= j < |s|
    ensures Le(versionCompare, s[j], s[DefaultIndex(Paths(s), defaultPath)])
  {
    var last := |s| - 1;
    assert defaultPath.value !in Paths(s) by {
      forall i | 0 <= i < |s| ensures Paths(s)[i] != defaultPath.value { }
    }
    CompareTotal(versionCompare, s[last], s[last]);
  }

  // ---------------------------------------------------------------------
  // Distinct objects
  // ---------------------------------------------------------------------

  /** Same elements, each as often, possibly in another order. */
  predicate Permutation<T(==)>(s: seq<T>, t: seq<T>) {
    multiset(s) == multiset(t)
  }

  /** No object appears twice. */
  predicate Distinct<T(==)>(s: seq<T>) {
    forall p, q :: 0 <= p < q < |s| ==> s[p] != s[q]
  }

  lemma {:induction false} DistinctCountsAtMostOne<T>(s: seq<T>, x: T)
    requires Distinct(s)
    ensures multiset(s)[x] <= 1
    decreases |s|
  {
    if |s| > 0 {
      assert s == [s[0]] + s[1..];
      assert Distinct(s[1..]) by {
        forall p, q | 0 <= p < q < |s[1..]| ensures s[1..][p] != s[1..][q] {
          assert s[1..][p] == s[p + 1] && s[1..][q] == s[q + 1];
        }
      }
      DistinctCountsAtMostOne(s[1..], x);
      if s[0] == x {
        assert x !in s[1..] by {
          forall i | 0 <= i < |s[1..]| ensures s[1..][i] != x {
            assert s[1..][i] == s[i + 1];
          }
        }
      }
    }
  }

  lemma RepeatCountsTwice<T>(t: seq<T>, p: int, q: int)
    requires 0 <= p < q < |t| && t[p] == t[q]
    ensures multiset(t)[t[p]] >= 2
  {
    assert t == t[..q] + t[q..];
    assert t[p] in t[..q];
    assert t[q..][0] == t[q];
  }

  /** A permutation of a list of distinct objects holds distinct objects. */
  lemma DistinctPermutation<T>(s: seq<T>, t: seq<T>)
    requires Distinct(s)
    requires multiset(s) == multiset(t)
    ensures Distinct(t)
  {
    forall p, q | 0 <= p < q < |t| ensures t[p] != t[q] {
      if t[p] == t[q] {
        RepeatCountsTwice(t, p, q);
        DistinctCountsAtMostOne(s, t[p]);
      }
    }
  }

  // ---------------------------------------------------------------------
  // The ranking step
  // ---------------------------------------------------------------------

  /**
    The in-place sort (an insertion sort by adjacent swaps): afterwards
    the array is a permutation of what it was and is non-decreasing under
    the comparator.
   */
  method SortResults<V(!new)>(a: array<Jdk<V>>, versionCompare: (V, V) -> int)
    requires IsComparator(versionCompare)
    modifies a
    ensures Sorted(versionCompare, a[..])
    ensures Permutation(a[..], old(a[..]))
  {
    var i := 0;
    while i < a.Length
      invariant 0 <= i <= a.Length
      invariant Sorted(versionCompare, a[..i])
      invariant Permutation(a[..], old(a[..]))
    {
      Insert(a, i, versionCompare);
      i := i + 1;
    }
    assert a[..] == a[..a.Length];
  }

  /**
    One step of the sort: moves `a[i]` down into the sorted prefix
    `a[..i]`, so that `a[..i + 1]` is sorted.
   */
  method Insert<V(!new)>(a: array<Jdk<V>>, i: int, versionCompare: (V, V) -> int)
    requires IsComparator(versionCompare)
    requires 0 <= i < a.Length
    requires Sorted(versionCompare, a[..i])
    modifies a
    ensures Sorted(versionCompare, a[..i + 1])
    ensures Permutation(a[..], old(a[..]))
    ensures forall k :: i < k < a.Length ==> a[k] == old(a[k])
  {
    StartInserting(versionCompare, a[..], i);
    var j := i;
    while j > 0 && !Le(versionCompare, a[j - 1], a[j])
      invariant 0 <= j <= i
      invariant InsertingAt(versionCompare, a[..], i, j)
      invariant Permutation(a[..], old(a[..]))
      invariant forall k :: i < k < a.Length ==> a[k] == old(a[k])
    {
      SwapStep(versionCompare, a[..], i, j);
      a[j - 1], a[j] := a[j], a[j - 1];
      j := j - 1;
    }
    InsertedSorted(versionCompare, a[..], i, j);
  }

  /**
    The state of one sorting step: `s[..i + 1]` with the element at `j` left
    out is sorted, and that element is no higher than any after it.
   */
  ghost predicate InsertingAt<V>(versionCompare: (V, V) -> int, s: seq<Jdk<V>>, i: int, j: int)
    requires 0 <= j <= i < |s|
  {
    && (forall p, q :: 0 <= p < q <= i && p != j && q != j ==> Le(versionCompare, s[p], s[q]))
    && (forall q :: j < q <= i ==> Le(versionCompare, s[j], s[q]))
  }

  /** A sorted prefix `s[..i]` is the state in which the step starts at `i`. */
  lemma StartInserting<V>(versionCompare: (V, V) -> int, s: seq<Jdk<V>>, i: int)
    requires 0 <= i < |s|
    requires Sorted(versionCompare, s[..i])
    ensures InsertingAt(versionCompare, s, i, i)
  {
    forall p, q | 0 <= p < q < i ensures Le(versionCompare, s[p], s[q]) {
      assert s[..i][p] == s[p] && s[..i][q] == s[q];
    }
  }

  /** Swapping the element at `j` with a higher one before it moves the step on by one. */
  lemma SwapStep<V(!new)>(versionCompare: (V, V) -> int, s: seq<Jdk<V>>, i: int, j: int)
    requires IsComparator(versionCompare)
    requires 0 < j <= i < |s|
    requires InsertingAt(versionCompare, s, i, j)
    requires !Le(versionCompare, s[j - 1], s[j])
    ensures InsertingAt(versionCompare, s[j - 1 := s[j]][j := s[j - 1]], i, j - 1)
  {
    CompareAntisymmetric(versionCompare, s[j - 1], s[j]);
  }

  /**
    When the element at `j` is no lower than the one before it, the prefix
    `s[..i + 1]`, sorted apart from position `j`, is sorted.
   */
  lemma InsertedSorted<V(!new)>(versionCompare: (V, V) -> int, s: seq<Jdk<V>>, i: int, j: int)
    requires IsComparator(versionCompare)
    requires 0 <= j <= i < |s|
    requires InsertingAt(versionCompare, s, i, j)
    requires j > 0 ==> Le(versionCompare, s[j - 1], s[j])
    ensures Sorted(versionCompare, s[..i + 1])
  {
    forall p, q | 0 <= p < q <= i ensures Le(versionCompare, s[p], s[q]) {
      if q == j && p < j - 1 {
        CompareTransitive(versionCompare, s[p], s[j - 1], s[j]);
      }
    }
  }

  /**
    The marking loop: walks the sorted results once, marks the first result
    it may pick and unmarks every other; if it picked none, marks the last.
    `found` is true exactly when an already visited result is marked.
   */
  method MarkDefault<V>(results: array<Jdk<V>>, defaultPath: Option<string>)
    requires results.Length > 0
    requires Distinct(results[..])
    modifies set i | 0 <= i < results.Length :: results[i]
    ensures forall i :: 0 <= i < results.Length ==>
      results[i].default == (i == DefaultIndex(Paths(results[..]), defaultPath))
  {
    ghost var paths := Paths(results[..]);
    ghost var k := Picked(paths, defaultPath);
    var found := false;
    var i := 0;
    while i < results.Length
      invariant 0 <= i <= results.Length
      invariant found <==> k < i
      invariant found <==> exists j :: 0 <= j < i && results[j].default
      invariant forall j :: 0 <= j < i ==> results[j].default == (j == k)
    {
      assert paths[i] == results[i].path;
      if !found && Accepts(defaultPath, results[i].path) {
        results[i].default := true;
        found := true;
      } else {
        results[i].default := false;
      }
      i := i + 1;
    }
    if !found {
      results[results.Length - 1].default := true;
    }
  }

  /**
    Sorts the JDKs found by one scan and marks exactly one of them as the
    default. `defaultPath` is the detect engine's default path.
   */
  method ProcessResults<V(!new)>(results: array<Jdk<V>>, versionCompare: (V, V) -> int, defaultPath: Option<string>)
    requires IsComparator(versionCompare)
    requires Distinct(results[..])
    modifies results, set i | 0 <= i < results.Length :: results[i]
    ensures Permutation(results[..], old(results[..]))
    ensures results.Length <= 1 ==> results[..] == old(results[..])
    ensures Sorted(versionCompare, results[..])
    ensures forall i :: 0 <= i < results.Length ==>
      results[i].default == (i == DefaultIndex(Paths(results[..]), defaultPath))
    ensures results.Length > 0 ==>
      (exists k :: 0 <= k < results.Length && results[k].default &&
        forall i :: 0 <= i < results.Length && i != k ==> !results[i].default)
  {
    if results.Length > 1 {
      SortResults(results, versionCompare);
    }
    if results.Length > 0 {
      DistinctPermutation(old(results[..]), results[..]);
      forall i | 0 <= i < results.Length
        ensures results[i] in old(set j | 0 <= j < results.Length :: results[j])
      {
        assert results[i] in multiset(old(results[..]));
      }
      MarkDefault(results, defaultPath);
      ghost var d := DefaultIndex(Paths(results[..]), defaultPath);
      assert results[d].default;
    }
  }

}
