/** GitHub releases of Aggregate and the catalog queries over them: decode
    each release (a tag that is not a version becomes a legacy stand-in), keep
    the updateable ones (and, in the installer, drop pre-releases unless asked
    for), sort them newest first, and take the head for "latest". The
    installer and the older updater query the same way apart from the
    repository URL and the pre-release filter. */
module Releases {
  import opened Wrappers
  import Versions
  import Http

  /** The fields of a release as the catalog lists them that the program uses. */
  datatype RawRelease = RawRelease(tag: string, prerelease: bool, publishedAt: string)

  datatype Release = Release(tag: string, version: Versions.Version, prerelease: bool, publishedAt: string)

  /** What escapes the catalog mapper: a version parse error that is not an
      IllegalArgumentException, or `get(0)` on an empty list. */
  datatype QueryError = Decoding(cause: Versions.ParseError) | NoFirstElement

  /** `Release.from`: the tag parsed as a version; an IllegalArgumentException
      falls back to a legacy stand-in carrying the tag, any other error escapes. */
  function From(raw: RawRelease): (r: Result<Release, QueryError>)
    ensures r.Failure? <==> Versions.From(raw.tag) == Failure(Versions.IndexOutOfRange)
    ensures r.Failure? ==> r.error == Decoding(Versions.IndexOutOfRange)
    ensures r.Success? ==> r.value.tag == raw.tag && r.value.prerelease == raw.prerelease && r.value.publishedAt == raw.publishedAt
    ensures r.Success? ==> r.value.version.literal == raw.tag
    ensures r.Success? ==> (Versions.IsLegacy(r.value.version) <==> Versions.From(raw.tag).Failure?)
  {
    match Versions.From(raw.tag)
    case Success(v) => Success(Release(raw.tag, v, raw.prerelease, raw.publishedAt))
    case Failure(e) =>
      if e.IsIllegalArgument() then Success(Release(raw.tag, Versions.NullVersion(raw.tag), raw.prerelease, raw.publishedAt))
      else Failure(Decoding(e))
  }

  /** A release whose tag is not a version decodes to a legacy 0.0.0 that
      sorts below every release whose tag is one. */
  lemma FallbackSortsBelow(raw: RawRelease, other: RawRelease)
    requires Versions.From(raw.tag).Failure? && From(raw).Success?
    requires Versions.From(other.tag).Success?
    ensures From(raw).value.version == Versions.NullVersion(raw.tag)
    ensures CompareTo(From(raw).value, From(other).value) == -1
    ensures CompareTo(From(other).value, From(raw).value) == 1
  {
  }

  function ToString(r: Release): string {
    "Release " + r.tag
  }

  /** `compareTo`: the versions' order. */
  function CompareTo(a: Release, b: Release): (c: int)
    ensures c == Versions.CompareTo(a.version, b.version)
  {
    Versions.CompareTo(a.version, b.version)
  }

  predicate IsNotLegacy(r: Release) {
    !Versions.IsLegacy(r.version)
  }

  /** `isNotBeta`: the updater's beta is the version's pre-release type. */
  predicate IsNotBeta(r: Release) {
    !Versions.IsPreRelease(r.version)
  }

  /** `isUpdateable`: not legacy and at least major version 2. */
  predicate IsUpdateable(r: Release) {
    !Versions.IsLegacy(r.version) && r.version.major >= 2
  }

  /** `isVersion`: version equality, which ignores the literal. */
  predicate IsVersion(r: Release, v: Versions.Version) {
    Versions.Equals(r.version, v)
  }

  /** Some release of the list is `v`: `noneMatch(release -> release.isVersion(v))` negated. */
  predicate Lists(rs: seq<Release>, v: Versions.Version) {
    exists i | 0 <= i < |rs| :: IsVersion(rs[i], v)
  }

  /** Between releases that are not legacy, `isVersion` is a tie in the
      order: each compares as equal to the other. The literal the other side
      was written with plays no part. */
  lemma IsVersionIsOrderTie(r: Release, v: Versions.Version, literal: string)
    requires IsNotLegacy(r) && !Versions.IsLegacy(v)
    ensures IsVersion(r, v) <==> Versions.CompareTo(r.version, v) == 0 && Versions.CompareTo(v, r.version) == 0
    ensures IsVersion(r, v) <==> IsVersion(r, v.(literal := literal))
  {
    Versions.CompareZeroBothWays(r.version, v);
  }

  // ---------------------------------------------------------------------------
  // Decoding and filtering

  /** Decoding a list, left to right; the first escaping error ends it. */
  function Decode(raws: seq<RawRelease>): (r: Result<seq<Release>, QueryError>)
    ensures r.Success? <==> forall i :: 0 <= i < |raws| ==> From(raws[i]).Success?
    ensures r.Success? ==> |r.value| == |raws| && forall i :: 0 <= i < |raws| ==> r.value[i] == From(raws[i]).value
    ensures r.Failure? ==> r.error == Decoding(Versions.IndexOutOfRange)
  {
    if |raws| == 0 then Success([])
    else
      var head :- From(raws[0]);
      var tail :- Decode(raws[1..]);
      assert forall i :: 1 <= i < |raws| ==> raws[i] == raws[1..][i - 1];
      Success([head] + tail)
  }

  /** `filter(Release::isUpdateable)`. */
  function Updateable(rs: seq<Release>): (r: seq<Release>)
    ensures forall x :: multiset(r)[x] == if IsUpdateable(x) then multiset(rs)[x] else 0
  {
    if |rs| == 0 then []
    else
      assert rs == [rs[0]] + rs[1..];
      (if IsUpdateable(rs[0]) then [rs[0]] else []) + Updateable(rs[1..])
  }

  /** `filter(r -> includePreReleases || !r.isPreRelease())`. */
  function PreReleaseFilter(rs: seq<Release>, includePre: bool): (r: seq<Release>)
    ensures forall x :: multiset(r)[x] == if includePre || !x.prerelease then multiset(rs)[x] else 0
  {
    if |rs| == 0 then []
    else
      assert rs == [rs[0]] + rs[1..];
      (if includePre || !rs[0].prerelease then [rs[0]] else []) + PreReleaseFilter(rs[1..], includePre)
  }

  /** `filter(Release::isNotLegacy)`. */
  function NotLegacy(rs: seq<Release>): (r: seq<Release>)
    ensures forall x :: multiset(r)[x] == if IsNotLegacy(x) then multiset(rs)[x] else 0
  {
    if |rs| == 0 then []
    else
      assert rs == [rs[0]] + rs[1..];
      (if IsNotLegacy(rs[0]) then [rs[0]] else []) + NotLegacy(rs[1..])
  }

  /** The updater's `filter(r -> includeBetaVersions || r.isNotBeta())`,
      which asks the version rather than the release flag. */
  function BetaFilter(rs: seq<Release>, includeBeta: bool): (r: seq<Release>)
    ensures forall x :: multiset(r)[x] == if includeBeta || IsNotBeta(x) then multiset(rs)[x] else 0
  {
    if |rs| == 0 then []
    else
      assert rs == [rs[0]] + rs[1..];
      (if includeBeta || IsNotBeta(rs[0]) then [rs[0]] else []) + BetaFilter(rs[1..], includeBeta)
  }

  /** Filtering out legacy releases before the updateable ones changes
      nothing: an updateable release is never legacy. */
  lemma {:induction false} NotLegacyBeforeUpdateable(rs: seq<Release>)
    ensures Updateable(NotLegacy(rs)) == Updateable(rs)
  {
    if |rs| > 0 {
      NotLegacyBeforeUpdateable(rs[1..]);
      var kept := NotLegacy(rs);
      if IsNotLegacy(rs[0]) {
        assert kept == [rs[0]] + NotLegacy(rs[1..]);
        assert kept[0] == rs[0] && kept[1..] == NotLegacy(rs[1..]);
      } else {
        assert kept == NotLegacy(rs[1..]);
        assert !IsUpdateable(rs[0]);
      }
    }
  }

  /** Including pre-releases makes the second filter drop nothing. */
  lemma {:induction false} PreReleaseFilterKeepsAll(rs: seq<Release>)
    ensures PreReleaseFilter(rs, true) == rs
  {
    if |rs| > 0 {
      PreReleaseFilterKeepsAll(rs[1..]);
      assert rs == [rs[0]] + rs[1..];
    }
  }

  lemma MultisetMembers(xs: seq<Release>, ys: seq<Release>)
    requires multiset(xs) == multiset(ys)
    ensures forall i :: 0 <= i < |xs| ==> xs[i] in ys
  {
    forall i | 0 <= i < |xs| ensures xs[i] in ys {
      assert xs[i] in multiset(xs);
    }
  }

  // ---------------------------------------------------------------------------
  // Sorting newest first

  /** Reverse order: no element is "less than" a later one. */
  predicate Descending(rs: seq<Release>) {
    forall i, j :: 0 <= i < j < |rs| ==> !(CompareTo(rs[i], rs[j]) < 0)
  }

  predicate NoneLegacy(rs: seq<Release>) {
    forall i :: 0 <= i < |rs| ==> IsNotLegacy(rs[i])
  }

  /** One step of a stable insertion sort under the reversed comparator: `x`
      goes before the first element that is less than it, so after every
      element it ties with. */
  function Insert(x: Release, s: seq<Release>): (r: seq<Release>)
    ensures |r| == |s| + 1 && multiset(r) == multiset(s) + multiset{x}
  {
    if |s| == 0 then [x]
    else if CompareTo(s[0], x) < 0 then [x] + s
    else
      assert s == [s[0]] + s[1..];
      [s[0]] + Insert(x, s[1..])
  }

  /** `sorted(reverseOrder())`: inserting each element in turn into the sorted
      prefix. The result is a permutation of the input. */
  function Sort(xs: seq<Release>): (r: seq<Release>)
    ensures |r| == |xs| && multiset(r) == multiset(xs)
  {
    if |xs| == 0 then []
    else
      assert xs == xs[..|xs| - 1] + [xs[|xs| - 1]];
      Insert(xs[|xs| - 1], Sort(xs[..|xs| - 1]))
  }

  lemma {:induction false} InsertDescending(x: Release, s: seq<Release>)
    requires Descending(s) && NoneLegacy(s) && IsNotLegacy(x)
    ensures Descending(Insert(x, s))
  {
    if |s| > 0 {
      if CompareTo(s[0], x) < 0 {
        AboveHeadAboveAll(x, s);
        ConsDescending(x, s);
      } else {
        InsertDescending(x, s[1..]);
        HeadAboveInsert(x, s);
        ConsDescending(s[0], Insert(x, s[1..]));
      }
    }
  }

  /** Putting in front an element that no later one is above keeps the order. */
  lemma ConsDescending(a: Release, t: seq<Release>)
    requires Descending(t)
    requires forall j :: 0 <= j < |t| ==> !(CompareTo(a, t[j]) < 0)
    ensures Descending([a] + t)
  {
    var r := [a] + t;
    forall i, j | 0 <= i < j < |r| ensures !(CompareTo(r[i], r[j]) < 0) {
      if i > 0 {
        assert r[i] == t[i - 1] && r[j] == t[j - 1];
      } else {
        assert r[j] == t[j - 1];
      }
    }
  }

  /** An element above the head of a descending list is below none of it. */
  lemma AboveHeadAboveAll(x: Release, s: seq<Release>)
    requires Descending(s) && NoneLegacy(s) && IsNotLegacy(x)
    requires |s| > 0 && CompareTo(s[0], x) < 0
    ensures forall j :: 0 <= j < |s| ==> !(CompareTo(x, s[j]) < 0)
  {
    forall j | 0 <= j < |s| ensures !(CompareTo(x, s[j]) < 0) {
      if j == 0 {
        Versions.CompareAsymmetric(s[0].version, x.version);
      } else if CompareTo(x, s[j]) < 0 {
        Versions.CompareLessTransitive(s[0].version, x.version, s[j].version);
      }
    }
  }

  /** The head of a descending list stays above what the insertion behind it
      produces, when it is not below the inserted element. */
  lemma HeadAboveInsert(x: Release, s: seq<Release>)
    requires Descending(s) && |s| > 0 && !(CompareTo(s[0], x) < 0)
    ensures forall j :: 0 <= j < |Insert(x, s[1..])| ==> !(CompareTo(s[0], Insert(x, s[1..])[j]) < 0)
  {
    var t := Insert(x, s[1..]);
    forall j | 0 <= j < |t| ensures !(CompareTo(s[0], t[j]) < 0) {
      assert t[j] in multiset(t);
      assert t[j] == x || t[j] in multiset(s[1..]);
      if t[j] != x {
        var k :| 0 <= k < |s[1..]| && s[1..][k] == t[j];
        assert s[k + 1] == t[j];
      }
    }
  }

  lemma NoneLegacyPrefix(xs: seq<Release>, n: nat)
    requires NoneLegacy(xs) && n <= |xs|
    ensures NoneLegacy(xs[..n])
  {
  }

  lemma NoneLegacyPermutation(xs: seq<Release>, ys: seq<Release>)
    requires NoneLegacy(xs) && multiset(xs) == multiset(ys)
    ensures NoneLegacy(ys)
  {
    MultisetMembers(ys, xs);
  }

  /** With no legacy release in the input the result is in reverse order. */
  lemma {:induction false} SortDescending(xs: seq<Release>)
    requires NoneLegacy(xs)
    ensures Descending(Sort(xs))
  {
    if |xs| > 0 {
      var init := xs[..|xs| - 1];
      NoneLegacyPrefix(xs, |xs| - 1);
      SortDescending(init);
      NoneLegacyPermutation(init, Sort(init));
      InsertDescending(xs[|xs| - 1], Sort(init));
    }
  }

  /** Inserting an element no member is less than appends it. */
  lemma {:induction false} InsertLast(x: Release, s: seq<Release>)
    requires forall i :: 0 <= i < |s| ==> !(CompareTo(s[i], x) < 0)
    ensures Insert(x, s) == s + [x]
  {
    if |s| > 0 {
      InsertLast(x, s[1..]);
      assert s == [s[0]] + s[1..];
    }
  }

  /** Sorting a list that is already in reverse order changes nothing: the
      insertion sort is stable. */
  lemma {:induction false} SortKeepsDescending(xs: seq<Release>)
    requires Descending(xs)
    ensures Sort(xs) == xs
  {
    if |xs| > 0 {
      var init := xs[..|xs| - 1];
      SortKeepsDescending(init);
      InsertLast(xs[|xs| - 1], init);
      assert init + [xs[|xs| - 1]] == xs;
    }
  }

  /** The legacy quirk of the comparator, shown on the sort: two legacy
      releases are each "less" than the other, so they swap places and the
      result is not in reverse order. No query reaches this case, since the
      updateable filter drops legacy releases before sorting. */
  lemma TwoLegacySwap(a: Release, b: Release)
    requires !IsNotLegacy(a) && !IsNotLegacy(b)
    ensures Sort([a, b]) == [b, a]
    ensures !Descending(Sort([a, b]))
  {
    assert [a, b][..1] == [a];
    assert Sort([a]) == [a] by { assert [a][..0] == []; }
    assert Sort([a, b])[0] == b && Sort([a, b])[1] == a;
  }

  // ---------------------------------------------------------------------------
  // The catalog queries

  const CatalogUrl := "https://api.github.com/repos/getodk/aggregate/releases"
  const LegacyCatalogUrl := "https://api.github.com/repos/opendatakit/aggregate/releases"

  /** The installer's `all(includePreReleases)` mapper. It fails exactly
      when some tag makes the version parser throw an error other than an
      IllegalArgumentException, and lists only releases passing both
      filters. */
  function All(raws: seq<RawRelease>, includePre: bool): (r: Result<seq<Release>, QueryError>)
    ensures r.Success? <==> forall i :: 0 <= i < |raws| ==> From(raws[i]).Success?
    ensures r.Failure? ==> r.error == Decoding(Versions.IndexOutOfRange)
    ensures r.Success? ==> forall x :: x in r.value ==> Listed(x, includePre)
  {
    var decoded :- Decode(raws);
    FilteredListed(decoded, includePre);
    Success(Sort(PreReleaseFilter(Updateable(decoded), includePre)))
  }

  /** The updater's `all()` mapper: no pre-release filter. */
  function AllLegacy(raws: seq<RawRelease>): (r: Result<seq<Release>, QueryError>)
    ensures r.Success? <==> forall i :: 0 <= i < |raws| ==> From(raws[i]).Success?
    ensures r.Failure? ==> r.error == Decoding(Versions.IndexOutOfRange)
    ensures r.Success? ==> forall x :: x in r.value ==> IsUpdateable(x)
  {
    var decoded :- Decode(raws);
    SortedUpdateable(decoded);
    Success(Sort(Updateable(decoded)))
  }

  lemma FilteredListed(d: seq<Release>, includePre: bool)
    ensures forall x :: x in Sort(PreReleaseFilter(Updateable(d), includePre)) ==> Listed(x, includePre)
  {
    var r := Sort(PreReleaseFilter(Updateable(d), includePre));
    forall x | x in r ensures Listed(x, includePre) {
      assert x in multiset(r);
    }
  }

  lemma SortedUpdateable(d: seq<Release>)
    ensures forall x :: x in Sort(Updateable(d)) ==> IsUpdateable(x)
  {
    var r := Sort(Updateable(d));
    forall x | x in r ensures IsUpdateable(x) {
      assert x in multiset(r);
    }
  }

  /** `releases.get(0)`. */
  function First(rs: seq<Release>): (r: Result<Release, QueryError>)
    ensures r.Success? <==> |rs| > 0
    ensures r.Success? ==> r.value in rs
    ensures r.Failure? ==> r.error == NoFirstElement
  {
    if |rs| == 0 then Failure(NoFirstElement) else Success(rs[0])
  }

  /** `latest`: the head of `all`'s list, so a listed release; an empty
      list throws at `get(0)`. */
  function Latest(raws: seq<RawRelease>, includePre: bool): (r: Result<Release, QueryError>)
    ensures All(raws, includePre).Failure? ==> r == Failure(All(raws, includePre).error)
    ensures All(raws, includePre).Success? ==> (r.Success? <==> |All(raws, includePre).value| > 0)
    ensures r.Success? ==> All(raws, includePre).Success? && r.value in All(raws, includePre).value && Listed(r.value, includePre)
    ensures r.Failure? ==> r.error == NoFirstElement || r.error == Decoding(Versions.IndexOutOfRange)
  {
    var all :- All(raws, includePre);
    First(all)
  }

  function LatestLegacy(raws: seq<RawRelease>): Result<Release, QueryError> {
    var all :- AllLegacy(raws);
    First(all)
  }

  /** Whether a release passes both filters of `all`. */
  predicate Listed(x: Release, includePre: bool) {
    IsUpdateable(x) && (includePre || !x.prerelease)
  }

  /** What `all` returns: it fails only when decoding does; each decoded
      release passing both filters appears as often as in the input and no
      other does; and the list is in reverse order. */
  lemma AllContents(raws: seq<RawRelease>, includePre: bool)
    ensures All(raws, includePre).Success? <==> Decode(raws).Success?
    ensures All(raws, includePre).Success? ==>
              forall x :: multiset(All(raws, includePre).value)[x] ==
                          if Listed(x, includePre) then multiset(Decode(raws).value)[x] else 0
    ensures All(raws, includePre).Success? ==> Descending(All(raws, includePre).value)
  {
    if Decode(raws).Success? {
      FilteredContents(Decode(raws).value, includePre);
    }
  }

  /** The filters and the sort of `all`, on the decoded list. */
  lemma FilteredContents(d: seq<Release>, includePre: bool)
    ensures var r := Sort(PreReleaseFilter(Updateable(d), includePre));
            && (forall x :: multiset(r)[x] == if Listed(x, includePre) then multiset(d)[x] else 0)
            && Descending(r)
  {
    var u := Updateable(d);
    var f := PreReleaseFilter(u, includePre);
    assert NoneLegacy(f) by {
      forall i | 0 <= i < |f| ensures IsNotLegacy(f[i]) {
        assert f[i] in multiset(f);
        assert f[i] in multiset(u);
      }
    }
    SortDescending(f);
  }

  /** Every listed release is updateable, and without the flag none is a
      pre-release. */
  lemma AllFiltered(raws: seq<RawRelease>, includePre: bool)
    requires All(raws, includePre).Success?
    ensures forall x :: x in All(raws, includePre).value ==> IsUpdateable(x)
    ensures !includePre ==> forall x :: x in All(raws, includePre).value ==> !x.prerelease
  {
    AllContents(raws, includePre);
    forall x | x in All(raws, includePre).value ensures Listed(x, includePre) {
      assert x in multiset(All(raws, includePre).value);
    }
  }

  /** The updater's query is the installer's one with pre-releases included. */
  lemma AllLegacyIsAllWithPreReleases(raws: seq<RawRelease>)
    ensures AllLegacy(raws) == All(raws, true)
  {
    if Decode(raws).Success? {
      PreReleaseFilterKeepsAll(Updateable(Decode(raws).value));
    }
  }

  /** `latest` is the first element of `all`: it exists exactly when `all`
      is non-empty, and nothing listed is greater. */
  lemma LatestIsGreatest(raws: seq<RawRelease>, includePre: bool)
    requires All(raws, includePre).Success?
    ensures Latest(raws, includePre).Success? <==> |All(raws, includePre).value| > 0
    ensures Latest(raws, includePre).Failure? ==> Latest(raws, includePre).error == NoFirstElement
    ensures Latest(raws, includePre).Success? ==>
              var l := Latest(raws, includePre).value;
              l == All(raws, includePre).value[0]
              && forall x :: x in All(raws, includePre).value ==> !(CompareTo(l, x) < 0)
  {
    AllContents(raws, includePre);
    var all := All(raws, includePre).value;
    if |all| > 0 {
      AllFiltered(raws, includePre);
      HeadIsGreatest(all);
    }
  }

  /** In a list in reverse order with no legacy release, nothing is greater
      than the head. */
  lemma HeadIsGreatest(all: seq<Release>)
    requires |all| > 0 && Descending(all)
    requires forall x :: x in all ==> IsUpdateable(x)
    ensures forall x :: x in all ==> !(CompareTo(all[0], x) < 0)
  {
    forall x | x in all ensures !(CompareTo(all[0], x) < 0) {
      var k :| 0 <= k < |all| && all[k] == x;
      if k == 0 {
        Versions.CompareIrreflexive(x.version);
      }
    }
  }

  /** The request `all` builds: a GET to the releases URL with the Accept
      header and then the User-Agent header, mapping the list with `All`. */
  function AllRequest(includePre: bool): (q: Http.Request<seq<RawRelease>, seq<Release>, QueryError>)
    ensures q.verb == Http.Get && q.url == CatalogUrl && q.credentials.None?
    ensures q.headers == [("Accept", "application/vnd.github.v3+json"), ("User-Agent", "Aggregate Updater")]
    ensures forall b :: q.mapper(b) == All(b, includePre)
  {
    var base := Http.GetJsonList<seq<RawRelease>, QueryError>(CatalogUrl);
    var withHeaders := Http.Header(Http.Header(base, "Accept", "application/vnd.github.v3+json"), "User-Agent", "Aggregate Updater");
    Http.WithMapper(withHeaders, (raws: seq<RawRelease>) => All(raws, includePre))
  }

  /** `latest` is `all` followed by `get(0)`. */
  function LatestRequest(includePre: bool): (q: Http.Request<seq<RawRelease>, Release, QueryError>)
    ensures q.verb == Http.Get && q.url == CatalogUrl && q.headers == AllRequest(includePre).headers
    ensures forall b :: q.mapper(b) == Latest(b, includePre)
  {
    Http.WithMapper(AllRequest(includePre), First)
  }

  function AllLegacyRequest(): (q: Http.Request<seq<RawRelease>, seq<Release>, QueryError>)
    ensures q.verb == Http.Get && q.url == LegacyCatalogUrl && q.credentials.None?
    ensures q.headers == [("Accept", "application/vnd.github.v3+json"), ("User-Agent", "Aggregate Updater")]
    ensures forall b :: q.mapper(b) == AllLegacy(b)
  {
    var base := Http.GetJsonList<seq<RawRelease>, QueryError>(LegacyCatalogUrl);
    var withHeaders := Http.Header(Http.Header(base, "Accept", "application/vnd.github.v3+json"), "User-Agent", "Aggregate Updater");
    Http.WithMapper(withHeaders, AllLegacy)
  }

  function LatestLegacyRequest(): (q: Http.Request<seq<RawRelease>, Release, QueryError>)
    ensures q.verb == Http.Get && q.url == LegacyCatalogUrl
    ensures forall b :: q.mapper(b) == LatestLegacy(b)
  {
    Http.WithMapper(AllLegacyRequest(), First)
  }

  // ---------------------------------------------------------------------------
  // The greatest version

  function VersionsOf(rs: seq<Release>): (vs: seq<Versions.Version>)
    ensures |vs| == |rs| && forall i :: 0 <= i < |rs| ==> vs[i] == rs[i].version
  {
    seq(|rs|, i requires 0 <= i < |rs| => rs[i].version)
  }

  /** `BinaryOperator.maxBy`: the accumulator wins ties. The result is one
      of the candidates. */
  function MaxFrom(acc: Versions.Version, vs: seq<Versions.Version>): (m: Versions.Version)
    ensures m == acc || m in vs
    decreases |vs|
  {
    if |vs| == 0 then acc
    else
      assert vs == [vs[0]] + vs[1..];
      MaxFrom(if Versions.CompareTo(acc, vs[0]) >= 0 then acc else vs[0], vs[1..])
  }

  /** `stream.max(Version::compareTo)`: a left fold of `maxBy`, empty only
      for an empty stream and otherwise one of its elements. */
  function Max(vs: seq<Versions.Version>): (r: Option<Versions.Version>)
    ensures r.Some? <==> |vs| > 0
    ensures r.Some? ==> r.value in vs
  {
    if |vs| == 0 then None else Some(MaxFrom(vs[0], vs[1..]))
  }

  predicate NoLegacyVersion(vs: seq<Versions.Version>) {
    forall i :: 0 <= i < |vs| ==> !Versions.IsLegacy(vs[i])
  }

  lemma {:induction false} MaxFromMaximal(acc: Versions.Version, vs: seq<Versions.Version>)
    requires !Versions.IsLegacy(acc) && NoLegacyVersion(vs)
    ensures var m := MaxFrom(acc, vs);
            && (m == acc || m in vs)
            && !(Versions.CompareTo(m, acc) < 0)
            && forall v :: v in vs ==> !(Versions.CompareTo(m, v) < 0)
    decreases |vs|
  {
    if |vs| == 0 {
      Versions.CompareIrreflexive(acc);
    } else {
      var next := if Versions.CompareTo(acc, vs[0]) >= 0 then acc else vs[0];
      MaxFromMaximal(next, vs[1..]);
      var m := MaxFrom(acc, vs);
      assert m == MaxFrom(next, vs[1..]);
      if Versions.CompareTo(m, acc) < 0 {
        if next != acc {
          Versions.CompareLessTransitive(m, acc, next);
        }
      }
      if next == acc {
        assert vs[0] in vs;
        Versions.CompareNotLessTransitive(m, acc, vs[0]);
      }
      assert vs == [vs[0]] + vs[1..];
    }
  }

  /** Among non-legacy versions the maximum is one of them and none is greater. */
  lemma MaxIsGreatest(vs: seq<Versions.Version>)
    requires NoLegacyVersion(vs)
    ensures Max(vs).Some? <==> |vs| > 0
    ensures Max(vs).Some? ==> Max(vs).value in vs && forall v :: v in vs ==> !(Versions.CompareTo(Max(vs).value, v) < 0)
  {
    if |vs| > 0 {
      MaxFromMaximal(vs[0], vs[1..]);
      assert vs == [vs[0]] + vs[1..];
    }
  }

  /** On a list in reverse order, the fold keeps the head throughout. */
  lemma {:induction false} MaxFromKeepsHead(acc: Versions.Version, vs: seq<Versions.Version>)
    requires forall i :: 0 <= i < |vs| ==> !(Versions.CompareTo(acc, vs[i]) < 0)
    ensures MaxFrom(acc, vs) == acc
    decreases |vs|
  {
    if |vs| > 0 {
      MaxFromKeepsHead(acc, vs[1..]);
    }
  }

  /** The greatest version of `all`'s list is the version of `latest`. */
  lemma MaxOfAllIsLatest(raws: seq<RawRelease>, includePre: bool)
    requires Latest(raws, includePre).Success?
    ensures Max(VersionsOf(All(raws, includePre).value)) == Some(Latest(raws, includePre).value.version)
  {
    var all := All(raws, includePre).value;
    assert Descending(all) && |all| > 0 by {
      AllContents(raws, includePre);
    }
    assert Latest(raws, includePre).value == all[0];
    MaxOfDescending(all);
  }

  /** On a list in reverse order the greatest version is the head's. */
  lemma MaxOfDescending(rs: seq<Release>)
    requires Descending(rs) && |rs| > 0
    ensures Max(VersionsOf(rs)) == Some(rs[0].version)
  {
    var vs := VersionsOf(rs);
    assert forall i :: 0 <= i < |vs[1..]| ==> vs[1..][i] == rs[i + 1].version;
    MaxFromKeepsHead(vs[0], vs[1..]);
  }
}
