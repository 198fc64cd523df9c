/** Release version codes of ODK Aggregate: parsing a tag such as `v2.0.3` or
    `v2.0.0-beta.1` into major/minor/patch plus a kind, and the hand-written
    comparator the catalog sorts with. The comparator is modelled as written,
    quirks included: a legacy receiver is always "less", and a final release
    compared with a beta of the same major/minor/patch answers 0 while the
    beta compared with the final release answers -1. */
module Versions {
  import opened Wrappers
  import opened JavaText

  /** The version type; a pre-release always carries its iteration (Java keeps
      the iteration in a separate optional that is present exactly for betas). */
  datatype Kind = Normal | PreRelease(iteration: int) | Legacy

  /** An immutable version: the literal it was parsed from is kept for display
      and URL building but takes no part in equality or ordering. */
  datatype Version = Version(literal: string, major: int, minor: int, patch: int, kind: Kind)

  /** Why `Version.from` refused a literal. The first three are
      IllegalArgumentException (NumberFormatException is one); the last is the
      StringIndexOutOfBounds or ArrayIndexOutOfBounds exception that no caller catches. */
  datatype ParseError =
    | NotSemver
    | BadNumber(text: string)
    | UnsupportedType(text: string)
    | IndexOutOfRange
  {
    predicate IsIllegalArgument() {
      !IndexOutOfRange?
    }
  }

  /** Characters the regex `.` refuses to match without DOTALL. */
  predicate IsLineTerminator(c: char) {
    c == '\n' || c == '\r' || c == '\U{0085}' || c == '\U{2028}' || c == '\U{2029}'
  }

  predicate NoLineTerminator(s: string) {
    forall i :: 0 <= i < |s| ==> !IsLineTerminator(s[i])
  }

  /** End of the longest run of digits starting at `i`. */
  function DigitRunEnd(s: string, i: nat): (j: nat)
    requires i <= |s|
    ensures i <= j <= |s|
    ensures AllDigits(s[i..j])
    ensures j < |s| ==> !IsDigit(s[j])
    decreases |s| - i
  {
    if i < |s| && IsDigit(s[i]) then
      var j := DigitRunEnd(s, i + 1);
      assert s[i..j] == [s[i]] + s[i + 1..j];
      j
    else i
  }

  /** The three captured digit groups of the version pattern. */
  datatype Groups = Groups(major: string, minor: string, patch: string)

  /** Whole-string match of `^v?(\d+?)\.(\d+?)\.(\d+).*`. The lazy groups can
      only stop where a dot follows, so each group is a maximal digit run; the
      trailing `.*` accepts anything but a line terminator. */
  function MatchSemver(s: string): Option<Groups> {
    var a := if |s| > 0 && s[0] == 'v' then 1 else 0;
    var e1 := DigitRunEnd(s, a);
    if e1 == a || e1 == |s| || s[e1] != '.' then None
    else
      var e2 := DigitRunEnd(s, e1 + 1);
      if e2 == e1 + 1 || e2 == |s| || s[e2] != '.' then None
      else
        var e3 := DigitRunEnd(s, e2 + 1);
        if e3 == e2 + 1 || !NoLineTerminator(s[e3..]) then None
        else Some(Groups(s[a..e1], s[e1 + 1..e2], s[e2 + 1..e3]))
  }

  /** The shape the pattern describes: optional `v`, three non-empty digit
      groups separated by dots, then a tail that does not continue the last
      group and holds no line terminator. */
  predicate WellShaped(prefix: string, g: Groups, rest: string) {
    && (prefix == "" || prefix == "v")
    && |g.major| > 0 && AllDigits(g.major)
    && |g.minor| > 0 && AllDigits(g.minor)
    && |g.patch| > 0 && AllDigits(g.patch)
    && (|rest| > 0 ==> !IsDigit(rest[0]))
    && NoLineTerminator(rest)
  }

  function Assemble(prefix: string, g: Groups, rest: string): string {
    prefix + g.major + "." + g.minor + "." + g.patch + rest
  }

  lemma DigitRunEndAt(s: string, i: nat, j: nat)
    requires i <= j <= |s|
    requires AllDigits(s[i..j])
    requires j < |s| ==> !IsDigit(s[j])
    ensures DigitRunEnd(s, i) == j
    decreases j - i
  {
    if i < j {
      assert IsDigit(s[i..j][0]);
      assert s[i + 1..j] == s[i..j][1..];
      DigitRunEndAt(s, i + 1, j);
    }
  }

  /** Every string of the described shape matches, capturing exactly its groups. */
  lemma {:induction false} MatchSemverComplete(prefix: string, g: Groups, rest: string)
    requires WellShaped(prefix, g, rest)
    ensures MatchSemver(Assemble(prefix, g, rest)) == Some(g)
  {
    var s := Assemble(prefix, g, rest);
    var a := |prefix|;
    var e1 := a + |g.major|;
    var e2 := e1 + 1 + |g.minor|;
    var e3 := e2 + 1 + |g.patch|;
    assert s[a..e1] == g.major;
    assert s[e1] == '.';
    assert s[e1 + 1..e2] == g.minor;
    assert s[e2] == '.';
    assert s[e2 + 1..e3] == g.patch;
    assert s[e3..] == rest;
    assert |s| > 0 && (s[0] == 'v' <==> prefix == "v") by {
      assert IsDigit(g.major[0]);
      if prefix == "" {
        assert s[0] == g.major[0];
      }
    }
    DigitRunEndAt(s, a, e1);
    DigitRunEndAt(s, e1 + 1, e2);
    if e3 < |s| {
      assert s[e3] == rest[0];
    }
    DigitRunEndAt(s, e2 + 1, e3);
    MatchSemverAt(s, a, e1, e2, e3);
  }

  /** The match, once the three digit runs are known to end at the cut points. */
  lemma MatchSemverAt(s: string, a: nat, e1: nat, e2: nat, e3: nat)
    requires a == if |s| > 0 && s[0] == 'v' then 1 else 0
    requires a < e1 < |s| && s[e1] == '.' && DigitRunEnd(s, a) == e1
    requires e1 + 1 < e2 < |s| && s[e2] == '.' && DigitRunEnd(s, e1 + 1) == e2
    requires e2 + 1 < e3 <= |s| && DigitRunEnd(s, e2 + 1) == e3 && NoLineTerminator(s[e3..])
    ensures MatchSemver(s) == Some(Groups(s[a..e1], s[e1 + 1..e2], s[e2 + 1..e3]))
  {
  }

  /** The captured groups are non-empty digit runs. */
  lemma MatchSemverGroups(s: string)
    requires MatchSemver(s).Some?
    ensures var g := MatchSemver(s).value;
            && |g.major| > 0 && AllDigits(g.major)
            && |g.minor| > 0 && AllDigits(g.minor)
            && |g.patch| > 0 && AllDigits(g.patch)
  {
  }

  /** Every match has the described shape: the string is rebuilt from its groups. */
  lemma MatchSemverSound(s: string)
    requires MatchSemver(s).Some?
    ensures var a := if s[0] == 'v' then "v" else "";
            var g := MatchSemver(s).value;
            var e3 := |a| + |g.major| + |g.minor| + |g.patch| + 2;
            e3 <= |s| && WellShaped(a, g, s[e3..]) && s == Assemble(a, g, s[e3..])
  {
    MatchSemverShape(s);
    MatchSemverRebuilds(s);
  }

  lemma MatchSemverShape(s: string)
    requires MatchSemver(s).Some?
    ensures var a := if s[0] == 'v' then "v" else "";
            var g := MatchSemver(s).value;
            var e3 := |a| + |g.major| + |g.minor| + |g.patch| + 2;
            e3 <= |s| && WellShaped(a, g, s[e3..])
  {
  }

  lemma MatchSemverRebuilds(s: string)
    requires MatchSemver(s).Some?
    ensures var a := if s[0] == 'v' then "v" else "";
            var g := MatchSemver(s).value;
            var e3 := |a| + |g.major| + |g.minor| + |g.patch| + 2;
            e3 <= |s| && s == Assemble(a, g, s[e3..])
  {
    var a := if |s| > 0 && s[0] == 'v' then 1 else 0;
    var e1 := DigitRunEnd(s, a);
    var e2 := DigitRunEnd(s, e1 + 1);
    var e3 := DigitRunEnd(s, e2 + 1);
    var g := MatchSemver(s).value;
    assert g == Groups(s[a..e1], s[e1 + 1..e2], s[e2 + 1..e3]);
    assert |g.major| + |g.minor| + |g.patch| + 2 == e3 - a;
    assert s[..a] == if s[0] == 'v' then "v" else "";
    Rebuild(s, a, e1, e2, e3);
  }

  /** Cutting a string at four points and putting the pieces back together. */
  lemma Rebuild(s: string, a: nat, e1: nat, e2: nat, e3: nat)
    requires a <= e1 < e2 < e3 <= |s| && s[e1] == '.' && s[e2] == '.'
    ensures s == s[..a] + s[a..e1] + "." + s[e1 + 1..e2] + "." + s[e2 + 1..e3] + s[e3..]
  {
    assert s[..e1 + 1] == s[..a] + s[a..e1] + ".";
    assert s[..e2 + 1] == s[..a] + s[a..e1] + "." + s[e1 + 1..e2] + ".";
    assert s[..e3] == s[..a] + s[a..e1] + "." + s[e1 + 1..e2] + "." + s[e2 + 1..e3];
  }

  function ParseGroup(text: string): (r: Result<int, ParseError>)
    requires |text| > 0 && AllDigits(text)
    ensures r.Success? ==> 0 <= r.value <= IntMax
  {
    ParseIntOfDigits(text);
    match ParseInt(text)
    case Some(n) => Success(n)
    case None => Failure(BadNumber(text))
  }

  /** The iteration: the text after the last dot, cut at its first hyphen. A
      text made only of hyphens splits into nothing, and indexing the empty
      array fails. */
  function IterationFrom(tail: string): (r: Result<Kind, ParseError>)
    ensures r.Success? ==> r.value.PreRelease?
  {
    var pieces := Split(tail, '-');
    if |pieces| == 0 then Failure(IndexOutOfRange)
    else
      match ParseInt(pieces[0])
      case None => Failure(BadNumber(pieces[0]))
      case Some(it) => Success(PreRelease(it))
  }

  /** `equalsIgnoreCase("beta")`, the only type `Version.from` accepts. */
  predicate SpellsBeta(token: string) {
    EqualsIgnoreCase(token, "beta")
  }

  /** The type part of `Version.from`: only a literal with a hyphen has one,
      and it must read `beta` (any case) between the first hyphen and the last dot. */
  function KindFrom(s: string): (r: Result<Kind, ParseError>)
    ensures r.Success? ==> !r.value.Legacy? && (r.value.Normal? <==> '-' !in s)
  {
    if '-' !in s then Success(Normal)
    else KindBetween(s, IndexOf(s, '-') + 1, LastIndexOf(s, '.'))
  }

  /** The type between `begin` and `end`, then the iteration after `end`. */
  function KindBetween(s: string, begin: int, end: int): (r: Result<Kind, ParseError>)
    requires end < |s|
    ensures r.Success? ==> r.value.PreRelease?
  {
    match Substring(s, begin, end)
    case None => Failure(IndexOutOfRange)
    case Some(token) =>
      if !SpellsBeta(token) then Failure(UnsupportedType(token))
      else IterationFrom(s[end + 1..])
  }

  /** The part of `Version.from` after a successful match: the three groups
      as ints, then the type and iteration, each failing in that order. */
  function FromGroups(s: string, g: Groups): (r: Result<Version, ParseError>)
    requires |g.major| > 0 && AllDigits(g.major)
    requires |g.minor| > 0 && AllDigits(g.minor)
    requires |g.patch| > 0 && AllDigits(g.patch)
    ensures r.Success? <==> && ParseInt(g.major).Some? && ParseInt(g.minor).Some? && ParseInt(g.patch).Some?
                            && KindFrom(s).Success?
    ensures r.Success? ==> r.value == Version(s, ParseInt(g.major).value, ParseInt(g.minor).value, ParseInt(g.patch).value, KindFrom(s).value)
    ensures r.Success? ==> 0 <= r.value.major <= IntMax && 0 <= r.value.minor <= IntMax && 0 <= r.value.patch <= IntMax
    ensures r.Failure? ==> !r.error.NotSemver?
  {
    var major :- ParseGroup(g.major);
    var minor :- ParseGroup(g.minor);
    var patch :- ParseGroup(g.patch);
    var kind :- KindFrom(s);
    Success(Version(s, major, minor, patch, kind))
  }

  /** `Version.from`: match the pattern, parse the three groups, then read the
      type and iteration. */
  function From(s: string): (r: Result<Version, ParseError>)
    ensures r == Failure(NotSemver) <==> MatchSemver(s).None?
    ensures r.Success? ==> r.value.literal == s && !r.value.kind.Legacy?
    ensures r.Success? ==> 0 <= r.value.major <= IntMax && 0 <= r.value.minor <= IntMax && 0 <= r.value.patch <= IntMax
    ensures r.Success? ==> (r.value.kind.Normal? <==> '-' !in s)
  {
    match MatchSemver(s)
    case None => Failure(NotSemver)
    case Some(g) =>
      MatchSemverGroups(s);
      FromGroups(s, g)
  }

  /** `Version.read`: the version file's content, trimmed, through `from`. */
  function Read(content: string): (r: Result<Version, ParseError>)
    ensures r.Success? ==> r.value.literal == Trim(content) && !IsLegacy(r.value)
    ensures r == Failure(NotSemver) <==> MatchSemver(Trim(content)).None?
  {
    From(Trim(content))
  }

  /** Blanks around the version in the file do not matter: reading the
      trimmed content reads the same version. */
  lemma ReadIgnoresSurroundingBlanks(content: string)
    ensures Read(Trim(content)) == Read(content)
  {
    TrimIdempotent(content);
  }

  /** `new NullVersion(s)`: the legacy stand-in for a tag that is not a version. */
  function NullVersion(s: string): Version {
    Version(s, 0, 0, 0, Legacy)
  }

  predicate IsLegacy(v: Version) {
    v.kind.Legacy?
  }

  /** `isPreRelease` (called `isBeta` by the updater's copy of this class). */
  predicate IsPreRelease(v: Version) {
    v.kind.PreRelease?
  }

  /** The optional iteration field; `getIteration` throws when it is empty. */
  function Iteration(v: Version): Option<int> {
    if v.kind.PreRelease? then Some(v.kind.iteration) else None
  }

  function ToString(v: Version): string {
    v.literal
  }

  /** `equals`: major, minor, patch, type and iteration; never the literal. */
  predicate Equals(a: Version, b: Version): (eq: bool)
    ensures eq <==> a.(literal := b.literal) == b
  {
    a.major == b.major && a.minor == b.minor && a.patch == b.patch && a.kind == b.kind
  }

  function KindOrdinal(k: Kind): int {
    match k
    case Normal => 0
    case PreRelease(_) => 1
    case Legacy => 2
  }

  /** `hashCode` = `Objects.hash(major, minor, patch, type, iteration)`; the enum's
      identity hash is represented by its ordinal, an empty optional hashes to 0. */
  function HashCode(v: Version): (h: int)
    ensures IsInt32(h)
  {
    ObjectsHash([v.major, v.minor, v.patch, KindOrdinal(v.kind), Iteration(v).GetOr(0)])
  }

  /** `Integer.compare`. */
  function IntCompare(x: int, y: int): (r: int)
    ensures r == -1 <==> x < y
    ensures r == 0 <==> x == y
    ensures r == 1 <==> x > y
  {
    if x < y then -1 else if x == y then 0 else 1
  }

  predicate SameTriple(a: Version, b: Version) {
    a.major == b.major && a.minor == b.minor && a.patch == b.patch
  }

  /** `compareTo`, branch for branch. */
  function CompareTo(a: Version, b: Version): (r: int)
    ensures -1 <= r <= 1
    ensures IsLegacy(a) ==> r == -1
    ensures !IsLegacy(a) && IsLegacy(b) ==> r == 1
  {
    if IsLegacy(a) then -1
    else if IsLegacy(b) then 1
    else if a.major > b.major then 1
    else if a.major == b.major && a.minor > b.minor then 1
    else if a.major == b.major && a.minor == b.minor && a.patch > b.patch then 1
    else if SameTriple(a, b) && IsPreRelease(a) && !IsPreRelease(b) then -1
    else if SameTriple(a, b) && IsPreRelease(a) && IsPreRelease(b) then IntCompare(a.kind.iteration, b.kind.iteration)
    else if SameTriple(a, b) then 0
    else -1
  }

  /** `buildGitHubDownloadUrl`. */
  function DownloadUrl(v: Version): (url: string)
    ensures var p := |UrlHead|;
            && |url| == p + 2 * |v.literal| + |UrlMiddle| + 4
            && url[..p] == UrlHead
            && url[p..p + |v.literal|] == v.literal
            && url[|url| - 4 - |v.literal|..|url| - 4] == v.literal
            && url[|url| - 4..] == ".war"
  {
    UrlHead + v.literal + UrlMiddle + v.literal + ".war"
  }

  const UrlHead := "https://github.com/opendatakit/aggregate/releases/download/"
  const UrlMiddle := "/ODK-Aggregate-"

  // ---------------------------------------------------------------------------
  // Parsing properties

  /** `toString` gives back exactly the literal that was parsed. */
  lemma FromKeepsLiteral(s: string)
    requires From(s).Success?
    ensures ToString(From(s).value) == s
  {
  }

  /** A successful parse reads major, minor and patch from the three digit
      groups of the pattern. */
  lemma FromReadsGroups(s: string)
    requires From(s).Success?
    ensures MatchSemver(s).Some?
    ensures var g := MatchSemver(s).value;
            && ParseInt(g.major) == Some(From(s).value.major)
            && ParseInt(g.minor) == Some(From(s).value.minor)
            && ParseInt(g.patch) == Some(From(s).value.patch)
  {
  }

  /** With no hyphen, every literal of the pattern whose groups fit in an int
      is a final release without an iteration. */
  lemma FromWithoutHyphen(s: string)
    requires MatchSemver(s).Some? && '-' !in s
    requires var g := MatchSemver(s).value;
             ParseInt(g.major).Some? && ParseInt(g.minor).Some? && ParseInt(g.patch).Some?
    ensures From(s).Success? && From(s).value.kind == Normal && Iteration(From(s).value) == None
  {
  }

  /** With a hyphen, the type is read only when the text between the first
      hyphen and the last dot spells `beta`; the result is then a pre-release
      whose iteration is the number after the last dot up to the next hyphen. */
  lemma KindWithHyphen(s: string)
    requires KindFrom(s).Success? && '-' in s
    ensures var begin := IndexOf(s, '-') + 1;
            var end := LastIndexOf(s, '.');
            && 0 <= begin <= end
            && SpellsBeta(s[begin..end])
            && KindFrom(s).value.PreRelease?
            && var tail := s[end + 1..];
               var cut := if '-' in tail then IndexOf(tail, '-') else |tail|;
               ParseInt(tail[..cut]) == Some(KindFrom(s).value.iteration)
  {
    KindBetweenHead(s, IndexOf(s, '-') + 1, LastIndexOf(s, '.'));
  }

  lemma FromKind(s: string)
    requires From(s).Success?
    ensures KindFrom(s).Success? && From(s).value.kind == KindFrom(s).value
  {
    MatchSemverGroups(s);
    assert From(s) == FromGroups(s, MatchSemver(s).value);
  }

  /** The same, for the type between any two positions. */
  lemma KindBetweenHead(s: string, begin: int, end: int)
    requires end < |s| && KindBetween(s, begin, end).Success?
    ensures && 0 <= begin <= end
            && SpellsBeta(s[begin..end])
            && KindBetween(s, begin, end).value.PreRelease?
            && var tail := s[end + 1..];
               var cut := if '-' in tail then IndexOf(tail, '-') else |tail|;
               ParseInt(tail[..cut]) == Some(KindBetween(s, begin, end).value.iteration)
  {
    IterationFromHead(s[end + 1..]);
  }

  lemma IterationFromHead(tail: string)
    requires IterationFrom(tail).Success?
    ensures var cut := if '-' in tail then IndexOf(tail, '-') else |tail|;
            Some(IterationFrom(tail).value.iteration) == ParseInt(tail[..cut])
  {
    SplitHead(tail, '-');
  }

  /** A hyphen with no dot after it (`v1.2.3-rc`) makes `substring` fail with
      begin greater than end: an error that is not an IllegalArgumentException. */
  lemma FromHyphenAfterLastDot(s: string)
    requires MatchSemver(s).Some?
    requires var g := MatchSemver(s).value;
             ParseInt(g.major).Some? && ParseInt(g.minor).Some? && ParseInt(g.patch).Some?
    requires '-' in s && IndexOf(s, '-') > LastIndexOf(s, '.')
    ensures From(s) == Failure(IndexOutOfRange)
    ensures !From(s).error.IsIllegalArgument()
  {
  }

  /** Anything but `beta` between the hyphen and the last dot is rejected as an
      unsupported type, an IllegalArgumentException. */
  lemma FromRejectsOtherQualifier(s: string)
    requires MatchSemver(s).Some?
    requires var g := MatchSemver(s).value;
             ParseInt(g.major).Some? && ParseInt(g.minor).Some? && ParseInt(g.patch).Some?
    requires '-' in s && IndexOf(s, '-') < LastIndexOf(s, '.')
    requires !SpellsBeta(s[IndexOf(s, '-') + 1..LastIndexOf(s, '.')])
    ensures From(s).Failure? && From(s).error.UnsupportedType? && From(s).error.IsIllegalArgument()
  {
  }

  /** A digit group too large for an int is a NumberFormatException. */
  lemma FromRejectsHugeGroup(s: string)
    requires MatchSemver(s).Some? && DigitsValue(MatchSemver(s).value.major) > IntMax
    ensures From(s) == Failure(BadNumber(MatchSemver(s).value.major))
  {
    var g := MatchSemver(s).value;
    MatchSemverSound(s);
    ParseIntOfDigits(g.major);
  }

  predicate NoHyphen(s: string) {
    '-' !in s
  }

  predicate NoDot(s: string) {
    '.' !in s
  }

  /** `core-beta.N` followed by `tail`, where the tail is empty or starts a new
      hyphenated part and has no dot, parses as beta N of the core's triple
      whatever the tail: build metadata after a second hyphen is ignored, so
      `v2.0.0-beta.0-9-gf72dfeed-dirty` and `v2.0.0-beta.0` parse to equal
      versions with iteration 0. */
  lemma {:induction false} BetaSuffixParses(prefix: string, g: Groups, n: string, tail: string, s: string)
    requires WellShaped(prefix, g, "")
    requires ParseInt(g.major).Some? && ParseInt(g.minor).Some? && ParseInt(g.patch).Some?
    requires |n| > 0 && AllDigits(n) && DigitsValue(n) <= IntMax
    requires NoDot(tail) && NoLineTerminator(tail)
    requires tail == "" || tail[0] == '-'
    requires s == Assemble(prefix, g, "") + "-beta." + (n + tail)
    ensures From(s) == Success(Version(s, ParseInt(g.major).value, ParseInt(g.minor).value, ParseInt(g.patch).value, PreRelease(DigitsValue(n))))
  {
    var core := Assemble(prefix, g, "");
    var rest := "-beta." + (n + tail);
    assert s == Assemble(prefix, g, rest);
    BetaRestShape(prefix, g, n, tail);
    MatchSemverComplete(prefix, g, rest);
    assert NoHyphen(core) by {
      forall i | 0 <= i < |core| ensures core[i] != '-' {
        CoreCharacter(prefix, g, i);
      }
    }
    BetaKind(core, n, tail);
    MatchSemverGroups(s);
    assert From(s) == FromGroups(s, g);
  }

  lemma BetaRestShape(prefix: string, g: Groups, n: string, tail: string)
    requires WellShaped(prefix, g, "")
    requires |n| > 0 && AllDigits(n)
    requires NoLineTerminator(tail)
    ensures WellShaped(prefix, g, "-beta." + (n + tail))
  {
    var rest := "-beta." + (n + tail);
    forall i | 0 <= i < |rest| ensures !IsLineTerminator(rest[i]) {
      if 6 <= i < 6 + |n| {
        assert rest[i] == n[i - 6];
        assert IsDigit(n[i - 6]);
      } else if i >= 6 + |n| {
        assert rest[i] == tail[i - 6 - |n|];
      }
    }
  }

  /** The type part of `core-beta.N` + tail, for a hyphen-free core. */
  lemma BetaKind(core: string, n: string, tail: string)
    requires NoHyphen(core)
    requires |n| > 0 && AllDigits(n) && DigitsValue(n) <= IntMax
    requires NoDot(tail)
    requires tail == "" || tail[0] == '-'
    ensures KindFrom(core + "-beta." + (n + tail)) == Success(PreRelease(DigitsValue(n)))
  {
    var s := core + "-beta." + (n + tail);
    var h, d := |core|, |core| + 5;
    assert s[h] == '-' && '-' !in s[..h] && s[h + 1..d] == "beta" && s[d] == '.' && s[d + 1..] == n + tail by {
      BetaLayout(core, n + tail);
    }
    assert NoDot(n + tail) by {
      DigitsThenNoDot(n, tail);
    }
    BetaKindOf(s, h, d, n, tail);
  }

  lemma BetaKindOf(s: string, h: nat, d: nat, n: string, tail: string)
    requires h < d < |s|
    requires s[h] == '-' && '-' !in s[..h]
    requires s[d] == '.' && '.' !in s[d + 1..]
    requires s[h + 1..d] == "beta"
    requires s[d + 1..] == n + tail
    requires |n| > 0 && AllDigits(n) && DigitsValue(n) <= IntMax
    requires tail == "" || tail[0] == '-'
    ensures KindFrom(s) == Success(PreRelease(DigitsValue(n)))
  {
    BetaKindAt(s, h, d);
    IterationOfDigits(n, tail);
  }

  lemma BetaLayout(core: string, rest: string)
    ensures var s := core + "-beta." + rest;
            && s[..|core|] == core && s[|core|] == '-'
            && s[|core| + 1..|core| + 5] == "beta" && s[|core| + 5] == '.'
            && s[|core| + 6..] == rest
  {
    var head := core + "-beta.";
    var s := head + rest;
    assert s[..|core|] == head[..|core|] == core;
    assert s[|core| + 1..|core| + 5] == head[|core| + 1..|core| + 5] == "beta";
    assert s[|head|..] == rest;
  }

  lemma DigitsThenNoDot(n: string, tail: string)
    requires AllDigits(n) && NoDot(tail)
    ensures NoDot(n + tail)
  {
    forall i | 0 <= i < |n + tail| ensures (n + tail)[i] != '.' {
      if i < |n| {
        assert IsDigit(n[i]);
      } else {
        assert (n + tail)[i] == tail[i - |n|];
      }
    }
  }

  /** When the first hyphen is at `h`, the last dot at `d`, and `beta` lies
      between, the type part is decided by the iteration after `d`. */
  lemma BetaKindAt(s: string, h: nat, d: nat)
    requires h < d < |s|
    requires s[h] == '-' && '-' !in s[..h]
    requires s[d] == '.' && '.' !in s[d + 1..]
    requires s[h + 1..d] == "beta"
    ensures KindFrom(s) == IterationFrom(s[d + 1..])
  {
    IndexOfUnique(s, '-', h);
    LastIndexOfUnique(s, '.', d);
    BetaSpellsBeta();
    assert SpellsBeta(s[h + 1..d]);
  }

  lemma BetaSpellsBeta()
    ensures SpellsBeta("beta")
  {
    EqualsIgnoreCaseSelf("beta");
  }

  lemma IterationOfDigits(n: string, tail: string)
    requires |n| > 0 && AllDigits(n) && DigitsValue(n) <= IntMax
    requires tail == "" || tail[0] == '-'
    ensures IterationFrom(n + tail) == Success(PreRelease(DigitsValue(n)))
  {
    var after := n + tail;
    assert NoHyphen(n) by {
      forall i | 0 <= i < |n| ensures n[i] != '-' {
        assert IsDigit(n[i]);
      }
    }
    SplitHead(after, '-');
    if tail == "" {
      assert after == n;
    } else {
      assert after[|n|] == '-';
      assert after[..|n|] == n;
      IndexOfUnique(after, '-', |n|);
    }
    assert after[0] == n[0] && IsDigit(n[0]);
    ParseIntOfDigits(n);
  }

  lemma CoreCharacter(prefix: string, g: Groups, i: nat)
    requires WellShaped(prefix, g, "")
    requires i < |Assemble(prefix, g, "")|
    ensures Assemble(prefix, g, "")[i] != '-'
  {
    var s := Assemble(prefix, g, "");
    var a := |prefix|;
    var e1 := a + |g.major|;
    var e2 := e1 + 1 + |g.minor|;
    if i < a {
      assert s[i] == 'v';
    } else if i < e1 {
      assert s[i] == g.major[i - a];
      assert IsDigit(g.major[i - a]);
    } else if i == e1 || i == e2 {
      assert s[i] == '.';
    } else if i < e2 {
      assert s[i] == g.minor[i - e1 - 1];
      assert IsDigit(g.minor[i - e1 - 1]);
    } else {
      assert s[i] == g.patch[i - e2 - 1];
      assert IsDigit(g.patch[i - e2 - 1]);
    }
  }

  // ---------------------------------------------------------------------------
  // Equality, hashing, URL

  /** Equal versions have equal hash codes, whatever their literals. */
  lemma EqualsHash(a: Version, b: Version)
    requires Equals(a, b)
    ensures HashCode(a) == HashCode(b)
  {
  }

  /** Equality ignores the literal and nothing else. */
  lemma EqualsIgnoresLiteral(a: Version, b: Version)
    ensures Equals(a, b) <==> a.(literal := "") == b.(literal := "")
  {
  }

  /** The download URL names the literal twice and determines it: two versions
      share a URL exactly when they share a literal. */
  lemma DownloadUrlInjective(a: Version, b: Version)
    ensures DownloadUrl(a) == DownloadUrl(b) <==> a.literal == b.literal
  {
    if DownloadUrl(a) == DownloadUrl(b) {
      var p := |UrlHead|;
      assert |a.literal| == |b.literal|;
      assert a.literal == DownloadUrl(a)[p..p + |a.literal|];
    }
  }

  // ---------------------------------------------------------------------------
  // Ordering properties

  /** An independent reading of the order for non-legacy versions: compare
      (major, minor, patch, final-after-beta, iteration) lexicographically. */
  function Key(v: Version): seq<int> {
    [v.major, v.minor, v.patch, if IsPreRelease(v) then 0 else 1, Iteration(v).GetOr(0)]
  }

  function Triple(v: Version): seq<int> {
    [v.major, v.minor, v.patch]
  }

  predicate LexLess(x: seq<int>, y: seq<int>)
    requires |x| == |y|
  {
    |x| > 0 && (x[0] < y[0] || (x[0] == y[0] && LexLess(x[1..], y[1..])))
  }

  /** The one place where the comparator disagrees with the lexicographic key:
      a final release and a beta of the same major/minor/patch. */
  predicate MixedSameTriple(a: Version, b: Version) {
    SameTriple(a, b) && a.kind.Normal? && b.kind.PreRelease?
  }

  /** One step of LexLess, at position k. */
  lemma LexLessAt(x: seq<int>, y: seq<int>, k: nat)
    requires |x| == |y| && k < |x|
    ensures LexLess(x[k..], y[k..]) <==> x[k] < y[k] || (x[k] == y[k] && LexLess(x[k + 1..], y[k + 1..]))
  {
    assert x[k..][1..] == x[k + 1..] && y[k..][1..] == y[k + 1..];
  }

  /** LexLess spelled out on keys of length five and three. */
  lemma LexLessFive(x: seq<int>, y: seq<int>)
    requires |x| == |y| == 5
    ensures LexLess(x, y) <==>
      x[0] < y[0] || (x[0] == y[0] && (x[1] < y[1] || (x[1] == y[1] && (x[2] < y[2] || (x[2] == y[2] &&
      (x[3] < y[3] || (x[3] == y[3] && x[4] < y[4])))))))
  {
    assert x[0..] == x && y[0..] == y;
    LexLessAt(x, y, 0);
    LexLessAt(x, y, 1);
    LexLessAt(x, y, 2);
    LexLessAt(x, y, 3);
    LexLessAt(x, y, 4);
  }

  lemma LexLessThree(x: seq<int>, y: seq<int>)
    requires |x| == |y| == 3
    ensures LexLess(x, y) <==> x[0] < y[0] || (x[0] == y[0] && (x[1] < y[1] || (x[1] == y[1] && x[2] < y[2])))
  {
    assert x[0..] == x && y[0..] == y;
    LexLessAt(x, y, 0);
    LexLessAt(x, y, 1);
    LexLessAt(x, y, 2);
  }

  /** For a non-legacy receiver, "less than" is exactly the lexicographic key
      order against a non-legacy argument. */
  lemma CompareLessIsKeyOrder(a: Version, b: Version)
    requires !IsLegacy(a)
    ensures CompareTo(a, b) < 0 <==> !IsLegacy(b) && LexLess(Key(a), Key(b))
  {
    LexLessFive(Key(a), Key(b));
  }

  /** "Greater than" is the reverse key order, except that a final release
      compared with a beta of its own triple answers 0. */
  lemma CompareGreaterIsKeyOrder(a: Version, b: Version)
    requires !IsLegacy(a)
    ensures CompareTo(a, b) > 0 <==> IsLegacy(b) || (LexLess(Key(b), Key(a)) && !MixedSameTriple(a, b))
  {
    LexLessFive(Key(b), Key(a));
  }

  /** Between non-legacy versions with different major/minor/patch, the sign of
      `compareTo` is the lexicographic order of the triples. */
  lemma CompareTriples(a: Version, b: Version)
    requires !IsLegacy(a) && !IsLegacy(b) && !SameTriple(a, b)
    ensures CompareTo(a, b) == if LexLess(Triple(a), Triple(b)) then -1 else 1
  {
    LexLessThree(Triple(a), Triple(b));
  }

  /** Same major/minor/patch: a beta receiver is below a final release, two betas
      compare their iterations, everything else is 0 — including a final
      release against a beta. */
  lemma CompareSameTriple(a: Version, b: Version)
    requires !IsLegacy(a) && !IsLegacy(b) && SameTriple(a, b)
    ensures IsPreRelease(a) && !IsPreRelease(b) ==> CompareTo(a, b) == -1
    ensures IsPreRelease(a) && IsPreRelease(b) ==> CompareTo(a, b) == IntCompare(a.kind.iteration, b.kind.iteration)
    ensures !IsPreRelease(a) ==> CompareTo(a, b) == 0
  {
  }

  /** Antisymmetry holds everywhere except between two legacy versions and
      between a final release and a beta of the same triple. */
  lemma CompareAntisymmetric(a: Version, b: Version)
    requires !(IsLegacy(a) && IsLegacy(b))
    requires !MixedSameTriple(a, b) && !MixedSameTriple(b, a)
    ensures CompareTo(a, b) == -CompareTo(b, a)
  {
  }

  /** The two quirks, exhibited: a legacy version is "less" than itself, and a
      final release and its beta disagree about which is smaller. */
  lemma CompareQuirks(s: string, m: int, n: int, p: int, i: int)
    ensures CompareTo(NullVersion(s), NullVersion(s)) == -1
    ensures var fin := Version("final", m, n, p, Normal);
            var beta := Version("beta", m, n, p, PreRelease(i));
            CompareTo(fin, beta) == 0 && CompareTo(beta, fin) == -1
  {
  }

  /** "Less than" is transitive on all versions, legacy ones included. */
  lemma CompareLessTransitive(a: Version, b: Version, c: Version)
    requires CompareTo(a, b) < 0 && CompareTo(b, c) < 0
    ensures CompareTo(a, c) < 0
  {
    if !IsLegacy(a) {
      CompareLessIsKeyOrder(a, b);
      CompareLessIsKeyOrder(b, c);
      CompareLessIsKeyOrder(a, c);
      LexLessTransitive(Key(a), Key(b), Key(c));
    }
  }

  /** Among non-legacy versions "not less than" is transitive too: the key
      order is total. */
  lemma CompareNotLessTransitive(a: Version, b: Version, c: Version)
    requires !IsLegacy(a) && !IsLegacy(b) && !IsLegacy(c)
    requires !(CompareTo(a, b) < 0) && !(CompareTo(b, c) < 0)
    ensures !(CompareTo(a, c) < 0)
  {
    CompareLessIsKeyOrder(a, b);
    CompareLessIsKeyOrder(b, c);
    CompareLessIsKeyOrder(a, c);
    LexNotLessTransitive(Key(a), Key(b), Key(c));
  }

  lemma LexNotLessTransitive(x: seq<int>, y: seq<int>, z: seq<int>)
    requires |x| == |y| == |z|
    requires !LexLess(x, y) && !LexLess(y, z)
    ensures !LexLess(x, z)
  {
    LexTrichotomy(y, z);
    if LexLess(x, z) && LexLess(z, y) {
      LexLessTransitive(x, z, y);
    }
  }

  lemma {:induction false} LexLessTransitive(x: seq<int>, y: seq<int>, z: seq<int>)
    requires |x| == |y| == |z|
    requires LexLess(x, y) && LexLess(y, z)
    ensures LexLess(x, z)
  {
    if x[0] == y[0] == z[0] {
      LexLessTransitive(x[1..], y[1..], z[1..]);
    }
  }

  lemma {:induction false} LexTrichotomy(x: seq<int>, y: seq<int>)
    requires |x| == |y|
    ensures LexLess(x, y) || LexLess(y, x) || x == y
  {
    if |x| > 0 && x[0] == y[0] {
      LexTrichotomy(x[1..], y[1..]);
      if x[1..] == y[1..] {
        assert x == [x[0]] + x[1..];
        assert y == [y[0]] + y[1..];
      }
    }
  }

  lemma {:induction false} LexIrreflexive(x: seq<int>)
    ensures !LexLess(x, x)
  {
    if |x| > 0 {
      LexIrreflexive(x[1..]);
    }
  }

  lemma KeyInjective(a: Version, b: Version)
    requires !IsLegacy(a) && !IsLegacy(b)
    ensures Key(a) == Key(b) <==> Equals(a, b)
  {
    if Key(a) == Key(b) {
      assert Key(a)[3] == Key(b)[3] && Key(a)[4] == Key(b)[4];
    }
  }

  /** Among non-legacy versions, any two are ordered one way or the other by
      "less than" unless they are equal. */
  lemma CompareConnected(a: Version, b: Version)
    requires !IsLegacy(a) && !IsLegacy(b)
    ensures CompareTo(a, b) < 0 || CompareTo(b, a) < 0 || Equals(a, b)
  {
    CompareLessIsKeyOrder(a, b);
    CompareLessIsKeyOrder(b, a);
    LexTrichotomy(Key(a), Key(b));
    KeyInjective(a, b);
  }

  /** Among non-legacy versions, `compareTo` answers 0 both ways exactly for equal
      versions. */
  lemma CompareZeroBothWays(a: Version, b: Version)
    requires !IsLegacy(a) && !IsLegacy(b)
    ensures CompareTo(a, b) == 0 && CompareTo(b, a) == 0 <==> Equals(a, b)
  {
    CompareLessIsKeyOrder(a, b);
    CompareLessIsKeyOrder(b, a);
    CompareGreaterIsKeyOrder(a, b);
    CompareGreaterIsKeyOrder(b, a);
    LexTrichotomy(Key(a), Key(b));
    KeyInjective(a, b);
    LexIrreflexive(Key(a));
  }

  /** "Less than" is asymmetric unless both sides are legacy. */
  lemma CompareAsymmetric(a: Version, b: Version)
    requires !(IsLegacy(a) && IsLegacy(b))
    ensures CompareTo(a, b) < 0 ==> !(CompareTo(b, a) < 0)
  {
    if !IsLegacy(a) && CompareTo(a, b) < 0 {
      CompareLessIsKeyOrder(a, b);
      CompareLessIsKeyOrder(b, a);
      if CompareTo(b, a) < 0 {
        LexLessTransitive(Key(a), Key(b), Key(a));
        LexIrreflexive(Key(a));
      }
    }
  }

  /** No non-legacy version is less than itself. */
  lemma CompareIrreflexive(a: Version)
    requires !IsLegacy(a)
    ensures !(CompareTo(a, a) < 0)
  {
    CompareLessIsKeyOrder(a, a);
    LexIrreflexive(Key(a));
  }

  /** A legacy stand-in sits below every parsed version, from both sides. */
  lemma NullVersionBelowParsed(tag: string, s: string)
    requires From(s).Success?
    ensures CompareTo(NullVersion(tag), From(s).value) == -1
    ensures CompareTo(From(s).value, NullVersion(tag)) == 1
  {
  }
}
