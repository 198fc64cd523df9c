# aggregate-cli, modelled in Dafny

aggregate-cli installs, updates and lists releases of ODK Aggregate, a Java
web application served by Tomcat. There are two generations of the program,
and this project models both:

- the installer (`-i`, `-u`, `-l`). It reads a JSON environment
  configuration, queries the GitHub releases of Aggregate, and replaces the
  ROOT webapp through a fixed sequence of shell commands.
- the older updater (`-u`, `-l`). It reads a version file under `/var/lib`,
  backs up the deployed webapp and its property files, deploys the selected
  release and diffs the configurations.

The model keeps the program's own structure, one module per concern:

| module | file | what it holds |
|---|---|---|
| `JavaText` | java_text.dfy | `Integer.parseInt`, `indexOf`, `lastIndexOf`, `substring`, `split`, `trim`, `equalsIgnoreCase`, 32-bit hashes |
| `Paths` | paths.dfy | the JDK's Unix path normal form, `resolve` and `toAbsolutePath` |
| `Versions` | versions.dfy | `Version.from`, `read`, `equals`, `hashCode`, `compareTo` and the download URL |
| `Optionals` | optionals.dfy | the first-present `race` over optionals and over suppliers |
| `Http` | http.dfy | immutable requests (`getJsonList`, `header`, `withMapper`, `resolve`, `equals`) and `execute` against a server answer |
| `Releases` | releases.dfy | `Release.from`, the filters, the reverse sort and the `all`/`latest` queries of both generations |
| `Configuration` | configuration.dfy | `EnvironmentConfiguration`: reading the JSON file, the derived paths, the backup file name, the template maps |
| `Console` | console.dfy | `Console` as a function on a state: printing, `confirm`, `execute`, `block`, `exit`, `requireSuperuser` and plans of actions |
| `Environment` | environment.dfy | what the installer's operations find around them: whoami output, files, the catalog's answer, the clock |
| `Install` | install.dfy | `Install.install`, the six blocks that replace ROOT |
| `InstallOperation` | install_operation.dfy | the `-i` operation |
| `UpdateOperation` | update_operation.dfy | the installer's `-u` operation |
| `ListVersions` | list_versions.dfy | both `-l` operations |
| `LegacyUpdate` | legacy_update.dfy | the older updater's `-u` operation |

An operation is a total function from a console `State` to a `Step`, which
is either `Next(value, state)` or `Halt(state, end)`. The end is an exit
status or the exception that escapes. A state records:

- the trace of events: lines printed, prompts, commands run with their exit
  codes, files written;
- the unread input lines;
- the number of commands run so far.

Exit codes, whoami's output, files on disk, the catalog's answer, the clock
and the temporary directory are plain parameters.

## Model

| member | source | states |
|---|---|---|
| `JavaText.ParseInt` | src/main/java/org/opendatakit/aggregate/cli/reused/releases/Version.java:37-39 | `Integer.parseInt` yields only 32-bit values, and only for non-empty text |
| `JavaText.ParseIntOfDigits` | src/main/java/org/opendatakit/aggregate/cli/reused/releases/Version.java:37-39 | a digit group parses to its decimal value exactly when that value fits in an int, and throws otherwise |
| `JavaText.ParseIntRoundTrip` | src/main/java/org/opendatakit/aggregate/cli/reused/releases/Version.java:37-39 | printing any 32-bit int, negative ones included, and parsing it back gives the same number; a number outside the 32-bit range prints to text that does not parse |
| `JavaText.ParseIntAccepts` | src/main/java/org/opendatakit/aggregate/cli/reused/releases/Version.java:37-39 | an optional `+` or `-` followed by at least one digit parses to the signed value of the digits when it fits in an int, and throws when it does not |
| `JavaText.ParseIntOnlyNumerals` | src/main/java/org/opendatakit/aggregate/cli/reused/releases/Version.java:37-39 | whatever parses is an optional sign followed by at least one digit and nothing else, and the result is the signed value of those digits |
| `JavaText.IndexOf` | src/main/java/org/opendatakit/aggregate/cli/reused/releases/Version.java:40-41 | `indexOf` is -1 exactly when the character is absent, and otherwise the position of its first occurrence |
| `JavaText.LastIndexOf` | src/main/java/org/opendatakit/aggregate/cli/reused/releases/Version.java:41-44 | `lastIndexOf` is -1 exactly when the character is absent, and otherwise the position of its last occurrence |
| `JavaText.Substring` | src/main/java/org/opendatakit/aggregate/cli/reused/releases/Version.java:41 | `substring(b, e)` is defined exactly when 0 <= b <= e <= length; otherwise it throws StringIndexOutOfBounds |
| `JavaText.SplitHead` | src/main/java/org/opendatakit/aggregate/cli/reused/releases/Version.java:44 | `split("-")` is empty exactly for a non-empty run of hyphens; otherwise its first piece is the text before the first hyphen |
| `JavaText.Split` | src/main/java/org/opendatakit/aggregate/cli/reused/releases/Version.java:44 | no piece of `split` holds the separator; text without the separator splits into itself alone; when the text holds it, the last piece, if there is one, is not empty |
| `JavaText.EqualsIgnoreCase` | src/main/java/org/opendatakit/aggregate/cli/reused/releases/Version.java:150-154 | `equalsIgnoreCase` only matches strings of the same length, and always matches a string with itself |
| `JavaText.EqualsIgnoreCaseOnLower` | src/main/java/org/opendatakit/aggregate/cli/reused/releases/Version.java:150-154 | between two lower-case ASCII strings, `equalsIgnoreCase` is plain equality |
| `JavaText.Trim` | src/main/java/org/opendatakit/aggregate/cli/reused/releases/Version.java:50 | `trim` cuts only characters up to U+0020, from both ends, and keeps a slice that neither starts nor ends with one |
| `JavaText.TrimIdempotent` | src/main/java/org/opendatakit/aggregate/cli/reused/releases/Version.java:50 | trimming twice is trimming once |
| `Paths.PathOf` | src/main/java/org/opendatakit/aggregate/cli/operations/EnvironmentConfiguration.java:62 | `Paths.get` fails exactly on text with a NUL character, and otherwise yields a path in normal form |
| `Paths.NormalizeIdempotent` | src/main/java/org/opendatakit/aggregate/cli/operations/EnvironmentConfiguration.java:207 | a path that is already normal is unchanged by `Paths.get` |
| `Paths.Resolve` | src/main/java/org/opendatakit/aggregate/cli/operations/EnvironmentConfiguration.java:76-98 | `resolve` returns an absolute argument unchanged, keeps the base's absoluteness otherwise, and stays in normal form |
| `Paths.ResolveChildSplits` | src/main/java/org/opendatakit/aggregate/cli/operations/EnvironmentConfiguration.java:76-86 | resolving one name under a directory is undone by parent and file name |
| `Paths.ResolveUnder` | src/main/java/org/opendatakit/aggregate/cli/operations/EnvironmentConfiguration.java:92-98 | a relative multi-segment path lands under the base after exactly one separator |
| `Paths.ToAbsolute` | src/main/java/org/opendatakit/aggregate/cli/operations/Install.java:46 | `toAbsolutePath` gives an absolute normal path and leaves an absolute one alone |
| `Paths.ToAbsoluteIdempotent` | src/main/java/org/opendatakit/aggregateupdater/update/UpdateOperation.java:39 | making a path absolute twice is making it absolute once |
| `Versions.From` | src/main/java/org/opendatakit/aggregate/cli/reused/releases/Version.java:32-47 | a literal is refused as not semver exactly when the pattern does not match all of it; a parsed version keeps the literal, is never legacy, has int-sized parts, and is final exactly when the literal has no hyphen |
| `Versions.MatchSemverComplete` | src/main/java/org/opendatakit/aggregate/cli/reused/releases/Version.java:33-35 | every text of the shape `v?D.D.D<rest>` matches and captures exactly its three digit groups, despite the lazy quantifiers |
| `Versions.MatchSemverSound` | src/main/java/org/opendatakit/aggregate/cli/reused/releases/Version.java:33-35 | every match is the optional `v`, the three captured groups joined by dots, and the rest |
| `Versions.FromKeepsLiteral` | src/main/java/org/opendatakit/aggregate/cli/reused/releases/Version.java:73-76 | `toString` of a parsed version gives back exactly the literal |
| `Versions.Read` | src/main/java/org/opendatakit/aggregate/cli/reused/releases/Version.java:49-51 | `read` parses the trimmed content: a version read keeps the trimmed text as its literal and is never legacy, and the content is refused as not semver exactly when its trimmed text does not match the pattern |
| `Versions.ReadIgnoresSurroundingBlanks` | src/main/java/org/opendatakit/aggregate/cli/reused/releases/Version.java:49-51 | white space around the version in the file changes nothing |
| `Versions.FromWithoutHyphen` | src/main/java/org/opendatakit/aggregate/cli/reused/releases/Version.java:40-45 | a hyphen-free literal whose groups fit parses to a final release without iteration |
| `Versions.BetaSuffixParses` | src/main/java/org/opendatakit/aggregate/cli/reused/releases/Version.java:40-45 | `x.y.z-beta.N` with an optional `-tail` parses to a pre-release with iteration N |
| `Versions.FromHyphenAfterLastDot` | src/main/java/org/opendatakit/aggregate/cli/reused/releases/Version.java:40-41 | a hyphen after the last dot makes `substring` throw, and that exception is not an IllegalArgumentException |
| `Versions.FromRejectsOtherQualifier` | src/main/java/org/opendatakit/aggregate/cli/reused/releases/Version.java:150-154 | any qualifier other than `beta`, ignoring case, is an unsupported type and an IllegalArgumentException |
| `Versions.FromRejectsHugeGroup` | src/main/java/org/opendatakit/aggregate/cli/reused/releases/Version.java:37 | a major group beyond int range is a NumberFormatException naming that group |
| `Versions.Equals` | src/main/java/org/opendatakit/aggregate/cli/reused/releases/Version.java:112-122 | `equals` holds exactly when the two versions agree on everything but the literal |
| `Versions.EqualsIgnoresLiteral` | src/main/java/org/opendatakit/aggregate/cli/reused/releases/Version.java:112-122 | two versions are equal exactly when they agree on everything but the literal |
| `Versions.HashCode` | src/main/java/org/opendatakit/aggregate/cli/reused/releases/Version.java:124-127 | `hashCode` is a 32-bit value |
| `Versions.EqualsHash` | src/main/java/org/opendatakit/aggregate/cli/reused/releases/Version.java:124-127 | equal versions have equal 32-bit hash codes |
| `Versions.DownloadUrl` | src/main/java/org/opendatakit/aggregate/cli/reused/releases/Version.java:133-139 | the URL is the fixed GitHub prefix, the literal, the fixed middle, the literal again, and `.war` |
| `Versions.DownloadUrlInjective` | src/main/java/org/opendatakit/aggregate/cli/reused/releases/Version.java:133-139 | two versions have the same download URL exactly when they have the same literal |
| `Versions.IntCompare` | src/main/java/org/opendatakit/aggregate/cli/reused/releases/Version.java:102 | `Integer.compare` is -1, 0 or 1 exactly for less, equal and greater |
| `Versions.CompareTo` | src/main/java/org/opendatakit/aggregate/cli/reused/releases/Version.java:78-110 | `compareTo` answers -1, 0 or 1; a legacy receiver is always less, and a non-legacy receiver is greater than any legacy version |
| `Versions.CompareLessIsKeyOrder` | src/main/java/org/opendatakit/aggregate/cli/reused/releases/Version.java:78-110 | for a non-legacy receiver, "less" holds exactly when the other is not legacy and is above it in the order of (major, minor, patch, final over beta, iteration) |
| `Versions.CompareGreaterIsKeyOrder` | src/main/java/org/opendatakit/aggregate/cli/reused/releases/Version.java:78-110 | "greater" holds exactly for a legacy other or a version below in that order, except a beta compared from a final release of the same triple |
| `Versions.CompareTriples` | src/main/java/org/opendatakit/aggregate/cli/reused/releases/Version.java:86-109 | with different major, minor or patch, the sign follows their lexicographic order |
| `Versions.CompareSameTriple` | src/main/java/org/opendatakit/aggregate/cli/reused/releases/Version.java:94-106 | with the same triple, a beta is below a final release, two betas compare by iteration, and a final receiver answers 0 |
| `Versions.CompareQuirks` | src/main/java/org/opendatakit/aggregate/cli/reused/releases/Version.java:80-106 | the comparator is not a total order: a legacy version is less than itself, and a final release answers 0 against a beta of the same triple that answers -1 back |
| `Versions.CompareAntisymmetric` | src/main/java/org/opendatakit/aggregate/cli/reused/releases/Version.java:78-110 | outside those two quirks, swapping the arguments negates the answer |
| `Versions.CompareLessTransitive` | src/main/java/org/opendatakit/aggregate/cli/reused/releases/Version.java:78-110 | "less" is transitive on all versions, legacy ones included |
| `Versions.CompareAsymmetric` | src/main/java/org/opendatakit/aggregate/cli/reused/releases/Version.java:78-110 | "less" is asymmetric unless both sides are legacy |
| `Versions.CompareIrreflexive` | src/main/java/org/opendatakit/aggregate/cli/reused/releases/Version.java:78-110 | no non-legacy version is less than itself |
| `Versions.CompareConnected` | src/main/java/org/opendatakit/aggregate/cli/reused/releases/Version.java:78-110 | any two non-legacy versions are equal or one is less than the other |
| `Versions.CompareZeroBothWays` | src/main/java/org/opendatakit/aggregate/cli/reused/releases/Version.java:78-122 | among non-legacy versions, `compareTo` answers 0 both ways exactly for equal versions |
| `Versions.NullVersionBelowParsed` | src/main/java/org/opendatakit/aggregate/cli/reused/releases/Version.java:141-145 | the legacy stand-in for a tag sits below every parsed version, from both sides |
| `Optionals.Race` | src/main/java/org/opendatakit/aggregate/cli/reused/Optionals.java:11-16 | `race` is empty exactly when every optional is, and otherwise returns an optional with none present before it |
| `Optionals.RaceIsFirstPresent` | src/main/java/org/opendatakit/aggregate/cli/reused/Optionals.java:11-16 | `race` returns the first present optional |
| `Optionals.RaceOfTwo` | src/main/java/org/opendatakit/aggregate/cli/operations/UpdateOperation.java:111 | with two arguments, the first wins when present, and the second is taken otherwise |
| `Optionals.RaceSuppliers` | src/main/java/org/opendatakit/aggregate/cli/reused/Optionals.java:25-31 | the supplier race gives what the value race would, and calls no supplier after the first present value |
| `Http.GetJsonList` | src/main/java/org/opendatakit/aggregate/cli/reused/http/Request.java:57-59 | a GET with no credentials and no headers whose mapper passes the parsed list through |
| `Http.Header` | src/main/java/org/opendatakit/aggregate/cli/reused/http/Request.java:90-95 | `header` appends one pair after the existing ones and changes nothing else |
| `Http.WithMapper` | src/main/java/org/opendatakit/aggregate/cli/reused/http/Request.java:86-88 | `withMapper` applies the new mapper to the old one's result, and a failure of the old one passes through unchanged |
| `Http.WithMapperComposes` | src/main/java/org/opendatakit/aggregate/cli/reused/http/Request.java:86-88 | mapping twice is mapping once with the composition |
| `Http.Resolve` | src/main/java/org/opendatakit/aggregate/cli/reused/http/Request.java:61-68 | `resolve` extends the URL, adding a slash only when the URL lacks one and dropping the path's leading slash |
| `Http.ResolveJoins` | src/main/java/org/opendatakit/aggregate/cli/reused/http/Request.java:61-68 | the resolved URL has exactly one slash between the base and the path |
| `Http.EqualHashAlike` | src/main/java/org/opendatakit/aggregate/cli/reused/http/Request.java:101-113 | requests equal by URL and credentials have the same hash code |
| `Http.HeaderKeepsEquality` | src/main/java/org/opendatakit/aggregate/cli/reused/http/Request.java:90-108 | adding a header gives an equal request |
| `Http.EqualIsEquivalence` | src/main/java/org/opendatakit/aggregate/cli/reused/http/Request.java:101-108 | `equals` is reflexive, symmetric and transitive, and ignores the verb and the headers |
| `Http.HashCode` | src/main/java/org/opendatakit/aggregate/cli/reused/http/Request.java:110-113 | `hashCode` is a 32-bit value |
| `Http.Execute` | src/main/java/org/opendatakit/aggregate/cli/reused/http/CommonsHttp.java:57-84 | a status of 300 or more is an unsuccessful response; below 300 the mapper decides success and value; an unreachable server throws an HttpException |
| `Releases.From` | src/main/java/org/opendatakit/aggregateupdater/reused/releases/Release.java:56-63 | a tag that fails with an IllegalArgumentException becomes a legacy stand-in carrying the tag; only a non-IllegalArgumentException failure escapes |
| `Releases.FallbackSortsBelow` | src/main/java/org/opendatakit/aggregateupdater/reused/releases/Release.java:59-63 | a release whose tag is not a version sorts below every release whose tag is one |
| `Releases.IsVersionIsOrderTie` | src/main/java/org/opendatakit/aggregateupdater/reused/releases/Release.java:93-121 | for non-legacy versions, `isVersion` holds exactly when `compareTo` answers 0 in both directions, and it does not look at the literal |
| `Releases.Decode` | src/main/java/org/opendatakit/aggregate/cli/reused/releases/ReleaseQueries.java:15-16 | decoding a list succeeds exactly when every element decodes, element by element in order |
| `Releases.Updateable` | src/main/java/org/opendatakit/aggregateupdater/reused/releases/Release.java:105-109 | the filter keeps every release of major 2 or more that is not legacy, as often as it occurs, and nothing else |
| `Releases.PreReleaseFilter` | src/main/java/org/opendatakit/aggregate/cli/reused/releases/ReleaseQueries.java:18 | the filter keeps pre-releases only on request, and every other release |
| `Releases.NotLegacy` | src/main/java/org/opendatakit/aggregateupdater/reused/releases/Release.java:97-99 | the filter keeps exactly the non-legacy releases |
| `Releases.BetaFilter` | src/main/java/org/opendatakit/aggregateupdater/operations/ListAvailableVersions.java:44 | the filter keeps betas only on request, and every other release |
| `Releases.NotLegacyBeforeUpdateable` | src/main/java/org/opendatakit/aggregate/cli/operations/ListAvailableVersions.java:53-54 | dropping legacy releases before the updateable filter changes nothing |
| `Releases.Sort` | src/main/java/org/opendatakit/aggregate/cli/reused/releases/ReleaseQueries.java:19 | the sort is a permutation of its input |
| `Releases.SortDescending` | src/main/java/org/opendatakit/aggregate/cli/reused/releases/ReleaseQueries.java:19 | with no legacy release, the sorted list is in reverse order: no element is less than a later one |
| `Releases.SortKeepsDescending` | src/main/java/org/opendatakit/aggregate/cli/reused/releases/ReleaseQueries.java:19 | sorting a list that is already in reverse order changes nothing, because the sort is stable |
| `Releases.TwoLegacySwap` | src/main/java/org/opendatakit/aggregate/cli/reused/releases/Version.java:80-82 | documents the comparator only: two legacy releases, each "less" than the other, come out swapped and not in reverse order. No query reaches this case, because the updateable filter drops legacy releases before the sort |
| `Releases.All` | src/main/java/org/opendatakit/aggregate/cli/reused/releases/ReleaseQueries.java:11-21 | `all` fails exactly when some element does not decode, and then with the decoding error; everything it lists passes the updateable and pre-release filters |
| `Releases.AllLegacy` | src/main/java/org/opendatakit/aggregateupdater/reused/releases/ReleaseQueries.java:11-20 | the updater's `all` fails exactly when some element does not decode; everything it lists is updateable |
| `Releases.AllContents` | src/main/java/org/opendatakit/aggregate/cli/reused/releases/ReleaseQueries.java:11-21 | `all` fails only when decoding does, lists each decoded release that passes both filters as often as it occurs, and is newest first |
| `Releases.AllFiltered` | src/main/java/org/opendatakit/aggregate/cli/reused/releases/ReleaseQueries.java:15-18 | everything `all` lists is updateable, and without the flag none of it is a pre-release |
| `Releases.AllLegacyIsAllWithPreReleases` | src/main/java/org/opendatakit/aggregateupdater/reused/releases/ReleaseQueries.java:11-20 | the updater's query maps bodies like the installer's query with pre-releases included |
| `Releases.First` | src/main/java/org/opendatakit/aggregate/cli/reused/releases/ReleaseQueries.java:24 | `get(0)` succeeds exactly on a non-empty list, with a member of it |
| `Releases.Latest` | src/main/java/org/opendatakit/aggregate/cli/reused/releases/ReleaseQueries.java:23-25 | `latest` keeps `all`'s failure, exists exactly when `all` lists something, and is then one of the listed releases; it fails only with `get(0)`'s error or a decoding error |
| `Releases.LatestIsGreatest` | src/main/java/org/opendatakit/aggregate/cli/reused/releases/ReleaseQueries.java:23-25 | `latest` exists exactly when `all` lists something, and no listed release is above it |
| `Releases.AllRequest` | src/main/java/org/opendatakit/aggregate/cli/reused/releases/ReleaseQueries.java:11-21 | the query is a GET to the getodk releases URL with the two headers in order, mapping bodies through `all` |
| `Releases.LatestRequest` | src/main/java/org/opendatakit/aggregate/cli/reused/releases/ReleaseQueries.java:23-25 | `latest` keeps `all`'s URL and headers and maps through `all` then `get(0)` |
| `Releases.AllLegacyRequest` | src/main/java/org/opendatakit/aggregateupdater/reused/releases/ReleaseQueries.java:11-20 | the updater's query goes to the opendatakit releases URL with the same headers |
| `Releases.LatestLegacyRequest` | src/main/java/org/opendatakit/aggregateupdater/reused/releases/ReleaseQueries.java:22-24 | the updater's `latest` maps through its `all` then `get(0)` |
| `Releases.Max` | src/main/java/org/opendatakit/aggregate/cli/operations/UpdateOperation.java:98-100 | `max` is empty exactly for an empty list, and otherwise one of its members |
| `Releases.MaxIsGreatest` | src/main/java/org/opendatakit/aggregate/cli/operations/UpdateOperation.java:98-100 | among non-legacy versions, `max` exists exactly for a non-empty list, is one of its members, and is below none |
| `Releases.MaxOfAllIsLatest` | src/main/java/org/opendatakit/aggregate/cli/operations/UpdateOperation.java:97-100 | the greatest version of `all`'s list is the version `latest` returns |
| `Configuration.GetText` | src/main/java/org/opendatakit/aggregate/cli/operations/EnvironmentConfiguration.java:143 | a text field succeeds exactly when it is present and a string; a missing field is "Missing values", a wrong type is a cast error |
| `Configuration.GetInt` | src/main/java/org/opendatakit/aggregate/cli/operations/EnvironmentConfiguration.java:144 | an int field succeeds exactly when it is present and a 32-bit number |
| `Configuration.GetFlag` | src/main/java/org/opendatakit/aggregate/cli/operations/EnvironmentConfiguration.java:177 | a boolean field succeeds exactly when it is present and a boolean |
| `Configuration.JdbcFrom` | src/main/java/org/opendatakit/aggregate/cli/operations/EnvironmentConfiguration.java:141-150 | a JDBC section read holds exactly the stored value of each of its six keys, with a 32-bit port; a failed read is "Missing values" or a cast error |
| `Configuration.SecurityFrom` | src/main/java/org/opendatakit/aggregate/cli/operations/EnvironmentConfiguration.java:175-181 | a security section read holds exactly the stored flag and ports, with 32-bit ports; a failed read is "Missing values" or a cast error |
| `Configuration.TomcatFrom` | src/main/java/org/opendatakit/aggregate/cli/operations/EnvironmentConfiguration.java:203-209 | a Tomcat section read holds the stored uid and gid and the normal path of the stored webapps text; a failed read is "Missing values", a cast error or an invalid path |
| `Configuration.JdbcFromFollowsTable` | src/main/java/org/opendatakit/aggregate/cli/operations/EnvironmentConfiguration.java:141-150 | the JDBC section fails exactly when one of its six fields is missing or mistyped, with the first such field's error |
| `Configuration.SecurityFromFollowsTable` | src/main/java/org/opendatakit/aggregate/cli/operations/EnvironmentConfiguration.java:175-181 | the security section fails exactly when one of its three fields is missing or mistyped, with the first such field's error |
| `Configuration.JdbcFromReadsFields` | src/main/java/org/opendatakit/aggregate/cli/operations/EnvironmentConfiguration.java:141-150 | a successful read keeps exactly the stored values of the six keys |
| `Configuration.From` | src/main/java/org/opendatakit/aggregate/cli/operations/EnvironmentConfiguration.java:58-74 | a missing file and an unparseable one give their own messages; a successful read has normal paths and 32-bit ports |
| `Configuration.MissingHome` | src/main/java/org/opendatakit/aggregate/cli/operations/EnvironmentConfiguration.java:62-68 | a document without `home` is "Missing values", whatever else it holds |
| `Configuration.MissingJdbcField` | src/main/java/org/opendatakit/aggregate/cli/operations/EnvironmentConfiguration.java:63-68 | with a usable home, a missing JDBC section or field is "Missing values" |
| `Configuration.JdbcRoundTrip` | src/main/java/org/opendatakit/aggregate/cli/operations/EnvironmentConfiguration.java:141-150 | reading the JSON form of a JDBC configuration gives it back |
| `Configuration.SecurityRoundTrip` | src/main/java/org/opendatakit/aggregate/cli/operations/EnvironmentConfiguration.java:175-181 | reading the JSON form of a security configuration gives it back |
| `Configuration.TomcatRoundTrip` | src/main/java/org/opendatakit/aggregate/cli/operations/EnvironmentConfiguration.java:203-209 | reading the JSON form of a Tomcat configuration with a normal path gives it back |
| `Configuration.ToJson` | src/main/java/org/opendatakit/aggregate/cli/operations/EnvironmentConfiguration.java:58-66 | the JSON form of a configuration has exactly the four keys the reader looks up, the home as text, and an object for each section |
| `Configuration.FromToJson` | src/main/java/org/opendatakit/aggregate/cli/operations/EnvironmentConfiguration.java:58-66 | reading a written configuration gives it back |
| `Configuration.HomePaths` | src/main/java/org/opendatakit/aggregate/cli/operations/EnvironmentConfiguration.java:76-86 | the backup directory and the version file are direct children of the home, named `backup` and `aggregate.version` |
| `Configuration.RootWebappPath` | src/main/java/org/opendatakit/aggregate/cli/operations/EnvironmentConfiguration.java:88-90 | the ROOT webapp path is normal and is neither empty nor the file-system root |
| `Configuration.RootWebappPlacement` | src/main/java/org/opendatakit/aggregate/cli/operations/EnvironmentConfiguration.java:88-90 | ROOT is a direct child of the webapps directory |
| `Configuration.PropertyFilePlacement` | src/main/java/org/opendatakit/aggregate/cli/operations/EnvironmentConfiguration.java:92-98 | both property files sit under ROOT's `WEB-INF/classes` |
| `Configuration.Stamp` | src/main/java/org/opendatakit/aggregate/cli/operations/EnvironmentConfiguration.java:40-48 | `yyyyMMdd-HHmmss` is 15 characters with the dash at position 8, for a year of at most four digits |
| `Configuration.StampRoundTrip` | src/main/java/org/opendatakit/aggregate/cli/operations/EnvironmentConfiguration.java:40-48 | every date-time field can be read back from the stamp |
| `Configuration.BackupFilePath` | src/main/java/org/opendatakit/aggregate/cli/operations/EnvironmentConfiguration.java:80-82 | the backup file name exists exactly when the year fits the formatter |
| `Configuration.BackupFileInBackupDir` | src/main/java/org/opendatakit/aggregate/cli/operations/EnvironmentConfiguration.java:80-82 | the backup file is `aggregate-<stamp>.zip`, directly inside the backup directory |
| `Configuration.JdbcAsMapFaithful` | src/main/java/org/opendatakit/aggregate/cli/operations/EnvironmentConfiguration.java:152-161 | the template map has exactly the six keys and gives every stored value back |
| `Configuration.SecurityAsMapFaithful` | src/main/java/org/opendatakit/aggregate/cli/operations/EnvironmentConfiguration.java:183-189 | the template map renders the flag as the text `true` or `false`, and keeps both ports |
| `Console.PrintLines` | src/main/java/org/opendatakit/cli/Console.java:42-44 | printing lines appends exactly those lines to the output and changes nothing else |
| `Console.PrintErrors` | src/main/java/org/opendatakit/cli/Console.java:50-52 | error lines are appended to the error stream in order |
| `Console.ExitWith` | src/main/java/org/opendatakit/cli/Console.java:58-61 | `exit(status)` prints the support line, then ends with that status |
| `Console.SetVerboseMode` | src/main/java/org/opendatakit/cli/Console.java:112-118 | switching verbose mode on announces it with a blank line after; switching it off prints nothing |
| `Console.SetAlwaysYesMode` | src/main/java/org/opendatakit/cli/Console.java:120-126 | always-yes is announced only when switched on in verbose mode |
| `Console.Execute` | src/main/java/org/opendatakit/cli/Console.java:79-94 | a command is echoed in verbose mode and then run; it throws exactly when it exits non-zero without ignore-errors |
| `Console.Confirm` | src/main/java/org/opendatakit/cli/Console.java:128-140 | always-yes answers yes without reading; otherwise running out of input throws, and no command runs |
| `Console.ConfirmFollowsInput` | src/main/java/org/opendatakit/cli/Console.java:128-140 | without always-yes, the first line that is empty, yes or no, ignoring case, decides, and "no" alone declines; each earlier line costs a prompt and an error |
| `Console.ConfirmNo` | src/main/java/org/opendatakit/cli/Console.java:134-139 | a first answer of "no" declines |
| `Console.Watch` | src/main/java/org/opendatakit/cli/Console.java:182-192 | a process watcher hands a consumer every line in verbose mode, and none otherwise |
| `Console.RequireSuperuserAsWritten` | src/main/java/org/opendatakit/cli/Console.java:153-163 | the check as written prints nothing and runs no command, whether it passes or throws |
| `Console.SuperuserAsWrittenRefusesRoot` | src/main/java/org/opendatakit/cli/Console.java:153-163 | the check as written refuses every caller, root included, whatever `whoami` printed |
| `Console.RequireSuperuser` | src/main/java/org/opendatakit/cli/Console.java:153-163 | the intended check passes exactly when whoami printed `root`, and otherwise throws the superuser message |
| `Console.RequireSuperuserAcceptsRoot` | src/main/java/org/opendatakit/cli/Console.java:153-163 | for every `whoami` output: when its lines join to `root` the intended check passes while the check as written throws; otherwise the two agree |
| `Console.RootHoweverSplit` | src/main/java/org/opendatakit/cli/Console.java:153-163 | examples: `root` passes whether printed on one line, split over two, or followed by an empty line; `admin` is refused |
| `Console.Perform` | src/main/java/org/opendatakit/cli/Console.java:79-94 | carrying out a plan only ever runs more commands, and stops only by an exception |
| `Console.Block` | src/main/java/org/opendatakit/cli/Console.java:142-147 | a block is the heading `- name`, the body, then `  done` and a blank line |
| `Console.BlockFraming` | src/main/java/org/opendatakit/cli/Console.java:142-147 | a block returns exactly when its body does, and only then prints the closing lines |
| `Console.BlockLikeBody` | src/main/java/org/opendatakit/cli/Console.java:142-147 | a block has its body's commands, files and outcome |
| `Console.PerformAppend` | src/main/java/org/opendatakit/cli/Console.java:79-94 | performing two plans in a row is performing the first and, if it returns, the second |
| `Console.PerformReturnsIff` | src/main/java/org/opendatakit/cli/Console.java:92-93 | a plan returns exactly when every mandatory command in it exits 0, and then it has run all its commands |
| `Console.PerformHaltsByPlan` | src/main/java/org/opendatakit/cli/Console.java:92-93 | a plan halts only by one of its own mandatory commands failing, or by one of its own aborts |
| `Console.BestEffortReturns` | src/main/java/org/opendatakit/cli/Console.java:92-93 | a plan whose commands all ignore errors always returns, after running all of them |
| `Console.CannotStopSucceeds` | src/main/java/org/opendatakit/cli/Console.java:92 | such a plan succeeds whatever the exit codes |
| `Console.PerformWrites` | src/main/java/org/opendatakit/aggregate/cli/reused/fs/UncheckedFiles.java:18-24 | a plan writes its files in order and writes nothing after it stops |
| `Console.CommandedShape` | src/main/java/org/opendatakit/cli/Console.java:79-94 | commands run one after the other with one flag succeed exactly when none fails, or always when errors are ignored |
| `Environment.SettingFor` | src/main/java/org/opendatakit/aggregate/cli/operations/EnvironmentConfiguration.java:104-110 | the property files are rendered from the configuration's own template maps |
| `Environment.ReadConfig` | src/main/java/org/opendatakit/aggregate/cli/operations/InstallOperation.java:57 | the configuration argument gives the configuration, or throws its configuration error |
| `Environment.Fetch` | src/main/java/org/opendatakit/aggregate/cli/reused/http/CommonsHttp.java:41-55 | `http.execute` gives the response, or throws the mapper's or the connection's exception |
| `Install.WarPath` | src/main/java/org/opendatakit/aggregate/cli/operations/Install.java:50-51 | the WAR is `aggregate.war` directly inside the temporary directory |
| `Install.FrontShape` | src/main/java/org/opendatakit/aggregate/cli/operations/Install.java:13-15 | stopping, cleaning and deploying write no file and run their commands in order, and an unavailable temporary directory stops them after the clean |
| `Install.BackShape` | src/main/java/org/opendatakit/aggregate/cli/operations/Install.java:16-21 | the last three blocks write the two property files and the version file, and cannot stop |
| `Install.Install` | src/main/java/org/opendatakit/aggregate/cli/operations/Install.java:12-22 | an installation returns exactly when every mandatory command of its plan exits 0; it reads no input, only ever runs more commands, and can stop only by an exception |
| `Install.InstallCommands` | src/main/java/org/opendatakit/aggregate/cli/operations/Install.java:12-55 | the seven commands in order, with stop, chown and start ignoring errors and the others not; without a temporary directory only stop, clean, chown and start remain |
| `Install.InstallWrites` | src/main/java/org/opendatakit/aggregate/cli/operations/Install.java:28-39 | the files written in order: the JDBC properties, the security properties, then the version file holding the literal |
| `Install.FrontSucceeds` | src/main/java/org/opendatakit/aggregate/cli/operations/Install.java:41-55 | the first three blocks succeed exactly when the clean and the three deploy commands exit 0 and the temporary directory exists |
| `Install.FrontOutcome` | src/main/java/org/opendatakit/aggregate/cli/operations/Install.java:13-15 | the first three blocks return exactly when those commands exit 0, having run five commands and written nothing |
| `Install.BackOutcome` | src/main/java/org/opendatakit/aggregate/cli/operations/Install.java:16-21 | the last three blocks always return, after two commands and the three files |
| `Install.InstallSplits` | src/main/java/org/opendatakit/aggregate/cli/operations/Install.java:12-22 | an installation is the first three blocks and, if they return, the last three |
| `Install.InstallReturnsIff` | src/main/java/org/opendatakit/aggregate/cli/operations/Install.java:12-22 | an installation returns exactly when the clean and the deployment succeed, and then has run seven commands and written three files; one that stops has written nothing |
| `Install.PlansPuts` | src/main/java/org/opendatakit/aggregate/cli/operations/Install.java:16-20 | every file of the installation is written after the deployment |
| `Install.CleanFailureStops` | src/main/java/org/opendatakit/aggregate/cli/operations/Install.java:45-47 | a failed clean of ROOT throws naming the clean command, after only the stop and the clean |
| `InstallOperation.AlreadyInstalled` | src/main/java/org/opendatakit/aggregate/cli/operations/InstallOperation.java:59-62 | the refusal names the installed version, or is the parse error when the file holds no version |
| `InstallOperation.Prepare` | src/main/java/org/opendatakit/aggregate/cli/operations/InstallOperation.java:50-78 | with the intended superuser check: going on requires root, a readable configuration, no version file unless forced, and no custom URL without a version; no command runs; declining exits 0 |
| `InstallOperation.Configured` | src/main/java/org/opendatakit/aggregate/cli/operations/InstallOperation.java:57-78 | after the superuser check: the run goes on exactly when the configuration reads, there is no version file or force is given, a custom URL comes with a version, and the question is answered yes; declining exits 0 and cannot happen with always-yes; no command runs |
| `InstallOperation.UsableUrl` | src/main/java/org/opendatakit/aggregate/cli/operations/InstallOperation.java:92 | a custom URL counts exactly when it is not blank after trimming |
| `InstallOperation.LatestVersionRequest` | src/main/java/org/opendatakit/aggregate/cli/operations/InstallOperation.java:97-98 | the query maps bodies to the version of `latest` and keeps its failures |
| `InstallOperation.FromCatalog` | src/main/java/org/opendatakit/aggregate/cli/operations/InstallOperation.java:97-103 | an unsuccessful answer is "No available versions found"; a successful one gives the newest version with its GitHub URL, or the mapper's error |
| `InstallOperation.ResolveSelected` | src/main/java/org/opendatakit/aggregate/cli/operations/InstallOperation.java:91-104 | a custom version with a usable URL wins whatever the catalog holds; otherwise the catalog decides |
| `InstallOperation.Finish` | src/main/java/org/opendatakit/aggregate/cli/operations/InstallOperation.java:83-88 | the run exits 0 exactly when the installation returns, and otherwise ends with its exception |
| `InstallOperation.Run` | src/main/java/org/opendatakit/aggregate/cli/operations/InstallOperation.java:50-89 | with the intended superuser check: a run that stops while preparing ends there; otherwise a selection error ends it with that error, and a selection is installed by `Finish` |
| `InstallOperation.AfterCheck` | src/main/java/org/opendatakit/aggregate/cli/operations/InstallOperation.java:54-89 | a refusal by the superuser check ends the run where the check left it; a pass goes on with the rest of the run |
| `InstallOperation.RunAsWrittenRefusesEveryone` | src/main/java/org/opendatakit/aggregate/cli/operations/InstallOperation.java:50-54 | as the code stands, every `-i` run ends at the superuser check with "Superuser privileges required", having printed nothing after the modes, run no command and read no answer |
| `InstallOperation.RunAsWrittenIgnoresWhoami` | src/main/java/org/opendatakit/aggregate/cli/operations/InstallOperation.java:50-54 | as the code stands, a run is the intended run for a `whoami` that printed nothing, whatever it printed |
| `InstallOperation.NonRootRefused` | src/main/java/org/opendatakit/aggregate/cli/operations/InstallOperation.java:54 | with the intended superuser check, a non-root caller is refused before any command |
| `InstallOperation.AlreadyInstalledRefused` | src/main/java/org/opendatakit/aggregate/cli/operations/InstallOperation.java:59-62 | an existing version file without force is refused before any command |
| `InstallOperation.CustomUrlNeedsVersion` | src/main/java/org/opendatakit/aggregate/cli/operations/InstallOperation.java:64-68 | a custom URL without a custom version is refused before the question |
| `InstallOperation.StopsBeforeCatalog` | src/main/java/org/opendatakit/aggregate/cli/operations/InstallOperation.java:50-81 | a run that stops at or before the question has run no command and does not depend on the catalog |
| `InstallOperation.DeclineExitsZero` | src/main/java/org/opendatakit/aggregate/cli/operations/InstallOperation.java:77-78 | declining is the only exit before the installation, with status 0, and cannot happen with always-yes |
| `InstallOperation.RunInstallsSelected` | src/main/java/org/opendatakit/aggregate/cli/operations/InstallOperation.java:81-88 | once confirmed, the installation receives the resolved version and URL |
| `InstallOperation.CatalogChoiceIsNewest` | src/main/java/org/opendatakit/aggregate/cli/operations/InstallOperation.java:97-103 | a version taken from the catalog is below no listed release |
| `UpdateOperation.SelectVersion` | src/main/java/org/opendatakit/aggregate/cli/operations/UpdateOperation.java:95-116 | a requested version is chosen exactly when listed, and otherwise the error names it and the list; without one, the greatest listed version is chosen, and an empty list is an error |
| `UpdateOperation.ResolveSelected` | src/main/java/org/opendatakit/aggregate/cli/operations/UpdateOperation.java:95-116 | a thrown query error escapes, and otherwise the selection works on the list, empty for an unsuccessful answer |
| `UpdateOperation.InstalledVersion` | src/main/java/org/opendatakit/aggregate/cli/operations/UpdateOperation.java:56 | the installed version is the version file parsed, or its parse error |
| `UpdateOperation.Versioning` | src/main/java/org/opendatakit/aggregate/cli/operations/UpdateOperation.java:52-62 | checks in order: no version file, an unreadable one, the selection, then an up-to-date installation without force |
| `UpdateOperation.Ask` | src/main/java/org/opendatakit/aggregate/cli/operations/UpdateOperation.java:64-77 | the notice and question run no command, and always-yes goes on |
| `UpdateOperation.Checked` | src/main/java/org/opendatakit/aggregate/cli/operations/UpdateOperation.java:43-62 | with the intended superuser check, a non-root caller and a bad configuration are refused before anything else, with their own errors |
| `UpdateOperation.Verified` | src/main/java/org/opendatakit/aggregate/cli/operations/UpdateOperation.java:50-62 | after the superuser check: a bad configuration and the version checks are refused in that order, with their own errors, and nothing is printed or run |
| `UpdateOperation.Confirmed` | src/main/java/org/opendatakit/aggregate/cli/operations/UpdateOperation.java:50-77 | after the superuser check: the checks, then the question; going on requires a yes; declining exits 0 and cannot happen with always-yes; no command runs |
| `UpdateOperation.Prepare` | src/main/java/org/opendatakit/aggregate/cli/operations/UpdateOperation.java:43-77 | with the intended superuser check: going on requires the checks and a yes; no command runs; declining exits 0 |
| `UpdateOperation.Finish` | src/main/java/org/opendatakit/aggregate/cli/operations/UpdateOperation.java:79-92 | the run exits 0 exactly when the backup and the installation return |
| `UpdateOperation.Run` | src/main/java/org/opendatakit/aggregate/cli/operations/UpdateOperation.java:43-93 | with the intended superuser check: a run that stops while preparing ends there; otherwise it backs up and installs the selected version |
| `UpdateOperation.AfterCheck` | src/main/java/org/opendatakit/aggregate/cli/operations/UpdateOperation.java:47-93 | a refusal by the superuser check ends the run where the check left it; a pass goes on with the rest of the run |
| `UpdateOperation.RunAsWrittenRefusesEveryone` | src/main/java/org/opendatakit/aggregate/cli/operations/UpdateOperation.java:43-47 | as the code stands, every `-u` run ends at the superuser check with "Superuser privileges required", having printed nothing after the modes, run no command and read no answer |
| `UpdateOperation.RunAsWrittenIgnoresWhoami` | src/main/java/org/opendatakit/aggregate/cli/operations/UpdateOperation.java:43-47 | as the code stands, a run is the intended run for a `whoami` that printed nothing, whatever it printed |
| `UpdateOperation.NonRootRefused` | src/main/java/org/opendatakit/aggregate/cli/operations/UpdateOperation.java:47 | with the intended superuser check, a non-root caller is refused before any command |
| `UpdateOperation.NotInstalledRefused` | src/main/java/org/opendatakit/aggregate/cli/operations/UpdateOperation.java:52-53 | without a version file the update is refused before any command |
| `UpdateOperation.UnreadableVersionRefused` | src/main/java/org/opendatakit/aggregate/cli/operations/UpdateOperation.java:56 | a version file that holds no version ends the run with the parse error, before any command |
| `UpdateOperation.UpToDateRefused` | src/main/java/org/opendatakit/aggregate/cli/operations/UpdateOperation.java:58-62 | selecting the installed version again without force is refused, naming it |
| `UpdateOperation.DeclineExitsZero` | src/main/java/org/opendatakit/aggregate/cli/operations/UpdateOperation.java:76-77 | declining exits 0 with no command run, and cannot happen with always-yes |
| `UpdateOperation.BackupCommands` | src/main/java/org/opendatakit/aggregate/cli/operations/UpdateOperation.java:80-87 | the backup's `mkdir` ignores errors and its zip of ROOT does not, and both come before anything else |
| `UpdateOperation.BackupBody` | src/main/java/org/opendatakit/aggregate/cli/operations/UpdateOperation.java:80-87 | the backup runs exactly two steps and writes no file: `mkdir` ignoring errors, then the zip of ROOT, which does not ignore errors; when the date cannot be formatted, the zip step is that exception instead |
| `UpdateOperation.Plan` | src/main/java/org/opendatakit/aggregate/cli/operations/UpdateOperation.java:79-90 | the update's commands are the backup's followed by the installation's, and its files are the installation's |
| `UpdateOperation.BackupBeforeInstall` | src/main/java/org/opendatakit/aggregate/cli/operations/UpdateOperation.java:79-90 | the update runs the two backup commands and then the installation's commands |
| `UpdateOperation.BackupBodyZipFails` | src/main/java/org/opendatakit/aggregate/cli/operations/UpdateOperation.java:82-86 | a failing zip throws after two commands |
| `UpdateOperation.ZipFailureStopsPlan` | src/main/java/org/opendatakit/aggregate/cli/operations/UpdateOperation.java:80-87 | a failing zip ends any plan that starts with the backup |
| `UpdateOperation.ZipFailureStops` | src/main/java/org/opendatakit/aggregate/cli/operations/UpdateOperation.java:79-90 | a failing zip ends the update before Tomcat is stopped |
| `UpdateOperation.SelectedIsNewest` | src/main/java/org/opendatakit/aggregate/cli/operations/UpdateOperation.java:97-100 | with nothing requested, the selection is the version of a listed release and below none |
| `UpdateOperation.RequestedWins` | src/main/java/org/opendatakit/aggregate/cli/operations/UpdateOperation.java:102-111 | a listed requested version is chosen over the latest |
| `ListVersions.Rows` | src/main/java/org/opendatakit/aggregate/cli/operations/ListAvailableVersions.java:56 | one row per release: the version as written and the formatted publication date |
| `ListVersions.Announced` | src/main/java/org/opendatakit/aggregate/cli/operations/ListAvailableVersions.java:36-40 | the modes are set, then the heading and a blank line are the last lines printed |
| `ListVersions.Run` | src/main/java/org/opendatakit/aggregate/cli/operations/ListAvailableVersions.java:35-58 | a thrown query error escapes after the heading; an empty list prints the hint and exits 0; any other list becomes the table |
| `ListVersions.LegacyRun` | src/main/java/org/opendatakit/aggregateupdater/operations/ListAvailableVersions.java:32-48 | the catalog comes first; an empty list prints the hint and exits 0; any other list prints the heading and the table |
| `ListVersions.ShownContents` | src/main/java/org/opendatakit/aggregate/cli/operations/ListAvailableVersions.java:52-55 | the table holds every updateable release as often as the list does, nothing else, newest first |
| `ListVersions.LegacyShownContents` | src/main/java/org/opendatakit/aggregateupdater/operations/ListAvailableVersions.java:41-45 | the updater's table holds the updateable releases, betas only on request, newest first |
| `ListVersions.UpdateableKeepsAll` | src/main/java/org/opendatakit/aggregate/cli/operations/ListAvailableVersions.java:54 | a list of updateable releases passes the filter unchanged |
| `ListVersions.ShownIsCatalogOrder` | src/main/java/org/opendatakit/aggregate/cli/operations/ListAvailableVersions.java:52-55 | the table's filters and sort undo nothing the query did |
| `ListVersions.RunShowsCatalog` | src/main/java/org/opendatakit/aggregate/cli/operations/ListAvailableVersions.java:39-57 | the heading, a blank line, then one row per release of the catalog's answer, in order |
| `ListVersions.LegacyBetasOnlyEmptyTable` | src/main/java/org/opendatakit/aggregateupdater/operations/ListAvailableVersions.java:35-47 | a catalog of betas only, without the flag, gives the heading and an empty table instead of the hint |
| `LegacyUpdate.Home` | src/main/java/org/opendatakit/aggregateupdater/update/UpdateOperation.java:39 | the home is an absolute path in normal form |
| `LegacyUpdate.BackupUnderHome` | src/main/java/org/opendatakit/aggregateupdater/update/UpdateOperation.java:41-43 | the backups go to `aggregate-backup/conf` and `aggregate-backup/webapp` under the home |
| `LegacyUpdate.ScriptFor` | src/main/java/org/opendatakit/aggregateupdater/update/UpdateOperation.java:110-160 | the stages run 1, 5, 10, 2 and 2 commands; the zip names the date; the download is the version's GitHub URL; the version file gets the literal |
| `LegacyUpdate.Installed` | src/main/java/org/opendatakit/aggregateupdater/update/UpdateOperation.java:69 | a missing version file throws, and otherwise its trimmed content is parsed |
| `LegacyUpdate.UnavailableLines` | src/main/java/org/opendatakit/aggregateupdater/update/UpdateOperation.java:79-81 | the error names the requested version, then lists every available one, in order |
| `LegacyUpdate.Choose` | src/main/java/org/opendatakit/aggregateupdater/update/UpdateOperation.java:77-108 | an unlisted request exits 1 with the list; nothing selectable exits 1; a missing latest version throws; the update goes on exactly when forced or the selection differs from the installed version |
| `LegacyUpdate.Titled` | src/main/java/org/opendatakit/aggregateupdater/update/UpdateOperation.java:62-67 | the modes are set and the title printed, with no command |
| `LegacyUpdate.Selected` | src/main/java/org/opendatakit/aggregateupdater/update/UpdateOperation.java:61-75 | an unreadable version file and a thrown query error end the run after the title; otherwise the choice works on the list, empty for an unsuccessful answer |
| `LegacyUpdate.Finish` | src/main/java/org/opendatakit/aggregateupdater/update/UpdateOperation.java:110-173 | a failing script ends with its exception; otherwise Tomcat starts only on a yes, and the run exits 0 unless that start fails |
| `LegacyUpdate.Run` | src/main/java/org/opendatakit/aggregateupdater/update/UpdateOperation.java:61-174 | a run stopped during selection ends there; otherwise it runs the script for the selected version |
| `LegacyUpdate.MandatoryShape` | src/main/java/org/opendatakit/aggregateupdater/update/UpdateOperation.java:110-146 | stopping, backing up and deploying run their commands in order, all mandatory, write no file, and succeed exactly when each exits 0 |
| `LegacyUpdate.Mandatory` | src/main/java/org/opendatakit/aggregateupdater/update/UpdateOperation.java:110-146 | every step of the stopping, backup and deploy stages is a printed line or a command that does not ignore errors |
| `LegacyUpdate.BestEffort` | src/main/java/org/opendatakit/aggregateupdater/update/UpdateOperation.java:148-163 | nothing in the cleanup and diff stages can stop the update, and the version file with the selected literal is written just before the last blank line |
| `LegacyUpdate.Plan` | src/main/java/org/opendatakit/aggregateupdater/update/UpdateOperation.java:110-163 | every command that can stop the update comes before every file written, and the version file with the selected literal is written |
| `LegacyUpdate.BestEffortShape` | src/main/java/org/opendatakit/aggregateupdater/update/UpdateOperation.java:148-163 | the cleanup and the diffs ignore errors and cannot stop the update, which then writes the version file |
| `LegacyUpdate.PlanCommands` | src/main/java/org/opendatakit/aggregateupdater/update/UpdateOperation.java:110-163 | the script's commands in order: the mandatory ones, then the best-effort ones; its one file is the version file |
| `LegacyUpdate.PlanSucceeds` | src/main/java/org/opendatakit/aggregateupdater/update/UpdateOperation.java:110-163 | the script completes exactly when every stop, backup and deploy command exits 0 |
| `LegacyUpdate.FailedUpdateKeepsVersionFile` | src/main/java/org/opendatakit/aggregateupdater/update/UpdateOperation.java:110-163 | a failing mandatory command stops the script before the version file is written |
| `LegacyUpdate.CompletedUpdateWritesVersion` | src/main/java/org/opendatakit/aggregateupdater/update/UpdateOperation.java:148-163 | a completed script has run every command and written the selected version to the version file |
| `LegacyUpdate.ScriptCounts` | src/main/java/org/opendatakit/aggregateupdater/update/UpdateOperation.java:110-160 | 16 commands can stop the update and 4 cannot; the ninth downloads the selected version |
| `LegacyUpdate.StartOutcome` | src/main/java/org/opendatakit/aggregateupdater/update/UpdateOperation.java:165-171 | starting Tomcat runs one mandatory command and returns exactly when it exits 0 |
| `LegacyUpdate.MissingVersionFileThrows` | src/main/java/org/opendatakit/aggregateupdater/update/UpdateOperation.java:184-190 | without the version file the run throws before any command |
| `LegacyUpdate.UnknownRequestedExitsOne` | src/main/java/org/opendatakit/aggregateupdater/update/UpdateOperation.java:77-84 | an unlisted requested version exits 1 with no command run, after listing every available version |
| `LegacyUpdate.NothingSelectableExitsOne` | src/main/java/org/opendatakit/aggregateupdater/update/UpdateOperation.java:86-90 | with nothing requested and nothing selectable, the run exits 1 with no command, after its error line |
| `LegacyUpdate.OnlyBetasNoLatest` | src/main/java/org/opendatakit/aggregateupdater/update/UpdateOperation.java:72-75 | a list of betas only, without the flag, has no latest version |
| `LegacyUpdate.MissingLatestThrows` | src/main/java/org/opendatakit/aggregateupdater/update/UpdateOperation.java:94-96 | a listed requested version with no latest version throws while printing the report |
| `LegacyUpdate.UpToDateExitsZero` | src/main/java/org/opendatakit/aggregateupdater/update/UpdateOperation.java:100-103 | selecting the installed version again without force prints "No action needed" and exits 0 before any command |
| `LegacyUpdate.UpdateRunsScript` | src/main/java/org/opendatakit/aggregateupdater/update/UpdateOperation.java:110-173 | a run that exits 0 after selecting finished its script cleanly: all 16 mandatory commands exited 0, and the script returned having written the selected version's literal to the version file and no other file |
| `LegacyUpdate.DeclineLeavesTomcatStopped` | src/main/java/org/opendatakit/aggregateupdater/update/UpdateOperation.java:165-173 | declining to start Tomcat exits 0 with no further command |
| `LegacyUpdate.BetaFilterMembers` | src/main/java/org/opendatakit/aggregateupdater/update/UpdateOperation.java:73 | the beta filter keeps exactly the releases that pass it |
| `LegacyUpdate.MaxOfKept` | src/main/java/org/opendatakit/aggregateupdater/update/UpdateOperation.java:74-75 | the greatest version of updateable releases is one of them and below none |
| `LegacyUpdate.LatestIsGreatest` | src/main/java/org/opendatakit/aggregateupdater/update/UpdateOperation.java:71-75 | the latest version is that of a listed release passing the beta filter, and below none of them |

## Left out

- Process spawning and the exit status of a command are parameters. The state reads them from an exit-code function indexed by the number of commands run. The output of a running command is left out, and so is its forwarding in verbose mode (`ProcessWatcher`), except for the `whoami` collection in `requireSuperuser`.
- The network client, Jackson and JSON parsing of the catalog are out of scope. The catalog's answer is a parameter: a status and a list of raw releases, a refused connection, or a timeout. Only the tag, the pre-release flag and the publication date of a release are kept.
- The JSON configuration file is a parsed tree given as input. Unreadable files and missing files are two separate inputs. Floating-point JSON numbers are left out.
- Argument parsing (`Cli`, `Param`, `Args`) is out of scope. Parsed arguments are inputs, and `getShortCodeSyntax` is taken to print `-` followed by the short code.
- A `-cv` or `-rv` value that `Version.from` rejects is not modelled. The argument's mapper runs when the argument is read, so such a value throws an uncaught exception: at `InstallOperation.java:64` before the question when `-cu` is given, otherwise at `InstallOperation.java:93`; at `UpdateOperation.java:96` in the installer; at `aggregateupdater/update/UpdateOperation.java:70` in the older updater. The model's requested and custom versions are already parsed, so they cannot hold such a value.
- Pebble template rendering, the locale's long date format and the ISO local date are functions or strings given as parameters. The ASCII table rendering of `Console.table` is left out; the trace records the headers and rows.
- `Releases.Sort`: Java's `sorted(reverseOrder())` is modelled as a stable insertion sort that asks the same question as TimSort, whether the reversed comparator answers below 0. The comparator is not a total order on what the queries sort: a final release and a beta of the same triple answer 0 one way and -1 the other (`Versions.CompareQuirks`). On the non-legacy versions left after the updateable filter, "answers below 0" is a strict weak order (`Versions.CompareLessIsKeyOrder`). Below 32 elements TimSort finds runs and does a binary insertion sort, and both ask only that question; for a strict weak order they give the same stable result as the model. At 32 elements or more, TimSort merges runs, and `gallopLeft` asks whether the answer is above 0, where the 0/-1 asymmetry can matter. The model makes no claim about the order TimSort gives there.
- The older updater's dry-run mode is left out, because its `Console` (with `setDryRunMode`) is not part of this model.
- The older updater's `Console` is not part of this model; it is taken to behave as the installer's `Console`.
- The `Release` modelled is the updater's copy (`aggregateupdater/reused/releases/Release.java`). The installer's own `Release` is not part of this model; it is taken to behave the same.
- `Releases.PreReleaseFilter` takes the installer's `isPreRelease` of a release to be GitHub's `prerelease` flag of that release. The installer's `Release`, which defines it, is not part of this model.
- The updater's `Version` (the one `Release.java` uses, with `isBeta`) is not part of this model. Versions are modelled on the installer's `Version.java`, with `isBeta` taken as `isPreRelease`.
- `Releases.AllLegacyRequest` and `Releases.AllLegacy` model the updater's `reused/releases/ReleaseQueries`. The older update operation imports a different package, `aggregateupdater.releases`, whose `ReleaseQueries`, `Release` and `Version` are not part of this model; they are taken to behave as the `reused` copies.
- `InstallOperation.Prepare`: uses the intended superuser check (`Console.RequireSuperuser`). As written, every `-i` run is refused at that check; `InstallOperation.RunAsWritten` and `InstallOperation.RunAsWrittenRefusesEveryone` model that (see Findings).
- `InstallOperation.Run`: uses the intended superuser check (`Console.RequireSuperuser`). As written, every `-i` run is refused at that check; `InstallOperation.RunAsWritten` and `InstallOperation.RunAsWrittenRefusesEveryone` model that (see Findings).
- `InstallOperation.NonRootRefused`: uses the intended superuser check (`Console.RequireSuperuser`). As written, every `-i` run is refused at that check; `InstallOperation.RunAsWritten` and `InstallOperation.RunAsWrittenRefusesEveryone` model that (see Findings).
- `UpdateOperation.Checked`: uses the intended superuser check (`Console.RequireSuperuser`). As written, every `-u` run is refused at that check; `UpdateOperation.RunAsWritten` and `UpdateOperation.RunAsWrittenRefusesEveryone` model that (see Findings).
- `UpdateOperation.Prepare`: uses the intended superuser check (`Console.RequireSuperuser`). As written, every `-u` run is refused at that check; `UpdateOperation.RunAsWritten` and `UpdateOperation.RunAsWrittenRefusesEveryone` model that (see Findings).
- `UpdateOperation.Run`: uses the intended superuser check (`Console.RequireSuperuser`). As written, every `-u` run is refused at that check; `UpdateOperation.RunAsWritten` and `UpdateOperation.RunAsWrittenRefusesEveryone` model that (see Findings).
- `UpdateOperation.NonRootRefused`: uses the intended superuser check (`Console.RequireSuperuser`). As written, every `-u` run is refused at that check; `UpdateOperation.RunAsWritten` and `UpdateOperation.RunAsWrittenRefusesEveryone` model that (see Findings).
- `Http.Equal`: `URL.equals` is taken to be equality of the URL text. Java's `URL.equals` may resolve host names, which is not modelled. Its contract is stated by `Http.EqualIsEquivalence`.
- `Versions.HashCode`: the enum's `hashCode` inside `Objects.hash` is taken to be its ordinal. Java's identity hash is not modelled, so only the 32-bit range is promised.
- `confirm` builds a new `Scanner` on standard input at every call. The model reads one line per call from a single input sequence, so input that one `Scanner` buffers past its line and the next one then misses is not modelled.
- An `IOException` from `Runtime.exec`, or from the HTTP client, is wrapped in an `UncheckedIOException`. The model does not carry it: a command always starts, and the catalog's answer is one of the inputs listed above.
- `LegacyUpdate.Home`: `user.home` holding a NUL character, which makes `Paths.get` throw when the class is loaded, is not modelled; the home is always a path.
- `Version`'s public constructor, which can build a pre-release without an iteration, is not modelled: a pre-release always carries its iteration.
- Case folding in `equalsIgnoreCase` is exact for ASCII. Among non-ASCII characters, only U+017F (long s, which folds to `s`) is considered. Non-ASCII digits accepted by `Integer.parseInt` are left out.
- The launchers, `HelpFormatter`, `Author`, `Asset`, `Pair`, `Exceptions` and the file I/O inside `UncheckedFiles` are left out. Reads come from a map of file contents, and writes are trace events. `UncheckedFiles.write` and the older updater's own private `write` (`aggregateupdater/update/UpdateOperation.java:176-182`) both print a stack trace on an `IOException` and carry on. The model has no failed write: `Put(VersionFile, …)` is always recorded as done. The older updater opens the version file with `TRUNCATE_EXISTING` only, which needs the file to exist; the run read it a moment earlier, and its removal in between is not modelled.
- The race between the `whoami` process and its watcher thread is not modelled. The watcher is taken to have finished when the status is read.
- Where the catalog is empty, the installer's `latest` query throws at `get(0)` inside the mapper, so it does not end with the "no versions found" message. The model follows the code here, not the description of a dedicated "no releases found" error.

## Findings

| source | as written | input that shows it | evidently intended | confidence | as-written member | corrected member |
|---|---|---|---|---|---|---|
| src/main/java/org/opendatakit/cli/Console.java:153-163 | `requireSuperuser` attaches a watcher without `verbose(true)`; the watcher forwards lines only in verbose mode, so nothing is collected and the comparison with `root` always fails | `whoami` printing `root` | root passes the check and every other user is refused | not executed | `Console.SuperuserAsWrittenRefusesRoot`, `InstallOperation.RunAsWrittenRefusesEveryone`, `UpdateOperation.RunAsWrittenRefusesEveryone` | `Console.RequireSuperuserAcceptsRoot`, `Console.RequireSuperuser` |
