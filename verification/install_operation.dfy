/** The install operation: check the caller and the configuration, refuse to
    overwrite an installation unless forced, insist on a custom URL coming
    with its version, ask for confirmation, pick the version (the custom pair
    or the newest release in the catalog) and run the installation. Nothing
    runs before the confirmation, and the catalog is looked at only after it. */
module InstallOperation {
  import opened Wrappers
  import opened JavaText
  import opened Console
  import Configuration
  import Versions
  import Releases
  import Http
  import Install
  import Paths
  import opened Environment

  /** The command line, parsed: the flags, the configuration file as read,
      and the two custom parameters. */
  datatype Args = Args(
    verbose: bool,
    alwaysYes: bool,
    force: bool,
    includePreReleases: bool,
    configuration: Configuration.Source,
    customUrl: Option<string>,
    customVersion: Option<Versions.Version>)

  function AlreadyInstalledMessage(v: Versions.Version): string {
    "Aggregate " + Versions.ToString(v) + " is already installed. Add -f to force the installation."
  }

  const BothParamsMessage := "You need to provide both -cu and -cv params"
  const NoVersionsMessage := "No available versions found. Run with -ip to include pre-release versions"
  const ConfirmMessage := "Are you ready to continue?"

  const Notice := [
    "Installing ODK Aggregate",
    "",
    "Please, read carefully:",
    "- The ROOT webapp will be replaced with the latest available Aggregate release or a custom build you provide.",
    "- Tomcat will be stopped during the whole process.",
    ""]

  /** The refusal when a version file exists: naming the installed version,
      or the parse error when the file does not hold one. */
  function AlreadyInstalled(content: string): (f: Failure)
    ensures Versions.Read(content).Success? ==> f == Operation(AlreadyInstalledMessage(Versions.Read(content).value))
    ensures Versions.Read(content).Failure? ==> f == BadVersion(Versions.Read(content).error)
  {
    match Versions.Read(content)
    case Success(v) => Operation(AlreadyInstalledMessage(v))
    case Failure(e) => BadVersion(e)
  }

  /** The modes the flags ask for, set before anything else. */
  function Modes(args: Args, s: State): (r: State)
    ensures r.verbose == args.verbose && r.alwaysYes == args.alwaysYes
    ensures r.input == s.input && r.ran == s.ran
  {
    SetAlwaysYesMode(SetVerboseMode(s, args.verbose), args.alwaysYes)
  }

  /** What follows the superuser check, up to and including the
      confirmation: the configuration, the two argument checks, the notice
      and the question. Declining exits with status 0. */
  function Configured(args: Args, w: World, s: State): (r: Step<Configuration.Config>)
    ensures r.state.ran == s.ran
    ensures r.Next? <==> && Configuration.From(args.configuration).Success?
                         && (args.force || Configuration.VersionFilePath(Configuration.From(args.configuration).value) !in w.files)
                         && !(args.customUrl.Some? && args.customVersion.None?)
                         && Confirm(PrintLines(s, Notice), ConfirmMessage).Next?
                         && Confirm(PrintLines(s, Notice), ConfirmMessage).value
    ensures r.Next? ==> Configuration.From(args.configuration) == Success(r.value)
    ensures r.Halt? && r.end.Exited? ==> r.end == Exited(0) && !s.alwaysYes
  {
    var read :- Lift(s, ReadConfig(args.configuration));
    var (conf, s1) := read;
    var path := Configuration.VersionFilePath(conf);
    if path in w.files && !args.force then Raise(s1, AlreadyInstalled(w.files[path]))
    else if args.customUrl.Some? && args.customVersion.None? then Raise(s1, Operation(BothParamsMessage))
    else
      var answer :- Confirm(PrintLines(s1, Notice), ConfirmMessage);
      if answer.0 then Next(conf, answer.1) else Exit(answer.1)
  }

  /** Everything up to and including the confirmation: the modes, the
      superuser check, then the configuration and the question. */
  function Prepare(args: Args, w: World, s: State): (r: Step<Configuration.Config>)
    ensures r.state.ran == s.ran
    ensures r.Next? ==> Concat(w.whoami) == "root" && Configuration.From(args.configuration) == Success(r.value)
    ensures r.Next? ==> args.force || Configuration.VersionFilePath(r.value) !in w.files
    ensures r.Next? ==> !(args.customUrl.Some? && args.customVersion.None?)
    ensures r.Halt? && r.end.Exited? ==> r.end == Exited(0) && !args.alwaysYes
  {
    var root :- RequireSuperuser(Modes(args, s), w.whoami);
    Configured(args, w, root.1)
  }

  /** The custom URL counts only when it is not blank. */
  function UsableUrl(customUrl: Option<string>): (u: Option<string>)
    ensures u.Some? <==> customUrl.Some? && Trim(customUrl.value) != ""
    ensures u.Some? ==> u == customUrl
  {
    if customUrl.Some? && Trim(customUrl.value) != "" then customUrl else None
  }

  /** The query for the newest release, mapped to its version. */
  function LatestVersionRequest(includePre: bool): (q: Http.Request<seq<Releases.RawRelease>, Versions.Version, Releases.QueryError>)
    ensures q.url == Releases.CatalogUrl
    ensures forall b :: Releases.Latest(b, includePre).Failure? ==> q.mapper(b) == Failure(Releases.Latest(b, includePre).error)
    ensures forall b :: Releases.Latest(b, includePre).Success? ==> q.mapper(b) == Success(Releases.Latest(b, includePre).value.version)
  {
    Http.WithMapper(Releases.LatestRequest(includePre), (r: Releases.Release) => Success(r.version))
  }

  /** The newest release of the catalog with its GitHub URL. An unsuccessful
      answer means no version was found; a decoding error or an unreachable
      server escapes. */
  function FromCatalog(includePre: bool, catalog: Http.Exchange<seq<Releases.RawRelease>>): (r: Result<(Versions.Version, string), Failure>)
    ensures catalog.Answered? && catalog.status >= 300 ==> r == Failure(Operation(NoVersionsMessage))
    ensures catalog.Answered? && catalog.status < 300 && Releases.Latest(catalog.body, includePre).Success? ==>
              var l := Releases.Latest(catalog.body, includePre).value;
              r == Success((l.version, Versions.DownloadUrl(l.version)))
    ensures catalog.Answered? && catalog.status < 300 && Releases.Latest(catalog.body, includePre).Failure? ==>
              r == Failure(Catalog(Http.MapperFailed(Releases.Latest(catalog.body, includePre).error)))
    ensures !catalog.Answered? ==> r.Failure? && r.error.Catalog? && r.error.fetchError.HttpFailure?
  {
    var q := LatestVersionRequest(includePre);
    match Http.Execute(q, catalog)
    case Failure(e) => Failure(Catalog(e))
    case Success(Ok(v)) => Success((v, Versions.DownloadUrl(v)))
    case Success(NotOk(_)) => Failure(Operation(NoVersionsMessage))
  }

  /** `resolveSelectedVersion`: a custom version with a usable custom URL is
      taken as it is, whatever the catalog holds; otherwise the catalog
      decides, and a custom version without a usable URL is ignored. */
  function ResolveSelected(includePre: bool, customUrl: Option<string>, customVersion: Option<Versions.Version>,
                           catalog: Http.Exchange<seq<Releases.RawRelease>>): (r: Result<(Versions.Version, string), Failure>)
    ensures customVersion.Some? && UsableUrl(customUrl).Some? ==> r == Success((customVersion.value, customUrl.value))
    ensures !(customVersion.Some? && UsableUrl(customUrl).Some?) ==> r == FromCatalog(includePre, catalog)
  {
    var url := UsableUrl(customUrl);
    if customVersion.Some? && url.Some? then Success((customVersion.value, url.value))
    else FromCatalog(includePre, catalog)
  }

  /** After the version is known: say what is installed from where, install,
      and exit with status 0 unless the installation threw. */
  function Finish(s: State, c: Configuration.Config, w: World, v: Versions.Version, url: string): (r: Step<()>)
    requires Ready(w) && Paths.IsNormal(c.home) && Paths.IsNormal(c.tomcat.webapps)
    ensures r.Halt?
    ensures var i := Install.Install(PrintLines(s, ["Installing Aggregate " + v.literal + " from " + url, ""]), c, SettingFor(c, w), v, url);
            && (r.end == Exited(0) <==> i.Next?)
            && r.state == i.state
            && (i.Halt? ==> r.end == i.end)
  {
    var announced := PrintLines(s, ["Installing Aggregate " + Versions.ToString(v) + " from " + url, ""]);
    var done :- Install.Install(announced, c, SettingFor(c, w), v, url);
    Exit(done.1)
  }

  /** What follows the superuser check, to the end of the run: the
      configuration and the question, then the selection and the
      installation. */
  function Proceed(args: Args, w: World, s: State): (r: Step<()>)
    requires Ready(w)
    ensures r.Halt?
    ensures Configured(args, w, s).Halt? ==> r.state == Configured(args, w, s).state && r.end == Configured(args, w, s).end
  {
    var configured :- Configured(args, w, s);
    var (conf, s1) := configured;
    var selected :- Lift(s1, ResolveSelected(args.includePreReleases, args.customUrl, args.customVersion, w.catalog));
    var ((v, url), s2) := selected;
    Finish(s2, conf, w, v, url)
  }

  /** The run once the superuser check has answered: a refusal ends it, a
      pass goes on with the rest. */
  function AfterCheck(args: Args, w: World, check: Step<()>): (r: Step<()>)
    requires Ready(w)
    ensures r.Halt?
    ensures check.Halt? ==> r == Halt(check.state, check.end)
    ensures check.Next? ==> r == Proceed(args, w, check.state)
  {
    var root :- check;
    Proceed(args, w, root.1)
  }

  /** `InstallOperation.execute` with the superuser check as intended: the
      run stops where the preparation stops, and otherwise installs what
      `resolveSelectedVersion` picked, or throws what it threw. */
  function Run(args: Args, w: World, s: State): (r: Step<()>)
    requires Ready(w)
    ensures r.Halt?
    ensures var p := Prepare(args, w, s);
            p.Halt? ==> r.state == p.state && r.end == p.end
    ensures var p := Prepare(args, w, s);
            var sel := ResolveSelected(args.includePreReleases, args.customUrl, args.customVersion, w.catalog);
            && (p.Next? && sel.Failure? ==> r.state == p.state && r.end == Raised(sel.error))
            && (p.Next? && sel.Success? ==> r == Finish(p.state, p.value, w, sel.value.0, sel.value.1))
  {
    AfterCheck(args, w, RequireSuperuser(Modes(args, s), w.whoami))
  }

  /** `InstallOperation.execute` as the code stands, with the superuser
      check that collects nothing from `whoami`. */
  function RunAsWritten(args: Args, w: World, s: State): (r: Step<()>)
    requires Ready(w)
    ensures r.Halt?
  {
    AfterCheck(args, w, RequireSuperuserAsWritten(Modes(args, s), w.whoami))
  }

  /** As written, every run ends at the superuser check, root included:
      nothing is printed after the modes, no command runs and no answer is
      read. */
  lemma RunAsWrittenRefusesEveryone(args: Args, w: World, s: State)
    requires Ready(w)
    ensures RunAsWritten(args, w, s) == Halt(Modes(args, s), Raised(Operation(NotSuperuserMessage)))
    ensures RunAsWritten(args, w, s).state.ran == s.ran && RunAsWritten(args, w, s).state.input == s.input
  {
    SuperuserAsWrittenRefusesRoot(Modes(args, s), w.whoami);
  }

  /** As written, a run is the intended run for a `whoami` that printed
      nothing, whatever it really printed. */
  lemma RunAsWrittenIgnoresWhoami(args: Args, w: World, s: State)
    requires Ready(w)
    ensures RunAsWritten(args, w, s) == Run(args, w.(whoami := []), s)
  {
    RunAsWrittenRefusesEveryone(args, w, s);
    assert Concat([]) == "";
  }

  // ---------------------------------------------------------------------------
  // Properties of a run

  /** Somebody other than root is refused before anything else happens. */
  lemma NonRootRefused(args: Args, w: World, s: State)
    requires Ready(w) && Concat(w.whoami) != "root"
    ensures Run(args, w, s).end == Raised(Operation(NotSuperuserMessage))
    ensures Run(args, w, s).state.ran == s.ran && Run(args, w, s).state.input == s.input
  {
  }

  /** An existing version file without force is refused before any command,
      naming the installed version. */
  lemma AlreadyInstalledRefused(args: Args, w: World, s: State)
    requires Ready(w) && Concat(w.whoami) == "root" && Configuration.From(args.configuration).Success?
    requires var c := Configuration.From(args.configuration).value;
             Configuration.VersionFilePath(c) in w.files && !args.force
    ensures var c := Configuration.From(args.configuration).value;
            Run(args, w, s).end == Raised(AlreadyInstalled(w.files[Configuration.VersionFilePath(c)]))
    ensures Run(args, w, s).state.ran == s.ran && Run(args, w, s).state.input == s.input
  {
  }

  /** A custom URL without a custom version is refused before the question. */
  lemma CustomUrlNeedsVersion(args: Args, w: World, s: State)
    requires Ready(w) && Concat(w.whoami) == "root" && Configuration.From(args.configuration).Success?
    requires var c := Configuration.From(args.configuration).value;
             args.force || Configuration.VersionFilePath(c) !in w.files
    requires args.customUrl.Some? && args.customVersion.None?
    ensures Run(args, w, s).end == Raised(Operation(BothParamsMessage))
    ensures Run(args, w, s).state.ran == s.ran && Run(args, w, s).state.input == s.input
  {
  }

  /** A run that stops before or at the question has run no command and has
      not looked at the catalog: any other answer from it gives the same run. */
  lemma StopsBeforeCatalog(args: Args, w: World, s: State, other: Http.Exchange<seq<Releases.RawRelease>>)
    requires Ready(w) && Prepare(args, w, s).Halt?
    ensures Run(args, w, s) == Run(args, w.(catalog := other), s)
    ensures Run(args, w, s).state.ran == s.ran
  {
    PrepareIgnoresCatalog(args, w, s, other);
  }

  lemma PrepareIgnoresCatalog(args: Args, w: World, s: State, other: Http.Exchange<seq<Releases.RawRelease>>)
    ensures Prepare(args, w, s) == Prepare(args, w.(catalog := other), s)
  {
    var w2 := w.(catalog := other);
    assert w2.whoami == w.whoami && w2.files == w.files;
  }

  /** Declining is the only way to exit before the installation, with status 0;
      with always-yes it cannot happen. */
  lemma DeclineExitsZero(args: Args, w: World, s: State)
    requires Ready(w) && Prepare(args, w, s).Halt? && Prepare(args, w, s).end.Exited?
    ensures Run(args, w, s).end == Exited(0) && !args.alwaysYes
  {
  }

  /** Once confirmed and resolved, the installation gets the selected version
      and its URL, and the run ends with status 0 exactly when it completes. */
  lemma RunInstallsSelected(args: Args, w: World, s: State)
    requires Ready(w) && Prepare(args, w, s).Next?
    requires ResolveSelected(args.includePreReleases, args.customUrl, args.customVersion, w.catalog).Success?
    ensures var p := Prepare(args, w, s);
            var (v, url) := ResolveSelected(args.includePreReleases, args.customUrl, args.customVersion, w.catalog).value;
            Run(args, w, s) == Finish(p.state, p.value, w, v, url)
  {
  }

  /** Taken from the catalog, the selected version is the one no other
      listed release is above. */
  lemma CatalogChoiceIsNewest(includePre: bool, body: seq<Releases.RawRelease>, status: int)
    requires status < 300 && Releases.All(body, includePre).Success?
    requires FromCatalog(includePre, Http.Answered(status, body)).Success?
    ensures var v := FromCatalog(includePre, Http.Answered(status, body)).value.0;
            forall x :: x in Releases.All(body, includePre).value ==> !(Versions.CompareTo(v, x.version) < 0)
  {
    Releases.LatestIsGreatest(body, includePre);
  }
}
