/** The update operation: check the caller and the configuration, require an
    existing installation, read its version, pick the version to install (the
    requested one if the catalog lists it, else the newest listed), refuse a
    no-op update unless forced, ask for confirmation, back up the deployed
    webapp and run the installation. */
module UpdateOperation {
  import opened Wrappers
  import opened JavaText
  import opened Console
  import opened Environment
  import Configuration
  import Versions
  import Releases
  import Http
  import Install
  import Optionals
  import Paths

  /** The command line, parsed: the flags, the configuration file as read and
      the requested version. */
  datatype Args = Args(
    verbose: bool,
    alwaysYes: bool,
    force: bool,
    includePreReleases: bool,
    configuration: Configuration.Source,
    requested: Option<Versions.Version>)

  const NotInstalledMessage := "Aggregate is not installed. Run the install (-i) operation instead"
  const NoReleasedVersionsMessage := "No available released versions have been found. Run with -ip to include pre-release versions"
  const ConfirmMessage := "Are you ready to continue?"

  const UpToDateSuffix := " is already installed. Run this operation with -f to force the update"

  function UpToDateMessage(v: Versions.Version): string {
    "Aggregate " + Versions.ToString(v) + UpToDateSuffix
  }

  /** The literals of the releases, joined with ", ". */
  function JoinedLiterals(rs: seq<Releases.Release>): string {
    if |rs| == 0 then ""
    else if |rs| == 1 then rs[0].version.literal
    else rs[0].version.literal + ", " + JoinedLiterals(rs[1..])
  }

  const UnavailableInfix := " is not available. Please choose one between: "

  function UnavailableMessage(v: Versions.Version, available: seq<Releases.Release>): string {
    "Requested version " + Versions.ToString(v) + UnavailableInfix + JoinedLiterals(available)
  }

  /** The pure part of `resolveSelectedVersion`: a requested version must be
      listed and is then chosen as it was written; without one, the greatest
      listed version is chosen; with an empty list there is nothing to choose. */
  function SelectVersion(requested: Option<Versions.Version>, available: seq<Releases.Release>): (r: Result<Versions.Version, Failure>)
    ensures requested.Some? ==> (r.Success? <==> Releases.Lists(available, requested.value))
    ensures requested.Some? && r.Success? ==> r.value == requested.value
    ensures requested.Some? && r.Failure? ==> r.error == Operation(UnavailableMessage(requested.value, available))
    ensures requested.None? ==> (r.Success? <==> |available| > 0)
    ensures requested.None? && r.Success? ==> Releases.Max(Releases.VersionsOf(available)) == Some(r.value)
    ensures requested.None? && r.Failure? ==> r.error == Operation(NoReleasedVersionsMessage)
  {
    var latest := Releases.Max(Releases.VersionsOf(available));
    Optionals.RaceOfTwo(requested, latest);
    if requested.Some? && !Releases.Lists(available, requested.value) then
      Failure(Operation(UnavailableMessage(requested.value, available)))
    else
      match Optionals.Race([requested, latest])
      case None => Failure(Operation(NoReleasedVersionsMessage))
      case Some(v) => Success(v)
  }

  /** `resolveSelectedVersion`: the catalog's list (empty on an unsuccessful
      answer), then the choice. */
  function ResolveSelected(requested: Option<Versions.Version>, includePre: bool, catalog: Http.Exchange<seq<Releases.RawRelease>>): (r: Result<Versions.Version, Failure>)
    ensures Fetch(Releases.AllRequest(includePre), catalog).Failure? ==> r == Failure(Fetch(Releases.AllRequest(includePre), catalog).error)
    ensures Fetch(Releases.AllRequest(includePre), catalog).Success? ==>
              r == SelectVersion(requested, Http.OrElse(Fetch(Releases.AllRequest(includePre), catalog).value, []))
  {
    var response :- Fetch(Releases.AllRequest(includePre), catalog);
    SelectVersion(requested, Http.OrElse(response, []))
  }

  const NoticeHead := ["Updating ODK Aggregate", "", "Please, read carefully:"]
  const BackupAtPrefix := "- A backup of the currently deployed Aggregate will be created at "
  const NoticeMiddle := ["- The ROOT webapp will be replaced with the selected Aggregate release.", "- Tomcat will be stopped during the whole process.", "", "Version information:"]

  function Notice(c: Configuration.Config, installed: Versions.Version, selected: Versions.Version): seq<string>
    requires Paths.IsNormal(c.home)
  {
    NoticeHead + [BackupAtPrefix + Configuration.BackupPath(c)] + NoticeMiddle
    + ["- Currently installed: " + Versions.ToString(installed), "- Selected for the update: " + Versions.ToString(selected), ""]
  }

  /** The version file's content read as a version; one that does not hold
      a version throws. */
  function InstalledVersion(content: string): (r: Result<Versions.Version, Failure>)
    ensures r.Success? <==> Versions.Read(content).Success?
    ensures r.Success? ==> r.value == Versions.Read(content).value
    ensures r.Failure? ==> r.error == BadVersion(Versions.Read(content).error)
  {
    match Versions.Read(content)
    case Success(v) => Success(v)
    case Failure(e) => Failure(BadVersion(e))
  }

  /** The checks once the configuration is known, in the order they are
      made: an installation must exist, its version must be readable, a
      version must be selectable, and it must differ from the installed one
      unless forced. The value is the installed and the selected version. */
  function Versioning(args: Args, w: World, c: Configuration.Config): (r: Result<(Versions.Version, Versions.Version), Failure>)
    requires Paths.IsNormal(c.home)
    ensures var path := Configuration.VersionFilePath(c);
            && (path !in w.files ==> r == Failure(Operation(NotInstalledMessage)))
            && (path in w.files && InstalledVersion(w.files[path]).Failure? ==> r == Failure(InstalledVersion(w.files[path]).error))
    ensures var path := Configuration.VersionFilePath(c);
            var selected := ResolveSelected(args.requested, args.includePreReleases, w.catalog);
            path in w.files && InstalledVersion(w.files[path]).Success? ==>
              && (selected.Failure? ==> r == Failure(selected.error))
              && (selected.Success? && Versions.Equals(InstalledVersion(w.files[path]).value, selected.value) && !args.force ==>
                    r == Failure(Operation(UpToDateMessage(InstalledVersion(w.files[path]).value))))
              && (selected.Success? && (args.force || !Versions.Equals(InstalledVersion(w.files[path]).value, selected.value)) ==>
                    r == Success((InstalledVersion(w.files[path]).value, selected.value)))
  {
    var path := Configuration.VersionFilePath(c);
    if path !in w.files then Failure(Operation(NotInstalledMessage))
    else
      var installed :- InstalledVersion(w.files[path]);
      var selected :- ResolveSelected(args.requested, args.includePreReleases, w.catalog);
      if Versions.Equals(installed, selected) && !args.force then Failure(Operation(UpToDateMessage(installed)))
      else Success((installed, selected))
  }

  /** The notice, then the question. */
  function Ask(s: State, c: Configuration.Config, installed: Versions.Version, selected: Versions.Version): (r: Step<bool>)
    requires Paths.IsNormal(c.home)
    ensures r.state.ran == s.ran
    ensures r.Halt? ==> r.end == Raised(InputExhausted)
    ensures s.alwaysYes ==> r.Next? && r.value
  {
    Confirm(PrintLines(s, Notice(c, installed, selected)), ConfirmMessage)
  }

  /** The modes the flags ask for, set before anything else. */
  function Modes(args: Args, s: State): (r: State)
    ensures r.verbose == args.verbose && r.alwaysYes == args.alwaysYes
    ensures r.input == s.input && r.ran == s.ran
  {
    SetAlwaysYesMode(SetVerboseMode(s, args.verbose), args.alwaysYes)
  }

  /** The checks that follow the superuser check: the configuration, then
      the versions. They print nothing. The value is the configuration, the
      installed and the selected version. */
  function Verified(args: Args, w: World, s: State): (r: Step<(Configuration.Config, Versions.Version, Versions.Version)>)
    ensures r.state == s
    ensures Configuration.From(args.configuration).Failure? ==>
              r.Halt? && r.end == Raised(Config(Configuration.From(args.configuration).error))
    ensures Configuration.From(args.configuration).Success? ==>
              var v := Versioning(args, w, Configuration.From(args.configuration).value);
              && (r.Next? <==> v.Success?)
              && (v.Failure? ==> r.end == Raised(v.error))
              && (v.Success? ==> r.value == (Configuration.From(args.configuration).value, v.value.0, v.value.1))
  {
    var read :- Lift(s, ReadConfig(args.configuration));
    var (conf, s1) := read;
    var versions :- Lift(s1, Versioning(args, w, conf));
    Next((conf, versions.0.0, versions.0.1), versions.1)
  }

  /** The checks before the notice: the modes, the superuser, the
      configuration and the versions. */
  function Checked(args: Args, w: World, s: State): (r: Step<(Configuration.Config, Versions.Version, Versions.Version)>)
    ensures r.state.ran == s.ran && r.state.input == s.input && r.state.alwaysYes == args.alwaysYes
    ensures Concat(w.whoami) != "root" ==> r.Halt? && r.end == Raised(Operation(NotSuperuserMessage))
    ensures Concat(w.whoami) == "root" && Configuration.From(args.configuration).Failure? ==>
              r.Halt? && r.end == Raised(Config(Configuration.From(args.configuration).error))
    ensures Concat(w.whoami) == "root" && Configuration.From(args.configuration).Success? ==>
              var v := Versioning(args, w, Configuration.From(args.configuration).value);
              && (r.Next? <==> v.Success?)
              && (v.Failure? ==> r.end == Raised(v.error))
              && (v.Success? ==> r.value == (Configuration.From(args.configuration).value, v.value.0, v.value.1))
    ensures r.Next? ==> Concat(w.whoami) == "root" && Configuration.From(args.configuration) == Success(r.value.0)
  {
    var root :- RequireSuperuser(Modes(args, s), w.whoami);
    Verified(args, w, root.1)
  }

  /** What follows the superuser check, up to and including the
      confirmation: the checks, the notice and the question. Declining exits
      with status 0; going on carries the configuration and the selected
      version. */
  function Confirmed(args: Args, w: World, s: State): (r: Step<(Configuration.Config, Versions.Version)>)
    ensures r.state.ran == s.ran
    ensures Verified(args, w, s).Halt? ==> r.Halt? && r.state == s && r.end == Verified(args, w, s).end
    ensures r.Next? ==> Verified(args, w, s).Next? && r.value == (Verified(args, w, s).value.0, Verified(args, w, s).value.2)
    ensures r.Halt? && r.end.Exited? ==> r.end == Exited(0) && !s.alwaysYes
  {
    var verified :- Verified(args, w, s);
    var (conf, installed, selected) := verified.0;
    var answer :- Ask(verified.1, conf, installed, selected);
    if answer.0 then Next((conf, selected), answer.1) else Exit(answer.1)
  }

  /** Everything up to and including the confirmation: a failed check ends
      it, declining exits with status 0, and going on carries the
      configuration and the selected version. */
  function Prepare(args: Args, w: World, s: State): (r: Step<(Configuration.Config, Versions.Version)>)
    ensures r.state.ran == s.ran
    ensures Checked(args, w, s).Halt? ==> r.Halt? && r.state == Checked(args, w, s).state && r.end == Checked(args, w, s).end
    ensures r.Next? ==> Checked(args, w, s).Next? && r.value == (Checked(args, w, s).value.0, Checked(args, w, s).value.2)
    ensures r.Next? ==> Configuration.From(args.configuration) == Success(r.value.0)
    ensures r.Halt? && r.end.Exited? ==> r.end == Exited(0) && !args.alwaysYes
  {
    var root :- RequireSuperuser(Modes(args, s), w.whoami);
    Confirmed(args, w, root.1)
  }

  /** The backup: the directory (errors ignored), then a zip of the ROOT
      webapp named after the current time; a time the formatter cannot write
      throws. */
  function BackupBody(c: Configuration.Config, now: Configuration.DateTime): (body: seq<Action>)
    requires Paths.IsNormal(c.home) && Paths.IsNormal(c.tomcat.webapps) && Configuration.ValidDateTime(now)
    ensures |body| == 2 && body[0].Cmd? && body[0].ignoreErrors
    ensures body[1].Cmd? <==> Configuration.BackupFilePath(c, now).Some?
    ensures body[1].Cmd? ==> !body[1].ignoreErrors
    ensures PutsOf(body) == []
    ensures !body[1].Cmd? ==> body[1] == Abort(DateOutOfRange)
  {
    var zip := match Configuration.BackupFilePath(c, now)
      case Some(file) => Cmd("zip -q -r " + file + " " + Configuration.RootWebappPath(c), false)
      case None => Abort(DateOutOfRange);
    var body := [Cmd("mkdir -p " + Configuration.BackupPath(c), true), zip];
    assert body[1..] == [zip] && [zip][1..] == [];
    assert PutsOf([zip]) == [] + PutsOf([zip][1..]);
    body
  }

  const BackupBlock := "Backing up Aggregate"

  /** The backup block, then the installation of the selected version from
      its GitHub URL. */
  function Plan(c: Configuration.Config, w: World, v: Versions.Version): (plan: seq<Action>)
    requires Ready(w) && Paths.IsNormal(c.home) && Paths.IsNormal(c.tomcat.webapps)
    ensures var install := Install.Plan(c, SettingFor(c, w), v, Versions.DownloadUrl(v));
            && Commands(plan) == Commands(BackupBody(c, w.now)) + Commands(install)
            && PutsOf(plan) == PutsOf(install)
  {
    var backup := Block(BackupBlock, BackupBody(c, w.now));
    var install := Install.Plan(c, SettingFor(c, w), v, Versions.DownloadUrl(v));
    BlockLikeBody(BackupBlock, BackupBody(c, w.now), x => 0, 0);
    PlanAppend(backup, install);
    backup + install
  }

  /** After the confirmation: run the plan and exit with status 0 unless it
      threw. */
  function Finish(s: State, c: Configuration.Config, w: World, v: Versions.Version): (r: Step<()>)
    requires Ready(w) && Paths.IsNormal(c.home) && Paths.IsNormal(c.tomcat.webapps)
    ensures r.Halt?
    ensures var done := Perform(s, Plan(c, w, v));
            && (r.end == Exited(0) <==> done.Next?)
            && r.state == done.state
            && (done.Halt? ==> r.end == done.end)
  {
    var done :- Perform(s, Plan(c, w, v));
    Exit(done.1)
  }

  /** What follows the superuser check, to the end of the run: the checks
      and the question, then the backup and the installation. */
  function Proceed(args: Args, w: World, s: State): (r: Step<()>)
    requires Ready(w)
    ensures r.Halt?
    ensures Confirmed(args, w, s).Halt? ==> r.state == Confirmed(args, w, s).state && r.end == Confirmed(args, w, s).end
    ensures Confirmed(args, w, s).Next? ==>
              r == Finish(Confirmed(args, w, s).state, Confirmed(args, w, s).value.0, w, Confirmed(args, w, s).value.1)
  {
    var confirmed :- Confirmed(args, w, s);
    var ((conf, selected), s1) := confirmed;
    assert Configuration.From(args.configuration) == Success(conf);
    Finish(s1, conf, w, selected)
  }

  /** The run once the superuser check has answered: a refusal ends it, a
      pass goes on with the rest. */
  function AfterCheck(args: Args, w: World, check: Step<()>): (r: Step<()>)
    requires Ready(w)
    ensures r.Halt?
    ensures check.Halt? ==> r == Halt(check.state, check.end)
    ensures check.Next? ==> r == Proceed(args, w, check.state)
  {
    var root :- check;
    Proceed(args, w, root.1)
  }

  /** `UpdateOperation.execute` with the superuser check as intended: the
      run stops where the preparation stops and otherwise runs the plan for
      the selected version. */
  function Run(args: Args, w: World, s: State): (r: Step<()>)
    requires Ready(w)
    ensures r.Halt?
    ensures Prepare(args, w, s).Halt? ==> r.state == Prepare(args, w, s).state && r.end == Prepare(args, w, s).end
    ensures Prepare(args, w, s).Next? ==> r == Finish(Prepare(args, w, s).state, Prepare(args, w, s).value.0, w, Prepare(args, w, s).value.1)
  {
    AfterCheck(args, w, RequireSuperuser(Modes(args, s), w.whoami))
  }

  /** `UpdateOperation.execute` as the code stands, with the superuser check
      that collects nothing from `whoami`. */
  function RunAsWritten(args: Args, w: World, s: State): (r: Step<()>)
    requires Ready(w)
    ensures r.Halt?
  {
    AfterCheck(args, w, RequireSuperuserAsWritten(Modes(args, s), w.whoami))
  }

  /** As written, every run ends at the superuser check, root included:
      nothing is printed after the modes, no command runs and no answer is
      read. */
  lemma RunAsWrittenRefusesEveryone(args: Args, w: World, s: State)
    requires Ready(w)
    ensures RunAsWritten(args, w, s) == Halt(Modes(args, s), Raised(Operation(NotSuperuserMessage)))
    ensures RunAsWritten(args, w, s).state.ran == s.ran && RunAsWritten(args, w, s).state.input == s.input
  {
    SuperuserAsWrittenRefusesRoot(Modes(args, s), w.whoami);
  }

  /** As written, a run is the intended run for a `whoami` that printed
      nothing, whatever it really printed. */
  lemma RunAsWrittenIgnoresWhoami(args: Args, w: World, s: State)
    requires Ready(w)
    ensures RunAsWritten(args, w, s) == Run(args, w.(whoami := []), s)
  {
    RunAsWrittenRefusesEveryone(args, w, s);
    assert Concat([]) == "";
  }

  // ---------------------------------------------------------------------------
  // Properties of a run

  /** Somebody other than root is refused before anything else happens. */
  lemma NonRootRefused(args: Args, w: World, s: State)
    requires Ready(w) && Concat(w.whoami) != "root"
    ensures Run(args, w, s).end == Raised(Operation(NotSuperuserMessage))
    ensures Run(args, w, s).state.ran == s.ran && Run(args, w, s).state.input == s.input
  {
  }

  /** Without a version file the update is refused before any command. */
  lemma NotInstalledRefused(args: Args, w: World, s: State)
    requires Ready(w) && Concat(w.whoami) == "root" && Configuration.From(args.configuration).Success?
    requires Configuration.VersionFilePath(Configuration.From(args.configuration).value) !in w.files
    ensures Run(args, w, s).end == Raised(Operation(NotInstalledMessage))
    ensures Run(args, w, s).state.ran == s.ran && Run(args, w, s).state.input == s.input
  {
  }

  /** The installed version is read with `from`, so a version file that does
      not hold a version stops the update, with no legacy stand-in. */
  lemma UnreadableVersionRefused(args: Args, w: World, s: State)
    requires Ready(w) && Concat(w.whoami) == "root" && Configuration.From(args.configuration).Success?
    requires var path := Configuration.VersionFilePath(Configuration.From(args.configuration).value);
             path in w.files && Versions.Read(w.files[path]).Failure?
    ensures var path := Configuration.VersionFilePath(Configuration.From(args.configuration).value);
            Run(args, w, s).end == Raised(BadVersion(Versions.Read(w.files[path]).error))
    ensures Run(args, w, s).state.ran == s.ran
  {
  }

  /** Selecting the installed version again, without force, is refused
      before any command and before the question. */
  lemma UpToDateRefused(args: Args, w: World, s: State)
    requires Ready(w) && Concat(w.whoami) == "root" && Configuration.From(args.configuration).Success?
    requires var path := Configuration.VersionFilePath(Configuration.From(args.configuration).value);
             path in w.files && Versions.Read(w.files[path]).Success?
    requires ResolveSelected(args.requested, args.includePreReleases, w.catalog).Success?
    requires var path := Configuration.VersionFilePath(Configuration.From(args.configuration).value);
             Versions.Equals(Versions.Read(w.files[path]).value, ResolveSelected(args.requested, args.includePreReleases, w.catalog).value)
    requires !args.force
    ensures var path := Configuration.VersionFilePath(Configuration.From(args.configuration).value);
            Run(args, w, s).end == Raised(Operation(UpToDateMessage(Versions.Read(w.files[path]).value)))
    ensures Run(args, w, s).state.ran == s.ran && Run(args, w, s).state.input == s.input
  {
  }

  /** Declining is the only way to exit before the backup, with status 0 and
      no command run. */
  lemma DeclineExitsZero(args: Args, w: World, s: State)
    requires Ready(w) && Prepare(args, w, s).Halt? && Prepare(args, w, s).end.Exited?
    ensures Run(args, w, s).end == Exited(0) && !args.alwaysYes && Run(args, w, s).state.ran == s.ran
  {
  }

  /** The backup comes first, whatever follows it: `mkdir` may fail, the zip
      may not. */
  lemma BackupCommands(c: Configuration.Config, now: Configuration.DateTime, rest: seq<Action>)
    requires Paths.IsNormal(c.home) && Paths.IsNormal(c.tomcat.webapps) && Configuration.ValidDateTime(now) && 0 <= now.year <= 9999
    ensures var zip := "zip -q -r " + Configuration.BackupFilePath(c, now).value + " " + Configuration.RootWebappPath(c);
            Commands(Block(BackupBlock, BackupBody(c, now)) + rest) ==
              [("mkdir -p " + Configuration.BackupPath(c), true), (zip, false)] + Commands(rest)
  {
    var body := BackupBody(c, now);
    BlockLikeBody(BackupBlock, body, x => 0, 0);
    PlanAppend(Block(BackupBlock, body), rest);
    assert body[1..][1..] == [];
  }

  /** The update's commands: the two backup commands, then the
      installation's. */
  lemma BackupBeforeInstall(c: Configuration.Config, w: World, v: Versions.Version)
    requires Ready(w) && Paths.IsNormal(c.home) && Paths.IsNormal(c.tomcat.webapps) && 0 <= w.now.year <= 9999
    ensures var zip := "zip -q -r " + Configuration.BackupFilePath(c, w.now).value + " " + Configuration.RootWebappPath(c);
            Commands(Plan(c, w, v)) ==
              [("mkdir -p " + Configuration.BackupPath(c), true), (zip, false)]
              + Commands(Install.Plan(c, SettingFor(c, w), v, Versions.DownloadUrl(v)))
  {
    BackupCommands(c, w.now, Install.Plan(c, SettingFor(c, w), v, Versions.DownloadUrl(v)));
  }

  /** Inside the block: `mkdir` runs whatever it answers, then the failing
      zip throws. */
  lemma BackupBodyZipFails(s: State, c: Configuration.Config, now: Configuration.DateTime)
    requires Paths.IsNormal(c.home) && Paths.IsNormal(c.tomcat.webapps) && Configuration.ValidDateTime(now) && 0 <= now.year <= 9999
    requires s.exitCode(s.ran + 1) != 0
    ensures var r := Perform(s, BackupBody(c, now));
            && r.Halt? && r.state.ran == s.ran + 2
            && r.end == Raised(CommandFailed("zip -q -r " + Configuration.BackupFilePath(c, now).value + " " + Configuration.RootWebappPath(c), s.exitCode(s.ran + 1)))
  {
    var body := BackupBody(c, now);
    var first := Execute(s, "mkdir -p " + Configuration.BackupPath(c), true);
    assert Perform(s, body) == Perform(first.state, body[1..]);
    assert body[1..][1..] == [];
  }

  /** A failing zip ends a plan that starts with the backup, whatever
      follows: after the two backup commands and with that command's
      failure. */
  lemma ZipFailureStopsPlan(s: State, c: Configuration.Config, now: Configuration.DateTime, rest: seq<Action>)
    requires Paths.IsNormal(c.home) && Paths.IsNormal(c.tomcat.webapps) && Configuration.ValidDateTime(now) && 0 <= now.year <= 9999
    requires s.exitCode(s.ran + 1) != 0
    ensures var r := Perform(s, Block(BackupBlock, BackupBody(c, now)) + rest);
            && r.Halt? && r.state.ran == s.ran + 2
            && r.end == Raised(CommandFailed("zip -q -r " + Configuration.BackupFilePath(c, now).value + " " + Configuration.RootWebappPath(c), s.exitCode(s.ran + 1)))
  {
    var headed := Emit(s, Out("- " + BackupBlock));
    BackupBodyZipFails(headed, c, now);
    HaltedBlockStops(s, BackupBlock, BackupBody(c, now), rest);
  }

  /** So a failing zip ends the update before Tomcat is stopped. */
  lemma ZipFailureStops(s: State, c: Configuration.Config, w: World, v: Versions.Version)
    requires Ready(w) && Paths.IsNormal(c.home) && Paths.IsNormal(c.tomcat.webapps) && 0 <= w.now.year <= 9999
    requires s.exitCode(s.ran + 1) != 0
    ensures var r := Perform(s, Plan(c, w, v));
            && r.Halt? && r.state.ran == s.ran + 2
            && r.end == Raised(CommandFailed("zip -q -r " + Configuration.BackupFilePath(c, w.now).value + " " + Configuration.RootWebappPath(c), s.exitCode(s.ran + 1)))
  {
    ZipFailureStopsPlan(s, c, w.now, Install.Plan(c, SettingFor(c, w), v, Versions.DownloadUrl(v)));
  }

  /** Without a requested version the selection is the greatest version the
      catalog lists, one of them and below none. */
  lemma SelectedIsNewest(raws: seq<Releases.RawRelease>, includePre: bool)
    requires Releases.All(raws, includePre).Success?
    requires SelectVersion(None, Releases.All(raws, includePre).value).Success?
    ensures var all := Releases.All(raws, includePre).value;
            var v := SelectVersion(None, all).value;
            && v in Releases.VersionsOf(all)
            && forall x :: x in all ==> !(Versions.CompareTo(v, x.version) < 0)
  {
    var all := Releases.All(raws, includePre).value;
    var vs := Releases.VersionsOf(all);
    Releases.AllFiltered(raws, includePre);
    assert Releases.NoLegacyVersion(vs) by {
      forall i | 0 <= i < |vs| ensures !Versions.IsLegacy(vs[i]) {
        assert all[i] in all;
      }
    }
    Releases.MaxIsGreatest(vs);
    forall x | x in all ensures !(Versions.CompareTo(SelectVersion(None, all).value, x.version) < 0) {
      var i :| 0 <= i < |all| && all[i] == x;
      assert vs[i] == x.version;
    }
  }

  /** A requested version is chosen only when listed, and then over the
      newest one. */
  lemma RequestedWins(requested: Versions.Version, available: seq<Releases.Release>)
    requires Releases.Lists(available, requested)
    ensures SelectVersion(Some(requested), available) == Success(requested)
  {
  }
}
