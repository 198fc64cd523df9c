/** The older updater's update operation. It reads the installed version from
    a fixed file, takes the version list from the older catalog, picks the
    requested version or the newest one (betas only on request), prints what
    it found, and then runs a fixed script: stop Tomcat, back up the
    configuration and the webapp, deploy the selected war over the ROOT
    webapp with the old configuration restored, clean up, show the
    configuration differences, record the new version, and start Tomcat if
    the user agrees. It checks neither the user nor a configuration file. */
module LegacyUpdate {
  import opened Wrappers
  import opened Console
  import opened Environment
  import Versions
  import Releases
  import Http
  import Optionals
  import Paths

  /** The command line, parsed: the flags and the requested version. */
  datatype Args = Args(
    verbose: bool,
    alwaysYes: bool,
    force: bool,
    includeBeta: bool,
    requested: Option<Versions.Version>)

  /** What the updater reads from the JVM: the `user.home` property, and
      today's date as ISO_LOCAL_DATE writes it. */
  datatype Host = Host(userHome: string, today: string)

  const VersionFile := "/var/lib/aggregate-version.txt"
  const DeployedWebapp := "/var/lib/tomcat8/webapps/ROOT"
  const DeployedJdbc := "/var/lib/tomcat8/webapps/ROOT/WEB-INF/classes/jdbc.properties"
  const DeployedJdbcOriginal := "/var/lib/tomcat8/webapps/ROOT/WEB-INF/classes/jdbc.properties.original"
  const DeployedSecurity := "/var/lib/tomcat8/webapps/ROOT/WEB-INF/classes/security.properties"
  const DeployedSecurityOriginal := "/var/lib/tomcat8/webapps/ROOT/WEB-INF/classes/security.properties.original"
  const War := "/tmp/aggregate.war"

  const Title := ["Update ODK Aggregate", ""]
  const ChooseLine := "Please choose one between: "
  const CannotInstallMessage := "Can't install the selected version"
  const NoActionMessage := "No action needed"
  const ForcingMessage := "(forcing the update)"
  const DefaultRequest := "None (defaults to latest available)"
  const StartQuestion := "Start Tomcat?"
  const ClosingLines := ["", "Update completed", "Please, check the differences between the deployed (+) and original (-) configurations", ""]

  const StopBlock := "Stopping Tomcat"
  const BackupBlock := "Backing up installed Aggregate"
  const DeployBlock := "Deploying selected Aggregate version"
  const CleanupBlock := "Cleaning up update assets"
  const StartBlock := "Starting Tomcat"

  // ---------------------------------------------------------------------------
  // Paths

  /** `USER_HOME`: `user.home` as a path, made absolute against the working
      directory. */
  function Home(h: Host, w: World): (home: string)
    requires Ready(w)
    ensures Paths.IsNormal(home) && Paths.IsAbsolute(home)
  {
    Paths.ToAbsolute(Paths.Normalize(h.userHome), w.cwd)
  }

  lemma PlainNames()
    ensures Paths.IsNormal("aggregate-backup") && Paths.IsNormal("conf") && Paths.IsNormal("webapp")
    ensures Paths.IsNormal("jdbc.properties") && Paths.IsNormal("security.properties")
  {
  }

  /** `BACKUP`, `BACKUP_CONF` and `BACKUP_WEBAPP`. */
  function BackupDir(home: string): (p: string)
    requires Paths.IsNormal(home)
    ensures Paths.IsNormal(p)
  {
    PlainNames();
    Paths.Resolve(home, "aggregate-backup")
  }

  function BackupConf(home: string): (p: string)
    requires Paths.IsNormal(home)
    ensures Paths.IsNormal(p)
  {
    PlainNames();
    Paths.Resolve(BackupDir(home), "conf")
  }

  function BackupWebapp(home: string): (p: string)
    requires Paths.IsNormal(home)
    ensures Paths.IsNormal(p)
  {
    PlainNames();
    Paths.Resolve(BackupDir(home), "webapp")
  }

  /** On an absolute home other than the root, the backups sit two levels
      below it. */
  lemma BackupUnderHome(home: string)
    requires Paths.IsNormal(home) && Paths.IsAbsolute(home) && home != "/"
    ensures BackupConf(home) == home + "/aggregate-backup/conf"
    ensures BackupWebapp(home) == home + "/aggregate-backup/webapp"
  {
    PlainNames();
    Paths.ResolveUnder(home, "aggregate-backup");
    Paths.ResolveUnder(BackupDir(home), "conf");
    Paths.ResolveUnder(BackupDir(home), "webapp");
  }

  // ---------------------------------------------------------------------------
  // The script

  /** The commands of the update, stage by stage, and the literal the
      version file gets. */
  datatype Script = Script(
    stop: seq<string>,
    backup: seq<string>,
    deploy: seq<string>,
    cleanup: seq<string>,
    diffs: seq<string>,
    version: string)

  function ScriptFor(home: string, today: string, v: Versions.Version): (sc: Script)
    requires Paths.IsNormal(home)
    ensures |sc.stop| == 1 && |sc.backup| == 5 && |sc.deploy| == 10 && |sc.cleanup| == 2 && |sc.diffs| == 2
    ensures sc.version == Versions.ToString(v)
    ensures sc.backup[4] == "zip -q -r " + BackupWebapp(home) + "/ODK-Aggregate-backup-" + today + ".zip " + DeployedWebapp
    ensures sc.deploy[2] == "wget -O " + War + " " + Versions.DownloadUrl(v)
  {
    PlainNames();
    var conf := BackupConf(home);
    var savedJdbc := Paths.Resolve(conf, "jdbc.properties");
    var savedSecurity := Paths.Resolve(conf, "security.properties");
    Script(
      ["service tomcat8 stop"],
      [ "mkdir -p " + conf,
        "cp " + DeployedJdbc + " " + savedJdbc,
        "cp " + DeployedSecurity + " " + savedSecurity,
        "mkdir -p " + BackupWebapp(home),
        "zip -q -r " + BackupWebapp(home) + "/ODK-Aggregate-backup-" + today + ".zip " + DeployedWebapp ],
      [ "rm -r " + DeployedWebapp,
        "mkdir -p " + DeployedWebapp,
        "wget -O " + War + " " + Versions.DownloadUrl(v),
        "unzip -qq " + War + " -d " + DeployedWebapp,
        "cp " + DeployedJdbc + " " + DeployedJdbcOriginal,
        "cp " + DeployedSecurity + " " + DeployedSecurityOriginal,
        "sed -i s/^#.*$//g " + DeployedSecurityOriginal,
        "cp " + savedJdbc + " " + DeployedJdbc,
        "cp " + savedSecurity + " " + DeployedSecurity,
        "chown -R tomcat8:tomcat8 " + DeployedWebapp ],
      ["rm " + War, "rm -rf " + conf],
      [ "diff -u --color -B -w " + DeployedJdbc + " " + DeployedJdbcOriginal,
        "diff -u --color -B -w " + DeployedSecurity + " " + DeployedSecurityOriginal ],
      Versions.ToString(v))
  }

  /** Lines only. */
  function Said(lines: seq<string>): (plan: seq<Action>)
    ensures |plan| == |lines| && forall i :: 0 <= i < |lines| ==> plan[i] == Say(lines[i])
  {
    seq(|lines|, i requires 0 <= i < |lines| => Say(lines[i]))
  }

  /** Only lines and commands whose failure stops the plan: nothing is
      written and nothing is allowed to fail. */
  predicate AllMandatory(plan: seq<Action>) {
    forall i :: 0 <= i < |plan| ==> plan[i].Say? || (plan[i].Cmd? && !plan[i].ignoreErrors)
  }

  lemma AllMandatoryAppend(p: seq<Action>, q: seq<Action>)
    requires AllMandatory(p) && AllMandatory(q)
    ensures AllMandatory(p + q)
  {
    forall i | |p| <= i < |p + q| ensures (p + q)[i] == q[i - |p|] {
    }
  }

  lemma BlockAllMandatory(name: string, commands: seq<string>)
    ensures AllMandatory(Block(name, Commanded(commands, false)))
  {
    var body := Commanded(commands, false);
    var b := Block(name, body);
    forall i | 1 <= i < |body| + 1 ensures b[i] == body[i - 1] {
      assert b[1..|body| + 1][i - 1] == b[i];
    }
    forall i | |body| + 1 <= i < |b| ensures b[i].Say? {
      assert b[|body| + 1..][i - |body| - 1] == b[i];
    }
  }

  lemma BlockCannotStop(name: string, commands: seq<string>)
    ensures CannotStop(Block(name, Commanded(commands, true)))
  {
    var body := Commanded(commands, true);
    var b := Block(name, body);
    forall i | 1 <= i < |body| + 1 ensures b[i] == body[i - 1] {
      assert b[1..|body| + 1][i - 1] == b[i];
    }
    forall i | |body| + 1 <= i < |b| ensures b[i].Say? {
      assert b[|body| + 1..][i - |body| - 1] == b[i];
    }
  }

  /** Stopping, backing up and deploying: every command mandatory. */
  function Mandatory(sc: Script): (plan: seq<Action>)
    ensures AllMandatory(plan)
  {
    var a := Block(StopBlock, Commanded(sc.stop, false));
    var b := Block(BackupBlock, Commanded(sc.backup, false));
    var c := Block(DeployBlock, Commanded(sc.deploy, false));
    BlockAllMandatory(StopBlock, sc.stop);
    BlockAllMandatory(BackupBlock, sc.backup);
    BlockAllMandatory(DeployBlock, sc.deploy);
    AllMandatoryAppend(a, b);
    AllMandatoryAppend(a + b, c);
    a + b + c
  }

  /** Cleaning up and comparing with errors ignored, then the version file,
      then a blank line: nothing in it can stop the plan. */
  function BestEffort(sc: Script): (plan: seq<Action>)
    ensures CannotStop(plan)
    ensures |plan| >= 2 && plan[|plan| - 2] == Put(VersionFile, sc.version)
  {
    var a := Block(CleanupBlock, Commanded(sc.cleanup, true));
    var b := Said(ClosingLines);
    var c := Commanded(sc.diffs, true);
    var d: seq<Action> := [Put(VersionFile, sc.version), Say("")];
    BlockCannotStop(CleanupBlock, sc.cleanup);
    CannotStopAppend(a, b);
    CannotStopAppend(a + b, c);
    CannotStopAppend(a + b + c, d);
    a + b + c + d
  }

  /** The whole script. Every command that can stop it comes before the
      version file is written. */
  function Plan(sc: Script): (plan: seq<Action>)
    ensures forall i, j :: 0 <= i < |plan| && 0 <= j < |plan| && plan[i].Cmd? && !plan[i].ignoreErrors && plan[j].Put? ==> i < j
    ensures exists j :: 0 <= j < |plan| && plan[j] == Put(VersionFile, sc.version)
  {
    var m := Mandatory(sc);
    var e := BestEffort(sc);
    MandatoryBeforeWrites(m, e);
    assert (m + e)[|m| + |e| - 2] == e[|e| - 2];
    m + e
  }

  /** Joining a plan of mandatory steps and one that cannot stop puts every
      mandatory command before every write. */
  lemma MandatoryBeforeWrites(m: seq<Action>, e: seq<Action>)
    requires AllMandatory(m) && CannotStop(e)
    ensures var p := m + e;
            forall i, j :: 0 <= i < |p| && 0 <= j < |p| && p[i].Cmd? && !p[i].ignoreErrors && p[j].Put? ==> i < j
  {
    var p := m + e;
    forall i | |m| <= i < |p| ensures !(p[i].Cmd? && !p[i].ignoreErrors) {
      assert p[i] == e[i - |m|];
    }
    forall j | 0 <= j < |m| ensures !p[j].Put? {
      assert p[j] == m[j];
    }
  }

  function StartPlan(): seq<Action> {
    Block(StartBlock, [Cmd("service tomcat8 start", false)])
  }

  // ---------------------------------------------------------------------------
  // The run

  /** `readAllBytes(VERSION_FILE)`, trimmed and parsed: a missing file throws
      an UncheckedIOException, and a file not holding a version throws too. */
  function Installed(files: map<string, string>): (r: Result<Versions.Version, Failure>)
    ensures VersionFile !in files ==> r == Failure(Unreadable(VersionFile))
    ensures VersionFile in files ==> (r.Success? <==> Versions.Read(files[VersionFile]).Success?)
    ensures VersionFile in files && r.Success? ==> r.value == Versions.Read(files[VersionFile]).value
    ensures VersionFile in files && r.Failure? ==> r.error == BadVersion(Versions.Read(files[VersionFile]).error)
  {
    if VersionFile !in files then Failure(Unreadable(VersionFile))
    else
      match Versions.Read(files[VersionFile])
      case Success(v) => Success(v)
      case Failure(e) => Failure(BadVersion(e))
  }

  /** `latestVersion`: the greatest version listed, betas left out unless
      asked for. */
  function LatestOf(available: seq<Releases.Release>, includeBeta: bool): Option<Versions.Version> {
    Releases.Max(Releases.VersionsOf(Releases.BetaFilter(available, includeBeta)))
  }

  /** The error lines for a requested version nobody lists: the version, then
      every listed release's literal. */
  function UnavailableLines(v: Versions.Version, available: seq<Releases.Release>): (lines: seq<string>)
    ensures |lines| == |available| + 2
    ensures lines[0] == "Requested version " + Versions.ToString(v) + " doesn't exist." && lines[1] == ChooseLine
    ensures forall i :: 0 <= i < |available| ==> lines[2 + i] == "\t- " + Versions.ToString(available[i].version)
  {
    ["Requested version " + Versions.ToString(v) + " doesn't exist.", ChooseLine]
    + seq(|available|, i requires 0 <= i < |available| => "\t- " + Versions.ToString(available[i].version))
  }

  /** The first two lines of the version report. */
  function ReportHead(installed: Versions.Version, requested: Option<Versions.Version>): seq<string> {
    [ "Installed version: " + Versions.ToString(installed),
      "Requested version: " + (if requested.Some? then Versions.ToString(requested.value) else DefaultRequest) ]
  }

  function ReportTail(latest: Versions.Version, selected: Versions.Version): seq<string> {
    ["   Latest version: " + Versions.ToString(latest), " Selected version: " + Versions.ToString(selected), ""]
  }

  /** From the version checks to the update decision: a requested version
      must be listed (else the list is printed and the run exits with 1),
      some version must be selectable (else exit 1), the latest version is
      printed even when the requested one was selected (and its absence
      throws), and selecting the installed version again without force ends
      the run with status 0. */
  function Choose(args: Args, installed: Versions.Version, available: seq<Releases.Release>, s: State): (r: Step<Versions.Version>)
    ensures r.state.ran == s.ran && r.state.input == s.input
    ensures args.requested.Some? && !Releases.Lists(available, args.requested.value) ==>
              r == ExitWith(PrintErrors(s, UnavailableLines(args.requested.value, available)), 1)
    ensures args.requested.None? && LatestOf(available, args.includeBeta).None? ==>
              r == ExitWith(PrintErrors(s, [CannotInstallMessage]), 1)
    ensures args.requested.Some? && Releases.Lists(available, args.requested.value) && LatestOf(available, args.includeBeta).None? ==>
              r == Halt(PrintLines(s, ReportHead(installed, args.requested)), Raised(NoValue))
    ensures var latest := LatestOf(available, args.includeBeta);
            latest.Some? && (args.requested.Some? ==> Releases.Lists(available, args.requested.value)) ==>
              var selected := if args.requested.Some? then args.requested.value else latest.value;
              && (r.Next? <==> args.force || !Versions.Equals(selected, installed))
              && (r.Next? ==> r.value == selected)
              && (r.Halt? ==> r.end == Exited(0) && |r.state.trace| > 0 && r.state.trace[|r.state.trace| - 1] == Out(NoActionMessage))
  {
    var latest := LatestOf(available, args.includeBeta);
    Optionals.RaceOfTwo(args.requested, latest);
    if args.requested.Some? && !Releases.Lists(available, args.requested.value) then
      ExitWith(PrintErrors(s, UnavailableLines(args.requested.value, available)), 1)
    else
      match Optionals.Race([args.requested, latest])
      case None => ExitWith(PrintErrors(s, [CannotInstallMessage]), 1)
      case Some(selected) =>
        var s1 := PrintLines(s, ReportHead(installed, args.requested));
        match latest
        case None => Halt(s1, Raised(NoValue))
        case Some(l) =>
          var s2 := PrintLines(s1, ReportTail(l, selected));
          if Versions.Equals(selected, installed) && !args.force then Exit(Emit(s2, Out(NoActionMessage)))
          else if Versions.Equals(selected, installed) then Next(selected, PrintLines(s2, [ForcingMessage, ""]))
          else Next(selected, s2)
  }

  /** The modes, then the title. */
  function Titled(args: Args, s: State): (r: State)
    ensures r.ran == s.ran && r.input == s.input && r.alwaysYes == args.alwaysYes
  {
    PrintLines(SetAlwaysYesMode(SetVerboseMode(s, args.verbose), args.alwaysYes), Title)
  }

  /** Everything before the first command: the installed version, the
      catalog (empty on an unsuccessful answer; an unreachable server throws)
      and the choice. */
  function Selected(args: Args, w: World, s: State): (r: Step<Versions.Version>)
    ensures r.state.ran == s.ran && r.state.input == s.input
    ensures Installed(w.files).Failure? ==> r == Halt(Titled(args, s), Raised(Installed(w.files).error))
    ensures var f := Fetch(Releases.AllLegacyRequest(), w.catalog);
            Installed(w.files).Success? && f.Failure? ==> r == Halt(Titled(args, s), Raised(f.error))
    ensures var f := Fetch(Releases.AllLegacyRequest(), w.catalog);
            Installed(w.files).Success? && f.Success? ==> r == Choose(args, Installed(w.files).value, Http.OrElse(f.value, []), Titled(args, s))
  {
    var s1 := Titled(args, s);
    var installed :- Lift(s1, Installed(w.files));
    var fetched :- Lift(s1, Fetch(Releases.AllLegacyRequest(), w.catalog));
    Choose(args, installed.0, Http.OrElse(fetched.0, []), s1)
  }

  /** The script, then the question whether to start Tomcat. The run ends
      with status 0 unless a mandatory command fails or the input runs out. */
  function Finish(s: State, sc: Script): (r: Step<()>)
    ensures r.Halt?
    ensures var done := Perform(s, Plan(sc));
            && (done.Halt? ==> r == done)
            && (done.Next? ==>
                  var c := Confirm(done.state, StartQuestion);
                  && (c.Halt? ==> r == Halt(c.state, c.end))
                  && (c.Next? && !c.value ==> r == Halt(c.state, Exited(0)))
                  && (c.Next? && c.value ==>
                        var started := Perform(c.state, StartPlan());
                        r.state == started.state && (r.end == Exited(0) <==> started.Next?) && (started.Halt? ==> r == started)))
  {
    var done :- Perform(s, Plan(sc));
    var answer :- Confirm(done.1, StartQuestion);
    if answer.0 then
      var started :- Perform(answer.1, StartPlan());
      Exit(started.1)
    else Exit(answer.1)
  }

  /** `UpdateOperation.execute` of the older updater. */
  function Run(args: Args, h: Host, w: World, s: State): (r: Step<()>)
    requires Ready(w)
    ensures r.Halt?
    ensures Selected(args, w, s).Halt? ==> r == Halt(Selected(args, w, s).state, Selected(args, w, s).end)
    ensures Selected(args, w, s).Next? ==>
              r == Finish(Selected(args, w, s).state, ScriptFor(Home(h, w), h.today, Selected(args, w, s).value))
  {
    var selected :- Selected(args, w, s);
    Finish(selected.1, ScriptFor(Home(h, w), h.today, selected.0))
  }

  // ---------------------------------------------------------------------------
  // What the script does

  lemma {:induction false} SaidShape(lines: seq<string>)
    ensures Commands(Said(lines)) == [] && CommandCount(Said(lines)) == 0 && PutsOf(Said(lines)) == []
    ensures CannotStop(Said(lines))
    decreases |lines|
  {
    if |lines| > 0 {
      assert Said(lines)[1..] == Said(lines[1..]);
      SaidShape(lines[1..]);
    }
  }

  /** A block of commands sharing one flag: those commands, no file, and
      success exactly when each mandatory one answers 0. */
  lemma CommandedBlock(name: string, commands: seq<string>, ignoreErrors: bool, codes: nat -> int, n: nat)
    ensures Commands(Block(name, Commanded(commands, ignoreErrors))) == Flagged(commands, ignoreErrors)
    ensures CommandCount(Block(name, Commanded(commands, ignoreErrors))) == |commands|
    ensures PutsOf(Block(name, Commanded(commands, ignoreErrors))) == []
    ensures Succeeds(Block(name, Commanded(commands, ignoreErrors)), codes, n) <==>
              ignoreErrors || forall j :: n <= j < n + |commands| ==> codes(j) == 0
  {
    BlockLikeBody(name, Commanded(commands, ignoreErrors), codes, n);
    CommandsOfCommanded(commands, ignoreErrors);
    CommandedShape(commands, ignoreErrors, codes, n);
  }

  /** The mandatory part: its commands in order, no file, and success exactly
      when all of them answer 0. */
  lemma MandatoryShape(sc: Script, codes: nat -> int, n: nat)
    ensures Commands(Mandatory(sc)) == Flagged(sc.stop + sc.backup + sc.deploy, false)
    ensures CommandCount(Mandatory(sc)) == |sc.stop| + |sc.backup| + |sc.deploy|
    ensures PutsOf(Mandatory(sc)) == []
    ensures Succeeds(Mandatory(sc), codes, n) <==>
              forall j :: n <= j < n + |sc.stop| + |sc.backup| + |sc.deploy| ==> codes(j) == 0
  {
    MandatoryCommands(sc);
    MandatorySucceeds(sc, codes, n);
  }

  lemma MandatoryCommands(sc: Script)
    ensures Commands(Mandatory(sc)) == Flagged(sc.stop + sc.backup + sc.deploy, false)
    ensures CommandCount(Mandatory(sc)) == |sc.stop| + |sc.backup| + |sc.deploy|
    ensures PutsOf(Mandatory(sc)) == []
  {
    var a := Block(StopBlock, Commanded(sc.stop, false));
    var b := Block(BackupBlock, Commanded(sc.backup, false));
    var c := Block(DeployBlock, Commanded(sc.deploy, false));
    CommandedBlock(StopBlock, sc.stop, false, x => 0, 0);
    CommandedBlock(BackupBlock, sc.backup, false, x => 0, 0);
    CommandedBlock(DeployBlock, sc.deploy, false, x => 0, 0);
    PlanAppend(a, b);
    PlanAppend(a + b, c);
    FlaggedAppend(sc.stop, sc.backup, false);
    FlaggedAppend(sc.stop + sc.backup, sc.deploy, false);
  }

  lemma MandatorySucceeds(sc: Script, codes: nat -> int, n: nat)
    ensures Succeeds(Mandatory(sc), codes, n) <==>
              forall j :: n <= j < n + |sc.stop| + |sc.backup| + |sc.deploy| ==> codes(j) == 0
  {
    var a := Block(StopBlock, Commanded(sc.stop, false));
    var b := Block(BackupBlock, Commanded(sc.backup, false));
    var c := Block(DeployBlock, Commanded(sc.deploy, false));
    CommandedBlock(StopBlock, sc.stop, false, codes, n);
    CommandedBlock(BackupBlock, sc.backup, false, codes, n + |sc.stop|);
    CommandedBlock(DeployBlock, sc.deploy, false, codes, n + |sc.stop| + |sc.backup|);
    AllZeroThree(a, b, c, |sc.stop|, |sc.backup|, |sc.deploy|, codes, n);
    assert Mandatory(sc) == a + b + c;
  }

  /** Three plans each of which succeeds exactly when its own run of exit
      codes is all zero succeed together exactly when the joined run is. */
  lemma AllZeroThree(a: seq<Action>, b: seq<Action>, c: seq<Action>, na: nat, nb: nat, nc: nat, codes: nat -> int, n: nat)
    requires CommandCount(a) == na && CommandCount(b) == nb
    requires Succeeds(a, codes, n) <==> forall j :: n <= j < n + na ==> codes(j) == 0
    requires Succeeds(b, codes, n + na) <==> forall j :: n + na <= j < n + na + nb ==> codes(j) == 0
    requires Succeeds(c, codes, n + na + nb) <==> forall j :: n + na + nb <= j < n + na + nb + nc ==> codes(j) == 0
    ensures Succeeds(a + b + c, codes, n) <==> forall j :: n <= j < n + na + nb + nc ==> codes(j) == 0
  {
    SucceedsAppend(a, b, codes, n);
    SucceedsAppend(a + b, c, codes, n);
    ZeroRangesJoin(codes, n, na, nb);
    ZeroRangesJoin(codes, n, na + nb, nc);
  }

  /** Two adjacent runs of zero exit codes are one run. */
  lemma ZeroRangesJoin(codes: nat -> int, n: nat, a: nat, b: nat)
    ensures (forall j :: n <= j < n + a ==> codes(j) == 0) && (forall j :: n + a <= j < n + a + b ==> codes(j) == 0)
            <==> forall j :: n <= j < n + a + b ==> codes(j) == 0
  {
  }

  /** The best-effort part cannot stop the update; it runs the cleanup and
      the comparisons and writes the version file once. */
  lemma BestEffortShape(sc: Script)
    ensures CannotStop(BestEffort(sc))
    ensures Commands(BestEffort(sc)) == Flagged(sc.cleanup + sc.diffs, true)
    ensures PutsOf(BestEffort(sc)) == [(VersionFile, sc.version)]
  {
    var a := Block(CleanupBlock, Commanded(sc.cleanup, true));
    var b := Said(ClosingLines);
    var c := Commanded(sc.diffs, true);
    var d: seq<Action> := [Put(VersionFile, sc.version), Say("")];
    PutThenBlank(VersionFile, sc.version);
    CommandedBlock(CleanupBlock, sc.cleanup, true, x => 0, 0);
    SaidShape(ClosingLines);
    CommandsOfCommanded(sc.diffs, true);
    CommandedShape(sc.diffs, true, x => 0, 0);
    PlanAppend(a, b);
    PlanAppend(a + b, c);
    PlanAppend(a + b + c, d);
    FlaggedAppend(sc.cleanup, sc.diffs, true);
    assert CannotStop(a) by {
      var p := Block(CleanupBlock, Commanded(sc.cleanup, true));
      forall i | 0 <= i < |p| ensures !p[i].Abort? && !(p[i].Cmd? && !p[i].ignoreErrors) {
        if 1 <= i < |sc.cleanup| + 1 {
          assert p[i] == Commanded(sc.cleanup, true)[i - 1];
        }
      }
    }
    assert CannotStop(c);
    CannotStopAppend(a, b);
    CannotStopAppend(a + b, c);
    CannotStopAppend(a + b + c, d);
  }

  lemma PutThenBlank(path: string, content: string)
    ensures var d: seq<Action> := [Put(path, content), Say("")];
            Commands(d) == [] && PutsOf(d) == [(path, content)] && CannotStop(d)
  {
    var d: seq<Action> := [Put(path, content), Say("")];
    var e: seq<Action> := [Say("")];
    assert d[1..] == e && e[1..] == [];
    assert Commands(e) == [] && PutsOf(e) == [];
  }

  /** The script's commands: stopping, backing up and deploying with errors
      stopping the update, then cleaning up and comparing with errors
      ignored; and its one file, the version file with the selected literal. */
  lemma PlanCommands(sc: Script)
    ensures Commands(Plan(sc)) == Flagged(sc.stop + sc.backup + sc.deploy, false) + Flagged(sc.cleanup + sc.diffs, true)
    ensures PutsOf(Plan(sc)) == [(VersionFile, sc.version)]
  {
    MandatoryShape(sc, x => 0, 0);
    BestEffortShape(sc);
    PlanAppend(Mandatory(sc), BestEffort(sc));
  }

  /** The script completes exactly when every stopping, backup and deploy
      command answers 0. */
  lemma PlanSucceeds(sc: Script, codes: nat -> int, n: nat)
    ensures Succeeds(Plan(sc), codes, n) <==>
              forall j :: n <= j < n + |sc.stop| + |sc.backup| + |sc.deploy| ==> codes(j) == 0
  {
    MandatoryShape(sc, codes, n);
    BestEffortShape(sc);
    SucceedsAppend(Mandatory(sc), BestEffort(sc), codes, n);
    CannotStopSucceeds(BestEffort(sc), codes, n + CommandCount(Mandatory(sc)));
  }

  /** A failing mandatory command stops the script before the version file
      is written: the file keeps the installed version. */
  lemma FailedUpdateKeepsVersionFile(s: State, sc: Script)
    requires !Succeeds(Mandatory(sc), s.exitCode, s.ran)
    ensures Perform(s, Plan(sc)).Halt?
    ensures WritesOf(Perform(s, Plan(sc)).state.trace) == WritesOf(s.trace)
  {
    MandatoryShape(sc, s.exitCode, s.ran);
    PerformReturnsIff(s, Mandatory(sc));
    PerformAppend(s, Mandatory(sc), BestEffort(sc));
    PerformWrites(s, Mandatory(sc));
  }

  /** A completed script has run all its commands and written the selected
      literal to the version file, last. */
  lemma CompletedUpdateWritesVersion(s: State, sc: Script)
    requires Succeeds(Mandatory(sc), s.exitCode, s.ran)
    ensures Perform(s, Plan(sc)).Next?
    ensures Perform(s, Plan(sc)).state.ran == s.ran + |sc.stop| + |sc.backup| + |sc.deploy| + |sc.cleanup| + |sc.diffs|
    ensures WritesOf(Perform(s, Plan(sc)).state.trace) == WritesOf(s.trace) + [(VersionFile, sc.version)]
  {
    MandatoryShape(sc, s.exitCode, s.ran);
    PlanSucceeds(sc, s.exitCode, s.ran);
    PlanCommands(sc);
    PerformReturnsIff(s, Plan(sc));
    PerformWrites(s, Plan(sc));
  }

  /** The update's script runs 16 commands that can stop it, then 4 that
      cannot, and downloads the selected version's war from its GitHub URL. */
  lemma ScriptCounts(home: string, today: string, v: Versions.Version)
    requires Paths.IsNormal(home)
    ensures var sc := ScriptFor(home, today, v);
            var cs := Commands(Plan(sc));
            && |cs| == 20
            && (forall i :: 0 <= i < 16 ==> !cs[i].1)
            && (forall i :: 16 <= i < 20 ==> cs[i].1)
            && cs[8] == ("wget -O " + War + " " + Versions.DownloadUrl(v), false)
  {
    var sc := ScriptFor(home, today, v);
    var m := sc.stop + sc.backup + sc.deploy;
    assert Commands(Plan(sc)) == Flagged(m, false) + Flagged(sc.cleanup + sc.diffs, true) by {
      PlanCommands(sc);
    }
    assert |m| == 16 && m[8] == sc.deploy[2];
    FlaggedJoin(m, sc.cleanup + sc.diffs);
  }

  /** Mandatory commands followed by ones that ignore errors, flagged. */
  lemma FlaggedJoin(a: seq<string>, b: seq<string>)
    ensures var cs := Flagged(a, false) + Flagged(b, true);
            && |cs| == |a| + |b|
            && (forall i :: 0 <= i < |a| ==> cs[i] == (a[i], false))
            && (forall i :: |a| <= i < |a| + |b| ==> cs[i].1)
  {
  }

  /** Starting Tomcat runs one mandatory command. */
  lemma StartOutcome(s: State)
    ensures Perform(s, StartPlan()).Next? <==> s.exitCode(s.ran) == 0
    ensures Perform(s, StartPlan()).state.ran == s.ran + 1
  {
    var body: seq<Action> := [Cmd("service tomcat8 start", false)];
    BlockFraming(s, StartBlock, body);
    assert body[1..] == [];
  }

  // ---------------------------------------------------------------------------
  // Properties of a run

  /** Without the version file the run throws before any command. */
  lemma MissingVersionFileThrows(args: Args, h: Host, w: World, s: State)
    requires Ready(w) && VersionFile !in w.files
    ensures Run(args, h, w, s).end == Raised(Unreadable(VersionFile))
    ensures Run(args, h, w, s).state.ran == s.ran
  {
  }

  /** A requested version the catalog does not list: every listed literal is
      printed on the error stream and the run exits with 1 before any
      command. */
  lemma UnknownRequestedExitsOne(args: Args, h: Host, w: World, s: State)
    requires Ready(w) && Installed(w.files).Success? && Fetch(Releases.AllLegacyRequest(), w.catalog).Success?
    requires var available := Http.OrElse(Fetch(Releases.AllLegacyRequest(), w.catalog).value, []);
             args.requested.Some? && !Releases.Lists(available, args.requested.value)
    ensures var available := Http.OrElse(Fetch(Releases.AllLegacyRequest(), w.catalog).value, []);
            var r := Run(args, h, w, s);
            && r.end == Exited(1) && r.state.ran == s.ran
            && forall i :: 0 <= i < |available| ==> Err("\t- " + Versions.ToString(available[i].version)) in r.state.trace
  {
    var available := Http.OrElse(Fetch(Releases.AllLegacyRequest(), w.catalog).value, []);
    UnknownRequestedListed(args, Installed(w.files).value, available, Titled(args, s));
  }

  lemma UnknownRequestedListed(args: Args, installed: Versions.Version, available: seq<Releases.Release>, s: State)
    requires args.requested.Some? && !Releases.Lists(available, args.requested.value)
    ensures var r := Choose(args, installed, available, s);
            && r.Halt? && r.end == Exited(1)
            && forall i :: 0 <= i < |available| ==> Err("\t- " + Versions.ToString(available[i].version)) in r.state.trace
  {
    var lines := UnavailableLines(args.requested.value, available);
    ErrorsShown(s, lines);
    forall i | 0 <= i < |available| ensures Err("\t- " + Versions.ToString(available[i].version)) in PrintErrors(s, lines).trace {
      assert Err(lines[2 + i]) in PrintErrors(s, lines).trace;
    }
  }

  /** With nothing requested and nothing selectable the run exits with 1
      before any command. */
  lemma NothingSelectableExitsOne(args: Args, h: Host, w: World, s: State)
    requires Ready(w) && Installed(w.files).Success? && Fetch(Releases.AllLegacyRequest(), w.catalog).Success?
    requires var available := Http.OrElse(Fetch(Releases.AllLegacyRequest(), w.catalog).value, []);
             args.requested.None? && LatestOf(available, args.includeBeta).None?
    ensures Run(args, h, w, s).end == Exited(1) && Run(args, h, w, s).state.ran == s.ran
    ensures var t := Run(args, h, w, s).state.trace;
            |t| >= 2 && t[|t| - 2..] == [Err(CannotInstallMessage), Out(SupportLine)]
  {
    var available := Http.OrElse(Fetch(Releases.AllLegacyRequest(), w.catalog).value, []);
    NothingSelectableChoice(args, Installed(w.files).value, available, Titled(args, s));
  }

  lemma NothingSelectableChoice(args: Args, installed: Versions.Version, available: seq<Releases.Release>, s: State)
    requires args.requested.None? && LatestOf(available, args.includeBeta).None?
    ensures var r := Choose(args, installed, available, s);
            && r.Halt? && r.end == Exited(1)
            && |r.state.trace| >= 2 && r.state.trace[|r.state.trace| - 2..] == [Err(CannotInstallMessage), Out(SupportLine)]
  {
    var e := PrintErrors(s, [CannotInstallMessage]);
    assert e.trace == s.trace + [Err(CannotInstallMessage)];
  }

  /** Only betas listed, without the flag: there is no latest version. */
  lemma OnlyBetasNoLatest(available: seq<Releases.Release>)
    requires forall x :: x in available ==> !Releases.IsNotBeta(x)
    ensures LatestOf(available, false).None?
  {
  }

  /** The latest version is printed even when a listed requested version
      was selected, so with no latest version the run throws, after the
      first two report lines and before any command. */
  lemma MissingLatestThrows(args: Args, h: Host, w: World, s: State)
    requires Ready(w) && Installed(w.files).Success? && Fetch(Releases.AllLegacyRequest(), w.catalog).Success?
    requires var available := Http.OrElse(Fetch(Releases.AllLegacyRequest(), w.catalog).value, []);
             && args.requested.Some? && Releases.Lists(available, args.requested.value)
             && LatestOf(available, args.includeBeta).None?
    ensures Run(args, h, w, s) == Halt(PrintLines(Titled(args, s), ReportHead(Installed(w.files).value, args.requested)), Raised(NoValue))
    ensures Run(args, h, w, s).state.ran == s.ran
  {
    var available := Http.OrElse(Fetch(Releases.AllLegacyRequest(), w.catalog).value, []);
    var c := Choose(args, Installed(w.files).value, available, Titled(args, s));
    assert Selected(args, w, s) == c;
    assert Run(args, h, w, s) == Halt(c.state, c.end);
  }

  /** Selecting the installed version again without force prints "No action
      needed" and exits with 0 before any command. */
  lemma UpToDateExitsZero(args: Args, h: Host, w: World, s: State)
    requires Ready(w) && Installed(w.files).Success? && Fetch(Releases.AllLegacyRequest(), w.catalog).Success?
    requires var available := Http.OrElse(Fetch(Releases.AllLegacyRequest(), w.catalog).value, []);
             var latest := LatestOf(available, args.includeBeta);
             && latest.Some? && (args.requested.Some? ==> Releases.Lists(available, args.requested.value))
             && Versions.Equals(if args.requested.Some? then args.requested.value else latest.value, Installed(w.files).value)
             && !args.force
    ensures var r := Run(args, h, w, s);
            && r.end == Exited(0) && r.state.ran == s.ran && r.state.trace[|r.state.trace| - 1] == Out(NoActionMessage)
  {
    var available := Http.OrElse(Fetch(Releases.AllLegacyRequest(), w.catalog).value, []);
    UpToDateChoice(args, Installed(w.files).value, available, Titled(args, s));
  }

  lemma UpToDateChoice(args: Args, installed: Versions.Version, available: seq<Releases.Release>, s: State)
    requires var latest := LatestOf(available, args.includeBeta);
             && latest.Some? && (args.requested.Some? ==> Releases.Lists(available, args.requested.value))
             && Versions.Equals(if args.requested.Some? then args.requested.value else latest.value, installed)
             && !args.force
    ensures var r := Choose(args, installed, available, s);
            && r.Halt? && r.end == Exited(0) && |r.state.trace| > 0 && r.state.trace[|r.state.trace| - 1] == Out(NoActionMessage)
  {
  }

  /** Once a version is selected the script runs with it: the run completes
      with status 0 only if the script finished cleanly for the selected
      version. */
  lemma UpdateRunsScript(args: Args, h: Host, w: World, s: State)
    requires Ready(w) && Selected(args, w, s).Next?
    ensures var p := Selected(args, w, s);
            var sc := ScriptFor(Home(h, w), h.today, p.value);
            && sc.version == Versions.ToString(p.value)
            && (Run(args, h, w, s).end == Exited(0) ==> FinishedCleanly(p.state, sc))
  {
    var p := Selected(args, w, s);
    var sc := ScriptFor(Home(h, w), h.today, p.value);
    ScriptRun(p.state, sc);
  }

  /** What a script with 16 mandatory commands has done when it finished
      cleanly from `s`: all of them answered 0, and it returned having
      written the version file with its literal and nothing else. */
  predicate FinishedCleanly(s: State, sc: Script) {
    && (forall j :: s.ran <= j < s.ran + 16 ==> s.exitCode(j) == 0)
    && Perform(s, Plan(sc)).Next?
    && WritesOf(Perform(s, Plan(sc)).state.trace) == WritesOf(s.trace) + [(VersionFile, sc.version)]
  }

  /** A script with 16 mandatory commands, run from any state: status 0 at
      the end means it finished cleanly. */
  lemma ScriptRun(s: State, sc: Script)
    requires |sc.stop| + |sc.backup| + |sc.deploy| == 16
    ensures Finish(s, sc).end == Exited(0) ==> FinishedCleanly(s, sc)
  {
    FinishedMeansSucceeded(s, sc);
    PlanSucceeds(sc, s.exitCode, s.ran);
    if Finish(s, sc).end == Exited(0) {
      MandatoryShape(sc, s.exitCode, s.ran);
      CompletedUpdateWritesVersion(s, sc);
    }
  }

  /** A run that ends with status 0 got through every mandatory command. */
  lemma FinishedMeansSucceeded(s: State, sc: Script)
    ensures Finish(s, sc).end == Exited(0) ==> Succeeds(Plan(sc), s.exitCode, s.ran)
  {
    PerformReturnsIff(s, Plan(sc));
  }

  /** Declining to start Tomcat ends the run with status 0 and no further
      command. */
  lemma DeclineLeavesTomcatStopped(s: State, sc: Script)
    requires Perform(s, Plan(sc)).Next?
    requires var c := Confirm(Perform(s, Plan(sc)).state, StartQuestion); c.Next? && !c.value
    ensures Finish(s, sc).end == Exited(0)
    ensures Finish(s, sc).state.ran == Perform(s, Plan(sc)).state.ran
  {
  }

  /** What the beta filter keeps: the listed releases that pass it. */
  lemma BetaFilterMembers(all: seq<Releases.Release>, includeBeta: bool)
    ensures forall x :: x in Releases.BetaFilter(all, includeBeta) <==> x in all && (includeBeta || Releases.IsNotBeta(x))
  {
    var kept := Releases.BetaFilter(all, includeBeta);
    forall x ensures x in kept <==> x in all && (includeBeta || Releases.IsNotBeta(x)) {
      assert x in kept <==> x in multiset(kept);
      assert x in all <==> x in multiset(all);
    }
  }

  /** The greatest of some versions is one of them and below none. */
  lemma MaxOfKept(kept: seq<Releases.Release>)
    requires forall x :: x in kept ==> Releases.IsUpdateable(x)
    requires |kept| > 0
    ensures var v := Releases.Max(Releases.VersionsOf(kept)).value;
            && (exists x :: x in kept && x.version == v)
            && forall x :: x in kept ==> !(Versions.CompareTo(v, x.version) < 0)
  {
    var vs := Releases.VersionsOf(kept);
    assert Releases.NoLegacyVersion(vs) by {
      forall i | 0 <= i < |vs| ensures !Versions.IsLegacy(vs[i]) {
        assert kept[i] in kept;
      }
    }
    Releases.MaxIsGreatest(vs);
    var v := Releases.Max(vs).value;
    var i :| 0 <= i < |vs| && vs[i] == v;
    assert kept[i] in kept;
    forall x | x in kept ensures !(Versions.CompareTo(v, x.version) < 0) {
      var j :| 0 <= j < |kept| && kept[j] == x;
      assert vs[j] == x.version;
    }
  }

  /** Without a requested version the selection is the greatest version of
      the catalog's list, betas left out unless asked for: one of them, and
      below none of them. */
  lemma LatestIsGreatest(raws: seq<Releases.RawRelease>, includeBeta: bool)
    requires Releases.AllLegacy(raws).Success?
    requires LatestOf(Releases.AllLegacy(raws).value, includeBeta).Some?
    ensures var all := Releases.AllLegacy(raws).value;
            var v := LatestOf(all, includeBeta).value;
            && (exists x :: x in all && x.version == v && (includeBeta || Releases.IsNotBeta(x)))
            && forall x :: x in all && (includeBeta || Releases.IsNotBeta(x)) ==> !(Versions.CompareTo(v, x.version) < 0)
  {
    var all := Releases.AllLegacy(raws).value;
    Releases.AllLegacyIsAllWithPreReleases(raws);
    Releases.AllFiltered(raws, true);
    BetaFilterMembers(all, includeBeta);
    MaxOfKept(Releases.BetaFilter(all, includeBeta));
  }
}
