/** `Install.install`: the six stages that replace the deployed ROOT webapp,
    as a plan. Stopping Tomcat, fixing permissions and starting Tomcat ignore
    errors; cleaning ROOT and every deployment command are mandatory; the
    configuration and version files are written after the last mandatory
    command, so an installation that stops has written nothing. */
module Install {
  import opened Wrappers
  import opened Console
  import Configuration
  import Paths
  import Versions

  /** What an installation uses besides the configuration and the version:
      the directory `createTempDirectory` made (none when that throws), the
      working directory `toAbsolutePath` resolves against, and the JDBC and
      security property files as the templates render them. */
  datatype Setting = Setting(tempDir: Option<string>, cwd: string, jdbcText: string, securityText: string)

  /** The paths are the normal forms the JDK's paths keep, and the working
      directory is absolute. */
  predicate Ready(c: Configuration.Config, e: Setting) {
    && Paths.IsNormal(c.home) && Paths.IsNormal(c.tomcat.webapps)
    && Paths.IsNormal(e.cwd) && Paths.IsAbsolute(e.cwd)
    && (e.tempDir.Some? ==> Paths.IsNormal(e.tempDir.value))
  }

  const StopCommand := "service tomcat8 stop"
  const StartCommand := "service tomcat8 start"

  function CleanCommand(c: Configuration.Config, e: Setting): string
    requires Ready(c, e)
  {
    "rm -rf " + Paths.ToAbsolute(Configuration.RootWebappPath(c), e.cwd)
  }

  /** The WAR's place in the temporary directory. */
  function WarPath(tmp: string): (war: string)
    requires Paths.IsNormal(tmp)
    ensures |tmp| > 0 && tmp != "/" ==> war == tmp + "/aggregate.war"
  {
    assert Paths.IsNormal("aggregate.war");
    Paths.Resolve(tmp, "aggregate.war")
  }

  function WgetCommand(tmp: string, warUrl: string): string
    requires Paths.IsNormal(tmp)
  {
    "wget -O " + WarPath(tmp) + " " + warUrl
  }

  function UnzipCommand(c: Configuration.Config, tmp: string): string
    requires Paths.IsNormal(c.tomcat.webapps) && Paths.IsNormal(tmp)
  {
    "unzip -qq " + WarPath(tmp) + " -d " + Configuration.RootWebappPath(c)
  }

  function ChownCommand(c: Configuration.Config): string
    requires Paths.IsNormal(c.tomcat.webapps)
  {
    "chown -R " + c.tomcat.uid + ":" + c.tomcat.gid + " " + Configuration.RootWebappPath(c)
  }

  /** `deploy`: download into a fresh temporary directory, unzip into ROOT,
      remove the directory. */
  function DeployBody(c: Configuration.Config, e: Setting, warUrl: string): seq<Action>
    requires Ready(c, e)
  {
    match e.tempDir
    case None => [Abort(TempDirUnavailable)]
    case Some(tmp) => [Cmd(WgetCommand(tmp, warUrl), false), Cmd(UnzipCommand(c, tmp), false), Cmd("rm -rf " + tmp, false)]
  }

  /** `deployConfiguration`: the rendered JDBC and security files. */
  function ConfigureBody(c: Configuration.Config, e: Setting): seq<Action>
    requires Ready(c, e)
  {
    [Put(Configuration.JdbcConfigurationPath(c), e.jdbcText), Put(Configuration.SecurityConfigurationPath(c), e.securityText)]
  }

  /** Permissions, then the version file holding the version's literal. */
  function CompleteBody(c: Configuration.Config, v: Versions.Version): seq<Action>
    requires Paths.IsNormal(c.home) && Paths.IsNormal(c.tomcat.webapps)
  {
    [Cmd(ChownCommand(c), true), Put(Configuration.VersionFilePath(c), Versions.ToString(v))]
  }

  /** The stages that can stop an installation. */
  function Front(c: Configuration.Config, e: Setting, warUrl: string): seq<Action>
    requires Ready(c, e)
  {
    Block("Stopping Tomcat", [Cmd(StopCommand, true)])
    + Block("Cleaning ROOT webapp", [Cmd(CleanCommand(c, e), false)])
    + Block("Deploying Aggregate", DeployBody(c, e, warUrl))
  }

  /** The stages that cannot. */
  function Back(c: Configuration.Config, e: Setting, v: Versions.Version): seq<Action>
    requires Ready(c, e)
  {
    Block("Deploying configuration", ConfigureBody(c, e))
    + Block("Completing installation & cleanup", CompleteBody(c, v))
    + Block("Starting Tomcat", [Cmd(StartCommand, true)])
  }

  /** `install(console, conf, version, warUrl)`: the six blocks in order. */
  function Plan(c: Configuration.Config, e: Setting, v: Versions.Version, warUrl: string): seq<Action>
    requires Ready(c, e)
  {
    Front(c, e, warUrl) + Back(c, e, v)
  }

  /** `Install.install`: the plan carried out. It returns exactly when the
      plan succeeds on the exit codes the commands give, reads no answer, and
      a stop is an exception. */
  function Install(s: State, c: Configuration.Config, e: Setting, v: Versions.Version, warUrl: string): (r: Step<()>)
    requires Ready(c, e)
    ensures r.Next? <==> Succeeds(Plan(c, e, v, warUrl), s.exitCode, s.ran)
    ensures r.state.input == s.input && r.state.ran >= s.ran
    ensures r.Halt? ==> r.end.Raised?
  {
    PerformReturnsIff(s, Plan(c, e, v, warUrl));
    Perform(s, Plan(c, e, v, warUrl))
  }

  // ---------------------------------------------------------------------------
  // The shape of the plan

  lemma SingleCommand(command: string, ignore: bool)
    ensures Commands([Cmd(command, ignore)]) == [(command, ignore)]
    ensures PutsOf([Cmd(command, ignore)]) == []
  {
    assert [Cmd(command, ignore)][1..] == [];
  }

  lemma MandatoryCommands(x: string, y: string, z: string)
    ensures Commands([Cmd(x, false), Cmd(y, false), Cmd(z, false)]) == [(x, false), (y, false), (z, false)]
    ensures PutsOf([Cmd(x, false), Cmd(y, false), Cmd(z, false)]) == []
  {
    var p := [Cmd(x, false), Cmd(y, false), Cmd(z, false)];
    assert p[1..] == [Cmd(y, false), Cmd(z, false)];
    assert p[1..][1..] == [Cmd(z, false)];
    SingleCommand(z, false);
  }

  lemma FrontShape(c: Configuration.Config, e: Setting, warUrl: string)
    requires Ready(c, e)
    ensures PutsOf(Front(c, e, warUrl)) == []
    ensures Commands(Front(c, e, warUrl)) ==
              [(StopCommand, true), (CleanCommand(c, e), false)]
              + match e.tempDir
                case None => []
                case Some(tmp) => [(WgetCommand(tmp, warUrl), false), (UnzipCommand(c, tmp), false), ("rm -rf " + tmp, false)]
  {
    var b1 := Block("Stopping Tomcat", [Cmd(StopCommand, true)]);
    var b2 := Block("Cleaning ROOT webapp", [Cmd(CleanCommand(c, e), false)]);
    var b3 := Block("Deploying Aggregate", DeployBody(c, e, warUrl));
    BlockLikeBody("Stopping Tomcat", [Cmd(StopCommand, true)], x => 0, 0);
    BlockLikeBody("Cleaning ROOT webapp", [Cmd(CleanCommand(c, e), false)], x => 0, 0);
    BlockLikeBody("Deploying Aggregate", DeployBody(c, e, warUrl), x => 0, 0);
    SingleCommand(StopCommand, true);
    SingleCommand(CleanCommand(c, e), false);
    PlanAppend(b1, b2);
    PlanAppend(b1 + b2, b3);
    var d := DeployBody(c, e, warUrl);
    if e.tempDir.Some? {
      var tmp := e.tempDir.value;
      MandatoryCommands(WgetCommand(tmp, warUrl), UnzipCommand(c, tmp), "rm -rf " + tmp);
    } else {
      assert d[1..] == [];
    }
  }

  lemma BackShape(c: Configuration.Config, e: Setting, v: Versions.Version)
    requires Ready(c, e)
    ensures PutsOf(Back(c, e, v)) ==
              [(Configuration.JdbcConfigurationPath(c), e.jdbcText),
               (Configuration.SecurityConfigurationPath(c), e.securityText),
               (Configuration.VersionFilePath(c), Versions.ToString(v))]
    ensures Commands(Back(c, e, v)) == [(ChownCommand(c), true), (StartCommand, true)]
    ensures CannotStop(Back(c, e, v))
  {
    var b4 := Block("Deploying configuration", ConfigureBody(c, e));
    var b5 := Block("Completing installation & cleanup", CompleteBody(c, v));
    var b6 := Block("Starting Tomcat", [Cmd(StartCommand, true)]);
    BlockLikeBody("Deploying configuration", ConfigureBody(c, e), x => 0, 0);
    BlockLikeBody("Completing installation & cleanup", CompleteBody(c, v), x => 0, 0);
    BlockLikeBody("Starting Tomcat", [Cmd(StartCommand, true)], x => 0, 0);
    SingleCommand(StartCommand, true);
    PlanAppend(b4, b5);
    PlanAppend(b4 + b5, b6);
    assert ConfigureBody(c, e)[1..][1..] == [];
    assert CompleteBody(c, v)[1..][1..] == [];
  }

  /** The commands in the order the stages give them, with their flags: stop
      and the permission fix and start ignore errors, the others do not. */
  lemma InstallCommands(c: Configuration.Config, e: Setting, v: Versions.Version, warUrl: string)
    requires Ready(c, e)
    ensures e.tempDir.Some? ==>
              var tmp := e.tempDir.value;
              Commands(Plan(c, e, v, warUrl)) ==
                [(StopCommand, true), (CleanCommand(c, e), false),
                 (WgetCommand(tmp, warUrl), false), (UnzipCommand(c, tmp), false), ("rm -rf " + tmp, false),
                 (ChownCommand(c), true), (StartCommand, true)]
    ensures e.tempDir.None? ==>
              Commands(Plan(c, e, v, warUrl)) == [(StopCommand, true), (CleanCommand(c, e), false), (ChownCommand(c), true), (StartCommand, true)]
  {
    FrontShape(c, e, warUrl);
    BackShape(c, e, v);
    PlanAppend(Front(c, e, warUrl), Back(c, e, v));
    var stop, clean := (StopCommand, true), (CleanCommand(c, e), false);
    var chown, start := (ChownCommand(c), true), (StartCommand, true);
    assert Commands(Plan(c, e, v, warUrl)) == Commands(Front(c, e, warUrl)) + [chown, start];
    if e.tempDir.Some? {
      var tmp := e.tempDir.value;
      var wget, unzip, rm := (WgetCommand(tmp, warUrl), false), (UnzipCommand(c, tmp), false), ("rm -rf " + tmp, false);
      assert Commands(Front(c, e, warUrl)) == [stop, clean] + [wget, unzip, rm];
      JoinSeven(stop, clean, wget, unzip, rm, chown, start);
    } else {
      assert Commands(Front(c, e, warUrl)) == [stop, clean] + [];
      JoinFour(stop, clean, chown, start);
    }
  }

  lemma JoinSeven<T>(x0: T, x1: T, x2: T, x3: T, x4: T, x5: T, x6: T)
    ensures [x0, x1] + [x2, x3, x4] + [x5, x6] == [x0, x1, x2, x3, x4, x5, x6]
  {
  }

  lemma JoinFour<T>(x0: T, x1: T, x2: T, x3: T)
    ensures [x0, x1] + [] + [x2, x3] == [x0, x1, x2, x3]
  {
  }

  /** The files in the order they are written: JDBC, security, then the
      version file holding the literal. */
  lemma InstallWrites(c: Configuration.Config, e: Setting, v: Versions.Version, warUrl: string)
    requires Ready(c, e)
    ensures PutsOf(Plan(c, e, v, warUrl)) ==
              [(Configuration.JdbcConfigurationPath(c), e.jdbcText),
               (Configuration.SecurityConfigurationPath(c), e.securityText),
               (Configuration.VersionFilePath(c), v.literal)]
  {
    FrontShape(c, e, warUrl);
    BackShape(c, e, v);
    PlanAppend(Front(c, e, warUrl), Back(c, e, v));
  }

  // ---------------------------------------------------------------------------
  // Running the plan

  lemma SucceedsSingle(command: string, ignore: bool, codes: nat -> int, n: nat)
    ensures Succeeds([Cmd(command, ignore)], codes, n) <==> ignore || codes(n) == 0
  {
    assert [Cmd(command, ignore)][1..] == [];
  }

  lemma SucceedsMandatory(x: string, y: string, z: string, codes: nat -> int, n: nat)
    ensures Succeeds([Cmd(x, false), Cmd(y, false), Cmd(z, false)], codes, n) <==> codes(n) == 0 && codes(n + 1) == 0 && codes(n + 2) == 0
  {
    var p := [Cmd(x, false), Cmd(y, false), Cmd(z, false)];
    assert p[1..] == [Cmd(y, false), Cmd(z, false)];
    assert p[1..][1..] == [Cmd(z, false)];
    SucceedsSingle(z, false, codes, n + 2);
  }

  /** Counting from the first command of the plan as number `n`: stopping
      Tomcat may fail, cleaning ROOT (number n + 1) and the three deployment
      commands (n + 2 to n + 4) may not, and the temporary directory must
      exist. */
  lemma FrontSucceeds(c: Configuration.Config, e: Setting, warUrl: string, codes: nat -> int, n: nat)
    requires Ready(c, e)
    ensures Succeeds(Front(c, e, warUrl), codes, n) <==>
              e.tempDir.Some? && codes(n + 1) == 0 && codes(n + 2) == 0 && codes(n + 3) == 0 && codes(n + 4) == 0
    ensures CommandCount(Front(c, e, warUrl)) == if e.tempDir.Some? then 5 else 2
  {
    FrontShape(c, e, warUrl);
    var stop: seq<Action> := [Cmd(StopCommand, true)];
    var clean: seq<Action> := [Cmd(CleanCommand(c, e), false)];
    var b1 := Block("Stopping Tomcat", stop);
    var b2 := Block("Cleaning ROOT webapp", clean);
    var b3 := Block("Deploying Aggregate", DeployBody(c, e, warUrl));
    BlockLikeBody("Stopping Tomcat", stop, codes, n);
    BlockLikeBody("Cleaning ROOT webapp", clean, codes, n + 1);
    BlockLikeBody("Deploying Aggregate", DeployBody(c, e, warUrl), codes, n + 2);
    SingleCommand(StopCommand, true);
    SingleCommand(CleanCommand(c, e), false);
    SucceedsSingle(StopCommand, true, codes, n);
    SucceedsSingle(CleanCommand(c, e), false, codes, n + 1);
    SucceedsAppend(b1, b2, codes, n);
    SucceedsAppend(b1 + b2, b3, codes, n);
    match e.tempDir
    case None =>
      assert DeployBody(c, e, warUrl)[1..] == [];
    case Some(tmp) =>
      SucceedsMandatory(WgetCommand(tmp, warUrl), UnzipCommand(c, tmp), "rm -rf " + tmp, codes, n + 2);
  }

  lemma FrontOutcome(s: State, c: Configuration.Config, e: Setting, warUrl: string)
    requires Ready(c, e)
    ensures var f := Perform(s, Front(c, e, warUrl));
            && (f.Next? <==> e.tempDir.Some? && s.exitCode(s.ran + 1) == 0 && s.exitCode(s.ran + 2) == 0
                             && s.exitCode(s.ran + 3) == 0 && s.exitCode(s.ran + 4) == 0)
            && (f.Next? ==> f.state.ran == s.ran + 5)
            && WritesOf(f.state.trace) == WritesOf(s.trace)
  {
    var p := Front(c, e, warUrl);
    var ok := e.tempDir.Some? && s.exitCode(s.ran + 1) == 0 && s.exitCode(s.ran + 2) == 0
              && s.exitCode(s.ran + 3) == 0 && s.exitCode(s.ran + 4) == 0;
    assert PutsOf(p) == [] by {
      FrontQuiet(c, e, warUrl);
    }
    assert (Succeeds(p, s.exitCode, s.ran) <==> ok) && (ok ==> CommandCount(p) == 5) by {
      FrontSucceeds(c, e, warUrl, s.exitCode, s.ran);
    }
    QuietOutcomeWhen(s, p, ok, 5);
  }

  lemma FrontQuiet(c: Configuration.Config, e: Setting, warUrl: string)
    requires Ready(c, e)
    ensures PutsOf(Front(c, e, warUrl)) == []
  {
    FrontShape(c, e, warUrl);
  }

  /** QuietOutcome, with the success condition and the command count given. */
  lemma QuietOutcomeWhen(s: State, p: seq<Action>, ok: bool, count: nat)
    requires PutsOf(p) == []
    requires Succeeds(p, s.exitCode, s.ran) <==> ok
    requires ok ==> CommandCount(p) == count
    ensures var f := Perform(s, p);
            && (f.Next? <==> ok)
            && (f.Next? ==> f.state.ran == s.ran + count)
            && WritesOf(f.state.trace) == WritesOf(s.trace)
  {
    QuietOutcome(s, p);
  }

  lemma BackOutcome(s: State, c: Configuration.Config, e: Setting, v: Versions.Version)
    requires Ready(c, e)
    ensures var b := Perform(s, Back(c, e, v));
            && b.Next? && b.state.ran == s.ran + 2
            && WritesOf(b.state.trace) == WritesOf(s.trace) + PutsOf(Back(c, e, v))
  {
    BackShape(c, e, v);
    BestEffortReturns(s, Back(c, e, v));
    PerformWrites(s, Back(c, e, v));
  }

  /** An installation returns exactly when cleaning ROOT and the deployment
      commands succeed and the temporary directory was made; it then has run
      all seven commands and written the three files. One that stops has
      written nothing. */
  lemma InstallReturnsIff(s: State, c: Configuration.Config, e: Setting, v: Versions.Version, warUrl: string)
    requires Ready(c, e)
    ensures var r := Install(s, c, e, v, warUrl);
            && (r.Next? <==> e.tempDir.Some? && s.exitCode(s.ran + 1) == 0 && s.exitCode(s.ran + 2) == 0
                             && s.exitCode(s.ran + 3) == 0 && s.exitCode(s.ran + 4) == 0)
            && (r.Next? ==> r.state.ran == s.ran + 7 && WritesOf(r.state.trace) == WritesOf(s.trace) + PutsOf(Plan(c, e, v, warUrl)))
            && (r.Halt? ==> WritesOf(r.state.trace) == WritesOf(s.trace))
  {
    InstallSplits(s, c, e, v, warUrl);
    FrontOutcome(s, c, e, warUrl);
    PlansPuts(c, e, v, warUrl);
    var f := Perform(s, Front(c, e, warUrl));
    if f.Next? {
      BackOutcome(f.state, c, e, v);
    }
  }

  lemma InstallSplits(s: State, c: Configuration.Config, e: Setting, v: Versions.Version, warUrl: string)
    requires Ready(c, e)
    ensures var f := Perform(s, Front(c, e, warUrl));
            Install(s, c, e, v, warUrl) == if f.Halt? then f else Perform(f.state, Back(c, e, v))
  {
    PerformAppend(s, Front(c, e, warUrl), Back(c, e, v));
  }

  lemma PlansPuts(c: Configuration.Config, e: Setting, v: Versions.Version, warUrl: string)
    requires Ready(c, e)
    ensures PutsOf(Plan(c, e, v, warUrl)) == PutsOf(Back(c, e, v))
  {
    FrontShape(c, e, warUrl);
    PlanAppend(Front(c, e, warUrl), Back(c, e, v));
  }

  /** A failure to clean ROOT ends the installation there: only Tomcat's stop
      and the clean itself have run. */
  lemma CleanFailureStops(s: State, c: Configuration.Config, e: Setting, v: Versions.Version, warUrl: string)
    requires Ready(c, e) && s.exitCode(s.ran + 1) != 0
    ensures var r := Install(s, c, e, v, warUrl);
            && r.Halt? && r.end == Raised(CommandFailed(CleanCommand(c, e), s.exitCode(s.ran + 1)))
            && r.state.ran == s.ran + 2
  {
    var stop: seq<Action> := [Cmd(StopCommand, true)];
    var clean: seq<Action> := [Cmd(CleanCommand(c, e), false)];
    var b1 := Block("Stopping Tomcat", stop);
    var b2 := Block("Cleaning ROOT webapp", clean);
    var b3 := Block("Deploying Aggregate", DeployBody(c, e, warUrl));
    PerformAppend(s, b1 + b2 + b3, Back(c, e, v));
    PerformAppend(s, b1 + b2, b3);
    PerformAppend(s, b1, b2);
    BlockLikeBody("Stopping Tomcat", stop, s.exitCode, s.ran);
    SingleCommand(StopCommand, true);
    SucceedsSingle(StopCommand, true, s.exitCode, s.ran);
    PerformReturnsIff(s, b1);
    var s1 := Perform(s, b1).state;
    BlockFraming(s1, "Cleaning ROOT webapp", clean);
    var headed := Emit(s1, Out("- Cleaning ROOT webapp"));
    assert clean[1..] == [];
    assert Perform(headed, clean) == Execute(headed, CleanCommand(c, e), false);
  }
}
