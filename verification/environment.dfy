/** What the installer's operations find around them, as plain values: the
    lines `whoami` prints, the files that exist and their content, what the
    releases catalog answered, the clock, the temporary directory an
    installation gets (none when it cannot be made), the working directory,
    and the templates that render the property files. */
module Environment {
  import opened Wrappers
  import opened Console
  import Configuration
  import Releases
  import Http
  import Install
  import Paths

  datatype World = World(
    whoami: seq<string>,
    files: map<string, string>,
    catalog: Http.Exchange<seq<Releases.RawRelease>>,
    now: Configuration.DateTime,
    tempDir: Option<string>,
    cwd: string,
    renderJdbc: map<string, Configuration.Value> -> string,
    renderSecurity: map<string, Configuration.Value> -> string)

  /** The working directory is absolute, paths are in normal form, and the
      clock reads a real date and time. */
  predicate Ready(w: World) {
    && Paths.IsNormal(w.cwd) && Paths.IsAbsolute(w.cwd)
    && (w.tempDir.Some? ==> Paths.IsNormal(w.tempDir.value))
    && Configuration.ValidDateTime(w.now)
  }

  /** What the installation gets: the property files rendered from the
      configuration's maps. */
  function SettingFor(c: Configuration.Config, w: World): (e: Install.Setting)
    ensures e.jdbcText == w.renderJdbc(Configuration.JdbcAsMap(c.jdbc))
    ensures e.securityText == w.renderSecurity(Configuration.SecurityAsMap(c.security))
    ensures e.tempDir == w.tempDir && e.cwd == w.cwd
  {
    Install.Setting(w.tempDir, w.cwd, w.renderJdbc(Configuration.JdbcAsMap(c.jdbc)), w.renderSecurity(Configuration.SecurityAsMap(c.security)))
  }

  /** `args.get(CONFIGURATION_PATH)`: the configuration, or the exception
      reading it threw. */
  function ReadConfig(src: Configuration.Source): (r: Result<Configuration.Config, Failure>)
    ensures r.Success? <==> Configuration.From(src).Success?
    ensures r.Success? ==> r.value == Configuration.From(src).value
    ensures r.Failure? ==> r.error == Config(Configuration.From(src).error)
  {
    match Configuration.From(src)
    case Success(c) => Success(c)
    case Failure(e) => Failure(Config(e))
  }

  /** `http.execute(request)`: the answer, or the exception it threw. */
  function Fetch<T>(q: Http.Request<seq<Releases.RawRelease>, T, Releases.QueryError>, x: Http.Exchange<seq<Releases.RawRelease>>): (r: Result<Http.Response<T>, Failure>)
    ensures r.Success? <==> Http.Execute(q, x).Success?
    ensures r.Success? ==> r.value == Http.Execute(q, x).value
    ensures r.Failure? ==> r.error == Catalog(Http.Execute(q, x).error)
  {
    match Http.Execute(q, x)
    case Success(v) => Success(v)
    case Failure(e) => Failure(Catalog(e))
  }
}
