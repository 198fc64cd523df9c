/** The environment configuration file of the installer: where Aggregate keeps
    its state (`home`), how to reach the database (`jdbc`), the web security
    settings (`security`) and where Tomcat lives (`tomcat`). Reading checks the
    required fields in the order the constructor evaluates them; the path
    getters and the backup file name derive everything else. */
module Configuration {
  import opened Wrappers
  import opened JavaText
  import Paths

  /** A parsed JSON document, numbers restricted to integers. */
  datatype Json =
    | JString(text: string)
    | JInt(number: int)
    | JBool(flag: bool)
    | JNull
    | JObject(fields: map<string, Json>)
    | JArray(items: seq<Json>)

  /** What reading the configuration file gave: no such file, any other read or
      JSON syntax error, or a document. */
  datatype Source = NoSuchFile | Unreadable | Parsed(root: Json)

  /** Why reading failed. The first three are the ConfigurationException
      messages the reader produces; the others are exceptions it does not catch
      (ClassCastException, IllegalArgumentException from the map conversion,
      InvalidPathException). */
  datatype ConfigError =
    | MissingValues
    | FileMissing
    | FileUnparseable
    | WrongType(key: string)
    | NotAnObject(section: string)
    | InvalidPath(text: string)

  function Message(e: ConfigError): Option<string> {
    match e
    case MissingValues => Some("Missing values")
    case FileMissing => Some("Provided configuration file doesn't exist")
    case FileUnparseable => Some("Can't parse the provided configuration file")
    case _ => None
  }

  datatype Jdbc = Jdbc(host: string, port: int, db: string, schema: string, user: string, password: string)
  datatype Security = Security(forceHttpsLinks: bool, port: int, securePort: int)
  datatype Tomcat = Tomcat(uid: string, gid: string, webapps: string)
  datatype Config = Config(home: string, jdbc: Jdbc, security: Security, tomcat: Tomcat)

  /** The Java type a field is cast to. */
  datatype Kind = Text | Int32 | Flag

  /** `data.get(key)` is non-null: the key is there and not JSON null, which
      the map conversion turns into a Java null. */
  predicate Present(m: map<string, Json>, key: string) {
    key in m && m[key] != JNull
  }

  /** The converted value has the cast's class: a string, a number that fits
      an Integer (larger ones become Long), a boolean. */
  predicate HasKind(v: Json, k: Kind) {
    match k
    case Text => v.JString?
    case Int32 => v.JInt? && IsInt32(v.number)
    case Flag => v.JBool?
  }

  // ---------------------------------------------------------------------------
  // Field access, in the shape of `(T) Objects.requireNonNull(data.get(key))`

  function GetText(m: map<string, Json>, key: string): (r: Result<string, ConfigError>)
    ensures r.Success? <==> Present(m, key) && HasKind(m[key], Text)
    ensures r.Success? ==> m[key] == JString(r.value)
    ensures r.Failure? ==> r.error == if Present(m, key) then WrongType(key) else MissingValues
  {
    if !Present(m, key) then Failure(MissingValues)
    else if !m[key].JString? then Failure(WrongType(key))
    else Success(m[key].text)
  }

  function GetInt(m: map<string, Json>, key: string): (r: Result<int, ConfigError>)
    ensures r.Success? <==> Present(m, key) && HasKind(m[key], Int32)
    ensures r.Success? ==> m[key] == JInt(r.value) && IsInt32(r.value)
    ensures r.Failure? ==> r.error == if Present(m, key) then WrongType(key) else MissingValues
  {
    if !Present(m, key) then Failure(MissingValues)
    else if !(m[key].JInt? && IsInt32(m[key].number)) then Failure(WrongType(key))
    else Success(m[key].number)
  }

  function GetFlag(m: map<string, Json>, key: string): (r: Result<bool, ConfigError>)
    ensures r.Success? <==> Present(m, key) && HasKind(m[key], Flag)
    ensures r.Success? ==> m[key] == JBool(r.value)
    ensures r.Failure? ==> r.error == if Present(m, key) then WrongType(key) else MissingValues
  {
    if !Present(m, key) then Failure(MissingValues)
    else if !m[key].JBool? then Failure(WrongType(key))
    else Success(m[key].flag)
  }

  /** The key is in the map and holds that value. */
  predicate Stores(m: map<string, Json>, key: string, v: Json) {
    key in m && m[key] == v
  }

  /** `JdbcConfiguration.from`: six fields, read in declaration order. What
      it returns is what the section stores; a failure is a missing or a
      mistyped field. */
  function JdbcFrom(m: map<string, Json>): (r: Result<Jdbc, ConfigError>)
    ensures r.Success? ==> && Stores(m, "host", JString(r.value.host)) && Stores(m, "port", JInt(r.value.port))
                           && Stores(m, "db", JString(r.value.db)) && Stores(m, "schema", JString(r.value.schema))
                           && Stores(m, "user", JString(r.value.user)) && Stores(m, "password", JString(r.value.password))
    ensures r.Success? ==> IsInt32(r.value.port)
    ensures r.Failure? ==> r.error == MissingValues || r.error.WrongType?
  {
    var host :- GetText(m, "host");
    var port :- GetInt(m, "port");
    var db :- GetText(m, "db");
    var schema :- GetText(m, "schema");
    var user :- GetText(m, "user");
    var password :- GetText(m, "password");
    Success(Jdbc(host, port, db, schema, user, password))
  }

  /** `SecurityConfiguration.from`: the flag and the two ports, as stored. */
  function SecurityFrom(m: map<string, Json>): (r: Result<Security, ConfigError>)
    ensures r.Success? ==> && Stores(m, "forceHttpsLinks", JBool(r.value.forceHttpsLinks))
                           && Stores(m, "port", JInt(r.value.port)) && Stores(m, "securePort", JInt(r.value.securePort))
    ensures r.Success? ==> IsInt32(r.value.port) && IsInt32(r.value.securePort)
    ensures r.Failure? ==> r.error == MissingValues || r.error.WrongType?
  {
    var force :- GetFlag(m, "forceHttpsLinks");
    var port :- GetInt(m, "port");
    var securePort :- GetInt(m, "securePort");
    Success(Security(force, port, securePort))
  }

  /** `TomcatConfiguration.from`: the two ids as stored, and the webapps
      location through `Paths.get`, whose failure escapes. */
  function TomcatFrom(m: map<string, Json>): (r: Result<Tomcat, ConfigError>)
    ensures r.Success? ==> && Stores(m, "uid", JString(r.value.uid)) && Stores(m, "gid", JString(r.value.gid))
                           && "webappsPath" in m && m["webappsPath"].JString?
                           && Paths.PathOf(m["webappsPath"].text) == Some(r.value.webapps)
    ensures r.Success? ==> Paths.IsNormal(r.value.webapps)
    ensures r.Failure? ==> r.error == MissingValues || r.error.WrongType? || r.error.InvalidPath?
  {
    var uid :- GetText(m, "uid");
    var gid :- GetText(m, "gid");
    var webapps :- GetText(m, "webappsPath");
    var path :- PathOrError(webapps);
    Success(Tomcat(uid, gid, path))
  }

  function PathOrError(text: string): (r: Result<string, ConfigError>)
    ensures r.Success? ==> Paths.IsNormal(r.value) && Paths.PathOf(text) == Some(r.value)
    ensures r.Failure? ==> r.error == InvalidPath(text)
  {
    match Paths.PathOf(text)
    case None => Failure(InvalidPath(text))
    case Some(p) => Success(p)
  }

  // ---------------------------------------------------------------------------
  // The table the field readers follow, as an independent reference

  const JdbcFields: seq<(string, Kind)> :=
    [("host", Text), ("port", Int32), ("db", Text), ("schema", Text), ("user", Text), ("password", Text)]
  const SecurityFields: seq<(string, Kind)> :=
    [("forceHttpsLinks", Flag), ("port", Int32), ("securePort", Int32)]

  /** The first field, in table order, that is missing or has the wrong type. */
  function FirstProblem(m: map<string, Json>, fields: seq<(string, Kind)>): Option<ConfigError> {
    if |fields| == 0 then None
    else
      var (key, kind) := fields[0];
      if !Present(m, key) then Some(MissingValues)
      else if !HasKind(m[key], kind) then Some(WrongType(key))
      else FirstProblem(m, fields[1..])
  }

  /** One step of the table walk. */
  lemma FirstProblemStep(m: map<string, Json>, fields: seq<(string, Kind)>)
    requires |fields| > 0
    ensures FirstProblem(m, fields) ==
              if !Present(m, fields[0].0) then Some(MissingValues)
              else if !HasKind(m[fields[0].0], fields[0].1) then Some(WrongType(fields[0].0))
              else FirstProblem(m, fields[1..])
  {
  }

  /** Reading the JDBC section fails exactly when some field in the table is
      missing or mistyped, and with the error of the first such field. */
  lemma JdbcFromFollowsTable(m: map<string, Json>)
    ensures JdbcFrom(m).Success? <==> FirstProblem(m, JdbcFields).None?
    ensures JdbcFrom(m).Failure? ==> Some(JdbcFrom(m).error) == FirstProblem(m, JdbcFields)
  {
    var f := JdbcFields;
    FirstProblemStep(m, f);
    FirstProblemStep(m, f[1..]);
    FirstProblemStep(m, f[2..]);
    assert f[1..][1..] == f[2..];
    FirstProblemStep(m, f[3..]);
    assert f[2..][1..] == f[3..];
    FirstProblemStep(m, f[4..]);
    assert f[3..][1..] == f[4..];
    FirstProblemStep(m, f[5..]);
    assert f[4..][1..] == f[5..];
    assert f[5..][1..] == [];
  }

  lemma SecurityFromFollowsTable(m: map<string, Json>)
    ensures SecurityFrom(m).Success? <==> FirstProblem(m, SecurityFields).None?
    ensures SecurityFrom(m).Failure? ==> Some(SecurityFrom(m).error) == FirstProblem(m, SecurityFields)
  {
    var f := SecurityFields;
    FirstProblemStep(m, f);
    FirstProblemStep(m, f[1..]);
    FirstProblemStep(m, f[2..]);
    assert f[1..][1..] == f[2..];
    assert f[2..][1..] == [];
  }

  /** A successful read keeps exactly the stored values of the six keys. */
  lemma JdbcFromReadsFields(m: map<string, Json>)
    requires JdbcFrom(m).Success?
    ensures JdbcToMap(JdbcFrom(m).value) == ProjectJdbc(m)
  {
  }

  /** The JDBC section restricted to its six keys. */
  function ProjectJdbc(m: map<string, Json>): map<string, Json>
    requires forall k :: k in ["host", "port", "db", "schema", "user", "password"] ==> k in m
  {
    map["host" := m["host"], "port" := m["port"], "db" := m["db"],
        "schema" := m["schema"], "user" := m["user"], "password" := m["password"]]
  }

  // ---------------------------------------------------------------------------
  // Reading the whole document

  /** `root.get(key)` on an object; any other node answers null. */
  function Member(root: Json, key: string): Option<Json> {
    if root.JObject? && key in root.fields then Some(root.fields[key]) else None
  }

  /** `root.get(key)` followed by a call on the node: a null node is an
      absent value. */
  function MemberOrMissing(root: Json, key: string): (r: Result<Json, ConfigError>)
    ensures r.Success? <==> Member(root, key).Some?
    ensures r.Failure? ==> r.error == MissingValues
  {
    match Member(root, key)
    case None => Failure(MissingValues)
    case Some(v) => Success(v)
  }

  /** `JsonNode.asText()`: the text of a string, the decimal of a number,
      `true`/`false`, `null` for JSON null, empty for containers. */
  function AsText(v: Json): string {
    match v
    case JString(t) => t
    case JInt(n) => IntString(n)
    case JBool(b) => if b then "true" else "false"
    case JNull => "null"
    case _ => ""
  }

  /** `toMap(root.get(section))` followed by the first `data.get`: a missing or
      null section is a null map (so "Missing values"), a non-object cannot be
      converted. */
  function Section(root: Json, name: string): Result<map<string, Json>, ConfigError> {
    match Member(root, name)
    case None => Failure(MissingValues)
    case Some(JNull) => Failure(MissingValues)
    case Some(JObject(m)) => Success(m)
    case Some(_) => Failure(NotAnObject(name))
  }

  /** `EnvironmentConfiguration.from`: home, then jdbc, security and tomcat,
      each failing before the next is looked at. */
  function From(src: Source): (r: Result<Config, ConfigError>)
    ensures src == NoSuchFile ==> r == Failure(FileMissing)
    ensures src == Unreadable ==> r == Failure(FileUnparseable)
    ensures r.Success? ==> Paths.IsNormal(r.value.home) && Paths.IsNormal(r.value.tomcat.webapps)
    ensures r.Success? ==> IsInt32(r.value.jdbc.port) && IsInt32(r.value.security.port) && IsInt32(r.value.security.securePort)
  {
    match src
    case NoSuchFile => Failure(FileMissing)
    case Unreadable => Failure(FileUnparseable)
    case Parsed(root) =>
      var homeNode :- MemberOrMissing(root, "home");
      var home :- PathOrError(AsText(homeNode));
      var jdbcData :- Section(root, "jdbc");
      var jdbc :- JdbcFrom(jdbcData);
      var securityData :- Section(root, "security");
      var security :- SecurityFrom(securityData);
      var tomcatData :- Section(root, "tomcat");
      var tomcat :- TomcatFrom(tomcatData);
      Success(Config(home, jdbc, security, tomcat))
  }

  /** A document without `home` is missing values, whatever else it holds. */
  lemma MissingHome(root: Json)
    requires Member(root, "home").None?
    ensures From(Parsed(root)) == Failure(MissingValues)
  {
  }

  /** With a usable home, a missing or null JDBC section, or a JDBC section
      with a missing field before any mistyped one, is missing values. */
  lemma MissingJdbcField(root: Json)
    requires Member(root, "home").Some? && '\0' !in AsText(Member(root, "home").value)
    requires Section(root, "jdbc") == Failure(MissingValues)
             || (Section(root, "jdbc").Success? && FirstProblem(Section(root, "jdbc").value, JdbcFields) == Some(MissingValues))
    ensures From(Parsed(root)) == Failure(MissingValues)
  {
    if Section(root, "jdbc").Success? {
      JdbcFromFollowsTable(Section(root, "jdbc").value);
    }
  }

  // ---------------------------------------------------------------------------
  // Writing a configuration back out, the partner of reading it

  function JdbcToMap(j: Jdbc): map<string, Json> {
    map["host" := JString(j.host), "port" := JInt(j.port), "db" := JString(j.db),
        "schema" := JString(j.schema), "user" := JString(j.user), "password" := JString(j.password)]
  }

  /** The document a configuration is written as: exactly the four members
      the reader looks up, each section an object. */
  function ToJson(c: Config): (j: Json)
    ensures j.JObject? && j.fields.Keys == {"home", "jdbc", "security", "tomcat"}
    ensures j.fields["home"] == JString(c.home)
    ensures j.fields["jdbc"].JObject? && j.fields["security"].JObject? && j.fields["tomcat"].JObject?
  {
    JObject(map[
      "home" := JString(c.home),
      "jdbc" := JObject(JdbcToMap(c.jdbc)),
      "security" := JObject(SecurityToMap(c.security)),
      "tomcat" := JObject(TomcatToMap(c.tomcat))])
  }

  function SecurityToMap(s: Security): map<string, Json> {
    map["forceHttpsLinks" := JBool(s.forceHttpsLinks), "port" := JInt(s.port), "securePort" := JInt(s.securePort)]
  }

  function TomcatToMap(t: Tomcat): map<string, Json> {
    map["uid" := JString(t.uid), "gid" := JString(t.gid), "webappsPath" := JString(t.webapps)]
  }

  /** The configurations a file can describe: normal paths without NUL and
      ports that fit an int. */
  predicate Describable(c: Config) {
    && Paths.IsNormal(c.home) && '\0' !in c.home
    && Paths.IsNormal(c.tomcat.webapps) && '\0' !in c.tomcat.webapps
    && IsInt32(c.jdbc.port) && IsInt32(c.security.port) && IsInt32(c.security.securePort)
  }

  lemma JdbcRoundTrip(j: Jdbc)
    requires IsInt32(j.port)
    ensures JdbcFrom(JdbcToMap(j)) == Success(j)
  {
  }

  lemma SecurityRoundTrip(sec: Security)
    requires IsInt32(sec.port) && IsInt32(sec.securePort)
    ensures SecurityFrom(SecurityToMap(sec)) == Success(sec)
  {
  }

  lemma TomcatRoundTrip(t: Tomcat)
    requires Paths.IsNormal(t.webapps) && '\0' !in t.webapps
    ensures TomcatFrom(TomcatToMap(t)) == Success(t)
  {
    Paths.NormalizeFixesNormal(t.webapps);
  }

  /** `From` on a document whose parts each read successfully. */
  lemma FromWhenPartsRead(root: Json, home: string, jdbc: Jdbc, security: Security, tomcat: Tomcat)
    requires MemberOrMissing(root, "home") == Success(JString(home)) && PathOrError(home) == Success(home)
    requires Section(root, "jdbc").Success? && JdbcFrom(Section(root, "jdbc").value) == Success(jdbc)
    requires Section(root, "security").Success? && SecurityFrom(Section(root, "security").value) == Success(security)
    requires Section(root, "tomcat").Success? && TomcatFrom(Section(root, "tomcat").value) == Success(tomcat)
    ensures From(Parsed(root)) == Success(Config(home, jdbc, security, tomcat))
  {
  }

  lemma ToJsonParts(c: Config)
    ensures MemberOrMissing(ToJson(c), "home") == Success(JString(c.home))
    ensures Section(ToJson(c), "jdbc") == Success(JdbcToMap(c.jdbc))
    ensures Section(ToJson(c), "security") == Success(SecurityToMap(c.security))
    ensures Section(ToJson(c), "tomcat") == Success(TomcatToMap(c.tomcat))
  {
  }

  /** Reading a written configuration gives it back. */
  lemma FromToJson(c: Config)
    requires Describable(c)
    ensures From(Parsed(ToJson(c))) == Success(c)
  {
    Paths.NormalizeFixesNormal(c.home);
    JdbcRoundTrip(c.jdbc);
    SecurityRoundTrip(c.security);
    TomcatRoundTrip(c.tomcat);
    ToJsonParts(c);
    FromWhenPartsRead(ToJson(c), c.home, c.jdbc, c.security, c.tomcat);
  }

  // ---------------------------------------------------------------------------
  // Paths derived from the configuration

  function BackupPath(c: Config): string
    requires Paths.IsNormal(c.home)
  {
    Paths.Resolve(c.home, "backup")
  }

  function VersionFilePath(c: Config): string
    requires Paths.IsNormal(c.home)
  {
    Paths.Resolve(c.home, "aggregate.version")
  }

  function RootWebappPath(c: Config): (r: string)
    requires Paths.IsNormal(c.tomcat.webapps)
    ensures Paths.IsNormal(r) && |r| > 0 && r != "/"
  {
    Paths.Resolve(c.tomcat.webapps, "ROOT")
  }

  function JdbcConfigurationPath(c: Config): string
    requires Paths.IsNormal(c.tomcat.webapps)
  {
    Paths.Resolve(RootWebappPath(c), "WEB-INF/classes/jdbc.properties")
  }

  function SecurityConfigurationPath(c: Config): string
    requires Paths.IsNormal(c.tomcat.webapps)
  {
    Paths.Resolve(RootWebappPath(c), "WEB-INF/classes/security.properties")
  }

  /** With a non-empty home, the backup directory and the version file sit
      directly inside it under their fixed names. */
  lemma HomePaths(c: Config)
    requires Paths.IsNormal(c.home) && |c.home| > 0
    ensures Paths.Parent(BackupPath(c)) == c.home && Paths.FileName(BackupPath(c)) == "backup"
    ensures Paths.Parent(VersionFilePath(c)) == c.home && Paths.FileName(VersionFilePath(c)) == "aggregate.version"
  {
    Paths.ResolveChildSplits(c.home, "backup");
    Paths.ResolveChildSplits(c.home, "aggregate.version");
  }

  /** The ROOT webapp sits inside the webapps directory, or is `ROOT` itself
      for an empty one. */
  lemma RootWebappPlacement(c: Config)
    requires Paths.IsNormal(c.tomcat.webapps)
    ensures |c.tomcat.webapps| > 0 ==> Paths.Parent(RootWebappPath(c)) == c.tomcat.webapps
    ensures Paths.FileName(RootWebappPath(c)) == "ROOT"
  {
    if |c.tomcat.webapps| > 0 {
      Paths.ResolveChildSplits(c.tomcat.webapps, "ROOT");
    } else {
      assert RootWebappPath(c) == "ROOT";
    }
  }

  lemma PropertiesName(name: string)
    requires name == "WEB-INF/classes/jdbc.properties" || name == "WEB-INF/classes/security.properties"
    ensures Paths.IsNormal(name) && |name| > 0 && !Paths.IsAbsolute(name)
  {
    assert forall i :: 0 <= i < |name| - 1 ==> name[i + 1] != '/' || name[i] != '/';
  }

  /** Both property files sit under the ROOT webapp's `WEB-INF/classes`. */
  lemma PropertyFilePlacement(c: Config)
    requires Paths.IsNormal(c.tomcat.webapps)
    ensures JdbcConfigurationPath(c) == RootWebappPath(c) + "/WEB-INF/classes/jdbc.properties"
    ensures SecurityConfigurationPath(c) == RootWebappPath(c) + "/WEB-INF/classes/security.properties"
  {
    PropertiesName("WEB-INF/classes/jdbc.properties");
    PropertiesName("WEB-INF/classes/security.properties");
    Paths.ResolveUnder(RootWebappPath(c), "WEB-INF/classes/jdbc.properties");
    Paths.ResolveUnder(RootWebappPath(c), "WEB-INF/classes/security.properties");
  }

  // ---------------------------------------------------------------------------
  // The backup file name

  datatype DateTime = DateTime(year: int, month: int, day: int, hour: int, minute: int, second: int)

  predicate ValidDateTime(d: DateTime) {
    1 <= d.month <= 12 && 1 <= d.day <= 31 && 0 <= d.hour < 24 && 0 <= d.minute < 60 && 0 <= d.second < 60
  }

  function Pow10(w: nat): nat {
    if w == 0 then 1 else 10 * Pow10(w - 1)
  }

  /** `appendValue(field, w)` for a value that fits: exactly `w` digits,
      zero-padded on the left. */
  function Pad(n: nat, w: nat): (s: string)
    ensures |s| == w && AllDigits(s)
  {
    if w == 0 then "" else Pad(n / 10, w - 1) + [DigitChar(n % 10)]
  }

  lemma {:induction false} PadValue(n: nat, w: nat)
    requires n < Pow10(w)
    ensures DigitsValue(Pad(n, w)) == n
  {
    if w > 0 {
      PadValue(n / 10, w - 1);
      var s := Pad(n, w);
      assert s[..|s| - 1] == Pad(n / 10, w - 1);
    }
  }

  /** The formatter `yyyyMMdd-HHmmss` built from fixed-width fields. A year
      outside 0..9999 does not fit four digits (and a negative one is refused
      by the non-negative sign style): formatting throws. */
  function Stamp(d: DateTime): (r: Option<string>)
    requires ValidDateTime(d)
    ensures r.Some? <==> 0 <= d.year <= 9999
    ensures r.Some? ==> |r.value| == 15 && r.value[8] == '-'
  {
    if 0 <= d.year <= 9999 then
      Some(Pad(d.year, 4) + Pad(d.month, 2) + Pad(d.day, 2) + "-" + Pad(d.hour, 2) + Pad(d.minute, 2) + Pad(d.second, 2))
    else None
  }

  /** Reads a stamp back: the inverse used to state that the name loses nothing. */
  function ParseStamp(s: string): Option<DateTime> {
    if |s| != 15 || s[8] != '-' || !AllDigits(s[..8]) || !AllDigits(s[9..]) then None
    else Some(DateTime(DigitsValue(s[0..4]), DigitsValue(s[4..6]), DigitsValue(s[6..8]),
                       DigitsValue(s[9..11]), DigitsValue(s[11..13]), DigitsValue(s[13..15])))
  }

  /** Every field survives the fixed-width formatting. */
  lemma StampRoundTrip(d: DateTime)
    requires ValidDateTime(d) && 0 <= d.year <= 9999
    ensures ParseStamp(Stamp(d).value) == Some(d)
  {
    var y, mo, da := Pad(d.year, 4), Pad(d.month, 2), Pad(d.day, 2);
    var h, mi, se := Pad(d.hour, 2), Pad(d.minute, 2), Pad(d.second, 2);
    assert Stamp(d).value == y + mo + da + "-" + h + mi + se;
    StampLayout(y, mo, da, h, mi, se);
    AllDigitsJoin3(y, mo, da);
    AllDigitsJoin3(h, mi, se);
    assert Pow10(2) == 100 && Pow10(4) == 10000;
    PadValue(d.year, 4);
    PadValue(d.month, 2);
    PadValue(d.day, 2);
    PadValue(d.hour, 2);
    PadValue(d.minute, 2);
    PadValue(d.second, 2);
  }

  /** Where each field sits in a stamp. */
  lemma StampLayout(y: string, mo: string, da: string, h: string, mi: string, se: string)
    requires |y| == 4 && |mo| == 2 && |da| == 2 && |h| == 2 && |mi| == 2 && |se| == 2
    ensures var s := y + mo + da + "-" + h + mi + se;
            && |s| == 15 && s[8] == '-'
            && s[0..4] == y && s[4..6] == mo && s[6..8] == da
            && s[9..11] == h && s[11..13] == mi && s[13..15] == se
            && s[..8] == y + mo + da && s[9..] == h + mi + se
  {
  }

  lemma AllDigitsJoin3(a: string, b: string, c: string)
    requires AllDigits(a) && AllDigits(b) && AllDigits(c)
    ensures AllDigits(a + b + c)
  {
  }

  /** `buildBackupFilePath(now)`: `aggregate-<stamp>.zip` inside the backup directory. */
  function BackupFilePath(c: Config, now: DateTime): (r: Option<string>)
    requires Paths.IsNormal(c.home) && ValidDateTime(now)
    ensures r.Some? <==> 0 <= now.year <= 9999
  {
    match Stamp(now)
    case None => None
    case Some(stamp) =>
      var name := "aggregate-" + stamp + ".zip";
      assert Paths.IsNormal(name) by {
        forall i | 0 <= i < |name| - 1 ensures !(name[i] == '/' && name[i + 1] == '/') {
          if 10 <= i < 25 {
            assert name[i] == stamp[i - 10];
            assert stamp[i - 10] == '-' || IsDigit(stamp[i - 10]) by {
              assert stamp[..8] + stamp[8..] == stamp;
            }
          }
        }
      }
      Some(Paths.Resolve(BackupPath(c), name))
  }

  /** With a non-empty home, the backup file is a direct child of the backup
      directory whose name carries the stamp between `aggregate-` and `.zip`. */
  lemma BackupFileInBackupDir(c: Config, now: DateTime)
    requires Paths.IsNormal(c.home) && |c.home| > 0 && ValidDateTime(now) && 0 <= now.year <= 9999
    ensures var p := BackupFilePath(c, now).value;
            && Paths.Parent(p) == BackupPath(c)
            && Paths.FileName(p) == "aggregate-" + Stamp(now).value + ".zip"
  {
    var name := "aggregate-" + Stamp(now).value + ".zip";
    assert '/' !in name by {
      forall i | 0 <= i < |name| ensures name[i] != '/' {
        if 10 <= i < 25 {
          assert name[i] == Stamp(now).value[i - 10];
        }
      }
    }
    Paths.ResolveChildSplits(BackupPath(c), name);
  }

  // ---------------------------------------------------------------------------
  // The maps handed to the templates

  /** A template value: a string or an integer. */
  datatype Value = Str(s: string) | Num(n: int)

  function JdbcAsMap(j: Jdbc): map<string, Value> {
    map["host" := Str(j.host), "port" := Num(j.port), "db" := Str(j.db),
        "schema" := Str(j.schema), "user" := Str(j.user), "password" := Str(j.password)]
  }

  function SecurityAsMap(s: Security): map<string, Value> {
    map["forceHttpsLinks" := Str(if s.forceHttpsLinks then "true" else "false"),
        "port" := Num(s.port), "securePort" := Num(s.securePort)]
  }

  /** The JDBC map has exactly the six keys and gives every stored value back. */
  lemma JdbcAsMapFaithful(j: Jdbc)
    ensures JdbcAsMap(j).Keys == {"host", "port", "db", "schema", "user", "password"}
    ensures var m := JdbcAsMap(j);
            Jdbc(m["host"].s, m["port"].n, m["db"].s, m["schema"].s, m["user"].s, m["password"].s) == j
  {
  }

  /** The security map renders the flag as the text `true` or `false`, which
      reads back as the flag, and keeps both ports. */
  lemma SecurityAsMapFaithful(s: Security)
    ensures SecurityAsMap(s).Keys == {"forceHttpsLinks", "port", "securePort"}
    ensures var m := SecurityAsMap(s);
            m["forceHttpsLinks"].Str? && (m["forceHttpsLinks"].s == "true" <==> s.forceHttpsLinks)
            && m["forceHttpsLinks"].s in {"true", "false"}
            && m["port"] == Num(s.port) && m["securePort"] == Num(s.securePort)
  {
  }
}
