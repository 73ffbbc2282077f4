/** The static state of `HibernateManager` (server/src/main/java/com/querytester/HibernateManager.java)
    and the decisions it takes from a database configuration and a Hibernate version: which
    dialect to use, whether the existing session factory can be reused, and what an
    initialisation leaves behind. Building the registry, scanning entities and building the
    session factory are outside the model; whether that succeeds is a parameter. */
module HibernateManager {
  import opened Wrappers
  import opened Text
  import opened HibernateDialect

  /** `sessionFactory != null`, `currentDialect` and `currentHibernateVersion` (`None` for a
      Java `null`). */
  datatype Manager = Manager(hasFactory: bool, dialect: Option<string>, version: Option<string>)

  /** The state before the first initialisation. */
  const Initial := Manager(false, None, None)

  /** A `Map<String, String>` parsed from JSON, whose values may be `null`. */
  type Config = map<string, Option<string>>

  /** The configuration `dbConfig.isEmpty()` rejects. */
  const EmptyConfig: Config := map[]

  /** `dbConfig.get(key)`: `null` for a missing key as for a `null` value. */
  function Get(config: Config, key: string): Option<string> {
    if key in config then config[key] else None
  }

  /** `isSameConfiguration`; `Err` stands for the `NullPointerException` of a `null` version
      (`hibernateVersion.equals`) or, once the versions agree, of a `null` configuration
      (`dbConfig.get`). */
  function IsSameConfiguration(m: Manager, config: Option<Config>, version: Option<string>): (r: Result<bool>)
    ensures r.Err? <==> version.None? || (m.version == version && config.None?)
    ensures r.Ok? ==>
      (r.value <==> m.version == version && m.dialect == Some(GetDialect(Get(config.value, "url"), version.value)))
  {
    match version
    case None => Err("NullPointerException")
    case Some(v) =>
      if m.version != Some(v) then Ok(false)
      else if config.None? then Err("NullPointerException")
      else Ok(m.dialect == Some(GetDialect(Get(config.value, "url"), v)))
  }

  /** What `initialize` leaves behind: the new state, and the message of the exception it
      throws, if any. */
  datatype Init = Init(state: Manager, error: Option<string>)

  const InitFailed := "Hibernate initialization failed"

  /** `initialize`. `builds` says whether building the registry, scanning the entities and
      building the session factory succeed. Every exception inside is rethrown with the same
      message. The early return leaves everything as it was when a factory exists and the
      configuration is the same; a guard that throws fails before anything is recorded; past
      the guard, the version is recorded first, even when the rest fails; a `null` version
      fails in `getDialect`, which calls `startsWith` on it. */
  function Initialize(m: Manager, config: Option<Config>, version: Option<string>, builds: bool): (r: Init)
    ensures r.error.Some? ==> r.error.value == InitFailed
    ensures m.hasFactory && IsSameConfiguration(m, config, version) == Ok(true) ==> r == Init(m, None)
    ensures m.hasFactory && IsSameConfiguration(m, config, version).Err? ==> r == Init(m, Some(InitFailed))
    ensures !m.hasFactory || IsSameConfiguration(m, config, version) == Ok(false) ==> r.state.version == version
    ensures r.error.None? ==> r.state.hasFactory
  {
    var guard := if m.hasFactory then IsSameConfiguration(m, config, version) else Ok(false);
    match guard
    case Err(_) => Init(m, Some(InitFailed))
    case Ok(same) =>
      if same then Init(m, None)
      else
        var m1 := m.(version := version);
        match config
        case None => Init(m1, Some(InitFailed))
        case Some(c) =>
          if c == EmptyConfig then Init(m1, Some(InitFailed))
          else match version
            case None => Init(m1, Some(InitFailed))
            case Some(v) =>
              var m2 := m1.(dialect := Some(GetDialect(Get(c, "url"), v)));
              if builds then Init(m2.(hasFactory := true), None) else Init(m2, Some(InitFailed))
  }

  /** A missing or empty configuration fails unless the early return applies, and the version
      is recorded all the same. */
  lemma MissingConfigFails(m: Manager, config: Option<Config>, version: Option<string>, builds: bool)
    requires config.None? || config == Some(EmptyConfig)
    requires !(m.hasFactory && IsSameConfiguration(m, config, version) == Ok(true))
    ensures Initialize(m, config, version, builds).error == Some(InitFailed)
    ensures m.hasFactory && IsSameConfiguration(m, config, version).Ok? ==> Initialize(m, config, version, builds).state.version == version
    ensures !m.hasFactory ==> Initialize(m, config, version, builds).state == m.(version := version)
  {}

  /** The guard can let an empty configuration through: after an initialisation that chose the
      default dialect, an empty map with the same version is "the same configuration", since
      its `null` URL also gives the default. */
  lemma EmptyConfigReusesDefault(m: Manager, v: string, builds: bool)
    requires m.hasFactory && m.version == Some(v) && m.dialect == Some(DefaultDialect(v))
    ensures Initialize(m, Some(EmptyConfig), Some(v), builds) == Init(m, None)
  {}

  /** Initialising twice with the same configuration: the second call is a no-op, whatever
      building would do. */
  lemma RepeatIsNoop(m: Manager, c: Config, v: string, builds: bool, builds2: bool)
    requires Initialize(m, Some(c), Some(v), builds).error.None?
    ensures var m1 := Initialize(m, Some(c), Some(v), builds).state;
      Initialize(m1, Some(c), Some(v), builds2) == Init(m1, None)
  {
    var r := Initialize(m, Some(c), Some(v), builds);
    if !(m.hasFactory && IsSameConfiguration(m, Some(c), Some(v)) == Ok(true)) {
      assert r.state.version == Some(v);
      assert r.state.dialect == Some(GetDialect(Get(c, "url"), v));
    }
  }

  /** A new version always rebuilds: the guard only reuses a factory for the version it was
      built for. */
  lemma NewVersionRebuilds(m: Manager, c: Config, v: string, builds: bool)
    requires m.version != Some(v) && c != EmptyConfig
    ensures Initialize(m, Some(c), Some(v), builds) ==
      (var m2 := m.(version := Some(v), dialect := Some(GetDialect(Get(c, "url"), v)));
       if builds then Init(m2.(hasFactory := true), None) else Init(m2, Some(InitFailed)))
  {}
}
