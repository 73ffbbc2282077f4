/** The request dispatch of the query server (`handleRequest` and `Request` in
    server/src/main/java/com/querytester/Server.java): a request is validated, `executeQuery`
    initialises Hibernate and runs exactly one of the two executors, and every failure becomes
    an `ERROR` reply. Sockets, JSON and the thread pool are outside the model. */
module Server {
  import opened Wrappers
  import opened QueryResult
  import QueryExecutor
  import HibernateManager

  /** The fields of a request the dispatch reads (`None` for a JSON `null` or a missing field).
      The entity library path, packages and project-scan flag only reach the entity scan. */
  datatype Request = Request(
    command: Option<string>,
    query: Option<string>,
    dbConfig: Option<HibernateManager.Config>,
    hibernateVersion: Option<string>,
    params: Option<QueryExecutor.Params>,
    fieldsToInclude: Option<seq<string>>,
    isNative: bool)

  const InvalidMessage := "Invalid request: command or query missing"
  const CommandFailed := "Error executing command"

  /** A request, its command and its query are all present. */
  predicate Valid(req: Option<Request>) {
    req.Some? && req.value.command.Some? && req.value.query.Some?
  }

  /** `new HashSet<>(Arrays.asList(fieldsToInclude))`. */
  function FieldSet(fields: Option<seq<string>>): (r: Option<set<string>>)
    ensures r.Some? <==> fields.Some?
    ensures r.Some? ==> forall f :: f in r.value <==> f in fields.value
  {
    if fields.None? then None else Some(set f | f in fields.value)
  }

  /** The reply of an executor, or of the catch block when it threw. */
  function Caught(r: Result<Response>): Response {
    match r
    case Ok(resp) => resp
    case Err(message) => Failure(CommandFailed, message)
  }

  /** The executor `executeQuery` picks. */
  function Execute(req: Request, session: QueryExecutor.Session): Result<Response>
    requires req.query.Some?
  {
    if req.isNative then QueryExecutor.ExecuteNativeSql(req.query.value, req.params, session)
    else QueryExecutor.ExecuteJpql(req.query.value, req.params, FieldSet(req.fieldsToInclude), session)
  }

  /** The manager state after a request, and the reply. */
  datatype Handled = Handled(state: HibernateManager.Manager, response: Response)

  /** `handleRequest`. `builds` says whether Hibernate's own building steps succeed if the
      initialisation gets that far. */
  function HandleRequest(req: Option<Request>, m: HibernateManager.Manager, builds: bool,
                         session: QueryExecutor.Session): (r: Handled)
    ensures !Valid(req) ==> r == Handled(m, Fresh.(status := "ERROR", message := InvalidMessage))
    ensures Valid(req) && req.value.command.value != "executeQuery" ==>
      r == Handled(m, Fresh.(status := "ERROR", message := "Unknown command: " + req.value.command.value))
    ensures Valid(req) && req.value.command.value == "executeQuery" ==>
      r.state == HibernateManager.Initialize(m, req.value.dbConfig, req.value.hibernateVersion, builds).state
    ensures r.response.status == "SUCCESS" ==>
      Valid(req) && req.value.command.value == "executeQuery" &&
      HibernateManager.Initialize(m, req.value.dbConfig, req.value.hibernateVersion, builds).error.None?
    ensures Valid(req) && req.value.command.value == "executeQuery" ==>
      var q := req.value;
      var init := HibernateManager.Initialize(m, q.dbConfig, q.hibernateVersion, builds);
      init.error.None? ==>
        r.response == Caught(
          if q.isNative then QueryExecutor.ExecuteNativeSql(q.query.value, q.params, session)
          else QueryExecutor.ExecuteJpql(q.query.value, q.params, FieldSet(q.fieldsToInclude), session))
  {
    if !Valid(req) then Handled(m, Fresh.(status := "ERROR", message := InvalidMessage))
    else
      var q := req.value;
      if q.command.value == "executeQuery" then
        var init := HibernateManager.Initialize(m, q.dbConfig, q.hibernateVersion, builds);
        if init.error.Some? then Handled(init.state, Failure(CommandFailed, init.error.value))
        else Handled(init.state, Caught(Execute(q, session)))
      else Handled(m, Fresh.(status := "ERROR", message := "Unknown command: " + q.command.value))
  }

  /** Every reply is a success carrying results or an error; an error carries results only when
      the transaction's commit was what failed. */
  lemma ReplyShape(req: Option<Request>, m: HibernateManager.Manager, builds: bool, session: QueryExecutor.Session)
    ensures var resp := HandleRequest(req, m, builds, session).response;
      (resp.status == "SUCCESS" || resp.status == "ERROR") &&
      (resp.status == "SUCCESS" ==> resp.results.Some?) &&
      (resp.status == "ERROR" && resp.results.Some? ==> session.commitFailure.Some?)
  {
    if Valid(req) && req.value.command.value == "executeQuery" {
      var q := req.value;
      if HibernateManager.Initialize(m, q.dbConfig, q.hibernateVersion, builds).error.None? {
        var e := Execute(q, session);
        if e.Ok? && e.value.results.None? {
          assert FailedWith(e.value, if q.isNative then "Error executing native SQL" else "Error executing JPQL");
        }
      }
    }
  }

  /** A failed initialisation is reported with the message `initialize` rethrows. */
  lemma InitFailureReported(req: Request, m: HibernateManager.Manager, builds: bool, session: QueryExecutor.Session)
    requires req.command == Some("executeQuery") && req.query.Some?
    requires HibernateManager.Initialize(m, req.dbConfig, req.hibernateVersion, builds).error.Some?
    ensures var resp := HandleRequest(Some(req), m, builds, session).response;
      FailedWith(resp, CommandFailed) && resp.message == CommandFailed + ": " + HibernateManager.InitFailed
  {
    var init := HibernateManager.Initialize(m, req.dbConfig, req.hibernateVersion, builds);
    assert HandleRequest(Some(req), m, builds, session).response == Failure(CommandFailed, init.error.value);
  }

  /** `executeQuery` runs exactly one executor, the native one when `isNative` is set and the
      JPQL one otherwise: after a successful initialisation the reply is the selected
      executor's, and it does not depend on what the other one would do. A native request
      ignores the session's entity rows, a JPQL request its native rows. */
  lemma ExactlyOneExecutor(req: Request, m: HibernateManager.Manager, builds: bool,
                           s1: QueryExecutor.Session, s2: QueryExecutor.Session)
    requires req.command == Some("executeQuery") && req.query.Some?
    requires req.isNative ==> s2 == s1.(entityRows := s2.entityRows)
    requires !req.isNative ==> s2 == s1.(nativeRows := s2.nativeRows, castMessage := s2.castMessage)
    ensures HandleRequest(Some(req), m, builds, s1) == HandleRequest(Some(req), m, builds, s2)
    ensures HibernateManager.Initialize(m, req.dbConfig, req.hibernateVersion, builds).error.None? ==>
      HandleRequest(Some(req), m, builds, s1).response ==
        if req.isNative then Caught(QueryExecutor.ExecuteNativeSql(req.query.value, req.params, s1))
        else Caught(QueryExecutor.ExecuteJpql(req.query.value, req.params, FieldSet(req.fieldsToInclude), s1))
  {}

  /** A blank query fails in the executor's input check, after the initialisation, and the
      reply carries that check's message. */
  lemma BlankQueryFails(req: Request, m: HibernateManager.Manager, builds: bool, session: QueryExecutor.Session)
    requires req.command == Some("executeQuery") && req.query.Some?
    requires QueryExecutor.ValidateInput(req.query).Err?
    ensures var resp := HandleRequest(Some(req), m, builds, session).response;
      FailedWith(resp, CommandFailed)
    ensures var init := HibernateManager.Initialize(m, req.dbConfig, req.hibernateVersion, builds);
      init.error.None? ==>
        HandleRequest(Some(req), m, builds, session).response.message == CommandFailed + ": " + QueryExecutor.EmptyQueryMessage
  {}

  /** The second of two identical `executeQuery` requests reuses the session factory the first
      built: the manager state is left as it is. */
  lemma RepeatedRequestReusesFactory(req: Request, m: HibernateManager.Manager, builds: bool, builds2: bool,
                                     s1: QueryExecutor.Session, s2: QueryExecutor.Session)
    requires req.command == Some("executeQuery") && req.query.Some?
    requires req.dbConfig.Some? && req.hibernateVersion.Some?
    requires HibernateManager.Initialize(m, req.dbConfig, req.hibernateVersion, builds).error.None?
    ensures var m1 := HandleRequest(Some(req), m, builds, s1).state;
      HandleRequest(Some(req), m1, builds2, s2).state == m1
  {
    HibernateManager.RepeatIsNoop(m, req.dbConfig.value, req.hibernateVersion.value, builds, builds2);
  }
}
