/** `execute_raw_sql` (sigur/services/mysql.py lines 232-293): the order of
    its checks, the call it makes to the driver and the envelope it returns.
    The driver itself (connecting, running the statement, fetching rows,
    commit and rollback) is outside the model; what it reports comes in as
    a `DriverOutcome`. */
module Service {
  import opened Wrappers
  import opened ServiceErrors
  import opened Placeholders
  import opened ParamBinding
  import opened Settings
  import opened JsonSafe

  /** Everything fixed before the driver is called. */
  datatype Prepared<V> = Prepared(target: Database, sql: string, params: Params<V>, config: Config)

  /** The checks of lines 244-251, in order: the target, the placeholder
      styles, the parameters and then the settings; the first failure is
      the result. */
  function PreparedFor<V>(raw: string, target: string, params: Params<V>, env: map<string, string>)
    : (r: Result<Prepared<V>, ServiceError>)
    requires WellFormedParams(params)
    ensures FromValue(target).Err? ==> r == Err(ConfigurationError(UnknownDatabase(target)))
    ensures FromValue(target).Ok? && Analyse(raw).Err? ==> r == Err(ParameterError(MixedStyles, []))
    ensures FromValue(target).Ok? && Analyse(raw).Ok? ==>
      var a := Analyse(raw).value;
      var v := Validate(a.named, a.positional, params);
      && (v.Err? ==> r == Err(v.error))
      && (v.Ok? ==> r == match ResolvedConfig(env, FromValue(target).value)
                         case Err(e) => Err(e)
                         case Ok(c) => Ok(Prepared(FromValue(target).value, a.sql, v.value, c)))
  {
    match FromValue(target)
    case Err(e) => Err(e)
    case Ok(t) =>
      match Analyse(raw)
      case Err(e) => Err(e)
      case Ok(a) =>
        match Validate(a.named, a.positional, params)
        case Err(e) => Err(e)
        case Ok(bound) =>
          match ResolvedConfig(env, t)
          case Err(e) => Err(e)
          case Ok(c) => Ok(Prepared(t, a.sql, bound, c))
  }

  /** Parameter problems are reported before the environment is read: two
      environments give the same parameter error. */
  lemma ParameterErrorsIgnoreEnvironment<V>(raw: string, target: string, params: Params<V>,
                                            env: map<string, string>, other: map<string, string>)
    requires WellFormedParams(params)
    requires PreparedFor(raw, target, params, env).Err?
    requires PreparedFor(raw, target, params, env).error.ParameterError?
    ensures PreparedFor(raw, target, params, other) == PreparedFor(raw, target, params, env)
  {
  }

  /** SQL mixing the two placeholder styles is refused for a known target,
      whatever the parameters and the environment. */
  lemma MixedStylesRefusedFirst<V>(raw: string, target: string, params: Params<V>, env: map<string, string>)
    requires WellFormedParams(params) && FromValue(target).Ok?
    requires NamedParams(Normalise(raw)) != {} && PositionalCount(Normalise(raw)) > 0
    ensures PreparedFor(raw, target, params, env) == Err(ParameterError(MixedStyles, []))
  {
  }

  /** The statement the driver is asked to run: with the parameters when
      they are true in Python's sense, on its own otherwise (line 271). */
  datatype DriverCall<V> = WithParams(sql: string, params: Params<V>) | Bare(sql: string)

  function CallFor<V>(p: Prepared<V>): (c: DriverCall<V>)
    ensures c.sql == p.sql
    ensures c.WithParams? <==> Truthy(p.params)
    ensures c.WithParams? ==> c.params == p.params
  {
    if Truthy(p.params) then WithParams(p.sql, p.params) else Bare(p.sql)
  }

  /** The driver gets parameters exactly for SQL that has markers. */
  lemma ParamsPassedIffMarkers<V>(raw: string, target: string, params: Params<V>, env: map<string, string>)
    requires WellFormedParams(params)
    requires PreparedFor(raw, target, params, env).Ok?
    ensures var a := Analyse(raw).value;
      CallFor(PreparedFor(raw, target, params, env).value).WithParams? <==> a.named != {} || a.positional > 0
  {
    var a := Analyse(raw).value;
    BoundIsTruthyIffMarkers(a.named, a.positional, params);
  }

  /** What the driver reports: the connection is refused, the statement
      fails, the statement has a result set (rows as column-to-value
      dicts), or it has none (affected rows and the last inserted id). */
  datatype DriverOutcome =
    | ConnectFailed(message: string)
    | StatementFailed(message: string)
    | Described(rows: seq<seq<(string, Value)>>)
    | Undescribed(affected: int, lastRowId: Option<int>)

  /** The dictionaries `execute_raw_sql` returns. */
  datatype Envelope =
    | ResultSet(rows: seq<Json>, rowcount: int)
    | Ack(rowcount: int, lastRowId: Option<int>)

  /** The envelope for a driver outcome, or the error raised for it: a
      result set carries every row made JSON-safe, in order, and counts
      them. */
  function Conclude(o: DriverOutcome): (r: Result<Envelope, ServiceError>)
    ensures o.ConnectFailed? ==> r == Err(ConnectionError(o.message))
    ensures o.StatementFailed? ==> r == Err(ExecutionError(o.message))
    ensures o.Described? ==> r.Ok? && r.value.ResultSet? && r.value.rowcount == |r.value.rows| == |o.rows|
    ensures o.Described? ==> forall i :: 0 <= i < |o.rows| ==>
      r.value.rows[i] == ToJsonSafe(Dict(o.rows[i]))
      && r.value.rows[i].JObject? && KeysOf(r.value.rows[i].entries) == KeysOf(o.rows[i])
    ensures o.Undescribed? ==> r == Ok(Ack(o.affected, o.lastRowId))
  {
    match o
    case ConnectFailed(message) => Err(ConnectionError(message))
    case StatementFailed(message) => Err(ExecutionError(message))
    case Described(rows) =>
      var data := seq(|rows|, i requires 0 <= i < |rows| => ToJsonSafe(Dict(rows[i])));
      Ok(ResultSet(data, |data|))
    case Undescribed(affected, lastRowId) => Ok(Ack(affected, lastRowId))
  }

  /** `execute_raw_sql`: the prepared statement and the call made with it,
      or the first error; then the envelope for what the driver reports.
      No call is made when a check fails. */
  method ExecuteRawSql<V>(raw: string, target: string, params: Params<V>, env: map<string, string>,
                          outcome: DriverOutcome)
    returns (r: Result<Envelope, ServiceError>, call: Option<DriverCall<V>>)
    requires WellFormedParams(params)
    ensures PreparedFor(raw, target, params, env).Err? ==>
      r == Err(PreparedFor(raw, target, params, env).error) && call.None?
    ensures PreparedFor(raw, target, params, env).Ok? ==>
      && r == Conclude(outcome)
      && call == if outcome.ConnectFailed? then None
                 else Some(CallFor(PreparedFor(raw, target, params, env).value))
  {
    var t := FromValue(target);
    if t.Err? {
      return Err(t.error), None;
    }
    var analysis := Analyse(raw);
    if analysis.Err? {
      return Err(analysis.error), None;
    }
    var a := analysis.value;
    var bound := Validate(a.named, a.positional, params);
    if bound.Err? {
      return Err(bound.error), None;
    }
    var config := CollectConfig(t.value, env);
    if config.Err? {
      return Err(config.error), None;
    }
    if outcome.ConnectFailed? {
      return Err(ConnectionError(outcome.message)), None;
    }
    var prepared := Prepared(t.value, a.sql, bound.value, config.value);
    call := Some(CallFor(prepared));
    r := Conclude(outcome);
  }
}
