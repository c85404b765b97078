/** The exception hierarchy of the MySQL service (sigur/services/mysql.py,
    lines 16-37), as one error datatype. Every variant except `TypeFailure`
    is a `MySQLServiceError`; the message texts are not modelled, only the
    kind of failure and its structured data. */
module ServiceErrors {

  /** Why a `MySQLParameterError` was raised. */
  datatype ParamProblem =
    | MixedStyles                                        // named and positional markers together
    | NoPositionalValues(expected: nat)                  // positional SQL, `params is None`
    | PositionalNotSequence                              // positional SQL, params neither mapping nor list/tuple
    | PositionalCountMismatch(expected: nat, received: nat)
    | UnexpectedKeys(keys: seq<string>)                  // zero-placeholder SQL given a non-empty mapping (keys sorted)
    | UnexpectedValues(count: nat)                       // zero-placeholder SQL given a non-empty non-mapping
    | NoNamedValues                                      // named SQL, `params is None`
    | NamedNotMapping                                    // named SQL, params not a mapping
    | NamedValuesMissing                                 // named SQL, some required keys absent

  /** Why a `MySQLConfigurationError` was raised. */
  datatype ConfigProblem =
    | UnknownDatabase(value: string)
    | MissingSettings(variables: seq<string>)
    | PortNotInteger(raw: string)

  datatype ServiceError =
    | ConfigurationError(config: ConfigProblem)
    | ConnectionError(reason: string)
    | ExecutionError(reason: string)
      /** `missingParams` is the exception's `missing_params` attribute; it is
          empty unless the constructor was given a list. */
    | ParameterError(problem: ParamProblem, missingParams: seq<string>)
      /** Python's own `TypeError`, raised by `len()` on a value without a
          length; it is not a `MySQLServiceError`. */
    | TypeFailure
}
