/** The check that the `params` of a request fit the markers of its SQL text
    (`_validate_params`, sigur/services/mysql.py lines 119-181). */
module ParamBinding {
  import opened Wrappers
  import opened Strings
  import opened ServiceErrors

  /** The `params` argument as the validator can tell it apart: nothing
      (`None`), a mapping (its entries in iteration order), a sequence other
      than `str` and `bytes` (a list or a tuple, say), or any other value.
      For another value only two things matter: whether Python finds it
      true, and the result of `len()` on it, if it has one (a string is such
      a value: it has a length but is refused as a list of positional
      values). */
  datatype Params<V> =
    | Absent
    | Mapping(entries: seq<(string, V)>)
    | Sequence(items: seq<V>)
    | Other(truthy: bool, size: Option<nat>)

  /** The keys of a Python mapping are distinct. */
  predicate DistinctKeys<V>(entries: seq<(string, V)>) {
    forall i, j :: 0 <= i < j < |entries| ==> entries[i].0 != entries[j].0
  }

  predicate WellFormedParams<V>(params: Params<V>) {
    params.Mapping? ==> DistinctKeys(params.entries)
  }

  function KeySet<V>(entries: seq<(string, V)>): (r: set<string>)
    ensures forall i :: 0 <= i < |entries| ==> entries[i].0 in r
    ensures forall k :: k in r ==> exists i :: 0 <= i < |entries| && entries[i].0 == k
  {
    set i | 0 <= i < |entries| :: entries[i].0
  }

  /** `list(params.values())`: the values in iteration order. */
  function ValuesOf<V>(entries: seq<(string, V)>): (r: seq<V>)
    ensures |r| == |entries|
    ensures forall i :: 0 <= i < |entries| ==> r[i] == entries[i].1
  {
    seq(|entries|, i requires 0 <= i < |entries| => entries[i].1)
  }

  /** Python truthiness: `None` is false, a container is true when non-empty. */
  predicate Truthy<V>(params: Params<V>): (b: bool)
    ensures params.Absent? ==> !b
    ensures params.Mapping? || params.Sequence? ==>
      (b <==> params != Mapping([]) && params != Sequence([]))
  {
    match params
    case Absent => false
    case Mapping(entries) => |entries| > 0
    case Sequence(items) => |items| > 0
    case Other(truthy, _) => truthy
  }

  /** What `_validate_params` returns, or the error it raises. SQL with `%s`
      markers gets a tuple of the values in order, SQL without markers gets
      `None`, and SQL with named markers gets the mapping itself, unchanged.
      The first argument of the source function (the SQL text) is not used
      by it and is not a parameter here. */
  function Validate<V>(required: set<string>, positional: nat, params: Params<V>): (r: Result<Params<V>, ServiceError>)
    requires WellFormedParams(params)
    // positional markers: a mapping's values or a list, of exactly the right length
    ensures positional > 0 ==>
      (r.Ok? <==> (params.Mapping? && |params.entries| == positional)
                  || (params.Sequence? && |params.items| == positional))
    ensures positional > 0 && r.Ok? ==>
      r.value == Sequence(if params.Mapping? then ValuesOf(params.entries) else params.items)
    ensures positional > 0 && params.Absent? ==> r == Err(ParameterError(NoPositionalValues(positional), []))
    ensures positional > 0 && params.Other? ==> r == Err(ParameterError(PositionalNotSequence, []))
    ensures positional > 0 && params.Sequence? && |params.items| != positional ==>
      r == Err(ParameterError(PositionalCountMismatch(positional, |params.items|), []))
    ensures positional > 0 && params.Mapping? && |params.entries| != positional ==>
      r == Err(ParameterError(PositionalCountMismatch(positional, |params.entries|), []))
    // no markers at all: anything false is accepted and nothing is bound
    ensures positional == 0 && required == {} ==> (r.Ok? <==> !Truthy(params))
    ensures positional == 0 && required == {} && r.Ok? ==> r.value == Absent
    ensures positional == 0 && required == {} && Truthy(params) && params.Mapping? ==>
      r.Err? && r.error.ParameterError? && r.error.problem.UnexpectedKeys?
      && r.error.missingParams == []
      && StrictlySorted(r.error.problem.keys)
      && (forall k :: k in r.error.problem.keys <==> k in KeySet(params.entries))
      && |r.error.problem.keys| == |params.entries|
    ensures positional == 0 && required == {} && Truthy(params) && params.Sequence? ==>
      r == Err(ParameterError(UnexpectedValues(|params.items|), []))
    ensures positional == 0 && required == {} && Truthy(params) && params.Other? ==>
      r == if params.size.Some? then Err(ParameterError(UnexpectedValues(params.size.value), []))
           else Err(TypeFailure)
    // named markers: a mapping holding every required name, passed on as it is
    ensures positional == 0 && required != {} ==>
      (r.Ok? <==> params.Mapping? && required <= KeySet(params.entries))
    ensures positional == 0 && required != {} && r.Ok? ==> r.value == params
    ensures positional == 0 && required != {} && params.Absent? ==>
      r == Err(ParameterError(NoNamedValues, SortedList(required)))
    ensures positional == 0 && required != {} && params.Mapping? && r.Err? ==>
      r.error.ParameterError? && r.error.problem == NamedValuesMissing
      && StrictlySorted(r.error.missingParams)
      && (forall k :: k in r.error.missingParams <==> k in required && k !in KeySet(params.entries))
    ensures positional == 0 && required != {} && (params.Sequence? || params.Other?) ==>
      r == Err(ParameterError(NamedNotMapping, []))
  {
    if positional > 0 then
      match params
      case Absent => Err(ParameterError(NoPositionalValues(positional), []))
      case Other(_, _) => Err(ParameterError(PositionalNotSequence, []))
      case Mapping(entries) => Positional(positional, ValuesOf(entries))
      case Sequence(items) => Positional(positional, items)
    else if required == {} then
      if !Truthy(params) then Ok(Absent)
      else
        match params
        case Mapping(entries) =>
          DistinctKeysCount(entries);
          Err(ParameterError(UnexpectedKeys(SortedList(KeySet(entries))), []))
        case Sequence(items) => Err(ParameterError(UnexpectedValues(|items|), []))
        case Other(_, size) =>
          if size.Some? then Err(ParameterError(UnexpectedValues(size.value), [])) else Err(TypeFailure)
    else
      match params
      case Absent => Err(ParameterError(NoNamedValues, SortedList(required)))
      case Mapping(entries) =>
        if required <= KeySet(entries) then Ok(params)
        else Err(ParameterError(NamedValuesMissing, SortedList(required - KeySet(entries))))
      case _ => Err(ParameterError(NamedNotMapping, []))
  }

  /** The length check of the positional values. */
  function Positional<V>(positional: nat, values: seq<V>): (r: Result<Params<V>, ServiceError>)
    ensures r.Ok? <==> |values| == positional
    ensures r.Ok? ==> r.value == Sequence(values)
    ensures r.Err? ==> r.error == ParameterError(PositionalCountMismatch(positional, |values|), [])
  {
    if |values| != positional then Err(ParameterError(PositionalCountMismatch(positional, |values|), []))
    else Ok(Sequence(values))
  }

  /** A mapping with distinct keys has as many keys as entries. */
  lemma {:induction false} DistinctKeysCount<V>(entries: seq<(string, V)>)
    requires DistinctKeys(entries)
    ensures |KeySet(entries)| == |entries|
    decreases |entries|
  {
    if entries != [] {
      var rest := entries[..|entries| - 1];
      var last := entries[|entries| - 1];
      assert DistinctKeys(rest);
      DistinctKeysCount(rest);
      assert KeySet(entries) == KeySet(rest) + {last.0};
      assert last.0 !in KeySet(rest);
    }
  }

  /** Whatever the validator lets through is true exactly when the SQL has
      markers: the driver is then called with parameters (line 271) exactly
      for SQL with markers, and without them otherwise. */
  lemma BoundIsTruthyIffMarkers<V>(required: set<string>, positional: nat, params: Params<V>)
    requires WellFormedParams(params)
    requires Validate(required, positional, params).Ok?
    ensures Truthy(Validate(required, positional, params).value) <==> positional > 0 || required != {}
  {
    if positional == 0 && required != {} {
      var k :| k in required;
      assert k in KeySet(params.entries);
    }
  }
}
