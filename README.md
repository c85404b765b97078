# The placeholder and parameter engine of the Sigur SQL gateway

Sigur is a small Django service that stores named SQL statements and runs
them against one of two MySQL databases, `main` and `log`. Its MySQL
service (`sigur/services/mysql.py`) does five jobs before and after it calls
the PyMySQL driver. This project models those five jobs in Dafny and
proves what they promise:

- **Placeholder analysis** (`Placeholders`, `PlaceholderTemplates`).
  Colon markers `:name` are rewritten to PyMySQL's `%(name)s`. A `::name`
  is left alone, because a colon marker may not directly follow another
  colon. The distinct names of the `%(name)s` markers are collected, and the
  bare `%s` markers are counted. A `%%s` is not counted, because a bare marker
  may not directly follow a `%`, and neither is `%(name)s`. SQL that uses both named and bare markers is
  refused. The three regular expressions are written as explicit scans over
  the string. They are proved against an independent description of SQL
  text as a sequence of tokens (`Piece`): analysing the text of a template
  recovers exactly the markers it was built from. Besides the markers, a
  template may hold any other characters, lone `%` and `:` signs (as in
  `LIKE 'a%'` or `'10:30'`), `%%` and `::name`. One consequence of the
  look-behind: `%%%s` has no bare marker, so it is counted as 0.
- **Parameter validation** (`ParamBinding`). `_validate_params` has three
  modes:
  - positional: a mapping's values, or a list, of exactly the right length;
  - no markers: anything false is accepted, and `None` is passed on;
  - named: a mapping holding every required name, with the missing names
    reported sorted.
- **Configuration** (`Settings`). The target database comes from its value.
  Each setting is looked up first in `MYSQL_{TARGET}_{KEY}` and then in
  `MYSQL_{KEY}`, and an empty variable counts as unset. `_collect_config`
  is modelled as a class, `EnvReader`, whose `missing` list grows as the
  required keys are read. Its result is proved equal to a declarative
  description, `ResolvedConfig`. The environment is a map of variable names
  to values.
- **JSON-safe rows** (`JsonSafe`, `Base64`). Bytes become their base64
  text, as described in section 4 of RFC 4648, and the text decodes back to
  the same bytes. Dicts keep their keys in order, and lists keep their
  items in order. Values that are already JSON pass through unchanged.
- **The request** (`Service`). `execute_raw_sql` runs its checks in this
  order:
  1. the target;
  2. the placeholder styles;
  3. the parameters;
  4. the settings.

  The first failure is raised before the driver is called. The driver is
  passed the parameters only when they are true in Python's sense, which
  happens exactly when the SQL has markers. A result set's `rowcount` is
  the number of rows it returns.

The error classes (lines 16-37) are the datatype `ServiceErrors.ServiceError`.
Each error carries the data behind its message, and the message text itself
is not modelled.

## Model

| member | source | states |
|---|---|---|
| Placeholders.IdentEnd | sigur/services/mysql.py:84-85 | the greedy `[A-Za-z0-9_]*` run: every character before the end is an identifier character and the one at the end is not |
| Placeholders.NormaliseFrom | sigur/services/mysql.py:85-100 | the colon rewrite of a suffix never makes it shorter |
| Placeholders.Normalise | sigur/services/mysql.py:85-100 | the colon rewrite never shortens the SQL, and leaves SQL without a `:` unchanged |
| Placeholders.NormaliseCopies | sigur/services/mysql.py:85-100 | a stretch of text where no colon marker starts is copied as it is |
| Placeholders.NamedFrom | sigur/services/mysql.py:84-91 | every collected name is an identifier `[A-Za-z_][A-Za-z0-9_]*` |
| Placeholders.MarkerIsMatch | sigur/services/mysql.py:84 | the text `%(n)s` for an identifier `n` is a match of the named pattern, and the group is `n` |
| Placeholders.NamedFromIff | sigur/services/mysql.py:84-91 | a name is collected if and only if it is an identifier and `%(name)s` occurs somewhere in the text: non-overlapping left-to-right matching loses none |
| Placeholders.NamedParams | sigur/services/mysql.py:89-91 | the named set of a SQL text is exactly the set of identifiers that occur in it as `%(name)s` |
| Placeholders.PositionalFromCounts | sigur/services/mysql.py:86-102 | the count equals the number of positions holding `%s` not preceded by `%` |
| Placeholders.PositionalFrom | sigur/services/mysql.py:86-102 | every counted marker takes two characters, so the count of a suffix is at most half its length |
| Placeholders.PositionalCount | sigur/services/mysql.py:102 | the count of a SQL text is the number of positions holding a `%s` not preceded by `%`, and at most half its length |
| Placeholders.Analyse | sigur/services/mysql.py:94-110 | a success never has both named and positional markers; all names are identifiers; the only failure is the mixed-styles parameter error without missing names |
| Placeholders.MixedStylesRejected | sigur/services/mysql.py:100-108 | analysis fails if and only if the rewritten SQL holds some `%(name)s` marker and some bare `%s`, wherever they stand |
| Placeholders.RequiredNamedParams | sigur/services/mysql.py:113-116 | it succeeds exactly when analysis does; it returns a strictly ascending list with the same members as the named set; on failure it gives the mixed-styles error |
| PlaceholderTemplates.NormaliseRender | sigur/services/mysql.py:85-100 | on the text of a template, the colon rewrite gives the text of the template with every `:name` replaced by `%(name)s` and everything else (`::name`, `%%`, lone `%` and `:`, other characters) unchanged |
| PlaceholderTemplates.NamedRender | sigur/services/mysql.py:84-91 | on the text of a colon-free template, the named scan yields exactly the names of its `%(name)s` tokens |
| PlaceholderTemplates.PositionalRender | sigur/services/mysql.py:86-102 | on the text of a template, the positional scan counts exactly its `%s` tokens; `%%` and `%(name)s` are not counted |
| PlaceholderTemplates.AnalyseTemplate | sigur/services/mysql.py:94-110 | for every well-formed template, including ones with lone `%` and `:` signs, the analysis is the mixed-styles error when the template has markers of both styles; otherwise it is its canonical text, the names of its named and colon markers and the number of its `%s` markers |
| PlaceholderTemplates.ColonAndNamedAgree | sigur/services/mysql.py:85-110 | in every well-formed template, writing `:id` or `%(id)s` gives the same analysis |
| PlaceholderTemplates.Canonical | sigur/services/mysql.py:100 | the rewrite target: same length, piece by piece the colon marker as a named marker, no colon marker left, same names and count, well-formedness kept |
| Strings.SortedList | sigur/services/mysql.py:116 | `sorted()` of a set of strings: strictly ascending in code-point order, same members, same size |
| Strings.SortedListUnique | sigur/services/mysql.py:116 | any strictly ascending list with the members of a set is `sorted()` of that set |
| Strings.LeastUnique | sigur/services/mysql.py:116 | a set of strings has at most one least element |
| Strings.StrictlySortedDistinct | sigur/services/mysql.py:116 | a strictly ascending list repeats no element |
| Strings.ParseInt | sigur/services/mysql.py:217-218 | a port text is accepted if and only if it is one or more ASCII digits, optionally after one sign; a `-` gives a value at most 0, otherwise the value is at least 0 |
| Strings.ParseIntRoundTrip | sigur/services/mysql.py:217-218 | the decimal text of every integer is parsed back to that integer |
| Strings.DigitsLeadingZero | sigur/services/mysql.py:217-218 | a leading `0` does not change the value of a digit string |
| Strings.ParseIntLeadingZero | sigur/services/mysql.py:217-218 | leading zeros are ignored, with or without a sign: `03306` reads as `3306` |
| Strings.ParseIntPlus | sigur/services/mysql.py:217-218 | a `+` sign does not change the value: `+3306` reads as the digits' value |
| Strings.ParseIntMinus | sigur/services/mysql.py:217-218 | a `-` sign gives the negated value of the digits |
| ParamBinding.Truthy | sigur/services/mysql.py:150-151 | Python truthiness: `None` is false, and a mapping or a sequence is true exactly when it is not empty |
| ParamBinding.KeySet | sigur/services/mysql.py:154-173 | the keys of a mapping: every entry's key and nothing else |
| ParamBinding.ValuesOf | sigur/services/mysql.py:134 | `list(params.values())`: one value per entry, in iteration order |
| ParamBinding.Positional | sigur/services/mysql.py:142-148 | succeeds if and only if the number of values is the number of markers; gives the values in order, or the count mismatch with both numbers |
| ParamBinding.Validate | sigur/services/mysql.py:119-181 | in positional mode: success if and only if a mapping or a sequence of exactly the right length, bound as the values in order; `None`, other values and wrong lengths give their own errors. With no markers: success if and only if the params are false, bound as `None`; a true mapping gives its keys sorted, with no missing names, a sequence or sized value its length, an unsized value a type error. In named mode: success if and only if a mapping holds every required name, passed on unchanged; `None` gives the error with all required names sorted; a mapping gives exactly the absent names, sorted; anything else is refused |
| ParamBinding.DistinctKeysCount | sigur/services/mysql.py:154 | a mapping has as many distinct keys as entries, so the reported key list has one name per entry |
| ParamBinding.BoundIsTruthyIffMarkers | sigur/services/mysql.py:126-181 | what the validator accepts is true exactly when the SQL has a marker |
| Settings.DatabaseValue | sigur/services/mysql.py:40-42 | the values of the members are "main" and "log" |
| Settings.FromValue | sigur/services/mysql.py:44-49 | succeeds if and only if the value is "main" or "log", with the member of that value; any other value is a configuration error naming it |
| Settings.FromValueOfValue | sigur/services/mysql.py:40-49 | every member is found again from its value |
| Settings.Setting | sigur/services/mysql.py:187-197 | a setting resolves if and only if the target's variable or the shared variable is set and non-empty; the target's variable wins; a resolved value is never empty |
| Settings.EnvReader.constructor | sigur/services/mysql.py:184-185 | a reader for the target and environment with an empty `missing` list |
| Settings.EnvReader.Get | sigur/services/mysql.py:187-201 | a resolved setting is returned; otherwise the shared variable as it is (empty) or the default; with a default it returns the setting or the default; a required key that stays empty appends its specific and then its generic variable to `missing`, and nothing else changes |
| Settings.MissingVariables | sigur/services/mysql.py:199-211 | the listed names come in pairs, at most one pair per key |
| Settings.MissingPair | sigur/services/mysql.py:199-200 | a key adds nothing to the missing list exactly when its specific or its generic variable is set and not empty; otherwise it adds the specific and then the generic variable |
| Settings.MissingRequired | sigur/services/mysql.py:203-205 | the list for the required keys is the pairs for HOST, USER and DATABASE, in that order |
| Settings.MissingVariablesEmpty | sigur/services/mysql.py:207 | nothing is missing if and only if every key resolves |
| Settings.MissingVariablesMembers | sigur/services/mysql.py:199-200 | a variable is listed if and only if it is the specific or the generic variable of an unresolved key |
| Settings.NothingSetListsAll | sigur/services/mysql.py:203-211 | with nothing set, the message names `MYSQL_{T}_HOST, MYSQL_HOST, MYSQL_{T}_USER, MYSQL_USER, MYSQL_{T}_DATABASE, MYSQL_DATABASE` |
| Settings.ResolvedConfig | sigur/services/mysql.py:184-229 | the missing-settings error if and only if a required key is unresolved, listing exactly the missing variables; otherwise the port error with the port text; success if and only if every required key resolves and the port parses; the fields are the resolved settings, with password "", port 3306 and charset "utf8mb4" as defaults |
| Settings.ResolvedMissing | sigur/services/mysql.py:207-211 | a non-empty missing list is the error |
| Settings.ResolvedComplete | sigur/services/mysql.py:213-229 | with the required keys resolved, the outcome depends only on the port text |
| Settings.CollectConfig | sigur/services/mysql.py:184-229 | the reader-based procedure gives exactly `ResolvedConfig` |
| Settings.OrDefault | sigur/services/mysql.py:214-215 | `value or default`: a set, non-empty value is kept, anything else gives the default; with a non-empty default the result is never empty |
| Settings.PortText | sigur/services/mysql.py:214 | the port text is the resolved port setting, or "3306" when none resolves; it is never empty |
| Settings.DefaultPort | sigur/services/mysql.py:214-218 | without a port setting the port is 3306 |
| Settings.EmptyMeansDefault | sigur/services/mysql.py:214-215 | PORT and CHARSET variables that are unset or empty give 3306 and "utf8mb4" |
| Settings.VariablesDistinct | sigur/services/mysql.py:188-189 | different target/key pairs have different specific variables, and no specific variable is a generic one |
| Settings.TargetIsolation | sigur/services/mysql.py:188-197 | the settings of one target ignore the variables specific to the other target |
| Base64.SextetChar | sigur/services/mysql.py:70 | an alphabet character is never the pad `=` |
| Base64.SextetOf | sigur/services/mysql.py:70 | a decoded character has a 6-bit value whose character it is; `=` has none |
| Base64.SextetRoundTrip | sigur/services/mysql.py:70 | every 6-bit value is read back from its character |
| Base64.EncodeGroup | sigur/services/mysql.py:70 | three bytes give four alphabet characters |
| Base64.Encode | sigur/services/mysql.py:70 | the length of the text is 4·⌈n/3⌉ |
| Base64.EncodeAlphabet | sigur/services/mysql.py:70 | the text is alphabet characters followed by exactly as many `=` as the last group lacks bytes |
| Base64.DecodeGroup | sigur/services/mysql.py:70 | a decoded group holds one to three bytes, three unless it is the last |
| Base64.DecodeEncode | sigur/services/mysql.py:70 | decoding the encoding gives the original bytes back |
| Base64.EncodeDecode | sigur/services/mysql.py:70 | whatever the decoder accepts is the encoding of the bytes it yields |
| JsonSafe.KeysOf | sigur/services/mysql.py:72 | the keys of a dict's entries, in order |
| JsonSafe.ToJsonSafe | sigur/services/mysql.py:62-81 | bytes become a string that decodes back to them; a dict keeps its keys in order; a list or tuple keeps its length; any other object except a float (dates, decimals and the like) becomes a string |
| JsonSafe.Embed | sigur/services/mysql.py:76-78 | a JSON value as a Python value keeps its keys and length |
| JsonSafe.PassThrough | sigur/services/mysql.py:76-78 | values that are already JSON pass through unchanged |
| JsonSafe.Idempotent | sigur/services/mysql.py:62-81 | converting twice is converting once |
| JsonSafe.DictEntries | sigur/services/mysql.py:72 | each dict entry keeps its key and position and has its value converted |
| JsonSafe.ListItems | sigur/services/mysql.py:73-74 | each item keeps its position and is converted; a tuple converts to the same list as a list |
| Service.PreparedFor | sigur/services/mysql.py:245-251 | the checks run in the order target, placeholder styles, parameters, settings, and the first failure is the result |
| Service.MixedStylesRefusedFirst | sigur/services/mysql.py:248-251 | mixed styles are refused for a known target, whatever the parameters and the environment |
| Service.ParameterErrorsIgnoreEnvironment | sigur/services/mysql.py:248-251 | a parameter error does not depend on the environment: it is raised before the settings are read |
| Service.CallFor | sigur/services/mysql.py:271-274 | the driver gets the normalised SQL, with the bound parameters, unchanged, exactly when they are true |
| Service.ParamsPassedIffMarkers | sigur/services/mysql.py:248-274 | the driver is given parameters if and only if the SQL has a named or a positional marker |
| Service.Conclude | sigur/services/mysql.py:264-291 | a refused connection or a failing statement gives its error; a result set has one JSON object per row, in order, each the JSON-safe conversion of its row and with the row's keys in order, and `rowcount` is the number of rows; otherwise the affected count and last row id |
| Service.ExecuteRawSql | sigur/services/mysql.py:232-293 | a failed check gives that error and no driver call; otherwise the envelope for the driver's outcome, and the call of `CallFor` unless the connection was refused |

## Left out

- The driver. Connecting, executing, fetching, commit, rollback and close (sigur/services/mysql.py:253-293) are PyMySQL I/O. What the driver reports comes in as a `DriverOutcome` parameter, and transaction effects are not modelled.
- The message texts of the errors. Each error carries only the data its message is built from: counts, key lists, variable names and the port text.
- JsonSafe.ToJsonSafe: for values other than bytes, dicts, lists and tuples, the model does not describe how Django's JSON encoder and the `str()` fallback work. `Foreign` carries the string they produce, and dates, decimals and the like are not modelled one by one.
- JsonSafe.ToJsonSafe: floats (FLOAT and DOUBLE columns) are not modelled. Line 78 keeps a float as a JSON number, so it is not a string; `Value` has no float and `Json` has no number other than an integer. The claim that any other object becomes a string covers every object except a float.
- JsonSafe.ToJsonSafe: dict keys are strings, as the column names of a `DictCursor` row are. Other key types are not modelled.
- Strings.ParseInt: it reads an optional sign followed by one or more ASCII digits. Python's `int()` also accepts surrounding whitespace, `_` between digits and non-ASCII digits; the model refuses those.
- ParamBinding.Validate: mapping keys are strings. The source sorts `str(key)` for each key when it reports unexpected keys, so a mapping with keys of other types is not modelled.
- ParamBinding.Validate: the normalised SQL argument of `_validate_params` is not used by the source and is not a parameter. For an `Other` value, the truth value and the `len()` result are independent inputs.
- Settings: `os.getenv` is a map lookup. The environment is assumed not to change between the reads of one resolution.
- Service.ExecuteRawSql: the target is passed as its string value. The source calls `from_value` on it, and for a member of the enum that returns the member itself.
- PlaceholderTemplates.AnalyseTemplate: it is proved for well-formed templates only. Their neighbouring pieces do not run together (`Adjacent`). The pieces are chosen so that such templates can spell any SQL text except one in which a `%(` does not begin a `%(name)s` marker, as in `'%(1)'`; that coverage is argued, not proved. For such text the analysis is described only by the scan-level lemmas `Placeholders.NamedFromIff`, `Placeholders.PositionalFromCounts` and `Placeholders.MixedStylesRejected`, not against a template.
- PlaceholderTemplates.NormaliseRender: it is proved for well-formed templates only, so it does not cover text in which a `%(` does not begin a `%(name)s` marker. For all text, `Placeholders.NormaliseCopies` and `Placeholders.Normalise` describe the rewrite only where there is no colon marker.
- PlaceholderTemplates.ColonAndNamedAgree: it is proved for well-formed templates only, with the same exclusion as `AnalyseTemplate`.
- The HTTP views, the models, the admin, the URLs, the serializers and the migrations are not part of this model. The view at sigur/views.py:41 never passes `params`, and sigur/views.py:42-47 does not catch the parameter error.
