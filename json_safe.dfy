/** The conversion of result-row values to JSON-representable values
    (`_to_json_safe`, sigur/services/mysql.py lines 62-81). */
module JsonSafe {
  import opened Wrappers
  import Base64

  /** The Python values a row can hold, except floats. `Foreign` stands for
      every other object that is not a float (dates, decimals, UUIDs,
      bytearrays, ...): the string Django's JSON encoder turns it into, when
      it can, and what `str()` gives. A float comes back from the JSON round
      trip as a JSON number and has no counterpart here. */
  datatype Value =
    | Null
    | Boolean(b: bool)
    | Integer(i: int)
    | Str(s: string)
    | Bytes(bytes: seq<Base64.byte>)
    | Dict(entries: seq<(string, Value)>)
    | List(items: seq<Value>)
    | Tuple(items: seq<Value>)
    | Foreign(encoded: Option<string>, text: string)

  /** Values JSON can represent directly. */
  datatype Json =
    | JNull
    | JBool(b: bool)
    | JInt(i: int)
    | JString(s: string)
    | JObject(entries: seq<(string, Json)>)
    | JArray(items: seq<Json>)

  function KeysOf<T>(entries: seq<(string, T)>): (r: seq<string>)
    ensures |r| == |entries| && forall i :: 0 <= i < |entries| ==> r[i] == entries[i].0
  {
    seq(|entries|, i requires 0 <= i < |entries| => entries[i].0)
  }

  /** `_to_json_safe`: bytes become their base64 text, a dict keeps its keys
      in order with converted values, a list or tuple becomes a list of the
      converted items in order, JSON scalars pass through, and every other
      non-float object is the string the JSON encoder makes of it, or its
      `str()` text when the encoder refuses. */
  function ToJsonSafe(v: Value): (r: Json)
    ensures v.Bytes? ==> r.JString? && Base64.Decode(r.s) == Some(v.bytes)
    ensures v.Dict? ==> r.JObject? && KeysOf(r.entries) == KeysOf(v.entries)
    ensures (v.List? || v.Tuple?) ==> r.JArray? && |r.items| == |v.items|
    ensures v.Foreign? ==> r.JString?
    decreases v
  {
    match v
    case Null => JNull
    case Boolean(b) => JBool(b)
    case Integer(i) => JInt(i)
    case Str(s) => JString(s)
    case Bytes(bytes) =>
      Base64.DecodeEncode(bytes);
      JString(Base64.Encode(bytes))
    case Dict(entries) =>
      JObject(seq(|entries|, i requires 0 <= i < |entries| => (entries[i].0, ToJsonSafe(entries[i].1))))
    case List(items) => JArray(seq(|items|, i requires 0 <= i < |items| => ToJsonSafe(items[i])))
    case Tuple(items) => JArray(seq(|items|, i requires 0 <= i < |items| => ToJsonSafe(items[i])))
    case Foreign(encoded, text) => if encoded.Some? then JString(encoded.value) else JString(text)
  }

  /** A JSON value as the Python value it is. */
  function Embed(j: Json): (v: Value)
    ensures j.JObject? ==> v.Dict? && KeysOf(v.entries) == KeysOf(j.entries)
    ensures j.JArray? ==> v.List? && |v.items| == |j.items|
    decreases j
  {
    match j
    case JNull => Null
    case JBool(b) => Boolean(b)
    case JInt(i) => Integer(i)
    case JString(s) => Str(s)
    case JObject(entries) => Dict(seq(|entries|, i requires 0 <= i < |entries| => (entries[i].0, Embed(entries[i].1))))
    case JArray(items) => List(seq(|items|, i requires 0 <= i < |items| => Embed(items[i])))
  }

  /** Values that are already JSON pass through unchanged. */
  lemma {:induction false} PassThrough(j: Json)
    ensures ToJsonSafe(Embed(j)) == j
    decreases j
  {
    match j
    case JObject(entries) =>
      var v := Embed(j);
      forall i | 0 <= i < |entries|
        ensures ToJsonSafe(v.entries[i].1) == entries[i].1
      {
        assert v.entries[i].1 == Embed(entries[i].1);
        PassThrough(entries[i].1);
      }
      assert ToJsonSafe(v).entries == entries;
    case JArray(items) =>
      var v := Embed(j);
      forall i | 0 <= i < |items|
        ensures ToJsonSafe(v.items[i]) == items[i]
      {
        PassThrough(items[i]);
      }
      assert ToJsonSafe(v).items == items;
    case _ =>
  }

  /** Converting twice is converting once. */
  lemma Idempotent(v: Value)
    ensures ToJsonSafe(Embed(ToJsonSafe(v))) == ToJsonSafe(v)
  {
    PassThrough(ToJsonSafe(v));
  }

  /** The converted value of each dict entry, in place. */
  lemma DictEntries(entries: seq<(string, Value)>, i: nat)
    requires i < |entries|
    ensures ToJsonSafe(Dict(entries)).entries[i] == (entries[i].0, ToJsonSafe(entries[i].1))
  {
  }

  /** The converted items of a list or tuple, in order. */
  lemma ListItems(items: seq<Value>, i: nat)
    requires i < |items|
    ensures ToJsonSafe(List(items)).items[i] == ToJsonSafe(items[i])
    ensures ToJsonSafe(Tuple(items)) == ToJsonSafe(List(items))
  {
  }
}
