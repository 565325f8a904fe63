/** Field-by-field sanitising of a document's data.

    A JavaScript object used as a dictionary is a `Dictionary`: a reference
    whose `fields` map every own enumerable key to its value. `SanitiseObject`
    allocates a fresh dictionary and fills it one field at a time with the
    value the caller's function gives for that field; the input is not touched.
 */
module Sanitise {

  /** A plain object `{ [field: string]: V }`. */
  class Dictionary<V> {
    var fields: map<string, V>

    /** The empty object literal `{}`. */
    constructor ()
      ensures fields == map[]
    {
      fields := map[];
    }
  }

  /** The dictionary `SanitiseObject` promises: the same keys, each value
      replaced by what `f` gives for that key and value. */
  function Sanitised<V>(data: map<string, V>, f: (string, V) -> V): map<string, V> {
    map field | field in data :: f(field, data[field])
  }

  /** `sanitiseObject(data, f)`: a new dictionary with the keys of `data`, where
      the value at `field` is `f(field, data[field])`; `data` is unchanged. */
  method SanitiseObject<V>(data: Dictionary<V>, f: (string, V) -> V) returns (sanitised: Dictionary<V>)
    ensures fresh(sanitised)
    ensures unchanged(data)
    ensures sanitised.fields.Keys == data.fields.Keys
    ensures forall field :: field in data.fields ==> sanitised.fields[field] == f(field, data.fields[field])
    ensures sanitised.fields == Sanitised(data.fields, f)
  {
    sanitised := new Dictionary();
    var remaining := data.fields.Keys;
    while remaining != {}
      invariant remaining <= data.fields.Keys
      invariant sanitised.fields.Keys == data.fields.Keys - remaining
      invariant forall field :: field in sanitised.fields ==> sanitised.fields[field] == f(field, data.fields[field])
      decreases remaining
    {
      var field :| field in remaining;
      sanitised.fields := sanitised.fields[field := f(field, data.fields[field])];
      remaining := remaining - {field};
    }
  }

  // ---------------------------------------------------------------------------
  // Properties of the sanitised dictionary

  /** Same keys, and each value is `f` of the key and the old value. */
  lemma SanitisedFields<V>(data: map<string, V>, f: (string, V) -> V)
    ensures Sanitised(data, f).Keys == data.Keys
    ensures forall field :: field in data ==> Sanitised(data, f)[field] == f(field, data[field])
  {
  }

  /** A function that leaves every value of `data` alone gives `data` back. */
  lemma SanitisedIdentity<V>(data: map<string, V>, f: (string, V) -> V)
    requires forall field :: field in data ==> f(field, data[field]) == data[field]
    ensures Sanitised(data, f) == data
  {
  }

  /** Sanitising one more field is adding that field, sanitised, to the
      result: the result does not depend on the order fields are visited in. */
  lemma {:induction false} SanitisedInsert<V>(data: map<string, V>, f: (string, V) -> V, field: string, value: V)
    ensures Sanitised(data[field := value], f) == Sanitised(data, f)[field := f(field, value)]
  {
    var lhs := Sanitised(data[field := value], f);
    var rhs := Sanitised(data, f)[field := f(field, value)];
    assert lhs.Keys == rhs.Keys;
    forall k | k in lhs ensures lhs[k] == rhs[k] {
      if k != field {
        assert data[field := value][k] == data[k];
      }
    }
  }

  // ---------------------------------------------------------------------------
  // The converters the adapters pass in and the unit test

  /** A field value: the few kinds the adapters and the unit test see. A
      `Timestamp` and a `Date` both carry milliseconds since the epoch; a
      nested map or array holds further values. */
  datatype Value =
    | Str(s: string)
    | Num(n: int)
    | Date(millis: int)
    | Timestamp(millis: int)
    | Map(entries: map<string, Value>)
    | List(items: seq<Value>)

  /** The adapters' converter: a top-level `Timestamp` becomes the `Date` it
      denotes, anything else, nested maps and arrays included, is kept as it is. */
  function TimestampToDate(field: string, value: Value): Value {
    if value.Timestamp? then Date(value.millis) else value
  }

  /** After the adapters' conversion no field holds a `Timestamp` at the top
      level, every such `Timestamp` became the `Date` at the same instant, and
      every other value is kept. */
  lemma TimestampsConverted(data: map<string, Value>)
    ensures forall field :: field in data ==>
      var v := Sanitised(data, TimestampToDate)[field];
      !v.Timestamp? &&
      (data[field].Timestamp? ==> v == Date(data[field].millis)) &&
      (!data[field].Timestamp? ==> v == data[field])
  {
  }

  /** The conversion looks at the top level only: a `Timestamp` inside a nested
      map or array is still a `Timestamp` afterwards. */
  lemma NestedTimestampsKept(t: int)
    ensures
      var data := map["meta" := Map(map["at" := Timestamp(t)]), "log" := List([Timestamp(t)])];
      var r := Sanitised(data, TimestampToDate);
      r["meta"].Map? && r["meta"].entries["at"] == Timestamp(t) &&
      r["log"].List? && r["log"].items == [Timestamp(t)]
  {
  }

  /** The unit test: `createdAt`, a `Date`, is turned into its ISO string by
      `iso`; `name` and `age` are kept. */
  lemma SanitiseTestExample(iso: int -> string, now: int)
    ensures
      var f := (field: string, value: Value) =>
        if field == "createdAt" && value.Date? then Str(iso(value.millis)) else value;
      var r := Sanitised(map["name" := Str("John"), "age" := Num(25), "createdAt" := Date(now)], f);
      r.Keys == {"name", "age", "createdAt"} &&
      r["name"] == Str("John") && r["age"] == Num(25) && r["createdAt"].Str?
  {
  }
}
