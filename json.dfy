/**
 * Decoded JSON values as the Python code sees them after `json.loads`, and
 * the few dictionary operations the pipeline performs on them. Decoding
 * itself is not modelled: callers receive it as a function parameter.
 */
module Json {
  import opened Wrappers
  import opened Text

  /** A decoded JSON value. A number carries the text `str()` gives it and
      whether it is zero (Python's truthiness of numbers). */
  datatype Json =
    | JNull
    | JBool(b: bool)
    | JNum(text: string, isZero: bool)
    | JStr(s: string)
    | JList(items: seq<Json>)
    | JObject(fields: Dict)

  /** One key/value pair of a Python dict. */
  datatype Field = Field(key: string, value: Json)

  /** A Python dict: its pairs in insertion order. */
  type Dict = seq<Field>

  /** The outcome of `json.loads(text)`: a value, a `JSONDecodeError` with its
      message, or any other exception with its message. */
  datatype Decoded = Decoded(value: Json) | DecodeError(message: string) | Crashed(message: string)

  /** `key in d`. */
  predicate Has(d: Dict, key: string) {
    exists i :: 0 <= i < |d| && d[i].key == key
  }

  /** `d.get(key)`: the value stored under `key`, if any. */
  function Get(d: Dict, key: string): (r: Option<Json>)
    ensures r.Some? <==> Has(d, key)
  {
    if d == [] then None
    else if d[0].key == key then Some(d[0].value)
    else Get(d[1..], key)
  }

  /** Lookup finds the first field that carries the key. */
  lemma {:induction false} GetFirst(d: Dict, i: nat)
    requires i < |d|
    requires forall j :: 0 <= j < i ==> d[j].key != d[i].key
    ensures Get(d, d[i].key) == Some(d[i].value)
  {
    if i > 0 {
      GetFirst(d[1..], i - 1);
    }
  }

  /** The dict literal `{keys[0]: values[0], keys[1]: values[1], ...}`. */
  function Record(keys: seq<string>, values: seq<Json>): (d: Dict)
    requires |keys| == |values|
    ensures |d| == |keys|
    ensures forall i :: 0 <= i < |d| ==> d[i] == Field(keys[i], values[i])
  {
    seq(|keys|, i requires 0 <= i < |keys| => Field(keys[i], values[i]))
  }

  /** In a dict literal, a key written once is looked up to its value. */
  lemma GetRecord(keys: seq<string>, values: seq<Json>, i: nat)
    requires |keys| == |values| && i < |keys|
    requires keys[i] !in keys[..i]
    ensures Get(Record(keys, values), keys[i]) == Some(values[i])
  {
    var d := Record(keys, values);
    forall j | 0 <= j < i ensures d[j].key != d[i].key {
      assert keys[..i][j] == keys[j];
    }
    GetFirst(d, i);
  }

  /** A dict literal holds exactly its keys. */
  lemma HasRecord(keys: seq<string>, values: seq<Json>, key: string)
    requires |keys| == |values|
    ensures Has(Record(keys, values), key) <==> key in keys
  {
    var d := Record(keys, values);
    if key in keys {
      var k :| 0 <= k < |keys| && keys[k] == key;
      assert d[k].key == key;
    }
  }

  /** `d.get(key, default)`. */
  function GetOr(d: Dict, key: string, default: Json): Json {
    Get(d, key).GetOr(default)
  }

  /** `d[key] = value`: an existing key keeps its position, a new key goes last. */
  function Put(d: Dict, key: string, value: Json): Dict {
    if d == [] then [Field(key, value)]
    else if d[0].key == key then [Field(key, value)] + d[1..]
    else [d[0]] + Put(d[1..], key, value)
  }

  /** After `d[key] = value`, looking `key` up gives `value` and every other key
      is looked up as before. */
  lemma {:induction false} GetPut(d: Dict, key: string, value: Json, other: string)
    ensures Get(Put(d, key, value), key) == Some(value)
    ensures other != key ==> Get(Put(d, key, value), other) == Get(d, other)
  {
    if d != [] && d[0].key != key {
      GetPut(d[1..], key, value, other);
    }
  }

  /** `d[key] = value` adds at most one entry, and none when `key` is present. */
  lemma {:induction false} PutLength(d: Dict, key: string, value: Json)
    ensures |Put(d, key, value)| == if Has(d, key) then |d| else |d| + 1
  {
    if d != [] && d[0].key != key {
      PutLength(d[1..], key, value);
      assert Has(d, key) <==> Has(d[1..], key) by {
        if Has(d, key) {
          var i :| 0 <= i < |d| && d[i].key == key;
          assert d[1..][i - 1].key == key;
        }
        if Has(d[1..], key) {
          var i :| 0 <= i < |d[1..]| && d[1..][i].key == key;
          assert d[i + 1].key == key;
        }
      }
    }
  }

  /** Python's truthiness (`bool(v)`). */
  predicate Truthy(v: Json) {
    match v
    case JNull => false
    case JBool(b) => b
    case JNum(_, z) => !z
    case JStr(s) => s != ""
    case JList(items) => items != []
    case JObject(fields) => fields != []
  }

  /** `str(v)`: a string is itself; other values are shown as `repr` shows them. */
  function Show(v: Json): string {
    match v
    case JStr(s) => s
    case _ => Repr(v)
  }

  /** Python's `repr`, with strings always in single quotes and never escaped. */
  function Repr(v: Json): string {
    match v
    case JNull => "None"
    case JBool(b) => if b then "True" else "False"
    case JNum(text, _) => text
    case JStr(s) => Quote(s)
    case JList(items) =>
      "[" + JoinComma(seq(|items|, i requires 0 <= i < |items| => Repr(items[i]))) + "]"
    case JObject(fields) =>
      "{" + JoinComma(seq(|fields|, i requires 0 <= i < |fields| =>
                                      Quote(fields[i].key) + ": " + Repr(fields[i].value))) + "}"
  }

  function Quote(s: string): string {
    "'" + s + "'"
  }

  /** `", ".join(parts)`. */
  function JoinComma(parts: seq<string>): string {
    if parts == [] then "" else if |parts| == 1 then parts[0] else parts[0] + ", " + JoinComma(parts[1..])
  }

  /** Python's name for the type of a JSON value, as `TypeError` messages show it. */
  function TypeName(v: Json): string {
    match v
    case JNull => "NoneType"
    case JBool(_) => "bool"
    case JNum(text, _) => if exists i :: 0 <= i < |text| && text[i] in ".eEIN" then "float" else "int"
    case JStr(_) => "str"
    case JList(_) => "list"
    case JObject(_) => "dict"
  }
}
