/** The JSON question files the image and rendering scripts read, as Python
    sees them after `json.load`. */
module Json {
  import opened Wrappers
  import opened PyText

  /** A JSON value.  Numbers are integers (a fraction or exponent would
      make a Python float, which this model leaves out). */
  datatype Value =
    | Null
    | Bool(b: bool)
    | Int(i: int)
    | Str(s: string)
    | List(elems: seq<Value>)
    | Dict(fields: map<string, Value>)

  /** A question: a JSON object. */
  type Item = map<string, Value>

  /** The top level of a question file: a list of questions, or an object
      whose `"questions"` entry (when it has one) is that list. */
  datatype Document = Array(items: seq<Item>) | Object(questions: Option<seq<Item>>)

  /** `data if isinstance(data, list) else data.get("questions", [])`. */
  function Questions(doc: Document): (qs: seq<Item>)
    ensures doc.Array? ==> qs == doc.items
    ensures doc.Object? && doc.questions.None? ==> qs == []
  {
    match doc
    case Array(items) => items
    case Object(questions) => if questions.Some? then questions.value else []
  }

  /** Python's truth value of a JSON value. */
  predicate Truthy(v: Value) {
    match v
    case Null => false
    case Bool(b) => b
    case Int(i) => i != 0
    case Str(s) => s != ""
    case List(elems) => elems != []
    case Dict(fields) => fields != map[]
  }

  /** `str(v)`.  For a list or an object Python prints its `repr`, which is
      taken as the parameter `repr` (it is only ever consulted for those). */
  function Show(v: Value, repr: Value -> string): (r: string)
    ensures v.Str? ==> r == v.s
    ensures v.Int? ==> r == IntToString(v.i)
  {
    match v
    case Null => "None"
    case Bool(b) => if b then "True" else "False"
    case Int(i) => IntToString(i)
    case Str(s) => s
    case List(_) => repr(v)
    case Dict(_) => repr(v)
  }

  /** `item.get(key, default)`. */
  function Get(item: Item, key: string, default: Value): (v: Value)
    ensures key in item ==> v == item[key]
    ensures key !in item ==> v == default
  {
    if key in item then item[key] else default
  }

  /** `str(q.get(field, ""))`: the text the image scripts scan. */
  function FieldText(q: Item, field: string, repr: Value -> string): (t: string)
    ensures field !in q ==> t == ""
    ensures field in q && q[field].Str? ==> t == q[field].s
  {
    Show(Get(q, field, Str("")), repr)
  }
}
