/**
 * JavaScript values as they appear in JSON configuration and manifests:
 * their truthiness (what `!x` and `a || b` test), `typeof`, and the text a
 * template literal `${x}` gives them.
 */
module Js {
  import opened Strings

  /** Numbers are integers here: the JSON files this code reads hold no fractions. */
  datatype JsValue =
    | Undefined
    | Null
    | Bool(b: bool)
    | Number(n: int)
    | Str(s: string)
    | Array(items: seq<JsValue>)
    | Object

  /** The JavaScript truthiness test. */
  predicate Truthy(v: JsValue) {
    match v
    case Undefined => false
    case Null => false
    case Bool(b) => b
    case Number(n) => n != 0
    case Str(s) => s != ""
    case Array(_) => true
    case Object => true
  }

  /** `typeof v`. */
  function TypeOf(v: JsValue): string {
    match v
    case Undefined => "undefined"
    case Null => "object"
    case Bool(_) => "boolean"
    case Number(_) => "number"
    case Str(_) => "string"
    case Array(_) => "object"
    case Object => "object"
  }

  /** `${v}`: arrays render as their elements joined by commas, with null and undefined elements empty. */
  function Text(v: JsValue): string
    decreases v, 1
  {
    match v
    case Undefined => "undefined"
    case Null => "null"
    case Bool(b) => if b then "true" else "false"
    case Number(n) => IntText(n)
    case Str(s) => s
    case Array(items) => Join(ItemTexts(v, items), ",")
    case Object => "[object Object]"
  }

  function ItemTexts(ghost whole: JsValue, items: seq<JsValue>): seq<string>
    requires forall i :: 0 <= i < |items| ==> items[i] < whole
    decreases whole, 0, |items|
  {
    if items == [] then []
    else
      var first := if items[0].Undefined? || items[0].Null? then "" else Text(items[0]);
      [first] + ItemTexts(whole, items[1..])
  }

  /** `obj[key]` on a plain object: a missing key reads as undefined. */
  function Get(obj: map<string, JsValue>, key: string): JsValue {
    if key in obj then obj[key] else Undefined
  }
}
