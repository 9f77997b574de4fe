/** The values a template tag can reach by walking a media record: strings,
    numbers, string lists (such as `genres` and `artists`), nested objects, and
    `undefined` for a property that is not there. */
module Values {

  import opened Wrappers
  import opened JsText

  datatype Value =
    | Undefined
    | Str(s: string)
    | Num(n: int)
    | StrList(items: seq<string>)
    | Object(fields: map<string, Value>)

  /** `o[key]` for a property key: an object's own property, the `length` of a
      string or an array, or the element a canonical index key names. */
  function Lookup(o: Value, key: string): (v: Value)
  {
    match o
    case Object(fields) => if key in fields then fields[key] else Undefined
    case Str(s) =>
      if key == "length" then Num(|s|)
      else if ParseIndex(key).Some? && ParseIndex(key).value < |s| then Str([s[ParseIndex(key).value]])
      else Undefined
    case StrList(items) =>
      if key == "length" then Num(|items|)
      else if ParseIndex(key).Some? && ParseIndex(key).value < |items| then Str(items[ParseIndex(key).value])
      else Undefined
    case _ => Undefined
  }

  /** An array element is found under its index's numeral and under no other
      key except `length`. */
  lemma ListElementKeys(items: seq<string>, key: string, i: nat)
    requires i < |items|
    ensures key == NatToText(i) ==> Lookup(StrList(items), key) == Str(items[i])
    ensures Lookup(StrList(items), key).Str? ==> ParseIndex(key).Some? && key == NatToText(ParseIndex(key).value)
  {
    if key == NatToText(i) {
      ParseNatToText(i);
    }
    if Lookup(StrList(items), key).Str? {
      NatToTextParse(key);
    }
  }

  /** `String(v)`, the text JavaScript makes of a value when it is put into a
      string: arrays join their elements with commas, plain objects become
      "[object Object]". */
  function ToText(v: Value): string
  {
    match v
    case Undefined => "undefined"
    case Str(s) => s
    case Num(n) => IntToText(n)
    case StrList(items) => Join(items, ",")
    case Object(_) => "[object Object]"
  }
}
