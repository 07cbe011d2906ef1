/**
 * JSON values as `JSON.parse` produces them, and the optional-chaining
 * lookups (`v?.a?.b`) and `??` defaults that the routes apply to them. The
 * parser itself is not modelled: a route that parses text is given the
 * parse as a partial function.
 */
module Json {
  import opened Wrappers

  datatype Json =
    | JNull
    | JBool(b: bool)
    | JNum(n: real)
    | JStr(s: string)
    | JArr(items: seq<Json>)
    | JObj(fields: map<string, Json>)

  /** `v?.[key]` where `None` is `undefined`: only an object that has the
   *  key gives a value; `undefined`, `null` and every other value give
   *  `undefined`. */
  function Member(v: Option<Json>, key: string): (r: Option<Json>)
    ensures r.Some? ==> v.Some? && v.value.JObj? && key in v.value.fields
  {
    if v.Some? && v.value.JObj? && key in v.value.fields then Some(v.value.fields[key]) else None
  }

  /** `v?.k1?.k2…`, one key after another. */
  function Path(v: Option<Json>, keys: seq<string>): Option<Json>
    decreases |keys|
  {
    if keys == [] then v else Path(Member(v, keys[0]), keys[1..])
  }

  /** Once a lookup gives `undefined`, the rest of the chain does too. */
  lemma {:induction false} PathOfUndefined(keys: seq<string>)
    ensures Path(None, keys) == None
  {
    if keys != [] { PathOfUndefined(keys[1..]); }
  }

  lemma {:induction false} PathAppend(v: Option<Json>, a: seq<string>, b: seq<string>)
    ensures Path(v, a + b) == Path(Path(v, a), b)
    decreases |a|
  {
    if a == [] {
      assert a + b == b;
    } else {
      assert (a + b)[0] == a[0] && (a + b)[1..] == a[1..] + b;
      PathAppend(Member(v, a[0]), a[1..], b);
    }
  }

  /** `x` stored under the keys `keys`, one nested object per key. */
  function Nest(keys: seq<string>, x: Json): Json
    decreases |keys|
  {
    if keys == [] then x else JObj(map[keys[0] := Nest(keys[1..], x)])
  }

  /** Round trip: following the keys of a nested object finds what was
   *  stored there. */
  lemma {:induction false} PathOfNest(keys: seq<string>, x: Json)
    ensures Path(Some(Nest(keys, x)), keys) == Some(x)
  {
    if keys != [] { PathOfNest(keys[1..], x); }
  }

  /** A lookup that finds something went through an object at every step. */
  lemma {:induction false} PathFound(v: Option<Json>, keys: seq<string>)
    requires keys != [] && Path(v, keys).Some?
    ensures v.Some? && v.value.JObj? && keys[0] in v.value.fields
  {
    if Member(v, keys[0]).None? { PathOfUndefined(keys[1..]); }
  }

  /** `x ?? fallback`: the fallback replaces `undefined` and `null` only,
   *  so `0`, `false` and `""` are kept. */
  function OrElse(x: Option<Json>, fallback: Json): (r: Json)
    ensures x.Some? && x.value != JNull ==> r == x.value
    ensures x.None? || x.value == JNull ==> r == fallback
  {
    if x.None? || x.value == JNull then fallback else x.value
  }

  /** JavaScript truthiness of a value that may be `undefined`. */
  predicate Truthy(x: Option<Json>) {
    x.Some? && match x.value
      case JNull => false
      case JBool(b) => b
      case JNum(n) => n != 0.0
      case JStr(s) => s != ""
      case _ => true
  }
}
