/** JSON values and the built-in `JSON.stringify` / `JSON.parse`, which are foreign
    to the model: they are carried as a `Codec` value whose one assumed law is that
    parsing what was stringified gives the value back. */
module Json {
  import opened Wrappers
  import JsText

  datatype Json =
    | JNull
    | JBool(b: bool)
    | JNum(n: int)
    | JStr(s: string)
    | JArr(items: seq<Json>)
    | JObj(members: seq<(string, Json)>)

  /** `value[key]` on a parsed value: the last member named `key` of an object
      (`JSON.parse` keeps the last of duplicate names); `None` stands for `undefined`. */
  function Member(j: Json, key: string): (r: Option<Json>)
    ensures j.JObj? && |j.members| > 0 && j.members[|j.members| - 1].0 == key ==>
              r == Some(j.members[|j.members| - 1].1)
    ensures !j.JObj? ==> r == None
    ensures j.JObj? ==> (r.Some? <==> exists i :: 0 <= i < |j.members| && j.members[i].0 == key)
    ensures r.Some? ==> j.JObj? && exists i :: IsLastNamed(j.members, key, i) && j.members[i].1 == r.value
  {
    if j.JObj? then LastMember(j.members, key) else None
  }

  /** Member `i` is named `key` and no member after it is. */
  predicate IsLastNamed(ms: seq<(string, Json)>, key: string, i: int)
  {
    0 <= i < |ms| && ms[i].0 == key && forall k :: i < k < |ms| ==> ms[k].0 != key
  }

  function LastMember(ms: seq<(string, Json)>, key: string): (r: Option<Json>)
    ensures r.Some? <==> exists i :: 0 <= i < |ms| && ms[i].0 == key
    ensures r.Some? ==> exists i :: IsLastNamed(ms, key, i) && ms[i].1 == r.value
  {
    if ms == [] then None
    else if ms[|ms| - 1].0 == key then
      assert IsLastNamed(ms, key, |ms| - 1);
      Some(ms[|ms| - 1].1)
    else
      var init := ms[..|ms| - 1];
      var r := LastMember(init, key);
      assert forall i :: 0 <= i < |ms| - 1 ==> init[i] == ms[i];
      if r.Some? then
        var i :| IsLastNamed(init, key, i) && init[i].1 == r.value;
        assert IsLastNamed(ms, key, i);
        r
      else
        r
  }

  /** A member read where only a string is of use: `None` when the member is
      missing or is not a string. */
  function StringMember(j: Json, key: string): Option<string>
  {
    match Member(j, key)
    case Some(JStr(s)) => Some(s)
    case _ => None
  }

  /** An object with three string members, in this order. */
  function Triple(k0: string, v0: string, k1: string, v1: string, k2: string, v2: string): (j: Json)
    ensures k0 != k1 && k0 != k2 && k1 != k2 ==>
              StringMember(j, k0) == Some(v0) && StringMember(j, k1) == Some(v1) && StringMember(j, k2) == Some(v2)
    ensures forall k :: k != k0 && k != k1 && k != k2 ==> Member(j, k) == None
  {
    var ms := [(k0, JStr(v0)), (k1, JStr(v1)), (k2, JStr(v2))];
    assert ms[..2] == [(k0, JStr(v0)), (k1, JStr(v1))];
    assert ms[..2][..1] == [(k0, JStr(v0))];
    if k0 != k1 && k0 != k2 && k1 != k2 then
      assert LastMember(ms, k1) == LastMember(ms[..2], k1) == Some(JStr(v1));
      assert LastMember(ms, k0) == LastMember(ms[..2], k0) == LastMember(ms[..2][..1], k0) == Some(JStr(v0));
      JObj(ms)
    else
      JObj(ms)
  }

  /** `JSON.stringify` and `JSON.parse` (the latter `None` where it throws). */
  datatype Codec = Codec(stringify: Json -> string, parse: string -> Option<Json>)

  /** What the model assumes of the browser's JSON: parsing the text of a value
      gives the value back, and that text is never empty. */
  ghost predicate RoundTrips(c: Codec)
  {
    && (forall j :: c.parse(c.stringify(j)) == Some(j))
    && (forall j :: c.stringify(j) != "")
  }

  /** JavaScript truthiness of a member read (`None` is `undefined`). */
  predicate Truthy(v: Option<Json>)
  {
    match v
    case None => false
    case Some(JNull) => false
    case Some(JBool(b)) => b
    case Some(JNum(n)) => n != 0
    case Some(JStr(s)) => s != ""
    case Some(_) => true
  }

  /** `String(v)`, the conversion a browser applies to a value passed where a
      string is expected. */
  function ToDomString(v: Option<Json>): (s: string)
    ensures v == None ==> s == "undefined"
    ensures forall t :: v == Some(JStr(t)) ==> s == t
  {
    match v
    case None => "undefined"
    case Some(j) => JsString(j)
  }

  function JsString(j: Json): string
    decreases j, 1
  {
    match j
    case JNull => "null"
    case JBool(b) => if b then "true" else "false"
    case JNum(n) => JsText.IntToString(n)
    case JStr(s) => s
    case JArr(items) => JoinFrom(items, 0)
    case JObj(_) => "[object Object]"
  }

  /** `items.slice(i).join(',')`, where `null` elements print as nothing. */
  function JoinFrom(items: seq<Json>, i: nat): string
    requires i <= |items|
    decreases JArr(items), 0, |items| - i
  {
    if i == |items| then ""
    else
      assert items[i] in items;
      var e := if items[i] == JNull then "" else JsString(items[i]);
      if i + 1 == |items| then e else e + "," + JoinFrom(items, i + 1)
  }
}
