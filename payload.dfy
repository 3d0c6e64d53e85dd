/** Decoding one event payload of the chat stream (lines 91-108 of
    public/chat.js): the `[DONE]` sentinel, JSON parsing, and picking the
    content fragment out of either of the two reply shapes. */
module Payload {

  datatype Option<+T> = None | Some(value: T)

  /** A value produced by `JSON.parse`. A number is represented by its
      JavaScript string form (what `String(n)` gives), which is all the chat
      client observes of it: its truthiness and the text appended. */
  datatype Json =
    | JNull
    | JBool(b: bool)
    | JNumber(text: string)
    | JString(s: string)
    | JArray(items: seq<Json>)
    | JObject(fields: map<string, Json>)

  /** `JSON.parse`, a foreign call: a partial function, `None` where it throws. */
  type Parser = string -> Option<Json>

  const DoneSentinel: string := "[DONE]"

  /** Property access `v[key]` on a non-null value, `None` for `undefined`.
      Arrays and strings answer the index key "0"; the named keys the client
      reads (`response`, `choices`, `delta`, `content`) exist only on objects. */
  function Get(v: Json, key: string): (r: Option<Json>)
    requires !v.JNull?
    ensures v.JObject? ==> r == (if key in v.fields then Some(v.fields[key]) else None)
    ensures v.JArray? ==> r == (if key == "0" && |v.items| > 0 then Some(v.items[0]) else None)
    ensures v.JString? ==> r == (if key == "0" && v.s != "" then Some(JString([v.s[0]])) else None)
    ensures v.JBool? || v.JNumber? ==> r.None?
  {
    match v
    case JObject(fields) => if key in fields then Some(fields[key]) else None
    case JArray(items) => if key == "0" && |items| > 0 then Some(items[0]) else None
    case JString(s) => if key == "0" && |s| > 0 then Some(JString([s[0]])) else None
    case _ => None
  }

  /** `undefined` or `null`: what `??` and `?.` test for. */
  predicate Nullish(o: Option<Json>) {
    o.None? || o.value.JNull?
  }

  /** Optional chaining `o?.[key]`. */
  function GetOpt(o: Option<Json>, key: string): (r: Option<Json>)
    ensures Nullish(o) ==> r.None?
    ensures !Nullish(o) ==> r == Get(o.value, key)
  {
    if Nullish(o) then None else Get(o.value, key)
  }

  /** `json.choices?.[0]?.delta?.content`. Only an object with a `choices`
      key can have one, and the documented delta shape yields its text. */
  function DeltaContent(json: Json): (r: Option<Json>)
    requires !json.JNull?
    ensures r.Some? ==> json.JObject? && "choices" in json.fields
    ensures forall t :: json == DeltaShape(t) ==> r == Some(JString(t))
  {
    GetOpt(GetOpt(GetOpt(Get(json, "choices"), "0"), "delta"), "content")
  }

  /** `json.response ?? json.choices?.[0]?.delta?.content ?? ''` (lines 96-99).
      `None` when `json` is `null`: reading `null.response` throws. Otherwise
      the result is never nullish; it is `response` whenever that is neither
      null nor undefined (even the empty string), else the delta content when
      that is neither, else the empty string. */
  function ExtractContent(json: Json): (r: Option<Json>)
    ensures r.None? <==> json.JNull?
    ensures r.Some? ==> !r.value.JNull?
    ensures r.Some? && !Nullish(Get(json, "response")) ==> r == Get(json, "response")
    ensures r.Some? && Nullish(Get(json, "response")) && !Nullish(DeltaContent(json)) ==>
      r == DeltaContent(json)
    ensures r.Some? && Nullish(Get(json, "response")) && Nullish(DeltaContent(json)) ==>
      r == Some(JString(""))
  {
    if json.JNull? then None
    else
      var response := Get(json, "response");
      if !Nullish(response) then response
      else
        var delta := DeltaContent(json);
        if !Nullish(delta) then delta else Some(JString(""))
  }

  /** JavaScript truthiness, as `if (content)` tests it. A number is falsy
      exactly when it is zero (`NaN` cannot come out of JSON). */
  predicate Truthy(v: Json): (b: bool)
    ensures b <==> !(v.JNull? || v == JBool(false) || v == JNumber("0") || v == JString(""))
  {
    match v
    case JNull => false
    case JBool(b) => b
    case JNumber(text) => text != "0"
    case JString(s) => s != ""
    case JArray(_) => true
    case JObject(_) => true
  }

  /** The string that `responseText += content` appends, or `None` where the
      conversion throws: an object whose own `toString` key hides the
      inherited method (its `valueOf` gives back the object itself). Arrays
      convert as `join(',')`, with `null` elements as empty strings. */
  function ToText(v: Json): (r: Option<string>)
    ensures v.JString? ==> r == Some(v.s)
    ensures v.JNumber? ==> r == Some(v.text)
    ensures v.JBool? ==> r == Some(if v.b then "true" else "false")
    ensures v.JNull? ==> r == Some("null")
    ensures v.JObject? ==> (r.None? <==> "toString" in v.fields)
    ensures v.JObject? && "toString" !in v.fields ==> r == Some("[object Object]")
    ensures v.JArray? ==>
      (r.None? <==> exists k :: 0 <= k < |v.items| && !v.items[k].JNull? && ToText(v.items[k]).None?)
    ensures v.JArray? ==> r == JoinItems(v.items)
    decreases v, 1
  {
    match v
    case JNull => Some("null")
    case JBool(b) => Some(if b then "true" else "false")
    case JNumber(text) => Some(text)
    case JString(s) => Some(s)
    case JArray(items) => JoinItems(items)
    case JObject(fields) => if "toString" in fields then None else Some("[object Object]")
  }

  /** `items.join(',')`: the texts of the items separated by commas, `null`
      items as empty texts. It throws exactly when one item's conversion does. */
  function JoinItems(items: seq<Json>): (r: Option<string>)
    ensures r.None? <==> exists k :: 0 <= k < |items| && !items[k].JNull? && ToText(items[k]).None?
    ensures items == [] ==> r == Some("")
    ensures |items| == 1 ==> r == (if items[0].JNull? then Some("") else ToText(items[0]))
    decreases items, 0
  {
    if items == [] then Some("")
    else
      var head := if items[0].JNull? then Some("") else ToText(items[0]);
      if |items| == 1 then head
      else
        match head
        case None => None
        case Some(h) =>
          match JoinItems(items[1..])
          case None => None
          case Some(t) => Some(h + "," + t)
  }

  /** The join of two non-empty runs of items is the join of each, separated
      by a comma; it throws when either part throws. With the single-item
      case of `JoinItems`, this fixes the text of every array. */
  lemma {:induction false} JoinItemsAppend(a: seq<Json>, b: seq<Json>)
    requires a != [] && b != []
    ensures JoinItems(a + b) ==
      (if JoinItems(a).Some? && JoinItems(b).Some?
       then Some(JoinItems(a).value + "," + JoinItems(b).value) else None)
  {
    assert (a + b)[0] == a[0];
    if |a| == 1 {
      assert (a + b)[1..] == b;
    } else {
      assert (a + b)[1..] == a[1..] + b;
      JoinItemsAppend(a[1..], b);
      var head := if a[0].JNull? then Some("") else ToText(a[0]);
      if head.Some? && JoinItems(a[1..]).Some? && JoinItems(b).Some? {
        var h, t, u := head.value, JoinItems(a[1..]).value, JoinItems(b).value;
        assert h + "," + (t + "," + u) == (h + "," + t) + "," + u;
      }
    }
  }

  /** Arrays convert like `join(',')`: `[1, null, "x"]` gives `"1,,x"`, and
      `[true, {toString: 0}]` throws. */
  lemma ArrayConversions()
    ensures ToText(JArray([JNumber("1"), JNull, JString("x")])) == Some("1,,x")
    ensures ToText(JArray([JBool(true), JObject(map["toString" := JNumber("0")])])).None?
  {
    assert [JNumber("1"), JNull, JString("x")][1..] == [JNull, JString("x")];
    assert [JNull, JString("x")][1..] == [JString("x")];
    assert JoinItems([JString("x")]) == Some("x");
    assert JoinItems([JNull, JString("x")]) == Some("" + "," + "x");
    assert "" + "," + "x" == ",x";
    assert JoinItems([JNumber("1"), JNull, JString("x")]) == Some("1" + "," + ",x");
    assert "1" + "," + ",x" == "1,,x";
    assert [JBool(true), JObject(map["toString" := JNumber("0")])][1..] == [JObject(map["toString" := JNumber("0")])];
  }

  /** What one event payload amounts to. */
  datatype Decoded =
    | Done                  // the `[DONE]` sentinel
    | Malformed             // caught and logged: parse failure or `null.response`
    | Content(value: Json)  // the extracted content, possibly falsy

  /** The body of the `for` loop over a batch (lines 92-99, 105-107). The
      sentinel is recognised before, and instead of, parsing. */
  function Decode(data: string, parse: Parser): (d: Decoded)
    ensures d.Done? <==> data == DoneSentinel
    ensures d.Malformed? <==>
      data != DoneSentinel && (parse(data).None? || parse(data).value.JNull?)
    ensures d.Content? ==> parse(data).Some? && Some(d.value) == ExtractContent(parse(data).value)
  {
    if data == DoneSentinel then Done
    else
      match parse(data)
      case None => Malformed
      case Some(json) =>
        match ExtractContent(json)
        case None => Malformed
        case Some(content) => Content(content)
  }

  /** The text one payload adds to the reply (lines 101-104): the converted
      content when it is truthy and converts without throwing, else nothing. */
  function FragmentText(data: string, parse: Parser): (t: string)
    ensures Decode(data, parse).Content? && Decode(data, parse).value.JString? ==>
      t == Decode(data, parse).value.s
    ensures !Decode(data, parse).Content? ==> t == ""
    ensures Decode(data, parse).Content? && !Truthy(Decode(data, parse).value) ==> t == ""
    ensures Decode(data, parse).Content? && Truthy(Decode(data, parse).value) ==>
      t == (if ToText(Decode(data, parse).value).Some? then ToText(Decode(data, parse).value).value else "")
  {
    match Decode(data, parse)
    case Content(v) =>
      if Truthy(v) then (match ToText(v) case Some(text) => text case None => "") else ""
    case _ => ""
  }

  /** The two reply shapes the client accepts. */
  function ResponseShape(t: string): Json {
    JObject(map["response" := JString(t)])
  }

  function DeltaShape(t: string): Json {
    JObject(map["choices" := JArray([JObject(map["delta" := JObject(map["content" := JString(t)])])])])
  }

  /** Both shapes yield their text, the empty `response` included; a payload
      that parses to neither key yields the empty string, not an error. */
  lemma ShapesYieldTheirText(t: string)
    ensures ExtractContent(ResponseShape(t)) == Some(JString(t))
    ensures ExtractContent(DeltaShape(t)) == Some(JString(t))
    ensures ExtractContent(JObject(map[])) == Some(JString(""))
  {
    assert Get(DeltaShape(t), "response").None?;
  }

  /** An empty-string `response` hides any delta content next to it. */
  lemma EmptyResponseDoesNotFallThrough(delta: Json)
    ensures ExtractContent(JObject(map["response" := JString(""), "choices" := delta]))
         == Some(JString(""))
  {
  }

  /** A payload that parses to `null` is skipped like one that fails to parse. */
  lemma NullPayloadIsMalformed(data: string, parse: Parser)
    requires data != DoneSentinel && parse(data) == Some(JNull)
    ensures Decode(data, parse) == Malformed && FragmentText(data, parse) == ""
  {
  }
}
