/** The fragment of serde_json's Value that the handlers build: strings and
    objects. Every object built here has a single member, so the order in
    which serde_json's map keeps its keys plays no part. */
module JsonValue {
  import opened Wrappers

  datatype Json = JString(text: string) | JObject(members: seq<(string, Json)>)

  /** The member names of an object, in order; a non-object has none. */
  function Keys(j: Json): (keys: seq<string>)
    ensures j.JObject? ==> |keys| == |j.members|
    ensures j.JObject? ==> forall i :: 0 <= i < |keys| ==> keys[i] == j.members[i].0
    ensures j.JString? ==> keys == []
  {
    match j
    case JString(_) => []
    case JObject(ms) => seq(|ms|, i requires 0 <= i < |ms| => ms[i].0)
  }

  /** The value of the first member named `key`, as `json["key"]` reads it. */
  function Field(j: Json, key: string): (r: Option<Json>)
    ensures r.Some? <==> j.JObject? && exists i :: 0 <= i < |j.members| && j.members[i].0 == key
  {
    match j
    case JString(_) => None
    case JObject(ms) => MemberValue(ms, key)
  }

  function MemberValue(ms: seq<(string, Json)>, key: string): (r: Option<Json>)
    ensures r.Some? <==> exists i :: 0 <= i < |ms| && ms[i].0 == key
    ensures r.Some? ==> exists i :: 0 <= i < |ms| && ms[i] == (key, r.value)
  {
    if ms == [] then None
    else if ms[0].0 == key then Some(ms[0].1)
    else
      var r := MemberValue(ms[1..], key);
      assert forall i :: 0 < i < |ms| ==> ms[i] == ms[1..][i - 1];
      r
  }
}
