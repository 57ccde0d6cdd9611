/** The JSON values the scorer passes around: what `json.loads` returns for
    the model's reply and what Flask's `request.json` returns for the body of
    a request. Floating-point numbers are not represented. */
module JsonValues {
  import opened Wrappers

  datatype Json =
    | JNull
    | JBool(b: bool)
    | JInt(i: int)
    | JString(s: string)
    | JArray(items: seq<Json>)
    | JObject(members: seq<(string, Json)>)

  /** The position of the last member with that key, or -1 when none has it. */
  function LastIndexOf(members: seq<(string, Json)>, key: string): (k: int)
    ensures -1 <= k < |members|
    ensures k >= 0 ==> members[k].0 == key
    ensures forall k' :: k < k' < |members| ==> members[k'].0 != key
  {
    if members == [] then -1
    else if members[|members| - 1].0 == key then |members| - 1
    else LastIndexOf(members[..|members| - 1], key)
  }

  /** Subscripting a decoded value, `d[key]`: for a dictionary that `json.loads`
      built from `members` the last member with that key wins; anything but an
      object has no keys. */
  function Lookup(j: Json, key: string): (r: Option<Json>)
    ensures r.Some? <==> j.JObject? && exists k :: 0 <= k < |j.members| && j.members[k].0 == key
    ensures r.Some? ==> exists k :: (0 <= k < |j.members| && j.members[k] == (key, r.value)
      && forall k' :: k < k' < |j.members| ==> j.members[k'].0 != key)
  {
    if j.JObject? then
      var k := LastIndexOf(j.members, key);
      if k < 0 then None else Some(j.members[k].1)
    else None
  }

  /** Python's truth value of the decoded value: `None`, `False`, `0`, and the
      empty string, list and dictionary are false. */
  predicate Truthy(j: Json)
  {
    match j
    case JNull => false
    case JBool(b) => b
    case JInt(i) => i != 0
    case JString(s) => s != []
    case JArray(items) => items != []
    case JObject(members) => members != []
  }
}
