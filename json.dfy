/** Parsed JSON documents as the scripts receive them from `response.json()`,
    and the few dictionary operations the scripts apply to them. */
module Json {

  datatype Option<T> = None | Some(value: T)

  /** A JSON value. An object keeps its members in document order, because
      the scripts iterate dictionaries in insertion order. Numbers are
      integers only. */
  datatype Json =
    | JNull
    | JBool(b: bool)
    | JNum(n: int)
    | JStr(s: string)
    | JArr(items: seq<Json>)
    | JObj(fields: seq<(string, Json)>)

  /** `key in d` over a member list. */
  predicate HasMember(fields: seq<(string, Json)>, key: string)
  {
    exists i :: 0 <= i < |fields| && fields[i].0 == key
  }

  /** `d.get(key)` over a member list: the value of the first member named `key`. */
  function Lookup(fields: seq<(string, Json)>, key: string): Option<Json>
  {
    if fields == [] then None
    else if fields[0].0 == key then Some(fields[0].1)
    else Lookup(fields[1..], key)
  }

  /** A lookup finds a value exactly when a member has the key, and the
      value it finds is that of the first such member. */
  lemma {:induction false} LookupFindsFirst(fields: seq<(string, Json)>, key: string)
    ensures Lookup(fields, key).None? <==> !HasMember(fields, key)
    ensures Lookup(fields, key).Some? ==>
              exists i :: 0 <= i < |fields| && fields[i] == (key, Lookup(fields, key).value)
                          && forall k :: 0 <= k < i ==> fields[k].0 != key
  {
    if fields != [] && fields[0].0 != key {
      LookupFindsFirst(fields[1..], key);
      assert HasMember(fields, key) ==> HasMember(fields[1..], key) by {
        if HasMember(fields, key) {
          var i :| 0 <= i < |fields| && fields[i].0 == key;
          assert fields[1..][i - 1].0 == key;
        }
      }
      var r := Lookup(fields, key);
      if r.Some? {
        var i :| 0 <= i < |fields[1..]| && fields[1..][i] == (key, r.value)
                 && forall k :: 0 <= k < i ==> fields[1..][k].0 != key;
        assert fields[i + 1] == (key, r.value);
      }
    }
  }

  /** `obj.get(key)`; a value that is not an object has no members. */
  function Get(j: Json, key: string): Option<Json>
  {
    if j.JObj? then Lookup(j.fields, key) else None
  }

  /** `key in obj` for a value that is an object. */
  predicate Has(j: Json, key: string)
  {
    j.JObj? && HasMember(j.fields, key)
  }

  /** `obj[key]` for a key the object has. */
  function Member(j: Json, key: string): (v: Json)
    requires Has(j, key)
    ensures Get(j, key) == Some(v)
  {
    LookupFindsFirst(j.fields, key);
    Get(j, key).value
  }

  /** `obj.get(key, "")` for a field the scripts treat as text: a value that
      is not a string reads as absent. */
  function StrField(j: Json, key: string): string
  {
    match Get(j, key)
    case Some(JStr(s)) => s
    case _ => ""
  }

  /** `obj.get(key, {})` for a field the scripts treat as a nested object. */
  function Child(j: Json, key: string): Json
  {
    match Get(j, key)
    case Some(v) => v
    case None => JObj([])
  }

  /** `str(v)`: exact for strings, None and booleans; other values are
      rendered by `show`, which stands for Python's own formatting. */
  function PyStr(v: Json, show: Json -> string): string
  {
    match v
    case JStr(s) => s
    case JNull => "None"
    case JBool(b) => if b then "True" else "False"
    case _ => show(v)
  }

  /** The keys of a member list, in order. */
  function Keys(fields: seq<(string, Json)>): (ks: seq<string>)
    ensures |ks| == |fields|
    ensures forall i :: 0 <= i < |fields| ==> ks[i] == fields[i].0
  {
    seq(|fields|, i requires 0 <= i < |fields| => fields[i].0)
  }

  /** The listed keys are exactly the keys `get` finds a value for. */
  lemma KeysAreMembers(fields: seq<(string, Json)>)
    ensures forall key :: key in Keys(fields) <==> HasMember(fields, key)
    ensures forall key :: key in Keys(fields) <==> Lookup(fields, key).Some?
  {
    forall key ensures key in Keys(fields) <==> Lookup(fields, key).Some? {
      LookupFindsFirst(fields, key);
    }
  }

  /** `d[key] = v`: replaces the value of an existing member in place, or
      appends a new member at the end. */
  function SetMember(fields: seq<(string, Json)>, key: string, v: Json): (r: seq<(string, Json)>)
    ensures HasMember(fields, key) ==> |r| == |fields|
    ensures !HasMember(fields, key) ==> r == fields + [(key, v)]
    ensures Lookup(r, key) == Some(v)
    ensures forall k :: k != key ==> Lookup(r, k) == Lookup(fields, k)
  {
    if fields == [] then [(key, v)]
    else if fields[0].0 == key then
      var r := [(key, v)] + fields[1..];
      assert r[1..] == fields[1..];
      r
    else
      var rest := SetMember(fields[1..], key, v);
      assert HasMember(fields, key) <==> HasMember(fields[1..], key) by {
        if HasMember(fields, key) {
          var i :| 0 <= i < |fields| && fields[i].0 == key;
          assert fields[1..][i - 1].0 == key;
        }
        if HasMember(fields[1..], key) {
          var i :| 0 <= i < |fields[1..]| && fields[1..][i].0 == key;
          assert fields[i + 1].0 == key;
        }
      }
      var r := [fields[0]] + rest;
      assert r[0] == fields[0] && r[1..] == rest;
      r
  }
}
