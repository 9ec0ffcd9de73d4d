/**
 * The values `response.json()` can produce, and the few JavaScript operations
 * the background worker applies to them: optional indexing `v?.[0]`, the
 * nullish default `??`, and Array.prototype.join with the ToString conversion
 * it applies to each element (sections 23.1.3.18 and 7.1.17 of ECMAScript 2023).
 *
 * A number is carried by its JavaScript ToString text, since that text is all
 * the worker ever does with it; floating point is not modelled. JSON.parse
 * gives every object Object.prototype and no callable member, which is all the
 * conversion to a string depends on.
 */
module Json {
  import opened Wrappers

  datatype Value =
    | JNull
    | JBool(b: bool)
    | JNumber(text: string)
    | JString(s: string)
    | JArray(items: seq<Value>)
    | JObject(fields: seq<(string, Value)>)

  /** The object has a member of its own named key. */
  predicate HasMember(fields: seq<(string, Value)>, key: string)
  {
    exists i :: 0 <= i < |fields| && fields[i].0 == key
  }

  /** The member named key; JSON.parse keeps the last of duplicate names. None is `undefined`. */
  function Lookup(fields: seq<(string, Value)>, key: string): (r: Option<Value>)
    ensures r.Some? <==> HasMember(fields, key)
    ensures r.Some? ==> exists i :: 0 <= i < |fields| && fields[i] == (key, r.value)
  {
    if fields == [] then None
    else if fields[|fields| - 1].0 == key then Some(fields[|fields| - 1].1)
    else Lookup(fields[..|fields| - 1], key)
  }

  /**
   * `v?.[0]`: null short-circuits to undefined, an array or a string gives its
   * first element (a one-character string), an object its member "0", and a
   * boolean or a number has no such property.
   */
  function At0(v: Value): Option<Value>
  {
    match v
    case JNull => None
    case JBool(_) => None
    case JNumber(_) => None
    case JString(s) => if |s| > 0 then Some(JString([s[0]])) else None
    case JArray(items) => if |items| > 0 then Some(items[0]) else None
    case JObject(fields) => Lookup(fields, "0")
  }

  /** `o ?? d`: the default replaces undefined and null, and nothing else. */
  function Coalesce(o: Option<Value>, d: Value): (r: Value)
    ensures r == d || (o.Some? && r == o.value && o.value != JNull)
    ensures o.Some? && o.value != JNull ==> r == o.value
  {
    if o.None? || o.value == JNull then d else o.value
  }

  /** The name of the method ToString looks up first on an object. */
  const ToStringKey: string := "toString"

  /**
   * ToString of a value as join sees it: an array is its elements joined with
   * ",", an object is "[object Object]". None is the TypeError ToString raises
   * for an object that has a member of its own named "toString": that member
   * comes from JSON and so is not callable, and Object.prototype.valueOf, tried
   * next, returns the object itself, which is not a primitive value
   * (OrdinaryToPrimitive, section 7.1.1.1 of ECMAScript 2023).
   */
  function ToString(v: Value): Option<string>
    decreases v, 1
  {
    match v
    case JNull => Some("null")
    case JBool(b) => Some(if b then "true" else "false")
    case JNumber(t) => Some(t)
    case JString(s) => Some(s)
    case JArray(_) => JoinFrom(v, ",", 0)
    case JObject(fields) => if HasMember(fields, ToStringKey) then None else Some("[object Object]")
  }

  /** How join renders one element: null (and undefined) as the empty string, anything else by ToString. */
  function Render(v: Value): Option<string>
    decreases v, 2
  {
    if v == JNull then Some("") else ToString(v)
  }

  /** Elements i.. of the array v joined with sep; None when one of them cannot be converted. */
  function JoinFrom(v: Value, sep: string, i: nat): Option<string>
    requires v.JArray? && i <= |v.items|
    decreases v, 0, |v.items| - i
  {
    if i == |v.items| then Some("")
    else match Render(v.items[i])
      case None => None
      case Some(s) =>
        match JoinFrom(v, sep, i + 1)
        case None => None
        case Some(t) => Some((if i == 0 then "" else sep) + s + t)
  }

  /** `items.join(sep)`. */
  function Join(items: seq<Value>, sep: string): Option<string>
  {
    JoinFrom(JArray(items), sep, 0)
  }

  /**
   * The values ToString converts, stated structurally: no object with a member
   * of its own named "toString" can be reached through arrays.
   */
  predicate Convertible(v: Value)
  {
    match v
    case JArray(items) => forall i :: 0 <= i < |items| ==> Convertible(items[i])
    case JObject(fields) => !HasMember(fields, ToStringKey)
    case _ => true
  }

  /** join succeeds on elements i.. exactly when each of them renders. */
  lemma {:induction false} JoinFromDefined(v: Value, sep: string, i: nat)
    requires v.JArray? && i <= |v.items|
    ensures JoinFrom(v, sep, i).Some? <==> forall j :: i <= j < |v.items| ==> Render(v.items[j]).Some?
    decreases |v.items| - i
  {
    if i < |v.items| {
      JoinFromDefined(v, sep, i + 1);
    }
  }

  /** ToString throws exactly on the values that are not Convertible. */
  lemma {:induction false} ToStringDefined(v: Value)
    ensures ToString(v).Some? <==> Convertible(v)
    decreases v, 1
  {
    if v.JArray? {
      JoinFromDefined(v, ",", 0);
      forall j | 0 <= j < |v.items|
        ensures Render(v.items[j]).Some? <==> Convertible(v.items[j])
      {
        RenderDefined(v.items[j]);
      }
    }
  }

  /** The same for join's rendering of an element. */
  lemma {:induction false} RenderDefined(v: Value)
    ensures Render(v).Some? <==> Convertible(v)
    decreases v, 2
  {
    if v != JNull {
      ToStringDefined(v);
    }
  }

  /** The concatenation of a list of strings. */
  function Concat(ss: seq<string>): string
  {
    if ss == [] then "" else ss[0] + Concat(ss[1..])
  }

  /** Every element of items renders. */
  predicate Renderable(items: seq<Value>)
  {
    forall i :: 0 <= i < |items| ==> Render(items[i]).Some?
  }

  /** The rendering of every element of items, in order. */
  function Renderings(items: seq<Value>): (r: seq<string>)
    requires Renderable(items)
    ensures |r| == |items| && forall i :: 0 <= i < |items| ==> Some(r[i]) == Render(items[i])
  {
    seq(|items|, i requires 0 <= i < |items| => Render(items[i]).value)
  }

  lemma {:induction false} JoinFromAsConcat(items: seq<Value>, i: nat)
    requires i <= |items| && Renderable(items)
    ensures JoinFrom(JArray(items), "", i) == Some(Concat(Renderings(items)[i..]))
    decreases |items| - i
  {
    if i < |items| {
      JoinFromAsConcat(items, i + 1);
      var rs := Renderings(items);
      assert Render(items[i]) == Some(rs[i]);
      assert rs[i..][0] == rs[i] && rs[i..][1..] == rs[i + 1..];
      assert Concat(rs[i..]) == rs[i] + Concat(rs[i + 1..]);
      assert "" + rs[i] + Concat(rs[i + 1..]) == rs[i] + Concat(rs[i + 1..]);
    } else {
      assert Renderings(items)[i..] == [];
    }
  }

  /**
   * Joining with the empty separator succeeds exactly when every element
   * renders, and then concatenates the renderings.
   */
  lemma JoinAsConcat(items: seq<Value>)
    ensures Join(items, "").Some? <==> Renderable(items)
    ensures Renderable(items) ==> Join(items, "") == Some(Concat(Renderings(items)))
  {
    JoinFromDefined(JArray(items), "", 0);
    if Renderable(items) {
      JoinFromAsConcat(items, 0);
      assert Renderings(items)[0..] == Renderings(items);
    }
  }
}
