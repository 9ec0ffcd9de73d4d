/**
 * The two versions of the background worker side by side. They differ in
 * two places: the hit test (truthiness of the cached value against `has`)
 * and the segment guard (Array.isArray against none). Everywhere else they
 * agree.
 */
module Versions {
  import opened Wrappers
  import opened JsText
  import opened Json
  import opened Translation
  import Ts = BackgroundTs
  import Js = BackgroundJs

  /** The hit tests disagree exactly on an entry holding the empty string. */
  lemma HitTestsDiffer(cache: map<string, string>, key: string)
    ensures Ts.Hit(cache, key) != Js.Hit(cache, key) <==> key in cache && cache[key] == ""
  {
  }

  /**
   * The versions send different requests exactly when the text is not blank
   * and its entry holds the empty string: the TypeScript version fetches it
   * again, the JavaScript version answers "" from the cache.
   */
  lemma RequestsDiffer(cache: map<string, string>, text: string, targetLanguage: string, reply: Reply)
    ensures var key := CacheKey(targetLanguage, Trim(text));
      Ts.Translate(cache, text, targetLanguage, reply).request != Js.Translate(cache, text, targetLanguage, reply).request
      <==> Trim(text) != "" && key in cache && cache[key] == ""
  {
  }

  /**
   * A segment contributes differently exactly when the guard rejects it and
   * indexing finds something: a non-empty string, or an object whose member
   * "0" renders as anything but "". A non-empty string contributes "" in the
   * TypeScript version and its first character in the JavaScript one.
   */
  lemma PiecesDiffer(seg: Value)
    ensures Ts.Piece(seg) != Js.Piece(seg) <==>
      (seg.JString? && seg.s != []) ||
      (seg.JObject? && Lookup(seg.fields, "0").Some? && Render(Lookup(seg.fields, "0").value) != Some(""))
    ensures seg.JString? && seg.s != [] ==> Ts.Piece(seg) == Some("") && Js.Piece(seg) == Some([seg.s[0]])
  {
    if seg.JString? && seg.s != [] {
      var first := JString([seg.s[0]]);
      assert At0(seg) == Some(first);
      assert Render(first) == ToString(first) == Some([seg.s[0]]);
      assert [seg.s[0]] != "";
    }
  }

  /** A segment list without string or object segments flattens alike in both versions. */
  lemma FlattenAgrees(payload: Value)
    requires At0(payload).Some? && At0(payload).value.JArray? ==>
      forall i :: 0 <= i < |At0(payload).value.items| ==>
        !At0(payload).value.items[i].JString? && !At0(payload).value.items[i].JObject?
    ensures Ts.Flatten(payload) == Js.Flatten(payload)
  {
    Ts.FlattenCases(payload);
    Js.FlattenCases(payload);
    if At0(payload).Some? && At0(payload).value.JArray? {
      var segs := At0(payload).value.items;
      forall i | 0 <= i < |segs|
        ensures Ts.Piece(segs[i]) == Js.Piece(segs[i])
      {
        PiecesDiffer(segs[i]);
      }
      assert Ts.AllPieces(segs) <==> Js.AllPieces(segs);
      if Ts.AllPieces(segs) {
        assert Ts.Pieces(segs) == Js.Pieces(segs);
      }
    }
  }

  /** A string segment: [["hi"]] flattens to "" in the TypeScript version and to "h" in the JavaScript one. */
  lemma StringSegment()
    ensures Ts.Flatten(JArray([JArray([JString("hi")])])) == Success("")
    ensures Js.Flatten(JArray([JArray([JString("hi")])])) == Success("h")
  {
    var payload := JArray([JArray([JString("hi")])]);
    var segs := [JString("hi")];
    assert At0(payload) == Some(JArray(segs));
    Ts.FlattenCases(payload);
    Js.FlattenCases(payload);
    assert Js.Piece(JString("hi")) == Some("h") by {
      assert At0(JString("hi")) == Some(JString("h"));
    }
    assert Ts.Pieces(segs) == [""];
    assert Js.Pieces(segs) == ["h"];
    assert Concat([""]) == "" by { assert [""][1..] == []; }
    assert Concat(["h"]) == "h" by { assert ["h"][1..] == []; }
    assert Trim("") == "";
    assert Trim("h") == "h" by { assert !IsWhite('h'); }
  }

  /**
   * An element that is an object with a member of its own named "toString"
   * makes join throw in both versions: [[[{"toString": 1}]]] fails with the
   * TypeError, whose message the listener sends back.
   */
  lemma ToStringMember()
    ensures var payload := JArray([JArray([JArray([JObject([("toString", JNumber("1"))])])])]);
      && Ts.Flatten(payload) == Failure(NotPrimitive)
      && Js.Flatten(payload) == Failure(NotPrimitive)
      && ErrorMessage(NotPrimitive) == "Cannot convert object to primitive value"
  {
    var obj := JObject([("toString", JNumber("1"))]);
    var payload := JArray([JArray([JArray([obj])])]);
    var seg := JArray([obj]);
    assert At0(payload) == Some(JArray([seg]));
    assert HasMember(obj.fields, ToStringKey) by { assert obj.fields[0].0 == ToStringKey; }
    assert Render(obj).None?;
    assert Ts.Piece(seg).None?;
    assert At0(seg) == Some(obj);
    assert Js.Piece(seg).None?;
    Ts.FlattenCases(payload);
    Js.FlattenCases(payload);
    assert !Ts.AllPieces([seg]) && !Js.AllPieces([seg]);
  }

  /**
   * Only element 0 of a segment is rendered: in [[["a", {"toString": 1}]]]
   * the object is never converted, and both versions give "a".
   */
  lemma LaterElementsIgnored()
    ensures var payload := JArray([JArray([JArray([JString("a"), JObject([("toString", JNumber("1"))])])])]);
      && Ts.Flatten(payload) == Success("a")
      && Js.Flatten(payload) == Success("a")
  {
    var obj := JObject([("toString", JNumber("1"))]);
    var seg := JArray([JString("a"), obj]);
    var payload := JArray([JArray([seg])]);
    assert At0(payload) == Some(JArray([seg]));
    assert Ts.Piece(seg) == Some("a");
    assert At0(seg) == Some(JString("a"));
    assert Js.Piece(seg) == Some("a");
    Ts.FlattenCases(payload);
    Js.FlattenCases(payload);
    assert Ts.Pieces([seg]) == ["a"];
    assert Js.Pieces([seg]) == ["a"];
    assert Concat(["a"]) == "a" by { assert ["a"][1..] == []; }
    assert Trim("a") == "a" by { assert !IsWhite('a'); }
  }

  /**
   * An object segment whose member "0" cannot be converted is skipped by the
   * Array.isArray guard of src/background.ts but rendered by background.js:
   * [[{"0": {"toString": 1}}]] gives "" in one and the TypeError in the other.
   */
  lemma ObjectSegment()
    ensures var payload := JArray([JArray([JObject([("0", JObject([("toString", JNumber("1"))]))])])]);
      && Ts.Flatten(payload) == Success("")
      && Js.Flatten(payload) == Failure(NotPrimitive)
  {
    var obj := JObject([("toString", JNumber("1"))]);
    var seg := JObject([("0", obj)]);
    var payload := JArray([JArray([seg])]);
    assert At0(payload) == Some(JArray([seg]));
    assert Ts.Piece(seg) == Some("");
    assert HasMember(obj.fields, ToStringKey) by { assert obj.fields[0].0 == ToStringKey; }
    assert Lookup(seg.fields, "0") == Some(obj);
    assert At0(seg) == Some(obj);
    assert Js.Piece(seg).None?;
    Ts.FlattenCases(payload);
    Js.FlattenCases(payload);
    assert Ts.Pieces([seg]) == [""];
    assert Concat([""]) == "" by { assert [""][1..] == []; }
    assert !Js.AllPieces([seg]);
  }

  /**
   * With no empty entry in the cache and a payload both versions flatten
   * alike, the two versions of translateText behave identically.
   */
  lemma TranslateAgrees(cache: map<string, string>, text: string, targetLanguage: string, reply: Reply)
    requires forall k :: k in cache ==> cache[k] != ""
    requires reply.Http? && reply.body.Parsed? ==> Ts.Flatten(reply.body.value) == Js.Flatten(reply.body.value)
    ensures Ts.Translate(cache, text, targetLanguage, reply) == Js.Translate(cache, text, targetLanguage, reply)
  {
    assert Receive(reply, Ts.Flatten) == Receive(reply, Js.Flatten);
  }
}
