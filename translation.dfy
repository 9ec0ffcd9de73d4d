/**
 * What the two versions of the background worker share: the cache key, the
 * request sent to the translation provider, the provider's reply (fetch is
 * foreign, so its reply is an input), the ways a translation can fail, and
 * the typed message protocol between the content script and the worker
 * (TranslateRequest and TranslateResponse).
 */
module Translation {
  import opened Wrappers
  import opened JsText
  import Json

  /** The message type the worker answers. */
  const TranslateKind: string := "TRANSLATE_TEXT"
  /** The target language used when a message names none. */
  const DefaultLanguage: string := "ko"
  /** The separator between language and text in a cache key. */
  const KeySeparator: string := "::"
  /** The text of the error thrown for a reply that is not ok, before the status. */
  const RequestFailedPrefix: string := "Translation request failed: "
  /**
   * The message of the TypeError JavaScript raises when `.map` is applied to
   * something that is not an array. Its wording is the JavaScript engine's;
   * the model fixes one.
   */
  const NotAFunction: string := "map is not a function"
  /**
   * The message of the TypeError join raises for an element it cannot convert
   * to a string, in the wording of the V8 engine.
   */
  const NotPrimitiveMessage: string := "Cannot convert object to primitive value"

  // ---------------------------------------------------------------------------
  // Cache key

  /** `${targetLanguage}::${input}`. */
  function CacheKey(targetLanguage: string, input: string): (r: string)
    ensures |r| == |targetLanguage| + 2 + |input|
  {
    targetLanguage + KeySeparator + input
  }

  /** The position of the first ':' in s, or |s| when there is none. */
  function FirstColon(s: string): (r: nat)
    ensures r <= |s|
    ensures forall i :: 0 <= i < r ==> s[i] != ':'
    ensures r < |s| ==> s[r] == ':'
  {
    if s == [] then 0 else if s[0] == ':' then 0 else 1 + FirstColon(s[1..])
  }

  lemma {:induction false} FirstColonOfKey(lang: string, input: string)
    requires forall i :: 0 <= i < |lang| ==> lang[i] != ':'
    ensures FirstColon(CacheKey(lang, input)) == |lang|
    decreases |lang|
  {
    var key := CacheKey(lang, input);
    if lang == [] {
      assert key[0] == ':';
    } else {
      assert key[0] == lang[0];
      assert key[1..] == CacheKey(lang[1..], input);
      FirstColonOfKey(lang[1..], input);
    }
  }

  /**
   * For language codes without a colon the key determines both the language
   * and the trimmed text, so two requests share a cache entry exactly when
   * they agree on both.
   */
  lemma CacheKeyInjective(lang1: string, input1: string, lang2: string, input2: string)
    requires forall i :: 0 <= i < |lang1| ==> lang1[i] != ':'
    requires forall i :: 0 <= i < |lang2| ==> lang2[i] != ':'
    ensures CacheKey(lang1, input1) == CacheKey(lang2, input2) <==> lang1 == lang2 && input1 == input2
  {
    if CacheKey(lang1, input1) == CacheKey(lang2, input2) {
      FirstColonOfKey(lang1, input1);
      FirstColonOfKey(lang2, input2);
      var key := CacheKey(lang1, input1);
      assert lang1 == key[..|lang1|];
      assert lang2 == key[..|lang2|];
      assert input1 == key[|lang1| + 2..];
      assert input2 == key[|lang2| + 2..];
    }
  }

  /** Without that restriction the key is ambiguous: "a::b" with "c" and "a" with "b::c" collide. */
  lemma CacheKeyCollision()
    ensures CacheKey("a::b", "c") == CacheKey("a", "b::c")
    ensures ("a::b", "c") != ("a", "b::c")
  {
    assert "a::b" != "a" by { assert |"a::b"| != |"a"|; }
  }

  // ---------------------------------------------------------------------------
  // Decimal text of a status code

  function DigitChar(d: nat): char
    requires d < 10
  {
    ('0' as int + d) as char
  }

  predicate IsDigit(c: char)
  {
    '0' <= c <= '9'
  }

  function DigitValue(c: char): nat
    requires IsDigit(c)
  {
    c as int - '0' as int
  }

  /** The decimal text of n, as a template literal shows a non-negative integer. */
  function Decimal(n: nat): (r: string)
    ensures |r| > 0
    ensures forall i :: 0 <= i < |r| ==> IsDigit(r[i])
  {
    if n < 10 then [DigitChar(n)] else Decimal(n / 10) + [DigitChar(n % 10)]
  }

  /** The number a string of decimal digits denotes. */
  function DecimalValue(s: string): nat
    requires forall i :: 0 <= i < |s| ==> IsDigit(s[i])
  {
    if s == [] then 0 else 10 * DecimalValue(s[..|s| - 1]) + DigitValue(s[|s| - 1])
  }

  /** The decimal text reads back as the number it was made from. */
  lemma {:induction false} DecimalRoundTrip(n: nat)
    ensures DecimalValue(Decimal(n)) == n
  {
    if n >= 10 {
      DecimalRoundTrip(n / 10);
      var s := Decimal(n);
      assert s[..|s| - 1] == Decimal(n / 10);
    }
  }

  // ---------------------------------------------------------------------------
  // The provider

  /** The query the worker sends: the target language (`tl`) and the trimmed text (`q`). */
  datatype Request = Request(targetLanguage: string, query: string)

  /** What `response.json()` gives: a value, or the message of the error it raises. */
  datatype Body = Parsed(value: Json.Value) | Unparsable(message: string)

  /** What `fetch` gives: a rejection with its message, or a response with a status and a body. */
  datatype Reply = Rejected(message: string) | Http(status: nat, body: Body)

  /** Response.ok: the status is in the range 200 to 299. */
  predicate IsOk(status: nat)
  {
    200 <= status <= 299
  }

  /**
   * Why a translation fails: an exception with its message, a status that is
   * not ok, a payload head that has no map, or an element join cannot convert.
   */
  datatype Error = Thrown(message: string) | RequestFailed(status: nat) | NotAList | NotPrimitive

  /** What translateText settles to: the translated text, or the error it rejects with. */
  datatype Outcome = Translated(text: string) | Failed(error: Error)

  /**
   * The path after a cache miss: fetch, the ok test, `response.json()`, then
   * flattening the payload, which gives the translated text or the error the
   * flattening throws.
   */
  function Receive(reply: Reply, flatten: Json.Value -> Result<string, Error>): (r: Result<string, Error>)
    ensures reply.Rejected? ==> r == Failure(Thrown(reply.message))
    ensures reply.Http? && !IsOk(reply.status) ==> r == Failure(RequestFailed(reply.status))
    ensures reply.Http? && IsOk(reply.status) && reply.body.Unparsable? ==> r == Failure(Thrown(reply.body.message))
    ensures r.Success? <==> reply.Http? && IsOk(reply.status) && reply.body.Parsed? && flatten(reply.body.value).Success?
    ensures reply.Http? && IsOk(reply.status) && reply.body.Parsed? ==> r == flatten(reply.body.value)
  {
    match reply
    case Rejected(m) => Failure(Thrown(m))
    case Http(status, body) =>
      if !IsOk(status) then Failure(RequestFailed(status))
      else match body
        case Unparsable(m) => Failure(Thrown(m))
        case Parsed(payload) => flatten(payload)
  }

  /** One call of translateText: its outcome, the cache after it, and the request it sent, if any. */
  datatype Step = Step(outcome: Outcome, cache: map<string, string>, request: Option<Request>)

  // ---------------------------------------------------------------------------
  // Messages

  /** A TranslateRequest as it arrives: every field may be missing (undefined or null). */
  datatype Message = Message(kind: Option<string>, text: Option<string>, targetLanguage: Option<string>)

  /** The arguments the dispatcher passes to translateText. */
  datatype Call = Call(text: string, targetLanguage: string)

  /**
   * The dispatcher's case split: anything but a TRANSLATE_TEXT message (a
   * missing message included) is not handled; otherwise the text defaults to
   * "" and the language to "ko".
   */
  function Route(m: Option<Message>): (r: Option<Call>)
    ensures r.None? <==> m.None? || m.value.kind != Some(TranslateKind)
    ensures r.Some? ==> r.value.text == m.value.text.GetOr("")
    ensures r.Some? ==> r.value.targetLanguage == m.value.targetLanguage.GetOr(DefaultLanguage)
  {
    if m.None? || m.value.kind != Some(TranslateKind) then None
    else Some(Call(m.value.text.GetOr(""), m.value.targetLanguage.GetOr(DefaultLanguage)))
  }

  /** TranslateResponse: `{ ok: true, translatedText }` or `{ ok: false, error }`. */
  datatype Response = Succeeded(translatedText: string) | Errored(error: string)

  /** error.message for each way of failing. */
  function ErrorMessage(e: Error): string
  {
    match e
    case Thrown(m) => m
    case RequestFailed(status) => RequestFailedPrefix + Decimal(status)
    case NotAList => NotAFunction
    case NotPrimitive => NotPrimitiveMessage
  }

  /** The message of a failed request names its status: different statuses give different messages. */
  lemma RequestFailedMessageInjective(s1: nat, s2: nat)
    ensures ErrorMessage(RequestFailed(s1)) == ErrorMessage(RequestFailed(s2)) <==> s1 == s2
  {
    if ErrorMessage(RequestFailed(s1)) == ErrorMessage(RequestFailed(s2)) {
      var n := |RequestFailedPrefix|;
      assert Decimal(s1) == ErrorMessage(RequestFailed(s1))[n..];
      assert Decimal(s2) == ErrorMessage(RequestFailed(s2))[n..];
      DecimalRoundTrip(s1);
      DecimalRoundTrip(s2);
    }
  }

  /** The `.then` and `.catch` handlers: success carries the text, failure the error's message. */
  function Respond(o: Outcome): (r: Response)
    ensures r.Succeeded? <==> o.Translated?
    ensures o.Translated? ==> r.translatedText == o.text
    ensures o.Failed? ==> r.error == ErrorMessage(o.error)
  {
    match o
    case Translated(t) => Succeeded(t)
    case Failed(e) => Errored(ErrorMessage(e))
  }

  /**
   * What the listener does with one message: whether it returns true (the
   * response will come asynchronously), the response it sends, the cache
   * after it and the request it sent.
   */
  datatype Dispatched = Dispatched(keepOpen: bool, response: Option<Response>, cache: map<string, string>, request: Option<Request>)

  // ---------------------------------------------------------------------------
  // The worker's state

  /** Every value in the cache is trimmed. */
  ghost predicate CacheTrimmed(cache: map<string, string>)
  {
    forall k :: k in cache ==> Trimmed(cache[k])
  }

  /** The requests one step sent to the provider, as entries of the request log. */
  function Sent(request: Option<Request>): seq<Request>
  {
    if request.Some? then [request.value] else []
  }
}
