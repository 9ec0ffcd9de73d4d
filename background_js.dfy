/**
 * The older JavaScript background worker: translateText with its
 * module-level translation cache, and the runtime.onMessage listener.
 *
 * Here any cache entry is a hit (`has`), the empty string included, and
 * every segment of the provider's payload is indexed at 0 without checking
 * that it is an array, so a string segment contributes its first character.
 */
module BackgroundJs {
  import opened Wrappers
  import opened JsText
  import opened Json
  import opened Translation

  // ---------------------------------------------------------------------------
  // Payload flattening

  /** `segment?.[0] ?? ""`. */
  function Segment(seg: Value): Value
  {
    Coalesce(At0(seg), JString(""))
  }

  /** `segments.map(...)` with the function above. */
  function Segments(segs: seq<Value>): (r: seq<Value>)
    ensures |r| == |segs| && forall i :: 0 <= i < |segs| ==> r[i] == Segment(segs[i])
  {
    seq(|segs|, i requires 0 <= i < |segs| => Segment(segs[i]))
  }

  /**
   * `(payload?.[0] ?? []).map(...).join("").trim()`: the trimmed text, or the
   * TypeError thrown by `.map` on a head that is present but not an array, or
   * by join on a segment element it cannot convert to a string.
   */
  function Flatten(payload: Value): Result<string, Error>
  {
    var head := Coalesce(At0(payload), JArray([]));
    if !head.JArray? then Failure(NotAList)
    else match Join(Segments(head.items), "")
      case None => Failure(NotPrimitive)
      case Some(s) => Success(Trim(s))
  }

  /**
   * The text a segment contributes, stated directly: the rendering of its
   * element 0 if it has one (a string's first character, an object's member
   * "0"), "" otherwise; None when that element cannot be converted.
   */
  function Piece(seg: Value): Option<string>
  {
    match At0(seg)
    case None => Some("")
    case Some(v) => Render(v)
  }

  /** Every segment contributes some text. */
  predicate AllPieces(segs: seq<Value>)
  {
    forall i :: 0 <= i < |segs| ==> Piece(segs[i]).Some?
  }

  function Pieces(segs: seq<Value>): (r: seq<string>)
    requires AllPieces(segs)
    ensures |r| == |segs| && forall i :: 0 <= i < |segs| ==> Some(r[i]) == Piece(segs[i])
  {
    seq(|segs|, i requires 0 <= i < |segs| => Piece(segs[i]).value)
  }

  lemma SegmentRendersPiece(seg: Value)
    ensures Render(Segment(seg)) == Piece(seg)
  {
  }

  /** A segment throws exactly when it has an element 0 that cannot be converted. */
  lemma PieceThrows(seg: Value)
    ensures Piece(seg).None? <==> At0(seg).Some? && !Convertible(At0(seg).value)
  {
    if At0(seg).Some? {
      RenderDefined(At0(seg).value);
    }
  }

  /**
   * The flattening, case by case: a missing (or null) head gives "", a head
   * that is not an array throws in `.map`, an array head with a segment that
   * cannot be converted throws in join, and otherwise the result is the
   * trimmed concatenation of what the segments contribute.
   */
  lemma FlattenCases(payload: Value)
    ensures At0(payload).None? || At0(payload) == Some(JNull) ==> Flatten(payload) == Success("")
    ensures Flatten(payload) == Failure(NotAList) <==> At0(payload).Some? && At0(payload).value != JNull && !At0(payload).value.JArray?
    ensures Flatten(payload).Failure? ==> Flatten(payload).error == NotAList || Flatten(payload).error == NotPrimitive
    ensures At0(payload).Some? && At0(payload).value.JArray? ==>
      var segs := At0(payload).value.items;
      && (Flatten(payload) == Failure(NotPrimitive) <==> !AllPieces(segs))
      && (AllPieces(segs) ==> Flatten(payload) == Success(Trim(Concat(Pieces(segs)))))
  {
    var head := Coalesce(At0(payload), JArray([]));
    if head.JArray? {
      var segs := Segments(head.items);
      JoinAsConcat(segs);
      forall i | 0 <= i < |segs|
        ensures Render(segs[i]) == Piece(head.items[i])
      {
        SegmentRendersPiece(head.items[i]);
      }
      assert Renderable(segs) <==> AllPieces(head.items);
      if AllPieces(head.items) {
        assert Renderings(segs) == Pieces(head.items);
      }
      if At0(payload).None? || At0(payload) == Some(JNull) {
        assert head.items == [];
        assert Concat([]) == "";
        assert Trim("") == "";
      }
    }
  }

  /** What the flattening yields is already trimmed. */
  lemma FlattenTrimmed(payload: Value)
    requires Flatten(payload).Success?
    ensures Trimmed(Flatten(payload).value)
  {
    var head := Coalesce(At0(payload), JArray([]));
    TrimShape(Join(Segments(head.items), "").value);
  }

  // ---------------------------------------------------------------------------
  // translateText

  /** `translationCache.has(cacheKey)`. */
  predicate Hit(cache: map<string, string>, key: string)
  {
    key in cache
  }

  /** translateText(text, targetLanguage) against the cache, with the provider's reply to a request it might send. */
  function Translate(cache: map<string, string>, text: string, targetLanguage: string, reply: Reply): Step
  {
    var input := Trim(text);
    if input == "" then Step(Translated(""), cache, None)
    else
      var key := CacheKey(targetLanguage, input);
      if Hit(cache, key) then Step(Translated(cache[key]), cache, None)
      else
        var request := Request(targetLanguage, input);
        match Receive(reply, Flatten)
        case Success(t) => Step(Translated(t), cache[key := t], Some(request))
        case Failure(e) => Step(Failed(e), cache, Some(request))
  }

  /** Blank input short-circuits: "" is returned, nothing is fetched and the cache is untouched. */
  lemma BlankInput(cache: map<string, string>, text: string, targetLanguage: string, reply: Reply)
    requires AllWhite(text)
    ensures Translate(cache, text, targetLanguage, reply) == Step(Translated(""), cache, None)
  {
    TrimEmpty(text);
  }

  /** Texts that differ only in surrounding whitespace are translated alike, through the same cache entry. */
  lemma PaddingIrrelevant(cache: map<string, string>, p: string, text: string, q: string, targetLanguage: string, reply: Reply)
    requires AllWhite(p) && AllWhite(q)
    ensures Translate(cache, p + text + q, targetLanguage, reply) == Translate(cache, text, targetLanguage, reply)
  {
    TrimPadded(p, text, q);
  }

  /**
   * A request goes out exactly when the trimmed text is not blank and has no
   * entry; it asks for that text in that language.
   */
  lemma FetchRule(cache: map<string, string>, text: string, targetLanguage: string, reply: Reply)
    ensures var st := Translate(cache, text, targetLanguage, reply);
      && (st.request.Some? <==> Trim(text) != "" && CacheKey(targetLanguage, Trim(text)) !in cache)
      && (st.request.Some? ==> st.request.value == Request(targetLanguage, Trim(text)))
  {
  }

  /** Any entry is a hit, the empty string included: it answers with the cached value and changes nothing. */
  lemma HitAnswers(cache: map<string, string>, text: string, targetLanguage: string, reply: Reply)
    requires Trim(text) != "" && CacheKey(targetLanguage, Trim(text)) in cache
    ensures Translate(cache, text, targetLanguage, reply)
      == Step(Translated(cache[CacheKey(targetLanguage, Trim(text))]), cache, None)
  {
  }

  /** A failure leaves the cache as it was; a request that is not ok fails with its status. */
  lemma FailureKeepsCache(cache: map<string, string>, text: string, targetLanguage: string, reply: Reply)
    ensures var st := Translate(cache, text, targetLanguage, reply);
      && (st.outcome.Failed? ==> st.cache == cache)
      && (st.request.Some? && reply.Http? && !IsOk(reply.status) ==> st.outcome == Failed(RequestFailed(reply.status)))
  {
  }

  /**
   * The cache only ever gains the one entry of the request: a successful
   * fetch stores its text under the key, every other entry stays as it was,
   * and no entry is removed.
   */
  lemma CacheUpdate(cache: map<string, string>, text: string, targetLanguage: string, reply: Reply)
    ensures var st := Translate(cache, text, targetLanguage, reply);
      var key := CacheKey(targetLanguage, Trim(text));
      && (st.request.Some? && st.outcome.Translated? ==> st.cache == cache[key := st.outcome.text])
      && (st.request.None? || st.outcome.Failed? ==> st.cache == cache)
      && (forall k :: k in cache ==> k in st.cache)
      && (forall k :: k in cache && k != key ==> st.cache[k] == cache[k])
  {
  }

  /** The cache stays trimmed, and so every text translateText gives back is trimmed. */
  lemma TranslateKeepsTrimmed(cache: map<string, string>, text: string, targetLanguage: string, reply: Reply)
    requires CacheTrimmed(cache)
    ensures var st := Translate(cache, text, targetLanguage, reply);
      && CacheTrimmed(st.cache)
      && (st.outcome.Translated? ==> Trimmed(st.outcome.text))
  {
    var st := Translate(cache, text, targetLanguage, reply);
    if st.request.Some? && st.outcome.Translated? {
      FlattenTrimmed(reply.body.value);
    }
  }

  /**
   * After a successful fetch, asking again for the same text (up to
   * surrounding whitespace) answers from the cache without fetching, whatever
   * the translation was: two calls with one key fetch at most once.
   */
  lemma Repeat(cache: map<string, string>, text: string, text': string, targetLanguage: string, reply: Reply, reply': Reply)
    requires Trim(text') == Trim(text)
    requires Translate(cache, text, targetLanguage, reply).request.Some?
    requires Translate(cache, text, targetLanguage, reply).outcome.Translated?
    ensures var st := Translate(cache, text, targetLanguage, reply);
      Translate(st.cache, text', targetLanguage, reply') == Step(st.outcome, st.cache, None)
  {
  }

  // ---------------------------------------------------------------------------
  // The message listener

  /** The listener's behaviour on one message: unhandled, or answered by translateText. */
  function Dispatch(cache: map<string, string>, m: Option<Message>, reply: Reply): Dispatched
  {
    match Route(m)
    case None => Dispatched(false, None, cache, None)
    case Some(c) =>
      var st := Translate(cache, c.text, c.targetLanguage, reply);
      Dispatched(true, Some(Respond(st.outcome)), st.cache, st.request)
  }

  /** A message that is not TRANSLATE_TEXT gets false, no response, no request and no cache change. */
  lemma IgnoresOtherMessages(cache: map<string, string>, m: Option<Message>, reply: Reply)
    requires m.None? || m.value.kind != Some(TranslateKind)
    ensures Dispatch(cache, m, reply) == Dispatched(false, None, cache, None)
  {
  }

  /** Missing fields are the defaults: text "" and language "ko". */
  lemma MissingFieldsDefault(cache: map<string, string>, text: Option<string>, lang: Option<string>, reply: Reply)
    ensures Dispatch(cache, Some(Message(Some(TranslateKind), text, lang)), reply)
      == Dispatch(cache, Some(Message(Some(TranslateKind), Some(text.GetOr("")), Some(lang.GetOr(DefaultLanguage)))), reply)
  {
  }

  /** A missing text is answered at once with an empty translation. */
  lemma MissingTextAnswersEmpty(cache: map<string, string>, lang: Option<string>, reply: Reply)
    ensures Dispatch(cache, Some(Message(Some(TranslateKind), None, lang)), reply)
      == Dispatched(true, Some(Succeeded("")), cache, None)
  {
    BlankInput(cache, "", lang.GetOr(DefaultLanguage), reply);
  }

  /** A TRANSLATE_TEXT message is always answered: the translation on success, the error's message on failure. */
  lemma AnswersTranslateRequests(cache: map<string, string>, m: Option<Message>, reply: Reply)
    requires m.Some? && m.value.kind == Some(TranslateKind)
    ensures var d := Dispatch(cache, m, reply);
      var st := Translate(cache, m.value.text.GetOr(""), m.value.targetLanguage.GetOr(DefaultLanguage), reply);
      && d.keepOpen && d.response.Some?
      && (forall t :: d.response == Some(Succeeded(t)) <==> st.outcome == Translated(t))
      && (forall e :: st.outcome == Failed(e) ==> d.response == Some(Errored(ErrorMessage(e))))
  {
  }

  // ---------------------------------------------------------------------------
  // The worker's state

  /** The module-level translationCache, and the log of requests sent to the provider. */
  class TranslationService {
    var cache: map<string, string>
    ghost var requests: seq<Request>

    ghost predicate Valid()
      reads this
    {
      CacheTrimmed(cache)
    }

    constructor()
      ensures Valid() && cache == map[] && requests == []
    {
      cache := map[];
      requests := [];
    }

    /** translateText(text, targetLanguage); reply is what fetch gives should the method call it. */
    method TranslateText(text: string, targetLanguage: string, reply: Reply) returns (outcome: Outcome)
      requires Valid()
      modifies this
      ensures Valid()
      ensures outcome.Translated? ==> Trimmed(outcome.text)
      ensures var st := Translate(old(cache), text, targetLanguage, reply);
        && outcome == st.outcome
        && cache == st.cache
        && requests == old(requests) + Sent(st.request)
    {
      TranslateKeepsTrimmed(cache, text, targetLanguage, reply);
      var input := Trim(text);
      if input == "" {
        return Translated("");
      }
      var key := CacheKey(targetLanguage, input);
      if key in cache {
        return Translated(cache[key]);
      }
      requests := requests + [Request(targetLanguage, input)];
      match reply {
        case Rejected(m) =>
          outcome := Failed(Thrown(m));
        case Http(status, body) =>
          if !IsOk(status) {
            outcome := Failed(RequestFailed(status));
          } else if body.Unparsable? {
            outcome := Failed(Thrown(body.message));
          } else {
            var translated := Flatten(body.value);
            if translated.Failure? {
              outcome := Failed(translated.error);
            } else {
              cache := cache[key := translated.value];
              outcome := Translated(translated.value);
            }
          }
      }
    }

    /** The runtime.onMessage listener: its return value and the response it sends. */
    method OnMessage(m: Option<Message>, reply: Reply) returns (keepOpen: bool, response: Option<Response>)
      requires Valid()
      modifies this
      ensures Valid()
      ensures var d := Dispatch(old(cache), m, reply);
        && keepOpen == d.keepOpen
        && response == d.response
        && cache == d.cache
        && requests == old(requests) + Sent(d.request)
    {
      var call := Route(m);
      if call.None? {
        return false, None;
      }
      var outcome := TranslateText(call.value.text, call.value.targetLanguage, reply);
      return true, Some(Respond(outcome));
    }
  }
}
