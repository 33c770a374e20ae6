/**
 * The decision logic of the serverless backend (backend/main.py): the `filter_video` HTTP
 * handler that asks a generative model whether a video title goes against the user's
 * stated preferences, the `search_for_context` helper that assembles a context string
 * from an instant-answer search reply, and the guard and chat-id extraction of the
 * `chat_reply` event handler.
 *
 * The generative model is the parameter `generate`: it maps a prompt to either a failure
 * (any exception the SDK raises, including one from reading `response.text`) or the text
 * of its answer. Each handler reports the prompt it sent, so "the model was not
 * consulted" is `modelPrompt == None`.
 */
module Backend {
  import opened Wrappers
  import opened Text
  import opened Json

  // ---------------------------------------------------------------------------
  // filter_video
  // ---------------------------------------------------------------------------

  datatype Decision = Keep | Remove

  datatype ModelOutcome = Failed | Answered(text: string)

  /** The JSON body: `{"decision": ...}` on success, `{"error": ..., "decision": ...}` otherwise. */
  datatype ResponseBody = ResponseBody(error: Option<string>, decision: Decision)

  datatype Response = Response(status: int, body: ResponseBody)

  /** A handled request: the HTTP response and the prompt sent to the model, if any. */
  datatype Handled = Handled(response: Response, modelPrompt: Option<string>)

  const NoBodyError := "No JSON body provided"
  const MissingFieldsError := "Title and preferences are required"
  const HandlerErrorPrefix := "Error processing video filter request: "

  const PromptIntro := "You are filtering YouTube videos to help a user stay productive.\n\n"
  const PromptRules :=
    "\n\nShould this video be REMOVED (filtered out) or KEPT for this user?\n\nRules:\n"
    + "- If user says they \"hate\" or \"avoid\" something and the video is clearly about that topic, respond \"remove\"\n"
    + "- If user says they \"love\" or \"want\" something and the video is about that topic, respond \"keep\"  \n"
    + "- If video matches what user wants to avoid, respond \"remove\"\n"
    + "- If video supports what user wants to focus on, respond \"keep\"\n"
    + "- When uncertain, respond \"keep\" to avoid over-filtering\n\nExamples:\n"
    + "- User: \"I hate gaming videos\" + Video: \"Hitman gameplay\" \U{2192} \"remove\"\n"
    + "- User: \"I love programming\" + Video: \"Python tutorial\" \U{2192} \"keep\"\n\n"
    + "Respond with exactly one word: \"keep\" or \"remove\"\n"

  /** The prompt line that quotes the user's preference statement. */
  function PreferenceLine(preferences: string): string {
    "User says: \"" + preferences + "\""
  }

  /** The prompt line that quotes the video title. */
  function TitleLine(title: string): string {
    "Video title: \"" + title + "\""
  }

  /** The classification prompt, with the preference statement and the title inserted between quotes. */
  function FilterPrompt(preferences: string, title: string): string {
    PromptIntro + PreferenceLine(preferences) + "\n" + TitleLine(title) + PromptRules
  }

  /** The prompt carries both inputs verbatim, each between a pair of double quotes on its own labelled line. */
  lemma PromptEmbedsVerbatim(preferences: string, title: string)
    ensures Contains(FilterPrompt(preferences, title), PreferenceLine(preferences))
    ensures Contains(FilterPrompt(preferences, title), TitleLine(title))
  {
    var p := FilterPrompt(preferences, title);
    TwoLinesOccur(PromptIntro, PreferenceLine(preferences), TitleLine(title), PromptRules);
    ContainsIffOccurs(p, PreferenceLine(preferences));
    ContainsIffOccurs(p, TitleLine(title));
  }

  /** Where the two quoted lines sit in a text built like the prompt. */
  lemma TwoLinesOccur(intro: string, first: string, second: string, rules: string)
    ensures OccursAt(intro + first + "\n" + second + rules, first, |intro|)
    ensures OccursAt(intro + first + "\n" + second + rules, second, |intro| + |first| + 1)
  {
    var p := intro + first + "\n" + second + rules;
    assert p == intro + first + ("\n" + second + rules);
    OccursInMiddle(intro, first, "\n" + second + rules);
    assert p == (intro + first + "\n") + second + rules;
    OccursInMiddle(intro + first + "\n", second, rules);
  }

  /** The answer text as the handler compares it: surrounding whitespace stripped, lower-cased. */
  function Normalize(answer: string): string {
    Lower(Strip(answer, IsPySpace))
  }

  /** The decision an answer leads to: remove exactly when the normalized answer contains "remove". */
  function DecisionOf(answer: string): Decision {
    if Contains(Normalize(answer), "remove") then Remove else Keep
  }

  /**
   * Stripping does not matter to the decision, and lower-casing makes it case-insensitive:
   * the answer leads to Remove exactly when "remove" occurs in the lower-cased raw answer.
   */
  lemma DecisionIsCaseInsensitiveSearch(answer: string)
    ensures DecisionOf(answer) == Remove <==> exists k :: OccursAt(Lower(answer), "remove", k)
  {
    PySpaceCaseBlind();
    SearchIgnoresStrip(answer, "remove", IsPySpace);
    ContainsIffOccurs(Normalize(answer), "remove");
  }

  /** An answer with "remove" in it, in any case and anywhere (even inside a negation), leads to Remove. */
  lemma RemoveAnywhere(before: string, word: string, after: string)
    requires Lower(word) == "remove"
    ensures DecisionOf(before + word + after) == Remove
  {
    var answer := before + word + after;
    LowerConcat(before, word);
    LowerConcat(before + word, after);
    OccursInMiddle(Lower(before), Lower(word), Lower(after));
    assert OccursAt(Lower(answer), "remove", |before|);
    DecisionIsCaseInsensitiveSearch(answer);
  }

  /** An answer too short to hold "remove" (after stripping, fewer than six characters) leads to Keep. */
  lemma ShortAnswerKeeps(answer: string)
    requires |Strip(answer, IsPySpace)| < 6
    ensures DecisionOf(answer) == Keep
  {
    ContainsIffOccurs(Normalize(answer), "remove");
  }

  /** A request body is valid when it is a JSON object with a truthy title and truthy preferences. */
  predicate ValidRequest(request: Option<Value>) {
    && request.Some?
    && request.value.JObject?
    && Truthy(Get(request.value.fields, "title", JString("")))
    && Truthy(Get(request.value.fields, "preferences", JString("")))
  }

  /** The prompt a valid request leads to. */
  function PromptFor(request: Option<Value>, render: Value -> string): string
    requires ValidRequest(request)
  {
    var fields := request.value.fields;
    FilterPrompt(Format(Get(fields, "preferences", JString("")), render),
                 Format(Get(fields, "title", JString("")), render))
  }

  /**
   * The filter_video handler for a POST request. `request` is what get_json(silent=True)
   * returns: None when the body is absent or not JSON, otherwise the decoded value.
   * Every path answers with a decision, every error path answers "keep", and "remove"
   * is only ever the reading of an answer the model actually gave.
   */
  function FilterVideo(request: Option<Value>, generate: string -> ModelOutcome, render: Value -> string): (h: Handled)
    ensures h.response.status in {200, 400, 500}
    ensures h.response.status != 200 <==> h.response.body.error.Some?
    ensures h.response.status != 200 ==> h.response.body.decision == Keep && h.modelPrompt == None
    ensures h.modelPrompt.Some? <==> ValidRequest(request)
    ensures h.response.body.decision == Remove ==>
      && h.response.status == 200
      && h.modelPrompt.Some?
      && generate(h.modelPrompt.value).Answered?
      && Contains(Normalize(generate(h.modelPrompt.value).text), "remove")
  {
    if request.None? || !Truthy(request.value) then
      Handled(Response(400, ResponseBody(Some(NoBodyError), Keep)), None)
    else if !request.value.JObject? then
      // request_json.get raises AttributeError, caught by the handler's last except clause
      var message := HandlerErrorPrefix + "'" + TypeName(request.value) + "' object has no attribute 'get'";
      Handled(Response(500, ResponseBody(Some(message), Keep)), None)
    else if !ValidRequest(request) then
      Handled(Response(400, ResponseBody(Some(MissingFieldsError), Keep)), None)
    else
      var prompt := PromptFor(request, render);
      var decision := match generate(prompt)
        case Failed => Keep
        case Answered(text) => DecisionOf(text);
      Handled(Response(200, ResponseBody(None, decision)), Some(prompt))
  }

  /** A missing, unparsable or falsy body is refused with 400 and "keep" before the model is consulted. */
  lemma FilterRejectsMissingBody(request: Option<Value>, generate: string -> ModelOutcome, render: Value -> string)
    requires request.None? || !Truthy(request.value)
    ensures FilterVideo(request, generate, render)
      == Handled(Response(400, ResponseBody(Some(NoBodyError), Keep)), None)
  {
  }

  /** An object without a truthy title or without truthy preferences is refused with 400 and "keep", unconsulted. */
  lemma FilterRejectsMissingFields(fields: map<string, Value>, generate: string -> ModelOutcome, render: Value -> string)
    requires fields != map[]
    requires !Truthy(Get(fields, "title", JString(""))) || !Truthy(Get(fields, "preferences", JString("")))
    ensures FilterVideo(Some(JObject(fields)), generate, render)
      == Handled(Response(400, ResponseBody(Some(MissingFieldsError), Keep)), None)
  {
  }

  /** A truthy body that is not an object fails in the handler itself: 500, "keep", unconsulted. */
  lemma FilterNonObjectBody(body: Value, generate: string -> ModelOutcome, render: Value -> string)
    requires Truthy(body) && !body.JObject?
    ensures var h := FilterVideo(Some(body), generate, render);
      && h.response.status == 500
      && h.response.body.decision == Keep
      && h.response.body.error == Some(HandlerErrorPrefix + "'" + TypeName(body) + "' object has no attribute 'get'")
      && h.modelPrompt == None
  {
  }

  /**
   * A valid request is answered with 200; the decision is "remove" exactly when the model
   * answered and its stripped, lower-cased answer contains "remove". A failed model call
   * answers "keep".
   */
  lemma FilterDecisionRule(request: Option<Value>, generate: string -> ModelOutcome, render: Value -> string)
    requires ValidRequest(request)
    ensures var h := FilterVideo(request, generate, render);
      var outcome := generate(PromptFor(request, render));
      && h.response.status == 200
      && h.response.body.error == None
      && h.modelPrompt == Some(PromptFor(request, render))
      && (h.response.body.decision == Remove
          <==> outcome.Answered? && exists k :: OccursAt(Lower(outcome.text), "remove", k))
      && (outcome.Failed? ==> h.response.body.decision == Keep)
  {
    var outcome := generate(PromptFor(request, render));
    if outcome.Answered? {
      DecisionIsCaseInsensitiveSearch(outcome.text);
    }
  }

  /** A request with the given title and preference statement. */
  function RequestOf(title: string, preferences: string): Option<Value> {
    Some(JObject(map["title" := JString(title), "preferences" := JString(preferences)]))
  }

  /** A request with a title and preferences is answered 200 with the decision the model's answer leads to. */
  lemma FilterFollowsAnswer(title: string, preferences: string, answer: string, render: Value -> string)
    requires title != [] && preferences != []
    ensures FilterVideo(RequestOf(title, preferences), _ => Answered(answer), render).response
      == Response(200, ResponseBody(None, DecisionOf(answer)))
  {
    assert ValidRequest(RequestOf(title, preferences));
  }

  /** A request with a title and preferences is still answered 200 and kept when the model call fails. */
  lemma FilterKeepsOnModelFailure(title: string, preferences: string, render: Value -> string)
    requires title != [] && preferences != []
    ensures FilterVideo(RequestOf(title, preferences), _ => Failed, render).response
      == Response(200, ResponseBody(None, Keep))
  {
    assert ValidRequest(RequestOf(title, preferences));
  }

  // ---------------------------------------------------------------------------
  // search_for_context
  // ---------------------------------------------------------------------------

  /** What the search request produced: a transport failure, or a status code and the body decoded as JSON (None when it is not JSON). */
  datatype SearchReply = TransportError | Reply(status: int, body: Option<Value>)

  /** A step of the helper that may raise (every exception is caught and turned into None). */
  datatype Attempt<T> = Raised | Done(value: T)

  /** topic.get('Text', '') of a topic that is an object. */
  function TextOf(topic: Value): Value
    requires topic.JObject?
  {
    Get(topic.fields, "Text", JString(""))
  }

  /** The truthy "Text" values of the given topics, in order; raises if a topic is not an object. */
  function TopicTexts(topics: seq<Value>): (r: Attempt<seq<Value>>)
    ensures r.Done? <==> forall k :: 0 <= k < |topics| ==> topics[k].JObject?
    ensures r.Done? ==> forall v :: v in r.value ==> Truthy(v)
    ensures r.Done? ==> |r.value| <= |topics|
  {
    if topics == [] then Done([])
    else if !topics[0].JObject? then Raised
    else
      var text := TextOf(topics[0]);
      match TopicTexts(topics[1..])
      case Raised => Raised
      case Done(rest) => Done(if Truthy(text) then [text] + rest else rest)
  }

  /** The `j`th collected text is the text of some topic `k` that is an object. */
  lemma {:induction false} TopicTextSource(topics: seq<Value>, texts: seq<Value>, j: nat) returns (k: nat)
    requires TopicTexts(topics) == Done(texts) && j < |texts|
    ensures k < |topics| && topics[k].JObject? && TextOf(topics[k]) == texts[j]
    decreases |topics|
  {
    var tail := topics[1..];
    var rest := TopicTexts(tail).value;
    if Truthy(TextOf(topics[0])) && j == 0 {
      k := 0;
    } else {
      var i := if Truthy(TextOf(topics[0])) then j - 1 else j;
      assert texts[j] == rest[i];
      var m := TopicTextSource(tail, rest, i);
      k := m + 1;
      assert topics[k] == tail[m];
    }
  }

  /** The truthy text of a topic that is an object is collected. */
  lemma {:induction false} TopicTextCollected(topics: seq<Value>, texts: seq<Value>, k: nat)
    requires TopicTexts(topics) == Done(texts) && k < |topics|
    requires topics[k].JObject? && Truthy(TextOf(topics[k]))
    ensures TextOf(topics[k]) in texts
    decreases |topics|
  {
    if k > 0 {
      var tail := topics[1..];
      assert topics[k] == tail[k - 1];
      TopicTextCollected(tail, TopicTexts(tail).value, k - 1);
    }
  }

  /** Collecting over two runs of topics collects over each in turn: the texts keep the topics' order. */
  lemma {:induction false} TopicTextsConcat(a: seq<Value>, b: seq<Value>)
    ensures TopicTexts(a + b) ==
      if TopicTexts(a).Done? && TopicTexts(b).Done? then Done(TopicTexts(a).value + TopicTexts(b).value)
      else Raised
    decreases |a|
  {
    if a == [] {
      assert a + b == b;
      assert TopicTexts(a) == Done([]);
      if TopicTexts(b).Done? {
        assert [] + TopicTexts(b).value == TopicTexts(b).value;
      }
    } else {
      assert (a + b)[0] == a[0];
      assert (a + b)[1..] == a[1..] + b;
      TopicTextsConcat(a[1..], b);
      if a[0].JObject? && TopicTexts(a[1..]).Done? && TopicTexts(b).Done? {
        var x, y := TopicTexts(a[1..]).value, TopicTexts(b).value;
        assert [TextOf(a[0])] + x + y == [TextOf(a[0])] + (x + y);
      }
    }
  }

  /** A single topic that is an object contributes its text when that text is truthy, and nothing otherwise. */
  lemma TopicTextsOne(topic: Value)
    requires topic.JObject?
    ensures TopicTexts([topic]) == Done(if Truthy(TextOf(topic)) then [TextOf(topic)] else [])
  {
    assert [topic][1..] == [];
    assert [TextOf(topic)] + [] == [TextOf(topic)];
  }

  predicate AllStrings(vs: seq<Value>) {
    forall k :: 0 <= k < |vs| ==> vs[k].JString?
  }

  function Strings(vs: seq<Value>): (r: seq<string>)
    requires AllStrings(vs)
    ensures |r| == |vs|
    ensures forall k :: 0 <= k < |vs| ==> r[k] == vs[k].s
  {
    if vs == [] then [] else [vs[0].s] + Strings(vs[1..])
  }

  /** Python's items[:2]: the first two entries, or all of them when there are fewer. */
  function FirstTwo(items: seq<Value>): (r: seq<Value>)
    ensures |r| == if |items| <= 2 then |items| else 2
    ensures r == items[..|r|]
  {
    if |items| <= 2 then items else items[..2]
  }

  /**
   * The "Related: ..." part for the value of "RelatedTopics": only the first two entries are
   * looked at, those whose "Text" is falsy are skipped, the rest are joined with "; ".
   * A falsy value gives no part; anything but a list, a non-object entry or a non-string
   * text raises.
   */
  function RelatedPart(related: Value): Attempt<Option<string>> {
    if !Truthy(related) then Done(None)
    else if !related.JArray? then Raised
    else
      match TopicTexts(FirstTwo(related.items))
      case Raised => Raised
      case Done(texts) =>
        if texts == [] then Done(None)
        else if !AllStrings(texts) then Raised
        else Done(Some("Related: " + Join(Strings(texts), "; ")))
  }

  /** The parts of the context, in the order description, definition, related. */
  function ContextParts(fields: map<string, Value>, related: Option<string>, render: Value -> string): seq<string> {
    var summary := Get(fields, "Abstract", JNull);
    var definition := Get(fields, "Definition", JNull);
    (if Truthy(summary) then ["Description: " + Format(summary, render)] else [])
    + (if Truthy(definition) then ["Definition: " + Format(definition, render)] else [])
    + (if related.Some? then [related.value] else [])
  }

  /** search_for_context: the present parts joined with " | ", or None; never raises. */
  function SearchForContext(reply: SearchReply, render: Value -> string): (r: Option<string>)
    ensures r.Some? ==> reply.Reply? && reply.status == 200 && reply.body.Some? && reply.body.value.JObject?
    ensures r.Some? ==> r.value != []
  {
    if reply.TransportError? || reply.status != 200 || reply.body.None? || !reply.body.value.JObject? then None
    else
      var fields := reply.body.value.fields;
      match RelatedPart(Get(fields, "RelatedTopics", JNull))
      case Raised => None
      case Done(related) =>
        var parts := ContextParts(fields, related, render);
        if parts == [] then None
        else
          JoinEnds(parts, " | ");
          Some(Join(parts, " | "))
  }

  /** With no summary, no definition and no related topics there is no context. */
  lemma SearchNothingFound(fields: map<string, Value>, render: Value -> string)
    requires !Truthy(Get(fields, "Abstract", JNull)) && !Truthy(Get(fields, "Definition", JNull))
    requires !Truthy(Get(fields, "RelatedTopics", JNull))
    ensures SearchForContext(Reply(200, Some(JObject(fields))), render) == None
  {
  }

  /** A found summary always opens the context, a related part always closes it. */
  lemma SearchPartOrder(fields: map<string, Value>, render: Value -> string)
    requires SearchForContext(Reply(200, Some(JObject(fields))), render).Some?
    ensures var r := SearchForContext(Reply(200, Some(JObject(fields))), render).value;
      var summary := Get(fields, "Abstract", JNull);
      var related := RelatedPart(Get(fields, "RelatedTopics", JNull));
      && (Truthy(summary) ==> exists rest :: r == "Description: " + Format(summary, render) + rest)
      && (related.Done? && related.value.Some? ==> exists front :: r == front + related.value.value)
  {
    var related := RelatedPart(Get(fields, "RelatedTopics", JNull));
    var parts := ContextParts(fields, related.value, render);
    var r := Join(parts, " | ");
    JoinEnds(parts, " | ");
    var summary := Get(fields, "Abstract", JNull);
    assert Truthy(summary) ==> exists rest :: r == "Description: " + Format(summary, render) + rest by {
      if Truthy(summary) {
        assert r == parts[0] + r[|parts[0]|..];
      }
    }
    assert related.value.Some? ==> exists front :: r == front + related.value.value by {
      if related.value.Some? {
        var last := parts[|parts| - 1];
        assert last == related.value.value;
        assert r == r[..|r| - |last|] + last;
      }
    }
  }

  /** With only a summary found, the context is exactly its description. */
  lemma SearchOnlyAbstract(fields: map<string, Value>, render: Value -> string)
    requires Truthy(Get(fields, "Abstract", JNull)) && !Truthy(Get(fields, "Definition", JNull))
    requires !Truthy(Get(fields, "RelatedTopics", JNull))
    ensures SearchForContext(Reply(200, Some(JObject(fields))), render)
      == Some("Description: " + Format(Get(fields, "Abstract", JNull), render))
  {
  }

  /** Entries after the second never matter to the related part. */
  lemma RelatedLooksAtFirstTwo(a: seq<Value>, b: seq<Value>)
    requires |a| >= 2 && |b| >= 2 && a[..2] == b[..2]
    ensures RelatedPart(JArray(a)) == RelatedPart(JArray(b))
  {
    assert FirstTwo(a) == a[..2] && FirstTwo(b) == b[..2];
  }

  /**
   * A first entry without text is skipped and the second entry's text is the whole related
   * part, whatever entries follow.
   */
  lemma RelatedSkipsFalsyText(x: map<string, Value>, y: map<string, Value>, text: string, rest: seq<Value>)
    requires !Truthy(Get(x, "Text", JString("")))
    requires Get(y, "Text", JString("")) == JString(text) && text != []
    ensures RelatedPart(JArray([JObject(x), JObject(y)] + rest)) == Done(Some("Related: " + text))
  {
    var items := [JObject(x), JObject(y)] + rest;
    assert TopicTexts(FirstTwo(items)) == Done([JString(text)]) by {
      assert FirstTwo(items) == [JObject(x)] + [JObject(y)];
      TopicTextsConcat([JObject(x)], [JObject(y)]);
      TopicTextsOne(JObject(x));
      TopicTextsOne(JObject(y));
      assert [] + [JString(text)] == [JString(text)];
    }
    RelatedFromTexts(items, [JString(text)]);
    assert Strings([JString(text)]) == [text];
  }

  /** A non-empty list whose first two entries give string texts, some of them, has those texts as its related part. */
  lemma RelatedFromTexts(items: seq<Value>, texts: seq<Value>)
    requires items != [] && TopicTexts(FirstTwo(items)) == Done(texts)
    requires texts != [] && AllStrings(texts)
    ensures RelatedPart(JArray(items)) == Done(Some("Related: " + Join(Strings(texts), "; ")))
  {
  }

  /** Two entries with text give both texts, joined with "; " in entry order. */
  lemma RelatedTwoTexts(x: map<string, Value>, y: map<string, Value>, t1: string, t2: string, rest: seq<Value>)
    requires Get(x, "Text", JString("")) == JString(t1) && t1 != []
    requires Get(y, "Text", JString("")) == JString(t2) && t2 != []
    ensures RelatedPart(JArray([JObject(x), JObject(y)] + rest)) == Done(Some("Related: " + t1 + "; " + t2))
  {
    var items := [JObject(x), JObject(y)] + rest;
    var texts := [JString(t1)] + [JString(t2)];
    assert TopicTexts(FirstTwo(items)) == Done(texts) by {
      assert FirstTwo(items) == [JObject(x)] + [JObject(y)];
      TopicTextsConcat([JObject(x)], [JObject(y)]);
      TopicTextsOne(JObject(x));
      TopicTextsOne(JObject(y));
    }
    RelatedFromTexts(items, texts);
    assert Strings(texts) == [t1, t2];
    JoinTwo(t1, t2, "; ");
    Regroup("Related: ", t1, "; ", t2);
  }

  /**
   * When the related part raises: "RelatedTopics" is truthy but not a list, one of its
   * first two entries is not an object (`.get` fails), or one of them has a truthy text
   * that is not a string (which '; '.join refuses).
   */
  lemma RelatedPartErrors(related: Value)
    ensures RelatedPart(related).Raised? <==>
      || (Truthy(related) && !related.JArray?)
      || (related.JArray? && exists k :: 0 <= k < |FirstTwo(related.items)| && !FirstTwo(related.items)[k].JObject?)
      || (related.JArray? && exists k :: 0 <= k < |FirstTwo(related.items)| && HasNonStringText(FirstTwo(related.items)[k]))
  {
    if related.JArray? && TopicTexts(FirstTwo(related.items)).Done? {
      var first := FirstTwo(related.items);
      var texts := TopicTexts(first).value;
      if !AllStrings(texts) {
        NonStringTextFound(first, texts);
      }
      if exists k :: 0 <= k < |first| && HasNonStringText(first[k]) {
        var k :| 0 <= k < |first| && HasNonStringText(first[k]);
        NonStringTextCollected(first, texts, k);
      }
    }
  }

  /** A collected text that is not a string comes from a topic whose truthy text is not a string. */
  lemma NonStringTextFound(topics: seq<Value>, texts: seq<Value>)
    requires TopicTexts(topics) == Done(texts) && !AllStrings(texts)
    ensures exists k :: 0 <= k < |topics| && HasNonStringText(topics[k])
  {
    var j :| 0 <= j < |texts| && !texts[j].JString?;
    var k := TopicTextSource(topics, texts, j);
    assert HasNonStringText(topics[k]);
  }

  /** A topic whose truthy text is not a string puts a non-string among the collected texts. */
  lemma NonStringTextCollected(topics: seq<Value>, texts: seq<Value>, k: nat)
    requires TopicTexts(topics) == Done(texts) && k < |topics| && HasNonStringText(topics[k])
    ensures !AllStrings(texts)
  {
    TopicTextCollected(topics, texts, k);
    var j :| 0 <= j < |texts| && texts[j] == TextOf(topics[k]);
    assert !texts[j].JString?;
  }

  /** An entry that is an object whose text is truthy but not a string. */
  predicate HasNonStringText(topic: Value) {
    topic.JObject? && Truthy(TextOf(topic)) && !TextOf(topic).JString?
  }

  /** Whatever makes the related part raise makes the whole helper answer None. */
  lemma SearchFailsOnRelatedError(fields: map<string, Value>, render: Value -> string)
    requires RelatedPart(Get(fields, "RelatedTopics", JNull)).Raised?
    ensures SearchForContext(Reply(200, Some(JObject(fields))), render) == None
  {
  }

  /**
   * A 200 object reply gives a context exactly when the related part does not raise and
   * at least one of the summary, the definition and the related part is present.
   */
  lemma SearchProducesContext(fields: map<string, Value>, render: Value -> string)
    ensures var related := RelatedPart(Get(fields, "RelatedTopics", JNull));
      SearchForContext(Reply(200, Some(JObject(fields))), render).Some? <==>
        && related.Done?
        && (Truthy(Get(fields, "Abstract", JNull)) || Truthy(Get(fields, "Definition", JNull)) || related.value.Some?)
  {
    var related := RelatedPart(Get(fields, "RelatedTopics", JNull));
    if related.Done? {
      var parts := ContextParts(fields, related.value, render);
      assert parts == [] <==> !Truthy(Get(fields, "Abstract", JNull)) && !Truthy(Get(fields, "Definition", JNull)) && related.value.None?;
    }
  }

  /**
   * With a summary, a definition and two related texts, the context is all of them in that
   * order: the parts joined with " | ", the related texts joined with "; ".
   */
  lemma SearchAllParts(fields: map<string, Value>, render: Value -> string, summary: string, definition: string,
                       x: map<string, Value>, y: map<string, Value>, t1: string, t2: string, rest: seq<Value>)
    requires Get(fields, "Abstract", JNull) == JString(summary) && summary != []
    requires Get(fields, "Definition", JNull) == JString(definition) && definition != []
    requires Get(fields, "RelatedTopics", JNull) == JArray([JObject(x), JObject(y)] + rest)
    requires Get(x, "Text", JString("")) == JString(t1) && t1 != []
    requires Get(y, "Text", JString("")) == JString(t2) && t2 != []
    ensures SearchForContext(Reply(200, Some(JObject(fields))), render)
      == Some(("Description: " + summary) + " | " + ("Definition: " + definition) + " | " + ("Related: " + t1 + "; " + t2))
  {
    RelatedTwoTexts(x, y, t1, t2, rest);
    var p1, p2, p3 := "Description: " + summary, "Definition: " + definition, "Related: " + t1 + "; " + t2;
    var parts := ContextParts(fields, Some(p3), render);
    assert parts == [p1, p2, p3];
    assert SearchForContext(Reply(200, Some(JObject(fields))), render) == Some(Join(parts, " | "));
    assert Join(parts, " | ") == p1 + " | " + p2 + " | " + p3 by {
      assert parts[1..] == [p2, p3] && [p2, p3][1..] == [p3];
      assert Join([p2, p3], " | ") == p2 + " | " + p3;
      assert p1 + " | " + (p2 + " | " + p3) == p1 + " | " + p2 + " | " + p3;
    }
  }

  // ---------------------------------------------------------------------------
  // chat_reply
  // ---------------------------------------------------------------------------

  /** What the handler does to the chat store: nothing, or add an "ai" message to a chat's messages. */
  datatype ChatAction = NoReply | AddMessage(chatId: string, text: string)

  datatype ChatHandled = ChatHandled(action: ChatAction, modelPrompt: Option<string>)

  const ChatPromptIntro :=
    "\nYou are a helpful AI assistant having a conversation about YouTube videos. \n"
    + "Respond to the user's message in a conversational and helpful way.\n\nUser message: "

  /** The conversational prompt around the user's message. */
  function ChatPrompt(message: string): string {
    ChatPromptIntro + message + "\n"
  }

  /** The user's message is carried verbatim, right after the intro, and closes the prompt before its final newline. */
  lemma ChatPromptQuotesMessage(message: string)
    ensures OccursAt(ChatPrompt(message), message, |ChatPromptIntro|)
    ensures Contains(ChatPrompt(message), message)
    ensures |ChatPrompt(message)| == |ChatPromptIntro| + |message| + 1
  {
    OccursInMiddle(ChatPromptIntro, message, "\n");
    ContainsIffOccurs(ChatPrompt(message), message);
  }

  /** The event is worth answering: its data is an object, the sender is "user" and the text is truthy. */
  predicate AnswerableEvent(data: Value) {
    && data.JObject?
    && Get(data.fields, "sender", JNull) == JString("user")
    && Truthy(Get(data.fields, "text", JString("")))
  }

  /**
   * The chat a reply goes to: the second "/"-separated segment of the event's "path"
   * (chats/{chatId}/messages/{messageId}); None when the path is not a string or has no "/".
   */
  function ChatIdOf(path: Value): Option<string> {
    if !path.JString? then None
    else
      var segments := Split(path.s, '/');
      if |segments| >= 2 then Some(segments[1]) else None
  }

  /** The chat id is the text after the first "/" of the path, up to the next "/" or the end. */
  lemma ChatIdIsSecondSegment(path: Value)
    ensures ChatIdOf(path).Some? <==> path.JString? && '/' in path.s
    ensures ChatIdOf(path).Some? ==>
      var i := IndexOf(path.s, '/');
      ChatIdOf(path).value == path.s[i + 1..][..IndexOf(path.s[i + 1..], '/')]
  {
    if path.JString? && '/' in path.s {
      SecondSegment(path.s, '/');
    }
  }

  /**
   * chat_reply on the data of a newly created chat message. There is no reply when the
   * message is not an answerable user message, the model gives no text, the path names no
   * chat, or anything raises.
   */
  function ChatReply(data: Value, generate: string -> ModelOutcome, render: Value -> string): (h: ChatHandled)
    ensures h.modelPrompt.Some? <==> AnswerableEvent(data)
    ensures h.action.AddMessage? ==>
      && AnswerableEvent(data)
      && h.action.text != []
      && generate(h.modelPrompt.value) == Answered(h.action.text)
      && ChatIdOf(Get(data.fields, "path", JString(""))) == Some(h.action.chatId)
  {
    if !AnswerableEvent(data) then ChatHandled(NoReply, None)
    else
      var prompt := ChatPrompt(Format(Get(data.fields, "text", JString("")), render));
      match generate(prompt)
      case Failed => ChatHandled(NoReply, Some(prompt))
      case Answered(answer) =>
        var chatId := ChatIdOf(Get(data.fields, "path", JString("")));
        if answer == [] || chatId.None? then ChatHandled(NoReply, Some(prompt))
        else ChatHandled(AddMessage(chatId.value, answer), Some(prompt))
  }

  /** An answerable event whose model call returns text and whose path has a "/" gets a reply. */
  lemma ChatReplyPosts(data: Value, generate: string -> ModelOutcome, render: Value -> string)
    requires AnswerableEvent(data)
    requires var prompt := ChatPrompt(Format(Get(data.fields, "text", JString("")), render));
      generate(prompt).Answered? && generate(prompt).text != []
    requires var path := Get(data.fields, "path", JString("")); path.JString? && '/' in path.s
    ensures var prompt := ChatPrompt(Format(Get(data.fields, "text", JString("")), render));
      var path := Get(data.fields, "path", JString(""));
      ChatReply(data, generate, render)
        == ChatHandled(AddMessage(ChatIdOf(path).value, generate(prompt).text), Some(prompt))
  {
    ChatIdIsSecondSegment(Get(data.fields, "path", JString("")));
  }

  /** A message not sent by the user, or with empty text, is ignored without consulting the model. */
  lemma ChatIgnoresOthers(fields: map<string, Value>, generate: string -> ModelOutcome, render: Value -> string)
    requires Get(fields, "sender", JNull) != JString("user") || !Truthy(Get(fields, "text", JString("")))
    ensures ChatReply(JObject(fields), generate, render) == ChatHandled(NoReply, None)
  {
  }
}
