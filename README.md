# YouTube AI filter: decision logic and content-script controller

This project models the two pieces of logic in a browser extension that hides YouTube videos which go
against what the user said they want to avoid, and it proves properties of that model.

- **The serverless backend** (`backend/main.py`, module `Backend`):
  - `filter_video` is a total function from the decoded request body and the outcome of the
    generative-model call to an HTTP status, a JSON body and the prompt that was sent, if any.
    Requests are validated and refused before the model is consulted. The answer is stripped and
    lower-cased, and the video is removed exactly when the answer contains `remove`. Every failure
    path (no body, missing fields, a body that is not an object, a failed model call) answers
    `keep`.
  - The context-string assembly of `search_for_context`.
  - The guard and chat-id extraction of `chat_reply`.
- **The content script** (`src/youtube-filter.ts`, module `ContentScript`): a class
  `FilterController` whose fields are the script's module-level variables. Each event becomes a
  method: preferences loaded or changed, page navigation, a processing pass over the page's
  containers, an answer or error for a filter request, and a loading-message tick. A processing
  pass is specified by the function `Pass`. It goes over the title of each container to process,
  in order (`TitleOf`: none when no title element or no text was found, and otherwise the
  trimmed text). The lemmas about `Pass` give the dedup rules:
  - a request only for an id not yet processed;
  - every new titled video gets one;
  - the processed set grows by exactly the ids issued;
  - a second pass issues nothing.

The supporting modules are:
- `Text`: Python's `str.strip`, `str.lower` restricted to ASCII letters, `in`, `str.split` and
  `str.join`, JavaScript's `trim`, and decimal rendering, all over `seq<char>`;
- `Json`: decoded JSON values with Python truthiness and `dict.get` (finite numbers and
  well-formed strings only);
- `Wrappers`: `Option`.

Abstractions:
- The generative model is a parameter `generate: string -> ModelOutcome`. `Failed` stands for any
  exception of the SDK call or of reading the answer text.
- Python's `str()` of a non-string JSON value is a parameter `render`.
- DOM queries become the `Container` datatype, which records:
  - whether the container has an ad slot;
  - whether it has video content;
  - the title element's text, if a title element was found.
- Timers, `fetch` and storage callbacks become method calls, applied one at a time.

Some behaviour worth knowing, as stated by the lemmas:
- The decision is a substring test. An answer that says "do not remove" is read as
  "remove" (`RemoveAnywhere`).
- Video ids of different positions never collide, and an id determines the first 30 code points
  of its title (`VideoIdDetermines`). At one position, two titles that share their first 30 code
  points get the same id (`VideoIdSharedPrefix`).
- Navigation restarts the loading phase but keeps the processed ids. A pass over videos whose ids
  were all processed earlier issues no request (`PassOverProcessed`), so no answer arrives to count
  towards taking the loading screen down.

The related part of the search context slices off the first two `RelatedTopics` entries and then
drops those without a `Text`, so a third entry is never used, even when one of the first two has no
text (`backend/main.py:40`, `RelatedLooksAtFirstTwo`, `RelatedSkipsFalsyText`).

## Model

| member | source | states |
|---|---|---|
| Backend.FilterPrompt | backend/main.py:103-122 | The classification prompt. `PromptEmbedsVerbatim` states what it carries: both inputs verbatim, on their labelled, quoted lines. |
| Backend.Normalize | backend/main.py:128 | The answer stripped and lower-cased. `DecisionIsCaseInsensitiveSearch` states that for the search for "remove" the strip makes no difference. |
| Backend.DecisionOf | backend/main.py:128-136 | The decision rule. `DecisionIsCaseInsensitiveSearch` characterises it: "remove" exactly when "remove" occurs in the lower-cased answer. `RemoveAnywhere` and `ShortAnswerKeeps` give its two consequences. |
| Backend.ValidRequest | backend/main.py:80-90 | An object with a truthy title and truthy preferences. `FilterVideo` states that the model is consulted exactly for such a request. |
| Backend.PromptFor | backend/main.py:84-122 | The prompt for a valid request: the preferences and the title, each read with `.get` and put in its placeholder. `FilterDecisionRule` states that exactly this prompt is sent to the model. |
| Backend.FilterVideo | backend/main.py:73-159 | The status is 200, 400 or 500, and it is not 200 exactly when an error message is present. Every non-200 answer is "keep" and leaves the model unconsulted. The model is consulted exactly for an object with a truthy title and truthy preferences. "remove" only comes with 200 and an answer the model actually gave whose stripped, lower-cased text contains "remove". |
| Backend.FilterRejectsMissingBody | backend/main.py:77-82 | An absent, unparsable or falsy body gives 400 with "No JSON body provided" and "keep", and the model is not consulted. |
| Backend.FilterRejectsMissingFields | backend/main.py:84-90 | A non-empty object whose title or preferences are missing or falsy gives 400 with "Title and preferences are required" and "keep", and the model is not consulted. |
| Backend.FilterNonObjectBody | backend/main.py:156-159 | A truthy body that is not an object makes `.get` raise. The answer is 500 and "keep", with the message "Error processing video filter request: '<type>' object has no attribute 'get'", and the model is not consulted. |
| Backend.FilterDecisionRule | backend/main.py:127-150 | For a valid request the answer is 200 without an error, and the prompt built from the request is sent. The decision is "remove" exactly when the model answered and "remove" occurs in its lower-cased answer. A failed call answers "keep". |
| Backend.FilterFollowsAnswer | backend/main.py:127-136 | For a non-empty title and preferences, the response is 200 with exactly the decision the model's answer leads to. |
| Backend.FilterKeepsOnModelFailure | backend/main.py:140-150 | For a non-empty title and preferences, a failing model call still gives 200 and "keep". |
| Backend.PromptEmbedsVerbatim | backend/main.py:103-122 | The prompt contains the line `User says: "<preferences>"` and the line `Video title: "<title>"`, with both inputs verbatim. |
| Backend.DecisionIsCaseInsensitiveSearch | backend/main.py:128-136 | Stripping does not change the decision. The decision is "remove" exactly when "remove" occurs in the lower-cased answer, so the match ignores case. |
| Backend.RemoveAnywhere | backend/main.py:133-134 | Any answer that contains a case variant of "remove" anywhere leads to "remove", even inside a negation. |
| Backend.ShortAnswerKeeps | backend/main.py:133-136 | An answer shorter than six characters after stripping leads to "keep". |
| Json.Truthy | backend/main.py:80-88 | Python's truthiness: `None`, `False`, zero, and the empty string, list and object are falsy. `FilterRejectsMissingBody` and `FilterRejectsMissingFields` state how the request checks use it. |
| Json.Get | backend/main.py:84-85 | `dict.get(key, default)`: the stored value when the key is present, otherwise the default. `FilterRejectsMissingFields` states that a missing title or preferences counts as the empty string. |
| Json.TypeName | backend/main.py:156-157 | The Python type name of a decoded value. `FilterNonObjectBody` states that it appears in the message of the 500 answer. |
| Json.Format | backend/main.py:103-106 | An f-string placeholder: a string is inserted unchanged, any other value through `str()`. `SearchPartOrder` and `SearchOnlyAbstract` state the context parts built with it, and `ChatReplyPosts` the chat prompt. |
| Backend.FirstTwo | backend/main.py:40 | Python's `[:2]`: the first two entries, or all of them when there are fewer. |
| Backend.TextOf | backend/main.py:40 | A topic's `Text` entry, or the empty string when it has none. `TopicTextSource` and `TopicTextCollected` state that the collected texts are exactly the truthy ones among these. |
| Backend.TopicTexts | backend/main.py:40 | Collection raises exactly when some entry is not an object. Every collected text is truthy, and there are at most as many as entries. |
| Backend.TopicTextSource | backend/main.py:40 | Every collected text is the `Text` of some entry. |
| Backend.TopicTextCollected | backend/main.py:40 | Every entry's truthy `Text` is collected. |
| Backend.TopicTextsConcat | backend/main.py:40 | Collecting over two runs of entries collects over each in turn, so the texts keep the entries' order. Either run raising makes the whole raise. |
| Backend.TopicTextsOne | backend/main.py:40 | A single entry contributes its `Text` when that is truthy, and nothing otherwise. |
| Backend.RelatedPart | backend/main.py:38-42 | The "Related: ..." part. `RelatedPartErrors`, `RelatedTwoTexts`, `RelatedSkipsFalsyText` and `RelatedLooksAtFirstTwo` characterise it. |
| Backend.RelatedPartErrors | backend/main.py:38-42 | The related part raises exactly in three cases: a truthy `RelatedTopics` that is not a list; one of its first two entries that is not an object; or one of them whose truthy `Text` is not a string. |
| Backend.NonStringTextFound | backend/main.py:40-42 | A collected text that is not a string comes from an entry whose truthy `Text` is not a string. |
| Backend.NonStringTextCollected | backend/main.py:40-42 | An entry whose truthy `Text` is not a string puts a non-string among the collected texts. |
| Backend.RelatedTwoTexts | backend/main.py:38-42 | Two leading entries with non-empty texts give exactly "Related: " followed by both texts, joined with "; ", whatever entries follow. |
| Backend.ContextParts | backend/main.py:28-42 | The parts in the order description, definition, related. `SearchAllParts`, `SearchPartOrder` and `SearchProducesContext` state what the helper makes of them. |
| Backend.SearchForContext | backend/main.py:14-50 | A context is only produced from a 200 reply whose body is a JSON object, and it is never empty. A transport error, another status, or a body that is not a JSON object gives None. |
| Backend.SearchProducesContext | backend/main.py:28-48 | A 200 object reply gives a context exactly when the related part does not raise and at least one of the abstract, the definition and the related part is present. |
| Backend.SearchFailsOnRelatedError | backend/main.py:38-50 | Every error raised while building the related part makes the result None. |
| Backend.SearchAllParts | backend/main.py:28-44 | With an abstract, a definition and two related texts, the context is exactly "Description: ...", "Definition: ..." and "Related: ..." in that order, joined with a vertical bar between two spaces, with the related texts joined with "; ". |
| Backend.SearchNothingFound | backend/main.py:44 | With no abstract, no definition and no related topics, the result is None. |
| Backend.SearchPartOrder | backend/main.py:28-44 | A present abstract always opens the context with "Description: …". A present related part always closes it. |
| Backend.SearchOnlyAbstract | backend/main.py:30-32 | With only an abstract, the context is exactly "Description: " followed by the abstract. |
| Backend.RelatedLooksAtFirstTwo | backend/main.py:40 | Entries after the second never change the related part. |
| Backend.RelatedSkipsFalsyText | backend/main.py:39-42 | A first entry without text is skipped. The text of the second entry, any object, is then the whole "Related: …" part, whatever follows it. |
| Backend.ChatPrompt | backend/main.py:186-191 | The conversational prompt. `ChatPromptQuotesMessage` states where the message sits in it. |
| Backend.ChatPromptQuotesMessage | backend/main.py:186-191 | The user's message occurs verbatim right after the intro, and only the final newline follows it. |
| Backend.AnswerableEvent | backend/main.py:172-177 | An event whose sender is "user" and whose text is truthy. `ChatReply` states that the model is asked exactly for such an event, and `ChatIgnoresOthers` that every other event gets no reply. |
| Backend.ChatIdOf | backend/main.py:205-207 | The chat id, the second "/"-separated segment of the path. `ChatIdIsSecondSegment` characterises it. |
| Backend.ChatReply | backend/main.py:172-207 | The model is consulted exactly for a user message with truthy text. A reply is added only with a non-empty answer the model gave, and only to the chat that the path names. |
| Backend.ChatIdIsSecondSegment | backend/main.py:205-207 | A chat id exists exactly when the path is a string containing "/". It is the text after the first "/", up to the next "/" or the end. |
| Backend.ChatReplyPosts | backend/main.py:196-207 | The reply is added to the path's chat, with the model's text. This holds for a user message with truthy text, a non-empty answer, and a path containing "/". |
| Backend.ChatIgnoresOthers | backend/main.py:172-177 | A message whose sender is not "user", or whose text is falsy, is ignored without consulting the model. |
| Text.Strip | backend/main.py:128 | Python's `strip()`, and JavaScript's `trim()` with the other space set. `StripIsInfix` and `StripIdempotent` characterise it. |
| Text.Lower | backend/main.py:128 | Lower-casing of the ASCII letters, code point by code point. `LowerConcat` and `LowerSlice` state that it works piecewise. |
| Text.LowerConcat | backend/main.py:128 | Lower-casing a concatenation lower-cases each piece. |
| Text.Contains | backend/main.py:133 | Python's `in` on strings. `ContainsIffOccurs` characterises it. |
| Text.ContainsIffOccurs | backend/main.py:133 | The scan finds the pattern exactly when it occurs at some position. |
| Text.Split | backend/main.py:205 | The parts contain no separator, and there are at least two parts exactly when the separator occurs. |
| Text.JoinSplit | backend/main.py:205 | Joining the parts of a split with the separator gives back the input. |
| Text.SplitFirst | backend/main.py:205 | The first part runs up to the first separator. After a separator, the remaining parts are the split of what follows it. |
| Text.SecondSegment | backend/main.py:205-207 | The second part of a split is the text between the first separator and the next one, or the end. |
| Text.StripIsInfix | backend/main.py:128 | The stripped text is the infix between the leading and trailing runs of whitespace. It neither starts nor ends with whitespace. |
| Text.StripIdempotent | backend/main.py:128 | Stripping twice is stripping once. |
| Text.SearchIgnoresStrip | backend/main.py:128-133 | Searching the lower-cased, stripped text for a pattern that has no whitespace at either end finds the same as searching the lower-cased raw text. |
| Text.JoinTwo | backend/main.py:42 | Two parts are joined by exactly one separator. |
| Text.JoinEnds | backend/main.py:44 | A non-empty join starts with its first part and ends with its last part. |
| Text.Join | backend/main.py:42-44 | `sep.join(parts)`. `JoinTwo`, `JoinEnds` and `JoinSplit` state what a join of two parts is, how a join starts and ends, and that it undoes a split. |
| Text.Decimal | src/youtube-filter.ts:250 | The decimal rendering of a non-negative number: never empty and made of digits only. `DecimalRoundTrip` states that it reads back to the number. |
| Text.DecimalRoundTrip | src/youtube-filter.ts:250 | Reading back the decimal rendering of the index gives the index. |
| ContentScript.IsVideo | src/youtube-filter.ts:199-204 | No ad slot, and video content. `VideoContainers` states that exactly such containers are kept. |
| ContentScript.VideoContainers | src/youtube-filter.ts:199-204 | Exactly the containers with no ad slot and with video content are kept. |
| ContentScript.VideoContainersConcat | src/youtube-filter.ts:199-204 | The filter keeps page order: filtering two parts of a page filters each part. |
| ContentScript.ContainersToProcess | src/youtube-filter.ts:210 | The result is a prefix of the videos. While the loading screen is up it holds the first min(10, n) videos, and otherwise all of them. |
| ContentScript.IsHomePath | src/youtube-filter.ts:27 | The home page `/` or the trending page `/feed/trending`, the test repeated at src/youtube-filter.ts:46 and :63. `OnPreferencesLoaded` and `OnStorageChanged` state that the block counter is reset exactly on such a page. `OnUrlChange` states that a navigation restarts the first load, resets the counter and starts a pass only when it arrives at such a page. |
| ContentScript.TitleOf | src/youtube-filter.ts:232-245 | The title a container gives. `TitleIsTrimmed` characterises it. |
| ContentScript.TitleIsTrimmed | src/youtube-filter.ts:232-245 | A title is given exactly when a title element with non-empty text was found. It is that text with the leading and trailing whitespace removed, and it neither starts nor ends with whitespace. |
| ContentScript.VideoId | src/youtube-filter.ts:250 | The id "video_", index, "_", first 30 code points of the title. `VideoIdDetermines` and `VideoIdSharedPrefix` state which ids coincide. |
| ContentScript.VideoIdSharedPrefix | src/youtube-filter.ts:250 | At one position, titles that share their first 30 code points get the same id. |
| ContentScript.VideoIdDetermines | src/youtube-filter.ts:249-250 | An id determines its index and the title's first 30 code points. Different positions never share an id. |
| ContentScript.Step | src/youtube-filter.ts:245-260 | Handling one container only adds processed ids, and appends at most one request, leaving the earlier ones as they were. |
| ContentScript.Pass | src/youtube-filter.ts:216-260 | A pass never forgets a processed id and issues at most one request per container. |
| ContentScript.PassRequestAt | src/youtube-filter.ts:245-260 | Each request is for a titled container, carries its trimmed title, its id and the preferences, and that id was not processed before the pass. |
| ContentScript.PassOrderAt | src/youtube-filter.ts:216 | Earlier requests are for earlier containers. |
| ContentScript.PassProcessedIds | src/youtube-filter.ts:254-260 | The processed set after a pass is the set before it plus exactly the ids of the requests issued. |
| ContentScript.PassIdsDistinct | src/youtube-filter.ts:249-260 | No two requests of one pass share an id. |
| ContentScript.PassIssues | src/youtube-filter.ts:245-260 | Each request is for a titled container, under that container's id, and that id was not processed before the pass. Requests follow container order and have pairwise different ids. The processed set grows by exactly their ids. |
| ContentScript.PassCoversAt | src/youtube-filter.ts:254-260 | After a pass, the id of a given titled container is processed. |
| ContentScript.PassCovers | src/youtube-filter.ts:254-260 | After a pass, every titled container's id is processed. |
| ContentScript.PassIssuesEveryNewVideo | src/youtube-filter.ts:254-260 | Every titled container whose id was not processed before gets a request in the pass. |
| ContentScript.LaterIdsAreNew | src/youtube-filter.ts:249-257 | A pass never marks the id of a container that lies beyond the part it went over. |
| ContentScript.PassOverProcessed | src/youtube-filter.ts:253-257 | A pass over containers whose ids are all processed issues nothing and changes nothing. |
| ContentScript.PassIdempotent | src/youtube-filter.ts:253-260 | A second pass over the same containers issues nothing. |
| ContentScript.FilterController.Valid | src/youtube-filter.ts:175-187 | The invariant every event keeps, spelled out below the table. |
| ContentScript.FilterController.constructor | src/youtube-filter.ts:12-19 | The initial state: no preferences, no processed ids, no screen, first load, no answers counted, message 0. |
| ContentScript.FilterController.LoadingMessage | src/youtube-filter.ts:159-161 | Toggle 0 shows "Blocking the junk...", and any other value shows "Preparing the page...". |
| ContentScript.FilterController.CreateLoadingScreen | src/youtube-filter.ts:81-90 | Afterwards the screen is up. An existing screen is left as it is, and the invariant is kept. |
| ContentScript.FilterController.RemoveLoadingScreen | src/youtube-filter.ts:163-173 | Afterwards no screen is up, and removing when none is up changes nothing. |
| ContentScript.FilterController.StartFiltering | src/youtube-filter.ts:175-187 | The screen comes up exactly in the first-load phase before the first answers. Otherwise it stays as it was. |
| ContentScript.FilterController.OnPreferencesLoaded | src/youtube-filter.ts:22-35 | The stored preferences are taken, or "" when none are stored. The block counter is reset on "/" and "/feed/trending". Filtering starts exactly when there are preferences. |
| ContentScript.FilterController.OnStorageChanged | src/youtube-filter.ts:38-56 | A preference change clears the processed ids, the first-response flag and the answer counter. It resets the block counter on the home or trending page and starts filtering when there are preferences. It keeps the first-load flag. Other changes alter nothing. |
| ContentScript.FilterController.OnUrlChange | src/youtube-filter.ts:60-78 | Arriving at a new URL on the home or trending page resets the first-load flag, the first-response flag, the counter and the block counter, and keeps the processed ids. Other changes only record the URL. |
| ContentScript.FilterController.ProcessVideos | src/youtube-filter.ts:189-317 | Without preferences nothing happens. Otherwise the requests and the new processed set are exactly those of `Pass` over the containers to process. While the screen is up at most 10 requests are issued. |
| ContentScript.FilterController.ProcessTitles | src/youtube-filter.ts:216-260 | Going over the titles in order leaves exactly the requests and the processed set that `Pass` gives for the processed set before the loop. |
| ContentScript.FilterController.CountAnswer | src/youtube-filter.ts:277-289 | While the screen is up, an answer raises the counter by one. The answer that brings it to 10 sets the first-response flag, ends the first load and removes the screen. The invariant is kept. |
| ContentScript.FilterController.OnResponse | src/youtube-filter.ts:274-293 | The answer is counted as in CountAnswer. The video is blurred, and the block counter raised by one, exactly when the decision is "remove". |
| ContentScript.FilterController.OnError | src/youtube-filter.ts:295-311 | A failed request is counted like an answer, and nothing is blurred. |
| ContentScript.FilterController.OnMessageTick | src/youtube-filter.ts:146-156 | While the screen is up, the toggle flips between 0 and 1 and the new message is shown. Once it is gone, nothing changes. |

The invariant `FilterController.Valid()` holds after every event, and all of these hold together:
- the toggle is 0 or 1;
- the counter never passes 10, and stays below 10 during the first load;
- the screen is only up during the first load and before the first response;
- the first-response flag ends the first load.

## Left out

- HTTP transport: the OPTIONS preflight, the CORS headers and `json.dumps` formatting are not modelled. The response is a status and a body datatype.
- `print` and `console.log` logging are not modelled.
- The generative-model SDK and the project and key configuration are not modelled. The call is the parameter `generate`.
- The `ImportError` branch of `filter_video` (backend/main.py:152-155) is not modelled, because nothing inside its `try` imports.
- The search request of `search_for_context` is not modelled: the URL quoting, `requests.get`, the timeout and the JSON decoding. The model takes the status and the decoded body as `SearchReply`, and the unused `max_results` parameter is dropped.
- The Firestore, Vertex AI and Cloud Storage clients in `chat_reply` are not modelled. Adding the message is the `AddMessage` action.
- The diagnostic endpoints (`test_gcp_services`, `test_gemini_api`, `test_new_genai_sdk`), the local test script, the configuration files and the React popup are outside the model.
- DOM work in the content script is not modelled: the styling, the overlay, blur and hover effects, and scroll locking.
- The title-selector fallback chain (src/youtube-filter.ts:224-230) is not modelled. Its outcome is the `titleText` of a `Container`.
- Timer scheduling is not modelled: the 3 s and 5 s `setTimeout`/`setInterval` calls that run passes, and the 2 s message interval. Passes and ticks are events.
- Several message intervals can be alive at once, after more than one loading screen; the model only has single ticks.
- The hostname check that guards the whole script is not modelled.
- Backend.Normalize: lower-cases ASCII letters only, through `Text.Lower`. Python's `str.lower` maps all of Unicode, so the normalised text itself can differ. No character outside ASCII lower-cases to one of the letters of "remove", so the decision is the same.
- Text.Lower: maps only `A`-`Z` to `a`-`z`. Python's `str.lower` also lower-cases non-ASCII letters, and some of them into several characters; that mapping is not modelled.
- Json.Value: holds finite numbers and strings of code points only. Python's `json.loads` also accepts `NaN`, `Infinity` and `-Infinity`, and `\u` escapes that leave lone surrogates in a string; such bodies are not modelled.
- ContentScript.VideoId: takes the first 30 code points of the title, while JavaScript's `substring` counts UTF-16 code units. The two differ for titles with characters outside the Basic Multilingual Plane.
- ContentScript.FilterController.OnResponse: raises the stored block counter at once. The source reads it, adds one and writes it back in a storage callback, and concurrent callbacks can lose updates. That race is not modelled.
- ContentScript.FilterController.OnResponse: answers come one at a time, in any order, also after a reset. Interleaving inside one pass is not modelled.
- The container index: `videoContainers.indexOf(container)` finds a container by identity, which is its position among the videos. The model uses that position directly.
- Backend.SearchForContext: `render` stands for Python's `str()`. The rendering of floats and nested values is not spelled out.
