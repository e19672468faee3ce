# OrionAI core in Dafny

A model of the deterministic core of OrionAI, a Flask chat and news-forecast
service. The service answers questions through a language-model provider
(Google Gemini or a local Ollama server) and forecasts news coverage of a
topic from a Google News RSS feed.

The model covers two files.

From `app.py`:
- the key mask shown on the health page;
- prompt normalisation for the answer cache;
- the `/calc` whitelist;
- the in-memory time-to-live cache;
- the news cache key and fetch-through-cache policy;
- the daily article series;
- the baseline volume analysis and the trend statistics;
- the slash-command dispatch of `answer_sync`;
- the 220-character chunked event stream;
- the pure shaping of the `/prever` response: topic check, year filter, the twelve newest articles, source host and meta data.

From `back-end/providers.py`:
- provider selection and configuration validation;
- the sliding-window rate limiter;
- the extraction of answer text from Gemini and Ollama replies;
- the mapping of failed requests to user-facing messages;
- the retry loop of `call_llm`.

Modules, one per concern:

| module | file | models |
|---|---|---|
| `Results` | results.dfy | `Option` and `Result` with failure propagation |
| `Strings` | strings.dfy | Python whitespace, `strip`, ASCII `lower`, `split`, `join`, `str(int)` |
| `Infra` | infra.dfy | `_mask`, `_norm` |
| `Cache` | cache.dfy | `MemoryCache` |
| `News` | news.dfy | `NewsService._key`, `NewsService.fetch` |
| `Analytics` | analytics.dfy | `build_series`, `_basic_analyze`, `_trend_confidence` |
| `Chat` | chat.dfy | `Tools.calc` guard, `answer_sync` slash commands, `answer_stream`, `/responder_stream` |
| `Forecast` | forecast.dfy | `/prever` |
| `RateLimit` | ratelimit.dfy | `RateLimiter` and the two global limiters |
| `Providers` | providers.dfy | `LLMConfig`, `call_gemini`, `call_ollama`, `call_llm` |

Modelling choices:
- **Clocks are parameters.** `time.time()` and "today" are explicit parameters.
- **Time units.** Article instants are integer seconds since the Unix epoch. Calendar days are day numbers. Years come from an explicit Gregorian calendar.
- **Network results are inputs.** Every network exchange is an input value, for example an `Outcome` of a POST or a `Download` of the feed. A failure carries the kind of exception `requests` would raise.
- **Sleeps are returned, not performed.** The rate limiter and the retry loop return how long they would sleep.

## Model

| member | source | states |
|---|---|---|
| Infra.Mask | app.py:23-27 | a missing or empty key masks to "NONE"; otherwise a stripped key longer than 10 characters shows exactly its first six and last four characters around "…", and any shorter one shows "****" |
| Infra.MaskHidesMiddle | app.py:26-27 | two long keys that agree on their first six and last four stripped characters mask identically, so the mask reveals nothing of the middle |
| Infra.MaskIgnoresSurroundingSpace | app.py:24-27 | surrounding whitespace never changes the mask of a non-blank key |
| Infra.Norm | app.py:29-30 | the result is at most 2000 characters, is a prefix of the lower-cased words joined by single spaces, has no upper-case ASCII letter, and each whitespace in it is one space following a non-space; when it is shorter than 2000 it is the whole join |
| Infra.NormIgnoresCase | app.py:29-30 | prompts differing only in ASCII letter case normalise alike |
| Infra.NormIdempotent | app.py:29-30 | normalising an uncut normal form changes nothing |
| Cache.Empty | app.py:233-235 | a new cache has the given time-to-live and no entries |
| Cache.Get | app.py:237-244 | a lookup succeeds exactly when the key is present and younger than the time-to-live, and then yields the stored value |
| Cache.Set | app.py:246-250 | the key is stamped with the new value and time; every other key keeps its entry and no key is dropped |
| Cache.GetAfterSet | app.py:237-250 | a value set at t0 is returned exactly while now - t0 < ttl |
| Cache.SetLeavesOtherKeys | app.py:237-250 | setting one key does not change what any other key returns |
| Cache.ExpiryIsPermanent | app.py:237-244 | once an entry has expired it stays expired until it is set again |
| News.NewsKey | app.py:258-259 | the key is the stripped topic with its upper-case ASCII letters lowered, then "::", then the decimal item limit, and nothing else |
| News.NewsKeyCollision | app.py:258-259 | two fetches share a cache key exactly when their stripped, lower-cased topics and their item limits are equal |
| News.Collect | app.py:289-306 | with a positive limit the kept articles are the first `max_items` feed items with a non-blank title and link, in feed order; with a limit of zero or less only the first item is looked at |
| News.Fetch | app.py:261-313 | a zero or missing limit means the configured one; a live cache entry is returned untouched; otherwise the result is cached under the key; after a good download it is the first `limit` kept articles for a positive limit and the kept articles among the first item only for a negative one; after a failure it is the empty list |
| News.FailureIsCached | app.py:283-286 | after a failed download, a repeat fetch within the time-to-live returns the cached empty list |
| Analytics.ClampDays | app.py:321-326 | the day count always lies in [1, 180]; a non-integer means 7; an in-range integer is kept; values outside are clamped to the nearer bound |
| Analytics.BuildSeries | app.py:321-339 | one point per day of the clamped window ending today, in ascending date order; each count is the number of articles with a usable instant on that UTC day |
| Analytics.SeriesCountsEveryArticleOnce | app.py:328-339 | the counts of a series add up to the number of articles inside its window, hence never to more than the number of articles |
| Analytics.VolumeLabel | app.py:349-356 | the four labels partition the cases: quiet iff the mean and the last value are both 0; rising iff above 125% of the mean; falling iff below 75% of it; steady otherwise |
| Analytics.MeanPrev | app.py:344-345 | with two or more values the mean times the number of earlier values is their sum; otherwise 0 |
| Analytics.BasicAnalyze | app.py:341-356 | an empty series reads as [0]; change is the last value minus its predecessor (0 when there is none); momentum subtracts the previous change; the label is the volume label of the last value against the mean of the earlier ones |
| Analytics.FlatSeriesIsSteady | app.py:341-356 | a constant positive series is labelled steady, with mean equal to the constant and no change and no momentum |
| Analytics.ConfidenceLabel | app.py:402-407 | "Alta" iff the score exceeds 0.66, "Baixa" iff it is below 0.33, "Média" otherwise |
| Analytics.DenominatorIsPositive | app.py:392 | with two or more points the sum of squared index deviations is positive, so the `or 1` fallback never applies |
| Analytics.Slope | app.py:388-393 | the slope times the sum of squared index deviations equals the sum of cross deviations: it is the least-squares solution |
| Analytics.PercentChange | app.py:396 | 0 when the first value is 0; otherwise pct times the first value equals 100 times the change |
| Analytics.TrendConfidence | app.py:383-411 | fewer than two values give (0, 0, 0, 0.5, "Média"); otherwise the slope solves the least-squares normal equation, pct is the percent change from the first to the last value (0 when the first is 0, positive iff the series rose from a positive start), last delta is the final step, and the level is the confidence label of the score |
| Analytics.SlopeOfProgression | app.py:388-393 | the slope of an arithmetic progression is its common difference |
| Analytics.SlopeOfConstant | app.py:388-393 | a constant series has slope 0 |
| Chat.CalcGuard | app.py:214-216 | an expression is accepted iff it is non-empty and every character is a digit, one of `.+-*/()%` or whitespace; an accepted one contains no character that could start a Python name; a rejected one raises "Expressão inválida" |
| Chat.Dispatch | app.py:491-504 | the prefixes are tried in the order "/calc ", "/http ", "/rss "; the calc argument is the rest of the text verbatim; the http and rss arguments are stripped; anything else goes to the model unchanged |
| Chat.DispatchCalcInverse | app.py:491-493 | prefixing "/calc " to any text dispatches back to that exact text |
| Chat.DispatchHttpInverse | app.py:496-497 | prefixing "/http " dispatches to the stripped address |
| Chat.DispatchRssInverse | app.py:499-500 | prefixing "/rss " dispatches to the stripped topic |
| Chat.DispatchPlainQuestion | app.py:491-504 | a question not starting with '/' goes to the model unchanged |
| Chat.CalcReply | app.py:491-495 | a rejected expression gives "Erro no calc: Expressão inválida"; an accepted one gives the evaluator's value or "Erro no calc: " and its error |
| Chat.HttpReply | app.py:496-498 | never empty: the fetched page when there is one, the refusal otherwise |
| Chat.RssReply | app.py:499-504 | "Nada encontrado." exactly when the search found nothing; otherwise the header naming the topic followed by the items' link lines joined by newlines |
| Chat.RssLines | app.py:503 | one line per item, in order, each `- [title](link)` |
| Chat.SlashReply | app.py:489-505 | a slash reply is produced exactly for the calc, http and rss commands: the calculator reply for the verbatim expression, the HTTP reply for what the guarded fetch of the stripped address returned, and the RSS reply for the search of the stripped topic; every other question goes on to the model |
| Chat.ChunkText | app.py:548 | the chunks concatenate back to the text; there are ceil(n/220) of them, none empty, all of length 220 except possibly the last |
| Chat.AnswerStream | app.py:523-550 | the stream starts with `start` and ends with `end`; every event between carries a non-empty delta of at most 220 characters, and the deltas concatenate to the answer |
| Chat.ResponderStream | app.py:589-594 | a blank query yields exactly the lone "Falta parâmetro q" error event; otherwise a well-formed stream of the answer to the stripped query: `start`, non-empty deltas of at most 220 characters that concatenate to the answer, then `end` |
| Forecast.TopicOf | app.py:614-621 | the request is refused with "Informe 'tema' no body JSON." iff the topic is missing or blank; otherwise the topic is the stripped text, non-empty |
| Forecast.YearOfDay | app.py:631 | the year of a day is the calendar year whose span of day numbers contains it |
| Forecast.YearIsUnique | app.py:631 | year spans do not overlap: any year whose span contains the day is the computed year |
| Forecast.YearOfDayMonotone | app.py:631 | later days never fall in earlier years |
| Forecast.KnownYearStarts | app.py:631 | 1970, 2000 and 2024 begin on day numbers 0, 10957 and 19723 |
| Forecast.FilterByYear | app.py:630-631 | the filter applies only when both bounds are non-zero and in order; then an article is kept iff its UTC year lies between them, otherwise the list is unchanged |
| Forecast.InYearsAppend | app.py:631 | filtering keeps feed order |
| Forecast.SortIsNewestFirst | app.py:636 | the sorted list is newest first |
| Forecast.SortNewestFirst | app.py:636 | the sorted list is a permutation of the input |
| Forecast.SortIsStable | app.py:636 | the sort is stable: articles sharing an instant come out in feed order |
| Forecast.Newest | app.py:636 | the listing has min(12, n) articles |
| Forecast.NewestTiesInFeedOrder | app.py:636 | among equally recent articles, the ones shown are the first of them in feed order |
| Forecast.NewestSelection | app.py:636 | the listing holds min(12, n) articles drawn from the input, newest first, and no article left out is more recent than any shown |
| Forecast.Source | app.py:641 | the source never contains '/', and it is empty for an address without "//" |
| Forecast.SourceIsHost | app.py:641 | for an address `scheme://host/path` the source is exactly the host |
| Forecast.SetOrNone | app.py:655-656 | a year bound of 0 is reported as null, any other as itself |
| Forecast.Respond | app.py:623-660 | the response for a known topic and year bounds: meta data, daily counts of the filtered articles and the newest twelve listed |
| Forecast.Prever | app.py:612-660 | a year bound that `int()` rejects raises before anything else; otherwise the request is refused exactly for a missing or blank topic; otherwise the meta data echoes the stripped topic, the clamped days, whether the year filter applied and the bounds; the series has one point per day counting the filtered articles on that day, in total at most the filtered and hence the fetched articles; the articles are the listings of the newest twelve filtered articles, and the totals are their counts |
| RateLimit.NewLimiter | back-end/providers.py:120-122 | a new limiter has the given limit and no recorded calls |
| RateLimit.Recent | back-end/providers.py:130 | the surviving calls are never more than the recorded ones |
| RateLimit.RecentMembers | back-end/providers.py:130 | a call survives the cut iff it is later than the cutoff |
| RateLimit.WaitIfNeeded | back-end/providers.py:124-138 | the limiter fails (IndexError) iff the limit is reached with no recent call; otherwise it records the time read before the sleep; it does not sleep below the limit, and at the limit it sleeps until the oldest recent call is a minute old |
| RateLimit.SleepIsBounded | back-end/providers.py:132-136 | when the limit is reached and all calls are in the past, the sleep is positive and at most 60 seconds |
| RateLimit.WaitThenRecord | back-end/providers.py:124-138 | the corrected step fails and sleeps exactly as the original does, but records the moment the call actually goes out |
| RateLimit.StepAsWritten | back-end/providers.py:124-138 | a request handled as written adds one sent call, no earlier than the request, and the limiter records the time read before the sleep |
| RateLimit.RunAsWritten | back-end/providers.py:124-138 | a successful run sends one call per request, none before it was requested |
| RateLimit.StepCorrected | back-end/providers.py:124-138 | a corrected step adds one sent call, no earlier than the request, and the limiter records exactly that send time |
| RateLimit.RunCorrected | back-end/providers.py:124-138 | a successful corrected run sends one call per request, none before it was requested |
| RateLimit.FirstTwoRequests | back-end/providers.py:124-138 | at one call per minute, requests at 0 s and 1 s go out at 0 s and 60 s, yet the limiter records 0 s and 1 s |
| RateLimit.RecordedTimeCanExceedLimit | back-end/providers.py:124-138 | at one call per minute, requests at 0 s, 1 s and 60.5 s go out at 0 s, 60 s and 61 s: two calls within one second |
| RateLimit.StepKeepsInvariant | back-end/providers.py:124-138 | one corrected step keeps the recorded calls a suffix of the sent times, keeps the sent times ordered, and keeps them spaced |
| RateLimit.CorrectedRunIsSpaced | back-end/providers.py:117-138 | with a limit of at least one, a corrected run never fails, sends one call per request, and never lets more than the limit out within any minute |
| RateLimit.GlobalLimitersKeepQuota | back-end/providers.py:140-142 | the corrected global limiters let at most 50 Gemini calls and 1000 Ollama calls out in any minute |
| Providers.GetProvider | back-end/providers.py:65-67 | an unset variable means "gemini"; a set one is lowered character by character (ASCII capitals to small letters, everything else kept) |
| Providers.BackendOf | back-end/providers.py:377-380 | Ollama is called exactly for the provider "ollama"; every other provider falls through to Gemini |
| Providers.OllamaIsCaseInsensitive | back-end/providers.py:370-380 | Ollama is used iff the variable is set and spells "ollama" in any ASCII case; an unset or unknown provider means Gemini |
| Providers.ValidateConfig | back-end/providers.py:86-115 | only "gemini" and "ollama" can be valid; Ollama is valid exactly when its probe answered 200; Gemini without a key is invalid |
| Providers.ValidateConfigCases | back-end/providers.py:86-115 | the configuration is valid iff Gemini is selected with a non-blank key, or Ollama is selected and its server answered 200 |
| Providers.PartTextOne | back-end/providers.py:215-218 | a part contributes nothing when its text is missing or blank, otherwise its stripped text, which is clean |
| Providers.PartTextsClean | back-end/providers.py:215-218 | every text kept from the parts is non-empty with no whitespace at either end |
| Providers.TextsClean | back-end/providers.py:212-218 | every text kept from the candidates is non-empty with no whitespace at either end |
| Providers.PartTextsAppend | back-end/providers.py:215-218 | parts contribute their texts in order |
| Providers.TextsAppend | back-end/providers.py:213-218 | candidates contribute their texts in order |
| Providers.SkipsCandidateWithoutParts | back-end/providers.py:213-214 | a candidate without content or without parts contributes nothing |
| Providers.JoinOfCleanIsClean | back-end/providers.py:220 | joining clean texts with newlines needs no further stripping |
| Providers.GeminiText | back-end/providers.py:212-237 | with nothing kept, the apology; otherwise exactly the kept texts joined by newlines, which is clean |
| Providers.ClassifyGemini | back-end/providers.py:239-260 | a timeout (connect or read) is a timeout; status 429, 401 and any status of 500 or more each have their own message; a connection error or any other status is a communication error carrying the exception text; an undecodable body is a parse error |
| Providers.GeminiMessage | back-end/providers.py:239-260 | a communication error's message is the fixed prefix followed by exactly the exception text |
| Providers.Gemini | back-end/providers.py:197-260 | succeeds iff the request succeeded, with the extracted text; otherwise fails with the message of the failure's class |
| Providers.OllamaText | back-end/providers.py:315-332 | a missing or blank `response` gives the overload message; otherwise the stripped response, which is clean |
| Providers.ClassifyOllama | back-end/providers.py:334-350 | connection errors and connect timeouts mean the server is down; only read timeouts are timeouts; 404 names the missing model; any other status is a communication error; an undecodable body escapes with its own text |
| Providers.OllamaMessage | back-end/providers.py:334-350 | a missing model is named in quotes at the start and again at the end (the `ollama pull` hint); a communication error is the fixed prefix and the exception text; an escaping exception keeps its own text |
| Providers.Ollama | back-end/providers.py:302-350 | succeeds iff the request succeeded, with the extracted text; otherwise fails with the message of the failure's class |
| Providers.Retry | back-end/providers.py:373-392 | between one and three attempts; the result is the last attempt's; every earlier attempt failed; failure means all three failed; the back-off before retry i is 2^i seconds |
| Providers.CallLlm | back-end/providers.py:352-392 | the back end follows the provider setting; a blank prompt is refused with "Prompt cannot be empty" before any attempt; otherwise the result is that of the retry loop |

## Left out

- I/O: the HTTP requests, RSS download retries, XML parsing, `pubDate` parsing, the Flask routes' JSON encoding and the logging. Their results are inputs.
- Floating point: `statistics.pstdev`, the sigmoid score of `_trend_confidence` (the score is an input), and `:.1f`-style formatting. Reals are exact, so a value landing exactly on a 0.75, 1.25, 0.33 or 0.66 threshold after float rounding is not modelled.
- The model-facing parts of `app.py`:
  - `LLMClient`, `RAGEngine`, `_compose_prompt` and the draft-and-refine path of `answer_sync`;
  - sentiment analysis, spike detection and the hypothesis text of `analyze`;
  - the Ollama branch of `answer_stream`, which streams server-sent lines;
  - `safe_http_get`, `rss_search` and the `eval` behind `/calc`. These are parameters of `Chat.SlashReply`.
- The root `providers.py` is not part of this model. `app.py` imports `call_llm` from it; the model follows `back-end/providers.py`.
- The Gemini and Ollama request bodies, the prompt formatting, the HTTP session and the usage and timing logs.
- The random jitter of up to 0.1 s added to each back-off.
- The global rate-limiter calls inside each attempt. They are modelled on their own in `RateLimit`.
- Concurrency. The rate limiter is modelled for one caller issuing requests in turn; threads sharing the global limiters are not modelled.
- Providers.CallLlm: takes what each attempt of the chosen back end returned as an input, rather than composing `Gemini`/`Ollama` with the limiter.
- Providers.ClassifyGemini: an undecodable body is mapped to the parse-error message. This follows the `except (KeyError, ValueError)` clause, assuming the decoding error is not a `RequestException`. In `requests` 2.27 and later it is one, and it would be reported as a communication error instead.
- Providers.ClassifyOllama: an undecodable body escapes with its own text, under the same assumption about `requests`.
- Providers.GeminiText: a part whose `text` is JSON null is treated like a missing one. In the source, `part.get("text", "")` then returns `None`, and `.strip()` raises an `AttributeError` that no clause catches. Values of other JSON types are not modelled either.
- Providers.GetProvider: lower-cases ASCII letters only. Python's `str.lower` also folds other scripts.
- Infra.Norm: lower-cases ASCII letters only, for the same reason.
- News.NewsKeyCollision: lower-cases ASCII letters only, for the same reason.
- Forecast.Prever: the `ValueError` raised for a year bound quotes the rejected value; the model reports it with one fixed text.
- Forecast.NewestSelection: article instants are whole seconds. An article whose date does not parse gets `datetime.now()` in the source, which differs by microseconds from item to item and grows along the feed. The source therefore lists such articles in reverse feed order, while the model gives them the same second and, by `Forecast.SortIsStable`, lists them in feed order.
- Forecast.Prever: takes the fetched articles and today's day number as inputs. The analytics text and trend fields of the response are not assembled.
- `/health`, the application factory, `AppConfig` loading and `health_check` in `back-end/providers.py`.

## Findings

| source | as written | input that shows it | evidently intended | confidence | as-written member | corrected member |
|---|---|---|---|---|---|---|
| back-end/providers.py:124-138 | `wait_if_needed` reads `now`, may sleep, then records `now`, the time before the sleep | limit 1 call per minute; requests at 0 s, 1 s and 60.5 s go out at 0 s, 60 s and 61 s, two calls one second apart | record the time the call actually goes out (`now + sleep`), so no minute holds more than `calls_per_minute` calls | not executed; high for the sequential case | RateLimit.RecordedTimeCanExceedLimit | RateLimit.CorrectedRunIsSpaced |
