# Mentor chat sanitiser and JSON recovery

This project models the AI mentor endpoint of a LeetCode learning journal.
`POST /mentor/chat` asks a local Ollama language model for advice. It then
turns the model's loosely-shaped JSON reply into a clean response.

- **JSON recovery** (`ollama_chat_json`). The reply text is taken from
  `message.content` and stripped of surrounding whitespace. It is parsed as
  JSON. If that fails, the handler retries on the slice from the first `{`
  to the last `}`, but only when both exist and the `}` comes after the
  `{`. Otherwise the first parse error is raised again.
- **Key normalisation.** `reply` defaults to `""` and `recommendations` to
  `[]`. `next_steps` falls back to `nextSteps`, and then to `[]`.
- **Cleaning.** Every recommendation has its four fields trimmed. An item
  is dropped when its slug is empty, was already kept, or appears as
  `solved` in the user's history. An unknown difficulty becomes the target
  difficulty when one is given (and non-empty), else `"Medium"`. A blank
  title becomes the slug, and a blank reason becomes `"Good next step."`.
  Each kept item is upserted into the problem catalog with empty topics.
- **Truncation.** The response carries the cleaned list cut to `limit`.
  The upserts have already happened for every cleaned item.
- **History lines.** For the prompt, each history row's stored topic
  string is split on commas, stripped, and left without empty tags.

Files:

- `wrappers.dfy`: `Option` and `Result`.
- `pystr.dfy`: the Python string operations the code relies on.
  - `strip()`, with Python's exact whitespace set.
  - `split(",")`, including `"".split(",") == [""]`.
  - `find` and `rfind`.
- `ollama_client.dfy`: content extraction, the brace-span fallback, and the
  fallback's outcome.
- `mentor.dfy`: the handler.
  - The request, reply and history records, where `None` means a missing
    key or a JSON null.
  - The catalog as a class whose `upserts` log grows in place.
  - The history-line loop and the cleaning loop, as methods proved against
    the functions `LineOf` and `Cleaned`.
  - Lemmas about what cleaning keeps, the order it keeps it in, and what
    it writes.

Other inputs to the model:

- The HTTP exchange with Ollama is an input: a `Result` holding either the
  error text or the decoded response body.
- `json.loads` is the function parameter `parse`.
- The history rows are an input sequence.

The cleaning loop calls `NormaliseItem` on each recommendation, which
trims the fields and repairs the difficulty. The source repairs the
difficulty only after the skip test. The repair has no side effect, so the
kept items and the upserts are the same either way.

The fallback is described at backend/ollama_client.py:54 as extracting
the "first {...} block". The code takes the first `{` and the last `}`,
without balancing braces, and the model does the same:
`BraceSpanCoversTwoObjects` shows that a reply holding two objects yields
one span covering both and the text between them.

## Model

| member | source | states |
|---|---|---|
| PyStr.Strip | backend/ollama_client.py:47 | The stripped text is no longer than the input and starts and ends with a character that is not whitespace. |
| PyStr.StripIsInfix | backend/routers/mentor.py:85-88 | `strip()` removes only whitespace, and only at the two ends: the result is `s[i..j]` with whitespace alone before `i` and after `j`. |
| PyStr.StripUnique | backend/routers/mentor.py:85-88 | Any text with no edge whitespace, padded with any whitespace on either side, strips back to exactly that text. |
| PyStr.StripIdempotent | backend/routers/mentor.py:27 | Stripping an already stripped string changes nothing. |
| PyStr.StripEmpty | backend/routers/mentor.py:90 | A trimmed field is empty exactly when the raw field is all whitespace, so a whitespace-only slug is skipped. |
| PyStr.StripChars | backend/routers/mentor.py:27 | Every character of the stripped text occurs in the input. |
| PyStr.Split | backend/routers/mentor.py:27 | `split(",")` gives at least one piece, and no piece contains the separator. |
| PyStr.JoinSplit | backend/routers/mentor.py:27 | Joining the pieces back with the separator gives the original string. |
| PyStr.SplitJoin | backend/routers/mentor.py:27 | Splitting a join of separator-free pieces gives back exactly those pieces. |
| PyStr.Find | backend/ollama_client.py:55 | The result is -1 exactly when `{` is absent; otherwise it is an index holding `{` with no `{` before it. |
| PyStr.RFind | backend/ollama_client.py:56 | The result is -1 exactly when `}` is absent; otherwise it is an index holding `}` with no `}` after it. |
| OllamaClient.Content | backend/ollama_client.py:47 | The content is `""` when `message` or `content` is missing; otherwise it is `Strip` of the raw content (pinned down by `StripIsInfix` and `StripUnique`), so it has no edge whitespace. |
| OllamaClient.BraceSpan | backend/ollama_client.py:55-58 | A candidate exists exactly when some `{` comes before some `}`; the candidate starts with `{` and ends with `}`. |
| OllamaClient.BraceSpanBounds | backend/ollama_client.py:55-58 | The candidate is the substring `content[start..end]` inclusive, where `start` is the first `{` and `end` is the last `}`. |
| OllamaClient.BraceSpanOfWrapped | backend/ollama_client.py:54-58 | An object preceded by text without `{` and followed by text without `}` is cut out exactly. |
| OllamaClient.BraceSpanCoversTwoObjects | backend/ollama_client.py:54-58 | Braces are not balanced: for `a {1} b {2} c` the candidate is `{1} b {2}`. |
| OllamaClient.ChatJson | backend/ollama_client.py:51-59 | A direct parse that succeeds is returned unchanged. When the direct parse fails and some `{` precedes some `}`, the outcome is the parse of the brace span. The outcome fails only if the direct parse failed, and any outcome other than the direct parse is the parse of the brace span. |
| OllamaClient.ChatJsonNoSpan | backend/ollama_client.py:57-59 | When `{` or `}` is absent, or the last `}` is not after the first `{`, a failed parse is re-raised unchanged. |
| OllamaClient.ChatJsonRecoversWrapped | backend/ollama_client.py:53-58 | A reply that fails to parse and is an object wrapped in chatter without braces yields the parse of the object alone. |
| Mentor.Catalog.UpsertProblem | backend/routers/mentor.py:101 | Each call appends exactly one upsert, with its four arguments, to the catalog's log. |
| Mentor.PyPrefix | backend/routers/mentor.py:105 | `cleaned[:limit]` is a prefix of `cleaned`. Its length is `min(limit, len)` for `limit >= 0`; a negative `limit` drops that many items from the end. |
| Mentor.NonEmptyStripped | backend/routers/mentor.py:27 | No more tags than pieces; every tag is non-empty with no edge whitespace. |
| Mentor.NonEmptyStrippedMembers | backend/routers/mentor.py:27 | A string is a tag exactly when it is non-empty and is the stripped form of some piece. |
| Mentor.Topics | backend/routers/mentor.py:27 | Every topic tag is non-empty with no edge whitespace. |
| Mentor.TopicsMembers | backend/routers/mentor.py:27 | The tags are exactly the non-empty stripped comma-separated pieces of the stored string (`""` when it is missing), and no tag contains a comma. |
| Mentor.TopicsOfJoined | backend/routers/mentor.py:27 | A comma-joined list of clean tags (non-empty, no edge whitespace, no comma) reads back as exactly that list. |
| Mentor.HistoryLines | backend/routers/mentor.py:25-28 | One line per history row, in order, carrying the row's slug, difficulty and status and its split topic tags. |
| Mentor.SolvedSlugs | backend/routers/mentor.py:82 | A slug is in the set exactly when some history row with that slug has status exactly `solved`. |
| Mentor.ReplyText | backend/routers/mentor.py:73 | The reply is the `reply` value, or `""` when it is missing. |
| Mentor.RecommendationsOf | backend/routers/mentor.py:74 | The recommendations are the listed ones, or `[]` when the key is missing or null. |
| Mentor.NextStepsOf | backend/routers/mentor.py:75 | A non-empty `next_steps` wins. Otherwise `nextSteps` is used when present and non-empty. Otherwise the result is `[]`. |
| Mentor.RepairDifficulty | backend/routers/mentor.py:92-94 | A valid difficulty is kept. Any other difficulty becomes the target difficulty when that is truthy, else `"Medium"`. So the result is valid or the truthy target, and always valid when the target is valid or not truthy. |
| Mentor.Normalise | backend/routers/mentor.py:85-97 | The cleaned form of one recommendation. The slug is the trimmed slug. The title is the trimmed title, or the slug when that is empty. The reason is the trimmed reason, or `"Good next step."` when that is empty. The difficulty is the trimmed one when it is Easy, Medium or Hard, else the truthy target, else `"Medium"`. A missing field counts as `""`. |
| Mentor.NormaliseItem | backend/routers/mentor.py:85-97 | The loop body's field handling computes exactly `Normalise(r, target)`, so it obeys every field rule of that function's contract. |
| Mentor.CleanRecommendations | backend/routers/mentor.py:84-101 | The loop returns exactly `Cleaned(recs, solved, target)`. It appends to the catalog log one upsert per cleaned item, in order, with empty topics, and nothing else. |
| Mentor.CleanedSlugs | backend/routers/mentor.py:85-90 | The output slugs are exactly the trimmed input slugs that are non-empty and not solved. |
| Mentor.CleanedOrigins | backend/routers/mentor.py:84-97 | The output is an order-preserving selection of the normalised inputs. Input `j` is selected exactly when its trimmed slug is non-empty, not solved, and not carried by an earlier input, so the first occurrence wins. |
| Mentor.CleanedFields | backend/routers/mentor.py:85-97 | Output item `i` comes from an input `recs[idx[i]]` whose trimmed slug is non-empty, not solved and not carried by an earlier input. The item is `Normalise` of that input, so its slug, title, reason and difficulty follow the field rules stated there. Hence every output item has a non-empty, unsolved slug and a non-empty title and reason, and its difficulty is valid or the truthy target. |
| Mentor.CleanedDistinct | backend/routers/mentor.py:79-96 | Output slugs are pairwise distinct. |
| Mentor.WriteBackOrder | backend/routers/mentor.py:97-101 | There is one upsert per cleaned item, in the same order, with the item's slug, title and difficulty and topics `""`. |
| Mentor.WriteBackDistinct | backend/routers/mentor.py:90-101 | No slug is upserted twice. |
| Mentor.WriteBackSlugs | backend/routers/mentor.py:85-101 | The upserted slugs are exactly the trimmed input slugs that are non-empty and not solved. |
| Mentor.WriteBackCoversReturned | backend/routers/mentor.py:101-105 | The returned list is a prefix of the cleaned list, so each returned item was upserted at the same position, and the items cut off by `limit` were upserted too. |
| Mentor.MentorChat | backend/routers/mentor.py:25-107 | A failed model call gives HTTP 500 `"Ollama error: " + cause` and writes nothing. Otherwise the response holds the normalised reply, the cleaned list cut to `limit` and the normalised next steps, and every cleaned item has been upserted. The history lines are built row by row. |

## Left out

- The HTTP calls through httpx in `ollama_chat_json` and `get_embedding`, which are network I/O. The call's outcome is an input, and `get_embedding` is not modelled.
- `json.loads` is a foreign library. It is the parameter `parse`, so the model proves nothing about JSON syntax.
- Prompt assembly (backend/routers/mentor.py:30-65) only builds text from Python `repr` output. The history lines are modelled as records; their rendering as text is not.
- The database layer: `get_user_problem_history`, `get_user_topic_stats` and `upsert_problem` are not defined in backend/crud.py, so their behaviour is unknown. The history is an input, the topic stats are not used, and the upserts form a log. What an upsert does inside the database is not modelled.
- `message` and `weak_topics` in the payload appear only in the prompt text, so they have no effect on the model's outputs.
- JSON values of the wrong type are only partly modelled. The model's records admit only strings, lists of strings and lists of recommendation objects.
  - Falsy values (`0`, `false`, `[]`, `{}`, `""`) of a recommendation field, of `recommendations`, or of the next-steps keys become `""` or `[]` through the `or` at backend/routers/mentor.py:74-75 and 85-88. They are read as missing, which `None` in the model covers.
  - A truthy non-string recommendation field makes `.strip()` raise at backend/routers/mentor.py:85-88. A truthy non-list `recommendations` value raises there or at the loop of line 84. Neither error path is modelled.
  - An element of `recommendations` that is not an object, `null` included, makes `r.get` raise at backend/routers/mentor.py:85. This is not modelled.
  - A truthy `next_steps` or `nextSteps` value that is not a list, such as a plain string, passes the `or` at backend/routers/mentor.py:75 and goes into the response at line 106 without any error. The model cannot represent it.
- OllamaClient.ChatJson and Mentor.MentorChat: a direct parse that yields a JSON value other than an object (a list, a number, a string or `null`) is not modelled. The source returns such a value from backend/ollama_client.py:52 without trying the fallback. Then `obj.get` at backend/routers/mentor.py:73, outside the `try` of lines 67-70, raises an unhandled error with no "Ollama error" detail, and nothing is upserted. In the model, `parse` returns either a reply object or an error; an error there would wrongly trigger the brace-span fallback.
- OllamaClient.Content: a `message` or `content` that is present but `null` makes `.get` or `.strip()` raise at backend/ollama_client.py:47. The model has `None` only for a missing key, which reads as `""`, so this error path is not modelled.
- Mentor.CleanRecommendations: assumes every `upsert_problem` call succeeds. In the source, an upsert that raises part-way through the loop (backend/routers/mentor.py:101) ends the request with an error, and the upserts already made stay done. The model has no such failing path.
- Mentor.ReplyText: a `reply` key that is present but null passes `None` into `MentorChatOut` at backend/routers/mentor.py:104. What that class then does is unknown, because it is only imported at line 7 and not defined in backend/schemas.py. The model treats the null as missing (`""`).
- `MentorChatIn`, `MentorChatOut` and `MentorRecommendation` are imported at backend/routers/mentor.py:7, but backend/schemas.py does not define them. Whatever request validation (of `limit`, say) or response validation they perform is therefore unknown and not modelled. The model takes any integer `limit`, with Python's slice reading of negative values.
- `async`/`await` and concurrent requests. The handler runs as one sequential pass.
- Authentication (backend/deps.py), the judge-sync router (backend/routers/leetcode.py), the users router, the application wiring (backend/main.py) and the frontend are outside this core.
