# Medical report assistant: query service model

This project models the request-handling core of the medical report assistant's
Flask backend, `backend/llm_service_gemini.py`. A user's question about drug
interactions is sent to a language model. The model's reply is cleaned into a
bare Cypher query. The query must pass a keyword denylist before it is run
against the Neo4j drug-interaction graph, and the endpoint maps each outcome to
an HTTP status code and a JSON body.

The model is purely functional, as the source is: nothing in the core keeps
state between calls. It has three modules.

- `PyStr` (`py_str.dfy`) models the Python `str` operations the service uses:
  - `strip()`, with Python's full `isspace` set;
  - `replace(p, '')`, a leftmost, non-overlapping scan;
  - the substring test `p in s`;
  - `upper()`.
- `CypherQuery` (`cypher_query.dfy`) models `generate_cypher_query`:
  - cleaning the reply;
  - the denylist of `DELETE`, `DETACH`, `REMOVE`, `SET` and `DROP`;
  - the `(query, error)` pair it returns.
- `ChatApi` (`chat_api.dfy`) models `handle_chat_request` behind `POST /api/chat`.

The language model and the database are outside the model. They are passed in
as functions:
- `llm` maps a question to a reply: the reply's text, or the message of the
  exception the call raised.
- `db` maps the query argument to the records, or to an exception.

Because they are parameters, "the database is never consulted" can be stated
as a lemma. The response is the same whatever `db` would have answered.

Two behaviours of the code are modelled as written, because they matter.
- A body that has `user_question` is not rejected, even when the question is
  the empty string. Only a missing or empty body, or a missing key, gives 400.
- `if error:` tests Python truthiness. A model call whose exception message is
  empty therefore does not give 500. Execution falls through to the database
  with `None` as the query (`ChatApi.EmptyErrorReachesDatabase`).

## Model

| member | source | states |
|---|---|---|
| PyStr.IsSpace | backend/llm_service_gemini.py:66 | The characters `strip()` removes: Python's `str.isspace()` set, 0x09-0x0D, 0x1C-0x20, 0x85, 0xA0, 0x1680, 0x2000-0x200A, 0x2028, 0x2029, 0x202F, 0x205F and 0x3000. Its meaning is fixed by PyStr.LStrip, PyStr.RStrip and PyStr.StripOf. |
| PyStr.LStrip | backend/llm_service_gemini.py:66 | The result is a suffix of the input. Everything dropped is whitespace. The result does not start with whitespace. |
| PyStr.RStrip | backend/llm_service_gemini.py:66 | The result is a prefix of the input. Everything dropped is whitespace. The result does not end with whitespace. |
| PyStr.Strip | backend/llm_service_gemini.py:66-67 | The result has no whitespace at either end and is no longer than the input. |
| PyStr.StripOf | backend/llm_service_gemini.py:66-67 | Stripping whitespace-padded stripped text gives that text back, whatever the padding. |
| PyStr.StripStripped | backend/llm_service_gemini.py:67 | Stripping a stripped string changes nothing. |
| PyStr.Contains | backend/llm_service_gemini.py:71 | `p in s` as a left-to-right scan. PyStr.ContainsIffOccurs relates it to the positional definition. |
| PyStr.ContainsIffOccurs | backend/llm_service_gemini.py:71 | The left-to-right `in` scan holds exactly when the pattern occurs at some index (both directions). |
| PyStr.ContainsTrans | backend/llm_service_gemini.py:71 | A substring of a substring is a substring. |
| PyStr.ContainsSlice | backend/llm_service_gemini.py:71 | Whatever a slice contains, the whole string contains. |
| PyStr.ShortNotContains | backend/llm_service_gemini.py:71 | A string shorter than the pattern does not contain it. |
| PyStr.RemoveAll | backend/llm_service_gemini.py:67 | `replace(p, '')`: the result is no longer than the input. PyStr.RemoveAllAbsent and PyStr.RemoveAllAtLeftmost pin it down as the leftmost, non-overlapping removal. |
| PyStr.RemoveAllAbsent | backend/llm_service_gemini.py:67 | `replace(p, '')` leaves a string without `p` unchanged. |
| PyStr.RemoveAllKeepsHead | backend/llm_service_gemini.py:67 | Without a match at the front, `replace` keeps the first character and continues on the rest. |
| PyStr.RemoveAllAtLeftmost | backend/llm_service_gemini.py:67 | For the leftmost occurrence at `i`, the result is `s[..i]` followed by the removal applied after the match. This is CPython's find-and-skip loop. |
| PyStr.Upper | backend/llm_service_gemini.py:71 | Upper-casing keeps the length. |
| PyStr.UpperContains | backend/llm_service_gemini.py:71 | If `w` occurs in `s`, then `upper(w)` occurs in `upper(s)`. |
| CypherQuery.Clean | backend/llm_service_gemini.py:66-67 | The cleaned query has no whitespace at either end and contains no three-backtick fence. |
| CypherQuery.StripAddsNothing | backend/llm_service_gemini.py:67 | Stripping cannot create an occurrence of a pattern. |
| CypherQuery.NoFenceAfterRemoval | backend/llm_service_gemini.py:67 | After `replace('```', '')` no fence remains, even one formed by characters brought together by a removal. |
| CypherQuery.NoCypherFence | backend/llm_service_gemini.py:67 | A fence-free string contains no `cypher` fence. |
| CypherQuery.CleanIdempotent | backend/llm_service_gemini.py:66-67 | Cleaning a cleaned query changes nothing. |
| CypherQuery.RemoveAllSkips | backend/llm_service_gemini.py:67 | A backtick-free prefix passes through the removal of a backtick-led pattern unchanged. |
| CypherQuery.CleanFenced | backend/llm_service_gemini.py:66-67 | A stripped, backtick-free query inside a `cypher` code block, with any whitespace around the fences, cleans to the bare query. |
| CypherQuery.CleanCypherBlock | backend/llm_service_gemini.py:66-67 | The reply made of the cypher fence, a newline, `q`, a newline and a closing fence cleans to `q`. |
| CypherQuery.AnyIn | backend/llm_service_gemini.py:71 | `any(word in text for word in words)` holds exactly when some listed word occurs in the text (both directions). |
| CypherQuery.IsForbidden | backend/llm_service_gemini.py:70-71 | The gate: some denylisted keyword occurs in the upper-cased query. CypherQuery.AnyIn, CypherQuery.FragmentRejected and CypherQuery.DenylistExamples state what that means. |
| CypherQuery.GenerateCypherQuery | backend/llm_service_gemini.py:42-77 | Exactly one of query and error is present. A returned query is stripped, fence-free and passes the denylist, with no keyword in its upper-cased form. A failed model call returns `(None, str(e))`. |
| CypherQuery.GenerateSucceedsIff | backend/llm_service_gemini.py:64-74 | A query comes back exactly when the model replied and its cleaned reply has no keyword in upper case. That query is the cleaned reply. |
| CypherQuery.FragmentRejected | backend/llm_service_gemini.py:70-72 | Any fragment of the cleaned query whose upper-cased form holds a keyword causes rejection with the security message. The check is case-insensitive and substring based. |
| CypherQuery.DenylistExamples | backend/llm_service_gemini.py:70-71 | `set`, `Set` and `offset` are all forbidden. The last is forbidden only because `OFFSET` contains `SET`. |
| ChatApi.Truthy | backend/llm_service_gemini.py:93 | `if error:` as Python truthiness: `None` and the empty string are false. ChatApi.GenerationErrorReported and ChatApi.EmptyErrorReachesDatabase state both sides. |
| ChatApi.HandleChatRequest | backend/llm_service_gemini.py:83-110 | The status is 400 exactly when the body or `user_question` is missing. It is 200 exactly for the success body. Only 200, 400 and 500 occur. A returned `query_used` is stripped, fence-free and free of denylisted keywords. |
| ChatApi.MissingQuestionRejected | backend/llm_service_gemini.py:84-86 | A missing body or key gives 400 with the fixed message. The model and the database do not affect the response. |
| ChatApi.QuestionForwarded | backend/llm_service_gemini.py:85-91 | A present question, even the empty string, is not rejected with 400. Only the model's reply to that question matters. |
| ChatApi.GenerationErrorReported | backend/llm_service_gemini.py:91-94 | A non-empty generation error gives 500, with `Query generation failed` and the error as `details`. The database does not affect the response. |
| ChatApi.ForbiddenQueryRefused | backend/llm_service_gemini.py:70-94 | A cleaned reply that trips the denylist gives 500 with the security message as `details`. |
| ChatApi.OnlySafeQueriesRun | backend/llm_service_gemini.py:70-100 | The database is only queried with `None` or a query that passed the denylist. Two databases that agree on those inputs give the same response. |
| ChatApi.DatabaseErrorHidden | backend/llm_service_gemini.py:108-110 | A database exception gives 500 with the fixed error and message. Nothing of the exception reaches the response. |
| ChatApi.SuccessResponse | backend/llm_service_gemini.py:97-106 | A clean reply and a working database give 200, with the records unchanged and the cleaned query as `query_used`. |
| ChatApi.EmptyErrorReachesDatabase | backend/llm_service_gemini.py:76-100 | A model failure with an empty message is not reported. The database runs with `None`, and its outcome decides the response. |

## Left out

- Configuration is not modelled: loading `.env`, reading the environment, the startup `ValueError` and the credential warning (lines 13-37).
- The Flask app, CORS, routing, `jsonify` and the `__main__` server start are not modelled. Responses are a status code paired with a datatype for the JSON body.
- The Gemini call and its prompt text (lines 44-64) are not modelled. The model's reply is a parameter: the reply text, or the message of the exception raised.
- The py2neo connection and `graph.run(...).data()` (lines 99-100) are not modelled. Their outcome is a parameter: the records, or an exception.
- `DbReply.DbRaised` also stands for a list of records that `jsonify` cannot serialise. Lines 99-106 share one `try`, so that `TypeError` also gives the 500 "Database execution error" response. `Records(rows)` means records that serialise.
- Request bodies that are JSON values other than objects (lists, strings, numbers) are not modelled. Neither is Flask's own error response for a request that is not JSON. The body is either absent or an object.
- PyStr.Upper: upper-cases only ASCII letters. Python's full Unicode mapping can also turn `ß` into `SS`, `ſ` into `S` and `ı` into `I`. It can therefore reject some queries the model accepts.
- PyStr.RemoveAll: its own contract gives only the length bound. That it removes exactly the leftmost, non-overlapping occurrences is stated by PyStr.RemoveAllAbsent, PyStr.RemoveAllKeepsHead and PyStr.RemoveAllAtLeftmost.
- PyStr.Strip: states only that both ends are stripped and that the length does not grow. That only whitespace is removed is stated by PyStr.LStrip, PyStr.RStrip and PyStr.StripOf.
- Exceptions other than a failed model call are not modelled. No other part of `generate_cypher_query` can raise on a string reply.
- Determinism of the endpoint is not stated as a separate property. Every member here is a mathematical function of its inputs.
- An empty `user_question` is not rejected: line 85 only checks that the key is present (see ChatApi.QuestionForwarded).
