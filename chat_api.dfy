/** `handle_chat_request` behind `POST /api/chat`: validate the JSON body,
    generate a query, run it, and map each outcome to a status code and a
    JSON body. The language model and the Neo4j database are parameters:
    `llm` gives the model's reply for a question, `db` the outcome of running
    a query (the Python code passes `None` when no query came back). */
module ChatApi {
  import opened PyStr
  import opened CypherQuery

  const QuestionKey: string := "user_question"
  const MissingQuestion: string := "Missing 'user_question' in request body"
  const GenerationFailed: string := "Query generation failed"
  const DatabaseFailed: string := "Database execution error"
  const DatabaseFailedMessage: string := "Check your query or connection."
  const SuccessStatus: string := "success"

  /** What `Graph(...).run(query).data()` gave: the records, or an exception. */
  datatype DbReply<R> = Records(rows: seq<R>) | DbRaised(message: string)

  /** The JSON bodies the endpoint returns, one constructor per shape. */
  datatype ResponseBody<R> =
    | ErrorBody(error: string)                          // {"error"}
    | ErrorDetails(error: string, details: string)      // {"error", "details"}
    | ErrorMessage(error: string, message: string)      // {"error", "message"}
    | SuccessBody(status: string, retrievedData: seq<R>, queryUsed: Option<string>)
                                                        // {"status", "retrieved_data", "query_used"}

  datatype Response<R> = Response(code: int, body: ResponseBody<R>)

  /** Python truthiness of the error component: `None` and `''` are false. */
  predicate Truthy(error: Option<string>) {
    error.Some? && error.value != ""
  }

  /** `handle_chat_request`. `data` is `request.json`: `None`, or a JSON object
      whose values have type `V`. */
  function HandleChatRequest<V, R>(data: Option<map<string, V>>, llm: V -> LlmReply, db: Option<string> -> DbReply<R>): (resp: Response<R>)
    ensures resp.code == 400 <==> data.None? || QuestionKey !in data.value
    ensures resp.code == 200 <==> resp.body.SuccessBody?
    ensures resp.code == 200 || resp.code == 400 || resp.code == 500
    ensures resp.body.SuccessBody? && resp.body.queryUsed.Some? ==>
      var q := resp.body.queryUsed.value;
      IsStripped(q) && !Contains(q, Fence) &&
      forall k :: 0 <= k < |ForbiddenKeywords| ==> !Contains(Upper(q), ForbiddenKeywords[k])
  {
    if data.None? || data.value == map[] || QuestionKey !in data.value then
      Response(400, ErrorBody(MissingQuestion))
    else
      var question := data.value[QuestionKey];
      var (query, error) := GenerateCypherQuery(llm(question));
      if Truthy(error) then
        Response(500, ErrorDetails(GenerationFailed, error.value))
      else
        match db(query)
        case Records(rows) => Response(200, SuccessBody(SuccessStatus, rows, query))
        case DbRaised(_) => Response(500, ErrorMessage(DatabaseFailed, DatabaseFailedMessage))
  }

  /** A missing body or a body without `user_question` gets 400 with the fixed
      message, whatever the model and the database would have done: neither is
      consulted. */
  lemma MissingQuestionRejected<V, R>(data: Option<map<string, V>>,
                                      llm1: V -> LlmReply, db1: Option<string> -> DbReply<R>,
                                      llm2: V -> LlmReply, db2: Option<string> -> DbReply<R>)
    requires data.None? || QuestionKey !in data.value
    ensures HandleChatRequest(data, llm1, db1) == Response(400, ErrorBody(MissingQuestion))
    ensures HandleChatRequest(data, llm1, db1) == HandleChatRequest(data, llm2, db2)
  {
  }

  /** A present question, even the empty string, is passed on to the model:
      only the model's reply to that question matters. */
  lemma QuestionForwarded<R>(question: string, llm1: string -> LlmReply, llm2: string -> LlmReply,
                             db: Option<string> -> DbReply<R>)
    requires llm1(question) == llm2(question)
    ensures HandleChatRequest(Some(map[QuestionKey := question]), llm1, db).code != 400
    ensures HandleChatRequest(Some(map[QuestionKey := question]), llm1, db) ==
            HandleChatRequest(Some(map[QuestionKey := question]), llm2, db)
  {
  }

  /** A non-empty generation error gives 500 with that error as `details`,
      and the database is never reached. */
  lemma GenerationErrorReported<V, R>(data: map<string, V>, llm: V -> LlmReply,
                                      db1: Option<string> -> DbReply<R>, db2: Option<string> -> DbReply<R>, e: string)
    requires QuestionKey in data
    requires GenerateCypherQuery(llm(data[QuestionKey])).1 == Some(e) && e != ""
    ensures HandleChatRequest(Some(data), llm, db1) == Response(500, ErrorDetails(GenerationFailed, e))
    ensures HandleChatRequest(Some(data), llm, db1) == HandleChatRequest(Some(data), llm, db2)
  {
  }

  /** A query that trips the denylist is answered with 500 and the security
      message, and is never run. */
  lemma ForbiddenQueryRefused<V, R>(data: map<string, V>, llm: V -> LlmReply, db: Option<string> -> DbReply<R>)
    requires QuestionKey in data && llm(data[QuestionKey]).Completion?
    requires IsForbidden(Clean(llm(data[QuestionKey]).text))
    ensures HandleChatRequest(Some(data), llm, db) == Response(500, ErrorDetails(GenerationFailed, SecurityViolation))
  {
  }

  /** The database only ever sees a query that passed the denylist (or `None`):
      two databases that agree on those inputs give the same response. */
  lemma OnlySafeQueriesRun<V, R>(data: Option<map<string, V>>, llm: V -> LlmReply,
                                 db1: Option<string> -> DbReply<R>, db2: Option<string> -> DbReply<R>)
    requires db1(None) == db2(None)
    requires forall q :: !IsForbidden(q) ==> db1(Some(q)) == db2(Some(q))
    ensures HandleChatRequest(data, llm, db1) == HandleChatRequest(data, llm, db2)
  {
    if data.Some? && QuestionKey in data.value {
      var query := GenerateCypherQuery(llm(data.value[QuestionKey])).0;
      assert db1(query) == db2(query) by {
        if query.Some? {
          assert !IsForbidden(query.value);
        }
      }
    }
  }

  /** A database failure gives 500 with the fixed body; nothing of the
      exception's message reaches the response. */
  lemma DatabaseErrorHidden<V, R>(data: map<string, V>, llm: V -> LlmReply, db: Option<string> -> DbReply<R>)
    requires QuestionKey in data
    requires !Truthy(GenerateCypherQuery(llm(data[QuestionKey])).1)
    requires db(GenerateCypherQuery(llm(data[QuestionKey])).0).DbRaised?
    ensures HandleChatRequest(Some(data), llm, db) == Response(500, ErrorMessage(DatabaseFailed, DatabaseFailedMessage))
  {
  }

  /** A clean reply and a working database give 200 with the records
      unchanged and the generated query as `query_used`. */
  lemma SuccessResponse<V, R>(data: map<string, V>, llm: V -> LlmReply, db: Option<string> -> DbReply<R>, text: string, rows: seq<R>)
    requires QuestionKey in data && llm(data[QuestionKey]) == Completion(text)
    requires !IsForbidden(Clean(text))
    requires db(Some(Clean(text))) == Records(rows)
    ensures HandleChatRequest(Some(data), llm, db) == Response(200, SuccessBody(SuccessStatus, rows, Some(Clean(text))))
  {
  }

  /** `if error:` tests truthiness, so a model failure whose message is empty
      falls through to the database step with no query at all. */
  lemma EmptyErrorReachesDatabase<V, R>(data: map<string, V>, llm: V -> LlmReply, db: Option<string> -> DbReply<R>)
    requires QuestionKey in data && llm(data[QuestionKey]) == Raised("")
    ensures HandleChatRequest(Some(data), llm, db) ==
      match db(None)
      case Records(rows) => Response(200, SuccessBody(SuccessStatus, rows, None))
      case DbRaised(_) => Response(500, ErrorMessage(DatabaseFailed, DatabaseFailedMessage))
  {
  }
}
